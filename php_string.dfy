/** The byte-string functions of PHP's standard library that the engine
    uses: `str_replace`, `explode`/`implode`, `trim`, `strtoupper`,
    `strtolower` and the digit filter `preg_replace('/[^0-9]/', '', ...)`.
    A `char` stands for one byte; case mapping is ASCII only, as in PHP 8.2. */
module PhpString {

  predicate HasPrefix(s: string, p: string)
  {
    |p| <= |s| && s[..|p|] == p
  }

  /** `p` occurs somewhere in `s` (`strpos($s, $p) !== false`). */
  predicate Occurs(p: string, s: string)
    decreases |s|
  {
    HasPrefix(s, p) || (s != [] && Occurs(p, s[1..]))
  }

  lemma {:induction false} OccursChar(c: char, s: string)
    ensures Occurs([c], s) <==> c in s
    decreases |s|
  {
    if s != [] {
      OccursChar(c, s[1..]);
      assert s == [s[0]] + s[1..];
      assert HasPrefix(s, [c]) <==> s[0] == c;
    }
  }

  lemma PrefixOfExtended(s: string, p: string, q: string)
    ensures HasPrefix(s, p + q) ==> HasPrefix(s, p)
  {
    if HasPrefix(s, p + q) {
      assert s[..|p|] == (p + q)[..|p|] == p;
    }
  }

  /** A string without `p` has none of `p`'s extensions either. */
  lemma {:induction false} NotOccursExtended(p: string, q: string, s: string)
    requires !Occurs(p, s)
    ensures !Occurs(p + q, s)
    decreases |s|
  {
    PrefixOfExtended(s, p, q);
    if s != [] {
      NotOccursExtended(p, q, s[1..]);
    }
  }

  /** PHP's `str_replace($search, $rep, $s)` for one search string: the
      leftmost occurrence is replaced first, the scan resumes after it and
      the inserted text is not scanned again. An empty search string leaves
      the subject unchanged. */
  function StrReplace(search: string, rep: string, s: string): string
    decreases |s|
  {
    if search == [] then s
    else if HasPrefix(s, search) then rep + StrReplace(search, rep, s[|search|..])
    else if s == [] then []
    else [s[0]] + StrReplace(search, rep, s[1..])
  }

  /** PHP's `explode($sep, $s)` without a limit. */
  function Explode(sep: string, s: string): (parts: seq<string>)
    requires sep != []
    ensures |parts| >= 1
    decreases |s|
  {
    if HasPrefix(s, sep) then [""] + Explode(sep, s[|sep|..])
    else if s == [] then [""]
    else
      var t := Explode(sep, s[1..]);
      [[s[0]] + t[0]] + t[1..]
  }

  /** PHP's `implode($glue, $parts)`. */
  function Implode(glue: string, parts: seq<string>): string
    decreases |parts|
  {
    if |parts| == 0 then []
    else if |parts| == 1 then parts[0]
    else parts[0] + glue + Implode(glue, parts[1..])
  }

  lemma ImplodeConsHead(glue: string, c: char, t: seq<string>)
    requires |t| >= 1
    ensures Implode(glue, [[c] + t[0]] + t[1..]) == [c] + Implode(glue, t)
  {
    var u := [[c] + t[0]] + t[1..];
    assert u[1..] == t[1..];
  }

  /** Joining the pieces of `explode` with the separator gives the original
      string back. */
  lemma {:induction false} ImplodeExplode(sep: string, s: string)
    requires sep != []
    ensures Implode(sep, Explode(sep, s)) == s
    decreases |s|
  {
    if HasPrefix(s, sep) {
      var rest := s[|sep|..];
      ImplodeExplode(sep, rest);
      var e := Explode(sep, rest);
      assert ([""] + e)[1..] == e;
      assert s == sep + rest;
    } else if s != [] {
      ImplodeExplode(sep, s[1..]);
      ImplodeConsHead(sep, s[0], Explode(sep, s[1..]));
      assert s == [s[0]] + s[1..];
    }
  }

  /** `str_replace` is `implode($rep, explode($search, $s))`: an independent
      definition of the same left-to-right replacement. */
  lemma {:induction false} StrReplaceIsImplodeExplode(search: string, rep: string, s: string)
    requires search != []
    ensures StrReplace(search, rep, s) == Implode(rep, Explode(search, s))
    decreases |s|
  {
    if HasPrefix(s, search) {
      var rest := s[|search|..];
      StrReplaceIsImplodeExplode(search, rep, rest);
      var e := Explode(search, rest);
      assert ([""] + e)[1..] == e;
    } else if s != [] {
      StrReplaceIsImplodeExplode(search, rep, s[1..]);
      ImplodeConsHead(rep, s[0], Explode(search, s[1..]));
    }
  }

  /** Replacing a string by itself changes nothing. */
  lemma StrReplaceSelf(search: string, s: string)
    ensures StrReplace(search, search, s) == s
  {
    if search != [] {
      StrReplaceIsImplodeExplode(search, search, s);
      ImplodeExplode(search, s);
    }
  }

  /** A subject that does not contain the search string is returned as is. */
  lemma {:induction false} StrReplaceAbsent(search: string, rep: string, s: string)
    requires !Occurs(search, s)
    ensures StrReplace(search, rep, s) == s
    decreases |s|
  {
    if search != [] && s != [] {
      StrReplaceAbsent(search, rep, s[1..]);
      assert s == [s[0]] + s[1..];
    }
  }

  /** A string without the first character of `p` does not contain `p`. */
  lemma NoFirstChar(p: string, s: string)
    requires p != [] && p[0] !in s
    ensures !Occurs(p, s)
  {
    OccursChar(p[0], s);
    NotOccursExtended([p[0]], p[1..], s);
    assert [p[0]] + p[1..] == p;
  }

  /** Text before the first character of the search string is copied, and
      replacing goes on with the rest. */
  lemma {:induction false} StrReplacePlainPrefix(search: string, rep: string, u: string, w: string)
    requires search != [] && search[0] !in u
    ensures StrReplace(search, rep, u + w) == u + StrReplace(search, rep, w)
    decreases |u|
  {
    if u != [] {
      assert (u + w)[0] == u[0];
      assert (u + w)[1..] == u[1..] + w;
      StrReplacePlainPrefix(search, rep, u[1..], w);
      assert u == [u[0]] + u[1..];
    } else {
      assert u + w == w;
    }
  }

  /** The subject that is exactly the search string becomes the replacement. */
  lemma StrReplaceWhole(search: string, rep: string)
    requires search != []
    ensures StrReplace(search, rep, search) == rep
  {
    assert search[|search|..] == [];
  }

  /** Exploding on a character that does not occur gives the whole string. */
  lemma {:induction false} ExplodeAbsent(c: char, s: string)
    requires c !in s
    ensures Explode([c], s) == [s]
    decreases |s|
  {
    if s != [] {
      assert s[0] != c;
      ExplodeAbsent(c, s[1..]);
      assert s == [s[0]] + s[1..];
    }
  }

  /** Exploding `a + c + b`, where `a` has no `c`, splits off `a` first. */
  lemma {:induction false} ExplodeSplit(c: char, a: string, b: string)
    requires c !in a
    ensures Explode([c], a + [c] + b) == [a] + Explode([c], b)
    decreases |a|
  {
    var s := a + [c] + b;
    if a == [] {
      assert s == [c] + b;
      assert HasPrefix(s, [c]);
      assert s[1..] == b;
    } else {
      assert s[0] == a[0] != c;
      assert s[1..] == a[1..] + [c] + b;
      ExplodeSplit(c, a[1..], b);
      assert [a[0]] + a[1..] == a;
    }
  }

  /** No piece of `explode` on a character contains that character. */
  lemma {:induction false} ExplodePiecesFree(c: char, s: string)
    ensures forall i :: 0 <= i < |Explode([c], s)| ==> c !in Explode([c], s)[i]
    decreases |s|
  {
    if s != [] {
      ExplodePiecesFree(c, s[1..]);
    }
  }

  /** `explode($c, $s, 2)` for an `s` that contains `c`: the text before the
      first `c` and the text after it. */
  function SplitFirst(c: char, s: string): (r: (string, string))
    requires c in s
    ensures r.0 + [c] + r.1 == s
    ensures c !in r.0
    decreases |s|
  {
    if s[0] == c then ([], s[1..])
    else
      var t := SplitFirst(c, s[1..]);
      ([s[0]] + t.0, t.1)
  }

  /** The limited split agrees with the unlimited one on the first piece. */
  lemma SplitFirstIsFirstPiece(c: char, s: string)
    requires c in s
    ensures SplitFirst(c, s).0 == Explode([c], s)[0]
  {
    var r := SplitFirst(c, s);
    ExplodeSplit(c, r.0, r.1);
  }

  /** Strip leading characters of `cs`. */
  function TrimLeft(s: string, cs: set<char>): (r: string)
    ensures |r| <= |s| && r == s[|s| - |r|..]
    ensures r != [] ==> r[0] !in cs
    ensures forall i :: 0 <= i < |s| - |r| ==> s[i] in cs
    decreases |s|
  {
    if s != [] && s[0] in cs then TrimLeft(s[1..], cs) else s
  }

  /** Strip trailing characters of `cs`. */
  function TrimRight(s: string, cs: set<char>): (r: string)
    ensures |r| <= |s| && r == s[..|r|]
    ensures r != [] ==> r[|r| - 1] !in cs
    ensures forall i :: |r| <= i < |s| ==> s[i] in cs
    decreases |s|
  {
    if s != [] && s[|s| - 1] in cs then TrimRight(s[..|s| - 1], cs) else s
  }

  /** PHP's `trim($s, $chars)` for a character list without ranges. */
  function TrimChars(s: string, cs: set<char>): string
  {
    TrimRight(TrimLeft(s, cs), cs)
  }

  /** `trim` cuts a run of `cs` characters off each end and keeps the
      slice in between, whose end characters are not in `cs`. */
  lemma TrimCharsShape(s: string, cs: set<char>)
    ensures var r := TrimChars(s, cs);
      var i := |s| - |TrimLeft(s, cs)|;
      && i + |r| <= |s| && r == s[i..i + |r|]
      && (r != [] ==> r[0] !in cs && r[|r| - 1] !in cs)
      && (forall k :: 0 <= k < i ==> s[k] in cs)
      && (forall k :: i + |r| <= k < |s| ==> s[k] in cs)
  {
    var l := TrimLeft(s, cs);
    var r := TrimRight(l, cs);
    SliceOfSuffix(s, l, r, cs);
  }

  /** A prefix `r` of the suffix `l` of `s`: where `r` sits in `s`, and the
      characters of `s` past it. */
  lemma SliceOfSuffix(s: string, l: string, r: string, cs: set<char>)
    requires |l| <= |s| && l == s[|s| - |l|..]
    requires |r| <= |l| && r == l[..|r|]
    requires l != [] ==> l[0] !in cs
    requires r != [] ==> r[|r| - 1] !in cs
    requires forall k :: |r| <= k < |l| ==> l[k] in cs
    ensures var i := |s| - |l|;
      && r == s[i..i + |r|]
      && (r != [] ==> r[0] !in cs)
      && (forall k :: i + |r| <= k < |s| ==> s[k] in cs)
  {
    var i := |s| - |l|;
    forall k | i + |r| <= k < |s| ensures s[k] in cs {
      assert s[k] == l[k - i];
    }
    assert r != [] ==> r[0] == l[0];
  }

  /** A string whose ends are outside `cs` is left alone by trimming. */
  lemma TrimCharsClean(s: string, cs: set<char>)
    requires s != [] ==> s[0] !in cs && s[|s| - 1] !in cs
    ensures TrimChars(s, cs) == s
  {
  }

  /** The characters PHP's `trim` strips by default. */
  const Whitespace: set<char> := {' ', '\t', '\n', '\r', '\0', '\U{B}'}

  /** PHP's `trim($s)` with its default character list. */
  function Trim(s: string): string
  {
    TrimChars(s, Whitespace)
  }

  predicate IsLowerAscii(c: char) { 'a' <= c <= 'z' }

  predicate IsUpperAscii(c: char) { 'A' <= c <= 'Z' }

  predicate IsDigit(c: char) { '0' <= c <= '9' }

  function UpperChar(c: char): char
  {
    if IsLowerAscii(c) then (c as int - 32) as char else c
  }

  function LowerChar(c: char): char
  {
    if IsUpperAscii(c) then (c as int + 32) as char else c
  }

  /** PHP 8.2's locale-independent `strtoupper`. */
  function StrToUpper(s: string): (r: string)
    ensures |r| == |s|
    ensures forall i :: 0 <= i < |s| ==> r[i] == UpperChar(s[i])
    decreases |s|
  {
    if s == [] then [] else [UpperChar(s[0])] + StrToUpper(s[1..])
  }

  /** PHP 8.2's locale-independent `strtolower`. */
  function StrToLower(s: string): (r: string)
    ensures |r| == |s|
    ensures forall i :: 0 <= i < |s| ==> r[i] == LowerChar(s[i])
    decreases |s|
  {
    if s == [] then [] else [LowerChar(s[0])] + StrToLower(s[1..])
  }

  /** `strtolower` works character by character, so it distributes over
      concatenation. */
  lemma {:induction false} StrToLowerConcat(a: string, b: string)
    ensures StrToLower(a + b) == StrToLower(a) + StrToLower(b)
    decreases |a|
  {
    if a == [] {
      assert a + b == b;
    } else {
      var ab := a + b;
      assert ab[0] == a[0] && ab[1..] == a[1..] + b;
      StrToLowerConcat(a[1..], b);
    }
  }

  lemma {:induction false} StrToUpperConcat(a: string, b: string)
    ensures StrToUpper(a + b) == StrToUpper(a) + StrToUpper(b)
    decreases |a|
  {
    if a == [] {
      assert a + b == b;
    } else {
      var ab := a + b;
      assert ab[0] == a[0] && ab[1..] == a[1..] + b;
      StrToUpperConcat(a[1..], b);
    }
  }

  predicate AllDigits(s: string)
  {
    forall i :: 0 <= i < |s| ==> IsDigit(s[i])
  }

  /** `preg_replace('/[^0-9]/', '', $s)`: the digits of `s`, in order. */
  function DigitsOnly(s: string): (r: string)
    ensures |r| <= |s|
    ensures forall i :: 0 <= i < |r| ==> IsDigit(r[i])
    decreases |s|
  {
    if s == [] then []
    else if IsDigit(s[0]) then [s[0]] + DigitsOnly(s[1..])
    else DigitsOnly(s[1..])
  }

  lemma {:induction false} DigitsOnlyConcat(a: string, b: string)
    ensures DigitsOnly(a + b) == DigitsOnly(a) + DigitsOnly(b)
    decreases |a|
  {
    if a != [] {
      DigitsOnlyConcat(a[1..], b);
      var ab := a + b;
      assert ab != [] && ab[0] == a[0];
      assert ab[1..] == a[1..] + b;
      if IsDigit(a[0]) {
        assert DigitsOnly(ab) == [a[0]] + DigitsOnly(ab[1..]);
      } else {
        assert DigitsOnly(ab) == DigitsOnly(ab[1..]);
      }
    } else {
      assert a + b == b;
    }
  }

  /** Concatenation regrouped, as a step a proof can name. */
  lemma Associative(a: string, b: string, c: string)
    ensures (a + b) + c == a + (b + c)
  {
  }

  /** The only occurrence of the search string, with text around it that
      lacks its first character, is replaced. */
  lemma StrReplaceOnce(search: string, rep: string, u: string, w: string)
    requires search != [] && search[0] !in u && search[0] !in w
    ensures StrReplace(search, rep, u + search + w) == u + rep + w
  {
    assert u + search + w == u + (search + w);
    StrReplacePlainPrefix(search, rep, u, search + w);
    StrReplaceAtFront(search, rep, w);
    NoFirstChar(search, w);
    StrReplaceAbsent(search, rep, w);
    assert u + (rep + w) == u + rep + w;
  }

  lemma StrReplaceAtFront(search: string, rep: string, w: string)
    requires search != []
    ensures StrReplace(search, rep, search + w) == rep + StrReplace(search, rep, w)
  {
    assert (search + w)[..|search|] == search;
    assert (search + w)[|search|..] == w;
  }

  /** A string of digits is its own digit filter. */
  lemma {:induction false} DigitsOnlyOfDigits(s: string)
    requires forall i :: 0 <= i < |s| ==> IsDigit(s[i])
    ensures DigitsOnly(s) == s
    decreases |s|
  {
    if s != [] {
      DigitsOnlyOfDigits(s[1..]);
      assert s == [s[0]] + s[1..];
    }
  }

  /** A string without digits filters to nothing. */
  lemma {:induction false} DigitsOnlyNoDigits(s: string)
    requires forall i :: 0 <= i < |s| ==> !IsDigit(s[i])
    ensures DigitsOnly(s) == []
    decreases |s|
  {
    if s != [] {
      DigitsOnlyNoDigits(s[1..]);
    }
  }

  /** The string form of an array, `Array`, has no digits. */
  lemma DigitsOfArray()
    ensures DigitsOnly("Array") == []
  {
    DigitsOnlyNoDigits("Array");
  }

  /** Digits followed by a separator without digits: the filter keeps the
      digits and drops the separator. */
  lemma DigitsOnlyJoin(a: string, sep: string, b: string)
    requires forall i :: 0 <= i < |a| ==> IsDigit(a[i])
    requires forall i :: 0 <= i < |sep| ==> !IsDigit(sep[i])
    ensures DigitsOnly(a + sep + b) == a + DigitsOnly(b)
  {
    var head := a + sep;
    DigitsOnlyConcat(head, b);
    DigitsOnlyConcat(a, sep);
    DigitsOnlyOfDigits(a);
    DigitsOnlyNoDigits(sep);
    assert DigitsOnly(head) == a;
  }
}
