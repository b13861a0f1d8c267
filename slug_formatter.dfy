/** src/Formatters/SlugFormatter.php: lower-case and trim the value, turn
    every run of characters outside `[a-z0-9]` into one separator, and trim
    the separator's characters from both ends. */
module SlugFormatter {
  import opened Values
  import opened PhpString
  import opened Contracts

  const Name: string := "slug"

  const DefaultSeparator: string := "-"

  predicate IsSlugChar(c: char)
  {
    'a' <= c <= 'z' || '0' <= c <= '9'
  }

  /** `$args[0] ?? '-'`, used as a string. */
  function Separator(args: seq<Value>): string
  {
    if |args| > 0 && args[0] != VNull then ToStr(args[0]) else DefaultSeparator
  }

  /** Drops the leading run of characters outside `[a-z0-9]`. */
  function SkipRun(s: string): (r: string)
    ensures |r| <= |s| && r == s[|s| - |r|..]
    ensures r != [] ==> IsSlugChar(r[0])
    ensures forall i :: 0 <= i < |s| - |r| ==> !IsSlugChar(s[i])
    decreases |s|
  {
    if s != [] && !IsSlugChar(s[0]) then SkipRun(s[1..]) else s
  }

  /** `preg_replace('/[^a-z0-9]+/', $sep, $s)`: each maximal run of other
      characters becomes one copy of `sep`. */
  function Collapse(s: string, sep: string): (r: string)
    ensures forall i :: 0 <= i < |r| ==> IsSlugChar(r[i]) || r[i] in sep
    ensures s != [] && IsSlugChar(s[0]) ==> r != [] && r[0] == s[0]
    decreases |s|
  {
    if s == [] then []
    else if IsSlugChar(s[0]) then [s[0]] + Collapse(s[1..], sep)
    else sep + Collapse(SkipRun(s), sep)
  }

  /** The characters of `s`, as the character list of `trim($s, $chars)`. */
  function CharSet(s: string): (r: set<char>)
    ensures forall c :: c in r <==> c in s
  {
    set c | c in s
  }

  /** `preg_replace` of the runs, then `trim` of the separator's characters;
      its shape is stated by `SlugShape` and `SlugKeepsLettersAndDigits`. */
  function Slug(s: string, sep: string): string
  {
    TrimChars(Collapse(StrToLower(Trim(s)), sep), CharSet(sep))
  }

  /** Strings and numbers. Objects with `__toString` are not modelled. */
  predicate CanFormat(v: Value)
  {
    IsStringOrNumeric(v)
  }

  /** An object throws: its `(string)` cast raises an Error, as objects
      with `__toString` are not modelled. Any other value gives a slug that
      keeps exactly the letters and digits of the trimmed, lower-cased value
      when the separator has none of its own. */
  function Format(v: Value, args: seq<Value>): (r: Outcome<string>)
    ensures r.Done? <==> !v.VObj?
    ensures r.Done? && (forall i :: 0 <= i < |Separator(args)| ==> !IsSlugChar(Separator(args)[i])) ==>
      Kept(r.value) == Kept(StrToLower(Trim(ToStr(v))))
  {
    if v.VObj? then Threw
    else
      var sep := Separator(args);
      if forall i :: 0 <= i < |sep| ==> !IsSlugChar(sep[i]) then
        SlugKeepsLettersAndDigits(ToStr(v), sep);
        Done(Slug(ToStr(v), sep))
      else Done(Slug(ToStr(v), sep))
  }

  function Plugin(): (p: FormatterPlugin)
    ensures p.name == "slug"
  {
    FormatterPlugin(Name, CanFormat, Format)
  }

  /** The shape of a slug over a one-character separator `c`: only
      `[a-z0-9]` and `c`, never two `c` in a row, and no `c` at either end. */
  ghost predicate SlugShaped(r: string, c: char)
  {
    && (forall i :: 0 <= i < |r| ==> IsSlugChar(r[i]) || r[i] == c)
    && (forall i :: 0 <= i < |r| - 1 ==> r[i] == c ==> r[i + 1] != c)
    && (r != [] ==> r[0] != c && r[|r| - 1] != c)
  }

  ghost predicate NoDoubled(r: string, c: char)
  {
    forall i :: 0 <= i < |r| - 1 ==> r[i] == c ==> r[i + 1] != c
  }

  lemma {:induction false} CollapseNoDoubled(s: string, c: char)
    requires !IsSlugChar(c)
    ensures NoDoubled(Collapse(s, [c]), c)
    decreases |s|
  {
    if s != [] {
      var r := Collapse(s, [c]);
      if IsSlugChar(s[0]) {
        CollapseNoDoubled(s[1..], c);
        var t := Collapse(s[1..], [c]);
        assert r == [s[0]] + t;
        forall i | 0 <= i < |r| - 1 && r[i] == c ensures r[i + 1] != c {
          assert i > 0 && r[i] == t[i - 1] && r[i + 1] == t[i];
        }
      } else {
        var rest := SkipRun(s);
        CollapseNoDoubled(rest, c);
        var t := Collapse(rest, [c]);
        assert r == [c] + t;
        forall i | 0 <= i < |r| - 1 && r[i] == c ensures r[i + 1] != c {
          if i == 0 {
            assert t != [] && IsSlugChar(t[0]);
          } else {
            assert r[i] == t[i - 1] && r[i + 1] == t[i];
          }
        }
      }
    }
  }

  lemma TrimKeepsShape(x: string, c: char)
    requires forall i :: 0 <= i < |x| ==> IsSlugChar(x[i]) || x[i] == c
    requires NoDoubled(x, c)
    ensures SlugShaped(TrimChars(x, {c}), c)
  {
    var r := TrimChars(x, {c});
    TrimCharsShape(x, {c});
    var i := |x| - |TrimLeft(x, {c})|;
    SliceShape(x, c, i, i + |r|, r);
  }

  /** A slice keeps the characters and the single separators. */
  lemma SliceShape(x: string, c: char, i: nat, j: nat, r: string)
    requires i <= j <= |x| && r == x[i..j]
    requires forall n :: 0 <= n < |x| ==> IsSlugChar(x[n]) || x[n] == c
    requires NoDoubled(x, c)
    ensures forall n :: 0 <= n < |r| ==> IsSlugChar(r[n]) || r[n] == c
    ensures NoDoubled(r, c)
  {
    forall n | 0 <= n < |r| ensures IsSlugChar(r[n]) || r[n] == c {
      assert r[n] == x[i + n];
    }
    forall n | 0 <= n < |r| - 1 && r[n] == c ensures r[n + 1] != c {
      assert r[n] == x[i + n] && r[n + 1] == x[i + n + 1];
    }
  }

  /** With a one-character separator that is not itself a slug character,
      the result is words of `[a-z0-9]` joined by single separators. */
  lemma SlugShape(s: string, c: char)
    requires !IsSlugChar(c)
    ensures SlugShaped(Slug(s, [c]), c)
  {
    var t := StrToLower(Trim(s));
    CollapseNoDoubled(t, c);
    assert CharSet([c]) == {c};
    TrimKeepsShape(Collapse(t, [c]), c);
  }

  /** The slug characters of a string, in order. */
  function Kept(s: string): (r: string)
    ensures forall i :: 0 <= i < |r| ==> IsSlugChar(r[i])
    decreases |s|
  {
    if s == [] then []
    else if IsSlugChar(s[0]) then [s[0]] + Kept(s[1..])
    else Kept(s[1..])
  }

  lemma {:induction false} KeptConcat(a: string, b: string)
    ensures Kept(a + b) == Kept(a) + Kept(b)
    decreases |a|
  {
    if a == [] {
      assert a + b == b;
    } else {
      var ab := a + b;
      assert ab[0] == a[0] && ab[1..] == a[1..] + b;
      KeptConcat(a[1..], b);
    }
  }

  lemma {:induction false} KeptNone(s: string)
    requires forall i :: 0 <= i < |s| ==> !IsSlugChar(s[i])
    ensures Kept(s) == []
    decreases |s|
  {
    if s != [] {
      KeptNone(s[1..]);
    }
  }

  lemma {:induction false} CollapseKept(s: string, sep: string)
    requires forall i :: 0 <= i < |sep| ==> !IsSlugChar(sep[i])
    ensures Kept(Collapse(s, sep)) == Kept(s)
    decreases |s|
  {
    if s != [] {
      if IsSlugChar(s[0]) {
        CollapseKept(s[1..], sep);
        KeptConcat([s[0]], Collapse(s[1..], sep));
        assert Kept(s) == [s[0]] + Kept(s[1..]);
      } else {
        var rest := SkipRun(s);
        CollapseKept(rest, sep);
        KeptConcat(sep, Collapse(rest, sep));
        KeptNone(sep);
        var n := |s| - |rest|;
        assert s == s[..n] + rest;
        KeptConcat(s[..n], rest);
        KeptNone(s[..n]);
      }
    }
  }

  /** Trimming only characters outside `[a-z0-9]` keeps every slug character. */
  lemma TrimKeepsKept(x: string, cs: set<char>)
    requires forall c :: c in cs ==> !IsSlugChar(c)
    ensures Kept(TrimChars(x, cs)) == Kept(x)
  {
    TrimLeftKeepsKept(x, cs);
    TrimRightKeepsKept(TrimLeft(x, cs), cs);
  }

  lemma TrimLeftKeepsKept(x: string, cs: set<char>)
    requires forall c :: c in cs ==> !IsSlugChar(c)
    ensures Kept(TrimLeft(x, cs)) == Kept(x)
  {
    var l := TrimLeft(x, cs);
    var front := x[..|x| - |l|];
    assert x == front + l;
    forall i | 0 <= i < |front| ensures front[i] in cs {
      assert front[i] == x[i];
    }
    KeptNone(front);
    KeptConcat(front, l);
  }

  lemma TrimRightKeepsKept(l: string, cs: set<char>)
    requires forall c :: c in cs ==> !IsSlugChar(c)
    ensures Kept(TrimRight(l, cs)) == Kept(l)
  {
    var r := TrimRight(l, cs);
    var back := l[|r|..];
    assert l == r + back;
    forall i | 0 <= i < |back| ensures back[i] in cs {
      assert back[i] == l[|r| + i];
    }
    KeptNone(back);
    KeptConcat(r, back);
  }

  /** No letter or digit is lost or added: the slug keeps exactly the
      `[a-z0-9]` characters of the lower-cased, trimmed input, in order,
      whenever the separator has none of them. */
  lemma SlugKeepsLettersAndDigits(s: string, sep: string)
    requires forall i :: 0 <= i < |sep| ==> !IsSlugChar(sep[i])
    ensures Kept(Slug(s, sep)) == Kept(StrToLower(Trim(s)))
  {
    var t := StrToLower(Trim(s));
    CollapseKept(t, sep);
    TrimKeepsKept(Collapse(t, sep), CharSet(sep));
  }

  lemma DefaultSeparatorIsDash()
    ensures Separator([]) == "-" && Separator([VNull]) == "-"
    ensures Separator([VStr("_")]) == "_"
  {
  }

  lemma {:induction false} CollapseWord(w: string, rest: string, sep: string)
    requires forall i :: 0 <= i < |w| ==> IsSlugChar(w[i])
    ensures Collapse(w + rest, sep) == w + Collapse(rest, sep)
    decreases |w|
  {
    if w == [] {
      assert w + rest == rest;
    } else {
      var s := w + rest;
      assert s[0] == w[0] && s[1..] == w[1..] + rest;
      CollapseWord(w[1..], rest, sep);
      assert w == [w[0]] + w[1..];
    }
  }

  /** A whole run of characters outside `[a-z0-9]`, however long, followed
      by the end of the text or by a letter or digit, becomes exactly one
      separator. */
  lemma CollapseRun(g: string, rest: string, sep: string)
    requires g != [] && forall i :: 0 <= i < |g| ==> !IsSlugChar(g[i])
    requires rest == [] || IsSlugChar(rest[0])
    ensures Collapse(g + rest, sep) == sep + Collapse(rest, sep)
  {
    SkipWholeRun(g, rest);
    assert (g + rest)[0] == g[0];
  }

  lemma {:induction false} SkipWholeRun(g: string, rest: string)
    requires forall i :: 0 <= i < |g| ==> !IsSlugChar(g[i])
    requires rest == [] || IsSlugChar(rest[0])
    ensures SkipRun(g + rest) == rest
    decreases |g|
  {
    if g != [] {
      var s := g + rest;
      assert s[0] == g[0] && s[1..] == g[1..] + rest;
      SkipWholeRun(g[1..], rest);
    } else {
      assert g + rest == rest;
    }
  }

  lemma LowerHello() ensures StrToLower("Hello ") == "hello " {}

  lemma LowerWorld() ensures StrToLower("World ") == "world " {}

  lemma LowerTest() ensures StrToLower("Test!") == "test!" {}

  lemma JoinLower()
    ensures "hello " + ("world " + "test!") == "hello world test!"
  {
  }

  lemma ExampleLower(s: string)
    requires s == "Hello World Test!"
    ensures StrToLower(s) == "hello world test!"
  {
    var tail := "World " + "Test!";
    assert s == "Hello " + tail;
    StrToLowerConcat("Hello ", tail);
    LowerHello();
    LowerTail(tail);
    JoinLower();
  }

  lemma LowerTail(tail: string)
    requires tail == "World " + "Test!"
    ensures StrToLower(tail) == "world " + "test!"
  {
    StrToLowerConcat("World ", "Test!");
    LowerWorld();
    LowerTest();
  }

  lemma SplitExample()
    ensures "hello world test!" == "hello" + ([' '] + ("world" + ([' '] + ("test" + ['!']))))
  {
  }

  predicate IsWord(w: string)
  {
    w != [] && forall i :: 0 <= i < |w| ==> IsSlugChar(w[i])
  }

  /** Three words, two gaps and a trailing gap of one character each. */
  lemma CollapseThreeWords(a: string, b: string, c: string, g: char, e: char, sep: string)
    requires IsWord(a) && IsWord(b) && IsWord(c)
    requires !IsSlugChar(g) && !IsSlugChar(e)
    ensures Collapse(a + ([g] + (b + ([g] + (c + [e])))), sep) == a + (sep + (b + (sep + (c + sep))))
  {
    var r3 := [e];
    CollapseRun([e], [], sep);
    assert Collapse(r3, sep) == sep;
    var w3 := c + r3;
    CollapseWord(c, r3, sep);
    var r2 := [g] + w3;
    CollapseRun([g], w3, sep);
    assert Collapse(r2, sep) == sep + (c + sep);
    var w2 := b + r2;
    CollapseWord(b, r2, sep);
    var r1 := [g] + w2;
    CollapseRun([g], w2, sep);
    var w1 := a + r1;
    CollapseWord(a, r1, sep);
  }

  /** The first slug test: `Hello World Test!` becomes `hello-world-test`
      with the default separator, and `hello_world_test` with `_`. */
  lemma ExampleTrim(s: string)
    requires s == "Hello World Test!"
    ensures Trim(s) == s
  {
    assert s[0] == 'H' && s[|s| - 1] == '!';
    TrimCharsClean(s, Whitespace);
  }

  lemma ExampleCollapse(l: string, c: char)
    requires l == "hello world test!"
    requires !IsSlugChar(c)
    ensures Collapse(l, [c]) == "hello" + ([c] + ("world" + ([c] + "test"))) + [c]
  {
    SplitExample();
    CollapseThreeWords("hello", "world", "test", ' ', '!', [c]);
  }

  lemma Example(s: string, c: char)
    requires s == "Hello World Test!"
    requires c == '-' || c == '_'
    ensures Slug(s, [c]) == "hello" + ([c] + ("world" + ([c] + "test")))
  {
    ExampleTrim(s);
    ExampleLower(s);
    ExampleCollapse(StrToLower(s), c);
    assert CharSet([c]) == {c};
    TrimEnd("hello" + ([c] + ("world" + ([c] + "test"))), c);
  }

  /** One trailing separator is trimmed from a string with slug ends. */
  lemma TrimEnd(x: string, c: char)
    requires x != [] && IsSlugChar(x[0]) && IsSlugChar(x[|x| - 1])
    requires !IsSlugChar(c)
    ensures TrimChars(x + [c], {c}) == x
  {
    var y := x + [c];
    assert y[0] == x[0];
    assert TrimLeft(y, {c}) == y;
    assert y[..|y| - 1] == x;
    assert TrimRight(y, {c}) == TrimRight(x, {c});
    TrimCharsClean(x, {c});
  }
}
