/** The token pattern shared by both template scanners of the handler,
    `preg_quote(start) ([^ preg_quote(end) ]+) preg_quote(end)`, as a
    left-to-right scanner. At each position a token is a start delimiter,
    then the longest non-empty run of characters that are not in the end
    delimiter, then the end delimiter itself; if that fails the scan moves
    on by one character. Backtracking cannot help the regex here: a shorter
    run is followed by a character outside the end delimiter, so the end
    delimiter cannot match after it. */
module TokenScanner {
  import opened PhpString

  /** A scanned template: literal characters and matched token bodies. */
  datatype Piece = Text(c: char) | Token(body: string)

  /** The longest prefix of `s` without a character of `stop`. */
  function Run(s: string, stop: string): (r: string)
    ensures |r| <= |s| && r == s[..|r|]
    ensures forall i :: 0 <= i < |r| ==> r[i] !in stop
    ensures |r| < |s| ==> s[|r|] in stop
    decreases |s|
  {
    if s == [] || s[0] in stop then [] else [s[0]] + Run(s[1..], stop)
  }

  /** What the character class `[^end]+` accepts. */
  predicate IsBody(b: string, end: string)
  {
    b != [] && forall i :: 0 <= i < |b| ==> b[i] !in end
  }

  /** Does a token start at the beginning of `s`? */
  predicate TokenAt(s: string, start: string, end: string)
  {
    HasPrefix(s, start)
    && var b := Run(s[|start|..], end);
    b != [] && HasPrefix(s[|start| + |b|..], end)
  }

  function Tokenize(s: string, start: string, end: string): (ps: seq<Piece>)
    requires end != []
    ensures forall i :: 0 <= i < |ps| && ps[i].Token? ==> IsBody(ps[i].body, end)
    decreases |s|
  {
    if s == [] then []
    else if TokenAt(s, start, end) then
      var b := Run(s[|start|..], end);
      [Token(b)] + Tokenize(s[|start| + |b| + |end|..], start, end)
    else [Text(s[0])] + Tokenize(s[1..], start, end)
  }

  function PieceText(p: Piece, start: string, end: string): string
  {
    match p
    case Text(c) => [c]
    case Token(b) => start + b + end
  }

  /** Writes the pieces back out, tokens with their delimiters. */
  function Untokenize(ps: seq<Piece>, start: string, end: string): string
    decreases |ps|
  {
    if ps == [] then [] else PieceText(ps[0], start, end) + Untokenize(ps[1..], start, end)
  }

  lemma UntokenizeCons(p: Piece, ps: seq<Piece>, start: string, end: string)
    ensures Untokenize([p] + ps, start, end) == PieceText(p, start, end) + Untokenize(ps, start, end)
  {
    assert ([p] + ps)[1..] == ps;
  }

  /** A matched token spells start, body, end, and the rest follows. */
  lemma SplitAtToken(s: string, start: string, end: string)
    requires end != [] && TokenAt(s, start, end)
    ensures var b := Run(s[|start|..], end);
      s == start + b + end + s[|start| + |b| + |end|..]
  {
    var b := Run(s[|start|..], end);
    var n := |start| + |b| + |end|;
    assert s[..|start|] == start;
    assert s[|start|..][..|b|] == b;
    assert s[|start|..|start| + |b|] == b;
    assert s[|start| + |b|..][..|end|] == end;
    assert s[|start| + |b|..n] == end;
    assert s == s[..|start|] + s[|start|..|start| + |b|] + s[|start| + |b|..n] + s[n..];
  }

  /** Scanning loses nothing: the pieces spell the template. */
  lemma {:induction false} TokenizeRoundTrip(s: string, start: string, end: string)
    requires end != []
    ensures Untokenize(Tokenize(s, start, end), start, end) == s
    decreases |s|
  {
    if s != [] {
      if TokenAt(s, start, end) {
        var b := Run(s[|start|..], end);
        var rest := s[|start| + |b| + |end|..];
        TokenizeRoundTrip(rest, start, end);
        UntokenizeCons(Token(b), Tokenize(rest, start, end), start, end);
        SplitAtToken(s, start, end);
      } else {
        TokenizeRoundTrip(s[1..], start, end);
        UntokenizeCons(Text(s[0]), Tokenize(s[1..], start, end), start, end);
        assert s == [s[0]] + s[1..];
      }
    }
  }

  /** `preg_replace_callback` over the pieces: every token is replaced by
      what `f` makes of its body; literal text is copied. */
  function Substitute(ps: seq<Piece>, f: string -> string): string
    decreases |ps|
  {
    if ps == [] then []
    else
      (match ps[0]
       case Text(c) => [c]
       case Token(b) => f(b))
      + Substitute(ps[1..], f)
  }

  lemma {:induction false} SubstituteAppend(p1: seq<Piece>, p2: seq<Piece>, f: string -> string)
    ensures Substitute(p1 + p2, f) == Substitute(p1, f) + Substitute(p2, f)
    decreases |p1|
  {
    if p1 != [] {
      SubstituteAppend(p1[1..], p2, f);
      assert (p1 + p2)[0] == p1[0];
      assert (p1 + p2)[1..] == p1[1..] + p2;
    } else {
      assert p1 + p2 == p2;
    }
  }

  /** Output produced so far, then the rest of the scan. */
  lemma SubstituteStep(ps: seq<Piece>, i: nat, f: string -> string)
    requires i < |ps|
    ensures Substitute(ps[i..], f)
         == (match ps[i] case Text(c) => [c] case Token(b) => f(b)) + Substitute(ps[i + 1..], f)
  {
    assert ps[i..][0] == ps[i] && ps[i..][1..] == ps[i + 1..];
  }

  /** The replacement that `preg_replace` makes with a constant string. */
  function Constant(r: string): string -> string
  {
    _ => r
  }

  /** The characters of `u`, one literal piece each. */
  function Texts(u: string): (ps: seq<Piece>)
    ensures |ps| == |u|
    ensures forall i :: 0 <= i < |u| ==> ps[i] == Text(u[i])
    decreases |u|
  {
    if u == [] then [] else [Text(u[0])] + Texts(u[1..])
  }

  lemma {:induction false} SubstituteTexts(u: string, f: string -> string)
    ensures Substitute(Texts(u), f) == u
    decreases |u|
  {
    if u != [] {
      SubstituteTexts(u[1..], f);
      assert Texts(u)[1..] == Texts(u[1..]);
      assert u == [u[0]] + u[1..];
    }
  }

  /** Text before the first character of the start delimiter is copied as it
      is, and the scan then goes on with the rest. */
  lemma {:induction false} TokenizePlainPrefix(u: string, w: string, start: string, end: string)
    requires end != [] && start != []
    requires start[0] !in u
    ensures Tokenize(u + w, start, end) == Texts(u) + Tokenize(w, start, end)
    decreases |u|
  {
    if u != [] {
      var s := u + w;
      assert s[0] == u[0];
      assert !HasPrefix(s, start);
      assert s[1..] == u[1..] + w;
      assert Tokenize(s, start, end) == [Text(u[0])] + Tokenize(u[1..] + w, start, end);
      TokenizePlainPrefix(u[1..], w, start, end);
      assert Texts(u) == [Text(u[0])] + Texts(u[1..]);
    } else {
      assert u + w == w;
    }
  }

  /** A template without the start delimiter has no token. */
  lemma {:induction false} TokenizeWithoutStart(s: string, start: string, end: string)
    requires end != [] && start != []
    requires !Occurs(start, s)
    ensures Tokenize(s, start, end) == Texts(s)
    decreases |s|
  {
    if s != [] {
      TokenizeWithoutStart(s[1..], start, end);
    }
  }

  /** A well-formed token at the front is matched as one token, and the
      scan resumes right after its end delimiter. */
  lemma TokenizeLeadingToken(start: string, b: string, end: string, w: string)
    requires end != []
    requires IsBody(b, end)
    ensures Tokenize(start + b + end + w, start, end) == [Token(b)] + Tokenize(w, start, end)
  {
    var s := start + b + end + w;
    assert s[..|start|] == start;
    assert s[|start|..] == b + (end + w);
    RunStops(b, end + w, end);
    assert s[|start| + |b|..] == end + w;
    assert (end + w)[..|end|] == end;
    assert s[|start| + |b| + |end|..] == w;
  }

  lemma {:induction false} RunStops(b: string, rest: string, stop: string)
    requires forall i :: 0 <= i < |b| ==> b[i] !in stop
    requires rest != [] && rest[0] in stop
    ensures Run(b + rest, stop) == b
    decreases |b|
  {
    if b != [] {
      assert (b + rest)[1..] == b[1..] + rest;
      RunStops(b[1..], rest, stop);
      assert b == [b[0]] + b[1..];
    } else {
      assert b + rest == rest;
    }
  }

  /** The text a token is replaced with is emitted as it is and never
      scanned again; scanning goes on after the token. */
  lemma SubstituteLeadingToken(start: string, b: string, end: string, w: string, f: string -> string)
    requires end != []
    requires IsBody(b, end)
    ensures Substitute(Tokenize(start + b + end + w, start, end), f) == f(b) + Substitute(Tokenize(w, start, end), f)
  {
    TokenizeLeadingToken(start, b, end, w);
    var ps := [Token(b)] + Tokenize(w, start, end);
    assert ps[1..] == Tokenize(w, start, end);
  }

  /** The same, for a replacement already known at the token's body. */
  lemma SubstituteLeadingTokenAs(start: string, b: string, end: string, w: string, f: string -> string, r: string)
    requires end != [] && IsBody(b, end) && f(b) == r
    ensures Substitute(Tokenize(start + b + end + w, start, end), f) == r + Substitute(Tokenize(w, start, end), f)
  {
    SubstituteLeadingToken(start, b, end, w, f);
  }

  /** A template without the start delimiter comes out unchanged, whatever
      the replacement. */
  lemma SubstituteWithoutStart(s: string, start: string, end: string, f: string -> string)
    requires end != [] && start != []
    requires !Occurs(start, s)
    ensures Substitute(Tokenize(s, start, end), f) == s
  {
    TokenizeWithoutStart(s, start, end);
    SubstituteTexts(s, f);
  }
}
