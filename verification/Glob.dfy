/** What a wildcard pattern means, independently of how it is matched. */
module Glob {

  /** Characters of zero-terminated wide strings: the terminator is not one of them. */
  type Wchar = c: int | 0 < c < 0x1_0000 witness 1

  const STAR: Wchar := 42        // *
  const QUESTION: Wchar := 63    // ?
  const OPEN: Wchar := 91        // [
  const CLOSE: Wchar := 93       // ]
  const BANG: Wchar := 33        // !
  const CARET: Wchar := 94       // ^
  const DASH: Wchar := 45        // -
  const DIR_SEP: Wchar := 92     // the path separator

  datatype Token =
    | Literal(c: Wchar)
    | AnyChar                                     // one character other than the separator
    | Class(body: seq<Wchar>, negated: bool)      // one character other than the separator, in or out of a set
    | Star                                        // characters of one path segment
    | GlobStar                                    // any characters; before a separator, also nothing at all
    | Malformed                                   // an unterminated class

  /** Length of the run of stars at the front. */
  function StarRun(p: seq<Wchar>): (n: nat)
    ensures n <= |p|
    ensures n < |p| ==> p[n] != STAR
    ensures forall i | 0 <= i < n :: p[i] == STAR
  {
    if p != [] && p[0] == STAR then 1 + StarRun(p[1..]) else 0
  }

  /** First closing bracket at or after j. */
  function CloseFrom(q: seq<Wchar>, j: nat): (e: nat)
    requires j <= |q|
    ensures j <= e <= |q|
    ensures e < |q| ==> q[e] == CLOSE
    ensures forall i | j <= i < e :: q[i] != CLOSE
    decreases |q| - j
  {
    if j == |q| || q[j] == CLOSE then j else CloseFrom(q, j + 1)
  }

  /** End of a class body: its first character belongs to it whatever it is. */
  function BodyEnd(q: seq<Wchar>): (e: nat)
    ensures e <= |q|
  {
    if q == [] then 0 else CloseFrom(q, 1)
  }

  /** The set denoted by a class body: characters, and ranges lo-hi (which contain lo even when reversed). */
  predicate InBody(body: seq<Wchar>, c: Wchar) {
    if body == [] then false
    else if |body| >= 3 && body[1] == DASH then
      c == body[0] || body[0] <= c <= body[2] || InBody(body[3..], c)
    else
      c == body[0] || InBody(body[1..], c)
  }

  /** The first token of a pattern and what follows it. Two or more stars are a GlobStar only when they fill
      a path segment: seg says that the pattern position is the start of one. */
  function Head(p: seq<Wchar>, seg: bool): (r: (Token, seq<Wchar>))
    requires p != []
    ensures |r.1| < |p|
  {
    if p[0] == STAR then
      var n := StarRun(p);
      var rest := p[n..];
      if n >= 2 && seg && (rest == [] || rest[0] == DIR_SEP) then (GlobStar, rest) else (Star, rest)
    else if p[0] == QUESTION then (AnyChar, p[1..])
    else if p[0] == OPEN then
      var negated := |p| > 1 && (p[1] == BANG || p[1] == CARET);
      var q := p[if negated then 2 else 1..];
      var e := BodyEnd(q);
      if e < |q| then (Class(q[..e], negated), q[e + 1..]) else (Malformed, [])
    else (Literal(p[0]), p[1..])
  }

  /** Whether a token of one character accepts c. */
  predicate Accepts(tok: Token, c: Wchar) {
    match tok
    case Literal(d) => c == d
    case AnyChar => c != DIR_SEP
    case Class(body, negated) => c != DIR_SEP && InBody(body, c) != negated
    case _ => false
  }

  predicate NoSep(text: seq<Wchar>, i: int, j: int) {
    forall k | i <= k < j && 0 <= k < |text| :: text[k] != DIR_SEP
  }

  /** The text from position i on matches the pattern. */
  ghost predicate Matches(p: seq<Wchar>, seg: bool, text: seq<Wchar>, i: int)
    decreases |p|, 0
  {
    if p == [] then i == |text|
    else
      var (tok, rest) := Head(p, seg);
      match tok
      case Star => MatchesLater(rest, text, i, true)
      case GlobStar =>
        || MatchesLater(rest, text, i, false)
        || (rest != [] && rest[0] == DIR_SEP && Matches(rest[1..], true, text, i))
      case Malformed => false
      case _ =>
        0 <= i < |text| && Accepts(tok, text[i]) && Matches(rest, tok == Literal(DIR_SEP), text, i + 1)
  }

  /** The rest of the pattern matches at i or later, in the same path segment if confined to it. */
  ghost predicate MatchesLater(rest: seq<Wchar>, text: seq<Wchar>, i: int, within: bool)
    decreases |rest|, 1
  {
    exists k {:trigger Matches(rest, false, text, k)} | i <= k <= |text| ::
      (within ==> NoSep(text, i, k)) && Matches(rest, false, text, k)
  }

  /** Only a star looks at where in a segment the pattern is. */
  lemma SegmentIrrelevant(p: seq<Wchar>, text: seq<Wchar>, i: int)
    requires p != [] && p[0] != STAR
    ensures Matches(p, true, text, i) == Matches(p, false, text, i)
  {
    assert Head(p, true) == Head(p, false);
  }

  // Unfolding one token at a given position ------------------------------------------------------------

  predicate OneChar(tok: Token) {
    tok.Literal? || tok.AnyChar? || tok.Class?
  }

  lemma UnfoldChar(p: seq<Wchar>, seg: bool, text: seq<Wchar>, i: int)
    requires p != [] && OneChar(Head(p, seg).0)
    ensures var (tok, rest) := Head(p, seg);
      Matches(p, seg, text, i) <==>
        0 <= i < |text| && Accepts(tok, text[i]) && Matches(rest, tok == Literal(DIR_SEP), text, i + 1)
  {
  }

  lemma UnfoldStar(p: seq<Wchar>, seg: bool, text: seq<Wchar>, i: int)
    requires p != [] && Head(p, seg).0 == Star
    ensures Matches(p, seg, text, i) <==> MatchesLater(Head(p, seg).1, text, i, true)
  {
  }

  lemma UnfoldGlobStar(p: seq<Wchar>, seg: bool, text: seq<Wchar>, i: int)
    requires p != [] && Head(p, seg).0 == GlobStar
    ensures var rest := Head(p, seg).1;
      Matches(p, seg, text, i) <==>
        || MatchesLater(rest, text, i, false)
        || (rest != [] && rest[0] == DIR_SEP && Matches(rest[1..], true, text, i))
  {
  }

  // What patterns mean in plain terms ------------------------------------------------------------------

  predicate Plain(p: seq<Wchar>) {
    forall i | 0 <= i < |p| :: p[i] != STAR && p[i] != QUESTION && p[i] != OPEN
  }

  /** A pattern without special characters matches itself. */
  lemma {:induction false} PlainMatches(p: seq<Wchar>, seg: bool, text: seq<Wchar>, i: nat)
    requires Plain(p) && i <= |text|
    ensures Matches(p, seg, text, i) <==> text[i..] == p
    decreases |p|
  {
    if p != [] {
      assert Head(p, seg) == (Literal(p[0]), p[1..]);
      if i < |text| {
        PlainMatches(p[1..], p[0] == DIR_SEP, text, i + 1);
        assert text[i..] == [text[i]] + text[i + 1..];
        assert p == [p[0]] + p[1..];
      }
    }
  }

  /** `*name` matches what ends in the name, in the same path segment. */
  lemma StarName(name: seq<Wchar>, text: seq<Wchar>)
    requires Plain(name)
    ensures Matches([STAR] + name, true, text, 0) <==>
              exists k :: 0 <= k <= |text| && text[k..] == name && NoSep(text, 0, k)
  {
    var p := [STAR] + name;
    assert p[1..] == name && StarRun(p) == 1 + StarRun(name) && StarRun(name) == 0;
    forall k | 0 <= k <= |text|
      ensures Matches(name, false, text, k) <==> text[k..] == name
    {
      PlainMatches(name, false, text, k);
    }
  }

  /** `**\name` matches the name at any depth: alone, or behind a separator. */
  lemma AnyDepthName(name: seq<Wchar>, text: seq<Wchar>)
    requires Plain(name)
    ensures Matches([STAR, STAR, DIR_SEP] + name, true, text, 0) <==>
              text == name || exists k :: 0 <= k < |text| && text[k] == DIR_SEP && text[k + 1..] == name
  {
    hide Matches, Head;
    var p, rest := [STAR, STAR, DIR_SEP] + name, [DIR_SEP] + name;
    GlobStarHead(rest);
    assert p == [STAR, STAR] + rest && rest[1..] == name && text[0..] == text;
    UnfoldGlobStar(p, true, text, 0);
    PlainMatches(name, true, text, 0);
    assert Plain(rest);
    forall k | 0 <= k <= |text|
      ensures Matches(rest, false, text, k) <==> k < |text| && text[k] == DIR_SEP && text[k + 1..] == name
    {
      PlainMatches(rest, false, text, k);
      if k < |text| { assert text[k..] == [text[k]] + text[k + 1..]; }
    }
    forall k | 0 <= k < |text| && text[k] == DIR_SEP && text[k + 1..] == name
      ensures MatchesLater(rest, text, 0, false)
    {
      assert Matches(rest, false, text, k);
    }
  }

  lemma GlobStarHead(rest: seq<Wchar>)
    requires rest != [] && rest[0] == DIR_SEP
    ensures Head([STAR, STAR] + rest, true) == (GlobStar, rest)
  {
    var p := [STAR, STAR] + rest;
    assert p[1..] == [STAR] + rest && p[1..][1..] == rest && p[2..] == rest;
    assert StarRun(p) == 1 + StarRun(p[1..]) && StarRun(p[1..]) == 1 + StarRun(rest) && StarRun(rest) == 0;
  }

  /** `?`, `[a]`, `[a-z]` and their negations each stand for one character, which is not a separator. */
  lemma OneCharMatches(lo: Wchar, hi: Wchar, c: Wchar)
    requires lo != BANG && lo != CARET && hi != CLOSE
    ensures Matches([QUESTION], true, [c], 0) <==> c != DIR_SEP
    ensures Matches([OPEN, lo, CLOSE], true, [c], 0) <==> c != DIR_SEP && c == lo
    ensures Matches([OPEN, BANG, lo, CLOSE], true, [c], 0) <==> c != DIR_SEP && c != lo
    ensures Matches([OPEN, lo, DASH, hi, CLOSE], true, [c], 0) <==> c != DIR_SEP && (c == lo || lo <= c <= hi)
    ensures Matches([OPEN, CARET, lo, DASH, hi, CLOSE], true, [c], 0) <==>
              c != DIR_SEP && !(c == lo || lo <= c <= hi)
  {
    assert [QUESTION][1..] == [] && [lo][1..] == [] && [lo, DASH, hi][3..] == [];
    assert Head([QUESTION], true) == (AnyChar, []);
    ClassMatches([lo], BANG, c);
    ClassMatches([lo, DASH, hi], CARET, c);
    assert [OPEN] + [lo] + [CLOSE] == [OPEN, lo, CLOSE];
    assert [OPEN, BANG] + [lo] + [CLOSE] == [OPEN, BANG, lo, CLOSE];
    assert [OPEN] + [lo, DASH, hi] + [CLOSE] == [OPEN, lo, DASH, hi, CLOSE];
    assert [OPEN, CARET] + [lo, DASH, hi] + [CLOSE] == [OPEN, CARET, lo, DASH, hi, CLOSE];
  }

  /** A class ends at the first closing bracket behind its first character. */
  lemma ClassMatches(body: seq<Wchar>, mark: Wchar, c: Wchar)
    requires body != [] && body[0] != BANG && body[0] != CARET && mark in {BANG, CARET}
    requires forall i | 0 < i < |body| :: body[i] != CLOSE
    ensures Matches([OPEN] + body + [CLOSE], true, [c], 0) <==> c != DIR_SEP && InBody(body, c)
    ensures Matches([OPEN, mark] + body + [CLOSE], true, [c], 0) <==> c != DIR_SEP && !InBody(body, c)
  {
    hide InBody, Head, BodyEnd;
    ClassHead(body, mark);
    UnfoldChar([OPEN] + body + [CLOSE], true, [c], 0);
    UnfoldChar([OPEN, mark] + body + [CLOSE], true, [c], 0);
  }

  lemma ClassHead(body: seq<Wchar>, mark: Wchar)
    requires body != [] && body[0] != BANG && body[0] != CARET && mark in {BANG, CARET}
    requires forall i | 0 < i < |body| :: body[i] != CLOSE
    ensures Head([OPEN] + body + [CLOSE], true) == (Class(body, false), [])
    ensures Head([OPEN, mark] + body + [CLOSE], true) == (Class(body, true), [])
  {
    var q, p, n := body + [CLOSE], [OPEN] + body + [CLOSE], [OPEN, mark] + body + [CLOSE];
    assert BodyEnd(q) == |body| by { assert q[|body|] == CLOSE; }
    assert p[1..] == q && n[2..] == q && q[..|body|] == body && q[|body| + 1..] == [];
    assert p[1] == body[0] && n[1] == mark;
  }
}
