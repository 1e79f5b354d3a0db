/** The backtracking matcher of path patterns, with its early-abort codes. */
module Wildmatch {
  import opened Glob

  const WM_MATCH := 0
  const WM_NOMATCH := 1
  const WM_ABORT_ALL := -1
  const WM_ABORT_TO_STARSTAR := -2

  /** The characters that stop the literal fast-forward: those marked GIT_GLOB_SPECIAL in sane_ctype. */
  predicate IsGlobSpecial(c: Wchar) {
    c == STAR || c == QUESTION || c == OPEN
  }

  // ---------------------------------------------------------------------------------------------
  // Which later positions of the text could still match
  // ---------------------------------------------------------------------------------------------

  /** Some position at or after i matches q; within confines it to the path segment of i, and after says
      that a position beyond i must follow a separator. */
  ghost predicate Reaches(q: seq<Wchar>, seg: bool, after: bool, text: seq<Wchar>, i: int, within: bool) {
    exists j {:trigger Matches(q, seg, text, j)} | i <= j <= |text| ::
      && (within ==> NoSep(text, i, j))
      && (after && i < j ==> 0 <= j - 1 && text[j - 1] == DIR_SEP)
      && Matches(q, seg, text, j)
  }

  predicate SegmentStart(pattern: seq<Wchar>, p: nat)
    requires p <= |pattern|
  {
    p == 0 || pattern[p - 1] == DIR_SEP
  }

  predicate AfterSep(pattern: seq<Wchar>, p: nat)
    requires p <= |pattern|
  {
    p > 0 && pattern[p - 1] == DIR_SEP
  }

  /** The matcher's loop invariant: pattern from p at text position t answers for the whole pattern, and every
      match of the whole pattern at a later start leads to one of the remaining pattern at a later position. */
  ghost predicate Progress(pattern: seq<Wchar>, text: seq<Wchar>, at: int, p: nat, t: int)
    requires p <= |pattern|
  {
    var q, seg := pattern[p..], SegmentStart(pattern, p);
    && Matches(pattern, true, text, at) == Matches(q, seg, text, t)
    && (pattern != [] && pattern[0] != STAR ==>
          && (Reaches(pattern, true, false, text, at, false) ==> Reaches(q, seg, AfterSep(pattern, p), text, t, false))
          && (Reaches(pattern, true, false, text, at, true) ==> Reaches(q, seg, AfterSep(pattern, p), text, t, true)))
  }

  /** What each result promises about the text from `at` on. */
  ghost predicate Sound(pattern: seq<Wchar>, text: seq<Wchar>, at: int, r: int) {
    && r in {WM_MATCH, WM_NOMATCH, WM_ABORT_ALL, WM_ABORT_TO_STARSTAR}
    && (r == WM_MATCH <==> Matches(pattern, true, text, at))
    && (pattern != [] && pattern[0] != STAR ==>
          && (r == WM_ABORT_ALL ==> forall j | at <= j <= |text| :: !Matches(pattern, true, text, j))
          && (r == WM_ABORT_TO_STARSTAR ==>
                forall j | at <= j <= |text| && NoSep(text, at, j) :: !Matches(pattern, true, text, j)))
  }

  lemma AbortIsSound(pattern: seq<Wchar>, text: seq<Wchar>, at: int, p: nat, t: int, r: int)
    requires p <= |pattern| && Progress(pattern, text, at, p, t) && at <= |text|
    requires !Matches(pattern[p..], SegmentStart(pattern, p), text, t)
    requires r in {WM_NOMATCH, WM_ABORT_ALL, WM_ABORT_TO_STARSTAR}
    requires pattern != [] && pattern[0] != STAR && r == WM_ABORT_ALL ==>
      !Reaches(pattern[p..], SegmentStart(pattern, p), AfterSep(pattern, p), text, t, false)
    requires pattern != [] && pattern[0] != STAR && r == WM_ABORT_TO_STARSTAR ==>
      !Reaches(pattern[p..], SegmentStart(pattern, p), AfterSep(pattern, p), text, t, true)
    ensures Sound(pattern, text, at, r)
  {
  }

  // ---------------------------------------------------------------------------------------------
  // One step of the pattern
  // ---------------------------------------------------------------------------------------------

  /** A token that consumes one character. */
  lemma CharStep(q: seq<Wchar>, seg: bool, after: bool, text: seq<Wchar>, i: nat)
    requires q != [] && i < |text| && Accepts(Head(q, seg).0, text[i])
    ensures var (tok, rest) := Head(q, seg); var sep := tok == Literal(DIR_SEP);
      && Matches(q, seg, text, i) == Matches(rest, sep, text, i + 1)
      && (Reaches(q, seg, after, text, i, false) ==> Reaches(rest, sep, sep, text, i + 1, false))
      && (Reaches(q, seg, after, text, i, true) ==> Reaches(rest, sep, sep, text, i + 1, true))
  {
    var (tok, rest) := Head(q, seg);
    var sep := tok == Literal(DIR_SEP);
    UnfoldChar(q, seg, text, i);
    forall within | Reaches(q, seg, after, text, i, within)
      ensures Reaches(rest, sep, sep, text, i + 1, within)
    {
      var j :| i <= j <= |text| && (within ==> NoSep(text, i, j)) && Matches(q, seg, text, j);
      UnfoldChar(q, seg, text, j);
    }
  }

  /** A star before a separator moves to the next separator of the text. */
  lemma StarSepStep(q: seq<Wchar>, seg: bool, after: bool, text: seq<Wchar>, i: nat, s: nat)
    requires q != [] && Head(q, seg).0 == Star && Head(q, seg).1 != [] && Head(q, seg).1[0] == DIR_SEP
    requires i <= s < |text| && text[s] == DIR_SEP && NoSep(text, i, s)
    ensures var rest := Head(q, seg).1[1..];
      && Matches(q, seg, text, i) == Matches(rest, true, text, s + 1)
      && (Reaches(q, seg, after, text, i, false) ==> Reaches(rest, true, true, text, s + 1, false))
      && (Reaches(q, seg, after, text, i, true) ==> Reaches(rest, true, true, text, s + 1, true))
  {
    var sepRest := Head(q, seg).1;
    var rest := sepRest[1..];
    assert Head(sepRest, false) == (Literal(DIR_SEP), rest);
    UnfoldStar(q, seg, text, i);
    UnfoldChar(sepRest, false, text, s);
    if Matches(q, seg, text, i) {
      var k :| i <= k <= |text| && NoSep(text, i, k) && Matches(sepRest, false, text, k);
      UnfoldChar(sepRest, false, text, k);
      assert k == s;
    }
    forall within | Reaches(q, seg, after, text, i, within)
      ensures Reaches(rest, true, true, text, s + 1, within)
    {
      var j :| i <= j <= |text| && (within ==> NoSep(text, i, j)) && Matches(q, seg, text, j);
      UnfoldStar(q, seg, text, j);
      var k :| j <= k <= |text| && NoSep(text, j, k) && Matches(sepRest, false, text, k);
      UnfoldChar(sepRest, false, text, k);
      assert within ==> k == s;
    }
  }

  /** At the end of the text nothing but stars can match, here or later. */
  lemma EndStep(q: seq<Wchar>, seg: bool, after: bool, text: seq<Wchar>)
    requires q != [] && q[0] != STAR
    ensures !Matches(q, seg, text, |text|)
    ensures !Reaches(q, seg, after, text, |text|, false)
  {
  }

  /** The next token of the pattern, seen from a position in it. */
  lemma HeadAt(pattern: seq<Wchar>, p: nat, seg: bool)
    requires p < |pattern|
    ensures pattern[p..][0] == pattern[p]
    ensures pattern[p] == QUESTION ==> Head(pattern[p..], seg) == (AnyChar, pattern[p + 1..])
    ensures pattern[p] !in {STAR, QUESTION, OPEN} ==> Head(pattern[p..], seg) == (Literal(pattern[p]), pattern[p + 1..])
  {
    assert pattern[p..][1..] == pattern[p + 1..];
  }

  // ---------------------------------------------------------------------------------------------
  // Character classes
  // ---------------------------------------------------------------------------------------------

  /** What remains of a class body when prev is the character before it (0 after a range or at the start). */
  ghost predicate RestOfBody(prev: int, b: seq<Wchar>, c: Wchar) {
    if prev != 0 && |b| >= 2 && b[0] == DASH then prev <= c <= b[1] || InBody(b[2..], c) else InBody(b, c)
  }

  lemma BodyStep(prev: int, b: seq<Wchar>, c: Wchar)
    requires b != []
    ensures if prev != 0 && b[0] == DASH && |b| >= 2
      then RestOfBody(prev, b, c) == (prev <= c <= b[1] || RestOfBody(0, b[2..], c))
      else RestOfBody(prev, b, c) == (c == b[0] || RestOfBody(b[0], b[1..], c))
  {
    if |b| >= 3 {
      assert b[1..][2..] == b[3..];
    }
  }

  /** The do-while loop over a class body; q starts after the bracket and its negation mark. */
  method ScanClass(q: seq<Wchar>, c: Wchar) returns (closed: bool, end: nat, matched: bool)
    ensures closed <==> BodyEnd(q) < |q|
    ensures closed ==> end == BodyEnd(q) && matched == InBody(q[..end], c)
  {
    var prev: int := 0;
    matched := false;
    end := 0;
    ghost var e := BodyEnd(q);
    while true
      invariant end <= |q| && (e < |q| ==> end < e)
      invariant forall i | 1 <= i <= end && i < |q| :: q[i] != CLOSE
      invariant e < |q| ==> InBody(q[..e], c) == (matched || RestOfBody(prev, q[end..e], c))
      decreases |q| - end
    {
      if end == |q| {
        return false, end, matched;
      }
      ghost var b := if e < |q| then q[end..e] else [];
      if e < |q| {
        BodyStep(prev, b, c);
        assert q[end + 1..e] == b[1..];
      }
      if q[end] == DASH && prev != 0 && end + 1 < |q| && q[end + 1] != CLOSE {
        assert e < |q| ==> q[end + 2..e] == b[2..];
        end := end + 1;
        if c <= q[end] && c >= prev {
          matched := true;
        }
        prev := 0;
      } else {
        if c == q[end] {
          matched := true;
        }
        prev := q[end];
      }
      end := end + 1;
      if end < |q| && q[end] == CLOSE {
        break;
      }
    }
    closed := true;
  }

  // ---------------------------------------------------------------------------------------------
  // Stars
  // ---------------------------------------------------------------------------------------------

  /** The stars at p: which token they are and where they end. */
  lemma StarsAt(pattern: seq<Wchar>, p: nat, e: nat)
    requires p < e <= |pattern| && (forall i | p <= i < e :: pattern[i] == STAR)
             && (e < |pattern| ==> pattern[e] != STAR)
    ensures var seg := SegmentStart(pattern, p);
      var glob := e >= p + 2 && seg && (e == |pattern| || pattern[e] == DIR_SEP);
      Head(pattern[p..], seg) == (if glob then GlobStar else Star, pattern[e..])
  {
    var q := pattern[p..];
    var n := StarRun(q);
    assert n < |q| ==> q[n] == pattern[p + n];
    assert e < |pattern| ==> q[e - p] == pattern[e];
    assert n == e - p;
    assert q[n..] == pattern[e..];
  }

  /** The meaning of the stars from first to e, the double ones first tried as nothing. */
  lemma StarsMean(pattern: seq<Wchar>, text: seq<Wchar>, first: nat, e: nat, t: int, matchSlash: bool)
    requires first < e <= |pattern| && (forall i | first <= i < e :: pattern[i] == STAR)
             && (e < |pattern| ==> pattern[e] != STAR)
    requires matchSlash <==> e >= first + 2 && SegmentStart(pattern, first) && (e == |pattern| || pattern[e] == DIR_SEP)
    ensures Head(pattern[first..], SegmentStart(pattern, first)) ==
            (if matchSlash then GlobStar else Star, pattern[e..])
    ensures Matches(pattern[first..], SegmentStart(pattern, first), text, t) <==>
      || MatchesLater(pattern[e..], text, t, !matchSlash)
      || (matchSlash && e < |pattern| && Matches(pattern[e + 1..], true, text, t))
  {
    var q, seg := pattern[first..], SegmentStart(pattern, first);
    StarsAt(pattern, first, e);
    if matchSlash {
      UnfoldGlobStar(q, seg, text, t);
      assert e < |pattern| ==> pattern[e..][1..] == pattern[e + 1..];
    } else {
      UnfoldStar(q, seg, text, t);
    }
  }

  /** What the result of the star loop means for the pattern that starts with the star. */
  lemma StarAborts(q: seq<Wchar>, seg: bool, after: bool, text: seq<Wchar>, t: nat, r: int)
    requires q != [] && Head(q, seg).0 == Star && t <= |text|
    requires r == WM_ABORT_ALL ==> !MatchesLater(Head(q, seg).1, text, t, false)
    requires r != WM_MATCH ==> !MatchesLater(Head(q, seg).1, text, t, true)
    ensures r == WM_ABORT_ALL ==> !Reaches(q, seg, after, text, t, false)
    ensures r != WM_MATCH ==> !Reaches(q, seg, after, text, t, true)
  {
    var rest := Head(q, seg).1;
    forall within | Reaches(q, seg, after, text, t, within)
      ensures MatchesLater(rest, text, t, within)
    {
      var j :| t <= j <= |text| && (within ==> NoSep(text, t, j)) && Matches(q, seg, text, j);
      UnfoldStar(q, seg, text, j);
      var k :| j <= k <= |text| && NoSep(text, j, k) && Matches(rest, false, text, k);
    }
  }

  lemma GlobStarAborts(q: seq<Wchar>, seg: bool, text: seq<Wchar>, t: nat)
    requires q != [] && Head(q, seg).0 == GlobStar && t <= |text|
    requires !MatchesLater(Head(q, seg).1, text, t, false)
    requires !Matches(q, seg, text, t)
    ensures !Reaches(q, seg, true, text, t, false)
  {
    var rest := Head(q, seg).1;
    forall j | t <= j <= |text| && (t < j ==> 0 <= j - 1 && text[j - 1] == DIR_SEP)
      ensures !Matches(q, seg, text, j)
    {
      UnfoldGlobStar(q, seg, text, j);
      if rest != [] && rest[0] == DIR_SEP && t < j {
        // matching nothing here is matching the separator just before
        assert Head(rest, false) == (Literal(DIR_SEP), rest[1..]);
        UnfoldChar(rest, false, text, j - 1);
        assert !Matches(rest, false, text, j - 1);
      }
    }
  }

  /** The star loop: tries the rest of the pattern at each position, skipping ahead to a literal. A single
      star does not look past the end of the path segment. */
  method MatchStar(rest: seq<Wchar>, text: seq<Wchar>, from: nat, matchSlash: bool) returns (r: int)
    requires from <= |text| && rest != [] && rest[0] != STAR && (!matchSlash ==> rest[0] != DIR_SEP)
    ensures r in {WM_MATCH, WM_NOMATCH, WM_ABORT_ALL, WM_ABORT_TO_STARSTAR}
    ensures r == WM_MATCH <==> MatchesLater(rest, text, from, !matchSlash)
    ensures r == WM_ABORT_ALL ==> !MatchesLater(rest, text, from, false)
    ensures r == WM_ABORT_TO_STARSTAR ==> !matchSlash
    decreases |rest|, 1
  {
    var t := from;
    while t < |text|
      invariant from <= t <= |text|
      invariant !matchSlash ==> NoSep(text, from, t)
      invariant forall k | from <= k < t :: !Matches(rest, false, text, k)
    {
      if !IsGlobSpecial(rest[0]) {
        while t < |text| && (matchSlash || text[t] != DIR_SEP) && text[t] != rest[0]
          invariant from <= t <= |text|
          invariant !matchSlash ==> NoSep(text, from, t)
          invariant forall k | from <= k < t :: !Matches(rest, false, text, k)
        {
          t := t + 1;
        }
        if t == |text| || text[t] != rest[0] {
          forall k | from <= k <= |text| && (!matchSlash ==> NoSep(text, from, k))
            ensures !Matches(rest, false, text, k)
          {
          }
          return WM_NOMATCH;
        }
      }
      var matched := Wildmatch(rest, text, t);
      SegmentIrrelevant(rest, text, t);
      if matched != WM_NOMATCH {
        if !matchSlash || matched != WM_ABORT_TO_STARSTAR {
          RestAborts(rest, text, from, t, matched, matchSlash);
          return matched;
        }
      } else if !matchSlash && text[t] == DIR_SEP {
        return WM_ABORT_TO_STARSTAR;
      }
      t := t + 1;
    }
    return WM_ABORT_ALL;
  }

  /** A result for the rest of the pattern at t, with all earlier positions excluded, is one for the star. */
  lemma RestAborts(rest: seq<Wchar>, text: seq<Wchar>, from: nat, t: nat, r: int, matchSlash: bool)
    requires from <= t <= |text| && rest != [] && rest[0] != STAR
    requires !matchSlash ==> NoSep(text, from, t)
    requires forall k | from <= k < t :: !Matches(rest, false, text, k)
    requires Sound(rest, text, t, r) && r != WM_NOMATCH && (matchSlash ==> r != WM_ABORT_TO_STARSTAR)
    ensures r == WM_MATCH <==> MatchesLater(rest, text, from, !matchSlash)
    ensures r == WM_ABORT_ALL ==> !MatchesLater(rest, text, from, false)
  {
    forall k
      ensures Matches(rest, true, text, k) == Matches(rest, false, text, k)
    {
      SegmentIrrelevant(rest, text, k);
    }
  }

  /** The whole matcher. Position `at` of the text is the text pointer; the pattern pointer is the start of
      `pattern`, so that only the characters of this call's pattern decide what a double star is. */
  method Wildmatch(pattern: seq<Wchar>, text: seq<Wchar>, at: nat) returns (r: int)
    requires at <= |text|
    ensures Sound(pattern, text, at, r)
    decreases |pattern|, 0
  {
    hide Matches, MatchesLater, Reaches, Head, InBody, BodyEnd, Sound, Progress;
    var p, t := 0, at;
    ProgressStarts(pattern, text, at);
    while p < |pattern|
      invariant p <= |pattern| && at <= t <= |text|
      invariant Progress(pattern, text, at, p, t)
      decreases |pattern| - p
    {
      ghost var first := p;
      var ch := pattern[p];
      if t == |text| && ch != STAR {
        EndOutcome(pattern, text, at, p);
        return WM_ABORT_ALL;
      }
      if ch == STAR {
        var prev := p - 1;
        p := p + 1;
        var matchSlash := false;
        if p < |pattern| && pattern[p] == STAR {
          p := SkipStars(pattern, p);
          matchSlash := (prev < 0 || pattern[prev] == DIR_SEP) && (p == |pattern| || pattern[p] == DIR_SEP);
        }
        StarsMean(pattern, text, first, p, t, matchSlash);
        if matchSlash && p < |pattern| {
          var skipped := Wildmatch(pattern[p + 1..], text, t);
          SoundMatch(pattern[p + 1..], text, t, skipped);
          if skipped == WM_MATCH {
            TrailingSound(pattern, text, at, first, t, WM_MATCH);
            return WM_MATCH;
          }
        }
        if p == |pattern| {
          r := TrailingStar(text, t, matchSlash);
          TrailingSound(pattern, text, at, first, t, r);
          return r;
        } else if !matchSlash && pattern[p] == DIR_SEP {
          var slash := FindSep(text, t);
          if slash == |text| {
            NoSepNoMatch(pattern[first..], SegmentStart(pattern, first), text, t);
            TrailingSound(pattern, text, at, first, t, WM_NOMATCH);
            return WM_NOMATCH;
          }
          StarSepOutcome(pattern, text, at, first, t, p, slash);
          t := slash;
        } else {
          r := MatchStar(pattern[p..], text, t, matchSlash);
          StarOutcome(pattern, text, at, first, t, r);
          return r;
        }
      } else if ch == QUESTION {
        HeadAt(pattern, p, SegmentStart(pattern, p));
        CharOutcome(pattern, text, at, first, t, p + 1);
        if text[t] == DIR_SEP {
          return WM_NOMATCH;
        }
      } else if ch == OPEN {
        p := p + 1;
        var negated := p < |pattern| && (pattern[p] == BANG || pattern[p] == CARET);
        if negated {
          p := p + 1;
        }
        var closed, end, matched := ScanClass(pattern[p..], text[t]);
        ClassAt(pattern, first, p, SegmentStart(pattern, first));
        if !closed {
          MalformedOutcome(pattern, text, at, first, t);
          return WM_ABORT_ALL;
        }
        p := p + end;
        CharOutcome(pattern, text, at, first, t, p + 1);
        if matched == negated || text[t] == DIR_SEP {
          return WM_NOMATCH;
        }
      } else {
        HeadAt(pattern, p, SegmentStart(pattern, p));
        CharOutcome(pattern, text, at, first, t, p + 1);
        if text[t] != ch {
          return WM_NOMATCH;
        }
      }
      p, t := p + 1, t + 1;
    }
    EmptyPattern(SegmentStart(pattern, p), text, t);
    assert pattern[p..] == [];
    r := if t < |text| then WM_NOMATCH else WM_MATCH;
    TrailingSound(pattern, text, at, p, t, r);
  }

  lemma EmptyPattern(seg: bool, text: seq<Wchar>, t: nat)
    ensures Matches([], seg, text, t) <==> t == |text|
  {
  }

  /** The class at `first`, whose body starts at p. */
  lemma ClassAt(pattern: seq<Wchar>, first: nat, p: nat, seg: bool)
    requires first < p <= |pattern| && pattern[first] == OPEN
    requires var negated := first + 1 < |pattern| && (pattern[first + 1] == BANG || pattern[first + 1] == CARET);
      p == first + (if negated then 2 else 1)
    ensures var q := pattern[p..]; var e := BodyEnd(q);
      if e < |q| then
        Head(pattern[first..], seg) == (Class(q[..e], p == first + 2), pattern[p + e + 1..]) && pattern[p + e] == CLOSE
      else Head(pattern[first..], seg) == (Malformed, [])
  {
    var whole := pattern[first..];
    assert first + 1 < |pattern| ==> whole[1] == pattern[first + 1];
    assert whole[p - first..] == pattern[p..];
    var q := pattern[p..];
    var e := BodyEnd(q);
    if e < |q| {
      assert q[e + 1..] == pattern[p + e + 1..];
    }
  }

  // What each branch of the matcher's loop establishes ---------------------------------------------------

  lemma MalformedOutcome(pattern: seq<Wchar>, text: seq<Wchar>, at: int, p: nat, t: int)
    requires p < |pattern| && Progress(pattern, text, at, p, t) && at <= |text|
    requires Head(pattern[p..], SegmentStart(pattern, p)).0 == Malformed
    ensures Sound(pattern, text, at, WM_ABORT_ALL)
  {
    AbortIsSound(pattern, text, at, p, t, WM_ABORT_ALL);
  }

  lemma EndOutcome(pattern: seq<Wchar>, text: seq<Wchar>, at: int, p: nat)
    requires p < |pattern| && pattern[p] != STAR && Progress(pattern, text, at, p, |text|) && at <= |text|
    ensures Sound(pattern, text, at, WM_ABORT_ALL)
  {
    EndStep(pattern[p..], SegmentStart(pattern, p), AfterSep(pattern, p), text);
    AbortIsSound(pattern, text, at, p, |text|, WM_ABORT_ALL);
  }

  lemma CharOutcome(pattern: seq<Wchar>, text: seq<Wchar>, at: int, p: nat, t: nat, p': nat)
    requires p < p' <= |pattern| && t < |text| && Progress(pattern, text, at, p, t)
    requires var (tok, rest) := Head(pattern[p..], SegmentStart(pattern, p));
      OneChar(tok) && rest == pattern[p'..] && (tok == Literal(DIR_SEP)) == (pattern[p' - 1] == DIR_SEP)
    ensures if Accepts(Head(pattern[p..], SegmentStart(pattern, p)).0, text[t])
      then Progress(pattern, text, at, p', t + 1) else Sound(pattern, text, at, WM_NOMATCH)
  {
    var q, seg := pattern[p..], SegmentStart(pattern, p);
    UnfoldChar(q, seg, text, t);
    if Accepts(Head(q, seg).0, text[t]) {
      CharStep(q, seg, AfterSep(pattern, p), text, t);
      Advance(pattern, text, at, p, t, p', t + 1);
    } else {
      TrailingSound(pattern, text, at, p, t, WM_NOMATCH);
    }
  }

  lemma StarSepOutcome(pattern: seq<Wchar>, text: seq<Wchar>, at: int, p: nat, t: nat, e: nat, s: nat)
    requires p < e < |pattern| && pattern[e] == DIR_SEP && Progress(pattern, text, at, p, t)
    requires Head(pattern[p..], SegmentStart(pattern, p)) == (Star, pattern[e..])
    requires t <= s < |text| && text[s] == DIR_SEP && NoSep(text, t, s)
    ensures Progress(pattern, text, at, e + 1, s + 1)
  {
    hide Matches, Reaches, Head, Progress, NoSep;
    StarSepStep(pattern[p..], SegmentStart(pattern, p), AfterSep(pattern, p), text, t, s);
    assert pattern[e..][1..] == pattern[e + 1..];
    Advance(pattern, text, at, p, t, e + 1, s + 1);
  }

  lemma StarOutcome(pattern: seq<Wchar>, text: seq<Wchar>, at: int, p: nat, t: nat, r: int)
    requires p < |pattern| && Progress(pattern, text, at, p, t) && at <= t <= |text|
    requires r in {WM_MATCH, WM_NOMATCH, WM_ABORT_ALL, WM_ABORT_TO_STARSTAR}
    requires
      var q, seg := pattern[p..], SegmentStart(pattern, p);
      var (tok, rest) := Head(q, seg);
      && pattern[p] == STAR && (tok == GlobStar || tok == Star)
      && (r == WM_MATCH <==> Matches(q, seg, text, t))
      && (r == WM_ABORT_ALL ==> !MatchesLater(rest, text, t, false))
      && (r == WM_ABORT_TO_STARSTAR ==> tok == Star)
    ensures Sound(pattern, text, at, r)
  {
    var q, seg, after := pattern[p..], SegmentStart(pattern, p), AfterSep(pattern, p);
    if r == WM_MATCH {
      TrailingSound(pattern, text, at, p, t, r);
    } else {
      if Head(q, seg).0 == Star {
        UnfoldStar(q, seg, text, t);
        StarAborts(q, seg, after, text, t, r);
      } else if r == WM_ABORT_ALL && pattern[0] != STAR {
        GlobStarAborts(q, seg, text, t);
      }
      AbortIsSound(pattern, text, at, p, t, r);
    }
  }

  lemma ProgressStarts(pattern: seq<Wchar>, text: seq<Wchar>, at: int)
    ensures Progress(pattern, text, at, 0, at)
  {
    assert pattern[0..] == pattern;
  }

  /** From one token boundary to the next. */
  lemma Advance(pattern: seq<Wchar>, text: seq<Wchar>, at: int, p: nat, t: int, p': nat, t': int)
    requires p < p' <= |pattern| && Progress(pattern, text, at, p, t)
    requires var q, seg, after := pattern[p..], SegmentStart(pattern, p), AfterSep(pattern, p);
      var q', sep := pattern[p'..], AfterSep(pattern, p');
      && Matches(q, seg, text, t) == Matches(q', sep, text, t')
      && (Reaches(q, seg, after, text, t, false) ==> Reaches(q', sep, sep, text, t', false))
      && (Reaches(q, seg, after, text, t, true) ==> Reaches(q', sep, sep, text, t', true))
    ensures Progress(pattern, text, at, p', t')
  {
  }

  lemma SoundMatch(pattern: seq<Wchar>, text: seq<Wchar>, at: int, r: int)
    requires Sound(pattern, text, at, r)
    ensures r == WM_MATCH <==> Matches(pattern, true, text, at)
  {
  }

  /** A definite answer for the rest of the pattern is one for the whole. */
  lemma TrailingSound(pattern: seq<Wchar>, text: seq<Wchar>, at: int, p: nat, t: int, r: int)
    requires p <= |pattern| && Progress(pattern, text, at, p, t) && r in {WM_MATCH, WM_NOMATCH}
    requires r == WM_MATCH <==> Matches(pattern[p..], SegmentStart(pattern, p), text, t)
    ensures Sound(pattern, text, at, r)
  {
  }

  lemma NoSepNoMatch(q: seq<Wchar>, seg: bool, text: seq<Wchar>, t: nat)
    requires q != [] && Head(q, seg).0 == Star && Head(q, seg).1 != [] && Head(q, seg).1[0] == DIR_SEP
    requires NoSep(text, t, |text|)
    ensures !Matches(q, seg, text, t)
  {
    var rest := Head(q, seg).1;
    UnfoldStar(q, seg, text, t);
    assert Head(rest, false).0 == Literal(DIR_SEP);
    forall k | t <= k <= |text|
      ensures !Matches(rest, false, text, k)
    {
      UnfoldChar(rest, false, text, k);
    }
  }

  method SkipStars(pattern: seq<Wchar>, p: nat) returns (e: nat)
    requires p < |pattern| && pattern[p] == STAR
    ensures p < e <= |pattern| && (e < |pattern| ==> pattern[e] != STAR)
    ensures forall i | p <= i < e :: pattern[i] == STAR
  {
    e := p + 1;
    while e < |pattern| && pattern[e] == STAR
      invariant p < e <= |pattern|
      invariant forall i | p <= i < e :: pattern[i] == STAR
    {
      e := e + 1;
    }
  }

  method FindSep(text: seq<Wchar>, t: nat) returns (s: nat)
    requires t <= |text|
    ensures t <= s <= |text| && NoSep(text, t, s) && (s < |text| ==> text[s] == DIR_SEP)
  {
    s := t;
    while s < |text| && text[s] != DIR_SEP
      invariant t <= s <= |text| && NoSep(text, t, s)
    {
      s := s + 1;
    }
  }

  /** A trailing double star matches everything, a trailing single star the rest of the path segment. */
  method TrailingStar(text: seq<Wchar>, t: nat, matchSlash: bool) returns (r: int)
    requires t <= |text|
    ensures r in {WM_MATCH, WM_NOMATCH}
    ensures r == WM_MATCH <==> MatchesLater([], text, t, !matchSlash)
  {
    if !matchSlash {
      var s := FindSep(text, t);
      if s != |text| {
        return WM_NOMATCH;
      }
    }
    assert Matches([], false, text, |text|);
    return WM_MATCH;
  }
}
