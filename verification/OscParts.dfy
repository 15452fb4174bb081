/** The matching rule of the Open Sound Control 1.0 Specification, section "OSC Message Dispatching and
    Pattern Matching": address and pattern have as many parts, and match part by part. When the
    matcher of oscpkt.hh, which does not look at parts, follows it. */
module OscParts {
  import opened Basics
  import opened OscMessage
  import opened OscPattern

  /** The parts between the slashes. */
  function Parts(s: Bytes): (r: seq<Bytes>)
    ensures 0 < |r| && forall k :: 0 <= k < |r| ==> SLASH !in r[k]
    decreases |s|
  {
    var q := IndexOf(s, SLASH, 0);
    if q == |s| then [s] else [s[..q]] + Parts(s[q + 1..])
  }

  /** The rule. Inside a part the elements mean what they mean to the matcher, lists uncommitted. */
  ghost predicate PartByPart(p: Bytes, s: Bytes) {
    && |Parts(p)| == |Parts(s)|
    && forall k :: 0 <= k < |Parts(p)| ==> Matches(Parts(p)[k], 0, Parts(s)[k], false)
  }

  /** Every bracket and brace is closed. */
  ghost predicate Closed(a: Bytes, i: nat)
    requires i <= |a|
    decreases |a| - i
  {
    i < |a| ==> var (tok, j) := Next(a, i); !tok.Broken? && Closed(a, j)
  }

  ghost predicate AllClosed(parts: seq<Bytes>) {
    forall k :: 0 <= k < |parts| ==> SLASH !in parts[k] && Closed(parts[k], 0)
  }

  predicate NoDoubleSlash(p: Bytes) {
    forall i :: 0 < i < |p| ==> !(p[i - 1] == SLASH && p[i] == SLASH)
  }

  /** No "//", and every bracket and brace is closed within its part. */
  ghost predicate Plain(p: Bytes) {
    NoDoubleSlash(p) && AllClosed(Parts(p))
  }

  /** A '?' or a set that accepts '/', from position i on. */
  ghost predicate TakesSlash(a: Bytes, i: nat)
    requires i <= |a|
    decreases |a| - i
  {
    i < |a| &&
      var (tok, j) := Next(a, i);
      tok.AnyChar? || (tok.OneOf? && InRanges(tok.ranges, SLASH) != tok.negate) || TakesSlash(a, j)
  }

  ghost predicate SomeTakesSlash(parts: seq<Bytes>) {
    exists k :: 0 <= k < |parts| && TakesSlash(parts[k], 0)
  }

  // ----- elements do not depend on what stands around their part

  lemma {:induction false} RangesInFront(a: Bytes, c: Bytes, k: nat)
    requires k <= |a| && Ranges(a, k).1 < |a|
    ensures Ranges(a + c, k) == Ranges(a, k)
    decreases |a| - k
  {
    if a[k] != CLOSE_SET {
      var wide := k + 2 < |a| && a[k + 1] == DASH && a[k + 2] != CLOSE_SET;
      RangesInFront(a, c, if wide then k + 3 else k + 1);
    }
  }

  lemma {:induction false} RunInFront(a: Bytes, c: Bytes, b: byte, from: nat)
    requires from <= |a| && (c == [] || c[0] != b)
    ensures AfterRun(a + c, b, from) == AfterRun(a, b, from)
    decreases |a| - from
  {
    if from < |a| && a[from] == b { RunInFront(a, c, b, from + 1); }
  }

  /** What follows a part begins with '/', and changes none of its elements. */
  lemma NextInFront(a: Bytes, c: Bytes, i: nat)
    requires SLASH !in a && i < |a| && (c == [] || c[0] == SLASH) && !Next(a, i).0.Broken?
    ensures Next(a + c, i) == Next(a, i) && !Next(a, i).0.AnyPrefix?
  {
    hide Ranges, Choices, AfterRun, IndexOf;
    assert a[i] in a;
    var p := a + c;
    if a[i] == OPEN_SET {
      var negate := i + 1 < |a| && a[i + 1] == BANG;
      RangesInFront(a, c, if negate then i + 2 else i + 1);
    } else if a[i] == STAR {
      RunInFront(a, c, STAR, i);
    } else if a[i] == OPEN_LIST {
      FirstInFront(a, c, CLOSE_LIST, i, |a|);
      ChoicesInFront(a, c, i + 1, IndexOf(a, CLOSE_LIST, i));
    }
  }

  lemma {:induction false} RangesShift(b: Bytes, c: Bytes, k: nat)
    requires k <= |c|
    ensures Ranges(b + c, |b| + k) == (Ranges(c, k).0, |b| + Ranges(c, k).1)
    decreases |c| - k
  {
    var p := b + c;
    if k < |c| && c[k] != CLOSE_SET {
      var wide := k + 2 < |c| && c[k + 1] == DASH && c[k + 2] != CLOSE_SET;
      assert p[|b| + k] == c[k] && (k + 2 < |c| ==> p[|b| + k + 1] == c[k + 1] && p[|b| + k + 2] == c[k + 2]);
      RangesShift(b, c, if wide then k + 3 else k + 1);
    }
  }

  lemma {:induction false} RunShift(b: Bytes, c: Bytes, x: byte, from: nat)
    requires from <= |c|
    ensures AfterRun(b + c, x, |b| + from) == |b| + AfterRun(c, x, from)
    decreases |c| - from
  {
    if from < |c| && c[from] == x { RunShift(b, c, x, from + 1); }
  }

  lemma {:induction false} ChoicesShift(b: Bytes, c: Bytes, k: nat, end: nat)
    requires k <= end <= |c|
    ensures Choices(b + c, |b| + k, |b| + end) == Choices(c, k, end)
    decreases end - k
  {
    hide IndexOf;
    var p := b + c;
    IndexShift(b, c, COMMA, k);
    var q := IndexOf(c, COMMA, k);
    if q < end {
      ChoicesShift(b, c, q + 1, end);
      assert p[|b| + k..|b| + q] == c[k..q];
    } else {
      assert p[|b| + k..|b| + end] == c[k..end];
    }
  }

  lemma NextShift(b: Bytes, c: Bytes, i: nat)
    requires i < |c|
    ensures Next(b + c, |b| + i) == (Next(c, i).0, |b| + Next(c, i).1)
  {
    hide Ranges, Choices, AfterRun, IndexOf;
    var p := b + c;
    assert p[|b| + i] == c[i] && (i + 1 < |c| ==> p[|b| + i + 1] == c[i + 1]);
    if c[i] == OPEN_SET {
      var negate := i + 1 < |c| && c[i + 1] == BANG;
      RangesShift(b, c, if negate then i + 2 else i + 1);
    } else if c[i] == STAR {
      RunShift(b, c, STAR, i);
    } else if c[i] == SLASH {
      RunShift(b, c, SLASH, i);
    } else if c[i] == OPEN_LIST {
      IndexShift(b, c, CLOSE_LIST, i);
      if IndexOf(c, CLOSE_LIST, i) < |c| { ChoicesShift(b, c, i + 1, IndexOf(c, CLOSE_LIST, i)); }
    }
  }

  /** A pattern from a position on matches what its rest matches. */
  lemma {:induction false} MatchesShift(b: Bytes, c: Bytes, i: nat, s: Bytes)
    requires i <= |c|
    ensures Matches(b + c, |b| + i, s, false) <==> Matches(c, i, s, false)
    decreases |c| - i
  {
    hide Next, InRanges;
    if i < |c| {
      NextShift(b, c, i);
      var j := Next(c, i).1;
      forall t: Bytes ensures Matches(b + c, |b| + j, t, false) <==> Matches(c, j, t, false) {
        MatchesShift(b, c, j, t);
      }
    }
  }

  // ----- a pattern takes the path element by element

  /** The pieces of a path that an element stands for, lists uncommitted. */
  predicate Takes(tok: Tok, t: Bytes) {
    match tok
    case AnyChar => |t| == 1
    case OneOf(negate, ranges) => |t| == 1 && InRanges(ranges, t[0]) != negate
    case AnyRun => SLASH !in t
    case AnyPrefix => true
    case List(choices) => t in choices
    case Literal(c) => t == [c]
    case Broken => false
  }

  lemma FirstTaken(p: Bytes, i: nat, s: Bytes) returns (r: nat)
    requires i < |p| && Matches(p, i, s, false)
    ensures r <= |s| && Takes(Next(p, i).0, s[..r]) && Matches(p, Next(p, i).1, s[r..], false)
  {
    hide Next, InRanges;
    var (tok, j) := Next(p, i);
    match tok
    case AnyRun => r :| 0 <= r <= |s| && SLASH !in s[..r] && Matches(p, j, s[r..], false);
    case AnyPrefix => r :| 0 <= r <= |s| && Matches(p, j, s[r..], false);
    case List(choices) =>
      var n: nat :| Applies(choices, n, s, false) && Matches(p, j, s[|choices[n]|..], false);
      r := |choices[n]|;
      assert s[..r] == choices[n];
    case AnyChar => r := 1;
    case OneOf(_, _) => r := 1; assert s[..1] == [s[0]];
    case Literal(_) => r := 1; assert s[..1] == [s[0]];
    case Broken =>
  }

  lemma TakeFirst(p: Bytes, i: nat, s: Bytes, r: nat)
    requires i < |p| && r <= |s| && Takes(Next(p, i).0, s[..r]) && Matches(p, Next(p, i).1, s[r..], false)
    ensures Matches(p, i, s, false)
  {
    hide Next, InRanges;
    var (tok, j) := Next(p, i);
    if tok.List? {
      var n :| 0 <= n < |tok.choices| && tok.choices[n] == s[..r];
      assert Applies(tok.choices, n, s, false);
    } else if r == 1 {
      assert s[..1][0] == s[0];
    }
  }

  // ----- a part and what follows it

  lemma {:induction false} FrontMatches(a: Bytes, c: Bytes, i: nat, s: Bytes) returns (k: nat)
    requires SLASH !in a && i <= |a| && (c == [] || c[0] == SLASH) && Closed(a, i) && Matches(a + c, i, s, false)
    ensures k <= |s| && Matches(a, i, s[..k], false) && Matches(a + c, |a|, s[k..], false)
    decreases |a| - i
  {
    hide Next, Takes;
    if i == |a| {
      k := 0;
      assert s[0..] == s;
    } else {
      hide Matches;
      NextInFront(a, c, i);
      var r := FirstTaken(a + c, i, s);
      var d := FrontMatches(a, c, Next(a, i).1, s[r..]);
      k := r + d;
      assert s[..k][..r] == s[..r] && s[..k][r..] == s[r..][..d] && s[k..] == s[r..][d..];
      TakeFirst(a, i, s[..k], r);
    }
  }

  lemma {:induction false} FrontAndRest(a: Bytes, c: Bytes, i: nat, s: Bytes, k: nat)
    requires SLASH !in a && i <= |a| && (c == [] || c[0] == SLASH) && Closed(a, i) && k <= |s|
    requires Matches(a, i, s[..k], false) && Matches(a + c, |a|, s[k..], false)
    ensures Matches(a + c, i, s, false)
    decreases |a| - i
  {
    hide Next, Takes;
    if i == |a| {
      assert s[k..] == s;
    } else {
      hide Matches;
      NextInFront(a, c, i);
      var r := FirstTaken(a, i, s[..k]);
      assert s[..k][..r] == s[..r] && s[r..][..k - r] == s[..k][r..] && s[r..][k - r..] == s[k..];
      FrontAndRest(a, c, Next(a, i).1, s[r..], k - r);
      TakeFirst(a + c, i, s, r);
    }
  }

  /** What a closed part without such elements matches is a part itself. */
  lemma {:induction false} PartIsSlashFree(a: Bytes, i: nat, t: Bytes)
    requires SLASH !in a && i <= |a| && Closed(a, i) && !TakesSlash(a, i) && Matches(a, i, t, false)
    ensures SLASH !in t
    decreases |a| - i
  {
    hide Next, InRanges;
    if i < |a| {
      hide Matches;
      var r := FirstTaken(a, i, t);
      NextTakesNoSlash(a, i, t[..r]);
      PartIsSlashFree(a, Next(a, i).1, t[r..]);
      assert t == t[..r] + t[r..];
    }
  }

  lemma NextTakesNoSlash(a: Bytes, i: nat, t: Bytes)
    requires SLASH !in a && i < |a| && Takes(Next(a, i).0, t)
    requires var tok := Next(a, i).0; !tok.AnyChar? && (tok.OneOf? ==> InRanges(tok.ranges, SLASH) == tok.negate)
    ensures SLASH !in t
  {
    hide Ranges, Choices, AfterRun, IndexOf;
    assert a[i] in a;
    if a[i] == OPEN_LIST {
      var end := IndexOf(a, CLOSE_LIST, i);
      var n :| 0 <= n < |Choices(a, i + 1, end)| && Choices(a, i + 1, end)[n] == t;
      ChoicesAreParts(a, i + 1, end, n);
    }
  }

  /** Otherwise a '/' can stand where such an element takes its character. */
  lemma {:induction false} PartCanTakeSlash(a: Bytes, i: nat, t: Bytes) returns (u: Bytes)
    requires i <= |a| && TakesSlash(a, i) && Matches(a, i, t, false) && 0 !in t
    ensures Matches(a, i, u, false) && 0 !in u && SLASH in u
    decreases |a| - i
  {
    hide Next, InRanges, Matches;
    var (tok, j) := Next(a, i);
    var r := FirstTaken(a, i, t);
    if TakesSlash(a, j) {
      var rest := PartCanTakeSlash(a, j, t[r..]);
      u := t[..r] + rest;
      assert u[..r] == t[..r] && u[r..] == rest;
    } else {
      u := [SLASH] + t[r..];
      assert r == 1 && u[..r] == [SLASH] && u[r..] == t[r..];
    }
    TakeFirst(a, i, u, r);
  }

  /** The parts match pieces of the path with a '/' between each two. */
  ghost predicate Joined(parts: seq<Bytes>, s: Bytes)
    requires 0 < |parts|
    decreases |parts|
  {
    if |parts| == 1 then Matches(parts[0], 0, s, false)
    else exists k :: 0 <= k < |s| && s[k] == SLASH && JoinedAt(parts, s, k)
  }

  ghost predicate JoinedAt(parts: seq<Bytes>, s: Bytes, k: nat)
    requires 1 < |parts| && k < |s|
    decreases |parts|, 0
  {
    Matches(parts[0], 0, s[..k], false) && Joined(parts[1..], s[k + 1..])
  }

  lemma PartsOf(p: Bytes)
    ensures var q := IndexOf(p, SLASH, 0);
      && (q == |p| ==> Parts(p) == [p])
      && (q < |p| ==> Parts(p)[0] == p[..q] && Parts(p)[1..] == Parts(p[q + 1..]))
  {
    hide IndexOf;
    var q := IndexOf(p, SLASH, 0);
    if q < |p| { assert Parts(p) == [p[..q]] + Parts(p[q + 1..]); }
  }

  lemma SlashStandsAlone(p: Bytes)
    requires Plain(p) && IndexOf(p, SLASH, 0) < |p|
    ensures var q := IndexOf(p, SLASH, 0); Next(p, q) == (Literal(SLASH), q + 1)
  {
    hide AllClosed, Parts, AfterRun, Ranges, Choices;
    var q := IndexOf(p, SLASH, 0);
    if q + 1 < |p| { assert p[q + 1 - 1] == SLASH; }
  }

  lemma RestHasNoDoubleSlash(p: Bytes, from: nat)
    requires NoDoubleSlash(p) && from <= |p|
    ensures NoDoubleSlash(p[from..])
  {
    forall i | 0 < i < |p| - from ensures !(p[from..][i - 1] == SLASH && p[from..][i] == SLASH) {
      assert p[from..][i] == p[from + i] && p[from..][i - 1] == p[from + i - 1];
    }
  }

  lemma RestIsPlain(p: Bytes)
    requires Plain(p) && IndexOf(p, SLASH, 0) < |p|
    ensures var q := IndexOf(p, SLASH, 0);
      && SLASH !in p[..q] && Closed(p[..q], 0) && Plain(p[q + 1..])
  {
    hide Closed, Parts, IndexOf, NoDoubleSlash;
    PartsOf(p);
    RestHasNoDoubleSlash(p, IndexOf(p, SLASH, 0) + 1);
  }

  /** A plain pattern matches exactly the paths its parts match piece by piece. */
  lemma {:induction false} WholeIsJoined(p: Bytes, s: Bytes)
    requires Plain(p)
    ensures Matches(p, 0, s, false) <==> Joined(Parts(p), s)
    decreases |p|
  {
    hide Next, Plain, Closed, Parts;
    PartsOf(p);
    var q := IndexOf(p, SLASH, 0);
    if q < |p| {
      RestIsPlain(p);
      SlashStandsAlone(p);
      var a, c, rest := p[..q], p[q..], p[q + 1..];
      assert p == a + c == p[..q + 1] + rest;
      if Matches(p, 0, s, false) {
        var k := FrontMatches(a, c, 0, s);
        MatchesShift(p[..q + 1], rest, 0, s[k..][1..]);
        assert s[k..][1..] == s[k + 1..] && s[k] == s[k..][0];
        WholeIsJoined(rest, s[k + 1..]);
        assert JoinedAt(Parts(p), s, k);
      }
      if Joined(Parts(p), s) {
        var k :| 0 <= k < |s| && s[k] == SLASH && JoinedAt(Parts(p), s, k);
        WholeIsJoined(rest, s[k + 1..]);
        MatchesShift(p[..q + 1], rest, 0, s[k + 1..]);
        assert s[k..][1..] == s[k + 1..] && s[k] == s[k..][0];
        FrontAndRest(a, c, 0, s, k);
      }
    }
  }

  // ----- pieces and parts

  lemma FirstOfJoin(x: Bytes, y: Bytes)
    ensures IndexOf(x + [SLASH] + y, SLASH, 0) == IndexOf(x, SLASH, 0)
  {
    hide IndexOf;
    var s, q := x + [SLASH] + y, IndexOf(x, SLASH, 0);
    assert s[q] == SLASH;
    assert forall i :: 0 <= i < q ==> s[i] == x[i];
  }

  lemma PartsOfJoin(x: Bytes, y: Bytes)
    ensures |Parts(x + [SLASH] + y)| == |Parts(x)| + |Parts(y)|
    decreases |x|
  {
    hide IndexOf, Parts;
    var s, q := x + [SLASH] + y, IndexOf(x, SLASH, 0);
    FirstOfJoin(x, y);
    PartsOf(s);
    PartsOf(x);
    if q < |x| {
      assert s[q + 1..] == x[q + 1..] + [SLASH] + y;
      PartsOfJoin(x[q + 1..], y);
    } else {
      assert s[q + 1..] == y;
    }
  }

  ghost predicate AllMatch(parts: seq<Bytes>, pieces: seq<Bytes>) {
    |parts| == |pieces| && forall k :: 0 <= k < |parts| ==> Matches(parts[k], 0, pieces[k], false)
  }

  /** Parts that match one by one join up. */
  lemma {:induction false} PartsJoin(parts: seq<Bytes>, s: Bytes)
    requires 0 < |parts| && AllMatch(parts, Parts(s))
    ensures Joined(parts, s)
    decreases |parts|
  {
    hide Matches, Parts;
    PartsOf(s);
    var q := IndexOf(s, SLASH, 0);
    if 1 < |parts| {
      assert forall k :: 0 <= k < |parts| - 1 ==> parts[1..][k] == parts[k + 1] && Parts(s)[1..][k] == Parts(s)[k + 1];
      PartsJoin(parts[1..], s[q + 1..]);
      assert JoinedAt(parts, s, q);
    }
  }

  /** Pieces without '/' are the parts of the path. */
  lemma {:induction false} JoinedIsPartByPart(parts: seq<Bytes>, s: Bytes)
    requires 0 < |parts| && AllClosed(parts) && !SomeTakesSlash(parts) && Joined(parts, s)
    ensures AllMatch(parts, Parts(s))
    decreases |parts|
  {
    hide Matches, Parts, Closed, TakesSlash;
    PartsOf(s);
    if |parts| == 1 {
      PartIsSlashFree(parts[0], 0, s);
    } else {
      var k :| 0 <= k < |s| && s[k] == SLASH && JoinedAt(parts, s, k);
      PartIsSlashFree(parts[0], 0, s[..k]);
      assert forall i :: 0 <= i < k ==> s[i] == s[..k][i];
      assert IndexOf(s, SLASH, 0) == k;
      JoinedIsPartByPart(parts[1..], s[k + 1..]);
    }
  }

  lemma {:induction false} JoinedHasParts(parts: seq<Bytes>, s: Bytes)
    requires 0 < |parts| && Joined(parts, s)
    ensures |parts| <= |Parts(s)|
    decreases |parts|
  {
    hide Matches, Parts;
    if 1 < |parts| {
      var k :| 0 <= k < |s| && s[k] == SLASH && JoinedAt(parts, s, k);
      JoinedHasParts(parts[1..], s[k + 1..]);
      assert s == s[..k] + [SLASH] + s[k + 1..];
      PartsOfJoin(s[..k], s[k + 1..]);
    }
  }

  /** One such element gives a matched path with more parts than the pattern. */
  lemma {:induction false} JoinedCanTakeSlash(parts: seq<Bytes>, s: Bytes) returns (u: Bytes)
    requires 0 < |parts| && SomeTakesSlash(parts) && Joined(parts, s) && 0 !in s
    ensures Joined(parts, u) && 0 !in u && |parts| < |Parts(u)|
    decreases |parts|
  {
    hide Matches, Parts, TakesSlash;
    if |parts| == 1 {
      u := PartCanTakeSlash(parts[0], 0, s);
      SlashMeansTwo(u);
    } else {
      var k :| 0 <= k < |s| && s[k] == SLASH && JoinedAt(parts, s, k);
      var x, y := s[..k], s[k + 1..];
      if TakesSlash(parts[0], 0) {
        x := PartCanTakeSlash(parts[0], 0, x);
        SlashMeansTwo(x);
        JoinedHasParts(parts[1..], y);
      } else {
        var n :| 0 <= n < |parts| && TakesSlash(parts[n], 0);
        assert parts[1..][n - 1] == parts[n];
        y := JoinedCanTakeSlash(parts[1..], y);
      }
      u := x + [SLASH] + y;
      PartsOfJoin(x, y);
      assert u[..|x|] == x && u[|x| + 1..] == y && u[|x|] == SLASH;
      assert JoinedAt(parts, u, |x|);
    }
  }

  lemma SlashMeansTwo(u: Bytes)
    requires SLASH in u
    ensures 1 < |Parts(u)|
  {
    var k :| 0 <= k < |u| && u[k] == SLASH;
    assert IndexOf(u, SLASH, 0) <= k;
  }

  // ----- exactly when the matcher goes part by part

  /** What matches part by part is always matched. */
  lemma PartByPartIsMatched(p: Bytes, s: Bytes)
    requires Plain(p) && PartByPart(p, s)
    ensures Matches(p, 0, s, false)
  {
    hide Matches, Parts, Plain;
    PartsJoin(Parts(p), s);
    WholeIsJoined(p, s);
  }

  /** The matcher's language is the part-by-part one if and only if no '?' and no set of the pattern
      takes a '/'; otherwise it holds a path with more parts than the pattern. Of a plain pattern
      that matches some path. */
  lemma PartByPartExactly(p: Bytes, some: Bytes)
    requires Plain(p) && 0 !in some && Matches(p, 0, some, false)
    ensures (forall s: Bytes :: 0 !in s ==> (Matches(p, 0, s, false) <==> PartByPart(p, s)))
      <==> !SomeTakesSlash(Parts(p))
    ensures (forall s: Bytes :: 0 !in s && Matches(p, 0, s, false) ==> |Parts(s)| == |Parts(p)|)
      <==> !SomeTakesSlash(Parts(p))
  {
    hide Matches, Parts, SomeTakesSlash;
    if SomeTakesSlash(Parts(p)) {
      WholeIsJoined(p, some);
      var u := JoinedCanTakeSlash(Parts(p), some);
      WholeIsJoined(p, u);
    } else {
      forall s: Bytes ensures Matches(p, 0, s, false) <==> PartByPart(p, s) {
        if PartByPart(p, s) { PartByPartIsMatched(p, s); }
        if Matches(p, 0, s, false) {
          WholeIsJoined(p, s);
          JoinedIsPartByPart(Parts(p), s);
        }
      }
    }
  }

  /** Such a pattern without losing lists is decided part by part. */
  lemma CommitsPartByPart(p: Bytes, s: Bytes)
    requires Plain(p) && PrefixFree(p, 0) && !SomeTakesSlash(Parts(p))
    ensures Matches(p, 0, s, true) <==> PartByPart(p, s)
  {
    hide Matches, Parts, SomeTakesSlash, Plain, PrefixFree;
    if PartByPart(p, s) {
      PartByPartIsMatched(p, s);
      FirstChoiceIsComplete(p, 0, s);
    }
    if Matches(p, 0, s, true) {
      FirstChoiceIsSound(p, 0, s);
      WholeIsJoined(p, s);
      assert AllClosed(Parts(p)) by { PlainIsClosed(p); }
      JoinedIsPartByPart(Parts(p), s);
    }
  }

  lemma PlainIsClosed(p: Bytes)
    requires Plain(p)
    ensures AllClosed(Parts(p))
  {
  }

  const QUESTION_IN_PART: Bytes := [SLASH, 97, QUESTION, 98]
  const SLASH_FOR_QUESTION: Bytes := [SLASH, 97, SLASH, 98]

  lemma PartsOfTheTwo()
    ensures Parts(QUESTION_IN_PART) == [[], [97, QUESTION, 98]] && |Parts(SLASH_FOR_QUESTION)| == 3
  {
    hide Parts;
    var p, s := QUESTION_IN_PART, SLASH_FOR_QUESTION;
    var tail: Bytes := [97, QUESTION, 98];
    assert p[..0] == [] && p[1..] == tail;
    PartsOf(p);
    PartsOf(tail);
    PartsOf([]);
    PartsOf([97]);
    PartsOf([98]);
    PartsOfJoin([], [97]);
    PartsOfJoin([SLASH, 97], [98]);
    assert s == [SLASH, 97] + [SLASH] + [98] && [SLASH, 97] == [] + [SLASH] + [97];
  }

  /** The pattern /a?b takes the path /a/b, which has a part more. */
  lemma QuestionTakesSlash()
    ensures var p, s := QUESTION_IN_PART, SLASH_FOR_QUESTION;
      && Plain(p) && PrefixFree(p, 0) && Matches(p, 0, s, false) && Matches(p, 0, s, true)
      && |Parts(p)| == 2 && |Parts(s)| == 3
  {
    hide Parts, IndexOf;
    var p, s := QUESTION_IN_PART, SLASH_FOR_QUESTION;
    PartsOfTheTwo();
    BraceFreeIsPrefixFree(p, 0);
    var tail: Bytes := [97, QUESTION, 98];
    assert Closed(tail, 2);
    assert Closed(tail, 0);
    forall first ensures Matches(p, 0, s, first) {
      assert Matches(p, 3, s[1..][1..][1..], first);
      assert Matches(p, 2, s[1..][1..], first);
      assert Matches(p, 1, s[1..], first);
    }
  }
}
