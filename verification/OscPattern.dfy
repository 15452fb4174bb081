/** oscpkt.hh: matching a path against an OSC address pattern. */
module OscPattern {
  import opened Basics
  import opened OscMessage

  const QUESTION: byte := 63
  const STAR: byte := 42
  const OPEN_SET: byte := 91
  const CLOSE_SET: byte := 93
  const BANG: byte := 33
  const DASH: byte := 45
  const OPEN_LIST: byte := 123
  const CLOSE_LIST: byte := 125

  // ----- the elements of a pattern

  datatype Range = Range(lo: byte, hi: byte)

  /** `AnyPrefix` is the super-wildcard '//': it stands for any prefix of the path and leaves one
      '/' to be matched. `Broken` is an unclosed bracket or brace. */
  datatype Tok =
    | AnyChar
    | OneOf(negate: bool, ranges: seq<Range>)
    | AnyRun
    | AnyPrefix
    | List(choices: seq<Bytes>)
    | Literal(c: byte)
    | Broken

  /** Position after a run of c. */
  function AfterRun(p: Bytes, c: byte, from: nat): (r: nat)
    requires from <= |p|
    ensures from <= r <= |p|
    ensures r < |p| ==> p[r] != c
    ensures forall i :: from <= i < r ==> p[i] == c
    decreases |p| - from
  {
    if from < |p| && p[from] == c then AfterRun(p, c, from + 1) else from
  }

  /** The ranges of a bracket from position k up to its ']' or the end. */
  function Ranges(p: Bytes, k: nat): (r: (seq<Range>, nat))
    requires k <= |p|
    ensures k <= r.1 <= |p| && (r.1 < |p| ==> p[r.1] == CLOSE_SET)
    decreases |p| - k
  {
    if k == |p| || p[k] == CLOSE_SET then ([], k)
    else
      var wide := k + 2 < |p| && p[k + 1] == DASH && p[k + 2] != CLOSE_SET;
      var rest := Ranges(p, if wide then k + 3 else k + 1);
      ([Range(p[k], if wide then p[k + 2] else p[k])] + rest.0, rest.1)
  }

  /** The comma-separated choices between position k and the closing brace at end. */
  function Choices(p: Bytes, k: nat, end: nat): (r: seq<Bytes>)
    requires k <= end <= |p|
    ensures 0 < |r|
    decreases end - k
  {
    var q := IndexOf(p, COMMA, k);
    if q >= end then [p[k..end]] else [p[k..q]] + Choices(p, q + 1, end)
  }

  /** The first element of the pattern from position i and where the next one starts. */
  function Next(p: Bytes, i: nat): (r: (Tok, nat))
    requires i < |p|
    ensures i < r.1 <= |p|
  {
    if p[i] == QUESTION then (AnyChar, i + 1)
    else if p[i] == OPEN_SET then
      var negate := i + 1 < |p| && p[i + 1] == BANG;
      var ranges := Ranges(p, if negate then i + 2 else i + 1);
      if ranges.1 == |p| then (Broken, |p|) else (OneOf(negate, ranges.0), ranges.1 + 1)
    else if p[i] == STAR then (AnyRun, AfterRun(p, STAR, i))
    else if p[i] == SLASH && i + 1 < |p| && p[i + 1] == SLASH then (AnyPrefix, AfterRun(p, SLASH, i) - 1)
    else if p[i] == OPEN_LIST then
      var end := IndexOf(p, CLOSE_LIST, i);
      if end == |p| then (Broken, |p|) else (List(Choices(p, i + 1, end)), end + 1)
    else (Literal(p[i]), i + 1)
  }

  predicate InRanges(ranges: seq<Range>, c: byte) {
    exists i :: 0 <= i < |ranges| && ranges[i].lo <= c <= ranges[i].hi
  }

  // ----- the language

  /** Choice n of a list applies to the path: it is a prefix and, when `first` is asked for, no
      earlier choice is. */
  ghost predicate Applies(choices: seq<Bytes>, n: nat, s: Bytes, first: bool) {
    n < |choices| && choices[n] <= s && (first ==> forall m :: 0 <= m < n ==> !(choices[m] <= s))
  }

  /** The paths of a pattern from position i, the path read as one run of characters. With `first`
      false any applicable choice of a list will do; with `first` true a list commits to the first one. */
  ghost predicate Matches(p: Bytes, i: nat, s: Bytes, first: bool)
    requires i <= |p|
    decreases |p| - i
  {
    if i == |p| then s == []
    else
      var (tok, j) := Next(p, i);
      match tok
      case AnyChar => 0 < |s| && Matches(p, j, s[1..], first)
      case OneOf(negate, ranges) => 0 < |s| && InRanges(ranges, s[0]) != negate && Matches(p, j, s[1..], first)
      case AnyRun => exists k :: 0 <= k <= |s| && SLASH !in s[..k] && Matches(p, j, s[k..], first)
      case AnyPrefix => exists k :: 0 <= k <= |s| && Matches(p, j, s[k..], first)
      case List(choices) => exists n: nat :: Applies(choices, n, s, first) && Matches(p, j, s[|choices[n]|..], first)
      case Literal(c) => 0 < |s| && s[0] == c && Matches(p, j, s[1..], first)
      case Broken => false
  }

  /** No choice of a list in the pattern is a proper prefix of another one. */
  ghost predicate PrefixFree(p: Bytes, i: nat)
    requires i <= |p|
    decreases |p| - i
  {
    i < |p| ==>
      var (tok, j) := Next(p, i);
      (tok.List? ==> NoProperPrefix(tok.choices)) && PrefixFree(p, j)
  }

  predicate NoProperPrefix(choices: seq<Bytes>) {
    forall m, n :: 0 <= m < |choices| && 0 <= n < |choices| && choices[m] <= choices[n] ==> choices[m] == choices[n]
  }

  /** A pattern without '{' has no lists at all. */
  lemma {:induction false} BraceFreeIsPrefixFree(p: Bytes, i: nat)
    requires i <= |p| && OPEN_LIST !in p[i..]
    ensures PrefixFree(p, i)
    decreases |p| - i
  {
    if i < |p| {
      var j := Next(p, i).1;
      assert p[i] in p[i..] && p[j..] == p[i..][j - i..];
      BraceFreeIsPrefixFree(p, j);
    }
  }

  /** Committing to the first choice accepts no path that uncommitted lists would refuse. */
  lemma {:induction false} FirstChoiceIsSound(p: Bytes, i: nat, s: Bytes)
    requires i <= |p| && Matches(p, i, s, true)
    ensures Matches(p, i, s, false)
    decreases |p| - i
  {
    if i < |p| {
      var (tok, j) := Next(p, i);
      match tok
      case AnyChar => FirstChoiceIsSound(p, j, s[1..]);
      case OneOf(_, _) => FirstChoiceIsSound(p, j, s[1..]);
      case Literal(_) => FirstChoiceIsSound(p, j, s[1..]);
      case AnyRun =>
        var k :| 0 <= k <= |s| && SLASH !in s[..k] && Matches(p, j, s[k..], true);
        FirstChoiceIsSound(p, j, s[k..]);
      case AnyPrefix =>
        var k :| 0 <= k <= |s| && Matches(p, j, s[k..], true);
        FirstChoiceIsSound(p, j, s[k..]);
      case List(choices) =>
        var n: nat :| Applies(choices, n, s, true) && Matches(p, j, s[|choices[n]|..], true);
        FirstChoiceIsSound(p, j, s[|choices[n]|..]);
        assert Applies(choices, n, s, false);
      case Broken =>
    }
  }

  /** On prefix-free patterns, brace-free ones among them, it accepts every path they would accept. */
  lemma {:induction false} FirstChoiceIsComplete(p: Bytes, i: nat, s: Bytes)
    requires i <= |p| && Matches(p, i, s, false) && PrefixFree(p, i)
    ensures Matches(p, i, s, true)
    decreases |p| - i
  {
    if i < |p| {
      var (tok, j) := Next(p, i);
      match tok
      case AnyChar => FirstChoiceIsComplete(p, j, s[1..]);
      case OneOf(_, _) => FirstChoiceIsComplete(p, j, s[1..]);
      case Literal(_) => FirstChoiceIsComplete(p, j, s[1..]);
      case AnyRun =>
        var k :| 0 <= k <= |s| && SLASH !in s[..k] && Matches(p, j, s[k..], false);
        FirstChoiceIsComplete(p, j, s[k..]);
      case AnyPrefix =>
        var k :| 0 <= k <= |s| && Matches(p, j, s[k..], false);
        FirstChoiceIsComplete(p, j, s[k..]);
      case List(choices) =>
        var n: nat :| Applies(choices, n, s, false) && Matches(p, j, s[|choices[n]|..], false);
        var m := FirstApplicable(choices, n, s);
        PrefixesCompare(choices[m], choices[n], s);
        FirstChoiceIsComplete(p, j, s[|choices[n]|..]);
      case Broken =>
    }
  }

  lemma FirstApplicable(choices: seq<Bytes>, n: nat, s: Bytes) returns (m: nat)
    requires n < |choices| && choices[n] <= s
    ensures m <= n && Applies(choices, m, s, true)
    decreases n
  {
    if k :| 0 <= k < n && choices[k] <= s {
      m := FirstApplicable(choices, k, s);
    } else {
      m := n;
    }
  }

  lemma PrefixesCompare(a: Bytes, b: Bytes, s: Bytes)
    requires a <= s && b <= s
    ensures a <= b || b <= a
  {
    assert a == s[..|a|] && b == s[..|b|];
    if |a| <= |b| { assert a == b[..|a|]; } else { assert b == a[..|b|]; }
  }

  /** Without prefix-freedom it can miss a path: {a,ab}c against abc. */
  lemma FirstChoiceCanMiss()
    ensures var p: Bytes, s: Bytes := [OPEN_LIST, 97, COMMA, 97, 98, CLOSE_LIST, 99], [97, 98, 99];
      Matches(p, 0, s, false) && !Matches(p, 0, s, true)
  {
    var p: Bytes, s: Bytes := [OPEN_LIST, 97, COMMA, 97, 98, CLOSE_LIST, 99], [97, 98, 99];
    assert p[5] == CLOSE_LIST && p[2] == COMMA;
    assert IndexOf(p, CLOSE_LIST, 0) == 5;
    assert IndexOf(p, COMMA, 1) == 2;
    assert IndexOf(p, COMMA, 3) == 7;
    assert p[1..2] == [97] && p[3..5] == [97, 98];
    assert Choices(p, 3, 5) == [[97, 98]];
    assert Choices(p, 1, 5) == [[97], [97, 98]];
    assert Next(p, 0) == (List([[97], [97, 98]]), 6);
    assert Next(p, 6) == (Literal(99), 7);
    assert Matches(p, 6, s[2..], false);
    var choices: seq<Bytes> := [[97], [97, 98]];
    assert choices[0] <= s && Applies(choices, 1, s, false);
    assert !Matches(p, 6, s[1..], true);
    assert forall n: nat :: Applies(choices, n, s, true) ==> n == 0;
  }

  // ----- exactly when a list loses nothing

  /** One list and nothing else: its first '}' is its last character. */
  predicate IsList(l: Bytes) {
    2 <= |l| && l[0] == OPEN_LIST && IndexOf(l, CLOSE_LIST, 0) == |l| - 1
  }

  function ChoicesOf(l: Bytes): seq<Bytes>
    requires IsList(l)
  {
    Choices(l, 1, |l| - 1)
  }

  lemma FirstInFront(l: Bytes, c: Bytes, b: byte, from: nat, end: nat)
    requires from <= end <= |l|
    ensures IndexOf(l, b, from) < end ==> IndexOf(l + c, b, from) == IndexOf(l, b, from)
    ensures IndexOf(l, b, from) >= end ==> IndexOf(l + c, b, from) >= end
  {
    var p, q := IndexOf(l, b, from), IndexOf(l + c, b, from);
    if p < end { assert (l + c)[p] == b; }
    if q < end { assert l[q] == b; }
  }

  lemma {:induction false} ChoicesInFront(l: Bytes, c: Bytes, k: nat, end: nat)
    requires k <= end <= |l|
    ensures Choices(l + c, k, end) == Choices(l, k, end)
    decreases end - k
  {
    FirstInFront(l, c, COMMA, k, end);
    var q := IndexOf(l, COMMA, k);
    if q < end {
      assert (l + c)[k..q] == l[k..q];
      ChoicesInFront(l, c, q + 1, end);
    } else {
      assert (l + c)[k..end] == l[k..end];
    }
  }

  lemma ListInFront(l: Bytes, c: Bytes)
    requires IsList(l)
    ensures Next(l + c, 0) == (List(ChoicesOf(l)), |l|)
  {
    FirstInFront(l, c, CLOSE_LIST, 0, |l|);
    ChoicesInFront(l, c, 1, |l| - 1);
  }

  lemma {:induction false} ChoicesAreParts(l: Bytes, k: nat, end: nat, n: nat)
    requires k <= end <= |l| && n < |Choices(l, k, end)|
    ensures forall b <- Choices(l, k, end)[n] :: b in l
    decreases end - k
  {
    var q := IndexOf(l, COMMA, k);
    if q < end && n > 0 { ChoicesAreParts(l, q + 1, end, n - 1); }
  }

  function Questions(d: nat): (r: Bytes)
    ensures |r| == d && forall i :: 0 <= i < d ==> r[i] == QUESTION
  {
    seq(d, _ => QUESTION)
  }

  lemma {:induction false} QuestionsMatch(p: Bytes, i: nat, s: Bytes, first: bool)
    requires i <= |p| && forall k :: i <= k < |p| ==> p[k] == QUESTION
    ensures Matches(p, i, s, first) <==> |s| == |p| - i
    decreases |p| - i
  {
    if i < |p| && 0 < |s| {
      QuestionsMatch(p, i + 1, s[1..], first);
    }
  }

  /** What a list followed by d times '?' matches. */
  lemma ListAndQuestions(l: Bytes, d: nat, s: Bytes, first: bool)
    requires IsList(l)
    ensures Matches(l + Questions(d), 0, s, first) <==>
      exists n: nat :: Applies(ChoicesOf(l), n, s, first) && |s| == |ChoicesOf(l)[n]| + d
  {
    hide Applies;
    var p := l + Questions(d);
    ListInFront(l, Questions(d));
    forall n: nat | n < |ChoicesOf(l)| && |ChoicesOf(l)[n]| <= |s|
      ensures Matches(p, |l|, s[|ChoicesOf(l)[n]|..], first) <==> |s| == |ChoicesOf(l)[n]| + d
    {
      QuestionsMatch(p, |l|, s[|ChoicesOf(l)[n]|..], first);
    }
    MatchesList(p, s, first);
    forall n: nat | Applies(ChoicesOf(l), n, s, first) ensures n < |ChoicesOf(l)| && |ChoicesOf(l)[n]| <= |s| {
      AppliesIsPrefix(ChoicesOf(l), n, s, first);
    }
  }

  lemma AppliesIsPrefix(choices: seq<Bytes>, n: nat, s: Bytes, first: bool)
    requires Applies(choices, n, s, first)
    ensures n < |choices| && choices[n] <= s
  {
  }

  lemma MatchesList(p: Bytes, s: Bytes, first: bool)
    requires 0 < |p| && Next(p, 0).0.List?
    ensures var (tok, j) := Next(p, 0);
      Matches(p, 0, s, first) <==>
        exists n: nat :: Applies(tok.choices, n, s, first) && Matches(p, j, s[|tok.choices[n]|..], first)
  {
  }

  /** A proper prefix loses its longer choice, at the end of the pattern or in front of '?'s. */
  lemma ProperPrefixLoses(l: Bytes, m: nat, n: nat) returns (d: nat)
    requires IsList(l) && m < |ChoicesOf(l)| && n < |ChoicesOf(l)|
    requires ChoicesOf(l)[m] <= ChoicesOf(l)[n] && ChoicesOf(l)[m] != ChoicesOf(l)[n]
    ensures Matches(l + Questions(d), 0, ChoicesOf(l)[n], false) && !Matches(l + Questions(d), 0, ChoicesOf(l)[n], true)
  {
    var choices := ChoicesOf(l);
    var s := choices[n];
    var j := FirstApplicable(choices, n, s);
    assert Applies(choices, n, s, false) && Applies(choices, m, s, false);
    d := if choices[j] == s then |s| - |choices[m]| else 0;
    ListAndQuestions(l, d, s, false);
    ListAndQuestions(l, d, s, true);
    OnlyOneFirst(choices, j, s);
  }

  lemma OnlyOneFirst(choices: seq<Bytes>, j: nat, s: Bytes)
    requires Applies(choices, j, s, true)
    ensures forall n: nat :: Applies(choices, n, s, true) ==> n == j
  {
  }

  /** In front of every brace-free rest of a pattern committing loses no path if and only if no choice
      of the list is a proper prefix of another. */
  lemma ListLosesNothing(l: Bytes)
    requires IsList(l) && 0 !in l
    ensures (forall c: Bytes, s: Bytes :: 0 !in c && OPEN_LIST !in c && 0 !in s && Matches(l + c, 0, s, false) ==>
      Matches(l + c, 0, s, true))
      <==> NoProperPrefix(ChoicesOf(l))
  {
    hide Matches;
    if NoProperPrefix(ChoicesOf(l)) {
      forall c: Bytes, s: Bytes | OPEN_LIST !in c && Matches(l + c, 0, s, false) ensures Matches(l + c, 0, s, true) {
        ListInFront(l, c);
        assert (l + c)[|l|..] == c;
        BraceFreeIsPrefixFree(l + c, |l|);
        FirstChoiceIsComplete(l + c, 0, s);
      }
    } else {
      var m, n :| 0 <= m < |ChoicesOf(l)| && 0 <= n < |ChoicesOf(l)| && ChoicesOf(l)[m] <= ChoicesOf(l)[n]
        && ChoicesOf(l)[m] != ChoicesOf(l)[n];
      var d := ProperPrefixLoses(l, m, n);
      ChoicesAreParts(l, 1, |l| - 1, n);
      assert 0 !in Questions(d) && OPEN_LIST !in Questions(d);
    }
  }

  /** The pattern {ab,a}. */
  const LONGER_FIRST: Bytes := [OPEN_LIST, 97, 98, COMMA, 97, CLOSE_LIST]

  lemma LongerFirstChoices()
    ensures IsList(LONGER_FIRST) && ChoicesOf(LONGER_FIRST) == [[97, 98], [97]]
  {
    var l := LONGER_FIRST;
    assert l[5] == CLOSE_LIST && l[3] == COMMA;
    assert IndexOf(l, CLOSE_LIST, 0) == 5;
    assert IndexOf(l, COMMA, 1) == 3;
    assert IndexOf(l, COMMA, 4) == 6;
    assert l[1..3] == [97, 98] && l[4..5] == [97];
    assert Choices(l, 4, 5) == [[97]];
  }

  /** The other order can lose too: {ab,a}? misses ab, although {ab,a} alone loses nothing. */
  lemma LongerFirstCanMiss()
    ensures var l := LONGER_FIRST;
      && Matches(l + [QUESTION], 0, [97, 98], false) && !Matches(l + [QUESTION], 0, [97, 98], true)
      && !PrefixFree(l, 0) && forall s :: Matches(l, 0, s, false) ==> Matches(l, 0, s, true)
  {
    hide Choices, Matches, IndexOf;
    var l, s: Bytes := LONGER_FIRST, [97, 98];
    LongerFirstChoices();
    var choices := ChoicesOf(l);
    assert choices[1] <= s && choices[0] <= s && choices[0] != choices[1];
    assert Applies(choices, 1, s, false) && Applies(choices, 0, s, true);
    OnlyOneFirst(choices, 0, s);
    ListAndQuestions(l, 1, s, false);
    ListAndQuestions(l, 1, s, true);
    assert Questions(1) == [QUESTION] && l + Questions(0) == l;
    ListInFront(l, []);
    assert l + [] == l;
    assert choices[1] <= choices[0] && !NoProperPrefix(choices);
    forall t | Matches(l, 0, t, false) ensures Matches(l, 0, t, true) {
      ListAndQuestions(l, 0, t, false);
      ListAndQuestions(l, 0, t, true);
      var n: nat :| Applies(choices, n, t, false) && |t| == |choices[n]|;
      assert t == choices[n] && (n == 0 || n == 1);
      assert Applies(choices, n, t, true);
    }
  }

  // ----- the matcher

  /** The bracket case: scans the ranges up to ']' or the end of the pattern. */
  method MatchSet(p: Bytes, open: nat, c: byte) returns (match': bool, k: nat)
    requires open < |p| && p[open] == OPEN_SET
    ensures open < k <= |p| && (k < |p| ==> p[k] == CLOSE_SET)
    ensures var (tok, j) := Next(p, open);
      && (k == |p| <==> tok.Broken?)
      && (k < |p| ==> j == k + 1 && match' == (InRanges(tok.ranges, c) != tok.negate))
  {
    hide InRanges;
    k := open + 1;
    var reverse := false;
    if k < |p| && p[k] == BANG {
      reverse := true;
      k := k + 1;
    }
    match' := reverse;
    ghost var all, done: seq<Range> := Ranges(p, k).0, [];
    NoRanges(all, c);
    while k < |p| && p[k] != CLOSE_SET
      invariant open < k <= |p|
      invariant all == done + Ranges(p, k).0 && Ranges(p, k).1 == Ranges(p, if reverse then open + 2 else open + 1).1
      invariant match' == (InRanges(done, c) != reverse)
      decreases |p| - k
    {
      ghost var step := Ranges(p, k).0;
      var c0 := p[k];
      var c1 := c0;
      if k + 2 < |p| && p[k + 1] == DASH && p[k + 2] != CLOSE_SET {
        k := k + 2;
        c1 := p[k];
      }
      if c >= c0 && c <= c1 { match' := !reverse; }
      k := k + 1;
      MoreRanges(done, Range(c0, c1), Ranges(p, k).0, c);
      done := done + [Range(c0, c1)];
    }
    assert done + [] == done;
  }

  lemma NoRanges(all: seq<Range>, c: byte)
    ensures !InRanges([], c) && [] + all == all
  {
  }

  lemma MoreRanges(done: seq<Range>, r: Range, rest: seq<Range>, c: byte)
    ensures InRanges(done + [r], c) <==> InRanges(done, c) || r.lo <= c <= r.hi
    ensures done + ([r] + rest) == (done + [r]) + rest
  {
    var all := done + [r];
    if InRanges(done, c) {
      var i :| 0 <= i < |done| && done[i].lo <= c <= done[i].hi;
      assert all[i] == done[i];
    }
    if r.lo <= c <= r.hi { assert all[|done|] == r; }
  }

  /** The brace case: the first choice that is a prefix of the path, if there is one. */
  method MatchList(p: Bytes, open: nat, end: nat, s: Bytes) returns (n: int, length: nat)
    requires open < end < |p| && end == IndexOf(p, CLOSE_LIST, open) && p[open] == OPEN_LIST
    ensures var choices := Choices(p, open + 1, end);
      && (n == -1 ==> forall m :: 0 <= m < |choices| ==> !(choices[m] <= s))
      && (n != -1 ==> 0 <= n && Applies(choices, n, s, true) && length == |choices[n]|)
  {
    hide IndexOf;
    ghost var choices := Choices(p, open + 1, end);
    n, length := -1, 0;
    var k, m := open + 1, 0;
    while true
      invariant open < k <= end && 0 <= m < |choices| && choices[m..] == Choices(p, k, end)
      invariant forall l :: 0 <= l < m ==> !(choices[l] <= s)
      decreases end - k
    {
      var q := IndexOf(p, COMMA, k);
      if q > end { q := end; }
      assert choices[m] == choices[m..][0];
      ChoiceAt(p, k, end);
      if p[k..q] <= s { return m, q - k; }
      if q == end {
        assert |choices[m..]| == 1;
        return;
      }
      assert choices[m + 1..] == choices[m..][1..];
      k := q + 1;
      m := m + 1;
    }
  }

  lemma ChoiceAt(p: Bytes, k: nat, end: nat)
    requires k <= end <= |p|
    ensures var q := if IndexOf(p, COMMA, k) > end then end else IndexOf(p, COMMA, k);
      && Choices(p, k, end)[0] == p[k..q]
      && (q == end ==> |Choices(p, k, end)| == 1)
      && (q < end ==> Choices(p, k, end)[1..] == Choices(p, q + 1, end) && 1 < |Choices(p, k, end)|)
  {
  }

  /** Some suffix of the path from j + from up to j + to (exclusive) is matched from element i on. */
  ghost predicate MatchesWithin(p: Bytes, i: nat, path: Bytes, j: nat, to: nat)
    requires i <= |p| && j <= to <= |path| + 1
  {
    exists k :: j <= k < to && Matches(p, i, path[k..], true)
  }

  /** The furthest pattern position reached; -1 is the null pointer. The end of the pattern is
      reached exactly when the rest of the path matches the rest of the pattern. */
  method InternalPatternMatch(p: Bytes, start: nat, path: Bytes, from: nat) returns (ret: int)
    requires start <= |p| && from <= |path|
    ensures -1 <= ret <= |p| && (ret == |p| <==> Matches(p, start, path[from..], true))
    decreases |p| - start, 1
  {
    hide InRanges, Next, Matches;
    var i, j := start, from;
    while i < |p|
      invariant start <= i <= |p| && from <= j <= |path|
      invariant Matches(p, start, path[from..], true) <==> Matches(p, i, path[j..], true)
      decreases |p| - i
    {
      MatchStep(p, i, path, j);
      if p[i] == QUESTION && j < |path| {
        i, j := i + 1, j + 1;
      } else if p[i] == OPEN_SET && j < |path| {
        var matched, k := MatchSet(p, i, path[j]);
        if !matched || k == |p| { return i; }
        i, j := k + 1, j + 1;
      } else if p[i] == STAR {
        ret := MatchRun(p, i, path, j);
        return;
      } else if p[i] == SLASH && i + 1 < |p| && p[i + 1] == SLASH {
        ret := MatchPrefix(p, i, path, j);
        return;
      } else if p[i] == OPEN_LIST {
        var end := IndexOf(p, CLOSE_LIST, i);
        if end == |p| { return -1; }
        var n, length := MatchList(p, i, end, path[j..]);
        ListStep(p, i, path, j, end, n);
        if n == -1 { return i; }
        i, j := end + 1, j + length;
      } else if j < |path| && p[i] == path[j] {
        i, j := i + 1, j + 1;
      } else {
        break;
      }
    }
    AtPatternEnd(p, i, path, j);
    return if j == |path| then i else -1;
  }

  /** The '*' case: tries every run without '/'. */
  method MatchRun(p: Bytes, i: nat, path: Bytes, j: nat) returns (best: int)
    requires i < |p| && p[i] == STAR && j <= |path|
    ensures -1 <= best <= |p| && (best == |p| <==> Matches(p, i, path[j..], true))
    decreases |p| - i, 0
  {
    hide Matches, AfterRun;
    var q := AfterRun(p, STAR, i);
    RunStep(p, i, path, j);
    best := -1;
    var k := j;
    while true
      invariant j <= k <= |path| && SLASH !in path[j..k]
      invariant -1 <= best <= |p| && (best == |p| <==> MatchesWithin(p, q, path, j, k))
      decreases |path| - k
    {
      var ret := InternalPatternMatch(p, q, path, k);
      OneMore(p, q, path, j, k, k + 1);
      if ret != -1 && ret > best { best := ret; }
      if k == |path| || path[k] == SLASH { break; }
      assert path[j..k + 1] == path[j..k] + [path[k]];
      k := k + 1;
    }
    RunEnds(p, i, q, path, j, k);
  }

  /** The '//' case: tries the path here and at every later '/'. */
  method MatchPrefix(p: Bytes, i: nat, path: Bytes, j: nat) returns (best: int)
    requires i + 1 < |p| && p[i] == SLASH && p[i + 1] == SLASH && j <= |path|
    ensures -1 <= best <= |p| && (best == |p| <==> Matches(p, i, path[j..], true))
    decreases |p| - i, 0
  {
    hide Matches, AfterRun;
    var q := AfterRun(p, SLASH, i) - 1;
    PrefixStep(p, i, path, j);
    best := -1;
    var k := j;
    while true
      invariant j <= k <= |path|
      invariant -1 <= best <= |p| && (best == |p| <==> MatchesWithin(p, q, path, j, k))
      decreases |path| - k
    {
      var ret := InternalPatternMatch(p, q, path, k);
      OneMore(p, q, path, j, k, k + 1);
      if ret != -1 && ret > best { best := ret; }
      if k == |path| { break; }
      var next := IndexOf(path, SLASH, k + 1);
      NoSlashNoMatch(p, q, path, j, k + 1, if next == |path| then |path| + 1 else next);
      if next == |path| { break; }
      k := next;
    }
  }

  lemma OneMore(p: Bytes, q: nat, path: Bytes, j: nat, k: nat, next: nat)
    requires q <= |p| && j <= k <= |path| && next == k + 1
    ensures MatchesWithin(p, q, path, j, next) <==> MatchesWithin(p, q, path, j, k) || Matches(p, q, path[k..], true)
  {
    hide Matches;
    if Matches(p, q, path[k..], true) { assert MatchesWithin(p, q, path, j, next); }
    if MatchesWithin(p, q, path, j, next) {
      var l :| j <= l < next && Matches(p, q, path[l..], true);
      if l < k { assert MatchesWithin(p, q, path, j, k); }
    }
    if MatchesWithin(p, q, path, j, k) {
      var l :| j <= l < k && Matches(p, q, path[l..], true);
      assert MatchesWithin(p, q, path, j, next);
    }
  }

  /** What one element other than a list asks of the path. */
  lemma MatchStep(p: Bytes, i: nat, path: Bytes, j: nat)
    requires i < |p| && j <= |path|
    ensures var (tok, next) := Next(p, i);
      var rest := path[j..];
      && (p[i] == QUESTION ==> (Matches(p, i, rest, true) <==> j < |path| && Matches(p, i + 1, path[j + 1..], true)))
      && (p[i] == OPEN_SET && tok.Broken? ==> !Matches(p, i, rest, true))
      && (p[i] == OPEN_SET && !tok.Broken? ==>
            tok.OneOf?
            && (Matches(p, i, rest, true) <==>
              j < |path| && InRanges(tok.ranges, path[j]) != tok.negate && Matches(p, next, path[j + 1..], true)))
      && (p[i] == OPEN_LIST && IndexOf(p, CLOSE_LIST, i) == |p| ==> !Matches(p, i, rest, true))
      && (p[i] !in {QUESTION, OPEN_SET, STAR, OPEN_LIST} && !(p[i] == SLASH && i + 1 < |p| && p[i + 1] == SLASH) ==>
            (Matches(p, i, rest, true) <==> j < |path| && p[i] == path[j] && Matches(p, i + 1, path[j + 1..], true)))
  {
    hide InRanges, Ranges, Choices, AfterRun, IndexOf;
    if j < |path| { assert path[j..][1..] == path[j + 1..]; }
  }

  lemma ListStep(p: Bytes, i: nat, path: Bytes, j: nat, end: nat, n: int)
    requires i < |p| && p[i] == OPEN_LIST && j <= |path| && end == IndexOf(p, CLOSE_LIST, i) < |p| && i < end
    requires var choices := Choices(p, i + 1, end);
      && (n == -1 ==> forall m :: 0 <= m < |choices| ==> !(choices[m] <= path[j..]))
      && (n != -1 ==> 0 <= n && Applies(choices, n, path[j..], true))
    ensures n == -1 ==> !Matches(p, i, path[j..], true)
    ensures n != -1 ==>
      var length := |Choices(p, i + 1, end)[n]|;
      j + length <= |path| && (Matches(p, i, path[j..], true) <==> Matches(p, end + 1, path[j + length..], true))
  {
    hide IndexOf, Choices;
    var choices, s := Choices(p, i + 1, end), path[j..];
    assert Next(p, i) == (List(choices), end + 1);
    if n != -1 {
      assert s[|choices[n]|..] == path[j + |choices[n]|..];
      assert forall m: nat :: Applies(choices, m, s, true) ==> m == n;
    }
  }

  lemma RunStep(p: Bytes, i: nat, path: Bytes, j: nat)
    requires i < |p| && p[i] == STAR && j <= |path|
    ensures i < AfterRun(p, STAR, i) <= |p|
    ensures Matches(p, i, path[j..], true) <==>
      exists k :: 0 <= k <= |path| - j && SLASH !in path[j..][..k]
        && Matches(p, AfterRun(p, STAR, i), path[j..][k..], true)
  {
    hide AfterRun;
    assert Next(p, i) == (AnyRun, AfterRun(p, STAR, i));
  }

  /** Once the run cannot grow, the tries made are all there are. */
  lemma RunEnds(p: Bytes, i: nat, q: nat, path: Bytes, j: nat, k: nat)
    requires i < |p| && p[i] == STAR && q == AfterRun(p, STAR, i) && j <= k <= |path|
    requires SLASH !in path[j..k] && (k == |path| || path[k] == SLASH)
    ensures Matches(p, i, path[j..], true) <==> MatchesWithin(p, q, path, j, k + 1)
  {
    hide Matches, AfterRun;
    RunStep(p, i, path, j);
    var s := path[j..];
    forall l | 0 <= l <= |s|
      ensures s[l..] == path[j + l..]
      ensures SLASH !in s[..l] <==> l <= k - j
    {
      assert s[..l] == path[j..j + l];
      if l > k - j {
        assert s[..l][k - j] == path[k] == SLASH;
      } else {
        assert path[j..j + l] == path[j..k][..l];
      }
    }
    if MatchesWithin(p, q, path, j, k + 1) {
      var l :| j <= l < k + 1 && Matches(p, q, path[l..], true);
      assert s[l - j..] == path[l..];
    }
    if Matches(p, i, s, true) {
      var l :| 0 <= l <= |s| && SLASH !in s[..l] && Matches(p, q, s[l..], true);
      assert s[l..] == path[j + l..];
    }
  }

  lemma PrefixStep(p: Bytes, i: nat, path: Bytes, j: nat)
    requires i + 1 < |p| && p[i] == SLASH && p[i + 1] == SLASH && j <= |path|
    ensures var q := AfterRun(p, SLASH, i) - 1;
      && i < q < |p| && p[q] == SLASH && (q + 1 < |p| ==> p[q + 1] != SLASH)
      && (Matches(p, i, path[j..], true) <==> MatchesWithin(p, q, path, j, |path| + 1))
  {
    assert AfterRun(p, SLASH, i) == AfterRun(p, SLASH, i + 1) == AfterRun(p, SLASH, i + 2);
    var q, s := AfterRun(p, SLASH, i) - 1, path[j..];
    assert Next(p, i) == (AnyPrefix, q);
    if Matches(p, i, s, true) {
      var k :| 0 <= k <= |s| && Matches(p, q, s[k..], true);
      assert s[k..] == path[j + k..];
    }
    if MatchesWithin(p, q, path, j, |path| + 1) {
      var l :| j <= l < |path| + 1 && Matches(p, q, path[l..], true);
      assert s[l - j..] == path[l..];
    }
  }

  /** After '//' only positions at a '/' can match, so jumping from '/' to '/' misses nothing. */
  lemma NoSlashNoMatch(p: Bytes, q: nat, path: Bytes, j: nat, k: nat, to: nat)
    requires q < |p| && p[q] == SLASH && (q + 1 < |p| ==> p[q + 1] != SLASH)
    requires j <= k <= to <= |path| + 1 && forall l :: k <= l < to && l < |path| ==> path[l] != SLASH
    ensures MatchesWithin(p, q, path, j, to) <==> MatchesWithin(p, q, path, j, k)
  {
    assert Next(p, q) == (Literal(SLASH), q + 1);
    forall l | k <= l < to
      ensures !Matches(p, q, path[l..], true)
    {
      if l < |path| { assert path[l..][0] == path[l]; }
    }
    if MatchesWithin(p, q, path, j, to) {
      var l :| j <= l < to && Matches(p, q, path[l..], true);
      assert l < k;
    }
  }

  lemma AtPatternEnd(p: Bytes, i: nat, path: Bytes, j: nat)
    requires i <= |p| && j <= |path|
    ensures i == |p| ==> (Matches(p, i, path[j..], true) <==> j == |path|)
  {
  }

  /** fullPatternMatch: exact for lists that commit to their first applicable choice, hence never more
      than uncommitted lists accept, and all of it on prefix-free patterns. */
  method FullPatternMatch(pattern: Bytes, path: Bytes) returns (matched: bool)
    requires 0 !in pattern && 0 !in path
    ensures matched <==> Matches(pattern, 0, path, true)
    ensures matched ==> Matches(pattern, 0, path, false)
    ensures PrefixFree(pattern, 0) ==> (matched <==> Matches(pattern, 0, path, false))
  {
    var q := InternalPatternMatch(pattern, 0, path, 0);
    assert path[0..] == path;
    matched := q != -1 && q == |pattern|;
    if matched {
      FirstChoiceIsSound(pattern, 0, path);
    } else if PrefixFree(pattern, 0) && Matches(pattern, 0, path, false) {
      FirstChoiceIsComplete(pattern, 0, path);
    }
  }
}
