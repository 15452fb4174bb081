/** What running optparse_long to -1 leaves behind. */
module OptparseLaws {
  import opened Basics
  import opened Optparse

  ghost predicate AllOther(xs: seq<string>) {
    forall i :: 0 <= i < |xs| ==> IsOther(xs[i])
  }

  /** Leading non-options change nothing but the list of others. */
  lemma {:induction false} SkipOthers(longopts: seq<LongOpt>, xs: seq<string>, tail: seq<string>, subopt: nat)
    requires AllOther(xs)
    ensures InCluster(xs + tail, subopt) <==> InCluster(tail, subopt)
    ensures InCluster(tail, subopt) ==> (Clean(longopts, xs + tail, subopt) <==> Clean(longopts, tail, subopt))
    ensures InCluster(tail, subopt) && Clean(longopts, tail, subopt) ==>
      var r := Parse(longopts, tail, subopt);
      Parse(longopts, xs + tail, subopt) == Parsed(r.events, r.options, xs + r.others)
    decreases |xs|
  {
    hide Take;
    if |xs| == 0 {
      assert xs + tail == tail;
      if InCluster(tail, subopt) && Clean(longopts, tail, subopt) {
        assert [] + Parse(longopts, tail, subopt).others == Parse(longopts, tail, subopt).others;
      }
    } else {
      assert (xs + tail)[1..] == xs[1..] + tail;
      SkipOthers(longopts, xs[1..], tail, subopt);
      if InCluster(tail, subopt) && Clean(longopts, tail, subopt) {
      }
    }
  }

  /** The parse of a command line that starts with an option. */
  lemma ParseStep(longopts: seq<LongOpt>, rest: seq<string>, subopt: nat)
    requires InCluster(rest, subopt) && Clean(longopts, rest, subopt) && |rest| > 0 && !IsOther(rest[0])
      && !IsDashDash(rest[0])
    ensures IsShortOpt(rest[0]) ==> subopt + 1 < |rest[0]|
    ensures Take(longopts, rest[0], Following(rest), subopt).consumed <= |rest|
    ensures var taken := Take(longopts, rest[0], Following(rest), subopt);
      var left := rest[taken.consumed..];
      && InCluster(left, taken.subopt) && Clean(longopts, left, taken.subopt)
      && (taken.consumed > 0 ==> taken.subopt == 0)
      && var r := Parse(longopts, left, taken.subopt);
        Parse(longopts, rest, subopt) == Parsed([taken.event] + r.events, rest[..taken.consumed] + r.options, r.others)
  {
    hide Take;
  }

  /** What is left after a call, read from optind on. */
  function Left(rest: seq<string>, m: nat, n: nat): seq<string>
    requires m + n <= |rest|
  {
    rest[..m] + rest[m + n..]
  }

  /** The leading others of a command line and what follows them. */
  lemma Split(longopts: seq<LongOpt>, rest: seq<string>, subopt: nat)
    requires InCluster(rest, subopt) && Clean(longopts, rest, subopt)
    ensures var xs, tail := rest[..Leading(rest)], rest[Leading(rest)..];
      && rest == xs + tail && AllOther(xs) && (|tail| > 0 ==> tail[0] == rest[Leading(rest)] && !IsOther(tail[0]))
      && InCluster(tail, subopt) && Clean(longopts, tail, subopt)
      && var r := Parse(longopts, tail, subopt);
        Parse(longopts, rest, subopt) == Parsed(r.events, r.options, xs + r.others)
  {
    hide Parse, Clean, InCluster, IsOther;
    var m := Leading(rest);
    assert rest == rest[..m] + rest[m..];
    SkipOthers(longopts, rest[..m], rest[m..], subopt);
  }

  /** One call consumes the next event of the parse and leaves the parse of what remains. */
  lemma CallIsNextEvent(longopts: seq<LongOpt>, rest: seq<string>, subopt: nat)
    requires InCluster(rest, subopt) && Clean(longopts, rest, subopt)
    ensures var m, c, p := Leading(rest), Call(longopts, rest, subopt), Parse(longopts, rest, subopt);
      && (c.event.None? && c.consumed == 0 ==> p == Parsed([], [], rest))
      && (c.event.None? && c.consumed > 0 ==> c.consumed == 1 && p == Parsed([], rest[m..m + 1], Left(rest, m, 1)))
    ensures var m, c, p := Leading(rest), Call(longopts, rest, subopt), Parse(longopts, rest, subopt);
      c.event.Some? ==>
        var left := Left(rest, m, c.consumed);
        && InCluster(left, c.subopt) && Clean(longopts, left, c.subopt)
        && p == Consumed(c.event.value, rest[m..m + c.consumed], Parse(longopts, left, c.subopt))
  {
    hide Parse, Call, Left, Consumed;
    var m := Leading(rest);
    if m == |rest| {
      CallAtEnd(longopts, rest, subopt);
    } else if IsDashDash(rest[m]) {
      CallAtDashDash(longopts, rest, subopt);
    } else {
      CallTakes(longopts, rest, subopt);
      CallAtOption(longopts, rest, subopt, m, Take(longopts, rest[m], Following(rest[m..]), subopt));
    }
  }

  /** An event and the tokens it took, in front of the parse of the rest. */
  function Consumed(e: Event, taken: seq<string>, r: Parsed): Parsed {
    Parsed([e] + r.events, taken + r.options, r.others)
  }

  lemma CallAtEnd(longopts: seq<LongOpt>, rest: seq<string>, subopt: nat)
    requires InCluster(rest, subopt) && Clean(longopts, rest, subopt) && Leading(rest) == |rest|
    ensures Call(longopts, rest, subopt) == Called(None, 0, subopt)
      && Parse(longopts, rest, subopt) == Parsed([], [], rest)
  {
    hide Take, Clean, InCluster, Parse, IsOther, Leading;
    Split(longopts, rest, subopt);
    ParseNothing(longopts, rest[|rest|..], subopt);
    assert rest[..|rest|] + [] == rest;
  }

  lemma CallAtDashDash(longopts: seq<LongOpt>, rest: seq<string>, subopt: nat)
    requires InCluster(rest, subopt) && Clean(longopts, rest, subopt) && Leading(rest) < |rest|
      && IsDashDash(rest[Leading(rest)])
    ensures var m := Leading(rest);
      && Call(longopts, rest, subopt) == Called(None, 1, subopt)
      && Parse(longopts, rest, subopt) == Parsed([], rest[m..m + 1], Left(rest, m, 1))
  {
    hide Take, Clean, InCluster, Parse, IsOther, Leading, IsDashDash;
    var m := Leading(rest);
    Split(longopts, rest, subopt);
    ParseDashDash(longopts, rest[m..], subopt);
    OptionMoves(rest, m, 1);
  }

  lemma CallAtOption(longopts: seq<LongOpt>, rest: seq<string>, subopt: nat, m: nat, taken: Taken)
    requires InCluster(rest, subopt) && Clean(longopts, rest, subopt) && m == Leading(rest) < |rest|
      && !IsDashDash(rest[m])
    requires (IsShortOpt(rest[m]) || IsLongOpt(rest[m])) && (IsShortOpt(rest[m]) ==> subopt + 1 < |rest[m]|)
    requires taken == Take(longopts, rest[m], Following(rest[m..]), subopt)
    ensures m + taken.consumed <= |rest|
    ensures var left := Left(rest, m, taken.consumed);
      && InCluster(left, taken.subopt) && Clean(longopts, left, taken.subopt)
      && Parse(longopts, rest, subopt)
        == Consumed(taken.event, rest[m..m + taken.consumed], Parse(longopts, left, taken.subopt))
  {
    hide Take, Parse, IsOther, Leading, IsDashDash, IsShortOpt, IsLongOpt, Following, InCluster;
    Split(longopts, rest, subopt);
    var tail := rest[m..];
    assert tail[0] == rest[m] && !IsOther(tail[0]);
    ParseStep(longopts, tail, subopt);
    OptionMoves(rest, m, taken.consumed);
    assert tail[taken.consumed..] == rest[m + taken.consumed..];
    SkipOthers(longopts, rest[..m], rest[m + taken.consumed..], taken.subopt);
  }

  lemma CallTakes(longopts: seq<LongOpt>, rest: seq<string>, subopt: nat)
    requires InCluster(rest, subopt) && Leading(rest) < |rest| && !IsDashDash(rest[Leading(rest)])
    ensures IsShortOpt(rest[Leading(rest)]) || IsLongOpt(rest[Leading(rest)])
    ensures IsShortOpt(rest[Leading(rest)]) ==> subopt + 1 < |rest[Leading(rest)]|
    ensures var m := Leading(rest);
      var taken := Take(longopts, rest[m], Following(rest[m..]), subopt);
      Call(longopts, rest, subopt) == Called(Some(taken.event), taken.consumed, taken.subopt)
  {
    hide Take;
    ClusterAhead(rest, subopt);
  }

  lemma OptionMoves(rest: seq<string>, m: nat, n: nat)
    requires m + n <= |rest|
    ensures rest[m..][n..] == rest[m + n..] && rest[m..][..n] == rest[m..m + n]
  {
  }

  lemma ParseNothing(longopts: seq<LongOpt>, rest: seq<string>, subopt: nat)
    requires InCluster(rest, subopt) && Clean(longopts, rest, subopt) && rest == []
    ensures Parse(longopts, rest, subopt) == Parsed([], [], [])
  {
  }

  lemma ParseDashDash(longopts: seq<LongOpt>, rest: seq<string>, subopt: nat)
    requires InCluster(rest, subopt) && Clean(longopts, rest, subopt) && |rest| > 0 && IsDashDash(rest[0])
    ensures Parse(longopts, rest, subopt) == Parsed([], rest[..1], rest[1..])
  {
  }

  // ----- running to -1

  /** Letters left in the cluster at hand: falls when a call consumes no token. */
  ghost function LettersLeft(rest: seq<string>, subopt: nat): int {
    var m := Leading(rest);
    if m < |rest| then |rest[m]| - subopt else 0
  }

  /** Calls optparse_long until it returns -1. The events are those of reading the command line
      without moving anything; argv ends as the options and their arguments followed by the
      others, with optind at the boundary. */
  method Run(state: OptparseState, longopts: seq<LongOpt>) returns (events: seq<Event>)
    requires state.optind <= state.argv.Length && InCluster(state.Rest(), state.subopt)
      && Clean(longopts, state.Rest(), state.subopt)
    modifies state, state.argv
    ensures var p := old(Parse(longopts, state.Rest(), state.subopt));
      && events == p.events
      && state.argv[..old(state.optind)] == old(state.argv[..state.optind])
      && state.optind == old(state.optind) + |p.options| <= state.argv.Length
      && state.argv[old(state.optind)..] == p.options + p.others
  {
    hide Parse, Clean, InCluster, Call, Leading, MovedFront, LettersLeft, Left, Then, Consumed, Take, IsOther;
    ghost var start, p := state.optind, Parse(longopts, state.Rest(), state.subopt);
    events := [];
    assert state.argv[start..start] == [];
    ThenNothing(p);
    while true
      invariant start <= state.optind <= state.argv.Length
      invariant state.argv[..start] == old(state.argv[..state.optind])
      invariant InCluster(state.Rest(), state.subopt) && Clean(longopts, state.Rest(), state.subopt)
      invariant p == Then(events, state.argv[start..state.optind], Parse(longopts, state.Rest(), state.subopt))
      decreases state.argv.Length - state.optind, LettersLeft(state.Rest(), state.subopt)
    {
      ghost var rest, at, subopt, read := state.Rest(), state.optind, state.subopt, state.argv[start..state.optind];
      ghost var m, c := Leading(rest), Call(longopts, rest, subopt);
      CallIsNextEvent(longopts, rest, subopt);
      CallProgresses(longopts, rest, subopt);
      var r := state.OptparseLong(longopts);
      MovedParts(state.argv[..], start, at, rest, read, m, c.consumed);
      assert state.argv[..start] == state.argv[..at][..start];
      if r.None? {
        RunEnds(events, read, p, Parse(longopts, rest, subopt), rest, m, c.consumed, state.argv[..][start..]);
        assert state.argv[..][start..] == state.argv[start..];
        return;
      }
      ThenMore(events, read, c.event.value, rest[m..m + c.consumed],
        Parse(longopts, Left(rest, m, c.consumed), c.subopt));
      events := events + [Event(r.value, state.optopt, state.optarg)];
    }
  }

  /** The last call: at the end of argv it moves nothing, at "--" it moves that one token. */
  lemma RunEnds(events: seq<Event>, read: seq<string>, p: Parsed, last: Parsed, rest: seq<string>, m: nat, n: nat,
      after: seq<string>)
    requires m + n <= |rest| && p == Then(events, read, last) && after == read + MovedFront(rest, m, n)
    requires (n == 0 && last == Parsed([], [], rest))
      || (n == 1 && last == Parsed([], rest[m..m + 1], Left(rest, m, 1)))
    ensures events == p.events && after == p.options + p.others && |read| + n == |p.options|
  {
    hide MovedFront, Left, Then;
    MovedIsSplit(rest, m, n);
    ThenSplit(events, read, last);
  }

  lemma ThenSplit(events: seq<Event>, read: seq<string>, last: Parsed)
    ensures var p := Then(events, read, last);
      p.events == events + last.events && p.options + p.others == read + (last.options + last.others)
    ensures |Then(events, read, last).options| == |read| + |last.options|
    ensures events + [] == events && [] + last.others == last.others
  {
  }

  lemma MovedIsSplit(rest: seq<string>, m: nat, n: nat)
    requires m + n <= |rest|
    ensures MovedFront(rest, m, 0) == rest
    ensures MovedFront(rest, m, n) == rest[m..m + n] + Left(rest, m, n)
  {
  }

  /** What has been reported and moved so far, followed by the parse of the rest. */
  function Then(events: seq<Event>, options: seq<string>, r: Parsed): Parsed {
    Parsed(events + r.events, options + r.options, r.others)
  }

  lemma ThenNothing(p: Parsed)
    ensures Then([], [], p) == p
  {
    assert [] + p.events == p.events && [] + p.options == p.options;
  }

  lemma ThenMore(events: seq<Event>, options: seq<string>, e: Event, moved: seq<string>, r: Parsed)
    ensures Then(events, options, Consumed(e, moved, r)) == Then(events + [e], options + moved, r)
  {
    assert events + ([e] + r.events) == (events + [e]) + r.events;
    assert options + (moved + r.options) == (options + moved) + r.options;
  }

  /** A call that consumes no token but reports an event advances inside its cluster. */
  lemma CallProgresses(longopts: seq<LongOpt>, rest: seq<string>, subopt: nat)
    requires InCluster(rest, subopt)
    ensures var m, c := Leading(rest), Call(longopts, rest, subopt);
      c.event.Some? && c.consumed == 0 ==>
        Left(rest, m, 0) == rest && 0 <= LettersLeft(rest, c.subopt) < LettersLeft(rest, subopt)
  {
    ClusterAhead(rest, subopt);
    assert rest[..Leading(rest)] + rest[Leading(rest)..] == rest;
  }

  lemma MovedParts(argv: seq<string>, start: nat, at: nat, rest: seq<string>, read: seq<string>, m: nat, n: nat)
    requires start <= at <= |argv| && m + n <= |rest| && argv[at..] == MovedFront(rest, m, n) && argv[start..at] == read
    ensures at + n <= |argv| && argv[start..at + n] == read + rest[m..m + n]
    ensures argv[at + n..] == Left(rest, m, n)
    ensures argv[start..] == read + MovedFront(rest, m, n)
    ensures n == 0 ==> read + rest[m..m + n] == read
  {
    assert argv[at..at + n] == MovedFront(rest, m, n)[..n];
    assert argv[start..at + n] == argv[start..at] + argv[at..at + n];
  }

  // ----- the two groups are the original argv, each in its original order

  /** c is an interleaving of a and b. */
  ghost predicate Shuffle(a: seq<string>, b: seq<string>, c: seq<string>)
    decreases |c|
  {
    if |c| == 0 then a == [] && b == []
    else
      || (0 < |a| && a[0] == c[0] && Shuffle(a[1..], b, c[1..]))
      || (0 < |b| && b[0] == c[0] && Shuffle(a, b[1..], c[1..]))
  }

  lemma {:induction false} ShuffleLeft(p: seq<string>, a: seq<string>, b: seq<string>, c: seq<string>)
    requires Shuffle(a, b, c)
    ensures Shuffle(p + a, b, p + c)
    decreases |p|
  {
    if |p| == 0 {
      assert p + a == a && p + c == c;
    } else {
      assert (p + a)[1..] == p[1..] + a && (p + c)[1..] == p[1..] + c;
      ShuffleLeft(p[1..], a, b, c);
    }
  }

  lemma {:induction false} ShuffleRight(b: seq<string>)
    ensures Shuffle([], b, b)
    decreases |b|
  {
    if |b| > 0 { ShuffleRight(b[1..]); }
  }

  lemma {:induction false} ShuffleIsPermutation(a: seq<string>, b: seq<string>, c: seq<string>)
    requires Shuffle(a, b, c)
    ensures multiset(a + b) == multiset(c)
    decreases |c|
  {
    if |c| > 0 {
      assert c == [c[0]] + c[1..];
      if 0 < |a| && a[0] == c[0] && Shuffle(a[1..], b, c[1..]) {
        ShuffleIsPermutation(a[1..], b, c[1..]);
        assert a + b == [a[0]] + (a[1..] + b);
      } else {
        ShuffleIsPermutation(a, b[1..], c[1..]);
        assert b == [b[0]] + b[1..];
        assert multiset(a + b) == multiset(a) + multiset{b[0]} + multiset(b[1..]);
        assert multiset(a + b[1..]) == multiset(a) + multiset(b[1..]);
      }
    }
  }

  lemma ShuffleOption(rest: seq<string>, options: seq<string>, others: seq<string>)
    requires 0 < |rest| && Shuffle(options, others, rest[1..])
    ensures Shuffle([rest[0]] + options, others, rest)
  {
    assert ([rest[0]] + options)[1..] == options;
  }

  lemma NothingShuffles()
    ensures Shuffle([], [], [])
  {
  }

  lemma ShuffleOther(rest: seq<string>, options: seq<string>, others: seq<string>)
    requires 0 < |rest| && Shuffle(options, others, rest[1..])
    ensures Shuffle(options, [rest[0]] + others, rest)
  {
    assert ([rest[0]] + others)[1..] == others;
  }

  /** The final order: options with their arguments and the others, each in original order, make
      up the command line exactly. */
  lemma {:induction false} ParseIsShuffle(longopts: seq<LongOpt>, rest: seq<string>, subopt: nat)
    requires InCluster(rest, subopt) && Clean(longopts, rest, subopt)
    ensures var p := Parse(longopts, rest, subopt);
      Shuffle(p.options, p.others, rest) && multiset(p.options + p.others) == multiset(rest)
    decreases |rest|, if |rest| > 0 then |rest[0]| - subopt else 0
  {
    hide Take, Shuffle;
    if |rest| == 0 {
      NothingShuffles();
    } else {
      if IsDashDash(rest[0]) {
        ShuffleRight(rest[1..]);
        ShuffleOption(rest, [], rest[1..]);
        assert [rest[0]] + [] == [rest[0]];
      } else if IsOther(rest[0]) {
        ParseIsShuffle(longopts, rest[1..], subopt);
        var r := Parse(longopts, rest[1..], subopt);
        ShuffleOther(rest, r.options, r.others);
      } else {
        var taken := Take(longopts, rest[0], Following(rest), subopt);
        ParseIsShuffle(longopts, rest[taken.consumed..], taken.subopt);
        var r := Parse(longopts, rest[taken.consumed..], taken.subopt);
        ShuffleLeft(rest[..taken.consumed], r.options, r.others, rest[taken.consumed..]);
        assert rest == rest[..taken.consumed] + rest[taken.consumed..];
      }
    }
    ShuffleIsPermutation(Parse(longopts, rest, subopt).options, Parse(longopts, rest, subopt).others, rest);
  }

  // ----- parsing the partitioned argv again

  /** The option asks for the next token as its argument. */
  predicate Wants(longopts: seq<LongOpt>, t: string, subopt: nat)
    requires (IsShortOpt(t) || IsLongOpt(t)) && (IsShortOpt(t) ==> subopt + 1 < |t|)
  {
    Take(longopts, t, Some(""), subopt).consumed == 2
  }

  lemma TakeDependsOnNext(longopts: seq<LongOpt>, t: string, a: Option<string>, b: Option<string>, subopt: nat)
    requires (IsShortOpt(t) || IsLongOpt(t)) && (IsShortOpt(t) ==> subopt + 1 < |t|)
    ensures !Wants(longopts, t, subopt) ==> Take(longopts, t, a, subopt) == Take(longopts, t, b, subopt)
    ensures !Wants(longopts, t, subopt) ==> Take(longopts, t, a, subopt).consumed <= 1
    ensures Wants(longopts, t, subopt) ==>
      var taken := Take(longopts, t, a, subopt);
      && taken.consumed == (if a.Some? then 2 else 1) && taken.event.optarg == a
      && (taken.consumed == 2 || IsShortOpt(t) || taken.subopt == subopt)
  {
    hide OptString, ArgTypeOf, FindLong, NameOf, InlineArg;
  }

  /** The command line ends with an option whose required argument is missing. */
  predicate Starved(longopts: seq<LongOpt>, rest: seq<string>, subopt: nat)
    requires InCluster(rest, subopt) && Clean(longopts, rest, subopt)
    decreases |rest|, if |rest| > 0 then |rest[0]| - subopt else 0
  {
    if |rest| == 0 || IsDashDash(rest[0]) then false
    else if IsOther(rest[0]) then Starved(longopts, rest[1..], subopt)
    else
      var taken := Take(longopts, rest[0], Following(rest), subopt);
      (|rest| == 1 && Wants(longopts, rest[0], subopt)) || Starved(longopts, rest[taken.consumed..], taken.subopt)
  }

  /** Parsing stopped at "--". */
  ghost predicate Stopped(longopts: seq<LongOpt>, rest: seq<string>, subopt: nat)
    requires InCluster(rest, subopt) && Clean(longopts, rest, subopt)
    decreases |rest|, if |rest| > 0 then |rest[0]| - subopt else 0
  {
    if |rest| == 0 then false
    else if IsDashDash(rest[0]) then true
    else if IsOther(rest[0]) then Stopped(longopts, rest[1..], subopt)
    else
      var taken := Take(longopts, rest[0], Following(rest), subopt);
      Stopped(longopts, rest[taken.consumed..], taken.subopt)
  }

  lemma {:induction false} OthersUnlessStopped(longopts: seq<LongOpt>, rest: seq<string>, subopt: nat)
    requires InCluster(rest, subopt) && Clean(longopts, rest, subopt) && !Stopped(longopts, rest, subopt)
    ensures AllOther(Parse(longopts, rest, subopt).others)
    decreases |rest|, if |rest| > 0 then |rest[0]| - subopt else 0
  {
    hide Take;
    if |rest| > 0 && !IsDashDash(rest[0]) {
      if IsOther(rest[0]) {
        OthersUnlessStopped(longopts, rest[1..], subopt);
      } else {
        var taken := Take(longopts, rest[0], Following(rest), subopt);
        OthersUnlessStopped(longopts, rest[taken.consumed..], taken.subopt);
      }
    }
  }

  lemma {:induction false} StarvedIsNotStopped(longopts: seq<LongOpt>, rest: seq<string>, subopt: nat)
    requires InCluster(rest, subopt) && Clean(longopts, rest, subopt) && Starved(longopts, rest, subopt)
    ensures !Stopped(longopts, rest, subopt)
    decreases |rest|, if |rest| > 0 then |rest[0]| - subopt else 0
  {
    hide Take;
    if IsOther(rest[0]) {
      StarvedIsNotStopped(longopts, rest[1..], subopt);
    } else {
      var taken := Take(longopts, rest[0], Following(rest), subopt);
      TakeDependsOnNext(longopts, rest[0], Following(rest), Following(rest), subopt);
      if !(|rest| == 1 && Wants(longopts, rest[0], subopt)) {
        StarvedIsNotStopped(longopts, rest[taken.consumed..], taken.subopt);
      }
    }
  }

  lemma {:induction false} FirstOption(longopts: seq<LongOpt>, rest: seq<string>, subopt: nat)
    requires InCluster(rest, subopt) && Clean(longopts, rest, subopt) && |rest| > 0 && !IsOther(rest[0])
    ensures var o := Parse(longopts, rest, subopt).options; 0 < |o| && o[0] == rest[0]
    decreases if |rest| > 0 then |rest[0]| - subopt else 0
  {
    hide Take;
    if !IsDashDash(rest[0]) {
      var taken := Take(longopts, rest[0], Following(rest), subopt);
      if taken.consumed == 0 {
        assert rest[0..] == rest;
        FirstOption(longopts, rest, taken.subopt);
      }
    }
  }

  /** Prepending the tokens of an option that is taken the same way. */
  lemma PrependOption(longopts: seq<LongOpt>, line: seq<string>, subopt: nat, taken: Taken, tail: seq<string>)
    requires |line| > 0 && !IsOther(line[0]) && !IsDashDash(line[0])
      && (IsShortOpt(line[0]) ==> subopt + 1 < |line[0]|) && (subopt > 0 ==> IsShortOpt(line[0]))
    requires taken == Take(longopts, line[0], Following(line), subopt) && taken.consumed <= |line|
      && line[taken.consumed..] == tail
    requires InCluster(tail, taken.subopt) && (taken.consumed > 0 ==> taken.subopt == 0)
      && Clean(longopts, tail, taken.subopt)
    ensures InCluster(line, subopt) && Clean(longopts, line, subopt)
    ensures var r := Parse(longopts, tail, taken.subopt);
      Parse(longopts, line, subopt) == Parsed([taken.event] + r.events, line[..taken.consumed] + r.options, r.others)
  {
    hide Take;
  }

  /** An option keeps its meaning when what follows its tokens is rearranged, unless it is the last
      token and wants an argument. */
  lemma TakenTheSame(longopts: seq<LongOpt>, rest: seq<string>, subopt: nat, options: seq<string>, ys: seq<string>)
    requires InCluster(rest, subopt) && Clean(longopts, rest, subopt) && |rest| > 0 && !IsOther(rest[0])
      && !IsDashDash(rest[0])
    requires (IsShortOpt(rest[0]) || IsLongOpt(rest[0])) && (IsShortOpt(rest[0]) ==> subopt + 1 < |rest[0]|)
    requires var taken := Take(longopts, rest[0], Following(rest), subopt);
      taken.consumed <= |rest| && options == Parse(longopts, rest[taken.consumed..], taken.subopt).options
    requires |rest| == 1 && Wants(longopts, rest[0], subopt) ==> ys == []
    ensures var taken := Take(longopts, rest[0], Following(rest), subopt);
      var line := rest[..taken.consumed] + options + ys;
      && |line| > 0 && line[0] == rest[0] && line[taken.consumed..] == options + ys
      && Take(longopts, line[0], Following(line), subopt) == taken
  {
    hide Take, Wants, IsOther, IsShortOpt, IsLongOpt, IsDashDash, Following;
    var taken := Take(longopts, rest[0], Following(rest), subopt);
    var line := rest[..taken.consumed] + options + ys;
    if taken.consumed == 0 {
      assert rest[0..] == rest;
      FirstOption(longopts, rest, taken.subopt);
    }
    hide Parse, Clean, InCluster;
    LineBegins(rest, taken.consumed, options, ys);
    TakeDependsOnNext(longopts, rest[0], Following(rest), Following(line), subopt);
    if |rest| == 1 && Wants(longopts, rest[0], subopt) {
      NothingAfter(longopts, rest, subopt, options);
    }
  }

  lemma LineBegins(rest: seq<string>, n: nat, options: seq<string>, ys: seq<string>)
    requires |rest| > 0 && n <= |rest| && (n == 0 ==> |options| > 0 && options[0] == rest[0])
    ensures var line := rest[..n] + options + ys;
      && |line| > 0 && line[0] == rest[0] && line[n..] == options + ys
      && (n == 2 ==> Following(line) == Following(rest)) && (Following(rest).None? <==> |rest| == 1)
  {
  }

  /** A last token that wants an argument is all there is. */
  lemma NothingAfter(longopts: seq<LongOpt>, rest: seq<string>, subopt: nat, options: seq<string>)
    requires |rest| == 1 && (IsShortOpt(rest[0]) || IsLongOpt(rest[0]))
      && (IsShortOpt(rest[0]) ==> subopt + 1 < |rest[0]|)
    requires Wants(longopts, rest[0], subopt)
    requires var taken := Take(longopts, rest[0], Following(rest), subopt);
      && taken.consumed <= 1 && InCluster(rest[taken.consumed..], taken.subopt)
      && Clean(longopts, rest[taken.consumed..], taken.subopt)
      && options == Parse(longopts, rest[taken.consumed..], taken.subopt).options
    ensures options == [] && Take(longopts, rest[0], Following(rest), subopt).consumed == 1
    ensures Following(rest[..1] + options + []) == Following(rest)
  {
    hide Take, Wants, IsOther, IsShortOpt, IsLongOpt, IsDashDash;
    TakeDependsOnNext(longopts, rest[0], None, None, subopt);
    assert rest[1..] == [];
  }

  /** Options first, then anything: the same events and options come out again. */
  lemma {:induction false} Replay(longopts: seq<LongOpt>, rest: seq<string>, subopt: nat, ys: seq<string>)
    requires InCluster(rest, subopt) && Clean(longopts, rest, subopt)
    requires Stopped(longopts, rest, subopt) || AllOther(ys)
    requires Starved(longopts, rest, subopt) ==> ys == []
    ensures var p := Parse(longopts, rest, subopt);
      && InCluster(p.options + ys, subopt) && Clean(longopts, p.options + ys, subopt)
      && Parse(longopts, p.options + ys, subopt) == Parsed(p.events, p.options, ys)
    decreases |rest|, if |rest| > 0 then |rest[0]| - subopt else 0
  {
    hide Take, Wants;
    var p := Parse(longopts, rest, subopt);
    if |rest| == 0 {
      SkipOthers(longopts, ys, [], subopt);
      assert ys + [] == ys == p.options + ys;
    } else if IsDashDash(rest[0]) {
      assert (p.options + ys)[1..] == ys;
    } else if IsOther(rest[0]) {
      Replay(longopts, rest[1..], subopt, ys);
    } else {
      ParseStep(longopts, rest, subopt);
      var taken := Take(longopts, rest[0], Following(rest), subopt);
      var left := rest[taken.consumed..];
      var options := Parse(longopts, left, taken.subopt).options;
      Replay(longopts, left, taken.subopt, ys);
      TakenTheSame(longopts, rest, subopt, options, ys);
      var line := rest[..taken.consumed] + options + ys;
      assert line == p.options + ys;
      PrependOption(longopts, line, subopt, taken, options + ys);
      assert line[..taken.consumed] == rest[..taken.consumed];
    }
  }

  /** A last option without its argument takes the first of the others when parsed again. */
  lemma {:induction false} ReplayStarved(longopts: seq<LongOpt>, rest: seq<string>, subopt: nat, ys: seq<string>)
    requires InCluster(rest, subopt) && Clean(longopts, rest, subopt) && Starved(longopts, rest, subopt)
      && AllOther(ys) && 0 < |ys|
    ensures var p := Parse(longopts, rest, subopt);
      && InCluster(p.options + ys, subopt) && Clean(longopts, p.options + ys, subopt)
      && Parse(longopts, p.options + ys, subopt).events != p.events
    decreases |rest|, if |rest| > 0 then |rest[0]| - subopt else 0
  {
    hide Take, Wants;
    var p := Parse(longopts, rest, subopt);
    if IsOther(rest[0]) {
      ReplayStarved(longopts, rest[1..], subopt, ys);
    } else {
      ParseStep(longopts, rest, subopt);
      var taken := Take(longopts, rest[0], Following(rest), subopt);
      var left := rest[taken.consumed..];
      if |rest| == 1 && Wants(longopts, rest[0], subopt) {
        var line := rest + ys;
        TakeDependsOnNext(longopts, rest[0], Following(line), None, subopt);
        TakeDependsOnNext(longopts, rest[0], None, None, subopt);
        WantedIsFinal(longopts, rest[0], Following(line), subopt);
        assert left == [] && p.options == rest && p.events == [taken.event];
        assert line[2..] == ys[1..];
        SkipOthers(longopts, ys[1..], [], 0);
        assert ys[1..] + [] == ys[1..];
        var again := Take(longopts, rest[0], Following(line), subopt);
        PrependOption(longopts, line, subopt, again, ys[1..]);
        assert p.options + ys == line && Following(line) == Some(ys[0]);
        assert again.event.optarg != taken.event.optarg;
        assert Parse(longopts, line, subopt).events[0] == again.event;
      } else {
        var options := Parse(longopts, left, taken.subopt).options;
        ReplayStarved(longopts, left, taken.subopt, ys);
        TakenTheSame(longopts, rest, subopt, options, ys);
        var line := rest[..taken.consumed] + options + ys;
        assert line == p.options + ys;
        PrependOption(longopts, line, subopt, taken, options + ys);
        assert p.events[1..] == Parse(longopts, left, taken.subopt).events;
        assert Parse(longopts, line, subopt).events[1..] == Parse(longopts, options + ys, taken.subopt).events;
      }
    }
  }

  lemma WantedIsFinal(longopts: seq<LongOpt>, t: string, next: Option<string>, subopt: nat)
    requires (IsShortOpt(t) || IsLongOpt(t)) && (IsShortOpt(t) ==> subopt + 1 < |t|) && Wants(longopts, t, subopt)
    ensures IsShortOpt(t) ==> Take(longopts, t, next, subopt).subopt == 0
  {
    hide OptString, ArgTypeOf, FindLong, NameOf, InlineArg;
  }

  /** Main result on order. Parsing the partitioned argv reports the same options exactly when it
      is not the case that the last token was an option still waiting for its argument while other
      arguments were moved behind it. */
  lemma PartitionedParsesTheSame(longopts: seq<LongOpt>, rest: seq<string>)
    requires InCluster(rest, 0) && Clean(longopts, rest, 0)
    ensures var p := Parse(longopts, rest, 0);
      var line := p.options + p.others;
      && InCluster(line, 0) && Clean(longopts, line, 0)
      && (Parse(longopts, line, 0).events == p.events <==> !(Starved(longopts, rest, 0) && 0 < |p.others|))
      && (!(Starved(longopts, rest, 0) && 0 < |p.others|) ==> Parse(longopts, line, 0) == p)
  {
    hide Parse, Clean, Starved, Stopped;
    var p := Parse(longopts, rest, 0);
    if !Stopped(longopts, rest, 0) {
      OthersUnlessStopped(longopts, rest, 0);
    }
    if Starved(longopts, rest, 0) && 0 < |p.others| {
      StarvedIsNotStopped(longopts, rest, 0);
      ReplayStarved(longopts, rest, 0, p.others);
    } else {
      Replay(longopts, rest, 0, p.others);
    }
  }

  /** The failing case: with a required argument for 'a' the line x -a reports a missing argument,
      and the partitioned line -a x takes x for it. */
  lemma StarvedWitness()
    ensures var table, line, moved := [LongOpt(None, 'a', Required)], ["x", "-a"], ["-a", "x"];
      && InCluster(line, 0) && Clean(table, line, 0) && Starved(table, line, 0)
      && Parse(table, line, 0) == Parsed([Event(ERROR, 'a', None)], ["-a"], ["x"])
      && InCluster(moved, 0) && Clean(table, moved, 0)
      && Parse(table, moved, 0) == Parsed([Event('a', 'a', Some("x"))], ["-a", "x"], [])
  {
    hide OptString;
    var table, line, moved := [LongOpt(None, 'a', Required)], ["x", "-a"], ["-a", "x"];
    OptStringOfOne();
    assert "-a"[2..] == "" && line[1..] == ["-a"] && line[1..][1..] == [] && moved[2..] == [];
    assert IndexOf("a:", 'a', 0) == 0 && ArgTypeOf("a:", 'a') == Some(Required);
    assert IsOther("x") && IsShortOpt("-a") && !IsDashDash("-a");
    assert Take(table, "-a", None, 0) == Taken(Event(ERROR, 'a', None), 1, 0);
    assert Take(table, "-a", Some(""), 0).consumed == 2;
    assert Take(table, "-a", Some("x"), 0) == Taken(Event('a', 'a', Some("x")), 2, 0);
    assert Parse(table, [], 0) == Parsed([], [], []);
    assert Following(["-a"]) == None && Following(moved) == Some("x");
    assert Clean(table, ["-a"], 0) && Parse(table, ["-a"], 0) == Parsed([Event(ERROR, 'a', None)], ["-a"], []);
    assert Starved(table, ["-a"], 0);
  }

  lemma OptStringOfOne()
    ensures OptString([LongOpt(None, 'a', Required)]) == "a:"
  {
    var table := [LongOpt(None, 'a', Required)];
    assert table[1..] == [] && OptString([]) == "";
    assert "a:" == ['a'] + ":" + "";
  }
}
