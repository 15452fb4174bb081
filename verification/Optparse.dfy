/** optparse.h: getopt-style parsing that permutes argv in place. */
module Optparse {
  import opened Basics

  datatype Option<T> = None | Some(value: T)

  datatype ArgType = NoArgument | Required | Optional

  /** A long option; a missing long name is None, a missing short name NUL. */
  datatype LongOpt = LongOpt(longname: Option<string>, shortname: char, argtype: ArgType)

  const NUL := '\0'

  // ----- classes of tokens

  predicate IsDashDash(arg: string) {
    arg == "--"
  }

  predicate IsShortOpt(arg: string) {
    |arg| >= 2 && arg[0] == '-' && arg[1] != '-'
  }

  predicate IsLongOpt(arg: string) {
    |arg| > 2 && arg[0] == '-' && arg[1] == '-'
  }

  predicate IsOther(arg: string) {
    !IsDashDash(arg) && !IsShortOpt(arg) && !IsLongOpt(arg)
  }

  // ----- the option tables

  function Colons(a: ArgType): string {
    match a
    case NoArgument => ""
    case Required => ":"
    case Optional => "::"
  }

  /** The getopt string of a table. */
  function OptString(longopts: seq<LongOpt>): string {
    if |longopts| == 0 then ""
    else
      var o := longopts[0];
      (if o.shortname != NUL then [o.shortname] + Colons(o.argtype) else "") + OptString(longopts[1..])
  }

  /** optparse_argtype; None stands for -1. */
  function ArgTypeOf(optstring: string, c: char): Option<ArgType> {
    var i := IndexOf(optstring, c, 0);
    if c == ':' || i == |optstring| then None
    else if i + 1 < |optstring| && optstring[i + 1] == ':' then
      if i + 2 < |optstring| && optstring[i + 2] == ':' then Some(Optional) else Some(Required)
    else Some(NoArgument)
  }

  /** The part of a long option before "=" and, if there is one, the part after it. */
  function NameOf(option: string): string { option[..IndexOf(option, '=', 0)] }

  function InlineArg(option: string): Option<string> {
    var i := IndexOf(option, '=', 0);
    if i < |option| then Some(option[i + 1..]) else None
  }

  /** The first table entry with that long name. */
  function FindLong(longopts: seq<LongOpt>, name: string): (r: nat)
    ensures r <= |longopts| && (r < |longopts| ==> longopts[r].longname == Some(name))
    ensures forall i :: 0 <= i < r ==> longopts[i].longname != Some(name)
  {
    if |longopts| == 0 || longopts[0].longname == Some(name) then 0 else 1 + FindLong(longopts[1..], name)
  }

  // ----- one option

  const ERROR := '?'

  /** What a call reports: its return value, optopt and optarg. */
  datatype Event = Event(code: char, optopt: char, optarg: Option<string>)

  /** An event, how many tokens it consumes and the position left inside a cluster. */
  datatype Taken = Taken(event: Event, consumed: nat, subopt: nat)

  /** Letter subopt of a short cluster t, followed on the command line by `next`. */
  function TakeShort(longopts: seq<LongOpt>, t: string, next: Option<string>, subopt: nat): (r: Taken)
    requires IsShortOpt(t) && subopt + 1 < |t|
    ensures r.consumed <= if next.Some? then 2 else 1
    ensures r.consumed == 0 ==> r.subopt == subopt + 1 && r.subopt + 1 < |t|
    ensures r.consumed > 0 ==> r.subopt == 0 || r.subopt == subopt
  {
    var c := t[subopt + 1];
    var inline := t[subopt + 2..];
    match ArgTypeOf(OptString(longopts), c)
    case None => Taken(Event(ERROR, c, None), 1, subopt)
    case Some(NoArgument) =>
      if inline != "" then Taken(Event(c, c, None), 0, subopt + 1) else Taken(Event(c, c, None), 1, 0)
    case Some(Required) =>
      if inline != "" then Taken(Event(c, c, Some(inline)), 1, 0)
      else if next.Some? then Taken(Event(c, c, next), 2, 0)
      else Taken(Event(ERROR, c, None), 1, 0)
    case Some(Optional) => Taken(Event(c, c, if inline != "" then Some(inline) else None), 1, 0)
  }

  function TakeLong(longopts: seq<LongOpt>, t: string, next: Option<string>, subopt: nat): (r: Taken)
    requires IsLongOpt(t)
    ensures 1 <= r.consumed <= if next.Some? then 2 else 1
    ensures r.subopt == subopt
  {
    var option := t[2..];
    var i := FindLong(longopts, NameOf(option));
    if i == |longopts| then Taken(Event(ERROR, NUL, None), 1, subopt)
    else
      var c, arg := longopts[i].shortname, InlineArg(option);
      if longopts[i].argtype.NoArgument? && arg.Some? then Taken(Event(ERROR, c, None), 1, subopt)
      else if arg.Some? then Taken(Event(c, c, arg), 1, subopt)
      else if longopts[i].argtype.Required? then
        if next.Some? then Taken(Event(c, c, next), 2, subopt) else Taken(Event(ERROR, c, None), 1, subopt)
      else Taken(Event(c, c, None), 1, subopt)
  }

  function Take(longopts: seq<LongOpt>, t: string, next: Option<string>, subopt: nat): (r: Taken)
    requires IsShortOpt(t) || IsLongOpt(t)
    requires IsShortOpt(t) ==> subopt + 1 < |t|
    ensures r.consumed <= if next.Some? then 2 else 1
    ensures IsLongOpt(t) ==> 1 <= r.consumed && r.subopt == subopt
    ensures r.consumed == 0 ==> r.subopt == subopt + 1 && r.subopt + 1 < |t|
    ensures r.consumed > 0 ==> r.subopt == 0 || r.subopt == subopt
  {
    if IsShortOpt(t) then TakeShort(longopts, t, next, subopt) else TakeLong(longopts, t, next, subopt)
  }

  function Following(rest: seq<string>): Option<string> {
    if |rest| >= 2 then Some(rest[1]) else None
  }

  // ----- the whole command line, read without moving anything

  /** The events, the tokens of options and their arguments, and everything else. */
  datatype Parsed = Parsed(events: seq<Event>, options: seq<string>, others: seq<string>)

  /** subopt points at a letter of the first option token, which is then a cluster. */
  predicate InCluster(rest: seq<string>, subopt: nat) {
    subopt > 0 ==>
      && |rest| > 0
      && if IsOther(rest[0]) then InCluster(rest[1..], subopt) else IsShortOpt(rest[0]) && subopt + 1 < |rest[0]|
  }

  /** No unknown letter after a valid flag in one cluster: the code then keeps subopt for the next
      option. */
  predicate Clean(longopts: seq<LongOpt>, rest: seq<string>, subopt: nat)
    requires InCluster(rest, subopt)
    decreases |rest|, if |rest| > 0 then |rest[0]| - subopt else 0
  {
    if |rest| == 0 || IsDashDash(rest[0]) then true
    else if IsOther(rest[0]) then Clean(longopts, rest[1..], subopt)
    else
      var taken := Take(longopts, rest[0], Following(rest), subopt);
      InCluster(rest[taken.consumed..], taken.subopt) && (taken.consumed > 0 ==> taken.subopt == 0)
      && Clean(longopts, rest[taken.consumed..], taken.subopt)
  }

  function Parse(longopts: seq<LongOpt>, rest: seq<string>, subopt: nat): Parsed
    requires InCluster(rest, subopt) && Clean(longopts, rest, subopt)
    decreases |rest|, if |rest| > 0 then |rest[0]| - subopt else 0
  {
    if |rest| == 0 then Parsed([], [], [])
    else if IsDashDash(rest[0]) then Parsed([], [rest[0]], rest[1..])
    else if IsOther(rest[0]) then
      var r := Parse(longopts, rest[1..], subopt);
      Parsed(r.events, r.options, [rest[0]] + r.others)
    else
      var taken := Take(longopts, rest[0], Following(rest), subopt);
      var r := Parse(longopts, rest[taken.consumed..], taken.subopt);
      Parsed([taken.event] + r.events, rest[..taken.consumed] + r.options, r.others)
  }

  // ----- one call, seen as a change of the unread part of argv

  /** The number of leading tokens that are neither options nor "--". */
  function Leading(rest: seq<string>): (m: nat)
    ensures m <= |rest| && (m < |rest| ==> !IsOther(rest[m]))
    ensures forall i :: 0 <= i < m ==> IsOther(rest[i])
  {
    if |rest| == 0 || !IsOther(rest[0]) then 0 else 1 + Leading(rest[1..])
  }

  /** Tokens m to m + n move in front of the m tokens before them. */
  function MovedFront(rest: seq<string>, m: nat, n: nat): (r: seq<string>)
    requires m + n <= |rest|
    ensures |r| == |rest|
  {
    rest[m..m + n] + rest[..m] + rest[m + n..]
  }

  /** What optparse_long returns (None for -1) and does: `consumed` tokens end up in front. */
  datatype Called = Called(event: Option<Event>, consumed: nat, subopt: nat)

  function Call(longopts: seq<LongOpt>, rest: seq<string>, subopt: nat): (r: Called)
    requires InCluster(rest, subopt)
    ensures Leading(rest) + r.consumed <= |rest|
  {
    var m := Leading(rest);
    if m == |rest| then Called(None, 0, subopt)
    else if IsDashDash(rest[m]) then Called(None, 1, subopt)
    else
      ClusterAhead(rest, subopt);
      var taken := Take(longopts, rest[m], Following(rest[m..]), subopt);
      Called(Some(taken.event), taken.consumed, taken.subopt)
  }

  lemma {:induction false} ClusterAhead(rest: seq<string>, subopt: nat)
    requires InCluster(rest, subopt)
    ensures var m := Leading(rest);
      subopt > 0 ==> m < |rest| && IsShortOpt(rest[m]) && subopt + 1 < |rest[m]|
    decreases |rest|
  {
    if subopt > 0 && IsOther(rest[0]) {
      ClusterAhead(rest[1..], subopt);
      assert rest[1..][Leading(rest[1..])] == rest[Leading(rest)];
    }
  }

  class OptparseState {
    const argv: array<string>
    var optind: nat
    var optopt: char
    var optarg: Option<string>
    var subopt: nat

    /** argv[argc] is the null pointer, which is never written. */
    constructor (argv: array<string>)
      requires 0 < argv.Length
      ensures this.argv == argv && optind == 1 && subopt == 0 && optarg == None
    {
      this.argv := argv;
      optind, optopt, optarg, subopt := 1, NUL, None, 0;
    }

    function Rest(): seq<string>
      requires optind <= argv.Length
      reads this, argv
    {
      argv[optind..]
    }

    function Arg(i: nat): Option<string>
      requires i <= argv.Length
      reads argv
    {
      if i < argv.Length then Some(argv[i]) else None
    }

    /** optparse_permute: the token at `index` moves to just before optind. */
    method Permute(index: nat)
      requires index < optind <= argv.Length
      modifies argv
      ensures argv[..index] == old(argv[..index])
      ensures argv[index..] == old(argv[index + 1..optind]) + [old(argv[index])] + old(argv[optind..])
    {
      var nonoption := argv[index];
      for i := index to optind - 1
        invariant forall j :: 0 <= j < index ==> argv[j] == old(argv[j])
        invariant forall j :: index <= j < i ==> argv[j] == old(argv[j + 1])
        invariant forall j :: i <= j < argv.Length ==> argv[j] == old(argv[j])
      {
        argv[i] := argv[i + 1];
      }
      argv[optind - 1] := nonoption;
      Rotated(old(argv[..]), argv[..], index, optind);
      assert old(argv[..])[index + 1..optind] == old(argv[index + 1..optind])
        && old(argv[..])[optind..] == old(argv[optind..]);
      assert argv[..][index..] == argv[index..];
    }

    /** The short option at optind, once optparse_long has found it to be one. */
    method Fallback(longopts: seq<LongOpt>) returns (r: char)
      requires optind < argv.Length && IsShortOpt(argv[optind]) && subopt + 1 < |argv[optind]|
      modifies this
      ensures var taken := Take(longopts, argv[old(optind)], old(Arg(optind + 1)), old(subopt));
        && Event(r, optopt, optarg) == taken.event && optind == old(optind) + taken.consumed && subopt == taken.subopt
    {
      var optstring := OptString(longopts);
      var option := argv[optind][subopt + 1..];
      optarg := None;
      optopt := option[0];
      var next := Arg(optind + 1);
      assert option[1..] == argv[optind][subopt + 2..];
      match ArgTypeOf(optstring, option[0])
      case None =>
        optind := optind + 1;
        r := ERROR;
      case Some(NoArgument) =>
        if |option| > 1 {
          subopt := subopt + 1;
        } else {
          subopt := 0;
          optind := optind + 1;
        }
        r := option[0];
      case Some(Required) =>
        subopt := 0;
        optind := optind + 1;
        r := option[0];
        if |option| > 1 {
          optarg := Some(option[1..]);
        } else if next.Some? {
          optarg := next;
          optind := optind + 1;
        } else {
          r := ERROR;
        }
      case Some(Optional) =>
        subopt := 0;
        optind := optind + 1;
        optarg := if |option| > 1 then Some(option[1..]) else None;
        r := option[0];
    }

    /** The long option at optind. */
    method ParseLong(longopts: seq<LongOpt>) returns (r: char)
      requires optind < argv.Length && IsLongOpt(argv[optind])
      modifies this`optind, this`optopt, this`optarg
      ensures var taken := Take(longopts, argv[old(optind)], old(Arg(optind + 1)), subopt);
        Event(r, optopt, optarg) == taken.event && optind == old(optind) + taken.consumed
    {
      optopt, optarg := NUL, None;
      var option := argv[optind][2..];
      optind := optind + 1;
      var name := NameOf(option);
      var i := 0;
      while i < |longopts| && longopts[i].longname != Some(name)
        invariant 0 <= i <= |longopts| && i + FindLong(longopts[i..], name) == FindLong(longopts, name)
      {
        i := i + 1;
      }
      assert longopts[0..] == longopts;
      if i == |longopts| { return ERROR; }
      optopt := longopts[i].shortname;
      var arg := InlineArg(option);
      if longopts[i].argtype.NoArgument? && arg.Some? { return ERROR; }
      if arg.Some? {
        optarg := arg;
      } else if longopts[i].argtype.Required? {
        optarg := Arg(optind);
        if optarg.None? { return ERROR; }
        optind := optind + 1;
      }
      r := optopt;
    }

    /** One call: None is the -1 of the source. */
    method OptparseLong(longopts: seq<LongOpt>) returns (r: Option<char>)
      requires optind <= argv.Length && InCluster(Rest(), subopt)
      modifies this, argv
      ensures var rest, c := old(Rest()), Call(longopts, old(Rest()), old(subopt));
        && (r.None? <==> c.event.None?) && (r.Some? ==> Event(r.value, optopt, optarg) == c.event.value)
        && optind == old(optind) + c.consumed <= argv.Length && subopt == c.subopt
        && argv[..old(optind)] == old(argv[..optind])
        && argv[old(optind)..] == MovedFront(rest, Leading(rest), c.consumed)
      decreases argv.Length - optind
    {
      hide Call, MovedFront, Leading, Take, InCluster;
      ghost var rest := Rest();
      CallStep(longopts, rest, subopt);
      if optind == argv.Length {
        return None;
      }
      var option := argv[optind];
      assert option == rest[0] && Following(rest) == Arg(optind + 1);
      if IsDashDash(option) {
        optind := optind + 1;
        return None;
      } else if IsShortOpt(option) {
        var code := Fallback(longopts);
        r := Some(code);
      } else if IsLongOpt(option) {
        var code := ParseLong(longopts);
        r := Some(code);
      } else {
        var index := optind;
        optind := optind + 1;
        assert Rest() == rest[1..];
        r := OptparseLong(longopts);
        ghost var a, moved := Call(longopts, rest[1..], old(subopt)).consumed, argv[index + 1..];
        assert argv[index] == option by { assert argv[..index + 1][index] == option; }
        assert argv[index + 1..optind] == moved[..a] && argv[optind..] == moved[a..];
        ghost var before := argv[..index];
        Permute(index);
        assert argv[..index] == before;
        optind := optind - 1;
      }
    }
  }

  /** A call on an option, at the end, or one token before a call on the rest. */
  lemma CallStep(longopts: seq<LongOpt>, rest: seq<string>, subopt: nat)
    requires InCluster(rest, subopt)
    ensures |rest| == 0 ==>
      Leading(rest) == 0 && Call(longopts, rest, subopt) == Called(None, 0, subopt) && MovedFront(rest, 0, 0) == rest
    ensures |rest| > 0 && IsDashDash(rest[0]) ==>
      Leading(rest) == 0 && Call(longopts, rest, subopt) == Called(None, 1, subopt) && MovedFront(rest, 0, 1) == rest
    ensures |rest| > 0 && !IsDashDash(rest[0]) && !IsOther(rest[0]) ==>
      && (IsShortOpt(rest[0]) ==> subopt + 1 < |rest[0]|)
      && var taken := Take(longopts, rest[0], Following(rest), subopt);
        && Leading(rest) == 0 && taken.consumed <= |rest| && MovedFront(rest, 0, taken.consumed) == rest
        && Call(longopts, rest, subopt) == Called(Some(taken.event), taken.consumed, taken.subopt)
    ensures |rest| > 0 && IsOther(rest[0]) ==>
      && InCluster(rest[1..], subopt)
      && Leading(rest) == 1 + Leading(rest[1..]) && Call(longopts, rest, subopt) == Call(longopts, rest[1..], subopt)
      && var m, a := Leading(rest[1..]), Call(longopts, rest[1..], subopt).consumed;
        && m + a <= |rest| - 1
        && var moved := MovedFront(rest[1..], m, a);
          MovedFront(rest, 1 + m, a) == moved[..a] + [rest[0]] + moved[a..]
  {
    hide Take;
    if |rest| > 0 {
      ClusterAhead(rest, subopt);
      assert rest[0..] == rest;
      if IsOther(rest[0]) {
        CallAfterOther(longopts, rest, subopt);
        MovedAfterOther(rest, Leading(rest[1..]), Call(longopts, rest[1..], subopt).consumed);
      } else {
        MovedNowhere(rest);
      }
    }
  }

  lemma MovedNowhere(rest: seq<string>)
    ensures forall n :: 0 <= n <= |rest| ==> MovedFront(rest, 0, n) == rest
  {
  }

  lemma CallAfterOther(longopts: seq<LongOpt>, rest: seq<string>, subopt: nat)
    requires InCluster(rest, subopt) && |rest| > 0 && IsOther(rest[0])
    ensures InCluster(rest[1..], subopt) && Call(longopts, rest, subopt) == Call(longopts, rest[1..], subopt)
  {
    hide Take;
    var m := Leading(rest[1..]);
    if m < |rest| - 1 {
      assert rest[1..][m..] == rest[1 + m..];
    }
  }

  lemma MovedAfterOther(rest: seq<string>, m: nat, a: nat)
    requires 1 + m + a <= |rest|
    ensures var moved := MovedFront(rest[1..], m, a); MovedFront(rest, 1 + m, a) == moved[..a] + [rest[0]] + moved[a..]
  {
    var tail := rest[1..];
    var moved := MovedFront(tail, m, a);
    assert moved[..a] == tail[m..m + a] == rest[1 + m..1 + m + a];
    assert moved[a..] == tail[..m] + tail[m + a..];
    assert rest[..1 + m] == [rest[0]] + tail[..m];
    assert rest[1 + m + a..] == tail[m + a..];
  }

  lemma Rotated(before: seq<string>, after: seq<string>, index: nat, optind: nat)
    requires index < optind <= |before| && |after| == |before|
    requires forall j :: 0 <= j < index ==> after[j] == before[j]
    requires forall j :: index <= j < optind - 1 ==> after[j] == before[j + 1]
    requires after[optind - 1] == before[index]
    requires forall j :: optind <= j < |before| ==> after[j] == before[j]
    ensures after[index..] == before[index + 1..optind] + [before[index]] + before[optind..]
  {
  }
}
