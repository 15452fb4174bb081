/** optparse.h: which option a spelling gives, said of the calls. The rules are those of getopt and of
    GNU-style long options, which the header announces: short options may be grouped and take their
    argument attached or as the next token, long ones after '=' or as the next token, and an optional
    argument only attached. */
module OptparseSpelling {
  import opened Basics
  import opened Optparse

  // ----- looking an option up in the table

  /** Entry i is the first with that long name. */
  ghost predicate IsLong(longopts: seq<LongOpt>, name: string, i: nat) {
    && i < |longopts| && longopts[i].longname == Some(name)
    && forall j :: 0 <= j < i ==> longopts[j].longname != Some(name)
  }

  /** Entry i is the first with that letter. */
  ghost predicate IsShort(longopts: seq<LongOpt>, x: char, i: nat) {
    && i < |longopts| && longopts[i].shortname == x && x != NUL
    && forall j :: 0 <= j < i ==> longopts[j].shortname != x
  }

  /** No letter is a colon, which separates the letters of a getopt string. */
  ghost predicate NoColon(longopts: seq<LongOpt>) {
    forall i :: 0 <= i < |longopts| ==> longopts[i].shortname != ':'
  }

  lemma ArgTypeShift(before: string, t: string, c: char)
    requires c !in before
    ensures ArgTypeOf(before + t, c) == ArgTypeOf(t, c)
  {
    hide IndexOf;
    var p := before + t;
    IndexShift(before, t, c, 0);
    var i := IndexOf(p, c, 0);
    assert forall k :: 0 <= k < |before| ==> p[k] == before[k] != c;
    assert forall k :: |before| <= k < i ==> p[k] != c;
    var j := IndexOf(p, c, |before|);
    assert i == j;
    assert forall k :: 0 <= k < |t| ==> p[|before| + k] == t[k];
  }

  lemma {:induction false} NoLeadingColon(longopts: seq<LongOpt>)
    requires NoColon(longopts)
    ensures OptString(longopts) == "" || OptString(longopts)[0] != ':'
    decreases |longopts|
  {
    if 0 < |longopts| { NoLeadingColon(longopts[1..]); }
  }

  /** The getopt string made of the table tells what the table tells. */
  lemma {:induction false} ShortIsFound(longopts: seq<LongOpt>, x: char, i: nat)
    requires NoColon(longopts) && IsShort(longopts, x, i)
    ensures ArgTypeOf(OptString(longopts), x) == Some(longopts[i].argtype)
    decreases i
  {
    hide IndexOf, ArgTypeOf;
    var o, rest := longopts[0], OptString(longopts[1..]);
    if i == 0 {
      NoLeadingColon(longopts[1..]);
      FirstLetter(x, o.argtype, rest);
    } else {
      ShortIsFound(longopts[1..], x, i - 1);
      ArgTypeShift(if o.shortname != NUL then [o.shortname] + Colons(o.argtype) else "", rest, x);
    }
  }

  lemma FirstLetter(x: char, a: ArgType, rest: string)
    requires x != ':' && (rest == "" || rest[0] != ':')
    ensures ArgTypeOf([x] + Colons(a) + rest, x) == Some(a)
  {
    var p := [x] + Colons(a) + rest;
    assert IndexOf(p, x, 0) == 0;
  }

  lemma {:induction false} ShortIsMissing(longopts: seq<LongOpt>, x: char)
    requires x == NUL || forall i :: 0 <= i < |longopts| ==> longopts[i].shortname != x
    ensures ArgTypeOf(OptString(longopts), x) == None
    decreases |longopts|
  {
    hide IndexOf, ArgTypeOf;
    if x == ':' || longopts == [] {
      NothingFound(OptString(longopts), x);
    } else {
      var o, rest := longopts[0], OptString(longopts[1..]);
      ShortIsMissing(longopts[1..], x);
      ArgTypeShift(if o.shortname != NUL then [o.shortname] + Colons(o.argtype) else "", rest, x);
    }
  }

  lemma NothingFound(optstring: string, x: char)
    requires x == ':' || optstring == ""
    ensures ArgTypeOf(optstring, x) == None
  {
  }

  lemma LongIsFound(longopts: seq<LongOpt>, name: string, i: nat)
    requires IsLong(longopts, name, i)
    ensures FindLong(longopts, name) == i
  {
    hide FindLong;
    var j := FindLong(longopts, name);
  }

  // ----- long options

  function Long(name: string): string { "--" + name }

  function LongWith(name: string, value: string): string { "--" + name + "=" + value }

  lemma LongParts(name: string, value: string)
    requires '=' !in name && name != ""
    ensures IsLongOpt(Long(name)) && IsLongOpt(LongWith(name, value))
    ensures Long(name)[2..] == name && NameOf(name) == name && InlineArg(name) == None
    ensures LongWith(name, value)[2..] == name + "=" + value
    ensures NameOf(name + "=" + value) == name && InlineArg(name + "=" + value) == Some(value)
  {
    var option := name + "=" + value;
    assert LongWith(name, value)[2..] == option;
    assert option[|name|] == '=';
    assert IndexOf(option, '=', 0) == |name| by {
      assert forall k :: 0 <= k < |name| ==> option[k] == name[k];
    }
    assert option[|name| + 1..] == value;
  }

  lemma FirstIsOption(longopts: seq<LongOpt>, t: string, rest: seq<string>)
    requires IsShortOpt(t) || IsLongOpt(t)
    ensures var taken := Take(longopts, t, if |rest| == 0 then None else Some(rest[0]), 0);
      Call(longopts, [t] + rest, 0) == Called(Some(taken.event), taken.consumed, taken.subopt)
  {
    hide Take;
    var line := [t] + rest;
    assert line[0..] == line;
    assert Leading(line) == 0;
  }

  /** A required argument: after '=' or as the next token, the same. */
  lemma LongRequired(longopts: seq<LongOpt>, name: string, i: nat, value: string, rest: seq<string>)
    requires '=' !in name && name != "" && IsLong(longopts, name, i) && longopts[i].argtype.Required?
    ensures var c := longopts[i].shortname;
      && Call(longopts, [LongWith(name, value)] + rest, 0) == Called(Some(Event(c, c, Some(value))), 1, 0)
      && Call(longopts, [Long(name)] + ([value] + rest), 0) == Called(Some(Event(c, c, Some(value))), 2, 0)
      && Call(longopts, [Long(name)] + [], 0) == Called(Some(Event('?', c, None)), 1, 0)
  {
    hide NameOf, InlineArg, FindLong, Call, Long, LongWith;
    LongParts(name, value);
    LongIsFound(longopts, name, i);
    FirstIsOption(longopts, LongWith(name, value), rest);
    FirstIsOption(longopts, Long(name), [value] + rest);
    FirstIsOption(longopts, Long(name), []);
  }

  /** An optional argument is never the next token, and a flag takes none at all. */
  lemma LongOptional(longopts: seq<LongOpt>, name: string, i: nat, value: string, rest: seq<string>)
    requires '=' !in name && name != "" && IsLong(longopts, name, i) && !longopts[i].argtype.Required?
    ensures var c := longopts[i].shortname;
      && Call(longopts, [Long(name)] + rest, 0) == Called(Some(Event(c, c, None)), 1, 0)
      && Call(longopts, [LongWith(name, value)] + rest, 0) ==
        Called(Some(if longopts[i].argtype.Optional? then Event(c, c, Some(value)) else Event('?', c, None)), 1, 0)
  {
    hide NameOf, InlineArg, FindLong, Call, Long, LongWith;
    LongParts(name, value);
    LongIsFound(longopts, name, i);
    FirstIsOption(longopts, LongWith(name, value), rest);
    FirstIsOption(longopts, Long(name), rest);
  }

  lemma LongUnknown(longopts: seq<LongOpt>, name: string, value: string, rest: seq<string>)
    requires '=' !in name && name != "" && forall i :: 0 <= i < |longopts| ==> longopts[i].longname != Some(name)
    ensures Call(longopts, [Long(name)] + rest, 0) == Called(Some(Event('?', NUL, None)), 1, 0)
    ensures Call(longopts, [LongWith(name, value)] + rest, 0) == Called(Some(Event('?', NUL, None)), 1, 0)
  {
    hide NameOf, InlineArg, Call, Long, LongWith;
    LongParts(name, value);
    var i := FindLong(longopts, name);
    FirstIsOption(longopts, LongWith(name, value), rest);
    FirstIsOption(longopts, Long(name), rest);
  }

  // ----- short options

  function Short(x: char): string { ['-', x] }

  function ShortWith(x: char, value: string): string { ['-', x] + value }

  lemma ShortParts(x: char, value: string)
    requires x != '-'
    ensures IsShortOpt(Short(x)) && Short(x)[1] == x && Short(x)[2..] == ""
    ensures IsShortOpt(ShortWith(x, value)) && ShortWith(x, value)[1] == x && ShortWith(x, value)[2..] == value
  {
  }

  /** A required argument: attached or as the next token, the same. */
  lemma ShortRequired(longopts: seq<LongOpt>, x: char, i: nat, value: string, rest: seq<string>)
    requires NoColon(longopts) && x != '-' && IsShort(longopts, x, i) && longopts[i].argtype.Required?
    ensures value != "" ==>
      Call(longopts, [ShortWith(x, value)] + rest, 0) == Called(Some(Event(x, x, Some(value))), 1, 0)
    ensures Call(longopts, [Short(x)] + ([value] + rest), 0) == Called(Some(Event(x, x, Some(value))), 2, 0)
    ensures Call(longopts, [Short(x)] + [], 0) == Called(Some(Event('?', x, None)), 1, 0)
  {
    hide ArgTypeOf, OptString, Call, Short, ShortWith;
    ShortIsFound(longopts, x, i);
    ShortParts(x, value);
    FirstIsOption(longopts, ShortWith(x, value), rest);
    FirstIsOption(longopts, Short(x), [value] + rest);
    FirstIsOption(longopts, Short(x), []);
  }

  /** An optional argument is never the next token. */
  lemma ShortOptional(longopts: seq<LongOpt>, x: char, i: nat, value: string, rest: seq<string>)
    requires NoColon(longopts) && x != '-' && IsShort(longopts, x, i) && longopts[i].argtype.Optional?
    ensures Call(longopts, [Short(x)] + rest, 0) == Called(Some(Event(x, x, None)), 1, 0)
    ensures value != "" ==>
      Call(longopts, [ShortWith(x, value)] + rest, 0) == Called(Some(Event(x, x, Some(value))), 1, 0)
  {
    hide ArgTypeOf, OptString, Call, Short, ShortWith;
    ShortIsFound(longopts, x, i);
    ShortParts(x, value);
    FirstIsOption(longopts, ShortWith(x, value), rest);
    FirstIsOption(longopts, Short(x), rest);
  }

  lemma ShortUnknown(longopts: seq<LongOpt>, x: char, value: string, rest: seq<string>)
    requires x != '-' && forall i :: 0 <= i < |longopts| ==> longopts[i].shortname != x
    ensures Call(longopts, [ShortWith(x, value)] + rest, 0) == Called(Some(Event('?', x, None)), 1, 0)
  {
    hide ArgTypeOf, OptString, Call, ShortWith;
    ShortIsMissing(longopts, x);
    ShortParts(x, value);
    FirstIsOption(longopts, ShortWith(x, value), rest);
  }

  // ----- clusters

  lemma SameTake(longopts: seq<LongOpt>, t: string, k: nat, u: string, j: nat, next: Option<string>)
    requires IsShortOpt(t) && IsShortOpt(u) && k + 1 < |t| && j + 1 < |u| && t[k + 1..] == u[j + 1..]
    ensures var a, b := Take(longopts, t, next, k), Take(longopts, u, next, j);
      && a.event == b.event && a.consumed == b.consumed
      && (a.consumed == 0 ==> a.subopt == k + 1 < |t| - 1 && b.subopt == j + 1 < |u| - 1)
      && (0 < a.consumed && 0 < k && a.subopt == 0 ==> b.subopt == 0)
  {
    hide ArgTypeOf, OptString;
    assert t[k + 1] == t[k + 1..][0] == u[j + 1];
    assert t[k + 2..] == t[k + 1..][1..] == u[j + 2..];
  }

  /** One step of the parse at a cluster. */
  lemma ClusterStep(longopts: seq<LongOpt>, t: string, k: nat, rest: seq<string>)
    requires IsShortOpt(t) && k + 1 < |t|
    ensures var line := [t] + rest;
      var taken := Take(longopts, t, Following(line), k);
      && InCluster(line, k) && taken.consumed <= |line|
      && (Clean(longopts, line, k) <==>
        && InCluster(line[taken.consumed..], taken.subopt) && (taken.consumed > 0 ==> taken.subopt == 0)
        && Clean(longopts, line[taken.consumed..], taken.subopt))
      && (Clean(longopts, line, k) ==>
        var r := Parse(longopts, line[taken.consumed..], taken.subopt);
        Parse(longopts, line, k) == Parsed([taken.event] + r.events, line[..taken.consumed] + r.options, r.others))
  {
    hide Take;
    assert ([t] + rest)[0] == t;
  }

  /** What is left of a cluster means the same wherever it stands. */
  lemma {:induction false} SameLetters(longopts: seq<LongOpt>, t: string, k: nat, u: string, j: nat, rest: seq<string>)
    requires IsShortOpt(t) && IsShortOpt(u) && 0 < k && k + 1 < |t| && j + 1 < |u| && t[k + 1..] == u[j + 1..]
    requires Clean(longopts, [t] + rest, k)
    ensures Clean(longopts, [u] + rest, j)
    ensures Parse(longopts, [t] + rest, k).events == Parse(longopts, [u] + rest, j).events
    ensures Parse(longopts, [t] + rest, k).others == Parse(longopts, [u] + rest, j).others
    decreases |t| - k
  {
    hide Take, Parse, Clean, InCluster;
    var next := Following([t] + rest);
    assert Following([u] + rest) == next;
    SameTake(longopts, t, k, u, j, next);
    ClusterStep(longopts, t, k, rest);
    ClusterStep(longopts, u, j, rest);
    var n := Take(longopts, t, next, k).consumed;
    if n == 0 {
      assert t[k + 2..] == t[k + 1..][1..] == u[j + 2..];
      assert ([t] + rest)[n..] == [t] + rest && ([u] + rest)[n..] == [u] + rest;
      ClusterStep(longopts, u, j + 1, rest);
      SameLetters(longopts, t, k + 1, u, j + 1, rest);
    } else {
      assert ([t] + rest)[n..] == ([u] + rest)[n..];
    }
  }

  /** Flags may share a dash: -ab is -a -b, and whatever follows a flag in its cluster may stand in a
      cluster of its own. */
  lemma ClusterSplits(longopts: seq<LongOpt>, x: char, i: nat, tail: string, rest: seq<string>)
    requires NoColon(longopts) && x != '-' && IsShort(longopts, x, i) && longopts[i].argtype.NoArgument?
    requires tail != "" && tail[0] != '-' && Clean(longopts, [ShortWith(x, tail)] + rest, 0)
    ensures Clean(longopts, ["-" + tail] + rest, 0) && Clean(longopts, [Short(x), "-" + tail] + rest, 0)
    ensures var together := Parse(longopts, [ShortWith(x, tail)] + rest, 0);
      var apart := Parse(longopts, [Short(x), "-" + tail] + rest, 0);
      && together.events == [Event(x, x, None)] + Parse(longopts, ["-" + tail] + rest, 0).events == apart.events
      && together.others == apart.others
  {
    hide ArgTypeOf, OptString;
    ShortIsFound(longopts, x, i);
    var t, u := ShortWith(x, tail), "-" + tail;
    var line := [t] + rest;
    assert t[2..] == tail && u[1..] == tail && t[1] == x;
    assert line[0..] == line && line[0] == t;
    SameLetters(longopts, t, 1, u, 0, rest);
    var split := [Short(x), u] + rest;
    assert split[1..] == [u] + rest && split[0] == Short(x);
  }

  // ----- everything else

  /** "--" ends the options, and a token that is a dash or does not begin with one is left for later. */
  lemma OtherTokens(longopts: seq<LongOpt>, t: string, rest: seq<string>)
    ensures Call(longopts, ["--"] + rest, 0) == Called(None, 1, 0)
    ensures t == "" || t == "-" || t[0] != '-' ==>
      Call(longopts, [t] + rest, 0) == Call(longopts, rest, 0) && Leading([t] + rest) == 1 + Leading(rest)
  {
    hide Take;
    var line := ["--"] + rest;
    assert line[0] == "--" && Leading(line) == 0;
    if t == "" || t == "-" || t[0] != '-' {
      assert ([t] + rest)[1..] == rest && IsOther(([t] + rest)[0]);
      CallAfterOther(longopts, [t] + rest, 0);
    }
  }
}
