/** glob.c: brace expansion (globexp0, globexp1, globexp2). */
module GlobBraces {
  import opened Basics
  import opened GlobPattern

  type Text = seq<PatChar>

  const LBRACE := PatChar('{', false)
  const RBRACE := PatChar('}', false)
  const COMMA := PatChar(',', false)

  // ----- the scans of globexp2

  /** Where a scan goes on after position k: past the ']' when k opens a closed bracket. */
  function Skip(p: Text, k: nat): (r: nat)
    requires k < |p|
    ensures k < r <= |p|
  {
    var close := IndexOf(p, RBRACKET, k + 1);
    if p[k] == LBRACKET && close < |p| then close + 1 else k + 1
  }

  /** First scan: the '}' that balances the open brace, i inner braces being open, or the end. */
  function Close(p: Text, pe: nat, i: nat): (r: nat)
    requires pe <= |p|
    ensures pe <= r <= |p|
    decreases |p| - pe
  {
    if pe == |p| then pe
    else if p[pe] == LBRACE then Close(p, pe + 1, i + 1)
    else if p[pe] == RBRACE then if i == 0 then pe else Close(p, pe + 1, i - 1)
    else Close(p, Skip(p, pe), i)
  }

  /** Second scan, from pm with the current alternative starting at pl: the texts of the
      alternatives up to the balancing brace at pe. */
  function Alternatives(p: Text, pl: nat, pm: nat, pe: nat, i: nat): (r: seq<Text>)
    requires pl <= pm <= |p| && pe < |p|
    ensures forall k :: 0 <= k < |r| ==> |r[k]| <= pe - pl
    decreases |p| - pm
  {
    if pm > pe then []
    else if p[pm] == LBRACE then Alternatives(p, pl, pm + 1, pe, i + 1)
    else if p[pm] == RBRACE && i > 0 then Alternatives(p, pl, pm + 1, pe, i - 1)
    else if i == 0 && (p[pm] == RBRACE || p[pm] == COMMA) then [p[pl..pm]] + Alternatives(p, pm + 1, pm + 1, pe, 0)
    else Alternatives(p, pl, Skip(p, pm), pe, i)
  }

  /** The patterns handed to glob0, in order. */
  function Expand(p: Text): seq<Text>
    decreases |p|, 1, 0
  {
    var ptr := IndexOf(p, LBRACE, 0);
    if ptr == |p| then [p]
    else
      var pe := Close(p, ptr + 1, 0);
      if pe == |p| then [p] else ExpandEach(p[..ptr], Alternatives(p, ptr + 1, ptr + 1, pe, 0), p[pe + 1..], |p|)
  }

  function ExpandEach(before: Text, alternatives: seq<Text>, after: Text, bound: nat): seq<Text>
    requires forall k :: 0 <= k < |alternatives| ==> |before| + |alternatives[k]| + |after| < bound
    decreases bound, 0, |alternatives|
  {
    if |alternatives| == 0 then []
    else Expand(before + alternatives[0] + after) + ExpandEach(before, alternatives[1..], after, bound)
  }

  // ----- glob0 as seen from here

  /** The calls made when glob0 is run on each pattern until one fails, and the final code. */
  function Run(ps: seq<Text>, glob0: Text -> int): (r: (seq<Text>, int))
  {
    if |ps| == 0 then ([], 0)
    else if glob0(ps[0]) != 0 then ([ps[0]], glob0(ps[0]))
    else
      var rest := Run(ps[1..], glob0);
      ([ps[0]] + rest.0, rest.1)
  }

  lemma {:induction false} RunConcat(a: seq<Text>, b: seq<Text>, glob0: Text -> int)
    ensures Run(a, glob0).1 != 0 ==> Run(a + b, glob0) == Run(a, glob0)
    ensures Run(a, glob0).1 == 0 ==> Run(a + b, glob0) == (Run(a, glob0).0 + Run(b, glob0).0, Run(b, glob0).1)
    decreases |a|
  {
    if |a| == 0 {
      assert a + b == b;
      assert [] + Run(b, glob0).0 == Run(b, glob0).0;
    } else {
      assert (a + b)[1..] == a[1..] + b;
      RunConcat(a[1..], b, glob0);
      Regroup([a[0]], Run(a[1..], glob0).0, Run(b, glob0).0);
    }
  }

  /** glob0 is called on the first patterns, in order and up to the first one that fails, whose code is
      the result; on all of them, with result 0, if none does. */
  lemma {:induction false} RunStopsAtFailure(ps: seq<Text>, glob0: Text -> int)
    ensures var (calls, rv) := Run(ps, glob0);
      && |calls| <= |ps| && calls == ps[..|calls|]
      && (forall i :: 0 <= i < |calls| - 1 ==> glob0(ps[i]) == 0)
      && (if rv == 0 then |calls| == |ps| && forall i :: 0 <= i < |ps| ==> glob0(ps[i]) == 0
          else 0 < |calls| && glob0(ps[|calls| - 1]) == rv)
    decreases |ps|
  {
    if 0 < |ps| && glob0(ps[0]) == 0 {
      RunStopsAtFailure(ps[1..], glob0);
      assert forall i :: 0 < i < |ps| ==> ps[i] == ps[1..][i - 1];
    }
  }

  lemma RunOne(p: Text, glob0: Text -> int)
    ensures Run([p], glob0) == ([p], glob0(p))
  {
    assert [p][1..] == [];
    EmptyPrefix([p]);
  }

  // ----- the two scans agree

  function Join(texts: seq<Text>): Text {
    if |texts| == 0 then [] else if |texts| == 1 then texts[0] else texts[0] + [COMMA] + Join(texts[1..])
  }

  /** The second scan stops at the brace the first one found: joined with commas, the alternatives
      are the whole text between the braces. */
  lemma {:induction false} ScansAgree(p: Text, pl: nat, pm: nat, pe: nat, i: nat)
    requires pl <= pm <= |p| && pe < |p| && Close(p, pm, i) == pe
    ensures pm <= pe && p[pe] == RBRACE
    ensures 0 < |Alternatives(p, pl, pm, pe, i)| && Join(Alternatives(p, pl, pm, pe, i)) == p[pl..pe]
    decreases |p| - pm
  {
    if p[pm] == LBRACE {
      ScansAgree(p, pl, pm + 1, pe, i + 1);
    } else if p[pm] == RBRACE && i > 0 {
      ScansAgree(p, pl, pm + 1, pe, i - 1);
    } else if p[pm] == RBRACE {
      assert Alternatives(p, pm + 1, pm + 1, pe, 0) == [];
    } else if p[pm] == COMMA && i == 0 {
      ScansAgree(p, pm + 1, pm + 1, pe, 0);
      var rest := Alternatives(p, pm + 1, pm + 1, pe, 0);
      assert ([p[pl..pm]] + rest)[1..] == rest;
      assert p[pl..pe] == p[pl..pm] + [COMMA] + p[pm + 1..pe];
    } else {
      ScansAgree(p, pl, Skip(p, pm), pe, i);
    }
  }

  // ----- the methods

  method GlobExp1(pattern: Text, glob0: Text -> int) returns (calls: seq<Text>, rv: int)
    ensures (calls, rv) == Run(Expand(pattern), glob0)
    decreases |pattern|, 1
  {
    var ptr := 0;
    while ptr < |pattern| && pattern[ptr] != LBRACE
      invariant 0 <= ptr <= |pattern| && IndexOf(pattern, LBRACE, 0) == IndexOf(pattern, LBRACE, ptr)
    {
      ptr := ptr + 1;
    }
    if ptr < |pattern| {
      calls, rv := GlobExp2(ptr, pattern, glob0);
    } else {
      RunOne(pattern, glob0);
      rv := glob0(pattern);
      calls := [pattern];
    }
  }

  method GlobExp2(open: nat, pattern: Text, glob0: Text -> int) returns (calls: seq<Text>, rv: int)
    requires open < |pattern| && open == IndexOf(pattern, LBRACE, 0)
    ensures (calls, rv) == Run(Expand(pattern), glob0)
    decreases |pattern|, 0
  {
    hide Alternatives, Close, Skip, Run, ExpandEach;
    var before := pattern[..open];
    var ptr := open + 1;
    var pe := FindClose(pattern, ptr);
    if pe == |pattern| {
      RunOne(pattern, glob0);
      rv := glob0(pattern);
      return [pattern], rv;
    }
    var after := pattern[pe + 1..];
    calls, rv := [], 0;
    var i, pl, pm := 0, ptr, ptr;
    ghost var all := Run(Expand(pattern), glob0);
    RunNone(all);
    while pm <= pe
      invariant 0 <= i && ptr <= pl <= pm <= |pattern| && rv == 0
      invariant all
        == Then(calls, Run(ExpandEach(before, Alternatives(pattern, pl, pm, pe, i), after, |pattern|), glob0))
      decreases |pattern| - pm
    {
      AlternativesStep(pattern, pl, pm, pe, i);
      if pattern[pm] == LBRACKET {
        pm := SkipBracket(pattern, pm);
      } else if pattern[pm] == LBRACE {
        i, pm := i + 1, pm + 1;
      } else if pattern[pm] == RBRACE && i > 0 {
        i, pm := i - 1, pm + 1;
      } else if pattern[pm] == RBRACE || (pattern[pm] == COMMA && i == 0) {
        ghost var alternative := pattern[pl..pm];
        ghost var rest := Alternatives(pattern, pm + 1, pm + 1, pe, 0);
        var patbuf := before + pattern[pl..pm] + after;
        ExpandEachStep(before, alternative, rest, after, |pattern|);
        var more;
        more, rv := GlobExp1(patbuf, glob0);
        RunConcat(Expand(patbuf), ExpandEach(before, rest, after, |pattern|), glob0);
        ThenAgain(calls, more, Run(ExpandEach(before, rest, after, |pattern|), glob0));
        calls := calls + more;
        if rv != 0 { return; }
        pm := pm + 1;
        pl := pm;
      } else {
        pm := pm + 1;
      }
    }
    AlternativesStep(pattern, pl, pm, pe, i);
    RunNothing(before, after, |pattern|, glob0);
    EmptyPrefix(calls);
  }

  /** The calls made so far, followed by those of the rest of the run. */
  function Then(calls: seq<Text>, r: (seq<Text>, int)): (seq<Text>, int) {
    (calls + r.0, r.1)
  }

  lemma RunNone(r: (seq<Text>, int))
    ensures Then([], r) == r
  {
    EmptyPrefix(r.0);
  }

  lemma ThenAgain(a: seq<Text>, b: seq<Text>, r: (seq<Text>, int))
    ensures Then(a, Then(b, r)) == Then(a + b, r)
  {
    Regroup(a, b, r.0);
  }

  lemma RunNothing(before: Text, after: Text, bound: nat, glob0: Text -> int)
    ensures Run(ExpandEach(before, [], after, bound), glob0) == ([], 0)
  {
  }

  lemma ExpandEachStep(before: Text, alternative: Text, rest: seq<Text>, after: Text, bound: nat)
    requires |before| + |alternative| + |after| < bound
    requires forall k :: 0 <= k < |rest| ==> |before| + |rest[k]| + |after| < bound
    ensures ExpandEach(before, [alternative] + rest, after, bound)
      == Expand(before + alternative + after) + ExpandEach(before, rest, after, bound)
  {
    assert ([alternative] + rest)[1..] == rest;
  }

  lemma AlternativesStep(p: Text, pl: nat, pm: nat, pe: nat, i: nat)
    requires pl <= pm <= |p| && pe < |p|
    ensures pm > pe ==> Alternatives(p, pl, pm, pe, i) == []
    ensures pm <= pe ==>
      Alternatives(p, pl, pm, pe, i) ==
      if p[pm] == LBRACE then Alternatives(p, pl, pm + 1, pe, i + 1)
      else if p[pm] == RBRACE && i > 0 then Alternatives(p, pl, pm + 1, pe, i - 1)
      else if i == 0 && (p[pm] == RBRACE || p[pm] == COMMA) then [p[pl..pm]] + Alternatives(p, pm + 1, pm + 1, pe, 0)
      else if p[pm] == LBRACKET then Alternatives(p, pl, Skip(p, pm), pe, i)
      else Alternatives(p, pl, pm + 1, pe, i)
  {
  }

  /** The first scan; the end of the pattern stands for "no balancing brace". */
  method FindClose(p: Text, start: nat) returns (pe: nat)
    requires start <= |p|
    ensures pe == Close(p, start, 0)
  {
    var i := 0;
    pe := start;
    while pe < |p|
      invariant start <= pe <= |p| && 0 <= i && Close(p, start, 0) == Close(p, pe, i)
      decreases |p| - pe
    {
      if p[pe] == LBRACKET {
        pe := SkipBracket(p, pe);
      } else if p[pe] == LBRACE {
        i := i + 1;
        pe := pe + 1;
      } else if p[pe] == RBRACE {
        if i == 0 { return; }
        i := i - 1;
        pe := pe + 1;
      } else {
        pe := pe + 1;
      }
    }
  }

  /** Ignores everything between [ and ]; an unclosed [ is stepped over like any character. */
  method SkipBracket(p: Text, open: nat) returns (k: nat)
    requires open < |p| && p[open] == LBRACKET
    ensures k == Skip(p, open)
  {
    k := open + 1;
    while k < |p| && p[k] != RBRACKET
      invariant open < k <= |p| && IndexOf(p, RBRACKET, open + 1) == IndexOf(p, RBRACKET, k)
    {
      k := k + 1;
    }
    k := if k == |p| then open + 1 else k + 1;
  }

  // ----- what expansion means

  /** A pattern as its author means it: characters, bracket expressions and brace groups. */
  datatype Word =
    | End
    | Chr(c: PatChar, tail: Word)
    | Bracket(body: Text, tail: Word)
    | Group(alternatives: Choices, tail: Word)

  datatype Choices = Last(w: Word) | More(w: Word, tail: Choices)

  /** Inside a group plain characters are not openers, commas or '}', unless protected; a bracket
      body has no ']' and no '{' (the search for the first brace looks inside brackets too). */
  ghost predicate WellFormed(w: Word) {
    match w
    case End => true
    case Chr(c, tail) => c !in {LBRACE, RBRACE, COMMA, LBRACKET} && WellFormed(tail)
    case Bracket(body, tail) => RBRACKET !in body && LBRACE !in body && WellFormed(tail)
    case Group(alternatives, tail) => WellFormedChoices(alternatives) && WellFormed(tail)
  }

  ghost predicate WellFormedChoices(cs: Choices) {
    WellFormed(cs.w) && (cs.More? ==> WellFormedChoices(cs.tail))
  }

  /** Outside every group commas, '}' and brackets are plain characters too: only '{' is looked for. */
  ghost predicate WellFormedTop(w: Word) {
    match w
    case End => true
    case Chr(c, tail) => c != LBRACE && WellFormedTop(tail)
    case Bracket(body, tail) => LBRACE !in body && WellFormedTop(tail)
    case Group(alternatives, tail) => WellFormedChoices(alternatives) && WellFormedTop(tail)
  }

  /** The end of a pattern from its first '{' without a balancing '}', if there is one. */
  predicate Unbalanced(rest: Text) {
    rest == [] || (rest[0] == LBRACE && Close(rest, 1, 0) == |rest|)
  }

  function Print(w: Word): Text {
    match w
    case End => []
    case Chr(c, tail) => [c] + Print(tail)
    case Bracket(body, tail) => [LBRACKET] + body + [RBRACKET] + Print(tail)
    case Group(alternatives, tail) => [LBRACE] + PrintChoices(alternatives) + [RBRACE] + Print(tail)
  }

  function PrintChoices(cs: Choices): Text {
    match cs
    case Last(w) => Print(w)
    case More(w, tail) => Print(w) + [COMMA] + PrintChoices(tail)
  }

  function Prefixed(t: Text, ts: seq<Text>): (r: seq<Text>)
    ensures |r| == |ts| && forall i :: 0 <= i < |ts| ==> r[i] == t + ts[i]
  {
    seq(|ts|, i requires 0 <= i < |ts| => t + ts[i])
  }

  /** All concatenations, the left factor varying slowest. */
  function Product(a: seq<Text>, b: seq<Text>): seq<Text> {
    if |a| == 0 then [] else Prefixed(a[0], b) + Product(a[1..], b)
  }

  /** Factor i of the left and factor j of the right side stand together at i * |b| + j. */
  lemma {:induction false} ProductAt(a: seq<Text>, b: seq<Text>, i: nat, j: nat)
    requires i < |a| && j < |b|
    ensures |Product(a, b)| == |a| * |b| && i * |b| + j < |a| * |b| && Product(a, b)[i * |b| + j] == a[i] + b[j]
    decreases |a|
  {
    ProductSize(a[1..], b);
    assert |a| * |b| == |b| + (|a| - 1) * |b|;
    if 0 < i {
      ProductAt(a[1..], b, i - 1, j);
      assert i * |b| == |b| + (i - 1) * |b|;
    }
  }

  lemma {:induction false} ProductSize(a: seq<Text>, b: seq<Text>)
    ensures |Product(a, b)| == |a| * |b|
    decreases |a|
  {
    if 0 < |a| {
      ProductSize(a[1..], b);
      assert |a| * |b| == |b| + (|a| - 1) * |b|;
    }
  }

  /** The texts a word stands for, adjacent groups combining as a lexicographic product. */
  function Denote(w: Word): seq<Text> {
    match w
    case End => [[]]
    case Chr(c, tail) => Prefixed([c], Denote(tail))
    case Bracket(body, tail) => Prefixed([LBRACKET] + body + [RBRACKET], Denote(tail))
    case Group(alternatives, tail) => Product(DenoteChoices(alternatives), Denote(tail))
  }

  function DenoteChoices(cs: Choices): seq<Text> {
    match cs
    case Last(w) => Denote(w)
    case More(w, tail) => Denote(w) + DenoteChoices(tail)
  }

  function Append(w: Word, v: Word): Word {
    match w
    case End => v
    case Chr(c, tail) => Chr(c, Append(tail, v))
    case Bracket(body, tail) => Bracket(body, Append(tail, v))
    case Group(alternatives, tail) => Group(alternatives, Append(tail, v))
  }

  lemma {:induction false} PrintAppend(w: Word, v: Word)
    ensures Print(Append(w, v)) == Print(w) + Print(v)
  {
    match w
    case End =>
    case Chr(c, tail) => PrintAppend(tail, v);
    case Bracket(body, tail) => PrintAppend(tail, v);
    case Group(alternatives, tail) => PrintAppend(tail, v);
  }

  lemma {:induction false} AppendIsWellFormed(w: Word, v: Word)
    requires WellFormed(w) && WellFormed(v)
    ensures WellFormed(Append(w, v))
  {
    if !w.End? { AppendIsWellFormed(w.tail, v); }
  }

  lemma {:induction false} AppendIsWellFormedTop(w: Word, v: Word)
    requires WellFormed(w) && WellFormedTop(v)
    ensures WellFormedTop(Append(w, v))
  {
    if !w.End? { AppendIsWellFormedTop(w.tail, v); }
  }

  lemma PrefixedTwice(s: Text, t: Text, ts: seq<Text>)
    ensures Prefixed(s, Prefixed(t, ts)) == Prefixed(s + t, ts)
  {
    assert forall i :: 0 <= i < |ts| ==> s + (t + ts[i]) == (s + t) + ts[i];
  }

  lemma PrefixedConcat(s: Text, a: seq<Text>, b: seq<Text>)
    ensures Prefixed(s, a + b) == Prefixed(s, a) + Prefixed(s, b)
  {
  }

  lemma PrefixedEmpty(ts: seq<Text>)
    ensures Prefixed([], ts) == ts
  {
    assert forall i :: 0 <= i < |ts| ==> [] + ts[i] == ts[i];
  }

  lemma {:induction false} ProductConcat(a: seq<Text>, b: seq<Text>, c: seq<Text>)
    ensures Product(a + b, c) == Product(a, c) + Product(b, c)
    decreases |a|
  {
    if |a| == 0 {
      assert a + b == b;
    } else {
      assert (a + b)[1..] == a[1..] + b;
      ProductConcat(a[1..], b, c);
    }
  }

  lemma {:induction false} ProductPrefixed(s: Text, a: seq<Text>, b: seq<Text>)
    ensures Product(Prefixed(s, a), b) == Prefixed(s, Product(a, b))
    decreases |a|
  {
    if 0 < |a| {
      assert Prefixed(s, a)[1..] == Prefixed(s, a[1..]);
      ProductPrefixed(s, a[1..], b);
      PrefixedTwice(s, a[0], b);
      PrefixedConcat(s, Prefixed(a[0], b), Product(a[1..], b));
    }
  }

  lemma {:induction false} ProductIsAssociative(a: seq<Text>, b: seq<Text>, c: seq<Text>)
    ensures Product(Product(a, b), c) == Product(a, Product(b, c))
    decreases |a|
  {
    if 0 < |a| {
      ProductIsAssociative(a[1..], b, c);
      ProductConcat(Prefixed(a[0], b), Product(a[1..], b), c);
      ProductPrefixed(a[0], b, c);
    }
  }

  lemma ProductOfOne(t: Text, b: seq<Text>)
    ensures Product([t], b) == Prefixed(t, b)
  {
    assert [t][1..] == [];
  }

  /** Concatenating patterns multiplies their expansions. */
  lemma {:induction false} DenoteAppend(w: Word, v: Word)
    ensures Denote(Append(w, v)) == Product(Denote(w), Denote(v))
  {
    match w
    case End =>
      PrefixedEmpty(Denote(v));
      ProductOfOne([], Denote(v));
    case Chr(c, tail) =>
      DenoteAppend(tail, v);
      ProductPrefixed([c], Denote(tail), Denote(v));
    case Bracket(body, tail) =>
      DenoteAppend(tail, v);
      ProductPrefixed([LBRACKET] + body + [RBRACKET], Denote(tail), Denote(v));
    case Group(alternatives, tail) =>
      DenoteAppend(tail, v);
      ProductIsAssociative(DenoteChoices(alternatives), Denote(tail), Denote(v));
  }

  // ----- the scans over printed words

  ghost predicate PrintedAt(p: Text, k: nat, t: Text) {
    k + |t| <= |p| && p[k..k + |t|] == t
  }

  lemma PrintedParts(p: Text, k: nat, a: Text, b: Text)
    requires PrintedAt(p, k, a + b)
    ensures PrintedAt(p, k, a) && PrintedAt(p, k + |a|, b)
    ensures 0 < |a| ==> p[k] == a[0]
  {
    var t := p[k..k + |a + b|];
    assert p[k..k + |a|] == t[..|a|] == a;
    assert p[k + |a|..k + |a| + |b|] == t[|a|..] == b;
    assert 0 < |a| ==> p[k] == t[0];
  }

  lemma SkipBracketExpression(p: Text, k: nat, body: Text)
    requires PrintedAt(p, k, [LBRACKET] + body + [RBRACKET]) && RBRACKET !in body
    ensures k < |p| && p[k] == LBRACKET && Skip(p, k) == k + |body| + 2
  {
    PrintedParts(p, k, [LBRACKET] + body, [RBRACKET]);
    PrintedParts(p, k, [LBRACKET], body);
    assert p[k + 1 + |body|] == RBRACKET;
    forall j | k + 1 <= j < k + 1 + |body|
      ensures p[j] != RBRACKET
    {
      assert p[j] == p[k + 1..k + 1 + |body|][j - k - 1] == body[j - k - 1];
    }
  }

  lemma CharacterParts(p: Text, k: nat, c: PatChar, tail: Word)
    requires PrintedAt(p, k, Print(Chr(c, tail)))
    ensures k < |p| && p[k] == c && PrintedAt(p, k + 1, Print(tail))
  {
    PrintedParts(p, k, [c], Print(tail));
  }

  lemma BracketParts(p: Text, k: nat, body: Text, tail: Word)
    requires PrintedAt(p, k, Print(Bracket(body, tail))) && RBRACKET !in body
    ensures k < |p| && p[k] == LBRACKET && Skip(p, k) == k + |body| + 2 && PrintedAt(p, k + |body| + 2, Print(tail))
  {
    PrintedParts(p, k, [LBRACKET] + body + [RBRACKET], Print(tail));
    SkipBracketExpression(p, k, body);
  }

  lemma PrintLength(w: Word)
    ensures w.End? ==> |Print(w)| == 0
    ensures w.Chr? ==> |Print(w)| == 1 + |Print(w.tail)|
    ensures w.Bracket? ==> |Print(w)| == |w.body| + 2 + |Print(w.tail)|
    ensures w.Group? ==> |Print(w)| == |PrintChoices(w.alternatives)| + 2 + |Print(w.tail)|
  {
  }

  lemma CloseStep(p: Text, pe: nat, i: nat)
    requires pe < |p|
    ensures p[pe] == LBRACE ==> Close(p, pe, i) == Close(p, pe + 1, i + 1)
    ensures p[pe] == RBRACE && i > 0 ==> Close(p, pe, i) == Close(p, pe + 1, i - 1)
    ensures p[pe] !in {LBRACE, RBRACE} ==> Close(p, pe, i) == Close(p, Skip(p, pe), i)
    ensures p[pe] !in {LBRACE, RBRACE, LBRACKET} ==> Close(p, pe, i) == Close(p, pe + 1, i)
  {
  }

  lemma {:induction false} CloseSkipsWord(p: Text, w: Word, k: nat, i: nat)
    requires WellFormed(w) && PrintedAt(p, k, Print(w))
    ensures Close(p, k, i) == Close(p, k + |Print(w)|, i)
    decreases w
  {
    hide Close, PrintedAt, Print, Skip;
    PrintLength(w);
    match w
    case End =>
    case Chr(c, tail) =>
      CharacterParts(p, k, c, tail);
      CloseStep(p, k, i);
      CloseSkipsWord(p, tail, k + 1, i);
    case Bracket(body, tail) =>
      BracketParts(p, k, body, tail);
      CloseStep(p, k, i);
      CloseSkipsWord(p, tail, k + |body| + 2, i);
    case Group(alternatives, tail) =>
      var n := |PrintChoices(alternatives)|;
      GroupParts(p, k, alternatives, tail);
      CloseStep(p, k, i);
      CloseSkipsChoices(p, alternatives, k + 1, i + 1);
      CloseStep(p, k + 1 + n, i + 1);
      CloseSkipsWord(p, tail, k + n + 2, i);
  }

  lemma GroupParts(p: Text, k: nat, cs: Choices, tail: Word)
    requires PrintedAt(p, k, Print(Group(cs, tail)))
    ensures k + |PrintChoices(cs)| + 2 <= |p| && p[k] == LBRACE && p[k + 1 + |PrintChoices(cs)|] == RBRACE
    ensures PrintedAt(p, k + 1, PrintChoices(cs)) && PrintedAt(p, k + |PrintChoices(cs)| + 2, Print(tail))
  {
    PrintedParts(p, k, [LBRACE] + PrintChoices(cs) + [RBRACE], Print(tail));
    PrintedParts(p, k, [LBRACE] + PrintChoices(cs), [RBRACE]);
    PrintedParts(p, k, [LBRACE], PrintChoices(cs));
    PrintedParts(p, k + 1 + |PrintChoices(cs)|, [RBRACE], []);
  }

  lemma ChoiceParts(p: Text, k: nat, w: Word, cs: Choices)
    requires PrintedAt(p, k, PrintChoices(More(w, cs)))
    ensures PrintedAt(p, k, Print(w)) && k + |Print(w)| < |p| && p[k + |Print(w)|] == COMMA
    ensures PrintedAt(p, k + |Print(w)| + 1, PrintChoices(cs))
  {
    PrintedParts(p, k, Print(w) + [COMMA], PrintChoices(cs));
    PrintedParts(p, k, Print(w), [COMMA]);
    PrintedParts(p, k + |Print(w)|, [COMMA], []);
  }

  lemma {:induction false} CloseSkipsChoices(p: Text, cs: Choices, k: nat, i: nat)
    requires WellFormedChoices(cs) && PrintedAt(p, k, PrintChoices(cs))
    ensures Close(p, k, i) == Close(p, k + |PrintChoices(cs)|, i)
    decreases cs
  {
    hide Close, PrintedAt, Print, Skip;
    match cs
    case Last(w) => CloseSkipsWord(p, w, k, i);
    case More(w, tail) =>
      ChoiceParts(p, k, w, tail);
      CloseSkipsWord(p, w, k, i);
      CloseStep(p, k + |Print(w)|, i);
      CloseSkipsChoices(p, tail, k + |Print(w)| + 1, i);
  }

  lemma {:induction false} ScanSkipsWord(p: Text, w: Word, pl: nat, k: nat, pe: nat, i: nat)
    requires WellFormed(w) && PrintedAt(p, k, Print(w)) && pl <= k && k + |Print(w)| <= pe < |p|
    ensures Alternatives(p, pl, k, pe, i) == Alternatives(p, pl, k + |Print(w)|, pe, i)
    decreases w
  {
    hide Alternatives, PrintedAt, Print, Skip;
    PrintLength(w);
    match w
    case End =>
    case Chr(c, tail) =>
      CharacterParts(p, k, c, tail);
      AlternativesStep(p, pl, k, pe, i);
      ScanSkipsWord(p, tail, pl, k + 1, pe, i);
    case Bracket(body, tail) =>
      BracketParts(p, k, body, tail);
      AlternativesStep(p, pl, k, pe, i);
      ScanSkipsWord(p, tail, pl, k + |body| + 2, pe, i);
    case Group(alternatives, tail) =>
      var n := |PrintChoices(alternatives)|;
      GroupParts(p, k, alternatives, tail);
      AlternativesStep(p, pl, k, pe, i);
      ScanSkipsInnerChoices(p, alternatives, pl, k + 1, pe, i + 1);
      AlternativesStep(p, pl, k + 1 + n, pe, i + 1);
      ScanSkipsWord(p, tail, pl, k + n + 2, pe, i);
  }

  lemma {:induction false} ScanSkipsInnerChoices(p: Text, cs: Choices, pl: nat, k: nat, pe: nat, i: nat)
    requires WellFormedChoices(cs) && PrintedAt(p, k, PrintChoices(cs)) && pl <= k
      && k + |PrintChoices(cs)| <= pe < |p| && 0 < i
    ensures Alternatives(p, pl, k, pe, i) == Alternatives(p, pl, k + |PrintChoices(cs)|, pe, i)
    decreases cs
  {
    hide Alternatives, PrintedAt, Print, Skip;
    match cs
    case Last(w) => ScanSkipsWord(p, w, pl, k, pe, i);
    case More(w, tail) =>
      ChoiceParts(p, k, w, tail);
      ScanSkipsWord(p, w, pl, k, pe, i);
      AlternativesStep(p, pl, k + |Print(w)|, pe, i);
      ScanSkipsInnerChoices(p, tail, pl, k + |Print(w)| + 1, pe, i);
  }

  function Printed(cs: Choices): seq<Text> {
    match cs
    case Last(w) => [Print(w)]
    case More(w, tail) => [Print(w)] + Printed(tail)
  }

  lemma {:induction false} ScanFindsChoices(p: Text, cs: Choices, k: nat, pe: nat)
    requires WellFormedChoices(cs) && PrintedAt(p, k, PrintChoices(cs)) && pe == k + |PrintChoices(cs)| < |p|
      && p[pe] == RBRACE
    ensures Alternatives(p, k, k, pe, 0) == Printed(cs)
    decreases cs
  {
    hide Alternatives, PrintedAt, Print;
    match cs
    case Last(w) =>
      ScanSkipsWord(p, w, k, k, pe, 0);
      AlternativesStep(p, k, pe, pe, 0);
      AlternativesStep(p, pe + 1, pe + 1, pe, 0);
      PrintedSlice(p, k, Print(w));
      EmptyPrefix([Print(w)]);
    case More(w, tail) =>
      var comma := k + |Print(w)|;
      ChoiceParts(p, k, w, tail);
      ScanSkipsWord(p, w, k, k, pe, 0);
      AlternativesStep(p, k, comma, pe, 0);
      PrintedSlice(p, k, Print(w));
      ScanFindsChoices(p, tail, comma + 1, pe);
  }

  lemma PrintedSlice(p: Text, k: nat, t: Text)
    requires PrintedAt(p, k, t)
    ensures k + |t| <= |p| && p[k..k + |t|] == t
  {
  }

  // ----- the meaning of expansion

  lemma {:induction false} PrintedAreShort(cs: Choices)
    ensures forall k :: 0 <= k < |Printed(cs)| ==> |Printed(cs)[k]| <= |PrintChoices(cs)|
    decreases cs
  {
    if cs.More? { PrintedAreShort(cs.tail); }
  }

  /** The texts of a word followed by an unbalanced rest, which stays as it is. */
  function DenoteWith(w: Word, rest: Text): seq<Text> {
    Product(Denote(w), [rest])
  }

  /** glob0 is called on exactly the texts the pattern denotes, in order: every word, whatever plain
      characters stand outside its groups, with or without an unbalanced brace after it. */
  lemma {:induction false} ExpandMeansDenote(before: Text, w: Word, rest: Text)
    requires LBRACE !in before && WellFormedTop(w) && Unbalanced(rest)
    ensures Expand(before + (Print(w) + rest)) == Prefixed(before, DenoteWith(w, rest))
    decreases |Print(w)|, 1, Last(w)
  {
    match w
    case End =>
      EmptyPrefix(rest);
      ProductOfOne([], [rest]);
      PrefixedEmpty([rest]);
      ExpandUnbalanced(before, rest);
    case Chr(c, tail) =>
      ExpandMeansDenote(before + [c], tail, rest);
      Regroup([c], Print(tail), rest);
      Regroup(before, [c], Print(tail) + rest);
      PrefixedTwice(before, [c], DenoteWith(tail, rest));
      ProductPrefixed([c], Denote(tail), [rest]);
    case Bracket(body, tail) =>
      var t := [LBRACKET] + body + [RBRACKET];
      ExpandMeansDenote(before + t, tail, rest);
      Regroup(t, Print(tail), rest);
      Regroup(before, t, Print(tail) + rest);
      PrefixedTwice(before, t, DenoteWith(tail, rest));
      ProductPrefixed(t, Denote(tail), [rest]);
    case Group(alternatives, tail) =>
      PrintLength(w);
      ExpandGroup(before, alternatives, tail, rest);
      ExpandChoices(before, alternatives, tail, rest, |before| + |Print(w)| + |rest|);
      ProductIsAssociative(DenoteChoices(alternatives), Denote(tail), [rest]);
  }

  lemma ExpandOnce(p: Text, ptr: nat, pe: nat)
    requires ptr < pe <= |p| && IndexOf(p, LBRACE, 0) == ptr && Close(p, ptr + 1, 0) == pe
    ensures pe == |p| ==> Expand(p) == [p]
    ensures pe < |p| ==>
      Expand(p) == ExpandEach(p[..ptr], Alternatives(p, ptr + 1, ptr + 1, pe, 0), p[pe + 1..], |p|)
  {
    hide Close, Alternatives, ExpandEach, IndexOf;
  }

  /** One step of expansion on a printed group. */
  lemma ExpandGroup(before: Text, alternatives: Choices, tail: Word, rest: Text)
    requires LBRACE !in before && WellFormedChoices(alternatives)
    ensures var w, after := Group(alternatives, tail), Print(tail) + rest;
      && (forall k :: 0 <= k < |Printed(alternatives)| ==>
            |before| + |Printed(alternatives)[k]| + |after| < |before| + |Print(w)| + |rest|)
      && Expand(before + (Print(w) + rest))
        == ExpandEach(before, Printed(alternatives), after, |before| + |Print(w)| + |rest|)
  {
    hide Close, Alternatives, Print, Expand, ExpandEach, IndexOf, Printed;
    PrintLength(Group(alternatives, tail));
    PrintedAreShort(alternatives);
    ScanGroup(before, alternatives, tail, rest);
    var p := before + (Print(Group(alternatives, tail)) + rest);
    ExpandOnce(p, |before|, |before| + 1 + |PrintChoices(alternatives)|);
  }

  /** What the scans find on a printed group. */
  lemma ScanGroup(before: Text, alternatives: Choices, tail: Word, rest: Text)
    requires LBRACE !in before && WellFormedChoices(alternatives)
    ensures var p, ptr := before + (Print(Group(alternatives, tail)) + rest), |before|;
      var pe := ptr + 1 + |PrintChoices(alternatives)|;
      && pe < |p| && IndexOf(p, LBRACE, 0) == ptr && Close(p, ptr + 1, 0) == pe
      && Alternatives(p, ptr + 1, ptr + 1, pe, 0) == Printed(alternatives)
      && p[..ptr] == before && p[pe + 1..] == Print(tail) + rest
  {
    hide Close, Alternatives, Print, PrintChoices, PrintedAt, IndexOf, Printed, WellFormedChoices;
    var w := Group(alternatives, tail);
    PrintLength(w);
    var p, ptr := before + (Print(w) + rest), |before|;
    PrintedParts(p, ptr, Print(w), rest);
    GroupParts(p, ptr, alternatives, tail);
    FirstBrace(before, Print(w) + rest);
    var pe := ptr + 1 + |PrintChoices(alternatives)|;
    CloseSkipsChoices(p, alternatives, ptr + 1, 0);
    CloseHere(p, pe);
    ScanFindsChoices(p, alternatives, ptr + 1, pe);
    TailAndRest(p, pe + 1, Print(tail), rest);
  }

  lemma TailAndRest(p: Text, k: nat, t: Text, rest: Text)
    requires PrintedAt(p, k, t) && PrintedAt(p, k + |t|, rest) && k + |t| + |rest| == |p|
    ensures p[k..] == t + rest
  {
    assert p[k..] == p[k..k + |t|] + p[k + |t|..];
  }

  lemma {:induction false} CloseShift(before: Text, t: Text, pe: nat, i: nat)
    requires pe <= |t|
    ensures Close(before + t, |before| + pe, i) == |before| + Close(t, pe, i)
    decreases |t| - pe
  {
    hide Skip;
    var p := before + t;
    if pe < |t| {
      assert p[|before| + pe] == t[pe];
      SkipShift(before, t, pe);
      if t[pe] == LBRACE {
        CloseShift(before, t, pe + 1, i + 1);
      } else if t[pe] == RBRACE {
        if i > 0 { CloseShift(before, t, pe + 1, i - 1); }
      } else {
        CloseShift(before, t, Skip(t, pe), i);
      }
    }
  }

  lemma SkipShift(before: Text, t: Text, k: nat)
    requires k < |t|
    ensures Skip(before + t, |before| + k) == |before| + Skip(t, k)
  {
    IndexShift(before, t, RBRACKET, k + 1);
  }

  lemma ExpandUnbalanced(before: Text, rest: Text)
    requires LBRACE !in before && Unbalanced(rest)
    ensures Expand(before + rest) == [before + rest]
  {
    hide Close;
    var p := before + rest;
    if rest == [] {
      assert p == before;
    } else {
      FirstBrace(before, rest);
      CloseShift(before, rest, 1, 0);
    }
  }

  lemma NothingToExpand(p: Text)
    requires IndexOf(p, LBRACE, 0) == |p|
    ensures Expand(p) == [p]
  {
  }

  /** Expansion leaves a pattern alone exactly when it has no '{', wherever it stands, or nothing
      balances the first one. */
  lemma ExpandIsIdentity(p: Text)
    ensures var ptr := IndexOf(p, LBRACE, 0);
      Expand(p) == [p] <==> ptr == |p| || Close(p, ptr + 1, 0) == |p|
  {
    hide Close, Alternatives, Expand, ExpandEach;
    var ptr := IndexOf(p, LBRACE, 0);
    if ptr == |p| {
      NothingToExpand(p);
    } else {
      var pe := Close(p, ptr + 1, 0);
      ExpandOnce(p, ptr, pe);
      if pe < |p| {
        ExpandEachIsShort(p[..ptr], Alternatives(p, ptr + 1, ptr + 1, pe, 0), p[pe + 1..], |p|);
        assert p in [p];
      }
    }
  }

  lemma {:induction false} ExpandEachIsShort(before: Text, alternatives: seq<Text>, after: Text, bound: nat)
    requires forall k :: 0 <= k < |alternatives| ==> |before| + |alternatives[k]| + |after| < bound
    ensures forall t <- ExpandEach(before, alternatives, after, bound) :: |t| < bound
    decreases bound, 2, |alternatives|
  {
    if 0 < |alternatives| {
      ExpandIsNoLonger(before + alternatives[0] + after);
      ExpandEachIsShort(before, alternatives[1..], after, bound);
    }
  }

  lemma {:induction false} ExpandIsNoLonger(p: Text)
    ensures forall t <- Expand(p) :: |t| <= |p|
    decreases |p|, 3
  {
    var ptr := IndexOf(p, LBRACE, 0);
    if ptr < |p| {
      var pe := Close(p, ptr + 1, 0);
      if pe < |p| {
        ExpandEachIsShort(p[..ptr], Alternatives(p, ptr + 1, ptr + 1, pe, 0), p[pe + 1..], |p|);
      }
    }
  }

  /** A '{' inside a bracket is not safe: it is expanded, against what the bracket means, exactly when
      some '}' balances it. */
  lemma BracketBraceIsExpanded(before: Text, body: Text, after: Text)
    requires LBRACE !in before && LBRACE in body
    ensures var p := before + [LBRACKET] + body + [RBRACKET] + after;
      var k := |before| + 1 + IndexOf(body, LBRACE, 0);
      && k < |p| && p[k] == LBRACE
      && (Expand(p) == [p] <==> Close(p, k + 1, 0) == |p|)
  {
    hide Expand, Close, IndexOf;
    var p := before + [LBRACKET] + body + [RBRACKET] + after;
    var j := IndexOf(body, LBRACE, 0);
    var front, back := before + [LBRACKET] + body[..j], body[j..] + [RBRACKET] + after;
    assert p == front + back;
    FirstBrace(front, back);
    ExpandIsIdentity(p);
  }

  /** The pattern {a,b}c in characters. */
  lemma BracesWitness()
    ensures var a, b, c := PatChar('a', false), PatChar('b', false), PatChar('c', false);
      Expand([PatChar('{', false), a, PatChar(',', false), b, PatChar('}', false), c]) == [[a, c], [b, c]]
  {
    hide Expand;
    var a, b, c := PatChar('a', false), PatChar('b', false), PatChar('c', false);
    var x, y, z := Chr(a, End), Chr(b, End), Chr(c, End);
    var w := Group(More(x, Last(y)), z);
    var p := [PatChar('{', false), a, PatChar(',', false), b, PatChar('}', false), c];
    assert Print(x) == [a] && Print(y) == [b] && Print(z) == [c];
    assert PrintChoices(w.alternatives) == [a] + [COMMA] + [b];
    assert Print(w) == p;
    EmptyPrefix(p);
    assert [a] + [] == [a] && [b] + [] == [b] && [c] + [] == [c];
    assert Denote(x) == [[a]] && Denote(y) == [[b]] && Denote(z) == [[c]];
    assert DenoteChoices(w.alternatives) == [[a], [b]];
    TwoByOne([a], [b], [c]);
    assert [a] + [c] == [a, c] && [b] + [c] == [b, c];
    TwoByOne([a, c], [b, c], []);
    EmptyPrefix([a, c]);
    EmptyPrefix([b, c]);
    PrefixedEmpty([[a, c], [b, c]]);
    ExpandMeansDenote([], w, []);
  }

  lemma TwoByOne(a: Text, b: Text, c: Text)
    ensures Product([a, b], [c]) == [a + c, b + c]
  {
    assert [a, b][1..] == [b] && [b][1..] == [];
    assert Prefixed(a, [c]) == [a + c] && Prefixed(b, [c]) == [b + c];
    assert Product([b], [c]) == [b + c] + [];
  }

  /** A pattern that loses its bracket: [{]a} becomes []a. */
  lemma BracketBraceWitness()
    ensures var a := PatChar('a', false);
      Expand([LBRACKET, LBRACE, RBRACKET, a, RBRACE]) == [[LBRACKET, RBRACKET, a]]
  {
    var a := PatChar('a', false);
    var p := [LBRACKET, LBRACE, RBRACKET, a, RBRACE];
    assert IndexOf(p, LBRACE, 0) == 1;
    assert Skip(p, 2) == 3 && Skip(p, 3) == 4;
    assert Close(p, 4, 0) == 4 == Close(p, 3, 0);
    assert Close(p, 2, 0) == 4;
    var t := [LBRACKET, RBRACKET, a];
    assert p[..1] == [LBRACKET] && p[2..4] == [RBRACKET, a] && p[5..] == [];
    assert Alternatives(p, 5, 5, 4, 0) == [];
    assert Alternatives(p, 2, 4, 4, 0) == [p[2..4]] + [];
    assert Alternatives(p, 2, 3, 4, 0) == Alternatives(p, 2, 4, 4, 0);
    assert Alternatives(p, 2, 2, 4, 0) == [[RBRACKET, a]];
    assert [LBRACKET] + [RBRACKET, a] + [] == t;
    assert IndexOf(t, LBRACE, 0) == 3;
    ExpandEachStep([LBRACKET], [RBRACKET, a], [], [], 5);
    assert [[RBRACKET, a]] + [] == [[RBRACKET, a]];
  }

  lemma CloseHere(p: Text, pe: nat)
    requires pe < |p| && p[pe] == RBRACE
    ensures Close(p, pe, 0) == pe
  {
  }

  lemma FirstBrace(before: Text, t: Text)
    requires LBRACE !in before && 0 < |t| && (before + t)[|before|] == LBRACE
    ensures IndexOf(before + t, LBRACE, 0) == |before|
  {
    var p := before + t;
    assert forall i :: 0 <= i < |before| ==> p[i] == before[i];
  }

  lemma {:induction false} ExpandChoices(before: Text, cs: Choices, tail: Word, rest: Text, bound: nat)
    requires LBRACE !in before && WellFormedChoices(cs) && WellFormedTop(tail) && Unbalanced(rest)
    requires forall k :: 0 <= k < |Printed(cs)| ==> |before| + |Printed(cs)[k]| + |Print(tail) + rest| < bound
    ensures ExpandEach(before, Printed(cs), Print(tail) + rest, bound)
      == Prefixed(before, Product(DenoteChoices(cs), DenoteWith(tail, rest)))
    decreases |PrintChoices(cs)| + |Print(tail)| + 1, 0, cs
  {
    hide ExpandEach, Expand, Print, Product, Denote, Unbalanced;
    var w, after := cs.w, Print(tail) + rest;
    assert Printed(cs)[0] == Print(w);
    PrintAppend(w, tail);
    AppendIsWellFormedTop(w, tail);
    ExpandMeansDenote(before, Append(w, tail), rest);
    DenoteAppend(w, tail);
    ProductIsAssociative(Denote(w), Denote(tail), [rest]);
    Regroup(Print(w), Print(tail), rest);
    Regroup(before, Print(w), after);
    match cs
    case Last(_) =>
      ExpandEachStep(before, Print(w), [], after, bound);
      EmptyPrefix([Print(w)]);
      ExpandNothing(before, after, bound);
      EmptyPrefix(Expand(before + Print(w) + after));
    case More(_, others) =>
      assert forall k :: 0 <= k < |Printed(others)| ==> Printed(others)[k] == Printed(cs)[k + 1];
      ExpandChoices(before, others, tail, rest, bound);
      ExpandEachStep(before, Print(w), Printed(others), after, bound);
      ProductConcat(Denote(w), DenoteChoices(others), DenoteWith(tail, rest));
      PrefixedConcat(before, Product(Denote(w), DenoteWith(tail, rest)),
        Product(DenoteChoices(others), DenoteWith(tail, rest)));
  }

  lemma ExpandNothing(before: Text, after: Text, bound: nat)
    ensures ExpandEach(before, [], after, bound) == []
  {
  }

  lemma {:induction false} ProductWithNothing(ts: seq<Text>)
    ensures Product(ts, [[]]) == ts
    decreases |ts|
  {
    if 0 < |ts| {
      ProductWithNothing(ts[1..]);
      EmptyPrefix(ts[0]);
    }
  }

  /** The entry point, on any pattern: one that is exactly "{}" is left alone, any other is expanded
      until glob0 fails. On a printed word these are the texts the word denotes. */
  method GlobExp0(pattern: Text, glob0: Text -> int) returns (calls: seq<Text>, rv: int)
    ensures (calls, rv) == Run(if pattern == [LBRACE, RBRACE] then [pattern] else Expand(pattern), glob0)
    ensures pattern != [LBRACE, RBRACE] ==>
      forall w: Word :: WellFormedTop(w) && pattern == Print(w) ==> (calls, rv) == Run(Denote(w), glob0)
    ensures pattern != [LBRACE, RBRACE] ==>
      forall w: Word, rest: Text :: WellFormedTop(w) && Unbalanced(rest) && pattern == Print(w) + rest ==>
        (calls, rv) == Run(DenoteWith(w, rest), glob0)
  {
    hide Run, Expand, Denote, Print;
    if |pattern| == 2 && pattern[0] == LBRACE && pattern[1] == RBRACE {
      RunOne(pattern, glob0);
      rv := glob0(pattern);
      return [pattern], rv;
    }
    calls, rv := GlobExp1(pattern, glob0);
    forall w: Word, rest: Text | WellFormedTop(w) && Unbalanced(rest) && pattern == Print(w) + rest
      ensures Expand(pattern) == DenoteWith(w, rest)
    {
      ExpandMeansDenote([], w, rest);
      EmptyPrefix(pattern);
      PrefixedEmpty(DenoteWith(w, rest));
    }
    forall w: Word | WellFormedTop(w) && pattern == Print(w) ensures Expand(pattern) == Denote(w) {
      EmptyPrefix(Print(w));
      assert Unbalanced([]);
      ProductWithNothing(Denote(w));
      assert Expand(pattern) == DenoteWith(w, []);
    }
  }
}
