/** glob.c: match, which backtracks only to the latest star. */
module GlobMatch {
  import opened GlobPattern
  import opened GlobText

  /** Names are NUL-terminated: reading at the end gives EOS. */
  function CharAt(name: string, i: nat): char
    requires i <= |name|
  {
    if i < |name| then name[i] else EOS
  }

  ghost predicate IsName(name: string) {
    forall i :: 0 <= i < |name| ==> name[i] != EOS
  }

  ghost predicate NoEos(es: seq<Elem>) {
    forall i :: 0 <= i < |es| ==> es[i] != Lit(EOS)
  }

  // ----- facts about the language

  ghost predicate AllSingle(es: seq<Elem>, from: nat, to: nat) {
    forall i :: from <= i < to && i < |es| ==> !es[i].Many?
  }

  /** A run of one-character elements consumes one character each. */
  lemma {:induction false} SinglesConsume(es: seq<Elem>, s: string, n: nat)
    requires n <= |es| && AllSingle(es, 0, n) && Matches(es, s)
    ensures n <= |s| && Matches(es[n..], s[n..])
    decreases n
  {
    if n == 0 {
      assert es[0..] == es && s[0..] == s;
    } else {
      SinglesConsume(es[1..], s[1..], n - 1);
      assert es[1..][n - 1..] == es[n..] && s[1..][n - 1..] == s[n..];
    }
  }

  /** A leading star gives the next element a choice: here, or one character later. */
  lemma StarUnfolds(es: seq<Elem>, s: string)
    requires 0 < |es| && es[0].Many?
    ensures Matches(es, s) <==> Matches(es[1..], s) || (0 < |s| && Matches(es, s[1..]))
  {
    if Matches(es, s) {
      var k :| 0 <= k <= |s| && Matches(es[1..], s[k..]);
      if k == 0 {
        assert s[0..] == s;
      } else {
        assert s[1..][k - 1..] == s[k..];
      }
    }
    if Matches(es[1..], s) {
      assert s[0..] == s;
    }
    if 0 < |s| && Matches(es, s[1..]) {
      var k :| 0 <= k <= |s[1..]| && Matches(es[1..], s[1..][k..]);
      assert s[1..][k..] == s[k + 1..];
    }
  }

  /** A star that matches a later suffix matches every earlier one. */
  lemma StarAbsorbs(es: seq<Elem>, s: string, j: nat)
    requires 0 < |es| && es[0].Many? && j <= |s| && Matches(es, s[j..])
    ensures Matches(es, s)
  {
    var k :| 0 <= k <= |s[j..]| && Matches(es[1..], s[j..][k..]);
    assert s[j..][k..] == s[j + k..];
  }

  /** Once a second star is reached, giving the first star more characters gains nothing: this is
      why only the latest star has to be remembered. */
  lemma EarlierStarIsRedundant(es: seq<Elem>, name: string, star: nat, e: nat, n: nat, retry: nat)
    requires star < e < |es| && es[star].Many? && es[e].Many? && AllSingle(es, star + 1, e)
    requires retry <= |name| && n <= |name| && n + star + 2 == retry + e
    requires Matches(es[star..], name[retry..])
    ensures Matches(es[e..], name[n..])
  {
    var t, s := es[star + 1..], name[retry..];
    assert es[star..][1..] == t;
    var k :| 0 <= k <= |s| && Matches(t, s[k..]);
    var len := e - star - 1;
    SinglesConsume(t, s[k..], len);
    assert t[len..] == es[e..];
    assert s[k..][len..] == name[n..][k + 1..];
    StarAbsorbs(es[e..], name[n..], k + 1);
  }

  lemma NothingLeftToMatch(es: seq<Elem>)
    requires 1 < |es| && es[0].Many? && !es[1].Many?
    ensures !Matches(es, "")
  {
  }

  // ----- the token buffer seen from an element

  /** The tokens still to be read inside a set. */
  function SetTail(items: seq<Item>, rest: seq<Token>): seq<Token> {
    FlattenItems(items) + [M_END] + rest
  }

  lemma SetTailStep(items: seq<Item>, rest: seq<Token>)
    ensures items == [] ==> SetTail(items, rest) == [M_END] + rest
    ensures items != [] ==> SetTail(items, rest) == FlattenItem(items[0]) + SetTail(items[1..], rest)
    ensures 0 < |SetTail(items, rest)| && (SetTail(items, rest)[0] == M_END <==> items == [])
      && (items != [] ==> SetTail(items, rest)[0].Char?)
  {
  }

  lemma FlattenStep(es: seq<Elem>)
    requires 0 < |es|
    ensures Flatten(es) == FlattenElem(es[0]) + Flatten(es[1..])
    ensures es[0].Set? ==>
      Flatten(es) == (if es[0].negate then [M_SET, M_NOT] else [M_SET]) + SetTail(es[0].items, Flatten(es[1..]))
  {
  }

  // ----- the matcher

  /** The M_SET case after the character has been read: scans the items up to M_END. */
  method MatchSet(pat: seq<Token>, start: nat, k: char, ghost negate: bool, ghost items: seq<Item>,
      ghost rest: seq<Token>)
      returns (ok: bool, negateRange: bool, p: nat)
    requires start <= |pat|
    requires negate ==> start < |pat| && pat[start] == M_NOT && pat[start + 1..] == SetTail(items, rest)
    requires !negate ==> pat[start..] == SetTail(items, rest)
    ensures negateRange == negate && ok == InItems(items, k)
    ensures start < p <= |pat| && pat[p..] == rest
  {
    hide SetTail, InItems;
    ok := false;
    p := start;
    NoItemsIn(k);
    if !negate { NextItem(pat, p, items, rest); }
    negateRange := pat[p] == M_NOT;
    if negateRange { p := p + 1; }
    ghost var left := items;
    NextItem(pat, p, left, rest);
    while pat[p] != M_END
      invariant start <= p < |pat| && pat[p..] == SetTail(left, rest)
      invariant InItems(items, k) <==> ok || InItems(left, k)
      decreases |left|
    {
      NextItem(pat, p, left, rest);
      InItemsStep(left, k);
      var c := pat[p];
      p := p + 1;
      if pat[p] == M_RNG {
        if c.c <= k && k <= pat[p + 1].c { ok := true; }
        p := p + 2;
      } else if c == Char(k) {
        ok := true;
      }
      left := left[1..];
    }
    NextItem(pat, p, left, rest);
    p := p + 1;
  }

  /** What the tokens at p say about the next item of a set. */
  lemma NextItem(pat: seq<Token>, p: nat, left: seq<Item>, rest: seq<Token>)
    requires p <= |pat| && pat[p..] == SetTail(left, rest)
    ensures p < |pat| && (pat[p] == M_END <==> left == [])
    ensures left == [] ==> pat[p + 1..] == rest
    ensures left != [] ==> pat[p].Char? && p + 1 < |pat| && (pat[p + 1] == M_RNG <==> left[0].Range?)
    ensures left != [] && left[0].Single? ==> left[0] == Single(pat[p].c) && pat[p + 1..] == SetTail(left[1..], rest)
    ensures left != [] && left[0].Range? ==>
      p + 3 < |pat| && pat[p + 2].Char? && left[0] == Range(pat[p].c, pat[p + 2].c)
        && pat[p + 3..] == SetTail(left[1..], rest)
  {
    hide SetTail;
    SetTailStep(left, rest);
    if left == [] {
      Front(pat, p, [M_END], rest);
    } else {
      SetTailStep(left[1..], rest);
      Front(pat, p, FlattenItem(left[0]), SetTail(left[1..], rest));
    }
  }

  lemma NoItemsIn(k: char)
    ensures !InItems([], k)
  {
  }

  /** What is read from position p on when the buffer continues with a, then b. */
  lemma Front(pat: seq<Token>, p: nat, a: seq<Token>, b: seq<Token>)
    requires p <= |pat| && pat[p..] == a + b
    ensures p + |a| <= |pat| && pat[p + |a|..] == b
    ensures 0 < |a| ==> pat[p] == a[0]
    ensures 2 < |a| ==> pat[p + 1] == a[1] && pat[p + 2] == a[2]
    ensures 0 < |b| ==> p + |a| < |pat| && pat[p + |a|] == b[0]
  {
    assert 0 < |a| ==> pat[p] == pat[p..][0];
    assert 2 < |a| ==> pat[p + 1] == pat[p..][1] && pat[p + 2] == pat[p..][2];
    assert pat[p..][|a|..] == pat[p + |a|..];
  }

  lemma InItemsStep(items: seq<Item>, k: char)
    requires 0 < |items|
    ensures InItems(items, k) <==> InItem(items[0], k) || InItems(items[1..], k)
  {
    if InItems(items, k) {
      var i :| 0 <= i < |items| && InItem(items[i], k);
      if i > 0 { assert items[1..][i - 1] == items[i]; }
    }
  }

  // ----- the state of match, read against the elements

  /** (nextp, nextn) point at star `star` and one character past where it was last tried. */
  ghost predicate Saved(es: seq<Elem>, pat: seq<Token>, name: string, nextp: int, nextn: int, star: nat, e: nat,
      n: nat) {
    && star <= e <= |es| && star < |es| && es[star].Many?
    && 0 <= nextp < |pat| && pat[nextp..] == Flatten(es[star..])
    && 0 < nextn <= |name|
    && (e == star ==> n == nextn)
    && (e > star ==> n + star + 2 == nextn + e && AllSingle(es, star + 1, e))
  }

  /** The whole match is still open exactly through the current position or the saved one;
      nextn is -1 for the null pointer. */
  ghost predicate State(es: seq<Elem>, pat: seq<Token>, name: string, p: int, n: int, nextp: int, nextn: int, e: nat,
      star: nat) {
    && 0 <= p <= |pat| && e <= |es| && pat[p..] == Flatten(es[e..]) && 0 <= n <= |name|
    && (nextn == -1 || Saved(es, pat, name, nextp, nextn, star, e, n))
    && (Matches(es, name) <==> Matches(es[e..], name[n..]) || (nextn != -1 && Matches(es[star..], name[nextn..])))
  }

  lemma AtStar(es: seq<Elem>, pat: seq<Token>, name: string, p: int, n: int, nextp: int, nextn: int, e: nat, star: nat)
    requires State(es, pat, name, p, n, nextp, nextn, e, star) && NoAdjacentStars(es) && e < |es| && es[e].Many?
    ensures p + 1 <= |pat| && pat[p] == M_ALL && (p + 1 == |pat| <==> e + 1 == |es|)
    ensures nextn != -1 ==> (e == star ==> n == nextn) && star <= e && nextn <= n + 1
    ensures p + 1 == |pat| ==> Matches(es, name)
    ensures p + 1 < |pat| && n == |name| ==> !Matches(es, name)
    ensures p + 1 < |pat| && n < |name| ==> State(es, pat, name, p + 1, n, p, n + 1, e + 1, e)
  {
    FlattenStep(es[e..]);
    assert es[e..][1..] == es[e + 1..] && pat[p..][1..] == pat[p + 1..];
    assert pat[p] == pat[p..][0];
    if nextn != -1 && e > star && Matches(es[star..], name[nextn..]) {
      EarlierStarIsRedundant(es, name, star, e, n, nextn);
    }
    StarUnfolds(es[e..], name[n..]);
    if e + 1 == |es| {
      assert Matches(es[e..][1..], name[n..][|name| - n..]);
    } else {
      FlattenStep(es[e + 1..]);
      if n == |name| {
        assert name[n..] == "";
        NothingLeftToMatch(es[e..]);
      } else {
        assert name[n..][1..] == name[n + 1..];
      }
    }
  }

  lemma AtSingle(es: seq<Elem>, pat: seq<Token>, name: string, p: int, n: int, nextp: int, nextn: int, e: nat,
      star: nat, p': int)
    requires State(es, pat, name, p, n, nextp, nextn, e, star) && e < |es| && !es[e].Many?
    requires 0 <= p' <= |pat| && pat[p'..] == Flatten(es[e + 1..]) && n < |name| && Accepts(es[e], name[n])
    ensures State(es, pat, name, p', n + 1, nextp, nextn, e + 1, star)
    ensures nextn != -1 ==> star < e
  {
    assert es[e..][1..] == es[e + 1..] && name[n..][1..] == name[n + 1..];
  }

  lemma AtMismatch(es: seq<Elem>, name: string, n: nat, e: nat)
    requires e < |es| && !es[e].Many? && n <= |name| && !(n < |name| && Accepts(es[e], name[n]))
    ensures !Matches(es[e..], name[n..])
  {
  }

  lemma AtFail(es: seq<Elem>, pat: seq<Token>, name: string, p: int, n: int, nextp: int, nextn: int, e: nat, star: nat)
    requires State(es, pat, name, p, n, nextp, nextn, e, star) && !Matches(es[e..], name[n..])
    requires e < |es| ==> !es[e].Many?
    ensures nextn == -1 ==> !Matches(es, name)
    ensures nextn != -1 ==> e > star && State(es, pat, name, nextp, nextn, nextp, nextn, star, star)
  {
  }

  lemma AtToken(es: seq<Elem>, pat: seq<Token>, name: string, p: int, n: int, nextp: int, nextn: int, e: nat, star: nat)
    requires State(es, pat, name, p, n, nextp, nextn, e, star)
    ensures p == |pat| <==> e == |es|
    ensures e == |es| ==> (Matches(es[e..], name[n..]) <==> n == |name|)
    ensures e == |es| && n == |name| ==> Matches(es, name)
    ensures e < |es| ==> (pat[p] == M_ALL <==> es[e].Many?) && pat[p..] == Flatten([es[e]] + es[e + 1..])
  {
    if e < |es| {
      FlattenStep(es[e..]);
      assert es[e..] == [es[e]] + es[e + 1..];
      assert pat[p] == pat[p..][0];
    }
  }

  /** One token group other than a star: reads one character of the name. */
  method MatchOne(name: string, n: nat, pat: seq<Token>, p: nat, ghost e: Elem, ghost rest: seq<Elem>)
      returns (ok: bool, p': nat)
    requires IsName(name) && n <= |name| && p <= |pat| && pat[p..] == Flatten([e] + rest) && !e.Many? && e != Lit(EOS)
    ensures ok <==> n < |name| && Accepts(e, name[n])
    ensures ok ==> p < p' <= |pat| && pat[p'..] == Flatten(rest)
  {
    hide SetTail, Flatten;
    FlattenStep([e] + rest);
    assert ([e] + rest)[1..] == rest;
    if e.Set? {
      Front(pat, p, if e.negate then [M_SET, M_NOT] else [M_SET], SetTail(e.items, Flatten(rest)));
      assert e.negate ==> pat[p + 1] == pat[p..][1];
    } else {
      Front(pat, p, FlattenElem(e), Flatten(rest));
    }
    var c := pat[p];
    assert c == pat[p..][0];
    p' := p + 1;
    var k := CharAt(name, n);
    if c == M_ONE {
      ok := k != EOS;
    } else if c == M_SET {
      if k == EOS { return false, p'; }
      var within, negateRange;
      within, negateRange, p' := MatchSet(pat, p + 1, k, e.negate, e.items, Flatten(rest));
      ok := within != negateRange;
    } else {
      ok := Char(k) == c;
    }
  }

  /** match is exact: for every segment a pattern compiles to, it accepts the names of the
      segment's language and no others. */
  method Match(name: string, pat: seq<Token>, ghost es: seq<Elem>) returns (matched: bool)
    requires IsName(name) && pat == Flatten(es) && NoAdjacentStars(es) && NoEos(es)
    ensures matched <==> Matches(es, name)
  {
    hide Flatten, FlattenElem, Matches, State;
    var p, n := 0, 0;
    var nextp, nextn := 0, -1;
    ghost var e, star := 0, 0;
    StartState(es, name);
    while true
      invariant 0 <= p <= |pat| && e <= |es| && 0 <= n <= |name| && -1 <= nextn <= |name|
      invariant State(es, pat, name, p, n, nextp, nextn, e, star)
      decreases Retries(name, nextn, e, star)
    {
      ghost var retries := Retries(name, nextn, e, star);
      var failed := false;
      AtToken(es, pat, name, p, n, nextp, nextn, e, star);
      while p < |pat| && !failed
        invariant 0 <= p <= |pat| && e <= |es| && 0 <= n <= |name| && -1 <= nextn <= |name|
        invariant State(es, pat, name, p, n, nextp, nextn, e, star)
        invariant p == |pat| <==> e == |es|
        invariant failed ==> e < |es| && !es[e].Many? && !Matches(es[e..], name[n..])
        invariant Retries(name, nextn, e, star) <= retries
        decreases |es| - e, !failed
      {
        AtToken(es, pat, name, p, n, nextp, nextn, e, star);
        if pat[p] == M_ALL {
          AtStar(es, pat, name, p, n, nextp, nextn, e, star);
          if p + 1 == |pat| { return true; }
          if CharAt(name, n) == EOS { return false; }
          nextn := n + 1;
          nextp := p;
          p, e, star := p + 1, e + 1, e;
        } else {
          var ok, p' := MatchOne(name, n, pat, p, es[e], es[e + 1..]);
          if ok {
            AtSingle(es, pat, name, p, n, nextp, nextn, e, star, p');
            p, n, e := p', n + 1, e + 1;
          } else {
            AtMismatch(es, name, n, e);
            failed := true;
          }
        }
        if !failed { AtToken(es, pat, name, p, n, nextp, nextn, e, star); }
      }
      AtToken(es, pat, name, p, n, nextp, nextn, e, star);
      if !failed && CharAt(name, n) == EOS { return true; }
      AtFail(es, pat, name, p, n, nextp, nextn, e, star);
      if nextn == -1 { return false; }
      p, n, e := nextp, nextn, star;
    }
  }

  /** Names left to retry: falls with every backtrack. */
  ghost function Retries(name: string, nextn: int, e: nat, star: nat): int {
    if nextn == -1 then |name| + 2 else |name| - nextn + (if e == star then 0 else 1)
  }

  lemma StartState(es: seq<Elem>, name: string)
    ensures State(es, Flatten(es), name, 0, 0, 0, -1, 0, 0)
  {
    assert Flatten(es)[0..] == Flatten(es) && es[0..] == es && name[0..] == name;
  }

  // ----- compile, then match

  lemma {:induction false} ParseHasNoEos(p: seq<PatChar>)
    requires forall i :: 0 <= i < |p| ==> p[i].c != EOS
    ensures NoEos(Parse(p))
    decreases |p|
  {
    if 0 < |p| {
      if OpensSet(p) {
        var s := if p[1] == NOT then p[2..] else p[1..];
        ParseHasNoEos(ParseItems(s).1);
      } else {
        ParseHasNoEos(p[1..]);
      }
    }
  }

  lemma {:induction false} CollapseKeepsNoEos(es: seq<Elem>)
    requires NoEos(es)
    ensures NoEos(Collapse(es))
    decreases |es|
  {
    if 0 < |es| {
      assert NoEos(es[..|es| - 1]);
      CollapseKeepsNoEos(es[..|es| - 1]);
    }
  }

  /** Any run of elements of a compiled pattern is a segment match can be trusted with. */
  lemma SegmentsAreMatchable(p: seq<PatChar>, i: nat, j: nat)
    requires (forall k :: 0 <= k < |p| ==> p[k].c != EOS) && i <= j <= |Compile(p)|
    ensures NoAdjacentStars(Compile(p)[i..j]) && NoEos(Compile(p)[i..j])
  {
    CollapseLeavesNoAdjacentStars(Parse(p));
    ParseHasNoEos(p);
    CollapseKeepsNoEos(Parse(p));
    var es := Compile(p);
    assert forall k :: 0 <= k < j - i ==> es[i..j][k] == es[i + k];
  }

  /** Compiling a pattern of one segment and matching a name with it decides the language of the
      pattern as written, adjacent stars included. */
  method MatchPattern(p: seq<PatChar>, name: string) returns (matched: bool)
    requires (forall k :: 0 <= k < |p| ==> p[k].c != EOS) && IsName(name)
    ensures matched <==> Matches(Parse(p), name)
    ensures IsPlain(p) ==> (matched <==> name == Characters(p))
    ensures forall es | ArePieces(es) && Print(es) == p :: matched <==> Spells(es, name)
  {
    hide Matches, Parse, Spells, Print, IsPlain, Characters, IsPiece;
    var patbuf := Glob0(p);
    ghost var es := Compile(p);
    SegmentsAreMatchable(p, 0, |es|);
    assert es[0..|es|] == es;
    matched := Match(name, patbuf, es);
    CollapseKeepsLanguage(Parse(p), name);
    if IsPlain(p) { PlainMatchesItself(p, name); }
    forall pieces | ArePieces(pieces) && Print(pieces) == p ensures matched <==> Spells(pieces, name) {
      PrintedMeansSpelled(pieces, name);
    }
  }
}
