/** glob.c: compiling a pattern to a token buffer (glob0) and its declarative language. */
module GlobPattern {

  /** A pattern character; `protect` is the M_PROTECT bit left by a backslash. Pattern and name
      characters are never EOS. */
  datatype PatChar = PatChar(c: char, protect: bool)

  const EOS := '\0'
  const LBRACKET := PatChar('[', false)
  const RBRACKET := PatChar(']', false)
  const NOT := PatChar('!', false)
  const RANGE := PatChar('-', false)
  const QUESTION := PatChar('?', false)
  const STAR := PatChar('*', false)

  /** One Char of the compiled buffer: CHAR(c), or one of the META values. */
  datatype Token = Char(c: char) | M_ALL | M_ONE | M_SET | M_NOT | M_RNG | M_END

  // ----- the language

  datatype Item = Single(c: char) | Range(lo: char, hi: char)

  datatype Elem = Lit(c: char) | One | Many | Set(negate: bool, items: seq<Item>)

  predicate InItem(i: Item, k: char) {
    match i
    case Single(c) => c == k
    case Range(lo, hi) => lo <= k <= hi
  }

  predicate InItems(items: seq<Item>, k: char) {
    exists i :: 0 <= i < |items| && InItem(items[i], k)
  }

  /** Elements other than `Many` match exactly one character. */
  predicate Accepts(e: Elem, k: char)
    requires !e.Many?
  {
    match e
    case Lit(c) => c == k
    case One => true
    case Set(negate, items) => InItems(items, k) != negate
  }

  ghost predicate Matches(es: seq<Elem>, s: string)
    decreases |es|
  {
    if |es| == 0 then |s| == 0
    else if es[0].Many? then exists k :: 0 <= k <= |s| && Matches(es[1..], s[k..])
    else 0 < |s| && Accepts(es[0], s[0]) && Matches(es[1..], s[1..])
  }

  // ----- the parse of a pattern

  /** Reads the items of a set up to its closing bracket; the first character is always an item. */
  function ParseItems(p: seq<PatChar>): (r: (seq<Item>, seq<PatChar>))
    requires 0 < |p| && RBRACKET in p[1..]
    ensures |r.1| < |p| && r.1 == p[|p| - |r.1|..] && 0 < |r.0|
    decreases |p|
  {
    var range := p[1] == RANGE && p[2] != RBRACKET;
    var item := if range then Range(p[0].c, p[2].c) else Single(p[0].c);
    var t := if range then p[3..] else p[1..];
    assert RBRACKET in t by {
      var i :| 0 <= i < |p[1..]| && p[1..][i] == RBRACKET;
      assert range ==> 2 <= i && t[i - 2] == RBRACKET;
      assert !range ==> t[i] == RBRACKET;
    }
    if t[0] == RBRACKET then ([item], t[1..])
    else
      assert RBRACKET in t[1..] by {
        var i :| 0 <= i < |t| && t[i] == RBRACKET;
        assert t[1..][i - 1] == RBRACKET;
      }
      var rest := ParseItems(t);
      ([item] + rest.0, rest.1)
  }

  /** A '[' opens a set only if a ']' follows its first item. */
  predicate OpensSet(p: seq<PatChar>)
    requires 0 < |p|
  {
    var q := if 1 < |p| && p[1] == NOT then 2 else 1;
    p[0] == LBRACKET && q < |p| && RBRACKET in p[q + 1..]
  }

  /** The elements a pattern is made of, stars not collapsed. */
  function Parse(p: seq<PatChar>): (es: seq<Elem>)
    decreases |p|
  {
    if |p| == 0 then []
    else if OpensSet(p) then
      var negate := p[1] == NOT;
      var s := if negate then p[2..] else p[1..];
      assert s[1..] == if negate then p[3..] else p[2..];
      var r := ParseItems(s);
      [Set(negate, r.0)] + Parse(r.1)
    else [SimpleElem(p[0])] + Parse(p[1..])
  }

  /** Drops every star that follows a star. */
  function Collapse(es: seq<Elem>): (r: seq<Elem>)
    decreases |es|
  {
    if |es| == 0 then []
    else
      var n := |es| - 1;
      var r := Collapse(es[..n]);
      if es[n].Many? && 0 < |r| && r[|r| - 1].Many? then r else r + [es[n]]
  }

  function Compile(p: seq<PatChar>): seq<Elem> {
    Collapse(Parse(p))
  }

  // ----- the token buffer

  function FlattenItems(items: seq<Item>): seq<Token> {
    if |items| == 0 then []
    else FlattenItem(items[0]) + FlattenItems(items[1..])
  }

  function FlattenItem(item: Item): seq<Token> {
    match item
    case Single(c) => [Char(c)]
    case Range(lo, hi) => [Char(lo), M_RNG, Char(hi)]
  }

  function FlattenElem(e: Elem): (r: seq<Token>)
    ensures 0 < |r|
  {
    match e
    case Lit(c) => [Char(c)]
    case One => [M_ONE]
    case Many => [M_ALL]
    case Set(negate, items) => (if negate then [M_SET, M_NOT] else [M_SET]) + FlattenItems(items) + [M_END]
  }

  function Flatten(es: seq<Elem>): seq<Token> {
    if |es| == 0 then [] else FlattenElem(es[0]) + Flatten(es[1..])
  }

  lemma {:induction false} FlattenConcat(a: seq<Elem>, b: seq<Elem>)
    ensures Flatten(a + b) == Flatten(a) + Flatten(b)
    decreases |a|
  {
    if |a| == 0 {
      assert a + b == b;
    } else {
      assert (a + b)[1..] == a[1..] + b;
      FlattenConcat(a[1..], b);
    }
  }

  lemma {:induction false} FlattenItemsConcat(a: seq<Item>, b: seq<Item>)
    ensures FlattenItems(a + b) == FlattenItems(a) + FlattenItems(b)
    decreases |a|
  {
    if |a| == 0 {
      assert a + b == b;
    } else {
      assert (a + b)[1..] == a[1..] + b;
      FlattenItemsConcat(a[1..], b);
    }
  }

  ghost predicate NoAdjacentStars(es: seq<Elem>) {
    forall i :: 0 < i < |es| ==> !(es[i - 1].Many? && es[i].Many?)
  }

  lemma {:induction false} CollapseLeavesNoAdjacentStars(es: seq<Elem>)
    ensures NoAdjacentStars(Collapse(es))
    ensures |Collapse(es)| == 0 <==> |es| == 0
    decreases |es|
  {
    if 0 < |es| {
      CollapseLeavesNoAdjacentStars(es[..|es| - 1]);
    }
  }

  /** Two stars in a row match what one star matches. */
  lemma {:induction false} DoubleStar(a: seq<Elem>, s: string)
    requires 0 < |a| && a[|a| - 1].Many?
    ensures Matches(a + [Many], s) <==> Matches(a, s)
    decreases |a|
  {
    assert (a + [Many])[1..] == a[1..] + [Many];
    if |a| == 1 {
      assert Matches([], s[|s|..]);
      assert a[1..] == [];
      assert Matches([Many], s[|s|..]) by { assert Matches([Many][1..], s[|s|..][0..]); }
      assert Matches(a, s) by { assert Matches(a[1..], s[|s|..]); }
      assert Matches(a + [Many], s) by { assert Matches((a + [Many])[1..], s[|s|..]); }
    } else if a[0].Many? {
      forall k | 0 <= k <= |s|
        ensures Matches(a[1..] + [Many], s[k..]) <==> Matches(a[1..], s[k..])
      {
        DoubleStar(a[1..], s[k..]);
      }
    } else if 0 < |s| {
      DoubleStar(a[1..], s[1..]);
    }
  }

  /** Appending the same element to two patterns of the same language keeps the languages equal. */
  lemma {:induction false} MatchesConcat(a: seq<Elem>, b: seq<Elem>, s: string)
    ensures Matches(a + b, s) <==> exists k :: 0 <= k <= |s| && Matches(a, s[..k]) && Matches(b, s[k..])
    decreases |a|
  {
    if |a| == 0 {
      assert a + b == b;
      assert s[0..] == s;
      if Matches(b, s) { assert Matches(a, s[..0]) && Matches(b, s[0..]); }
    } else {
      assert (a + b)[1..] == a[1..] + b;
      if a[0].Many? {
        if Matches(a + b, s) {
          var j :| 0 <= j <= |s| && Matches((a + b)[1..], s[j..]);
          MatchesConcat(a[1..], b, s[j..]);
          var k :| 0 <= k <= |s[j..]| && Matches(a[1..], s[j..][..k]) && Matches(b, s[j..][k..]);
          assert s[..j + k][j..] == s[j..][..k] && s[j..][k..] == s[j + k..];
          assert Matches(a, s[..j + k]) && Matches(b, s[j + k..]);
        }
        forall k | 0 <= k <= |s| && Matches(a, s[..k]) && Matches(b, s[k..])
          ensures Matches(a + b, s)
        {
          var j :| 0 <= j <= k && Matches(a[1..], s[..k][j..]);
          assert s[j..][..k - j] == s[..k][j..] && s[j..][k - j..] == s[k..];
          MatchesConcat(a[1..], b, s[j..]);
          assert Matches((a + b)[1..], s[j..]);
        }
      } else {
        if Matches(a + b, s) {
          MatchesConcat(a[1..], b, s[1..]);
          var k :| 0 <= k <= |s[1..]| && Matches(a[1..], s[1..][..k]) && Matches(b, s[1..][k..]);
          assert s[..k + 1][1..] == s[1..][..k] && s[1..][k..] == s[k + 1..];
          assert Matches(a, s[..k + 1]) && Matches(b, s[k + 1..]);
        }
        forall k | 0 <= k <= |s| && Matches(a, s[..k]) && Matches(b, s[k..])
          ensures Matches(a + b, s)
        {
          assert s[1..][..k - 1] == s[..k][1..] && s[1..][k - 1..] == s[k..];
          MatchesConcat(a[1..], b, s[1..]);
        }
      }
    }
  }

  /** Collapsing stars does not change the language. */
  lemma {:induction false} CollapseKeepsLanguage(es: seq<Elem>, s: string)
    ensures Matches(Collapse(es), s) <==> Matches(es, s)
    decreases |es|
  {
    if 0 < |es| {
      var n := |es| - 1;
      var a, r := es[..n], Collapse(es[..n]);
      assert es == a + [es[n]];
      forall k | 0 <= k <= |s|
        ensures Matches(r, s[..k]) <==> Matches(a, s[..k])
      {
        CollapseKeepsLanguage(a, s[..k]);
      }
      MatchesConcat(r, [es[n]], s);
      MatchesConcat(a, [es[n]], s);
      if es[n].Many? && 0 < |r| && r[|r| - 1].Many? {
        DoubleStar(r, s);
      }
    }
  }

  // ----- the parse, step by step along an index

  lemma ParseStep(p: seq<PatChar>, q: nat)
    requires q < |p|
    ensures OpensSet(p[q..]) <==> p[q] == LBRACKET && SetStart(p, q) < |p| && RBRACKET in p[SetStart(p, q) + 1..]
    ensures !OpensSet(p[q..]) ==> Parse(p[q..]) == [SimpleElem(p[q])] + Parse(p[q + 1..])
    ensures OpensSet(p[q..]) ==>
      var k := SetStart(p, q);
      Closes(p, k) && Parse(p[q..]) == [Set(k == q + 2, ItemsAt(p, k))] + Parse(p[EndAt(p, k)..])
  {
    var tail, k := p[q..], SetStart(p, q) - q;
    assert tail[1..] == p[q + 1..];
    if k < |tail| {
      assert tail[k + 1..] == p[q + k + 1..] == p[q + k..][1..];
      assert tail[k..] == p[q + k..];
    }
  }

  /** Index of the first item of a set opened at q. */
  function SetStart(p: seq<PatChar>, q: nat): nat
    requires q < |p|
  {
    if q + 1 < |p| && p[q + 1] == NOT then q + 2 else q + 1
  }

  function SimpleElem(c: PatChar): Elem {
    if c == QUESTION then One else if c == STAR then Many else Lit(c.c)
  }

  /** A ']' follows the first item at q. */
  predicate Closes(p: seq<PatChar>, q: nat) {
    q < |p| && RBRACKET in p[q..][1..]
  }

  function ItemsAt(p: seq<PatChar>, q: nat): seq<Item>
    requires Closes(p, q)
  {
    ParseItems(p[q..]).0
  }

  /** Index after the closing bracket. */
  function EndAt(p: seq<PatChar>, q: nat): (end: nat)
    requires Closes(p, q)
    ensures q < end <= |p| && p[end..] == ParseItems(p[q..]).1
  {
    |p| - |ParseItems(p[q..]).1|
  }

  /** Whether the item at q is a range, and where the next item would start. */
  predicate IsRange(p: seq<PatChar>, q: nat) {
    q + 2 < |p| && p[q + 1] == RANGE && p[q + 2] != RBRACKET
  }

  lemma ItemsStep(p: seq<PatChar>, q: nat) returns (item: Item, n: nat)
    requires Closes(p, q)
    ensures q + 1 < |p| && (p[q + 1] == RANGE ==> q + 2 < |p|)
    ensures IsRange(p, q) ==> item == Range(p[q].c, p[q + 2].c) && n == q + 3
    ensures !IsRange(p, q) ==> item == Single(p[q].c) && n == q + 1
    ensures n < |p|
    ensures p[n] == RBRACKET ==> ItemsAt(p, q) == [item] && EndAt(p, q) == n + 1
    ensures p[n] != RBRACKET ==> Closes(p, n) && ItemsAt(p, q) == [item] + ItemsAt(p, n) && EndAt(p, q) == EndAt(p, n)
  {
    var t := p[q..];
    var i :| 0 <= i < |t[1..]| && t[1..][i] == RBRACKET;
    assert p[q + 1 + i] == RBRACKET;
    assert t[1..] == p[q + 1..];
    item := if IsRange(p, q) then Range(p[q].c, p[q + 2].c) else Single(p[q].c);
    n := if IsRange(p, q) then q + 3 else q + 1;
    if IsRange(p, q) { assert t[3..] == p[n..]; }
    assert p[n..][1..] == p[n + 1..];
    if p[n] != RBRACKET { assert p[n..][1..][q + i - n] == RBRACKET; }
  }

  // ----- the compiler

  /** Position of the first element of p equal to c at or after `from`, as g_strchr finds it. */
  method Find(p: seq<PatChar>, from: nat, c: PatChar) returns (found: bool)
    requires from <= |p|
    ensures found <==> c in p[from..]
  {
    var i := from;
    while i < |p|
      invariant from <= i <= |p|
      invariant forall j :: from <= j < i ==> p[j] != c
    {
      if p[i] == c {
        assert p[from..][i - from] == c;
        return true;
      }
      i := i + 1;
    }
    found := false;
  }

  /** The loop of glob0: fills the buffer with the tokens of the collapsed pattern. */
  method Glob0(p: seq<PatChar>) returns (patbuf: seq<Token>)
    ensures patbuf == Flatten(Compile(p))
  {
    hide Flatten, Collapse, Parse, OpensSet, Closes, ItemsAt, EndAt;
    patbuf := [];
    var q := 0;
    ghost var done: seq<Elem> := [];
    EmptyPattern();
    EmptyPrefix(Parse(p));
    assert p[0..] == p;
    while q < |p|
      invariant 0 <= q <= |p|
      invariant Parse(p) == done + Parse(p[q..])
      invariant patbuf == Flatten(Collapse(done))
    {
      var c := p[q];
      ghost var e: Elem;
      ParseStep(p, q);
      if c == LBRACKET {
        var emitted;
        emitted, q, e := CompileBracket(p, q);
        EmitElem(done, e);
        patbuf := patbuf + emitted;
      } else if c == QUESTION {
        q, e := q + 1, One;
        EmitElem(done, e);
        patbuf := patbuf + [M_ONE];
      } else if c == STAR {
        q, e := q + 1, Many;
        EmitElem(done, e);
        if patbuf == [] || patbuf[|patbuf| - 1] != M_ALL {
          patbuf := patbuf + [M_ALL];
        }
      } else {
        q, e := q + 1, Lit(c.c);
        EmitElem(done, e);
        patbuf := patbuf + [Char(c.c)];
      }
      Regroup(done, [e], Parse(p[q..]));
      done := done + [e];
    }
    assert p[q..] == [];
    EmptyPrefix(done);
  }

  lemma EmptyPattern()
    ensures Parse([]) == [] && Flatten(Collapse([])) == []
  {
  }

  /** The LBRACKET case of glob0: a set, or a literal '[' when no ']' closes it. */
  method CompileBracket(p: seq<PatChar>, start: nat) returns (emitted: seq<Token>, q: nat, ghost e: Elem)
    requires start < |p| && p[start] == LBRACKET
    ensures start < q <= |p| && Parse(p[start..]) == [e] + Parse(p[q..])
    ensures emitted == FlattenElem(e) && !e.Many?
  {
    hide Parse, OpensSet, ItemsAt, EndAt, Closes;
    ParseStep(p, start);
    q := start + 1;
    var not := q < |p| && p[q] == NOT;
    if not { q := q + 1; }
    var closed := false;
    if q < |p| {
      closed := Find(p, q + 1, RBRACKET);
    }
    assert closed <==> OpensSet(p[start..]);
    if !closed {
      emitted := [Char('[')];
      if not { q := q - 1; }
      e := Lit('[');
    } else {
      e := Set(not, ItemsAt(p, q));
      var items;
      items, q := CompileSet(p, q);
      emitted := (if not then [M_SET, M_NOT] else [M_SET]) + items + [M_END];
    }
  }

  /** The do-while loop over the items of a set; stops after the closing bracket. */
  method CompileSet(p: seq<PatChar>, start: nat) returns (items: seq<Token>, q: nat)
    requires Closes(p, start)
    ensures items == FlattenItems(ItemsAt(p, start)) && q == EndAt(p, start)
  {
    hide Closes, ItemsAt, EndAt, FlattenItems;
    items := [];
    q := start;
    ghost var done: seq<Item> := [];
    ghost var whole := ItemsAt(p, start);
    NoItems();
    EmptyPrefix(whole);
    while true
      invariant Closes(p, q)
      invariant whole == done + ItemsAt(p, q) && EndAt(p, start) == EndAt(p, q)
      invariant items == FlattenItems(done)
      decreases |p| - q
    {
      ghost var item, n := ItemsStep(p, q);
      ghost var before, range := done, IsRange(p, q);
      var c := p[q];
      q := q + 1;
      if p[q] == RANGE && p[q + 1] != RBRACKET {
        assert range;
        items := items + [Char(c.c), M_RNG, Char(p[q + 1].c)];
        q := q + 2;
      } else {
        assert !range;
        items := items + [Char(c.c)];
      }
      assert q == n;
      EmitItem(done, item);
      done := done + [item];
      if p[q] == RBRACKET {
        q := q + 1;
        return;
      }
      Regroup(before, [item], ItemsAt(p, q));
    }
  }

  lemma EmptyPrefix<T>(s: seq<T>)
    ensures [] + s == s && s + [] == s
  {
  }

  lemma Regroup<T>(a: seq<T>, b: seq<T>, c: seq<T>)
    ensures a + (b + c) == (a + b) + c
  {
  }

  lemma NoItems()
    ensures FlattenItems([]) == []
  {
  }

  lemma EmitItem(done: seq<Item>, item: Item)
    ensures FlattenItems(done + [item]) == FlattenItems(done) + FlattenItem(item)
  {
    FlattenItemsConcat(done, [item]);
    assert [item][1..] == [];
  }

  /** The buffer ends in M_ALL exactly when the last element is a star. */
  lemma LastToken(es: seq<Elem>)
    requires 0 < |es|
    ensures |Flatten(es)| > 0 && (Flatten(es)[|Flatten(es)| - 1] == M_ALL <==> es[|es| - 1].Many?)
  {
    var n := |es| - 1;
    assert es == es[..n] + [es[n]];
    FlattenConcat(es[..n], [es[n]]);
    FlattenOne(es[n]);
  }

  lemma FlattenOne(e: Elem)
    ensures Flatten([e]) == FlattenElem(e)
  {
    assert [e][1..] == [];
  }

  predicate EndsInStar(buffer: seq<Token>) {
    0 < |buffer| && buffer[|buffer| - 1] == M_ALL
  }

  /** What one more element adds to the buffer. */
  lemma EmitElem(done: seq<Elem>, e: Elem)
    ensures var buffer := Flatten(Collapse(done));
      Flatten(Collapse(done + [e])) == if e.Many? && EndsInStar(buffer) then buffer else buffer + FlattenElem(e)
  {
    hide Flatten, FlattenElem;
    var r := Collapse(done);
    assert (done + [e])[..|done|] == done;
    FlattenConcat(r, [e]);
    FlattenOne(e);
    if 0 < |r| {
      LastToken(r);
    } else {
      assert Flatten(r) == [] by { EmptyPattern(); }
    }
  }
}
