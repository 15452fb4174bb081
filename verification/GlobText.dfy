/** glob.c: what the text of a pattern means, said without the parser. Sections 2.13.1 and 2.13.2 of
    POSIX.1-2017, Shell Command Language. */
module GlobText {
  import opened Basics
  import opened GlobPattern

  type Text = seq<PatChar>

  // ----- characters that stand for themselves

  /** Nothing in the text is special; a '[' that no ']' can close is not. */
  predicate IsPlain(p: Text) {
    QUESTION !in p && STAR !in p && (LBRACKET !in p || RBRACKET !in p)
  }

  function Characters(p: Text): (s: string)
    ensures |s| == |p|
  {
    seq(|p|, i requires 0 <= i < |p| => p[i].c)
  }

  lemma SetHasBrackets(p: Text)
    requires 0 < |p|
    ensures OpensSet(p) ==> LBRACKET in p && RBRACKET in p
  {
  }

  lemma PlainStep(p: Text)
    requires IsPlain(p) && 0 < |p|
    ensures IsPlain(p[1..]) && Parse(p) == [Lit(p[0].c)] + Parse(p[1..])
    ensures Characters(p) == [p[0].c] + Characters(p[1..])
  {
    hide OpensSet;
    assert forall c :: c in p[1..] ==> c in p;
    assert p[0] in p;
    SetHasBrackets(p);
  }

  /** A text without special characters matches its own characters and nothing else. */
  lemma {:induction false} PlainMatchesItself(p: Text, s: string)
    requires IsPlain(p)
    ensures Matches(Parse(p), s) <==> s == Characters(p)
    decreases |p|
  {
    if |p| == 0 {
      assert Parse(p) == [];
    } else {
      hide Parse, IsPlain, Characters;
      PlainStep(p);
      assert ([Lit(p[0].c)] + Parse(p[1..]))[1..] == Parse(p[1..]);
      if 0 < |s| {
        PlainMatchesItself(p[1..], s[1..]);
        assert s == [s[0]] + s[1..];
      }
    }
  }

  /** A lone star matches every name. */
  lemma StarMatchesAll(s: string)
    ensures Matches(Parse([STAR]), s)
  {
    assert Parse([STAR][1..]) == [];
    assert Parse([STAR]) == [Many];
    assert [Many][1..] == [] && s[|s|..] == [];
    assert Matches([Many][1..], s[|s|..]);
  }

  /** A lone question mark matches the names of one character. */
  lemma QuestionMatchesOne(s: string)
    ensures Matches(Parse([QUESTION]), s) <==> |s| == 1
  {
    assert Parse([QUESTION][1..]) == [];
    assert Parse([QUESTION]) == [One];
    assert [One][1..] == [];
  }

  // ----- printed patterns

  /** One item of a bracket expression as it is written: a character, or two with '-' between. */
  predicate IsItemText(t: Text) {
    |t| == 1 || (|t| == 3 && t[1] == PatChar('-', false) && t[2] != RBRACKET)
  }

  /** The characters an item stands for. */
  predicate InItemText(t: Text, k: char)
    requires IsItemText(t)
  {
    if |t| == 1 then t[0].c == k else t[0].c <= k <= t[2].c
  }

  /** Items that are read as written: only the first can be a ']', the first of a set that is not negated
      is no '!', and a '-' between two characters is none of its own. */
  predicate AreItemTexts(ts: seq<Text>) {
    && 0 < |ts| && (forall i :: 0 <= i < |ts| ==> IsItemText(ts[i]))
    && (forall i :: 0 < i < |ts| ==> ts[i][0] != RBRACKET)
    && (forall i :: 0 < i < |ts| ==> |ts[i - 1]| == 1 && ts[i][0] == RANGE ==> i == |ts| - 1 && |ts[i]| == 1)
  }

  /** The pieces of a pattern. */
  datatype Piece =
    | Itself(c: PatChar)
    | AnyOne
    | AnyString
    | Bracket(negate: bool, items: seq<Text>)

  predicate IsPiece(e: Piece) {
    match e
    case Itself(c) => c !in {QUESTION, STAR, LBRACKET}
    case Bracket(negate, items) => AreItemTexts(items) && (!negate ==> items[0][0] != NOT)
    case _ => true
  }

  function PrintPiece(e: Piece): Text {
    match e
    case Itself(c) => [c]
    case AnyOne => [PatChar('?', false)]
    case AnyString => [PatChar('*', false)]
    case Bracket(negate, items) =>
      [PatChar('[', false)] + (if negate then [PatChar('!', false)] else []) + Concatenated(items)
        + [PatChar(']', false)]
  }

  function Print(es: seq<Piece>): Text {
    if |es| == 0 then [] else PrintPiece(es[0]) + Print(es[1..])
  }

  /** What a piece stands for. */
  predicate Takes(e: Piece, s: string)
    requires IsPiece(e)
  {
    match e
    case Itself(c) => s == [c.c]
    case AnyOne => |s| == 1
    case AnyString => true
    case Bracket(negate, items) =>
      |s| == 1 && ((exists i :: 0 <= i < |items| && InItemText(items[i], s[0])) <==> !negate)
  }

  predicate ArePieces(es: seq<Piece>) {
    forall i :: 0 <= i < |es| ==> IsPiece(es[i])
  }

  /** The names of a printed pattern: its pieces stand for consecutive parts of the name. */
  ghost predicate Spells(es: seq<Piece>, s: string)
    requires ArePieces(es)
    decreases |es|
  {
    if |es| == 0 then s == "" else exists k :: 0 <= k <= |s| && Takes(es[0], s[..k]) && Spells(es[1..], s[k..])
  }

  // ----- reading what was printed

  function ItemOf(t: Text): Item
    requires IsItemText(t)
  {
    if |t| == 1 then Single(t[0].c) else Range(t[0].c, t[2].c)
  }

  function ItemsOf(ts: seq<Text>): (r: seq<Item>)
    requires forall i :: 0 <= i < |ts| ==> IsItemText(ts[i])
    ensures |r| == |ts|
  {
    seq(|ts|, i requires 0 <= i < |ts| => ItemOf(ts[i]))
  }

  /** One item in front of more items or of the closing bracket. */
  lemma ItemIsRead(t: Text, after: Text)
    requires IsItemText(t) && 0 < |after| && RBRACKET in after && (after[0] != RBRACKET ==> RBRACKET in after[1..])
    requires |t| == 1 && after[0] == RANGE ==> 1 < |after| && after[1] == RBRACKET
    ensures RBRACKET in (t + after)[1..]
    ensures ParseItems(t + after) ==
      if after[0] == RBRACKET then ([ItemOf(t)], after[1..])
      else ([ItemOf(t)] + ParseItems(after).0, ParseItems(after).1)
  {
    var p := t + after;
    var i :| 0 <= i < |after| && after[i] == RBRACKET;
    assert p[1..][|t| - 1 + i] == RBRACKET;
    assert p[|t|..] == after;
    if |t| == 1 {
      assert p[1] == after[0];
      if 1 < |after| { assert p[2] == after[1]; }
    }
  }

  /** The items are read back one by one, and what follows the ']' is left. */
  lemma {:induction false} ItemsAreRead(ts: seq<Text>, rest: Text)
    requires AreItemTexts(ts)
    ensures var p := Concatenated(ts) + ([RBRACKET] + rest);
      0 < |p| && RBRACKET in p[1..] && ParseItems(p) == (ItemsOf(ts), rest)
    decreases |ts|
  {
    hide ParseItems, ItemOf, ItemsOf, Concatenated;
    var close := [RBRACKET] + rest;
    assert close[0] == RBRACKET && close[1..] == rest;
    var t, after := ts[0], Concatenated(ts[1..]) + close;
    ConcatenatedFirst(ts, close);
    ItemsFirst(ts);
    if |ts| == 1 {
      NothingConcatenated(ts[1..], close);
    } else {
      TailIsItems(ts);
      SecondItem(ts, close);
      ItemsAreRead(ts[1..], rest);
    }
    ItemIsRead(t, after);
  }

  lemma ItemsFirst(ts: seq<Text>)
    requires 0 < |ts| && forall i :: 0 <= i < |ts| ==> IsItemText(ts[i])
    ensures ItemsOf(ts) == if |ts| == 1 then [ItemOf(ts[0])] else [ItemOf(ts[0])] + ItemsOf(ts[1..])
  {
    hide ItemOf, IsItemText;
  }

  lemma NothingConcatenated(ts: seq<Text>, close: Text)
    ensures ts == [] ==> Concatenated(ts) + close == close
  {
  }

  lemma TailIsItems(ts: seq<Text>)
    requires AreItemTexts(ts) && 1 < |ts|
    ensures AreItemTexts(ts[1..])
  {
    assert forall i :: 0 <= i < |ts| - 1 ==> ts[1..][i] == ts[i + 1];
  }

  lemma SecondItem(ts: seq<Text>, close: Text)
    requires AreItemTexts(ts) && 1 < |ts| && 0 < |close| && close[0] == RBRACKET
    ensures var after := Concatenated(ts[1..]) + close;
      after[0] == ts[1][0] != RBRACKET && (|ts[0]| == 1 && after[0] == RANGE ==> 1 < |after| && after[1] == RBRACKET)
  {
    assert ts[1..][0] == ts[1];
    if |ts[0]| == 1 && ts[1][0] == RANGE {
      assert ts[1..][1..] == [];
      assert Concatenated(ts[1..]) == ts[1] + [];
    }
  }

  function ElemOf(e: Piece): Elem
    requires IsPiece(e)
  {
    match e
    case Itself(c) => Lit(c.c)
    case AnyOne => One
    case AnyString => Many
    case Bracket(negate, items) => Set(negate, ItemsOf(items))
  }

  /** A piece in front of any text is read as that piece. */
  lemma PieceIsRead(e: Piece, rest: Text)
    requires IsPiece(e)
    ensures Parse(PrintPiece(e) + rest) == [ElemOf(e)] + Parse(rest)
  {
    hide ParseItems, Concatenated, ItemsOf, AreItemTexts;
    var p := PrintPiece(e) + rest;
    if e.Bracket? {
      BracketIsRead(e, rest);
    } else {
      assert p[1..] == rest;
    }
  }

  lemma BracketIsRead(e: Piece, rest: Text)
    requires IsPiece(e) && e.Bracket?
    ensures Parse(PrintPiece(e) + rest) == [ElemOf(e)] + Parse(rest)
  {
    hide ParseItems, ItemsOf, Parse, AreItemTexts;
    var s := Concatenated(e.items) + ([RBRACKET] + rest);
    FirstItem(e.items);
    ItemsAreRead(e.items, rest);
    SetIsRead(e.negate, s);
    var open := [LBRACKET] + if e.negate then [NOT] else [];
    assert PrintPiece(e) + rest == open + s;
  }

  lemma SetIsRead(negate: bool, s: Text)
    requires 0 < |s| && RBRACKET in s[1..] && (!negate ==> s[0] != NOT)
    ensures var p := [LBRACKET] + (if negate then [NOT] else []) + s;
      Parse(p) == [Set(negate, ParseItems(s).0)] + Parse(ParseItems(s).1)
  {
    hide ParseItems;
    var p := [LBRACKET] + (if negate then [NOT] else []) + s;
    if negate {
      assert p[2..] == s && p[3..] == s[1..];
    } else {
      assert p[1..] == s && p[2..] == s[1..];
    }
  }

  lemma FirstItem(ts: seq<Text>)
    requires AreItemTexts(ts)
    ensures 0 < |Concatenated(ts)| && Concatenated(ts)[0] == ts[0][0]
  {
  }

  lemma ElemTakes(e: Piece, s: string)
    requires IsPiece(e)
    ensures Matches([ElemOf(e)], s) <==> Takes(e, s)
  {
    var es := [ElemOf(e)];
    assert es[1..] == [];
    match e
    case AnyString =>
      assert s[|s|..] == [] && Matches(es[1..], s[|s|..]);
    case Bracket(negate, items) =>
      if |s| == 1 { ItemsInclude(items, s[0]); }
    case _ =>
  }

  lemma ItemsInclude(ts: seq<Text>, k: char)
    requires forall i :: 0 <= i < |ts| ==> IsItemText(ts[i])
    ensures InItems(ItemsOf(ts), k) <==> exists i :: 0 <= i < |ts| && InItemText(ts[i], k)
  {
    forall i | 0 <= i < |ts| ensures InItem(ItemsOf(ts)[i], k) <==> InItemText(ts[i], k) {
    }
  }

  function ElemsOf(es: seq<Piece>): (r: seq<Elem>)
    requires ArePieces(es)
    ensures |r| == |es|
  {
    seq(|es|, i requires 0 <= i < |es| => ElemOf(es[i]))
  }

  lemma {:induction false} PrintIsRead(es: seq<Piece>, rest: Text)
    requires ArePieces(es)
    ensures Parse(Print(es) + rest) == ElemsOf(es) + Parse(rest)
    decreases |es|
  {
    hide Parse, PrintPiece, ElemOf, IsPiece;
    if |es| == 0 {
      assert Print(es) + rest == rest;
    } else {
      Regroup(PrintPiece(es[0]), Print(es[1..]), rest);
      PieceIsRead(es[0], Print(es[1..]) + rest);
      PrintIsRead(es[1..], rest);
      assert ElemsOf(es) == [ElemOf(es[0])] + ElemsOf(es[1..]);
    }
  }

  lemma {:induction false} ElemsSpell(es: seq<Piece>, s: string)
    requires ArePieces(es)
    ensures Matches(ElemsOf(es), s) <==> Spells(es, s)
    decreases |es|
  {
    hide Takes, ElemOf, IsPiece;
    if 0 < |es| {
      assert ElemsOf(es) == [ElemOf(es[0])] + ElemsOf(es[1..]);
      hide Matches;
      MatchesConcat([ElemOf(es[0])], ElemsOf(es[1..]), s);
      forall k | 0 <= k <= |s|
        ensures Matches([ElemOf(es[0])], s[..k]) <==> Takes(es[0], s[..k])
        ensures Matches(ElemsOf(es[1..]), s[k..]) <==> Spells(es[1..], s[k..])
      {
        ElemTakes(es[0], s[..k]);
        ElemsSpell(es[1..], s[k..]);
      }
    }
  }

  /** Main result: a printed pattern, in front of any text, matches what its pieces stand for one after
      the other followed by what that text matches. */
  lemma PrintedMatches(es: seq<Piece>, rest: Text, s: string)
    requires ArePieces(es)
    ensures Matches(Parse(Print(es) + rest), s) <==>
      exists k :: 0 <= k <= |s| && Spells(es, s[..k]) && Matches(Parse(rest), s[k..])
  {
    hide Parse, Matches, Spells;
    PrintIsRead(es, rest);
    MatchesConcat(ElemsOf(es), Parse(rest), s);
    forall k | 0 <= k <= |s| ensures Matches(ElemsOf(es), s[..k]) <==> Spells(es, s[..k]) {
      ElemsSpell(es, s[..k]);
    }
  }

  /** A printed pattern alone. */
  lemma PrintedMeansSpelled(es: seq<Piece>, s: string)
    requires ArePieces(es)
    ensures Matches(Parse(Print(es)), s) <==> Spells(es, s)
  {
    hide Matches, Spells;
    PrintIsRead(es, []);
    EmptyPrefix(Print(es));
    EmptyPrefix(ElemsOf(es));
    assert Parse([]) == [];
    ElemsSpell(es, s);
  }
}
