/** oscpkt.hh: what the text of an address pattern means, said without the scanner. Section "OSC Message
    Dispatching and Pattern Matching" of the Open Sound Control 1.0 Specification, and '//' of version 1.1. */
module OscText {
  import opened Basics
  import opened OscMessage
  import opened OscPattern
  import opened OscParts

  // ----- printed patterns

  /** One item of a bracket as it is written: a character, or two with '-' between. */
  predicate IsItemText(t: Bytes) {
    |t| == 1 || (|t| == 3 && t[1] == '-' as int && t[2] != CLOSE_SET)
  }

  /** The characters an item stands for. */
  predicate InItemText(t: Bytes, b: byte)
    requires IsItemText(t)
  {
    if |t| == 1 then t[0] == b else t[0] <= b <= t[2]
  }

  /** Items that are read as written: none begins with ']', and a '-' between two characters is none
      of its own. */
  predicate AreItemTexts(ts: seq<Bytes>) {
    && (forall i :: 0 <= i < |ts| ==> IsItemText(ts[i]) && ts[i][0] != CLOSE_SET)
    && (forall i :: 0 < i < |ts| ==> |ts[i - 1]| == 1 && ts[i][0] == DASH ==> i == |ts| - 1 && |ts[i]| == 1)
  }

  datatype Piece =
    | Itself(c: byte)
    | AnyOne
    | AnyName
    | AnyPath
    | Bracket(negate: bool, items: seq<Bytes>)
    | Braces(choices: seq<Bytes>)

  predicate IsPiece(e: Piece) {
    match e
    case Itself(c) => c !in {QUESTION, STAR, OPEN_SET, OPEN_LIST}
    case Bracket(negate, items) => AreItemTexts(items) && (!negate && 0 < |items| ==> items[0][0] != BANG)
    case Braces(choices) => 0 < |choices| && forall i :: 0 <= i < |choices| ==> NoMark(choices[i])
    case _ => true
  }

  predicate NoMark(t: Bytes) {
    COMMA !in t && CLOSE_LIST !in t
  }

  function Listed(ts: seq<Bytes>): Bytes
    requires 0 < |ts|
  {
    if |ts| == 1 then ts[0] else ts[0] + [',' as int] + Listed(ts[1..])
  }

  function PrintPiece(e: Piece): (r: Bytes)
    requires IsPiece(e)
    ensures 0 < |r|
  {
    match e
    case Itself(c) => [c]
    case AnyOne => ['?' as int]
    case AnyName => ['*' as int]
    case AnyPath => ['/' as int]
    case Bracket(negate, items) =>
      (if negate then ['[' as int, '!' as int] else ['[' as int]) + Concatenated(items) + [']' as int]
    case Braces(choices) => ['{' as int] + Listed(choices) + ['}' as int]
  }

  /** A piece and the one behind it: a '*' counts once, and '//' is `AnyPath` and a '/'. */
  predicate Fits(a: Piece, b: Piece) {
    && (a.AnyName? ==> !b.AnyName?)
    && (a == Itself(SLASH) ==> b != Itself(SLASH) && !b.AnyPath?)
    && (a.AnyPath? ==> b == Itself(SLASH))
  }

  predicate ArePieces(es: seq<Piece>) {
    && (forall i :: 0 <= i < |es| ==> IsPiece(es[i]))
    && (forall i :: 0 < i < |es| ==> Fits(es[i - 1], es[i]))
    && (0 < |es| ==> !es[|es| - 1].AnyPath?)
  }

  function Print(es: seq<Piece>): Bytes
    requires ArePieces(es)
  {
    if |es| == 0 then []
    else
      TailIsPieces(es);
      PrintPiece(es[0]) + Print(es[1..])
  }

  lemma TailIsPieces(es: seq<Piece>)
    requires ArePieces(es) && 0 < |es|
    ensures ArePieces(es[1..])
  {
    assert forall i :: 0 <= i < |es| - 1 ==> es[1..][i] == es[i + 1];
    forall i | 0 < i < |es| - 1 ensures Fits(es[1..][i - 1], es[1..][i]) {
      assert Fits(es[i + 1 - 1], es[i + 1]);
    }
  }

  /** What a piece stands for. */
  predicate Means(e: Piece, t: Bytes)
    requires IsPiece(e)
  {
    match e
    case Itself(c) => t == [c]
    case AnyOne => |t| == 1
    case AnyName => ('/' as int) !in t
    case AnyPath => true
    case Bracket(negate, items) =>
      |t| == 1 && ((exists i :: 0 <= i < |items| && InItemText(items[i], t[0])) <==> !negate)
    case Braces(choices) => t in choices
  }

  /** The paths of a printed pattern: its pieces stand for consecutive parts of the path. */
  ghost predicate Spells(es: seq<Piece>, s: Bytes)
    requires ArePieces(es)
    decreases |es|
  {
    if |es| == 0 then s == []
    else
      TailIsPieces(es);
      exists k :: 0 <= k <= |s| && Means(es[0], s[..k]) && Spells(es[1..], s[k..])
  }

  // ----- reading what was printed

  function RangeOf(t: Bytes): Range
    requires IsItemText(t)
  {
    if |t| == 1 then Range(t[0], t[0]) else Range(t[0], t[2])
  }

  function RangesOf(ts: seq<Bytes>): (r: seq<Range>)
    requires forall i :: 0 <= i < |ts| ==> IsItemText(ts[i])
    ensures |r| == |ts|
  {
    seq(|ts|, i requires 0 <= i < |ts| => RangeOf(ts[i]))
  }

  /** One item in front of more items or of the closing bracket. */
  lemma ItemIsRead(t: Bytes, after: Bytes)
    requires IsItemText(t) && t[0] != CLOSE_SET && 0 < |after|
    requires |t| == 1 && after[0] == DASH ==> 1 < |after| && after[1] == CLOSE_SET
    ensures Ranges(t + after, 0) == ([RangeOf(t)] + Ranges(after, 0).0, |t| + Ranges(after, 0).1)
  {
    var p := t + after;
    RangesShift(t, after, 0);
    if |t| == 1 {
      assert p[1] == after[0];
      if 1 < |after| { assert p[2] == after[1]; }
    }
  }

  lemma {:induction false} ItemsAreRead(ts: seq<Bytes>, rest: Bytes)
    requires AreItemTexts(ts)
    ensures Ranges(Concatenated(ts) + ([CLOSE_SET] + rest), 0) == (RangesOf(ts), |Concatenated(ts)|)
    decreases |ts|
  {
    hide Ranges, RangeOf, RangesOf, Concatenated;
    var close := [CLOSE_SET] + rest;
    assert close[0] == CLOSE_SET;
    if |ts| == 0 {
      NoItems(ts, close);
    } else {
      ConcatenatedFirst(ts, close);
      RangesFirst(ts);
      TailIsItems(ts);
      SecondItem(ts, close);
      ItemsAreRead(ts[1..], rest);
      ItemIsRead(ts[0], Concatenated(ts[1..]) + close);
    }
  }

  lemma NoItems(ts: seq<Bytes>, close: Bytes)
    requires ts == [] && 0 < |close| && close[0] == CLOSE_SET
    ensures Concatenated(ts) == [] && Concatenated(ts) + close == close && Ranges(close, 0) == (RangesOf(ts), 0)
  {
  }

  lemma RangesFirst(ts: seq<Bytes>)
    requires 0 < |ts| && forall i :: 0 <= i < |ts| ==> IsItemText(ts[i])
    ensures RangesOf(ts) == [RangeOf(ts[0])] + RangesOf(ts[1..])
  {
    hide RangeOf, IsItemText;
  }

  lemma TailIsItems(ts: seq<Bytes>)
    requires AreItemTexts(ts) && 0 < |ts|
    ensures AreItemTexts(ts[1..])
  {
    assert forall i :: 0 <= i < |ts| - 1 ==> ts[1..][i] == ts[i + 1];
  }

  lemma SecondItem(ts: seq<Bytes>, close: Bytes)
    requires AreItemTexts(ts) && 0 < |ts| && 0 < |close| && close[0] == CLOSE_SET
    ensures var after := Concatenated(ts[1..]) + close;
      0 < |after| && (|ts[0]| == 1 && after[0] == DASH ==> 1 < |after| && after[1] == CLOSE_SET)
  {
    if 1 < |ts| {
      assert ts[1..][0] == ts[1];
      if |ts[0]| == 1 && ts[1][0] == DASH {
        assert ts[1..][1..] == [];
        assert Concatenated(ts[1..]) == ts[1] + [];
      }
    }
  }

  lemma {:induction false} ListedIsRead(ts: seq<Bytes>, rest: Bytes)
    requires 0 < |ts| && forall i :: 0 <= i < |ts| ==> NoMark(ts[i])
    ensures var p := Listed(ts) + ([CLOSE_LIST] + rest);
      IndexOf(p, CLOSE_LIST, 0) == |Listed(ts)| && Choices(p, 0, |Listed(ts)|) == ts
    decreases |ts|
  {
    hide Choices, IndexOf;
    var close := [CLOSE_LIST] + rest;
    if |ts| == 1 {
      OneChoice(ts[0], close);
    } else {
      var tail := Listed(ts[1..]) + close;
      ListedFirst(ts, close);
      assert forall i :: 0 <= i < |ts| - 1 ==> ts[1..][i] == ts[i + 1];
      ListedIsRead(ts[1..], rest);
      FirstChoice(ts[0], tail, |Listed(ts[1..])|);
      assert ts == [ts[0]] + ts[1..];
    }
  }

  lemma ListedFirst(ts: seq<Bytes>, close: Bytes)
    requires 1 < |ts|
    ensures Listed(ts) + close == ts[0] + [COMMA] + (Listed(ts[1..]) + close)
    ensures |Listed(ts)| == |ts[0]| + 1 + |Listed(ts[1..])|
  {
    assert Listed(ts) == ts[0] + [COMMA] + Listed(ts[1..]);
    hide Listed;
    Regroup(ts[0] + [COMMA], Listed(ts[1..]), close);
  }

  lemma FirstMark(t: Bytes, mark: byte, after: Bytes)
    requires mark !in t && 0 < |after|
    ensures IndexOf(t + after, mark, 0) >= |t|
    ensures after[0] == mark ==> IndexOf(t + after, mark, 0) == |t|
  {
    hide IndexOf;
    var p := t + after;
    assert p[|t|] == after[0];
    assert forall i :: 0 <= i < |t| ==> p[i] == t[i] != mark;
  }

  lemma OneChoice(t: Bytes, close: Bytes)
    requires NoMark(t) && 0 < |close| && close[0] == CLOSE_LIST
    ensures IndexOf(t + close, CLOSE_LIST, 0) == |t| && Choices(t + close, 0, |t|) == [t]
  {
    hide IndexOf;
    FirstMark(t, CLOSE_LIST, close);
    FirstMark(t, COMMA, close);
    assert (t + close)[0..|t|] == t;
  }

  lemma FirstChoice(t: Bytes, tail: Bytes, n: nat)
    requires NoMark(t) && n <= |tail| && IndexOf(tail, CLOSE_LIST, 0) == n
    ensures var p := t + [COMMA] + tail;
      && IndexOf(p, CLOSE_LIST, 0) == |t| + 1 + n
      && Choices(p, 0, |t| + 1 + n) == [t] + Choices(tail, 0, n)
  {
    hide IndexOf;
    var p, before := t + [COMMA] + tail, t + [COMMA];
    assert p == t + ([COMMA] + tail);
    FirstMark(t, COMMA, [COMMA] + tail);
    IndexShift(before, tail, CLOSE_LIST, 0);
    assert forall i :: 0 <= i < |before| ==> p[i] == before[i] != CLOSE_LIST;
    SameIndex(p, CLOSE_LIST, |before|);
    ChoicesShift(before, tail, 0, n);
    assert p[0..|t|] == t;
  }

  lemma SameIndex(p: Bytes, b: byte, from: nat)
    requires from <= |p| && forall i :: 0 <= i < from ==> p[i] != b
    ensures IndexOf(p, b, 0) == IndexOf(p, b, from)
  {
    hide IndexOf;
    var i, j := IndexOf(p, b, 0), IndexOf(p, b, from);
    assert from <= i;
  }

  function TokOf(e: Piece): Tok
    requires IsPiece(e)
  {
    match e
    case Itself(c) => Literal(c)
    case AnyOne => AnyChar
    case AnyName => AnyRun
    case AnyPath => AnyPrefix
    case Bracket(negate, items) => OneOf(negate, RangesOf(items))
    case Braces(choices) => List(choices)
  }

  lemma BracketIsRead(negate: bool, items: seq<Bytes>, rest: Bytes)
    requires IsPiece(Bracket(negate, items))
    ensures var text := PrintPiece(Bracket(negate, items));
      Next(text + rest, 0) == (OneOf(negate, RangesOf(items)), |text|)
  {
    hide Ranges, RangesOf, Concatenated, AreItemTexts;
    var open, body := if negate then [OPEN_SET, BANG] else [OPEN_SET], Concatenated(items) + ([CLOSE_SET] + rest);
    var p := PrintPiece(Bracket(negate, items)) + rest;
    assert p == open + body;
    ItemsAreRead(items, rest);
    RangesShift(open, body, 0);
    FirstOfItems(items, [CLOSE_SET] + rest);
    assert p[1] == if negate then BANG else body[0];
  }

  lemma FirstOfItems(ts: seq<Bytes>, close: Bytes)
    requires AreItemTexts(ts) && 0 < |close|
    ensures 0 < |Concatenated(ts) + close| && (Concatenated(ts) + close)[0] == if |ts| == 0 then close[0] else ts[0][0]
  {
  }

  lemma BracesAreRead(choices: seq<Bytes>, rest: Bytes)
    requires IsPiece(Braces(choices))
    ensures var text := PrintPiece(Braces(choices)); Next(text + rest, 0) == (List(choices), |text|)
  {
    hide IndexOf, Choices, Listed, NoMark;
    var open, body := [OPEN_LIST], Listed(choices) + ([CLOSE_LIST] + rest);
    var p, n := PrintPiece(Braces(choices)) + rest, |Listed(choices)|;
    assert p == open + body;
    ListedIsRead(choices, rest);
    IndexShift(open, body, CLOSE_LIST, 0);
    assert p[0] == OPEN_LIST;
    SameIndex(p, CLOSE_LIST, 1);
    ChoicesShift(open, body, 0, n);
  }

  lemma SimpleIsRead(e: Piece, rest: Bytes)
    requires IsPiece(e) && !e.Bracket? && !e.Braces?
    requires e.AnyName? && 0 < |rest| ==> rest[0] != STAR
    requires e == Itself(SLASH) && 0 < |rest| ==> rest[0] != SLASH
    requires e.AnyPath? ==> 0 < |rest| && rest[0] == SLASH && (1 < |rest| ==> rest[1] != SLASH)
    ensures Next(PrintPiece(e) + rest, 0) == (TokOf(e), 1)
  {
    hide Ranges, Choices, IndexOf;
    var p := PrintPiece(e) + rest;
    assert 0 < |rest| ==> p[1] == rest[0];
    assert 1 < |rest| ==> p[2] == rest[1];
    if e.AnyName? {
      assert AfterRun(p, STAR, 1) == 1;
    } else if e.AnyPath? {
      assert AfterRun(p, SLASH, 2) == 2 && AfterRun(p, SLASH, 1) == 2;
    }
  }

  /** A piece in front of whatever fits behind it is read as that piece. */
  lemma PieceIsRead(es: seq<Piece>)
    requires ArePieces(es) && 0 < |es|
    ensures Next(Print(es), 0) == (TokOf(es[0]), |PrintPiece(es[0])|)
  {
    hide Next, Concatenated, Listed, AreItemTexts, Print;
    TailIsPieces(es);
    var e, rest := es[0], Print(es[1..]);
    PrintFirst(es);
    match e
    case Bracket(negate, items) => BracketIsRead(negate, items, rest);
    case Braces(choices) => BracesAreRead(choices, rest);
    case _ => SimpleIsRead(e, rest);
  }

  /** The first character behind a piece. */
  lemma PrintFirst(es: seq<Piece>)
    requires ArePieces(es) && 0 < |es| && ArePieces(es[1..])
    ensures var rest := Print(es[1..]);
      && Print(es) == PrintPiece(es[0]) + rest
      && (es[0].AnyName? && 0 < |rest| ==> rest[0] != STAR)
      && (es[0] == Itself(SLASH) && 0 < |rest| ==> rest[0] != SLASH)
      && (es[0].AnyPath? ==> 0 < |rest| && rest[0] == SLASH && (1 < |rest| ==> rest[1] != SLASH))
  {
  }

  lemma PieceTakes(e: Piece, t: Bytes)
    requires IsPiece(e)
    ensures Takes(TokOf(e), t) <==> Means(e, t)
  {
    if e.Bracket? && |t| == 1 {
      forall i | 0 <= i < |e.items|
        ensures RangesOf(e.items)[i].lo <= t[0] <= RangesOf(e.items)[i].hi <==> InItemText(e.items[i], t[0])
      {
      }
    }
  }

  /** Main result: with lists uncommitted, a printed pattern matches exactly what its pieces stand for
      one after the other. */
  lemma {:induction false} PrintedMatches(es: seq<Piece>, s: Bytes)
    requires ArePieces(es)
    ensures Matches(Print(es), 0, s, false) <==> Spells(es, s)
    decreases |es|
  {
    hide Next, Takes, Means, TokOf, IsPiece, PrintPiece, Matches;
    if |es| == 0 {
      NothingMatches(s);
    } else {
      TailIsPieces(es);
      var text, rest := PrintPiece(es[0]), Print(es[1..]);
      assert Print(es) == text + rest;
      PieceIsRead(es);
      forall k | 0 <= k <= |s|
        ensures Takes(TokOf(es[0]), s[..k]) <==> Means(es[0], s[..k])
        ensures Matches(text + rest, |text|, s[k..], false) <==> Spells(es[1..], s[k..])
      {
        PieceTakes(es[0], s[..k]);
        MatchesShift(text, rest, 0, s[k..]);
        PrintedMatches(es[1..], s[k..]);
      }
      if Matches(Print(es), 0, s, false) {
        var k := FirstTaken(Print(es), 0, s);
        assert Spells(es, s);
      }
      if Spells(es, s) {
        var k :| 0 <= k <= |s| && Means(es[0], s[..k]) && Spells(es[1..], s[k..]);
        TakeFirst(Print(es), 0, s, k);
      }
    }
  }

  lemma NothingMatches(s: Bytes)
    ensures Matches([], 0, s, false) <==> s == []
  {
  }

  /** What the full match decides of a printed pattern without losing lists. */
  lemma CommitsToSpelling(es: seq<Piece>, s: Bytes)
    requires ArePieces(es) && PrefixFree(Print(es), 0)
    ensures Matches(Print(es), 0, s, true) <==> Spells(es, s)
  {
    hide Matches, Spells, Print, PrefixFree;
    PrintedMatches(es, s);
    if Spells(es, s) { FirstChoiceIsComplete(Print(es), 0, s); }
    if Matches(Print(es), 0, s, true) { FirstChoiceIsSound(Print(es), 0, s); }
  }
}
