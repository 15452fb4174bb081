/** What several of the modelled files share: bytes, and the search for a character. */
module Basics {

  type byte = x: int | 0 <= x < 256

  /** The first position at or after `from` that holds c, or the end: strchr and memchr. */
  function IndexOf<T(==)>(s: seq<T>, c: T, from: nat): (r: nat)
    requires from <= |s|
    ensures from <= r <= |s| && (r < |s| ==> s[r] == c)
    ensures forall i :: from <= i < r ==> s[i] != c
    decreases |s| - from
  {
    if from == |s| || s[from] == c then from else IndexOf(s, c, from + 1)
  }

  /** Text in front of what is searched moves the result along. */
  lemma {:induction false} IndexShift<T>(before: seq<T>, t: seq<T>, c: T, from: nat)
    requires from <= |t|
    ensures IndexOf(before + t, c, |before| + from) == |before| + IndexOf(t, c, from)
    decreases |t| - from
  {
    if from < |t| {
      assert (before + t)[|before| + from] == t[from];
      if t[from] != c { IndexShift(before, t, c, from + 1); }
    }
  }

  function Concatenated<T>(ts: seq<seq<T>>): seq<T> {
    if |ts| == 0 then [] else ts[0] + Concatenated(ts[1..])
  }

  lemma ConcatenatedFirst<T>(ts: seq<seq<T>>, close: seq<T>)
    requires 0 < |ts|
    ensures Concatenated(ts) + close == ts[0] + (Concatenated(ts[1..]) + close)
    ensures |Concatenated(ts)| == |ts[0]| + |Concatenated(ts[1..])|
  {
    assert Concatenated(ts) == ts[0] + Concatenated(ts[1..]);
    hide Concatenated;
    AddAgain(ts[0], Concatenated(ts[1..]), close);
  }

  lemma AddAgain<T>(a: seq<T>, b: seq<T>, c: seq<T>)
    ensures a + b + c == a + (b + c)
  {
  }

  /** What a C int holds after an operation whose exact result is x: the value with the same 32 bits. */
  function Wrap32(x: int): (r: int)
    ensures -0x8000_0000 <= r < 0x8000_0000 && (x - r) % 0x1_0000_0000 == 0
  {
    (x + 0x8000_0000) % 0x1_0000_0000 - 0x8000_0000
  }
}
