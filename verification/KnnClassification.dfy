/** RapidLib's knnClassification.cpp: choosing the k nearest examples and letting them vote. */
module KnnClassification {

  /** One entry of nearestNeighbours or farthestNN: an index and a distance. */
  datatype Neighbour = Neighbour(index: nat, distance: real)

  // ----- how many neighbours

  /** updateK: nothing happens while the wished number is in use. */
  function UpdatedK(currentK: nat, desiredK: nat, examples: nat): (k: nat)
    ensures currentK != desiredK ==> k <= desiredK && k <= examples && (k == desiredK || k == examples)
    ensures currentK == desiredK ==> k == currentK
  {
    if currentK != desiredK then (if desiredK < examples then desiredK else examples) else currentK
  }

  /** The number fits the examples exactly when it was not already the wished one with too few of them. */
  lemma UpdatedKFits(currentK: nat, desiredK: nat, examples: nat)
    ensures UpdatedK(currentK, desiredK, examples) <= examples <==> !(currentK == desiredK && examples < desiredK)
    ensures UpdatedK(currentK, desiredK, examples) <= desiredK
  {
  }

  // ----- the k nearest

  predicate Distinct(nearest: seq<Neighbour>) {
    forall i, j :: 0 <= i < j < |nearest| ==> nearest[i].index != nearest[j].index
  }

  /** Entries that name examples among the first n, with their distances. */
  predicate Faithful(nearest: seq<Neighbour>, distances: seq<real>, n: nat) {
    forall i :: 0 <= i < |nearest| ==>
      nearest[i].index < n <= |distances| && nearest[i].distance == distances[nearest[i].index]
  }

  predicate Kept(nearest: seq<Neighbour>, index: nat) {
    exists i :: 0 <= i < |nearest| && nearest[i].index == index
  }

  /** No example among the first n that was not kept is nearer than `limit`. */
  predicate NoneNearer(nearest: seq<Neighbour>, distances: seq<real>, n: nat, limit: real)
    requires n <= |distances|
  {
    forall e :: 0 <= e < n && !Kept(nearest, e) ==> limit <= distances[e]
  }

  /** `limit` is the greatest distance kept, at position `at` unless it is zero. */
  predicate IsFarthest(nearest: seq<Neighbour>, at: nat, limit: real) {
    && 0.0 <= limit && (forall i :: 0 <= i < |nearest| ==> nearest[i].distance <= limit)
    && (0.0 < limit ==> at < |nearest| && nearest[at].distance == limit)
  }

  /** The inner scan for the farthest of those kept. */
  method Farthest(nearest: seq<Neighbour>) returns (at: nat, limit: real)
    ensures IsFarthest(nearest, at, limit)
  {
    at, limit := 0, 0.0;
    for n := 0 to |nearest|
      invariant IsFarthest(nearest[..n], at, limit)
    {
      if nearest[n].distance > limit {
        at, limit := n, nearest[n].distance;
      }
      assert nearest[..n + 1] == nearest[..n] + [nearest[n]];
    }
    assert nearest[..|nearest|] == nearest;
  }

  /** Replacing the farthest by a nearer example keeps the choice right. */
  lemma Replaced(nearest: seq<Neighbour>, distances: seq<real>, n: nat, at: nat, limit: real)
    requires n < |distances| && Faithful(nearest, distances, n) && Distinct(nearest)
    requires NoneNearer(nearest, distances, n, limit) && IsFarthest(nearest, at, limit) && at < |nearest| && 0.0 < limit
    requires distances[n] < limit
    ensures var after := nearest[at := Neighbour(n, distances[n])];
      Faithful(after, distances, n + 1) && Distinct(after) && NoneNearer(after, distances, n + 1, limit)
  {
    var after := nearest[at := Neighbour(n, distances[n])];
    forall e | 0 <= e < n + 1 && !Kept(after, e) ensures limit <= distances[e] {
      assert after[at].index == n;
      if Kept(nearest, e) {
        var i :| 0 <= i < |nearest| && nearest[i].index == e;
        assert after[i] == nearest[i] || i == at;
      }
    }
  }

  /** The first n examples, in order. */
  function First(distances: seq<real>, n: nat): (r: seq<Neighbour>)
    requires n <= |distances|
    ensures |r| == n
  {
    seq(n, i requires 0 <= i < n => Neighbour(i, distances[i]))
  }

  /** Entries that were never filled name example 0 at distance zero. */
  function Unfilled(n: nat): (r: seq<Neighbour>)
    ensures |r| == n
  {
    seq(n, _ => Neighbour(0, 0.0))
  }

  /** The choice of `run`: k examples, and none of the others is strictly nearer than any of them. With
      fewer than k examples all are chosen and the other entries stay unfilled. */
  method Nearest(distances: seq<real>, k: nat) returns (nearest: seq<Neighbour>)
    requires forall e :: 0 <= e < |distances| ==> 0.0 <= distances[e]
    ensures |nearest| == k
    ensures k <= |distances| ==> Distinct(nearest) && Faithful(nearest, distances, |distances|)
    ensures k <= |distances| ==>
      forall e, i :: 0 <= e < |distances| && 0 <= i < k && !Kept(nearest, e) ==> nearest[i].distance <= distances[e]
    ensures |distances| < k ==> nearest == First(distances, |distances|) + Unfilled(k - |distances|)
  {
    nearest := seq(k, _ => Neighbour(0, 0.0));
    assert nearest == First(distances, 0) + Unfilled(k);
    var at: nat, limit: real := 0, 0.0;
    for index := 0 to |distances|
      invariant |nearest| == k && IsFarthest(nearest, at, limit)
      invariant index <= k ==> nearest == First(distances, index) + Unfilled(k - index)
      invariant k <= index ==> Distinct(nearest) && Faithful(nearest, distances, index)
      invariant 0 < k <= index ==> NoneNearer(nearest, distances, index, limit)
    {
      var distance := distances[index];
      if index < k {
        ghost var before := nearest;
        nearest := nearest[index := Neighbour(index, distance)];
        assert nearest == First(distances, index + 1) + Unfilled(k - index - 1);
        FirstIsChoice(distances, index + 1);
        if distance > limit {
          at, limit := index, distance;
        }
        assert index + 1 == k ==> nearest == First(distances, k);
      } else if distance < limit {
        Replaced(nearest, distances, index, at, limit);
        nearest := nearest[at := Neighbour(index, distance)];
        at, limit := Farthest(nearest);
      } else {
      }
    }
    if k == 0 {
      assert nearest == [];
    }
  }

  lemma {:induction false} FirstIsChoice(distances: seq<real>, n: nat)
    requires n <= |distances|
    ensures Faithful(First(distances, n), distances, n) && Distinct(First(distances, n))
    ensures forall e :: 0 <= e < n ==> Kept(First(distances, n), e)
  {
    forall e | 0 <= e < n ensures Kept(First(distances, n), e) {
      assert First(distances, n)[e].index == e;
    }
  }

  // ----- the vote

  function Count(labels: seq<int>, tag: int): (r: nat)
    ensures r <= |labels|
    ensures 0 < r <==> tag in labels
  {
    if |labels| == 0 then 0 else (if labels[|labels| - 1] == tag then 1 else 0) + Count(labels[..|labels| - 1], tag)
  }

  /** classVoteMap in the order of its keys. */
  datatype Vote = Vote(tag: int, votes: nat)

  predicate Tally(votes: seq<Vote>, labels: seq<int>) {
    && (forall i, j :: 0 <= i < j < |votes| ==> votes[i].tag < votes[j].tag)
    && (forall i :: 0 <= i < |votes| ==> votes[i].votes == Count(labels, votes[i].tag) && 0 < votes[i].votes)
    && (forall l <- labels :: exists i :: 0 <= i < |votes| && votes[i].tag == l)
  }

  /** Finding a label's place among the keys. */
  method Place(votes: seq<Vote>, tag: int) returns (at: nat)
    requires forall i, j :: 0 <= i < j < |votes| ==> votes[i].tag < votes[j].tag
    ensures at <= |votes| && forall i :: 0 <= i < |votes| ==> (votes[i].tag < tag <==> i < at)
  {
    at := 0;
    while at < |votes| && votes[at].tag < tag
      invariant at <= |votes| && forall i :: 0 <= i < at ==> votes[i].tag < tag
    {
      at := at + 1;
    }
  }

  method CountVotes(labels: seq<int>) returns (votes: seq<Vote>)
    ensures Tally(votes, labels)
  {
    votes := [];
    for n := 0 to |labels|
      invariant Tally(votes, labels[..n])
    {
      var tag := labels[n];
      var at := Place(votes, tag);
      CountNext(labels[..n], tag);
      assert labels[..n + 1] == labels[..n] + [tag];
      if at == |votes| || votes[at].tag != tag {
        ghost var before := votes;
        votes := votes[..at] + [Vote(tag, 1)] + votes[at..];
        Inserted(before, labels[..n], tag, at);
      } else {
        ghost var before := votes;
        votes := votes[at := Vote(tag, votes[at].votes + 1)];
        Raised(before, labels[..n], tag, at);
      }
    }
    assert labels[..|labels|] == labels;
  }

  lemma CountNext(labels: seq<int>, tag: int)
    ensures forall l :: Count(labels + [tag], l) == Count(labels, l) + if l == tag then 1 else 0
  {
    assert (labels + [tag])[..|labels|] == labels;
  }

  /** One more key between those below and those above it. */
  lemma Inserted(before: seq<Vote>, labels: seq<int>, tag: int, at: nat)
    requires Tally(before, labels) && at <= |before| && (at == |before| || before[at].tag != tag)
    requires forall i :: 0 <= i < |before| ==> (before[i].tag < tag <==> i < at)
    ensures Tally(before[..at] + [Vote(tag, 1)] + before[at..], labels + [tag])
  {
    hide Count;
    var after := before[..at] + [Vote(tag, 1)] + before[at..];
    InsertedSorted(before, tag, at);
    InsertedKeys(before, labels, tag, at);
    InsertedVotes(before, labels, tag, at);
  }

  lemma InsertedVotes(before: seq<Vote>, labels: seq<int>, tag: int, at: nat)
    requires Tally(before, labels) && at <= |before| && (at == |before| || before[at].tag != tag)
    requires forall i :: 0 <= i < |before| ==> (before[i].tag < tag <==> i < at)
    ensures var after := before[..at] + [Vote(tag, 1)] + before[at..];
      forall i :: 0 <= i < |after| ==> after[i].votes == Count(labels + [tag], after[i].tag) && 0 < after[i].votes
  {
    hide Count;
    var after := before[..at] + [Vote(tag, 1)] + before[at..];
    CountNext(labels, tag);
    forall i | 0 <= i < |after| ensures after[i].votes == Count(labels + [tag], after[i].tag) && 0 < after[i].votes {
      if i < at {
        assert after[i] == before[i];
      } else if i > at {
        assert after[i] == before[i - 1];
        Above(before, tag, at, i - 1);
      }
    }
  }

  lemma InsertedSorted(before: seq<Vote>, tag: int, at: nat)
    requires forall i, j :: 0 <= i < j < |before| ==> before[i].tag < before[j].tag
    requires at <= |before| && (at == |before| || before[at].tag != tag)
    requires forall i :: 0 <= i < |before| ==> (before[i].tag < tag <==> i < at)
    ensures var after := before[..at] + [Vote(tag, 1)] + before[at..];
      forall i, j :: 0 <= i < j < |after| ==> after[i].tag < after[j].tag
  {
    var after := before[..at] + [Vote(tag, 1)] + before[at..];
    forall i, j | 0 <= i < j < |after| ensures after[i].tag < after[j].tag {
      if i == at { Above(before, tag, at, j - 1); }
    }
  }

  lemma InsertedKeys(before: seq<Vote>, labels: seq<int>, tag: int, at: nat)
    requires forall l <- labels :: exists i :: 0 <= i < |before| && before[i].tag == l
    requires at <= |before|
    ensures var after := before[..at] + [Vote(tag, 1)] + before[at..];
      forall l <- labels + [tag] :: exists i :: 0 <= i < |after| && after[i].tag == l
  {
    var after := before[..at] + [Vote(tag, 1)] + before[at..];
    forall l | l in labels + [tag] ensures exists i :: 0 <= i < |after| && after[i].tag == l {
      if l == tag {
        assert after[at].tag == l;
      } else {
        var i :| 0 <= i < |before| && before[i].tag == l;
        assert after[if i < at then i else i + 1].tag == l;
      }
    }
  }

  lemma Above(before: seq<Vote>, tag: int, at: nat, j: nat)
    requires forall i, j :: 0 <= i < j < |before| ==> before[i].tag < before[j].tag
    requires at <= j < |before| && before[at].tag != tag && !(before[at].tag < tag)
    ensures tag < before[j].tag
  {
  }

  lemma Raised(before: seq<Vote>, labels: seq<int>, tag: int, at: nat)
    requires Tally(before, labels) && at < |before| && before[at].tag == tag
    ensures Tally(before[at := Vote(tag, before[at].votes + 1)], labels + [tag])
  {
    hide Count;
    var after := before[at := Vote(tag, before[at].votes + 1)];
    CountNext(labels, tag);
    forall l | l in labels + [tag] ensures exists i :: 0 <= i < |after| && after[i].tag == l {
      if l == tag {
        assert after[at].tag == l;
      } else {
        var i :| 0 <= i < |before| && before[i].tag == l;
        assert after[i].tag == l;
      }
    }
  }

  /** One label has more votes than another, or as many and is not greater. */
  predicate Beats(labels: seq<int>, found: int, other: int) {
    || Count(labels, other) < Count(labels, found)
    || (Count(labels, other) == Count(labels, found) && found <= other)
  }

  lemma NoVotes(votes: seq<Vote>, labels: seq<int>)
    requires Tally(votes, labels)
    ensures labels == [] ==> votes == []
  {
    if 0 < |votes| { assert 0 < votes[0].votes == Count(labels, votes[0].tag); }
  }

  /** The winner: most votes, and the smallest label among equals; zero when nobody votes. */
  method Winner(labels: seq<int>) returns (found: int)
    ensures labels == [] ==> found == 0
    ensures labels != [] ==> found in labels
    ensures forall l <- labels :: Beats(labels, found, l)
  {
    var votes := CountVotes(labels);
    found := 0;
    var most := 0;
    ghost var w := 0;
    for i := 0 to |votes|
      invariant i == 0 ==> most == 0 && found == 0
      invariant 0 < i ==> most == Count(labels, found) && 0 < most && w < i && votes[w].tag == found
      invariant forall j :: 0 <= j < i ==> votes[j].votes < most || (votes[j].votes == most && found <= votes[j].tag)
    {
      if votes[i].votes > most {
        most, found, w := votes[i].votes, votes[i].tag, i;
      }
    }
    NoVotes(votes, labels);
    forall l | l in labels
      ensures 0 < |votes|
        && Beats(labels, found, l)
    {
      var i :| 0 <= i < |votes| && votes[i].tag == l;
    }
    if labels != [] {
      assert labels[0] in labels && 0 < Count(labels, labels[0]);
      assert 0 < Count(labels, found);
    }
  }

  /** C's round: halves go away from zero. */
  function Round(x: real): (r: int)
    ensures 0.0 <= x ==> x - 0.5 < r as real <= x + 0.5
    ensures x < 0.0 ==> x - 0.5 <= r as real < x + 0.5
  {
    if x >= 0.0 then (x + 0.5).Floor else -((-x + 0.5).Floor)
  }

  /** `run`, for distances already computed and the examples' outputs. */
  method Classify(distances: seq<real>, outputs: seq<real>, k: nat) returns (tag: int, nearest: seq<Neighbour>)
    requires |distances| == |outputs| && (k == 0 || 0 < |distances|)
    requires forall e :: 0 <= e < |distances| ==> 0.0 <= distances[e]
    ensures |nearest| == k && forall i :: 0 <= i < k ==> nearest[i].index < |outputs|
    ensures k <= |distances| ==> Distinct(nearest) && Faithful(nearest, distances, |distances|)
    ensures k <= |distances| ==>
      forall e, i :: 0 <= e < |distances| && 0 <= i < k && !Kept(nearest, e) ==> nearest[i].distance <= distances[e]
    ensures |distances| < k ==> nearest == First(distances, |distances|) + Unfilled(k - |distances|)
    ensures var labels := seq(k, i requires 0 <= i < k => Round(outputs[nearest[i].index]));
      && (k == 0 ==> tag == 0) && (0 < k ==> tag in labels)
      && forall l <- labels :: Beats(labels, tag, l)
  {
    hide Count, Round;
    nearest := Nearest(distances, k);
    var chosen := nearest;
    var labels := seq(k, i requires 0 <= i < k => Round(outputs[chosen[i].index]));
    tag := Winner(labels);
  }
}
