/** fifo_map.hpp: a std::map whose comparator orders the keys by when they were added. */
module FifoMap {

  /** fifo_map_compare, for the table of timestamps. */
  predicate Less<K(==)>(stamps: map<K, nat>, a: K, b: K) {
    if a !in stamps then false
    else if b !in stamps then true
    else stamps[a] < stamps[b]
  }

  predicate Equivalent<K(==)>(stamps: map<K, nat>, a: K, b: K) {
    !Less(stamps, a, b) && !Less(stamps, b, a)
  }

  /** The comparator is a strict weak order: what std::map demands of it. */
  lemma LessIsStrictWeakOrder<K>(stamps: map<K, nat>, a: K, b: K, c: K)
    ensures !Less(stamps, a, a)
    ensures Less(stamps, a, b) && Less(stamps, b, c) ==> Less(stamps, a, c)
    ensures Equivalent(stamps, a, b) && Equivalent(stamps, b, c) ==> Equivalent(stamps, a, c)
    ensures a !in stamps ==> (Equivalent(stamps, a, b) <==> b !in stamps) && (Less(stamps, b, a) <==> b in stamps)
  {
  }

  // ----- the ordered tree as the sequence it iterates over

  /** Entries in the comparator's order, which never mentions a key without a timestamp. */
  predicate Ordered<K(==), V>(stamps: map<K, nat>, entries: seq<(K, V)>) {
    && (forall i :: 0 <= i < |entries| ==> entries[i].0 in stamps)
    && (forall i, j :: 0 <= i < j < |entries| ==> Less(stamps, entries[i].0, entries[j].0))
  }

  predicate Has<K(==), V>(entries: seq<(K, V)>, key: K) {
    exists i :: 0 <= i < |entries| && entries[i].0 == key
  }

  /** std::map's lower_bound: the first entry not below the key. */
  function LowerBound<K(==), V>(stamps: map<K, nat>, entries: seq<(K, V)>, key: K): (r: nat)
    ensures r <= |entries| && (r < |entries| ==> !Less(stamps, entries[r].0, key))
    ensures forall i :: 0 <= i < r ==> Less(stamps, entries[i].0, key)
  {
    if |entries| == 0 || !Less(stamps, entries[0].0, key) then 0 else 1 + LowerBound(stamps, entries[1..], key)
  }

  /** std::map's find: the position of an equivalent key, or the end. */
  function Find<K(==), V>(stamps: map<K, nat>, entries: seq<(K, V)>, key: K): (r: nat)
    ensures r <= |entries|
  {
    var i := LowerBound(stamps, entries, key);
    if i < |entries| && !Less(stamps, key, entries[i].0) then i else |entries|
  }

  /** Equivalence finds exactly the equal key, and the end for every absent one. */
  lemma FindIsExact<K, V>(stamps: map<K, nat>, entries: seq<(K, V)>, key: K)
    requires Ordered(stamps, entries)
    requires forall a, b :: a in stamps && b in stamps && stamps[a] == stamps[b] ==> a == b
    ensures var i := Find(stamps, entries, key);
      && (i < |entries| ==> entries[i].0 == key)
      && (i == |entries| <==> !Has(entries, key))
  {
    var i := LowerBound(stamps, entries, key);
    if Has(entries, key) {
      var j :| 0 <= j < |entries| && entries[j].0 == key;
      assert i <= j;
    }
  }

  lemma HasAppended<K, V>(entries: seq<(K, V)>, entry: (K, V), k: K)
    ensures Has(entries + [entry], k) <==> Has(entries, k) || k == entry.0
  {
    var after := entries + [entry];
    if Has(entries, k) {
      var i :| 0 <= i < |entries| && entries[i].0 == k;
      assert after[i].0 == k;
    }
    if k == entry.0 { assert after[|entries|].0 == k; }
  }

  lemma HasUpdated<K, V>(entries: seq<(K, V)>, at: nat, value: V, k: K)
    requires at < |entries|
    ensures Has(entries[at := (entries[at].0, value)], k) <==> Has(entries, k)
  {
    var after := entries[at := (entries[at].0, value)];
    if Has(entries, k) {
      var i :| 0 <= i < |entries| && entries[i].0 == k;
      assert after[i].0 == k;
    }
    if Has(after, k) {
      var i :| 0 <= i < |after| && after[i].0 == k;
      assert entries[i].0 == k;
    }
  }

  lemma HasRemoved<K, V>(entries: seq<(K, V)>, at: nat, k: K)
    requires at < |entries| && k != entries[at].0 && Has(entries, k)
    ensures Has(entries[..at] + entries[at + 1..], k)
  {
    var after := entries[..at] + entries[at + 1..];
    var i :| 0 <= i < |entries| && entries[i].0 == k;
    assert after[if i < at then i else i - 1].0 == k;
  }

  /** Without one entry and its timestamp the others are as they were. */
  lemma Removed<K, V>(stamps: map<K, nat>, entries: seq<(K, V)>, at: nat)
    requires Ordered(stamps, entries) && at < |entries| && forall k <- stamps :: Has(entries, k)
    ensures var key, after := entries[at].0, entries[..at] + entries[at + 1..];
      Ordered(stamps - {key}, after) && forall k <- stamps - {key} :: Has(after, k)
  {
    var key, after := entries[at].0, entries[..at] + entries[at + 1..];
    assert forall i :: 0 <= i < |after| ==> after[i] == entries[if i < at then i else i + 1];
    forall k | k in stamps - {key} ensures Has(after, k) {
      HasRemoved(entries, at, k);
    }
  }

  class FifoMap<K(==), V> {
    var stamps: map<K, nat>
    var timestamp: nat
    var entries: seq<(K, V)>

    /** The table knows exactly the keys of the tree, each with its own timestamp from the past. */
    ghost predicate Valid()
      reads this
    {
      && Ordered(stamps, entries)
      && (forall k <- stamps :: Has(entries, k))
      && (forall k :: k in stamps ==> stamps[k] < timestamp)
      && (forall a, b :: a in stamps && b in stamps && stamps[a] == stamps[b] ==> a == b)
    }

    constructor ()
      ensures Valid() && entries == []
    {
      stamps, timestamp, entries := map[], 1, [];
    }

    method AddKey(key: K)
      modifies this`stamps, this`timestamp
      ensures stamps == if key in old(stamps) then old(stamps) else old(stamps)[key := old(timestamp)]
      ensures timestamp == old(timestamp) + 1
    {
      if key !in stamps {
        stamps := stamps[key := timestamp];
      }
      timestamp := timestamp + 1;
    }

    /** `insert`: a new key goes to the end of the iteration, a present one changes nothing. */
    method Insert(key: K, value: V) returns (at: nat, inserted: bool)
      requires Valid()
      modifies this
      ensures Valid() && inserted == !Has(old(entries), key)
      ensures entries == if inserted then old(entries) + [(key, value)] else old(entries)
      ensures at < |entries| && entries[at].0 == key
    {
      AddKey(key);
      Added(old(stamps), entries, key, old(timestamp));
      at := Find(stamps, entries, key);
      FindIsExact(stamps, entries, key);
      inserted := at == |entries|;
      if inserted {
        at := LowerBound(stamps, entries, key);
        assert at == |entries|;
        forall k ensures Has(entries + [(key, value)], k) <==> Has(entries, k) || k == key {
          HasAppended(entries, (key, value), k);
        }
        entries := entries[..at] + [(key, value)] + entries[at..];
        assert entries == old(entries) + [(key, value)];
      }
    }

    /** `operator[]` followed by an assignment. */
    method Set(key: K, initial: V, value: V)
      requires Valid()
      modifies this
      ensures Valid()
      ensures !Has(old(entries), key) ==> entries == old(entries) + [(key, value)]
      ensures Has(old(entries), key) ==>
        exists i :: 0 <= i < |old(entries)| && old(entries)[i].0 == key && entries == old(entries)[i := (key, value)]
    {
      var at, inserted := Insert(key, initial);
      forall k ensures Has(entries[at := (key, value)], k) <==> Has(entries, k) {
        HasUpdated(entries, at, value, k);
      }
      entries := entries[at := (key, value)];
    }

    /** `erase` by key: the others keep their order. */
    method Erase(key: K) returns (erased: nat)
      requires Valid()
      modifies this
      ensures Valid() && erased == if Has(old(entries), key) then 1 else 0
      ensures erased == 0 ==> entries == old(entries)
      ensures erased == 1 ==>
        exists i :: 0 <= i < |old(entries)| && old(entries)[i].0 == key
          && entries == old(entries)[..i] + old(entries)[i + 1..]
    {
      hide LowerBound, Find, Ordered;
      var at := Find(stamps, entries, key);
      FindIsExact(stamps, entries, key);
      erased := 0;
      if at < |entries| {
        Removed(stamps, entries, at);
        entries, erased := entries[..at] + entries[at + 1..], 1;
        stamps := stamps - {key};
      }
    }

    /** `clear`; the timestamps go on from where they were. */
    method Clear()
      requires Valid()
      modifies this
      ensures Valid() && entries == []
    {
      entries, stamps := [], map[];
    }
  }

  /** A new timestamp leaves the order of the entries alone and puts the key behind all of them. */
  lemma Added<K, V>(stamps: map<K, nat>, entries: seq<(K, V)>, key: K, timestamp: nat)
    requires Ordered(stamps, entries)
    requires forall k :: k in stamps ==> stamps[k] < timestamp
    ensures key !in stamps ==>
      var after := stamps[key := timestamp];
      Ordered(after, entries) && LowerBound(after, entries, key) == |entries|
  {
  }
}
