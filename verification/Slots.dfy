/**
 What both mapped stores share: a file read as a row of `(id, value, committed)` slots, the
 `id -> position` index built over it, and the two ways a scan walks it.

 The columnar store (src/durability/mmap_store.rs) and the slot file
 (src/generic/slot_file.rs) lay the bytes out differently; both read them as `seq<Slot<V>>`.
 */
module Slots {
  import opened Bytes
  import opened Histories

  datatype Slot<+V> = Slot(id: Uuid, value: V, committed: bool)

  /** The `HashMap` an opening pass builds: for each committed id, the last position holding it. */
  function LastCommitted<V>(slots: seq<Slot<V>>): map<Uuid, nat> {
    LastCommittedBelow(slots, |slots|)
  }

  /** The same after the first `bound` steps of the pass. */
  function LastCommittedBelow<V>(slots: seq<Slot<V>>, bound: nat): map<Uuid, nat>
    requires bound <= |slots|
  {
    if bound == 0 then map[]
    else
      var earlier := LastCommittedBelow(slots, bound - 1);
      if slots[bound - 1].committed then earlier[slots[bound - 1].id := bound - 1] else earlier
  }

  lemma {:induction false} LastCommittedIsLast<V>(slots: seq<Slot<V>>, bound: nat)
    requires bound <= |slots|
    ensures IsLastCommitted(slots, bound, LastCommittedBelow(slots, bound))
  {
    if bound > 0 {
      LastCommittedIsLast(slots, bound - 1);
    }
  }

  predicate IsLastCommitted<V>(slots: seq<Slot<V>>, bound: nat, index: map<Uuid, nat>)
    requires bound <= |slots|
  {
    && Indexes(slots, index)
    && (forall id | id in index :: index[id] < bound)
    && (forall p | 0 <= p < bound && slots[p].committed ::
          slots[p].id in index && p <= index[slots[p].id])
  }

  /** Every indexed position is in range and holds a committed slot carrying the same id. */
  predicate Indexes<V>(slots: seq<Slot<V>>, index: map<Uuid, nat>) {
    forall id | id in index ::
      && index[id] < |slots|
      && slots[index[id]].id == id
      && slots[index[id]].committed
  }

  /** That description pins the index down. */
  lemma LastCommittedUnique<V>(slots: seq<Slot<V>>, bound: nat, index: map<Uuid, nat>)
    requires bound <= |slots|
    requires IsLastCommitted(slots, bound, index)
    ensures index == LastCommittedBelow(slots, bound)
  {
    LastCommittedIsLast(slots, bound);
    var other := LastCommittedBelow(slots, bound);
    forall id | id in index
      ensures id in other && index[id] == other[id]
    {
      assert slots[index[id]].id == id;
    }
    forall id | id in other
      ensures id in index
    {
      assert slots[other[id]].id == id;
    }
    assert index.Keys == other.Keys;
  }

  lemma IndexedSlot<V>(slots: seq<Slot<V>>, id: Uuid)
    requires id in LastCommitted(slots)
    ensures
      var p := LastCommitted(slots)[id];
      p < |slots| && slots[p].id == id && slots[p].committed && CommittedValues(slots)[id] == slots[p].value
  {
    LastCommittedIsLast(slots, |slots|);
  }

  /** The `id -> value` map a file holds: the committed value of each id, as an open reads it. */
  function CommittedValues<V>(slots: seq<Slot<V>>): (values: map<Uuid, V>)
    ensures values.Keys == LastCommitted(slots).Keys
  {
    LastCommittedIsLast(slots, |slots|);
    var index := LastCommitted(slots);
    map id | id in index :: slots[index[id]].value
  }

  /** Overwriting one slot's value moves no id and no marker. */
  lemma OverwriteKeepsIndex<V>(slots: seq<Slot<V>>, p: nat, value: V)
    requires p < |slots|
    ensures LastCommitted(slots[p := slots[p].(value := value)]) == LastCommitted(slots)
  {
    LastCommittedIsLast(slots, |slots|);
    var written := slots[p := slots[p].(value := value)];
    var index := LastCommitted(slots);
    forall q | 0 <= q < |written|
      ensures written[q].id == slots[q].id && written[q].committed == slots[q].committed
    {
    }
    LastCommittedUnique(written, |written|, index);
  }

  /** Writing the indexed slot of `id` changes the file's map at `id` and nowhere else. */
  lemma OverwriteUpdatesOneValue<V>(slots: seq<Slot<V>>, id: Uuid, value: V)
    requires id in LastCommitted(slots)
    ensures
      var p := LastCommitted(slots)[id];
      && p < |slots|
      && CommittedValues(slots[p := slots[p].(value := value)]) == CommittedValues(slots)[id := value]
  {
    LastCommittedIsLast(slots, |slots|);
    var index := LastCommitted(slots);
    var p := index[id];
    OverwriteKeepsIndex(slots, p, value);
    var written := slots[p := slots[p].(value := value)];
    forall other | other in index
      ensures written[index[other]].value == CommittedValues(slots)[id := value][other]
    {
      if other != id {
        assert slots[index[other]].id == other && slots[p].id == id;
      }
    }
  }

  // ----- lists of pairs, as a caller's records arrive -----

  function IdsOf<V>(entries: seq<(Uuid, V)>): set<Uuid> {
    set i | 0 <= i < |entries| :: entries[i].0
  }

  lemma {:induction false} LastOfIds<V>(entries: seq<(Uuid, V)>)
    ensures LastOf(entries).Keys == IdsOf(entries)
  {
    if entries != [] {
      var n := |entries| - 1;
      LastOfIds(entries[..n]);
      assert IdsOf(entries) == IdsOf(entries[..n]) + {entries[n].0};
    }
  }

  /** A freshly written file: one committed slot per pair, in order. */
  function SlotsOf<V>(entries: seq<(Uuid, V)>): (slots: seq<Slot<V>>)
    ensures |slots| == |entries|
    ensures forall p | 0 <= p < |slots| :: slots[p] == Slot(entries[p].0, entries[p].1, true)
  {
    seq(|entries|, p requires 0 <= p < |entries| => Slot(entries[p].0, entries[p].1, true))
  }

  lemma {:induction false} FreshFileHoldsTheList<V>(entries: seq<(Uuid, V)>)
    ensures CommittedValues(SlotsOf(entries)) == LastOf(entries)
  {
    if entries != [] {
      var rest, last := entries[..|entries| - 1], entries[|entries| - 1];
      FreshFileHoldsTheList(rest);
      AppendWins(SlotsOf(rest), last);
      assert SlotsOf(entries) == SlotsOf(rest) + [Slot(last.0, last.1, true)];
    }
  }

  /** Slots appended after the first `|slots|` do not disturb what those say. */
  lemma LastCommittedOfPrefix<V>(slots: seq<Slot<V>>, more: seq<Slot<V>>)
    ensures LastCommittedBelow(slots + more, |slots|) == LastCommitted(slots)
  {
    var grown, index := slots + more, LastCommitted(slots);
    LastCommittedIsLast(slots, |slots|);
    assert forall p | 0 <= p < |slots| :: grown[p] == slots[p];
    LastCommittedUnique(grown, |slots|, index);
  }

  /** One committed slot appended at the end wins for its id. */
  lemma AppendWins<V>(slots: seq<Slot<V>>, entry: (Uuid, V))
    ensures
      var grown := slots + [Slot(entry.0, entry.1, true)];
      && LastCommitted(grown) == LastCommitted(slots)[entry.0 := |slots|]
      && CommittedValues(grown) == CommittedValues(slots)[entry.0 := entry.1]
  {
    var last := Slot(entry.0, entry.1, true);
    LastCommittedIsLast(slots, |slots|);
    LastCommittedOfPrefix(slots, [last]);
    assert (slots + [last])[|slots|] == last;
  }

  // ----- scanning -----

  /** The positions an index points at, in ascending order, below `bound`. */
  function LivePositions(index: map<Uuid, nat>, bound: nat): (ps: seq<nat>)
    ensures Ascending(ps)
    ensures forall p :: p in ps <==> p < bound && p in index.Values
  {
    if bound == 0 then []
    else
      var below := LivePositions(index, bound - 1);
      assert forall i | 0 <= i < |below| :: below[i] in below;
      if bound - 1 in index.Values then below + [bound - 1] else below
  }

  predicate Ascending(ps: seq<nat>) {
    forall i, j | 0 <= i < j < |ps| :: ps[i] < ps[j]
  }

  /** Every slot's value, live or not, in position order. */
  function Column<V>(slots: seq<Slot<V>>): (values: seq<V>)
    ensures |values| == |slots|
    ensures forall p | 0 <= p < |values| :: values[p] == slots[p].value
  {
    seq(|slots|, p requires 0 <= p < |slots| => slots[p].value)
  }

  function ValuesAt<V>(slots: seq<Slot<V>>, ps: seq<nat>): (values: seq<V>)
    requires forall i | 0 <= i < |ps| :: ps[i] < |slots|
    ensures |values| == |ps|
    ensures forall i | 0 <= i < |values| :: values[i] == slots[ps[i]].value
  {
    seq(|ps|, i requires 0 <= i < |ps| => slots[ps[i]].value)
  }

  /** What a scan returns: the value at every live position, in position order. */
  function Scan<V>(slots: seq<Slot<V>>, index: map<Uuid, nat>): seq<V> {
    var ps := LivePositions(index, |slots|);
    assert forall i | 0 <= i < |ps| :: ps[i] in ps;
    ValuesAt(slots, ps)
  }

  lemma {:induction false} AscendingUnique(ps: seq<nat>, qs: seq<nat>)
    requires Ascending(ps) && Ascending(qs)
    requires forall p :: p in ps <==> p in qs
    ensures ps == qs
  {
    assert qs != [] ==> qs[0] in ps;
    if ps != [] {
      assert ps[0] in qs;
      assert qs[0] in ps;
      var a, b := ps[1..], qs[1..];
      forall p ensures p in a <==> p in b {
        if p in a {
          assert p in ps && p != ps[0];
          assert p in qs;
        }
        if p in b {
          assert p in qs && p != qs[0];
          assert p in ps;
        }
      }
      AscendingUnique(a, b);
      assert ps == [ps[0]] + a && qs == [qs[0]] + b;
    }
  }

  lemma {:induction false} InjectiveImageSize(index: map<Uuid, nat>)
    requires forall a, b | a in index && b in index && a != b :: index[a] != index[b]
    ensures |index.Values| == |index|
    decreases |index|
  {
    if index == map[] {
      assert index.Values == {};
    } else {
      var id :| id in index;
      var rest := index - {id};
      InjectiveImageSize(rest);
      assert index.Values == rest.Values + {index[id]} by {
        forall p | p in index.Values ensures p in rest.Values + {index[id]} {
          var a :| a in index && index[a] == p;
          if a != id { assert rest[a] == p; }
        }
      }
      assert index[id] !in rest.Values;
    }
  }

  lemma {:induction false} FullSubsetOfRange(ps: set<nat>, n: nat)
    requires forall p | p in ps :: p < n
    ensures |ps| <= n
    ensures |ps| == n ==> forall p: nat | p < n :: p in ps
  {
    if n > 0 {
      FullSubsetOfRange(ps - {n - 1}, n - 1);
    } else {
      assert ps == {};
    }
  }

  lemma IndexInjective<V>(slots: seq<Slot<V>>, index: map<Uuid, nat>)
    requires Indexes(slots, index)
    ensures forall a, b | a in index && b in index && a != b :: index[a] != index[b]
    ensures |index| <= |slots|
  {
    InjectiveImageSize(index);
    FullSubsetOfRange(index.Values, |slots|);
  }

  /** An index of as many ids as there are slots covers every slot. */
  lemma EverySlotIsLive<V>(slots: seq<Slot<V>>, index: map<Uuid, nat>)
    requires Indexes(slots, index)
    requires |index| == |slots|
    ensures forall p: nat | p < |slots| :: p in index.Values
    ensures forall p: nat | p < |slots| :: SlotIsLive(slots, index, p)
  {
    var covered := index.Values;
    IndexInjective(slots, index);
    InjectiveImageSize(index);
    FullSubsetOfRange(covered, |slots|);
    forall p: nat | p < |slots|
      ensures SlotIsLive(slots, index, p)
    {
      assert p in covered;
      var id :| id in index && index[id] == p;
      assert slots[index[id]].id == id;
    }
  }

  /** The slot is committed, and its own id's position. */
  predicate SlotIsLive<V>(slots: seq<Slot<V>>, index: map<Uuid, nat>, p: nat)
    requires p < |slots|
  {
    slots[p].committed && slots[p].id in index && index[slots[p].id] == p
  }

  /** With every position indexed, the live positions are all of them in order. */
  lemma AllPositions(index: map<Uuid, nat>, n: nat)
    requires forall p: nat | p < n :: p in index.Values
    ensures |LivePositions(index, n)| == n
    ensures forall p | 0 <= p < n :: LivePositions(index, n)[p] == p
  {
    var live := LivePositions(index, n);
    var all := seq(n, p requires 0 <= p < n => p);
    forall p ensures p in all <==> p in live {
      if 0 <= p < n { assert all[p] == p; }
    }
    AscendingUnique(all, live);
  }

  /**
   The pigeonhole argument behind the bulk scan: an index of as many ids as there are slots
   covers every slot, so walking the whole column returns exactly what walking the sorted
   positions returns.
   */
  lemma GaplessScanIsTheWholeColumn<V>(slots: seq<Slot<V>>, index: map<Uuid, nat>)
    requires Indexes(slots, index)
    requires |index| == |slots|
    ensures forall p: nat | p < |slots| :: SlotIsLive(slots, index, p)
    ensures Scan(slots, index) == Column(slots)
  {
    EverySlotIsLive(slots, index);
    AllPositions(index, |slots|);
    var scan, column := Scan(slots, index), Column(slots);
    forall p | 0 <= p < |slots|
      ensures scan[p] == column[p]
    {
      assert LivePositions(index, |slots|)[p] == p;
    }
  }

  /** A scan returns one value per live id, each the value `get` reads for that id. */
  lemma ScanReadsEachIdOnce<V>(slots: seq<Slot<V>>, index: map<Uuid, nat>) returns (ids: seq<Uuid>)
    requires Indexes(slots, index)
    ensures |ids| == |Scan(slots, index)| == |index|
    ensures forall i, j | 0 <= i < j < |ids| :: ids[i] != ids[j]
    ensures forall id :: id in ids <==> id in index
    ensures forall i | 0 <= i < |ids| :: Scan(slots, index)[i] == slots[index[ids[i]]].value
  {
    var ps := LivePositions(index, |slots|);
    ids := seq(|ps|, i requires 0 <= i < |ps| => assert ps[i] in ps; slots[ps[i]].id);
    forall i | 0 <= i < |ps|
      ensures ids[i] in index && index[ids[i]] == ps[i]
    {
      assert ps[i] in ps;
      var id :| id in index && index[id] == ps[i];
    }
    forall id | id in index
      ensures id in ids
    {
      assert index[id] in ps;
      var i :| 0 <= i < |ps| && ps[i] == index[id];
      assert ids[i] == id;
    }
    DistinctCount(ids, index.Keys);
  }

  lemma {:induction false} DistinctCount<T>(xs: seq<T>, s: set<T>)
    requires forall i, j | 0 <= i < j < |xs| :: xs[i] != xs[j]
    requires forall x :: x in xs <==> x in s
    ensures |xs| == |s|
  {
    if xs == [] {
      assert s == {};
    } else {
      var rest := xs[1..];
      assert xs == [xs[0]] + rest;
      forall x ensures x in rest <==> x in s - {xs[0]} {
        if x in rest { assert x in xs; }
        if x in s && x != xs[0] { assert x in xs; }
      }
      DistinctCount(rest, s - {xs[0]});
    }
  }

  // ----- the fallback's own steps -----

  /** `position_index.values().copied().collect()`: each position once, in no particular order. */
  method CollectPositions(index: map<Uuid, nat>) returns (ps: seq<nat>)
    requires forall a, b | a in index && b in index && a != b :: index[a] != index[b]
    ensures forall i, j | 0 <= i < j < |ps| :: ps[i] != ps[j]
    ensures forall p :: p in ps <==> p in index.Values
  {
    ps := [];
    var ids := index.Keys;
    while ids != {}
      invariant ids <= index.Keys
      invariant forall i, j | 0 <= i < j < |ps| :: ps[i] != ps[j]
      invariant forall p :: p in ps <==> exists id :: id in index.Keys - ids && index[id] == p
      decreases ids
    {
      var id :| id in ids;
      assert index[id] !in ps;
      ps := ps + [index[id]];
      ids := ids - {id};
    }
  }

  /** `sort_unstable` on distinct positions, by insertion. */
  method SortUnstable(ps: seq<nat>) returns (sorted: seq<nat>)
    requires forall i, j | 0 <= i < j < |ps| :: ps[i] != ps[j]
    ensures Ascending(sorted)
    ensures forall p :: p in sorted <==> p in ps
  {
    sorted := [];
    for i := 0 to |ps|
      invariant Ascending(sorted)
      invariant forall p :: p in sorted <==> p in ps[..i]
    {
      var at := 0;
      while at < |sorted| && sorted[at] < ps[i]
        invariant at <= |sorted|
        invariant forall j | 0 <= j < at :: sorted[j] < ps[i]
      {
        at := at + 1;
      }
      ghost var before := sorted;
      assert ps[i] !in before;
      sorted := sorted[..at] + [ps[i]] + sorted[at..];
      assert forall p :: p in sorted <==> p in before || p == ps[i];
      assert ps[..i + 1] == ps[..i] + [ps[i]];
    }
    assert ps[..|ps|] == ps;
  }

  /** The sorted positions of an index are its live positions in order. */
  method SortedPositions<V>(ghost slots: seq<Slot<V>>, index: map<Uuid, nat>) returns (ps: seq<nat>)
    requires Indexes(slots, index)
    ensures ps == LivePositions(index, |slots|)
  {
    IndexInjective(slots, index);
    var collected := CollectPositions(index);
    ps := SortUnstable(collected);
    AscendingUnique(ps, LivePositions(index, |slots|));
  }
}
