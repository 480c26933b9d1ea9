/**
 A history of writes, `id` to value, oldest first, and what is left of it: the last value written
 under each id. What a store shows after a run is stated in these terms.
 */
module Histories {
  import opened Bytes

  /** Collecting pairs into a `HashMap`: a repeated id keeps its last value. */
  function LastOf<V>(sets: seq<(Uuid, V)>): map<Uuid, V> {
    if sets == [] then map[]
    else LastOf(sets[..|sets| - 1])[sets[|sets| - 1].0 := sets[|sets| - 1].1]
  }

  /** No later write has the same id. */
  predicate StandsLast<V>(sets: seq<(Uuid, V)>, j: nat)
    requires j < |sets|
  {
    forall m | j < m < |sets| :: sets[m].0 != sets[j].0
  }

  lemma {:induction false} LastOfIds<V>(sets: seq<(Uuid, V)>, id: Uuid)
    ensures id in LastOf(sets) <==> exists j :: 0 <= j < |sets| && sets[j].0 == id
  {
    if sets != [] {
      var n := |sets| - 1;
      LastOfIds(sets[..n], id);
      if j :| 0 <= j < n && sets[..n][j].0 == id {
        assert sets[j].0 == id;
      }
      if j :| 0 <= j < |sets| && sets[j].0 == id {
        assert j < n ==> sets[..n][j].0 == id;
        assert j == n || j < n;
      }
      assert sets[n].0 == id ==> id in LastOf(sets);
    }
  }

  lemma {:induction false} LastOfAt<V>(sets: seq<(Uuid, V)>, j: nat)
    requires j < |sets| && StandsLast(sets, j)
    ensures sets[j].0 in LastOf(sets) && LastOf(sets)[sets[j].0] == sets[j].1
  {
    var n := |sets| - 1;
    if j < n {
      assert sets[n].0 != sets[j].0;
      assert sets[..n][j] == sets[j];
      LastOfAt(sets[..n], j);
    }
  }

  /** The value of an id that had `seed` before the writes. */
  function SetLast<V>(sets: seq<(Uuid, V)>, id: Uuid, seed: V): V {
    if id in LastOf(sets) then LastOf(sets)[id] else seed
  }

  /** The last write of the id, or the seed when there was none. */
  lemma SetLastIs<V>(sets: seq<(Uuid, V)>, id: Uuid, seed: V)
    ensures forall j | 0 <= j < |sets| && sets[j].0 == id && StandsLast(sets, j) :: SetLast(sets, id, seed) == sets[j].1
    ensures (forall j | 0 <= j < |sets| :: sets[j].0 != id) ==> SetLast(sets, id, seed) == seed
  {
    LastOfIds(sets, id);
    forall j | 0 <= j < |sets| && sets[j].0 == id && StandsLast(sets, j)
      ensures SetLast(sets, id, seed) == sets[j].1
    {
      LastOfAt(sets, j);
    }
  }

  lemma SetLastSnoc<V>(sets: seq<(Uuid, V)>, written: Uuid, value: V, id: Uuid, seed: V)
    ensures SetLast(sets + [(written, value)], id, seed) == if written == id then value else SetLast(sets, id, seed)
  {
    assert (sets + [(written, value)])[..|sets|] == sets;
  }
}
