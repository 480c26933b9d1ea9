/** The snapshot-plus-log store as it runs (src/durability/hybrid.rs), over a `LogDir`. */
module HybridStores {
  import opened Bytes
  import opened Records
  import opened Wal
  import opened CanonicalState
  import opened LogDirs
  import opened Hybrid

  class HybridStore {
    const state: CanonicalCachedState
    const dir: LogDir<Option<Snapshot>>
    var nextSeq: nat

    ghost function Value(): Mem
      reads this, state
    {
      Mem(state.Value(), nextSeq)
    }

    ghost predicate Valid()
      reads dir
    {
      dir.disk.wal.Some?
    }

    constructor Assemble(state: CanonicalCachedState, dir: LogDir<Option<Snapshot>>, nextSeq: nat)
      ensures this.state == state && this.dir == dir && this.nextSeq == nextSeq
    {
      this.state, this.dir, this.nextSeq := state, dir, nextSeq;
    }

    static method Create(records: seq<DogRecord>, edges: seq<Edge>, dir: LogDir<Option<Snapshot>>)
      returns (store: HybridStore)
      modifies dir
      ensures store.dir == dir && store.Valid()
      ensures dir.disk == CreateDisk(old(dir.disk))
      ensures store.Value() == CreateMem(records, edges)
    {
      dir.TruncateWal();
      var state := new CanonicalCachedState.NewSequential(records, edges);
      store := new HybridStore.Assemble(state, dir, 0);
    }

    static method Open(records: seq<DogRecord>, edges: seq<Edge>, dir: LogDir<Option<Snapshot>>)
      returns (r: Result<HybridStore, Hybrid.OpenError>)
      modifies dir
      ensures r.Err? ==> OpenMem(records, edges, old(dir.disk)) == Err(r.error) && dir.disk == old(dir.disk)
      ensures r.Ok? ==>
                && r.value.dir == dir && r.value.Valid()
                && OpenMem(records, edges, old(dir.disk)) == Ok(r.value.Value())
                && dir.disk == OpenDisk(old(dir.disk))
    {
      var state: CanonicalCachedState;
      if dir.disk.base.Some? {
        state := new CanonicalCachedState.FromValue(dir.disk.base.value.state);
      } else {
        state := new CanonicalCachedState.NewSequential(records, edges);
      }
      var read := ReadWalEntries(dir.disk.wal);
      if read.Err? {
        return Err(OpenError.Serde);
      }
      var nextSeq, failed := ReplayEntries(state, Cutoff(dir.disk.base), read.value);
      if failed.Some? {
        return Err(Store(failed.value));
      }
      dir.OpenWal();
      var store := new HybridStore.Assemble(state, dir, nextSeq);
      r := Ok(store);
    }

    method Checkpoint()
      requires Valid() && nextSeq <= U64_MODULUS
      modifies dir
      ensures Valid() && Value() == old(Value())
      ensures dir.disk == old(dir.disk).(base := Some(SnapshotOf(Value())))
      ensures dir.seen == old(dir.seen) + [dir.disk]
    {
      var image := state.Snapshot();
      dir.WriteBase(Some(Snapshot(if nextSeq == 0 then None else Some(nextSeq - 1), image)));
    }

    /** Logged first, then applied: an unknown id is refused only after its entry is in the log. */
    method UpdateAge(id: Uuid, age: u32) returns (r: Result<(), StoreError>)
      requires Valid() && nextSeq < U64_MODULUS
      modifies this, state, dir
      ensures Valid()
      ensures r == Verdict(UpdateState(old(state.Value()), id, age))
      ensures dir.disk == Appended(old(dir.disk), Entry(old(Value()), id, age))
      ensures Value() == UpdateMem(old(Value()), id, age)
      ensures dir.seen == old(dir.seen) + AppendTrace(old(dir.disk), Entry(old(Value()), id, age))
    {
      dir.AppendWalEntry(WalEntry(nextSeq, id, age));
      nextSeq := nextSeq + 1;
      r := state.UpdateAge(id, age);
    }

    method Get(id: Uuid) returns (r: Option<DogRecord>)
      ensures r == if id in state.records then Some(state.records[id]) else None
    {
      r := state.Get(id);
    }
  }

  /** The replay loop of `open`: apply what lies after the cutoff, stop at the first refusal. */
  method ReplayEntries(state: CanonicalCachedState, cutoff: Option<u64>, entries: seq<WalEntry>)
    returns (nextSeq: nat, failed: Option<StoreError>)
    modifies state
    ensures nextSeq == NextSeq(entries) || failed.Some?
    ensures Replay(old(state.Value()), AfterCutoff(cutoff, entries))
            == if failed.Some? then Err(failed.value) else Ok(state.Value())
  {
    nextSeq, failed := 0, None;
    ghost var start := state.Value();
    assert entries[0..] == entries;
    for i := 0 to |entries|
      invariant failed == None && nextSeq == NextSeq(entries[..i])
      invariant Replay(start, AfterCutoff(cutoff, entries))
             == Replay(state.Value(), AfterCutoff(cutoff, entries[i..]))
    {
      var entry := entries[i];
      ReplayAfterAt(state.Value(), cutoff, entries, i);
      assert entries[..i + 1][..i] == entries[..i];
      if cutoff == None || entry.seqNo > cutoff.value {
        var r := state.UpdateAge(entry.id, entry.age);
        if r.Err? {
          return nextSeq, Some(r.error);
        }
      }
      nextSeq := if nextSeq >= entry.seqNo + 1 then nextSeq else entry.seqNo + 1;
    }
    assert entries[..|entries|] == entries;
  }

  /** One step of the loop: what is left to replay is this entry, if it is after the cutoff, and the rest. */
  lemma ReplayAfterAt(s: State, cutoff: Option<u64>, entries: seq<WalEntry>, i: nat)
    requires i < |entries|
    ensures
      var e, rest := entries[i], AfterCutoff(cutoff, entries[i + 1..]);
      var updated := UpdateState(s, e.id, e.age);
      Replay(s, AfterCutoff(cutoff, entries[i..]))
      == if cutoff != None && e.seqNo <= cutoff.value then Replay(s, rest)
         else if updated.Ok? then Replay(updated.value, rest) else updated
  {
    var e, rest := entries[i], AfterCutoff(cutoff, entries[i + 1..]);
    assert entries[i..][1..] == entries[i + 1..];
    assert [] + rest == rest && ([e] + rest)[1..] == rest;
  }
}
