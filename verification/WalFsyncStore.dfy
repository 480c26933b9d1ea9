/** The fsync-per-write log store as it runs (src/durability/wal_fsync.rs), over a `LogDir`. */
module WalFsyncStores {
  import opened Bytes
  import opened Records
  import opened Wal
  import opened CanonicalState
  import opened LogDirs
  import opened WalFsync

  class WalFsyncStore {
    const state: CanonicalCachedState
    const dir: LogDir<Option<State>>
    var nextSeq: nat

    ghost function Value(): Mem
      reads this, state
    {
      Mem(state.Value(), nextSeq)
    }

    ghost predicate Valid()
      reads dir
    {
      dir.disk.wal.Some?
    }

    constructor Assemble(state: CanonicalCachedState, dir: LogDir<Option<State>>, nextSeq: nat)
      ensures this.state == state && this.dir == dir && this.nextSeq == nextSeq
    {
      this.state, this.dir, this.nextSeq := state, dir, nextSeq;
    }

    static method Create(records: seq<DogRecord>, edges: seq<Edge>, dir: LogDir<Option<State>>)
      returns (store: WalFsyncStore)
      modifies dir
      ensures store.dir == dir && store.Valid()
      ensures dir.disk == old(dir.disk).(wal := Some([]))
      ensures store.Value() == Mem(NewState(records, edges), 0)
    {
      dir.TruncateWal();
      var state := new CanonicalCachedState.NewSequential(records, edges);
      store := new WalFsyncStore.Assemble(state, dir, 0);
    }

    static method Open(records: seq<DogRecord>, edges: seq<Edge>, dir: LogDir<Option<State>>)
      returns (r: Result<WalFsyncStore, WalFsync.OpenError>)
      modifies dir
      ensures r.Err? ==> OpenMem(records, edges, old(dir.disk)) == Err(r.error) && dir.disk == old(dir.disk)
      ensures r.Ok? ==>
                && r.value.dir == dir && r.value.Valid()
                && OpenMem(records, edges, old(dir.disk)) == Ok(r.value.Value())
                && dir.disk == OpenDisk(old(dir.disk))
    {
      var state: CanonicalCachedState;
      if dir.disk.base.Some? {
        state := new CanonicalCachedState.FromValue(dir.disk.base.value);
      } else {
        state := new CanonicalCachedState.NewSequential(records, edges);
      }
      var read := ReadWalEntries(dir.disk.wal);
      if read.Err? {
        return Err(OpenError.Serde);
      }
      var nextSeq, failed := ReplayAll(state, read.value);
      if failed.Some? {
        return Err(Store(failed.value));
      }
      dir.OpenWal();
      var store := new WalFsyncStore.Assemble(state, dir, nextSeq);
      r := Ok(store);
    }

    /** Two writes: the base snapshot, then the truncated log. */
    method Checkpoint()
      requires Valid()
      modifies dir
      ensures Valid() && Value() == old(Value())
      ensures dir.disk == AfterCheckpoint(old(dir.disk), Value())
      ensures dir.seen == old(dir.seen) + [MidCheckpoint(old(dir.disk), Value()), dir.disk]
    {
      var image := state.Snapshot();
      dir.WriteBase(Some(image));
      dir.TruncateWal();
    }

    /** Logged and synced first, then applied: an unknown id is refused only after its entry is on disk. */
    method UpdateAge(id: Uuid, age: u32) returns (r: Result<(), StoreError>)
      requires Valid() && nextSeq < U64_MODULUS
      modifies this, state, dir
      ensures Valid()
      ensures r == Verdict(UpdateState(old(state.Value()), id, age))
      ensures dir.disk == Appended(old(dir.disk), Entry(old(Value()), id, age))
      ensures Value() == UpdateMem(old(Value()), id, age)
      ensures dir.seen == old(dir.seen) + AppendTrace(old(dir.disk), Entry(old(Value()), id, age))
    {
      dir.AppendWalEntry(WalEntry(nextSeq, id, age));
      nextSeq := nextSeq + 1;
      r := state.UpdateAge(id, age);
    }
  }

  /** The replay loop of `open`. */
  method ReplayAll(state: CanonicalCachedState, entries: seq<WalEntry>)
    returns (nextSeq: nat, failed: Option<StoreError>)
    modifies state
    ensures nextSeq == NextSeq(entries) || failed.Some?
    ensures Replay(old(state.Value()), entries) == if failed.Some? then Err(failed.value) else Ok(state.Value())
  {
    nextSeq, failed := 0, None;
    assert entries[0..] == entries;
    for i := 0 to |entries|
      invariant failed == None && nextSeq == NextSeq(entries[..i])
      invariant Replay(old(state.Value()), entries) == Replay(state.Value(), entries[i..])
    {
      ReplayAt(state.Value(), entries, i);
      assert entries[..i + 1][..i] == entries[..i];
      var r := state.UpdateAge(entries[i].id, entries[i].age);
      if r.Err? {
        return nextSeq, Some(r.error);
      }
      nextSeq := entries[i].seqNo + 1;
    }
    assert entries[..|entries|] == entries;
  }
}
