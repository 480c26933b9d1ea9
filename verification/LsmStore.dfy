/** The LSM-style store as it runs (src/durability/lsm_store.rs), over a `LogDir`. */
module LsmStores {
  import opened Bytes
  import opened Records
  import opened Wal
  import opened LogDirs
  import opened Lsm

  class LsmStore {
    const records: map<Uuid, DogRecord>
    const dir: LogDir<Files>
    var memtable: Overrides
    var flushedGenerations: nat
    var nextSeq: nat

    ghost function Value(): Mem
      reads this
    {
      Mem(memtable, flushedGenerations, nextSeq)
    }

    constructor Assemble(records: map<Uuid, DogRecord>, dir: LogDir<Files>, m: Mem)
      ensures this.records == records && this.dir == dir && Value() == m
    {
      this.records, this.dir := records, dir;
      memtable, flushedGenerations, nextSeq := m.memtable, m.flushed, m.nextSeq;
    }

    static method Create(records: seq<DogRecord>, edges: seq<Edge>, dir: LogDir<Files>) returns (store: LsmStore)
      modifies dir
      ensures store.dir == dir && store.records == ById(records) && store.Value() == Mem(map[], 0, 0)
      ensures dir.disk == old(dir.disk).(wal := Some([]))
    {
      var byId, _, _ := BuildIndexes(records, edges);
      dir.TruncateWal();
      store := new LsmStore.Assemble(byId, dir, Mem(map[], 0, 0));
    }

    static method Open(records: seq<DogRecord>, edges: seq<Edge>, dir: LogDir<Files>)
      returns (r: Result<LsmStore, ReadError>)
      modifies dir
      ensures r.Err? ==> OpenMem(old(dir.disk)) == Err(r.error) && dir.disk == old(dir.disk)
      ensures r.Ok? ==>
                && r.value.dir == dir && r.value.records == ById(records)
                && OpenMem(old(dir.disk)) == Ok(r.value.Value())
                && dir.disk == OpenDisk(old(dir.disk))
    {
      var byId, _, _ := BuildIndexes(records, edges);
      var flushed := GenerationCount(dir.disk.base);
      var read := ReadWalEntries(dir.disk.wal);
      if read.Err? {
        return Err(read.error);
      }
      var memtable, nextSeq := ReplayMemtable(read.value);
      dir.OpenWal();
      var store := new LsmStore.Assemble(byId, dir, Mem(memtable, flushed, nextSeq));
      r := Ok(store);
    }

    /** Three writes, each leaving a state a crash can leave. */
    method Flush()
      modifies this, dir
      ensures dir.disk == FlushDisk(old(dir.disk), old(Value()), 3)
      ensures Value() == FlushMem(old(Value()))
      ensures dir.seen == old(dir.seen) + [FlushDisk(old(dir.disk), old(Value()), 1),
                                           FlushDisk(old(dir.disk), old(Value()), 2), dir.disk]
    {
      dir.WriteBase(dir.disk.base.(ssts := dir.disk.base.ssts[flushedGenerations := memtable]));
      flushedGenerations := flushedGenerations + 1;
      dir.WriteBase(dir.disk.base.(generations := Some(flushedGenerations)));
      memtable := map[];
      dir.TruncateWal();
    }

    /** The id is checked before anything is logged. */
    method UpdateAge(id: Uuid, age: u32) returns (r: Result<(), StoreError>)
      requires dir.disk.wal.Some? && nextSeq < U64_MODULUS
      modifies this, dir
      ensures r == if id in records then Ok(()) else Err(NotFound(id))
      ensures r.Err? ==> dir.disk == old(dir.disk) && dir.seen == old(dir.seen) && Value() == old(Value())
      ensures r.Ok? ==>
                && dir.disk == Appended(old(dir.disk), Entry(old(Value()), id, age))
                && dir.seen == old(dir.seen) + AppendTrace(old(dir.disk), Entry(old(Value()), id, age))
                && Value() == UpdateMem(old(Value()), id, age)
    {
      if id !in records {
        return Err(NotFound(id));
      }
      dir.AppendWalEntry(WalEntry(nextSeq, id, age));
      nextSeq := nextSeq + 1;
      memtable := memtable[id := age];
      r := Ok(());
    }

    /** Memtable, then generations from the newest down, then the base record. */
    method ResolveAge(id: Uuid) returns (r: Result<Option<u32>, ResolveError>)
      ensures r == Resolve(dir.disk.base, Value(), records, id)
    {
      if id in memtable {
        return Ok(Some(memtable[id]));
      }
      var generation: nat := flushedGenerations;
      while generation > 0
        invariant generation <= flushedGenerations
        invariant Resolve(dir.disk.base, Value(), records, id) == ResolveIn(dir.disk.base, generation, records, id)
      {
        generation := generation - 1;
        if generation !in dir.disk.base.ssts {
          return Err(Io);
        }
        var sst := dir.disk.base.ssts[generation];
        if id in sst {
          return Ok(Some(sst[id]));
        }
      }
      return Ok(if id in records then Some(records[id].age) else None);
    }

    method Get(id: Uuid) returns (r: Option<DogRecord>)
      ensures
        var resolved := Resolve(dir.disk.base, Value(), records, id);
        r == if id in records && resolved.Ok? && resolved.value.Some?
             then Some(records[id].(age := resolved.value.value)) else None
    {
      if id !in records {
        return None;
      }
      var resolved := ResolveAge(id);
      if resolved.Err? || resolved.value == None {
        return None;
      }
      return Some(records[id].(age := resolved.value.value));
    }

    /** One resolved age per known id, in no particular order; an id that cannot be resolved is left out. */
    method ScanAges() returns (ages: seq<u32>)
      ensures Lists(ages, ResolvedAges(dir.disk.base, Value(), records))
    {
      ghost var table := ResolvedAges(dir.disk.base, Value(), records);
      ghost var ids: seq<Uuid> := [];
      ages := [];
      var left := records.Keys;
      while left != {}
        invariant left <= records.Keys
        invariant ListedBy(ages, ids, table - left)
        decreases left
      {
        var id :| id in left;
        var resolved := ResolveAge(id);
        KnownIdsResolveOrFail(dir.disk.base, Value(), records, id);
        if resolved.Ok? && resolved.value.Some? {
          ListOneMore(ages, ids, table - left, id, resolved.value.value);
          assert table - (left - {id}) == (table - left)[id := resolved.value.value];
          ages, ids := ages + [resolved.value.value], ids + [id];
        } else {
          assert table - (left - {id}) == table - left;
        }
        left := left - {id};
      }
      assert table - left == table;
    }
  }

  /** The replay loop of `open`. */
  method ReplayMemtable(entries: seq<WalEntry>) returns (memtable: Overrides, nextSeq: nat)
    ensures memtable == Memtable(entries) && nextSeq == NextSeq(entries)
  {
    memtable, nextSeq := map[], 0;
    for i := 0 to |entries|
      invariant memtable == Memtable(entries[..i]) && nextSeq == NextSeq(entries[..i])
    {
      assert entries[..i + 1][..i] == entries[..i];
      memtable := memtable[entries[i].id := entries[i].age];
      nextSeq := entries[i].seqNo + 1;
    }
    assert entries[..|entries|] == entries;
  }
}
