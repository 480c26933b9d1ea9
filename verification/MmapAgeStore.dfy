/**
 The columnar store itself (src/durability/mmap_store.rs): a directory holding the ages file and
 the rewrite's temp file, and a store whose mapping is the file's own bytes.

 A mapped file is an array shared by the directory and the store, so an age write is at once a
 write to the file. The directory keeps the list of states its writes pass through: each is a
 state a crash can leave.
 */
module MmapAgeStores {
  import opened Bytes
  import opened Histories
  import opened Slots
  import opened ColumnarImage
  import opened Records
  import opened Rewrites
  import opened MmapAges

  class AgesDir {
    var file: array?<byte>
    var temp: Option<seq<byte>>
    ghost var seen: seq<DirImage>

    constructor ()
      ensures file == null && temp == None && seen == []
    {
      file, temp, seen := null, None, [];
    }

    ghost function Image(): DirImage
      reads this, file
    {
      DirImage(if file == null then None else Some(file[..]), temp)
    }

    /** The temp file, opened truncated and written byte after byte. */
    method WriteTemp(bytes: seq<byte>)
      modifies this`temp, this`seen
      ensures temp == Some(bytes)
      ensures seen == old(seen) + Trace(old(Image()), bytes)[..|bytes| + 1]
    {
      var done: seq<byte> := [];
      temp := Some(done);
      seen := seen + [Image()];
      ghost var trace := Trace(old(Image()), bytes);
      for k := 0 to |bytes|
        invariant done == bytes[..k] && temp == Some(done)
        invariant seen == old(seen) + trace[..k + 1]
      {
        done := done + [bytes[k]];
        temp := Some(done);
        seen := seen + [Image()];
        assert trace[..k + 2] == trace[..k + 1] + [trace[k + 1]];
      }
      assert bytes[..|bytes|] == bytes;
    }

    /** `rename(temp, path)` and a fresh mapping of what is now at the path. */
    method RenameTemp() returns (mmap: array<byte>)
      requires temp.Some?
      modifies this
      ensures fresh(mmap) && file == mmap && mmap[..] == old(temp).value
      ensures temp == None
      ensures seen == old(seen) + [DirImage(old(temp), None)]
    {
      var bytes := temp.value;
      mmap := new byte[|bytes|](k requires 0 <= k < |bytes| => bytes[k]);
      assert mmap[..] == bytes;
      file, temp := mmap, None;
      seen := seen + [Image()];
    }

    method WriteViaRename(entries: seq<(Uuid, u32)>) returns (mmap: array<byte>)
      requires file != null
      modifies this
      ensures fresh(mmap) && file == mmap && mmap[..] == ImageOf(entries)
      ensures seen == old(seen) + Trace(old(Image()), ImageOf(entries))
    {
      var image := BuildImage(entries);
      WriteTemp(image[..]);
      mmap := RenameTemp();
      TraceEnds(old(Image()), ImageOf(entries));
    }

    /** `create`'s truncating write; there is no earlier generation to protect. */
    method WriteFresh(entries: seq<(Uuid, u32)>) returns (mmap: array<byte>)
      modifies this`file
      ensures fresh(mmap) && file == mmap && mmap[..] == ImageOf(entries)
    {
      mmap := BuildImage(entries);
      file := mmap;
    }
  }

  function Restrict(index: map<Uuid, nat>, ids: set<Uuid>): map<Uuid, nat> {
    map id | id in ids && id in index :: index[id]
  }

  /** The enumerated ids of a list just written, collected: a repeated id keeps its last position. */
  method EnumerateIds(entries: seq<(Uuid, u32)>) returns (index: map<Uuid, nat>)
    ensures index == LastCommitted(SlotsOf(entries))
  {
    index := map[];
    for p := 0 to |entries|
      invariant index == LastCommittedBelow(SlotsOf(entries), p)
    {
      index := index[entries[p].0 := p];
    }
  }

  method RecordSeeds(records: seq<DogRecord>) returns (entries: seq<(Uuid, u32)>)
    ensures entries == Seeds(records)
  {
    entries := [];
    for i := 0 to |records|
      invariant entries == Seeds(records)[..i]
    {
      entries := entries + [(records[i].id, records[i].age)];
    }
  }

  method ReadSlot(mmap: array<byte>, count: nat, p: nat) returns (slot: Slot<u32>)
    requires mmap.Length >= 12 && count == CountOf(mmap[..]) && p < count
    ensures slot == SlotsIn(mmap[..])[p]
  {
    var idAt, ageAt := 12 + p * 16, AgesStart(count) + p * 4;
    assert mmap[idAt..idAt + 16] == mmap[..][idAt..idAt + 16];
    assert mmap[ageAt..ageAt + 4] == mmap[..][ageAt..ageAt + 4];
    slot := Slot(Uuid(mmap[idAt..idAt + 16]), ReadU32(mmap[ageAt..ageAt + 4]),
                 mmap[MarkersStart(count) + p] == COMMITTED);
  }

  /** What the first pass holds after `bound` positions: each id's last position and its value there. */
  predicate Collected(slots: seq<Slot<u32>>, bound: nat, persisted: map<Uuid, (nat, u32)>)
    requires bound <= |slots|
  {
    && persisted.Keys == LastCommittedBelow(slots, bound).Keys
    && forall id | id in persisted ::
         && persisted[id].0 == LastCommittedBelow(slots, bound)[id]
         && persisted[id].0 < bound
         && persisted[id].1 == slots[persisted[id].0].value
  }

  lemma CollectedStep(slots: seq<Slot<u32>>, bound: nat, persisted: map<Uuid, (nat, u32)>)
    requires bound < |slots| && Collected(slots, bound, persisted)
    ensures
      var slot := slots[bound];
      Collected(slots, bound + 1, if slot.committed then persisted[slot.id := (bound, slot.value)] else persisted)
  {
  }

  /** The first pass of `open`: every committed `(position, age)`, by id. */
  method CollectPersisted(mmap: array<byte>) returns (persisted: map<Uuid, (nat, u32)>)
    requires mmap.Length >= 12
    ensures persisted.Keys == LastCommitted(SlotsIn(mmap[..])).Keys
    ensures forall id | id in persisted ::
              persisted[id] == (LastCommitted(SlotsIn(mmap[..]))[id], FileAges(mmap[..])[id])
  {
    ghost var slots := SlotsIn(mmap[..]);
    persisted := map[];
    var count := RecordCountFor(mmap.Length);
    for p := 0 to count
      invariant Collected(slots, p, persisted)
    {
      var slot := ReadSlot(mmap, count, p);
      CollectedStep(slots, p, persisted);
      if slot.committed {
        persisted := persisted[slot.id := (p, slot.value)];
      }
    }
  }

  /** `records.iter().any(|r| !persisted.contains_key(&r.id))`. */
  method AnyMissing(records: seq<DogRecord>, persisted: map<Uuid, (nat, u32)>) returns (missing: bool)
    ensures missing <==> !(Ids(records) <= persisted.Keys)
  {
    missing := false;
    for i := 0 to |records|
      invariant missing <==> !(Ids(records[..i]) <= persisted.Keys)
    {
      assert records[..i + 1][..i] == records[..i];
      if records[i].id !in persisted {
        missing := true;
      }
    }
    assert records[..|records|] == records;
  }

  method ReconcileEntries(records: seq<DogRecord>, persisted: map<Uuid, (nat, u32)>, ghost ages: map<Uuid, u32>)
    returns (entries: seq<(Uuid, u32)>)
    requires persisted.Keys == ages.Keys
    requires forall id | id in persisted :: persisted[id].1 == ages[id]
    ensures entries == Reconciled(ages, records)
  {
    entries := [];
    for i := 0 to |records|
      invariant entries == Reconciled(ages, records)[..i]
    {
      var id := records[i].id;
      entries := entries + [(id, if id in persisted then persisted[id].1 else records[i].age)];
    }
  }

  method PersistedPositions(records: seq<DogRecord>, persisted: map<Uuid, (nat, u32)>, ghost index: map<Uuid, nat>)
    returns (positions: map<Uuid, nat>)
    requires Ids(records) <= persisted.Keys == index.Keys
    requires forall id | id in persisted :: persisted[id].0 == index[id]
    ensures positions == Restrict(index, Ids(records))
  {
    ByIdHoldsEach(records);
    positions := map[];
    for i := 0 to |records|
      invariant positions == Restrict(index, Ids(records[..i]))
    {
      assert records[..i + 1][..i] == records[..i];
      positions := positions[records[i].id := persisted[records[i].id].0];
    }
    assert records[..|records|] == records;
  }

  class MmapAgeStore {
    const records: map<Uuid, DogRecord>
    const breedIndex: map<Breed, seq<Uuid>>
    const adjacencyIndex: map<Uuid, seq<Uuid>>
    const positionIndex: map<Uuid, nat>
    const mmap: array<byte>

    ghost predicate Valid()
      reads mmap
    {
      && mmap.Length >= 12
      && MmapAges.Valid(Value())
      && positionIndex == Restrict(LastCommitted(SlotsIn(mmap[..])), records.Keys)
    }

    ghost function Value(): Store
      reads mmap
    {
      Store(mmap[..], records.Keys)
    }

    constructor Assemble(records: map<Uuid, DogRecord>, breedIndex: map<Breed, seq<Uuid>>,
                         adjacencyIndex: map<Uuid, seq<Uuid>>, positionIndex: map<Uuid, nat>, mmap: array<byte>)
      ensures this.records == records && this.breedIndex == breedIndex
      ensures this.adjacencyIndex == adjacencyIndex
      ensures this.positionIndex == positionIndex && this.mmap == mmap
    {
      this.records, this.breedIndex, this.adjacencyIndex := records, breedIndex, adjacencyIndex;
      this.positionIndex, this.mmap := positionIndex, mmap;
    }

    ghost predicate BuiltFrom(records: seq<DogRecord>, edges: seq<Edge>) {
      && this.records == ById(records)
      && breedIndex == BreedIndex(records)
      && adjacencyIndex == AdjacencyIndex(edges)
    }

    static method Create(records: seq<DogRecord>, edges: seq<Edge>, dir: AgesDir) returns (store: MmapAgeStore)
      modifies dir
      ensures fresh(store.mmap) && dir.file == store.mmap
      ensures store.Valid() && store.BuiltFrom(records, edges)
      ensures store.Value() == CreateStore(records)
    {
      var byId, breeds, adjacency := BuildIndexes(records, edges);
      var entries := RecordSeeds(records);
      var positions := EnumerateIds(entries);
      var mmap := dir.WriteFresh(entries);
      store := new MmapAgeStore.Assemble(byId, breeds, adjacency, positions, mmap);
      SeedsById(records);
      FreshStoreIsValid(entries, Ids(records));
    }

    static method Open(records: seq<DogRecord>, edges: seq<Edge>, dir: AgesDir)
      returns (r: Result<MmapAgeStore, OpenError>)
      modifies dir
      ensures old(dir.file) == null ==> r == Err(NoSuchFile)
      ensures old(dir.file) != null ==>
                && r.Err? == ReadHeader(old(dir.file[..])).Some?
                && (r.Err? ==> Some(r.error) == ReadHeader(old(dir.file[..])))
      ensures r.Err? ==> dir.file == old(dir.file) && dir.temp == old(dir.temp) && dir.seen == old(dir.seen)
      ensures r.Ok? ==>
                && dir.file == r.value.mmap
                && r.value.Valid() && r.value.BuiltFrom(records, edges)
                && r.value.Value() == OpenStore(old(dir.file[..]), records)
      ensures r.Ok? ==>
                dir.seen == old(dir.seen)
                            + if Ids(records) <= FileAges(old(dir.file[..])).Keys then []
                              else Trace(old(dir.Image()), OpenImage(old(dir.file[..]), records))
    {
      if dir.file == null {
        return Err(NoSuchFile);
      }
      var file: array<byte> := dir.file;
      var problem := CheckHeader(file);
      if problem.Some? {
        return Err(problem.value);
      }
      var byId, breeds, adjacency := BuildIndexes(records, edges);
      var persisted := CollectPersisted(file);
      var missing := AnyMissing(records, persisted);
      ghost var ages := FileAges(file[..]);
      if missing {
        var entries := ReconcileEntries(records, persisted, ages);
        var mmap := dir.WriteViaRename(entries);
        var positions := EnumerateIds(entries);
        var store := new MmapAgeStore.Assemble(byId, breeds, adjacency, positions, mmap);
        ReconciledById(ages, records);
        FreshStoreIsValid(entries, Ids(records));
        r := Ok(store);
      } else {
        var positions := PersistedPositions(records, persisted, LastCommitted(SlotsIn(file[..])));
        var store := new MmapAgeStore.Assemble(byId, breeds, adjacency, positions, file);
        r := Ok(store);
      }
    }

    method ReadAge(position: nat) returns (age: u32)
      requires mmap.Length >= 12 && position < CountOf(mmap[..])
      ensures age == SlotsIn(mmap[..])[position].value
    {
      var start := AgesStart(RecordCountFor(mmap.Length)) + position * 4;
      assert mmap[start..start + 4] == mmap[..][start..start + 4];
      age := ReadU32(mmap[start..start + 4]);
    }

    method Get(id: Uuid) returns (r: Option<DogRecord>)
      requires Valid()
      ensures r == if id in records then Some(records[id].(age := FileAges(mmap[..])[id])) else None
    {
      if id !in records || id !in positionIndex {
        return None;
      }
      IndexedSlot(SlotsIn(mmap[..]), id);
      var age := ReadAge(positionIndex[id]);
      r := Some(DogRecord(records[id].id, records[id].breed, age));
    }

    method WriteAge(position: nat, age: u32)
      requires mmap.Length >= 12 && position < CountOf(mmap[..])
      modifies mmap
      ensures mmap[..] == WithAge(old(mmap[..]), position, age)
    {
      var start := AgesStart(RecordCountFor(mmap.Length)) + position * 4;
      CopyInto(mmap, start, LeU32(age));
    }

    method UpdateAge(id: Uuid, age: u32) returns (r: Result<(), StoreError>)
      requires Valid()
      modifies mmap
      ensures Valid()
      ensures r == if id in records then Ok(()) else Err(NotFound(id))
      ensures Value() == UpdateStore(old(Value()), id, age)
    {
      if id !in positionIndex {
        return Err(NotFound(id));
      }
      UpdateRefines(Value(), id, age);
      IndexedSlot(SlotsIn(mmap[..]), id);
      WriteAge(positionIndex[id], age);
      r := Ok(());
    }

    lemma IndexIsLive()
      requires Valid()
      ensures Indexes(SlotsIn(mmap[..]), positionIndex)
    {
      LastCommittedIsLast(SlotsIn(mmap[..]), CountOf(mmap[..]));
    }

    /** Both paths return the ages at the live positions, in position order. */
    method ScanAges() returns (ages: seq<u32>)
      requires Valid()
      ensures Indexes(SlotsIn(mmap[..]), positionIndex)
      ensures ages == Scan(SlotsIn(mmap[..]), positionIndex)
    {
      IndexIsLive();
      if |positionIndex| == RecordCountFor(mmap.Length) {
        ages := BulkAges();
        GaplessScanIsTheWholeColumn(SlotsIn(mmap[..]), positionIndex);
      } else {
        var positions := SortedPositions(SlotsIn(mmap[..]), positionIndex);
        assert forall i | 0 <= i < |positions| :: positions[i] in positions;
        ages := AgesAt(positions);
      }
    }

    /** The ages region read straight through, four bytes at a time. */
    method BulkAges() returns (ages: seq<u32>)
      requires mmap.Length >= 12
      ensures ages == Column(SlotsIn(mmap[..]))
    {
      ghost var slots := SlotsIn(mmap[..]);
      ages := [];
      for p := 0 to RecordCountFor(mmap.Length)
        invariant ages == Column(slots)[..p]
      {
        var age := ReadAge(p);
        ages := ages + [age];
      }
    }

    method AgesAt(positions: seq<nat>) returns (ages: seq<u32>)
      requires mmap.Length >= 12 && forall i | 0 <= i < |positions| :: positions[i] < CountOf(mmap[..])
      ensures ages == ValuesAt(SlotsIn(mmap[..]), positions)
    {
      ghost var all := ValuesAt(SlotsIn(mmap[..]), positions);
      ages := [];
      for i := 0 to |positions|
        invariant |ages| == i && forall j | 0 <= j < i :: ages[j] == all[j]
      {
        var age := ReadAge(positions[i]);
        ages := ages + [age];
      }
    }

    /** Built from a list without strays, the other ids whose records have the id's breed and no others. */
    method SameBreed(id: Uuid) returns (ids: seq<Uuid>)
      ensures ids == SameBreedIn(records, breedIndex, id)
      ensures forall list, edges | BuiltFrom(list, edges) && NoStrays(list) ::
                forall other :: other in ids <==> SharesBreed(ById(list), id, other)
      ensures forall list, edges | BuiltFrom(list, edges) :: CountsBreed(ids, list, id)
    {
      ids := [];
      if id in records {
        var all := Lookup(breedIndex, records[id].breed);
        for i := 0 to |all|
          invariant ids + WithoutId(all[i..], id) == WithoutId(all, id)
        {
          assert all[i..][1..] == all[i + 1..];
          if all[i] != id {
            ids := ids + [all[i]];
          }
        }
      }
      forall list, edges | BuiltFrom(list, edges) && NoStrays(list)
        ensures forall other :: other in ids <==> SharesBreed(ById(list), id, other)
      {
        SameBreedAnswersIff(list);
      }
      forall list, edges | BuiltFrom(list, edges)
        ensures CountsBreed(ids, list, id)
      {
        SameBreedCounted(list, id);
      }
    }

    /** The other end of every edge of the list the store was built from that touches `id`, in edge order. */
    method Neighbors(id: Uuid) returns (ids: seq<Uuid>)
      ensures forall records, edges | BuiltFrom(records, edges) :: ids == OtherEnds(edges, id)
    {
      ids := if id in adjacencyIndex then adjacencyIndex[id] else [];
      forall records, edges | BuiltFrom(records, edges)
        ensures ids == OtherEnds(edges, id)
      {
        AdjacencyListsOtherEnds(edges, id);
      }
    }
  }

  /** Accepted, another version's, or foreign, by the first twelve bytes. */
  method CheckHeader(mmap: array<byte>) returns (problem: Option<OpenError>)
    ensures problem == ReadHeader(mmap[..])
    ensures problem == None <==> StartsWithHeader(mmap[..], SCHEMA_VERSION)
    ensures forall v: u32 ::
              problem == Some(SchemaVersionMismatch(v)) <==> v != SCHEMA_VERSION && StartsWithHeader(mmap[..], v)
    ensures problem == Some(InvalidMagic) <==> forall v: u32 :: !StartsWithHeader(mmap[..], v)
  {
    HeaderVerdicts(mmap[..]);
    if mmap.Length < 12 || mmap[..8] != MAGIC {
      return Some(InvalidMagic);
    }
    assert mmap[8..12] == mmap[..][8..12];
    var found := ReadU32(mmap[8..12]);
    if found != SCHEMA_VERSION {
      return Some(SchemaVersionMismatch(found));
    }
    return None;
  }

  /** A file just written for `entries` makes a valid store over their ids, indexed by position. */
  lemma FreshStoreIsValid(entries: seq<(Uuid, u32)>, ids: set<Uuid>)
    requires LastOf(entries).Keys == ids
    ensures MmapAges.Valid(Store(ImageOf(entries), ids))
    ensures SlotsIn(ImageOf(entries)) == SlotsOf(entries)
    ensures LastCommitted(SlotsOf(entries)) == Restrict(LastCommitted(SlotsOf(entries)), ids)
  {
    ImageRoundTrip(entries);
    ImageAges(entries);
  }
}
