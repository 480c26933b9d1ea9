/**
 The durable field layer itself (src/generic/mmap_scanned.rs): an inner store, a slot file and the
 index between them, changed in place. Each method does what the step of the same name in
 ScannedField does to its value.
 */
module MmapScannedStores {
  import opened Bytes
  import opened Framing
  import opened Slots
  import opened SlotStacks
  import opened SlotFiles
  import opened ScannedField

  /** The store the layer wraps: it owns the records and refuses duplicates and unknown ids. */
  class InnerStore {
    var records: map<Uuid, Rec>

    constructor (list: seq<Rec>)
      ensures records == ById(list)
    {
      var byId: map<Uuid, Rec> := map[];
      for i := 0 to |list|
        invariant byId == ById(list[..i])
      {
        assert list[..i + 1][..i] == list[..i];
        byId := byId[list[i].id := list[i]];
      }
      assert list[..|list|] == list;
      records := byId;
    }

    method Insert(record: Rec) returns (problem: Option<FieldError>)
      modifies this
      ensures problem == if record.id in old(records) then Some(Duplicate(record.id)) else None
      ensures records == if problem.Some? then old(records) else old(records)[record.id := record]
    {
      if record.id in records {
        return Some(Duplicate(record.id));
      }
      records := records[record.id := record];
      problem := None;
    }

    method Delete(id: Uuid) returns (problem: Option<FieldError>)
      modifies this
      ensures problem == if id in old(records) then None else Some(NotFound(id))
      ensures records == old(records) - {id}
    {
      problem := if id in records then None else Some(NotFound(id));
      records := records - {id};
    }

    method Replace(record: Rec) returns (problem: Option<FieldError>)
      modifies this
      ensures problem == if record.id in old(records) then None else Some(NotFound(record.id))
      ensures records == if problem.Some? then old(records) else old(records)[record.id := record]
    {
      if record.id !in records {
        return Some(NotFound(record.id));
      }
      records := records[record.id := record];
      problem := None;
    }
  }

  // ----- the live slots in order -----

  /** `(position, id)` of every entry of the index, in no particular order. */
  method CollectOrdered(index: map<Uuid, nat>) returns (pairs: seq<(nat, Uuid)>)
    requires forall a, b | a in index && b in index && a != b :: index[a] != index[b]
    ensures forall i, j | 0 <= i < j < |pairs| :: pairs[i].0 != pairs[j].0
    ensures forall pair :: pair in pairs <==> pair.1 in index && pair.0 == index[pair.1]
  {
    pairs := [];
    var ids := index.Keys;
    while ids != {}
      invariant ids <= index.Keys
      invariant forall i, j | 0 <= i < j < |pairs| :: pairs[i].0 != pairs[j].0
      invariant forall pair :: pair in pairs <==> pair.1 in index.Keys - ids && pair.0 == index[pair.1]
      decreases ids
    {
      var id :| id in ids;
      forall i | 0 <= i < |pairs|
        ensures pairs[i].0 != index[id]
      {
        assert pairs[i] in pairs;
      }
      pairs := pairs + [(index[id], id)];
      ids := ids - {id};
    }
  }

  predicate AscendingPairs(pairs: seq<(nat, Uuid)>) {
    forall i, j | 0 <= i < j < |pairs| :: pairs[i].0 < pairs[j].0
  }

  /** `sort_unstable_by_key` on distinct positions, by insertion. */
  method SortByPosition(pairs: seq<(nat, Uuid)>) returns (sorted: seq<(nat, Uuid)>)
    requires forall i, j | 0 <= i < j < |pairs| :: pairs[i].0 != pairs[j].0
    ensures AscendingPairs(sorted)
    ensures forall pair :: pair in sorted <==> pair in pairs
  {
    sorted := [];
    for i := 0 to |pairs|
      invariant AscendingPairs(sorted)
      invariant forall pair :: pair in sorted <==> pair in pairs[..i]
    {
      var at := 0;
      while at < |sorted| && sorted[at].0 < pairs[i].0
        invariant at <= |sorted|
        invariant forall j | 0 <= j < at :: sorted[j].0 < pairs[i].0
      {
        at := at + 1;
      }
      ghost var before := sorted;
      forall j | 0 <= j < |before|
        ensures before[j].0 != pairs[i].0
      {
        assert before[j] in before;
      }
      sorted := sorted[..at] + [pairs[i]] + sorted[at..];
      assert forall pair :: pair in sorted <==> pair in before || pair == pairs[i];
      assert pairs[..i + 1] == pairs[..i] + [pairs[i]];
    }
    assert pairs[..|pairs|] == pairs;
  }

  /** Sorted by position, the index is its live positions with the ids their slots carry. */
  lemma SortedPairsAreLive(l: Layer, sorted: seq<(nat, Uuid)>)
    requires Inv(l) && AscendingPairs(sorted)
    requires forall pair :: pair in sorted <==> pair.1 in l.index && pair.0 == l.index[pair.1]
    ensures |sorted| == |LivePairs(l)|
    ensures forall i | 0 <= i < |sorted| ::
              sorted[i].0 < |l.slots| && LivePairs(l)[i] == (sorted[i].1, l.slots[sorted[i].0].value)
  {
    var ps := seq(|sorted|, i requires 0 <= i < |sorted| => sorted[i].0);
    var live := LivePositions(l.index, |l.slots|);
    forall p
      ensures p in ps <==> p in live
    {
      if p in ps {
        var i :| 0 <= i < |ps| && ps[i] == p;
        assert sorted[i] in sorted;
      }
      if p in live {
        var id :| id in l.index && l.index[id] == p;
        assert (p, id) in sorted;
        var i :| 0 <= i < |sorted| && sorted[i] == (p, id);
        assert ps[i] == p;
      }
    }
    AscendingUnique(ps, live);
    forall i | 0 <= i < |sorted|
      ensures l.index[sorted[i].1] == ps[i] && sorted[i].1 in l.index
    {
      assert sorted[i] in sorted;
    }
  }

  // ----- the layer -----

  class MmapScanned {
    const inner: InnerStore
    const file: SlotFile
    var positionIndex: map<Uuid, nat>

    ghost predicate Valid()
      reads this, inner, file
    {
      file.Valid() && Inv(Value())
    }

    ghost function Value(): Layer
      reads this, inner, file
      requires file.Valid()
    {
      Layer(file.Contents(), positionIndex, inner.records)
    }

    constructor Assemble(inner: InnerStore, positionIndex: map<Uuid, nat>, file: SlotFile)
      ensures this.inner == inner && this.positionIndex == positionIndex && this.file == file
    {
      this.inner, this.positionIndex, this.file := inner, positionIndex, file;
    }

    static method Create(inner: InnerStore, records: seq<Rec>, file: SlotFile) returns (layer: MmapScanned)
      modifies file
      ensures fresh(layer) && layer.inner == inner && layer.file == file
      ensures layer.Valid() && layer.Value() == ScannedField.Create(inner.records, records)
    {
      file.WriteFresh(Pairs(records));
      var positions := EnumeratePositions(Pairs(records), 0);
      layer := new MmapScanned.Assemble(inner, positions, file);
      CreateKeeps(inner.records, records);
    }

    /** A refusal leaves the file as it was. */
    static method Open(inner: InnerStore, records: seq<Rec>, file: SlotFile) returns (r: Result<MmapScanned, OpenError>)
      modifies file
      ensures r.Err? ==> file.State() == old(file.State()) && file.seen == old(file.seen)
      ensures r.Err? <==> !WellFormed(old(file.mmap))
      ensures r.Err? && CheckHeader(old(file.mmap)) == None ==>
                r.error == SlotWidthMismatch(|old(file.mmap)| - 12)
      ensures CheckHeader(old(file.mmap)).Some? ==> r == Err(CheckHeader(old(file.mmap)).value)
      ensures r.Ok? ==>
                && fresh(r.value) && r.value.inner == inner && r.value.file == file
                && r.value.Valid()
                && r.value.Value() == ScannedField.Open(SlotsIn(old(file.mmap)), inner.records, records)
      ensures r.Ok? ==>
                var missing := Missing(records, LastCommitted(SlotsIn(old(file.mmap))).Keys);
                file.seen == old(file.seen) + AppendTrace(old(file.State()), Flatten(SlotBytes, missing))
    {
      var problem := CheckHeader(file.mmap);
      if problem.Some? {
        return Err(problem.value);
      }
      if TrailingPartialBytes(file.mmap) != 0 {
        return Err(SlotWidthMismatch(|file.mmap| - 12));
      }
      ghost var slots := file.Contents();
      var persisted := file.CommittedPairs();
      var kept, missing := Reconcile(records, persisted, slots);
      var appended := file.AppendCommittedSlots(missing);
      var index := AddPositions(kept, missing, appended, |slots|);
      var layer := new MmapScanned.Assemble(inner, index, file);
      OpenKeeps(slots, inner.records, records);
      r := Ok(layer);
    }

    method IsGapless() returns (gapless: bool)
      requires file.Valid()
      ensures gapless <==> |positionIndex| == |file.Contents()|
    {
      gapless := |positionIndex| * 25 == |file.mmap| - 12;
    }

    method Insert(record: Rec) returns (problem: Option<FieldError>)
      requires Valid()
      modifies this, inner, file
      ensures Valid()
      ensures problem == Refusal(old(inner.records).Keys, old(positionIndex).Keys, Op.Insert(record))
      ensures Value() == Step(old(Value()), Op.Insert(record))
      ensures problem.Some? ==> file.seen == old(file.seen)
      ensures problem.None? ==>
                file.seen == old(file.seen) + AppendTrace(old(file.State()), SlotBytes((record.id, record.value)))
    {
      ghost var before := Value();
      InsertStep(before, record);
      problem := inner.Insert(record);
      if problem.Some? {
        assert Value() == before;
        return;
      }
      var entries := [(record.id, record.value)];
      assert SlotsOf(entries) == [Slot(record.id, record.value, true)];
      var positions := file.AppendCommittedSlots(entries);
      OneFrame(SlotBytes, entries[0]);
      positionIndex := positionIndex[record.id := positions[0]];
    }

    method Delete(id: Uuid) returns (problem: Option<FieldError>)
      requires Valid()
      modifies this, inner, file
      ensures Valid()
      ensures problem == Refusal(old(inner.records).Keys, old(positionIndex).Keys, Op.Delete(id))
      ensures Value() == Step(old(Value()), Op.Delete(id))
    {
      ghost var before := Value();
      DeleteStep(before, id);
      problem := inner.Delete(id);
      if problem.Some? {
        assert Value() == before;
        return;
      }
      if id in positionIndex {
        var position := positionIndex[id];
        positionIndex := positionIndex - {id};
        file.ClearMarker(position);
      }
    }

    method Replace(record: Rec) returns (problem: Option<FieldError>)
      requires Valid()
      modifies this, inner, file
      ensures Valid()
      ensures problem == Refusal(old(inner.records).Keys, old(positionIndex).Keys, Op.Replace(record))
      ensures Value() == Step(old(Value()), Op.Replace(record))
    {
      ghost var before := Value();
      ReplaceStep(before, record);
      problem := inner.Replace(record);
      if problem.Some? {
        assert Value() == before;
        return;
      }
      if record.id !in positionIndex {
        return Some(NotFound(record.id));
      }
      file.WriteValue(positionIndex[record.id], record.value);
    }

    method Update(id: Uuid, value: SlotFiles.Value) returns (problem: Option<FieldError>)
      requires Valid()
      modifies file
      ensures Valid()
      ensures problem == Refusal(inner.records.Keys, positionIndex.Keys, Op.Update(id, value))
      ensures Value() == Step(old(Value()), Op.Update(id, value))
    {
      StepKeeps(Value(), Op.Update(id, value));
      if id !in positionIndex {
        return Some(NotFound(id));
      }
      assert IndexedLast(Value(), id);
      file.WriteValue(positionIndex[id], value);
      problem := None;
    }

    /** Returns the slots reclaimed. */
    method Compact() returns (reclaimed: nat)
      requires Valid()
      modifies this, file
      ensures Valid()
      ensures Value() == Step(old(Value()), Op.Compact)
      ensures reclaimed == |old(file.Contents())| - |file.Contents()|
      ensures file.seen == old(file.seen) + RewriteTrace(old(file.State()), file.mmap)
    {
      CompactStep(Value());
      var before := (|file.mmap| - 12) / 25;
      var entries := OrderedEntries();
      file.Rewrite(entries);
      positionIndex := EnumeratePositions(entries, 0);
      reclaimed := before - |entries|;
    }

    method OrderedEntries() returns (entries: seq<Entry>)
      requires Valid()
      ensures entries == LivePairs(Value())
    {
      IndexIsSound(Value());
      var pairs := CollectOrdered(positionIndex);
      var ordered := SortByPosition(pairs);
      SortedPairsAreLive(Value(), ordered);
      entries := ReadPairs(ordered);
      assert entries == LivePairs(Value());
    }

    method ReadPairs(ordered: seq<(nat, Uuid)>) returns (entries: seq<Entry>)
      requires file.Valid() && forall i | 0 <= i < |ordered| :: ordered[i].0 < |file.Contents()|
      ensures |entries| == |ordered|
      ensures forall i | 0 <= i < |ordered| :: entries[i] == (ordered[i].1, file.Contents()[ordered[i].0].value)
    {
      entries := [];
      for i := 0 to |ordered|
        invariant |entries| == i
        invariant forall j | 0 <= j < i :: entries[j] == (ordered[j].1, file.Contents()[ordered[j].0].value)
      {
        var value := file.ReadValue(ordered[i].0);
        entries := entries + [(ordered[i].1, value)];
      }
    }

    method Get(id: Uuid) returns (r: Option<Rec>)
      requires Valid()
      ensures r == ScannedField.Get(Value(), id)
    {
      if id !in inner.records {
        return None;
      }
      var record := inner.records[id];
      if id in positionIndex {
        assert IndexedLast(Value(), id);
        var value := file.ReadValue(positionIndex[id]);
        record := record.(value := value);
      }
      r := Some(record);
    }

    /** Both paths return the values at the live positions, in position order. */
    method Scan() returns (values: seq<SlotFiles.Value>)
      requires Valid()
      ensures values == Slots.Scan(file.Contents(), positionIndex)
    {
      IndexIsSound(Value());
      var gapless := IsGapless();
      if gapless {
        GaplessScanIsTheWholeColumn(file.Contents(), positionIndex);
        values := BulkValues();
      } else {
        var positions := SortedPositions(file.Contents(), positionIndex);
        assert forall i | 0 <= i < |positions| :: positions[i] in positions;
        values := ValuesAtPositions(positions);
      }
    }

    method BulkValues() returns (values: seq<SlotFiles.Value>)
      requires file.Valid()
      ensures values == Column(file.Contents())
    {
      values := [];
      for p := 0 to (|file.mmap| - 12) / 25
        invariant values == Column(file.Contents())[..p]
      {
        var value := file.ReadValue(p);
        values := values + [value];
      }
    }

    method ValuesAtPositions(positions: seq<nat>) returns (values: seq<SlotFiles.Value>)
      requires file.Valid() && forall i | 0 <= i < |positions| :: positions[i] < |file.Contents()|
      ensures values == ValuesAt(file.Contents(), positions)
    {
      values := [];
      for i := 0 to |positions|
        invariant values == ValuesAt(file.Contents(), positions)[..i]
      {
        var value := file.ReadValue(positions[i]);
        values := values + [value];
      }
    }
  }

  // The shape of each step, apart from the invariant it keeps.

  lemma InsertStep(l: Layer, r: Rec)
    requires Inv(l)
    ensures Inv(Step(l, Op.Insert(r)))
    ensures r.id in l.inner ==> Step(l, Op.Insert(r)) == l
    ensures r.id !in l.inner ==>
              Step(l, Op.Insert(r)) ==
                Layer(l.slots + [Slot(r.id, r.value, true)], l.index[r.id := |l.slots|], l.inner[r.id := r])
  {
    StepKeeps(l, Op.Insert(r));
  }

  lemma DeleteStep(l: Layer, id: Uuid)
    requires Inv(l)
    ensures Inv(Step(l, Op.Delete(id)))
    ensures id !in l.inner ==> Step(l, Op.Delete(id)) == l
    ensures id in l.inner && id !in l.index ==> Step(l, Op.Delete(id)) == l.(inner := l.inner - {id})
    ensures id in l.inner && id in l.index ==>
              && l.index[id] < |l.slots|
              && var p := l.index[id];
                 Step(l, Op.Delete(id)) ==
                   Layer(l.slots[p := l.slots[p].(committed := false)], l.index - {id}, l.inner - {id})
  {
    StepKeeps(l, Op.Delete(id));
  }

  lemma ReplaceStep(l: Layer, r: Rec)
    requires Inv(l)
    ensures Inv(Step(l, Op.Replace(r)))
    ensures r.id !in l.inner ==> Step(l, Op.Replace(r)) == l
    ensures r.id in l.inner && r.id !in l.index ==> Step(l, Op.Replace(r)) == l.(inner := l.inner[r.id := r])
    ensures r.id in l.inner && r.id in l.index ==>
              && l.index[r.id] < |l.slots|
              && var p := l.index[r.id];
                 Step(l, Op.Replace(r)) ==
                   Layer(l.slots[p := l.slots[p].(value := r.value)], l.index, l.inner[r.id := r])
  {
    StepKeeps(l, Op.Replace(r));
  }

  lemma CompactStep(l: Layer)
    requires Inv(l)
    ensures Inv(Step(l, Op.Compact))
    ensures Step(l, Op.Compact) == Layer(SlotsOf(LivePairs(l)), Enumerated(LivePairs(l), 0), l.inner)
    ensures |LivePairs(l)| <= |l.slots|
  {
    StepKeeps(l, Op.Compact);
    LivePairsFit(l);
  }

  lemma LivePairsFit(l: Layer)
    requires Inv(l)
    ensures |LivePairs(l)| <= |l.slots|
  {
    var ids := ScanReadsEachIdOnce(l.slots, l.index);
    IndexIsSound(l);
  }

  method EnumeratePositions(entries: seq<Entry>, base: nat) returns (index: map<Uuid, nat>)
    ensures index == Enumerated(entries, base)
  {
    index := map[];
    for p := 0 to |entries|
      invariant index == Enumerated(entries[..p], base)
    {
      assert entries[..p + 1][..p] == entries[..p];
      index := index[entries[p].0 := base + p];
    }
    assert entries[..|entries|] == entries;
  }

  /** The kept index so far. */
  function Kept(records: seq<Rec>, index: map<Uuid, nat>): map<Uuid, nat> {
    map id | id in ById(records) && id in index :: index[id]
  }

  /** The pass over the records: those persisted keep their position, the others are listed. */
  method Reconcile(records: seq<Rec>, persisted: map<Uuid, (nat, SlotFiles.Value)>,
                   ghost slots: seq<Slot<SlotFiles.Value>>)
    returns (kept: map<Uuid, nat>, missing: seq<Entry>)
    requires persisted == PairsOf(slots, |slots|)
    ensures kept == Kept(records, LastCommitted(slots))
    ensures missing == Missing(records, LastCommitted(slots).Keys)
  {
    PairsArePositionsAndValues(slots, |slots|);
    kept, missing := map[], [];
    for i := 0 to |records|
      invariant kept == Kept(records[..i], LastCommitted(slots))
      invariant missing == Missing(records[..i], LastCommitted(slots).Keys)
    {
      assert records[..i + 1][..i] == records[..i];
      if records[i].id in persisted {
        kept := kept[records[i].id := persisted[records[i].id].0];
      } else {
        missing := missing + [(records[i].id, records[i].value)];
      }
    }
    assert records[..|records|] == records;
  }

  /** Each missing record is indexed where its slot landed. */
  method AddPositions(kept: map<Uuid, nat>, missing: seq<Entry>, positions: seq<nat>, ghost base: nat)
    returns (index: map<Uuid, nat>)
    requires |positions| == |missing|
    requires forall i | 0 <= i < |missing| :: positions[i] == base + i
    ensures index == kept + Enumerated(missing, base)
  {
    index := kept;
    for i := 0 to |missing|
      invariant index == kept + Enumerated(missing[..i], base)
    {
      assert missing[..i + 1][..i] == missing[..i];
      index := index[missing[i].0 := positions[i]];
    }
    assert missing[..|missing|] == missing;
  }
}
