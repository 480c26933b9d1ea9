/**
 The in-memory state the log-based stores share (`CanonicalCachedState`, src/durability/mod.rs):
 the records, a packed age cache with the position of each id in it, and the breed and adjacency
 indexes; how it is built, updated and replayed from a log.
 */
module CanonicalState {
  import opened Bytes
  import opened Folds
  import opened Histories
  import opened Records
  import opened Wal

  /** The state as a value: what a snapshot stores. */
  datatype State = State(
    records: map<Uuid, DogRecord>,
    breeds: map<Breed, seq<Uuid>>,
    adjacency: map<Uuid, seq<Uuid>>,
    ageCache: seq<u32>,
    positions: map<Uuid, nat>)

  function AgesInOrder(records: seq<DogRecord>): (ages: seq<u32>)
    ensures |ages| == |records|
    ensures forall i | 0 <= i < |records| :: ages[i] == records[i].age
  {
    seq(|records|, i requires 0 <= i < |records| => records[i].age)
  }

  function PositionsOf(records: seq<DogRecord>): map<Uuid, nat> {
    if records == [] then map[]
    else PositionsOf(records[..|records| - 1])[records[|records| - 1].id := |records| - 1]
  }

  function NewState(records: seq<DogRecord>, edges: seq<Edge>): State {
    State(ById(records), BreedIndex(records), AdjacencyIndex(edges), AgesInOrder(records), PositionsOf(records))
  }

  // ----- updates -----

  /** The id has a record and a cache cell. In a consistent state every record has its cell. */
  predicate Accepts(s: State, id: Uuid) {
    id in s.records && id in s.positions && s.positions[id] < |s.ageCache|
  }

  /** What `update_age` leaves: the record is written before its position is looked up. */
  function WithAge(s: State, id: Uuid, age: u32): State {
    if id !in s.records then s
    else
      var written := s.(records := s.records[id := s.records[id].(age := age)]);
      if Accepts(s, id) then written.(ageCache := s.ageCache[s.positions[id] := age]) else written
  }

  /** And what it returns, a snapshot read back from disk being possibly inconsistent. */
  function UpdateState(s: State, id: Uuid, age: u32): Result<State, StoreError> {
    if id !in s.records || id !in s.positions then Err(NotFound(id))
    else if s.positions[id] >= |s.ageCache| then Err(CacheOutOfBounds(id))
    else Ok(WithAge(s, id, age))
  }

  /** An outcome without the state it carries. */
  function Verdict(r: Result<State, StoreError>): Result<(), StoreError> {
    if r.Ok? then Ok(()) else Err(r.error)
  }

  function Apply(s: State, e: WalEntry): State {
    WithAge(s, e.id, e.age)
  }

  /** The accepted entries of a log applied in order; an unknown id leaves the state as it was. */
  function Applied(s: State, entries: seq<WalEntry>): State {
    Fold(Apply, s, entries)
  }

  /** Replay as an opening store runs it: the first unknown id fails the open. */
  function Replay(s: State, entries: seq<WalEntry>): Result<State, StoreError>
    decreases |entries|
  {
    if entries == [] then Ok(s)
    else
      match UpdateState(s, entries[0].id, entries[0].age)
      case Err(err) => Err(err)
      case Ok(t) => Replay(t, entries[1..])
  }

  // ----- consistency -----

  /** Cache, positions and records tell one story: each id has its own cache cell, holding its age. */
  predicate Consistent(s: State) {
    && s.positions.Keys == s.records.Keys
    && (forall id | id in s.records ::
          && s.records[id].id == id
          && s.positions[id] < |s.ageCache|
          && s.ageCache[s.positions[id]] == s.records[id].age)
    && (forall a, b | a in s.positions && b in s.positions && a != b :: s.positions[a] != s.positions[b])
  }

  lemma {:induction false} NewStateIsConsistent(records: seq<DogRecord>, edges: seq<Edge>)
    ensures Consistent(NewState(records, edges))
    ensures forall id | id in PositionsOf(records) :: PositionsOf(records)[id] < |records|
  {
    if records != [] {
      var n := |records| - 1;
      NewStateIsConsistent(records[..n], edges);
      var s := NewState(records[..n], edges);
      assert forall id | id in s.records :: AgesInOrder(records)[s.positions[id]] == s.ageCache[s.positions[id]];
    }
  }

  /** An update of a known id keeps the state consistent and changes that record's age alone. */
  lemma UpdateKeepsConsistent(s: State, id: Uuid, age: u32)
    requires Consistent(s)
    ensures Consistent(WithAge(s, id, age))
    ensures Accepts(s, id) <==> id in s.records
    ensures UpdateState(s, id, age) == if id in s.records then Ok(WithAge(s, id, age)) else Err(NotFound(id))
    ensures WithAge(s, id, age).records ==
            if id in s.records then s.records[id := s.records[id].(age := age)] else s.records
  {
    if id in s.records { WrittenIsConsistent(s, id, age); }
  }

  lemma WrittenIsConsistent(s: State, id: Uuid, age: u32)
    requires Consistent(s) && id in s.records
    ensures
      Consistent(s.(records := s.records[id := s.records[id].(age := age)],
                    ageCache := s.ageCache[s.positions[id] := age]))
  {
  }

  lemma {:induction false} AppliedIsConsistent(s: State, entries: seq<WalEntry>)
    requires Consistent(s)
    ensures Consistent(Applied(s, entries))
    ensures Applied(s, entries).records.Keys == s.records.Keys
    decreases |entries|
  {
    if entries != [] {
      UpdateKeepsConsistent(s, entries[0].id, entries[0].age);
      AppliedIsConsistent(Apply(s, entries[0]), entries[1..]);
    }
  }

  predicate AllKnown(ids: set<Uuid>, entries: seq<WalEntry>) {
    forall i | 0 <= i < |entries| :: entries[i].id in ids
  }

  /** Replay succeeds exactly when every id is known, and then gives what applying the entries gives. */
  lemma {:induction false} ReplayIsApplied(s: State, entries: seq<WalEntry>)
    requires Consistent(s)
    ensures Replay(s, entries).Ok? <==> AllKnown(s.records.Keys, entries)
    ensures Replay(s, entries).Ok? ==> Replay(s, entries).value == Applied(s, entries)
    decreases |entries|
  {
    if entries != [] {
      var e, rest := entries[0], entries[1..];
      UpdateKeepsConsistent(s, e.id, e.age);
      var t := Apply(s, e);
      if e.id in s.records {
        ReplayIsApplied(t, rest);
        assert t.records.Keys == s.records.Keys;
        AllKnownFirst(s.records.Keys, entries);
      }
    }
  }

  /** One entry more at the end of a replay sets that entry's age and no other. */
  lemma OneMoreReplayed(s: State, entries: seq<WalEntry>, p: WalEntry, id: Uuid)
    requires Consistent(s) && Replay(s, entries).Ok? && Replay(s, entries + [p]).Ok? && id in s.records
    ensures
      var before, after := Replay(s, entries).value.records, Replay(s, entries + [p]).value.records;
      && id in before && id in after
      && after[id].age == if p.id == id then p.age else before[id].age
  {
    ReplayIsApplied(s, entries);
    ReplayIsApplied(s, entries + [p]);
    FoldSnoc(Apply, s, entries, p);
    AppliedIsConsistent(s, entries);
    UpdateKeepsConsistent(Applied(s, entries), p.id, p.age);
  }

  /** One step of a replay loop standing at entry `i`. */
  lemma ReplayAt(s: State, entries: seq<WalEntry>, i: nat)
    requires i < |entries|
    ensures
      var updated := UpdateState(s, entries[i].id, entries[i].age);
      Replay(s, entries[i..]) == if updated.Ok? then Replay(updated.value, entries[i + 1..]) else updated
  {
    assert entries[i..][1..] == entries[i + 1..];
  }

  lemma AllKnownFirst(ids: set<Uuid>, entries: seq<WalEntry>)
    requires entries != []
    ensures AllKnown(ids, entries) <==> entries[0].id in ids && AllKnown(ids, entries[1..])
  {
    assert entries == [entries[0]] + entries[1..];
  }

  lemma AllKnownSnoc(ids: set<Uuid>, entries: seq<WalEntry>, e: WalEntry)
    ensures AllKnown(ids, entries + [e]) <==> AllKnown(ids, entries) && e.id in ids
  {
    assert (entries + [e])[|entries|] == e;
    if AllKnown(ids, entries + [e]) {
      forall i | 0 <= i < |entries| ensures entries[i].id in ids {
        assert (entries + [e])[i] == entries[i];
      }
    }
  }

  // ----- replaying twice -----

  function EntryIds(entries: seq<WalEntry>): set<Uuid> {
    set i | 0 <= i < |entries| :: entries[i].id
  }

  predicate SameShape(s: State, t: State) {
    && s.breeds == t.breeds && s.adjacency == t.adjacency && s.positions == t.positions
    && |s.ageCache| == |t.ageCache|
    && s.records.Keys == t.records.Keys
  }

  predicate RecordsAgree(s: State, t: State, ids: set<Uuid>)
    requires s.records.Keys == t.records.Keys
  {
    forall id | id in s.records ::
      s.records[id] == if id in ids then t.records[id].(age := s.records[id].age) else t.records[id]
  }

  predicate CachesAgree(s: State, t: State, ids: set<Uuid>)
    requires |s.ageCache| == |t.ageCache|
  {
    forall i | 0 <= i < |s.ageCache| && s.ageCache[i] != t.ageCache[i] ::
      exists id :: id in ids && Owns(s, id, i)
  }

  predicate Owns(s: State, id: Uuid, i: nat) {
    id in s.positions && s.positions[id] == i
  }

  /** `s` and `t` differ at most in the ages of `ids`. */
  predicate SameOutside(s: State, t: State, ids: set<Uuid>) {
    SameShape(s, t) && RecordsAgree(s, t, ids) && CachesAgree(s, t, ids)
  }

  /** One entry erases the difference at its own id, when it is accepted. */
  lemma EntryErases(s: State, t: State, e: WalEntry, ids: set<Uuid>)
    requires SameOutside(s, t, ids + {e.id})
    requires Accepts(s, e.id) || (e.id !in s.records && e.id !in s.positions)
    ensures SameOutside(Apply(s, e), Apply(t, e), ids)
  {
    if e.id in s.records {
      EntryErasesInCache(s, t, e, ids);
    } else {
      UnknownIdCannotDiffer(s, t, e.id, ids);
    }
  }

  lemma EntryErasesInCache(s: State, t: State, e: WalEntry, ids: set<Uuid>)
    requires SameShape(s, t) && CachesAgree(s, t, ids + {e.id}) && Accepts(s, e.id)
    ensures CachesAgree(Apply(s, e), Apply(t, e), ids)
  {
    var s', t' := Apply(s, e), Apply(t, e);
    forall i | 0 <= i < |s'.ageCache| && s'.ageCache[i] != t'.ageCache[i]
      ensures exists id :: id in ids && Owns(s', id, i)
    {
      var id :| id in ids + {e.id} && Owns(s, id, i);
      assert id in ids && Owns(s', id, i);
    }
  }

  lemma UnknownIdCannotDiffer(s: State, t: State, id: Uuid, ids: set<Uuid>)
    requires SameOutside(s, t, ids + {id}) && id !in s.records
    requires id !in s.positions
    ensures SameOutside(s, t, ids)
  {
    forall i | 0 <= i < |s.ageCache| && s.ageCache[i] != t.ageCache[i]
      ensures exists other :: other in ids && Owns(s, other, i)
    {
      var other :| other in ids + {id} && Owns(s, other, i);
      assert other in ids;
    }
  }

  /** A log makes equal any two states that differ only in ages it overwrites. */
  lemma {:induction false} AppliedErases(s: State, t: State, entries: seq<WalEntry>, ids: set<Uuid>)
    requires Consistent(s) && SameOutside(s, t, ids + EntryIds(entries))
    ensures SameOutside(Applied(s, entries), Applied(t, entries), ids)
    decreases |entries|
  {
    if entries == [] {
      assert ids + EntryIds(entries) == ids;
    } else {
      var e, rest := entries[0], entries[1..];
      EntryIdsFirst(entries);
      assert ids + EntryIds(entries) == ids + EntryIds(rest) + {e.id};
      UpdateKeepsConsistent(s, e.id, e.age);
      EntryErases(s, t, e, ids + EntryIds(rest));
      AppliedErases(Apply(s, e), Apply(t, e), rest, ids);
    }
  }

  lemma EntryIdsFirst(entries: seq<WalEntry>)
    requires entries != []
    ensures EntryIds(entries) == {entries[0].id} + EntryIds(entries[1..])
  {
    assert entries == [entries[0]] + entries[1..];
  }

  lemma EntryChangesOnlyItsId(s: State, e: WalEntry, ids: set<Uuid>)
    requires e.id in ids
    ensures SameOutside(s, Apply(s, e), ids)
  {
    if Accepts(s, e.id) {
      assert Owns(s, e.id, s.positions[e.id]);
    }
  }

  lemma SameOutsideTrans(s: State, t: State, u: State, ids: set<Uuid>)
    requires SameOutside(s, t, ids) && SameOutside(t, u, ids)
    ensures SameOutside(s, u, ids)
  {
    forall i | 0 <= i < |s.ageCache| && s.ageCache[i] != u.ageCache[i]
      ensures exists id :: id in ids && Owns(s, id, i)
    {
      if s.ageCache[i] == t.ageCache[i] {
        var id :| id in ids && Owns(t, id, i);
        assert Owns(s, id, i);
      }
    }
  }

  lemma {:induction false} AppliedChangesOnlyItsIds(s: State, entries: seq<WalEntry>, ids: set<Uuid>)
    requires EntryIds(entries) <= ids
    ensures SameOutside(s, Applied(s, entries), ids)
    decreases |entries|
  {
    if entries != [] {
      EntryIdsFirst(entries);
      EntryChangesOnlyItsId(s, entries[0], ids);
      AppliedChangesOnlyItsIds(Apply(s, entries[0]), entries[1..], ids);
      SameOutsideTrans(s, Apply(s, entries[0]), Applied(s, entries), ids);
    }
  }

  lemma SameOutsideNothing(s: State, t: State)
    requires SameOutside(s, t, {})
    ensures s == t
  {
    assert s.ageCache == t.ageCache;
    assert s.records == t.records;
  }

  /** Replaying a log over a state that already contains it changes nothing. */
  lemma ReplayIsIdempotent(s: State, entries: seq<WalEntry>)
    requires Consistent(s)
    ensures Applied(Applied(s, entries), entries) == Applied(s, entries)
  {
    AppliedChangesOnlyItsIds(s, entries, EntryIds(entries));
    assert {} + EntryIds(entries) == EntryIds(entries);
    AppliedErases(s, Applied(s, entries), entries, {});
    SameOutsideNothing(Applied(s, entries), Applied(Applied(s, entries), entries));
  }

  // ----- the indexes -----

  /** The breed index of a state lists exactly the ids of each breed. */
  ghost predicate BreedsAgree(s: State) {
    forall breed, id :: BreedAgreesAt(s, breed, id)
  }

  predicate BreedAgreesAt(s: State, breed: Breed, id: Uuid) {
    id in Lookup(s.breeds, breed) <==> id in s.records && s.records[id].breed == breed
  }

  /** Index and records agree on breeds after construction exactly when no id arrives with two. */
  lemma FreshBreedsAgreeIff(records: seq<DogRecord>, edges: seq<Edge>)
    ensures BreedsAgree(NewState(records, edges)) <==> OneBreedPerId(records)
  {
    var s := NewState(records, edges);
    if OneBreedPerId(records) {
      forall breed, id
        ensures BreedAgreesAt(s, breed, id)
      {
        OneBreedAgrees(records, edges, breed, id);
      }
    } else {
      var i, j :| 0 <= i < |records| && 0 <= j < |records| && records[i].id == records[j].id
                  && records[i].breed != records[j].breed;
      BreedIndexLists(records, records[i].breed, records[i].id);
      BreedIndexLists(records, records[j].breed, records[i].id);
      assert !BreedAgreesAt(s, records[i].breed, records[i].id)
          || !BreedAgreesAt(s, records[j].breed, records[i].id);
    }
  }

  lemma OneBreedAgrees(records: seq<DogRecord>, edges: seq<Edge>, breed: Breed, id: Uuid)
    requires OneBreedPerId(records)
    ensures BreedAgreesAt(NewState(records, edges), breed, id)
  {
    ByIdHoldsEach(records);
    BreedIndexLists(records, breed, id);
    if id in ById(records) {
      var k :| 0 <= k < |records| && records[k] == ById(records)[id];
      assert records[k].id == id;
    }
  }

  /** No log of updates changes an index, an id or a breed. */
  lemma {:induction false} UpdatesKeepIndexes(s: State, entries: seq<WalEntry>)
    ensures
      var t := Applied(s, entries);
      && t.breeds == s.breeds && t.adjacency == s.adjacency && t.positions == s.positions
      && t.records.Keys == s.records.Keys
      && forall id | id in s.records ::
           t.records[id].id == s.records[id].id && t.records[id].breed == s.records[id].breed
    decreases |entries|
  {
    if entries != [] {
      UpdatesKeepIndexes(Apply(s, entries[0]), entries[1..]);
    }
  }

  /**
   After construction and after every update: the breed index agrees with the records exactly when
   no id was supplied with two breeds, and the adjacency index is the edge list's.
   */
  lemma BreedIndexAgreesIff(records: seq<DogRecord>, edges: seq<Edge>, entries: seq<WalEntry>)
    ensures BreedsAgree(Applied(NewState(records, edges), entries)) <==> OneBreedPerId(records)
    ensures Applied(NewState(records, edges), entries).adjacency == AdjacencyIndex(edges)
  {
    var s, t := NewState(records, edges), Applied(NewState(records, edges), entries);
    FreshBreedsAgreeIff(records, edges);
    UpdatesKeepIndexes(s, entries);
    assert forall breed, id :: BreedAgreesAt(t, breed, id) <==> BreedAgreesAt(s, breed, id);
  }

  /** Adjacency is symmetric, edge for edge: `b` is listed under `a` as often as `a` under `b`. */
  lemma {:induction false} AdjacencyIsSymmetric(edges: seq<Edge>, a: Uuid, b: Uuid)
    ensures multiset(Lookup(AdjacencyIndex(edges), a))[b] == multiset(Lookup(AdjacencyIndex(edges), b))[a]
  {
    if edges != [] {
      var n := |edges| - 1;
      AdjacencyIsSymmetric(edges[..n], a, b);
      var index := AdjacencyIndex(edges[..n]);
      PushCount(index, edges[n].0, edges[n].1, a, b);
      PushCount(index, edges[n].0, edges[n].1, b, a);
      var half := Push(index, edges[n].0, edges[n].1);
      PushCount(half, edges[n].1, edges[n].0, a, b);
      PushCount(half, edges[n].1, edges[n].0, b, a);
    }
  }

  lemma PushCount(index: map<Uuid, seq<Uuid>>, key: Uuid, value: Uuid, a: Uuid, b: Uuid)
    ensures multiset(Lookup(Push(index, key, value), a))[b]
            == multiset(Lookup(index, a))[b] + if a == key && b == value then 1 else 0
  {
  }

  // ----- what a state shows after a history of updates -----

  /** The age at the `i`th record's place: the last set for its id, or its own once a later record has the id. */
  function CellAfter(records: seq<DogRecord>, sets: seq<(Uuid, u32)>, i: nat): u32
    requires i < |records|
  {
    if LastRecord(records, i) then SetLast<u32>(sets, records[i].id, records[i].age) else records[i].age
  }

  function RecordOf(s: State, id: Uuid): Option<DogRecord> {
    if id in s.records then Some(s.records[id]) else None
  }

  /** A store built from `records` and updated by `sets`, in order. */
  ghost predicate ShowsAfter(records: seq<DogRecord>, sets: seq<(Uuid, u32)>, s: State) {
    && (forall id :: RecordOf(s, id) == RecordAfter(records, sets, id))
    && |s.ageCache| == |records|
    && (forall i | 0 <= i < |records| :: s.ageCache[i] == CellAfter(records, sets, i))
    && s.positions == PositionsOf(records)
  }

  lemma {:induction false} PositionIsLast(records: seq<DogRecord>, id: Uuid)
    ensures id in PositionsOf(records) <==> id in ById(records)
    ensures id in PositionsOf(records) ==>
              var i := PositionsOf(records)[id];
              i < |records| && records[i].id == id && LastRecord(records, i)
  {
    if records != [] {
      var n := |records| - 1;
      PositionIsLast(records[..n], id);
      if records[n].id != id && id in PositionsOf(records) {
        var i := PositionsOf(records[..n])[id];
        assert records[..n][i] == records[i];
        forall j | i < j < |records|
          ensures records[j].id != id
        {
          if j < n { assert records[..n][j] == records[j]; }
        }
      }
    }
  }

  lemma NewShows(records: seq<DogRecord>, edges: seq<Edge>)
    ensures ShowsAfter(records, [], NewState(records, edges))
  {
  }

  lemma UpdateShows(records: seq<DogRecord>, sets: seq<(Uuid, u32)>, s: State, id: Uuid, age: u32)
    requires ShowsAfter(records, sets, s)
    ensures ShowsAfter(records, sets + [(id, age)], WithAge(s, id, age))
  {
    var t, more := WithAge(s, id, age), sets + [(id, age)];
    assert RecordOf(s, id) == RecordAfter(records, sets, id);
    PositionIsLast(records, id);
    forall other
      ensures RecordOf(t, other) == RecordAfter(records, more, other)
    {
      assert RecordOf(s, other) == RecordAfter(records, sets, other);
      if other in ById(records) { SetLastSnoc(sets, id, age, other, ById(records)[other].age); }
    }
    forall i | 0 <= i < |records|
      ensures t.ageCache[i] == CellAfter(records, more, i)
    {
      UpdatedCell(records, sets, s, id, age, i);
    }
  }

  lemma UpdatedCell(records: seq<DogRecord>, sets: seq<(Uuid, u32)>, s: State, id: Uuid, age: u32, i: nat)
    requires ShowsAfter(records, sets, s) && i < |records|
    ensures |WithAge(s, id, age).ageCache| == |records|
    ensures WithAge(s, id, age).ageCache[i] == CellAfter(records, sets + [(id, age)], i)
  {
    assert RecordOf(s, id) == RecordAfter(records, sets, id);
    PositionIsLast(records, id);
    SetLastSnoc(sets, id, age, records[i].id, records[i].age);
    if records[i].id == id {
      ByIdLists(records, id);
      assert LastRecord(records, i) <==> PositionsOf(records)[id] == i;
    }
  }

  /** The updates of a log, in order. */
  function Sets(entries: seq<WalEntry>): (sets: seq<(Uuid, u32)>)
    ensures |sets| == |entries|
    ensures forall i | 0 <= i < |entries| :: sets[i] == (entries[i].id, entries[i].age)
  {
    seq(|entries|, i requires 0 <= i < |entries| => (entries[i].id, entries[i].age))
  }

  /**
   A log applied to a new state: each id listed shows its last record with the last age the log has for
   it, an id not listed shows nothing, and each record's place in the cache holds that age.
   */
  lemma {:induction false} AppliedShows(records: seq<DogRecord>, edges: seq<Edge>, entries: seq<WalEntry>)
    ensures ShowsAfter(records, Sets(entries), Applied(NewState(records, edges), entries))
  {
    if entries == [] {
      NewShows(records, edges);
      assert Sets(entries) == [];
    } else {
      var n := |entries| - 1;
      var s := Applied(NewState(records, edges), entries[..n]);
      AppliedShows(records, edges, entries[..n]);
      assert entries == entries[..n] + [entries[n]];
      FoldSnoc(Apply, NewState(records, edges), entries[..n], entries[n]);
      UpdateShows(records, Sets(entries[..n]), s, entries[n].id, entries[n].age);
      assert Sets(entries) == Sets(entries[..n]) + [(entries[n].id, entries[n].age)];
    }
  }

  // ----- building on two threads -----

  /** How far the spawned thread (edges) and the main thread (records) have got, and what they hold. */
  datatype Build = Build(
    edgesDone: nat, adjacency: map<Uuid, seq<Uuid>>,
    recordsDone: nat, breeds: map<Breed, seq<Uuid>>, ageCache: seq<u32>, positions: map<Uuid, nat>)

  /** One loop step of one thread; a thread that has finished has no step. */
  function BuildStep(records: seq<DogRecord>, edges: seq<Edge>, b: Build, spawned: bool): Build {
    if spawned then
      if b.edgesDone >= |edges| then b
      else
        var (x, y) := edges[b.edgesDone];
        b.(edgesDone := b.edgesDone + 1, adjacency := Push(Push(b.adjacency, x, y), y, x))
    else
      if b.recordsDone >= |records| then b
      else
        var r := records[b.recordsDone];
        b.(recordsDone := b.recordsDone + 1, breeds := Push(b.breeds, r.breed, r.id),
           ageCache := b.ageCache + [r.age], positions := b.positions[r.id := b.recordsDone])
  }

  function RunBuild(records: seq<DogRecord>, edges: seq<Edge>, schedule: seq<bool>): Build {
    if schedule == [] then Build(0, map[], 0, map[], [], map[])
    else
      var n := |schedule| - 1;
      BuildStep(records, edges, RunBuild(records, edges, schedule[..n]), schedule[n])
  }

  predicate Built(records: seq<DogRecord>, edges: seq<Edge>, b: Build) {
    && b.edgesDone <= |edges| && b.adjacency == AdjacencyIndex(edges[..b.edgesDone])
    && b.recordsDone <= |records| && b.breeds == BreedIndex(records[..b.recordsDone])
    && b.ageCache == AgesInOrder(records[..b.recordsDone])
    && b.positions == PositionsOf(records[..b.recordsDone])
  }

  lemma BuildStepKeeps(records: seq<DogRecord>, edges: seq<Edge>, b: Build, spawned: bool)
    requires Built(records, edges, b)
    ensures Built(records, edges, BuildStep(records, edges, b, spawned))
  {
    var m, n := b.edgesDone, b.recordsDone;
    if spawned && m < |edges| {
      assert edges[..m + 1][..m] == edges[..m];
    }
    if !spawned && n < |records| {
      assert records[..n + 1][..n] == records[..n];
      assert AgesInOrder(records[..n + 1]) == AgesInOrder(records[..n]) + [records[n].age];
    }
  }

  lemma {:induction false} RunBuildKeeps(records: seq<DogRecord>, edges: seq<Edge>, schedule: seq<bool>)
    ensures Built(records, edges, RunBuild(records, edges, schedule))
  {
    if schedule == [] {
      assert records[..0] == [] && edges[..0] == [];
    } else {
      var n := |schedule| - 1;
      RunBuildKeeps(records, edges, schedule[..n]);
      BuildStepKeeps(records, edges, RunBuild(records, edges, schedule[..n]), schedule[n]);
    }
  }

  /** Every interleaving that lets both threads finish builds what the sequential build does. */
  lemma EveryScheduleBuildsTheSame(records: seq<DogRecord>, edges: seq<Edge>, schedule: seq<bool>)
    ensures
      var b := RunBuild(records, edges, schedule);
      b.edgesDone >= |edges| && b.recordsDone >= |records| ==>
        State(ById(records), b.breeds, b.adjacency, b.ageCache, b.positions) == NewState(records, edges)
  {
    RunBuildKeeps(records, edges, schedule);
    assert records[..|records|] == records && edges[..|edges|] == edges;
  }

  // ----- the state in memory -----

  class CanonicalCachedState {
    var records: map<Uuid, DogRecord>
    const breedIndex: map<Breed, seq<Uuid>>
    const adjacencyIndex: map<Uuid, seq<Uuid>>
    var ageCache: seq<u32>
    const positionIndex: map<Uuid, nat>

    ghost function Value(): State
      reads this
    {
      State(records, breedIndex, adjacencyIndex, ageCache, positionIndex)
    }

    /** A state read back from a snapshot. */
    constructor FromValue(s: State)
      ensures Value() == s
    {
      records, breedIndex, adjacencyIndex := s.records, s.breeds, s.adjacency;
      ageCache, positionIndex := s.ageCache, s.positions;
    }

    constructor NewSequential(recordList: seq<DogRecord>, edges: seq<Edge>)
      ensures Value() == NewState(recordList, edges)
      ensures Consistent(Value())
    {
      var byId, breeds, adjacency := BuildIndexes(recordList, edges);
      var ages, positions := CacheAges(recordList);
      records, breedIndex, adjacencyIndex := byId, breeds, adjacency;
      ageCache, positionIndex := ages, positions;
      NewStateIsConsistent(recordList, edges);
    }

    method Snapshot() returns (s: State)
      ensures s == Value()
    {
      s := State(records, breedIndex, adjacencyIndex, ageCache, positionIndex);
    }

    method UpdateAge(id: Uuid, age: u32) returns (r: Result<(), StoreError>)
      modifies this
      ensures Value() == WithAge(old(Value()), id, age)
      ensures r == Verdict(UpdateState(old(Value()), id, age))
      ensures Consistent(old(Value())) ==>
                Consistent(Value()) && r == if id in old(records) then Ok(()) else Err(NotFound(id))
    {
      ghost var before := Value();
      if Consistent(before) { UpdateKeepsConsistent(before, id, age); }
      if id !in records {
        return Err(NotFound(id));
      }
      records := records[id := records[id].(age := age)];
      if id !in positionIndex {
        return Err(NotFound(id));
      }
      if positionIndex[id] >= |ageCache| {
        return Err(CacheOutOfBounds(id));
      }
      ageCache := ageCache[positionIndex[id] := age];
      r := Ok(());
    }

    method Get(id: Uuid) returns (r: Option<DogRecord>)
      ensures r == if id in records then Some(records[id]) else None
    {
      r := if id in records then Some(records[id]) else None;
    }

    /** The cache itself: at each record's position, that record's current age. */
    method ScanAges() returns (ages: seq<u32>)
      ensures ages == ageCache
      ensures Consistent(Value()) ==>
                forall id | id in records :: positionIndex[id] < |ages| && ages[positionIndex[id]] == records[id].age
    {
      ages := ageCache;
    }
  }

  method CacheAges(records: seq<DogRecord>) returns (ages: seq<u32>, positions: map<Uuid, nat>)
    ensures ages == AgesInOrder(records)
    ensures positions == PositionsOf(records)
  {
    ages, positions := [], map[];
    for i := 0 to |records|
      invariant ages == AgesInOrder(records)[..i]
      invariant positions == PositionsOf(records[..i])
    {
      assert records[..i + 1][..i] == records[..i];
      ages := ages + [records[i].age];
      positions := positions[records[i].id := i];
    }
    assert records[..|records|] == records;
  }
}
