/**
 The record type (src/record.rs) and the three indexes every store builds from a caller's
 records and edges: the canonical map, the breed index and the adjacency index.
 A breed is its UTF-8 bytes.
 */
module Records {
  import opened Bytes
  import opened Histories

  type Breed = seq<byte>

  datatype DogRecord = DogRecord(id: Uuid, breed: Breed, age: u32)

  type Edge = (Uuid, Uuid)

  /** What a refused update reports; `CacheOutOfBounds` is the bounds failure that stops the process. */
  datatype StoreError = NotFound(id: Uuid) | CacheOutOfBounds(id: Uuid)

  /** `index.entry(key).or_default().push(value)`. */
  function Push<K, V>(index: map<K, seq<V>>, key: K, value: V): map<K, seq<V>> {
    index[key := Lookup(index, key) + [value]]
  }

  /** `index.get(&key).cloned().unwrap_or_default()`. */
  function Lookup<K, V>(index: map<K, seq<V>>, key: K): seq<V> {
    if key in index then index[key] else []
  }

  /** `records.into_iter().map(|r| (r.id, r)).collect()`: a repeated id keeps its last record. */
  function ById(records: seq<DogRecord>): map<Uuid, DogRecord> {
    if records == [] then map[]
    else
      var last := records[|records| - 1];
      ById(records[..|records| - 1])[last.id := last]
  }

  lemma {:induction false} ByIdHoldsEach(records: seq<DogRecord>)
    ensures forall id | id in ById(records) :: ById(records)[id].id == id && ById(records)[id] in records
    ensures forall i | 0 <= i < |records| :: records[i].id in ById(records)
  {
    if records != [] {
      ByIdHoldsEach(records[..|records| - 1]);
    }
  }

  predicate Listed(records: seq<DogRecord>, id: Uuid) {
    exists i :: 0 <= i < |records| && records[i].id == id
  }

  /** No later record of the list has the same id. */
  predicate LastRecord(records: seq<DogRecord>, i: nat)
    requires i < |records|
  {
    forall j | i < j < |records| :: records[j].id != records[i].id
  }

  lemma {:induction false} ByIdLists(records: seq<DogRecord>, id: Uuid)
    ensures id in ById(records) <==> Listed(records, id)
  {
    if records != [] {
      var n := |records| - 1;
      ByIdLists(records[..n], id);
      if j :| 0 <= j < n && records[..n][j].id == id {
        assert records[j].id == id;
      }
      if j :| 0 <= j < |records| && records[j].id == id {
        assert j < n ==> records[..n][j].id == id;
        assert j == n || j < n;
      }
      assert records[n].id == id ==> id in ById(records);
    }
  }

  lemma {:induction false} ByIdKeepsTheLast(records: seq<DogRecord>, i: nat)
    requires i < |records| && LastRecord(records, i)
    ensures records[i].id in ById(records) && ById(records)[records[i].id] == records[i]
  {
    var n := |records| - 1;
    if i < n {
      assert records[n].id != records[i].id;
      assert records[..n][i] == records[i];
      ByIdKeepsTheLast(records[..n], i);
    }
  }

  /** What a store built from a list shows of an id after a history of age updates. */
  function RecordAfter(records: seq<DogRecord>, sets: seq<(Uuid, u32)>, id: Uuid): Option<DogRecord> {
    if id in ById(records) then Some(ById(records)[id].(age := SetLast<u32>(sets, id, ById(records)[id].age))) else None
  }

  /** The last record listed for the id, with the last age set; nothing for an id not listed. */
  lemma RecordAfterIs(records: seq<DogRecord>, sets: seq<(Uuid, u32)>, id: Uuid)
    ensures RecordAfter(records, sets, id).Some? <==> Listed(records, id)
    ensures forall i | 0 <= i < |records| && records[i].id == id && LastRecord(records, i) ::
              RecordAfter(records, sets, id)
              == Some(DogRecord(id, records[i].breed, SetLast(sets, id, records[i].age)))
  {
    ByIdLists(records, id);
    forall i | 0 <= i < |records| && records[i].id == id && LastRecord(records, i)
      ensures RecordAfter(records, sets, id)
              == Some(DogRecord(id, records[i].breed, SetLast(sets, id, records[i].age)))
    {
      ByIdKeepsTheLast(records, i);
    }
  }

  function Ids(records: seq<DogRecord>): set<Uuid> {
    ById(records).Keys
  }

  function BreedIndex(records: seq<DogRecord>): map<Breed, seq<Uuid>> {
    if records == [] then map[]
    else
      var last := records[|records| - 1];
      Push(BreedIndex(records[..|records| - 1]), last.breed, last.id)
  }

  function AdjacencyIndex(edges: seq<Edge>): map<Uuid, seq<Uuid>> {
    if edges == [] then map[]
    else
      var (a, b) := edges[|edges| - 1];
      Push(Push(AdjacencyIndex(edges[..|edges| - 1]), a, b), b, a)
  }

  /** The other end of every edge that touches `a`, in edge order; an edge from `a` to itself counts twice. */
  function OtherEnds(edges: seq<Edge>, a: Uuid): seq<Uuid> {
    if edges == [] then []
    else
      var (x, y) := edges[|edges| - 1];
      OtherEnds(edges[..|edges| - 1], a) + (if x == a then [y] else []) + if y == a then [x] else []
  }

  /** What the adjacency index lists under an id: its other ends, and nothing for an id no edge touches. */
  lemma {:induction false} AdjacencyListsOtherEnds(edges: seq<Edge>, a: Uuid)
    ensures Lookup(AdjacencyIndex(edges), a) == OtherEnds(edges, a)
  {
    if edges != [] {
      AdjacencyListsOtherEnds(edges[..|edges| - 1], a);
    }
  }

  /** The loops of `build_indexes_sequential`. */
  method BuildIndexes(records: seq<DogRecord>, edges: seq<Edge>)
    returns (byId: map<Uuid, DogRecord>, breeds: map<Breed, seq<Uuid>>, adjacency: map<Uuid, seq<Uuid>>)
    ensures byId == ById(records)
    ensures breeds == BreedIndex(records)
    ensures adjacency == AdjacencyIndex(edges)
  {
    breeds := IndexBreeds(records);
    adjacency := IndexEdges(edges);
    byId := map[];
    for i := 0 to |records|
      invariant byId == ById(records[..i])
    {
      assert records[..i + 1][..i] == records[..i];
      byId := byId[records[i].id := records[i]];
    }
    assert records[..|records|] == records;
  }

  method IndexBreeds(records: seq<DogRecord>) returns (breeds: map<Breed, seq<Uuid>>)
    ensures breeds == BreedIndex(records)
  {
    breeds := map[];
    for i := 0 to |records|
      invariant breeds == BreedIndex(records[..i])
    {
      assert records[..i + 1][..i] == records[..i];
      breeds := Push(breeds, records[i].breed, records[i].id);
    }
    assert records[..|records|] == records;
  }

  method IndexEdges(edges: seq<Edge>) returns (adjacency: map<Uuid, seq<Uuid>>)
    ensures adjacency == AdjacencyIndex(edges)
  {
    adjacency := map[];
    for i := 0 to |edges|
      invariant adjacency == AdjacencyIndex(edges[..i])
    {
      assert edges[..i + 1][..i] == edges[..i];
      var (a, b) := edges[i];
      adjacency := Push(Push(adjacency, a, b), b, a);
    }
    assert edges[..|edges|] == edges;
  }

  function WithoutId(ids: seq<Uuid>, id: Uuid): seq<Uuid> {
    if ids == [] then []
    else (if ids[0] == id then [] else [ids[0]]) + WithoutId(ids[1..], id)
  }

  /** `same_breed`: the ids sharing `id`'s breed, `id` itself left out, in index order. */
  function SameBreedIn(byId: map<Uuid, DogRecord>, breeds: map<Breed, seq<Uuid>>, id: Uuid): seq<Uuid> {
    if id in byId then WithoutId(Lookup(breeds, byId[id].breed), id) else []
  }

  /** The breed index lists an id under a breed exactly when some record pairs them. */
  lemma {:induction false} BreedIndexLists(records: seq<DogRecord>, breed: Breed, id: Uuid)
    ensures id in Lookup(BreedIndex(records), breed)
            <==> exists i :: 0 <= i < |records| && records[i].id == id && records[i].breed == breed
  {
    if records != [] {
      var n := |records| - 1;
      BreedIndexLists(records[..n], breed, id);
      if records[n].id == id && records[n].breed == breed {
        assert id in Lookup(BreedIndex(records), breed);
      }
      if i :| 0 <= i < n && records[i].id == id && records[i].breed == breed {
        assert records[..n][i] == records[i];
      }
    }
  }

  predicate OneBreedPerId(records: seq<DogRecord>) {
    forall i, j | 0 <= i < |records| && 0 <= j < |records| && records[i].id == records[j].id ::
      records[i].breed == records[j].breed
  }

  /** A breed's ids stand in the list's order, once for each record. */
  lemma {:induction false} BreedIndexInOrder(a: seq<DogRecord>, b: seq<DogRecord>, breed: Breed)
    ensures Lookup(BreedIndex(a + b), breed) == Lookup(BreedIndex(a), breed) + Lookup(BreedIndex(b), breed)
  {
    if b == [] {
      assert a + b == a;
      assert Lookup(BreedIndex(a), breed) + [] == Lookup(BreedIndex(a), breed);
    } else {
      var n := |b| - 1;
      BreedIndexInOrder(a, b[..n], breed);
      assert b == b[..n] + [b[n]] && a + b == a + b[..n] + [b[n]];
      BreedIndexSnoc(a + b[..n], b[n], breed);
      BreedIndexSnoc(b[..n], b[n], breed);
      JoinThree(Lookup(BreedIndex(a), breed), Lookup(BreedIndex(b[..n]), breed),
                if b[n].breed == breed then [b[n].id] else []);
    }
  }

  lemma JoinThree<T>(x: seq<T>, y: seq<T>, z: seq<T>)
    ensures x + y + z == x + (y + z)
  {
  }

  lemma BreedIndexSnoc(records: seq<DogRecord>, last: DogRecord, breed: Breed)
    ensures Lookup(BreedIndex(records + [last]), breed)
            == Lookup(BreedIndex(records), breed) + if last.breed == breed then [last.id] else []
  {
    assert (records + [last])[..|records|] == records;
    var ids := Lookup(BreedIndex(records), breed);
    assert ids + [] == ids;
  }

  lemma BreedIndexOfOne(r: DogRecord, breed: Breed)
    ensures Lookup(BreedIndex([r]), breed) == if r.breed == breed then [r.id] else []
  {
    assert [r][..0] == [];
  }

  /** Leaving an id out keeps every other as often as it was, and in order. */
  lemma {:induction false} WithoutIdInOrder(a: seq<Uuid>, b: seq<Uuid>, id: Uuid)
    ensures WithoutId(a + b, id) == WithoutId(a, id) + WithoutId(b, id)
  {
    if a == [] {
      assert a + b == b;
      assert [] + WithoutId(b, id) == WithoutId(b, id);
    } else {
      WithoutIdInOrder(a[1..], b, id);
      assert a == [a[0]] + a[1..] && a + b == [a[0]] + (a[1..] + b);
      WithoutIdCons(a[0], a[1..] + b, id);
      WithoutIdCons(a[0], a[1..], id);
      JoinThree(if a[0] == id then [] else [a[0]], WithoutId(a[1..], id), WithoutId(b, id));
    }
  }

  lemma WithoutIdCons(x: Uuid, rest: seq<Uuid>, id: Uuid)
    ensures WithoutId([x] + rest, id) == (if x == id then [] else [x]) + WithoutId(rest, id)
  {
    assert ([x] + rest)[1..] == rest;
  }

  /** The breed index lists an id under a breed as often as the list pairs them. */
  lemma {:induction false} BreedIndexCounts(records: seq<DogRecord>, breed: Breed, id: Uuid)
    ensures multiset(Lookup(BreedIndex(records), breed))[id] == Pairings(records, id, breed)
  {
    if records != [] {
      var n := |records| - 1;
      BreedIndexCounts(records[..n], breed, id);
      assert records == records[..n] + [records[n]];
      BreedIndexSnoc(records[..n], records[n], breed);
      var more := if records[n].breed == breed then [records[n].id] else [];
      CountJoined(Lookup(BreedIndex(records[..n]), breed), more, id);
    }
  }

  /** So an answer of `same_breed` names an id as often as the list pairs it with the breed. */
  lemma {:induction false} SameBreedCounts(records: seq<DogRecord>, breed: Breed, id: Uuid, other: Uuid)
    requires other != id
    ensures multiset(WithoutId(Lookup(BreedIndex(records), breed), id))[other] == Pairings(records, other, breed)
  {
    if records != [] {
      var n := |records| - 1;
      var last := records[n];
      var earlier := Lookup(BreedIndex(records[..n]), breed);
      SameBreedCounts(records[..n], breed, id, other);
      assert records == records[..n] + [last];
      BreedIndexSnoc(records[..n], last, breed);
      var more := if last.breed == breed then [last.id] else [];
      WithoutIdInOrder(earlier, more, id);
      CountOfOne(more, last.id, id, other);
      CountJoined(WithoutId(earlier, id), WithoutId(more, id), other);
    }
  }

  lemma CountOfOne(ids: seq<Uuid>, one: Uuid, id: Uuid, other: Uuid)
    requires (ids == [] || ids == [one]) && other != id
    ensures multiset(WithoutId(ids, id))[other] == if ids == [one] && one == other then 1 else 0
  {
    assert [one][1..] == [];
  }

  lemma CountJoined(a: seq<Uuid>, b: seq<Uuid>, id: Uuid)
    ensures multiset(a + b)[id] == multiset(a)[id] + multiset(b)[id]
  {
  }

  /** Nothing for an id not listed; otherwise each other id as often as the list pairs it with the id's breed. */
  ghost predicate CountsBreed(ids: seq<Uuid>, records: seq<DogRecord>, id: Uuid) {
    if id !in ById(records) then ids == []
    else forall other | other != id :: multiset(ids)[other] == Pairings(records, other, ById(records)[id].breed)
  }

  lemma SameBreedCounted(records: seq<DogRecord>, id: Uuid)
    ensures CountsBreed(SameBreedIn(ById(records), BreedIndex(records), id), records, id)
  {
    if id in ById(records) {
      forall other | other != id
        ensures multiset(SameBreedIn(ById(records), BreedIndex(records), id))[other]
                == Pairings(records, other, ById(records)[id].breed)
      {
        SameBreedCounts(records, ById(records)[id].breed, id, other);
      }
    }
  }

  /** How many records of the list have this id and this breed. */
  function Pairings(records: seq<DogRecord>, id: Uuid, breed: Breed): nat {
    if records == [] then 0
    else
      var last := records[|records| - 1];
      Pairings(records[..|records| - 1], id, breed) + if last.id == id && last.breed == breed then 1 else 0
  }

  /** What `same_breed` promises: the other ids whose records have the id's breed. */
  predicate SharesBreed(byId: map<Uuid, DogRecord>, id: Uuid, other: Uuid) {
    id in byId && other in byId && other != id && byId[other].breed == byId[id].breed
  }

  /** No record was overtaken by one of another breed while some other id kept the first breed. */
  predicate NoStrays(records: seq<DogRecord>) {
    forall i, id | 0 <= i < |records| && id in ById(records) && id != records[i].id ::
      ById(records)[id].breed == records[i].breed ==> CurrentBreed(records, records[i].id) == Some(records[i].breed)
  }

  function CurrentBreed(records: seq<DogRecord>, id: Uuid): Option<Breed> {
    if id in ById(records) then Some(ById(records)[id].breed) else None
  }

  lemma {:induction false} WithoutIdListed(ids: seq<Uuid>, id: Uuid, other: Uuid)
    ensures other in WithoutId(ids, id) <==> other in ids && other != id
  {
    if ids != [] {
      WithoutIdListed(ids[1..], id, other);
      assert ids == [ids[0]] + ids[1..];
    }
  }

  lemma SameBreedLists(records: seq<DogRecord>, id: Uuid, other: Uuid)
    requires id in ById(records)
    ensures other in SameBreedIn(ById(records), BreedIndex(records), id)
            <==> other != id && exists i ::
                   0 <= i < |records| && records[i].id == other && records[i].breed == ById(records)[id].breed
  {
    var breed := ById(records)[id].breed;
    WithoutIdListed(Lookup(BreedIndex(records), breed), id, other);
    BreedIndexLists(records, breed, other);
  }

  /** Nothing that belongs is left out, whatever the list. */
  lemma SameBreedMissesNothing(records: seq<DogRecord>, id: Uuid, other: Uuid)
    requires SharesBreed(ById(records), id, other)
    ensures other in SameBreedIn(ById(records), BreedIndex(records), id)
  {
    SameBreedLists(records, id, other);
    ByIdHoldsEach(records);
    var i :| 0 <= i < |records| && records[i] == ById(records)[other];
  }

  /** `same_breed` answers with exactly the other ids of the breed, for every id, if and only if there are no strays. */
  lemma SameBreedAnswersIff(records: seq<DogRecord>)
    ensures (forall id, other ::
               other in SameBreedIn(ById(records), BreedIndex(records), id) <==> SharesBreed(ById(records), id, other))
            <==> NoStrays(records)
  {
    ByIdHoldsEach(records);
    if NoStrays(records) {
      forall id, other
        ensures other in SameBreedIn(ById(records), BreedIndex(records), id)
                <==> SharesBreed(ById(records), id, other)
      {
        SameBreedAnswers(records, id, other);
      }
    } else {
      var i, id :| && 0 <= i < |records| && id in ById(records) && id != records[i].id
                   && ById(records)[id].breed == records[i].breed
                   && CurrentBreed(records, records[i].id) != Some(records[i].breed);
      SameBreedLists(records, id, records[i].id);
      assert records[i].id in SameBreedIn(ById(records), BreedIndex(records), id);
      assert !SharesBreed(ById(records), id, records[i].id);
    }
  }

  lemma SameBreedAnswers(records: seq<DogRecord>, id: Uuid, other: Uuid)
    requires NoStrays(records)
    ensures other in SameBreedIn(ById(records), BreedIndex(records), id) <==> SharesBreed(ById(records), id, other)
  {
    if SharesBreed(ById(records), id, other) {
      SameBreedMissesNothing(records, id, other);
    } else if id in ById(records) && other in SameBreedIn(ById(records), BreedIndex(records), id) {
      SameBreedLists(records, id, other);
    }
  }

  /** In particular when no id comes with two breeds. */
  lemma OneBreedNoStrays(records: seq<DogRecord>)
    requires OneBreedPerId(records)
    ensures NoStrays(records)
  {
    ByIdHoldsEach(records);
    forall i | 0 <= i < |records|
      ensures CurrentBreed(records, records[i].id) == Some(records[i].breed)
    {
      var j :| 0 <= j < |records| && records[j] == ById(records)[records[i].id];
    }
  }

  // ----- scans in no particular order -----

  /** `ages[i]` is the age of `ids[i]`, and every id of the table is there once. */
  predicate ListedBy(ages: seq<u32>, ids: seq<Uuid>, table: map<Uuid, u32>) {
    && |ages| == |ids|
    && (forall i, j | 0 <= i < j < |ids| :: ids[i] != ids[j])
    && (forall id | id in table :: id in ids)
    && forall i | 0 <= i < |ids| :: ids[i] in table && ages[i] == table[ids[i]]
  }

  /** The ages of a table, each once, in some order. */
  ghost predicate Lists(ages: seq<u32>, table: map<Uuid, u32>) {
    exists ids: seq<Uuid> :: ListedBy(ages, ids, table)
  }

  lemma ListOneMore(ages: seq<u32>, ids: seq<Uuid>, table: map<Uuid, u32>, id: Uuid, age: u32)
    requires ListedBy(ages, ids, table) && id !in table
    ensures ListedBy(ages + [age], ids + [id], table[id := age])
  {
    forall other | other in table[id := age]
      ensures other in ids + [id]
    {
      assert other in table || other == id;
    }
  }
}
