/**
 A durable scannable field over an inner store (src/generic/mmap_scanned.rs), as a value: the slots
 of its file, its `id -> position` index, and the inner store's records. Every operation is a
 function here; the store class does the same in place.

 The inner store is whatever the caller passes in: the ids it holds and the ids this layer indexes
 are usually the same, but nothing makes them so, and each operation says what happens when they
 are not.
 */
module ScannedField {
  import opened Bytes
  import opened Slots
  import opened SlotStacks
  import opened SlotFiles

  /** A record: its id, the field this layer keeps, and everything else. */
  datatype Rec = Rec(id: Uuid, value: Value, rest: seq<byte>)

  datatype FieldError = Duplicate(id: Uuid) | NotFound(id: Uuid)

  datatype Layer = Layer(slots: seq<Slot<Value>>, index: map<Uuid, nat>, inner: map<Uuid, Rec>)

  function ById(records: seq<Rec>): map<Uuid, Rec> {
    if records == [] then map[]
    else ById(records[..|records| - 1])[records[|records| - 1].id := records[|records| - 1]]
  }

  /** The `(id, value)` pair each record would be seeded with. */
  function Pairs(records: seq<Rec>): (entries: seq<Entry>)
    ensures |entries| == |records|
    ensures forall i | 0 <= i < |records| :: entries[i] == (records[i].id, records[i].value)
  {
    seq(|records|, i requires 0 <= i < |records| => (records[i].id, records[i].value))
  }

  /** The pairs of the records whose ids are not among `known`, in order. */
  function Missing(records: seq<Rec>, known: set<Uuid>): seq<Entry> {
    if records == [] then []
    else
      var last := records[|records| - 1];
      Missing(records[..|records| - 1], known) + if last.id in known then [] else [(last.id, last.value)]
  }

  lemma {:induction false} ByIdKeys(records: seq<Rec>)
    ensures ById(records).Keys == IdsOf(Pairs(records))
  {
    if records != [] {
      var n := |records| - 1;
      ByIdKeys(records[..n]);
      assert Pairs(records)[..n] == Pairs(records[..n]);
      assert IdsOf(Pairs(records)) == IdsOf(Pairs(records[..n])) + {records[n].id};
    }
  }

  lemma IdsOfSnoc(entries: seq<Entry>, last: Entry)
    ensures IdsOf(entries + [last]) == IdsOf(entries) + {last.0}
  {
    var all := entries + [last];
    assert all[|entries|].0 == last.0;
    assert forall i | 0 <= i < |entries| :: all[i].0 == entries[i].0;
  }

  lemma {:induction false} MissingIds(records: seq<Rec>, known: set<Uuid>)
    ensures IdsOf(Missing(records, known)) == ById(records).Keys - known
  {
    if records != [] {
      var last := records[|records| - 1];
      var earlier := Missing(records[..|records| - 1], known);
      MissingIds(records[..|records| - 1], known);
      IdsOfSnoc(earlier, (last.id, last.value));
      assert earlier + [] == earlier;
    }
  }

  /** The records left out are those known; the others each give one pair, in the list's order, repeats and all. */
  lemma {:induction false} MissingInOrder(a: seq<Rec>, b: seq<Rec>, known: set<Uuid>)
    ensures Missing(a + b, known) == Missing(a, known) + Missing(b, known)
  {
    if b == [] {
      assert a + b == a;
      assert Missing(a, known) + [] == Missing(a, known);
    } else {
      var n := |b| - 1;
      MissingInOrder(a, b[..n], known);
      assert b == b[..n] + [b[n]] && a + b == a + b[..n] + [b[n]];
      MissingSnoc(a + b[..n], b[n], known);
      MissingSnoc(b[..n], b[n], known);
    }
  }

  lemma MissingSnoc(records: seq<Rec>, last: Rec, known: set<Uuid>)
    ensures Missing(records + [last], known)
            == Missing(records, known) + if last.id in known then [] else [(last.id, last.value)]
  {
    assert (records + [last])[..|records|] == records;
  }

  lemma MissingOne(r: Rec, known: set<Uuid>)
    ensures Missing([r], known) == if r.id in known then [] else [(r.id, r.value)]
    ensures Missing([], known) == []
  {
    assert [r][..0] == [];
  }

  // ----- the operations -----

  function Create(inner: map<Uuid, Rec>, records: seq<Rec>): Layer {
    Layer(SlotsOf(Pairs(records)), Enumerated(Pairs(records), 0), inner)
  }

  /** A committed id keeps its slot; every other record gets one appended, seeded from itself. */
  function Open(slots: seq<Slot<Value>>, inner: map<Uuid, Rec>, records: seq<Rec>): Layer {
    var persisted := LastCommitted(slots);
    var missing := Missing(records, persisted.Keys);
    var kept := map id | id in ById(records) && id in persisted :: persisted[id];
    Layer(slots + SlotsOf(missing), kept + Enumerated(missing, |slots|), inner)
  }

  datatype Op =
    | Insert(record: Rec)
    | Delete(id: Uuid)
    | Replace(record: Rec)
    | Update(id: Uuid, value: Value)
    | Compact
    | Reopen(inner: map<Uuid, Rec>, records: seq<Rec>)

  /** What is refused, given the inner store's ids and the ones this layer indexes. */
  function Refusal(live: set<Uuid>, kept: set<Uuid>, op: Op): Option<FieldError> {
    match op
    case Insert(r) => if r.id in live then Some(Duplicate(r.id)) else None
    case Delete(id) => if id in live then None else Some(NotFound(id))
    case Replace(r) => if r.id in live && r.id in kept then None else Some(NotFound(r.id))
    case Update(id, _) => if id in kept then None else Some(NotFound(id))
    case Compact => None
    case Reopen(_, _) => None
  }

  /** Every live `(id, value)`, in position order. */
  function LivePairs(l: Layer): seq<Entry> {
    var ps := LivePositions(l.index, |l.slots|);
    seq(|ps|, i requires 0 <= i < |ps| => assert ps[i] in ps; (l.slots[ps[i]].id, l.slots[ps[i]].value))
  }

  function Compacted(l: Layer): Layer {
    l.(slots := SlotsOf(LivePairs(l)), index := Enumerated(LivePairs(l), 0))
  }

  /** The inner store goes first. A replace it accepts stands there even when this layer has no slot for the id. */
  function Step(l: Layer, op: Op): Layer
    requires Inv(l)
  {
    match op
    case Insert(r) =>
      if r.id in l.inner then l
      else Layer(l.slots + [Slot(r.id, r.value, true)], l.index[r.id := |l.slots|], l.inner[r.id := r])
    case Delete(id) =>
      if id !in l.inner then l
      else if id !in l.index then l.(inner := l.inner - {id})
      else Layer(Rewritten(l, id, Slot(id, l.slots[l.index[id]].value, false)), l.index - {id}, l.inner - {id})
    case Replace(r) =>
      if r.id !in l.inner then l
      else if r.id !in l.index then l.(inner := l.inner[r.id := r])
      else l.(slots := Rewritten(l, r.id, Slot(r.id, r.value, true)), inner := l.inner[r.id := r])
    case Update(id, value) =>
      if id !in l.index then l else l.(slots := Rewritten(l, id, Slot(id, value, true)))
    case Compact => Compacted(l)
    case Reopen(inner, records) => Open(l.slots, inner, records)
  }

  function Rewritten(l: Layer, id: Uuid, slot: Slot<Value>): seq<Slot<Value>>
    requires id in l.index && l.index[id] < |l.slots|
  {
    l.slots[l.index[id] := slot]
  }

  /** A read: the inner store's record, patched with this layer's value. */
  function Get(l: Layer, id: Uuid): Option<Rec> {
    if id !in l.inner then None
    else if id in l.index && l.index[id] < |l.slots| then
      Some(l.inner[id].(value := l.slots[l.index[id]].value))
    else Some(l.inner[id])
  }

  // ----- what every step keeps -----

  /** Each indexed id is indexed at its last committed slot. */
  ghost predicate Inv(l: Layer) {
    && (forall id | id in l.index :: IndexedLast(l, id))
    && Indexes(l.slots, l.index)
  }

  predicate IndexedLast(l: Layer, id: Uuid)
    requires id in l.index
  {
    id in LastCommitted(l.slots) && l.index[id] == LastCommitted(l.slots)[id]
  }

  /** The index is in range, at committed slots carrying the id, and no two ids share a slot. */
  lemma IndexIsSound(l: Layer)
    requires Inv(l)
    ensures Indexes(l.slots, l.index)
    ensures forall a, b | a in l.index && b in l.index && a != b :: l.index[a] != l.index[b]
    ensures |l.index| <= |l.slots|
  {
    IndexInjective(l.slots, l.index);
  }

  lemma LastIsIndexed(l: Layer)
    requires forall id | id in l.index :: IndexedLast(l, id)
    ensures Indexes(l.slots, l.index)
  {
    forall id | id in l.index
      ensures l.index[id] < |l.slots| && l.slots[l.index[id]].id == id && l.slots[l.index[id]].committed
    {
      assert IndexedLast(l, id);
      IndexIsTop(l.slots, id, |l.slots|);
    }
  }

  lemma CreateKeeps(inner: map<Uuid, Rec>, records: seq<Rec>)
    ensures Inv(Create(inner, records))
    ensures Create(inner, records).index.Keys == ById(records).Keys
  {
    var l := Create(inner, records);
    ByIdKeys(records);
    EnumeratedIds(Pairs(records), 0);
    FreshIndex(Pairs(records));
    LastIsIndexed(l);
  }

  /** The index an open builds covers the supplied ids and is the grown file's own, restricted to them. */
  lemma OpenIndex(slots: seq<Slot<Value>>, inner: map<Uuid, Rec>, records: seq<Rec>)
    ensures
      var l := Open(slots, inner, records);
      && l.index.Keys == ById(records).Keys
      && forall id | id in l.index :: IndexedLast(l, id)
  {
    var missing := Missing(records, LastCommitted(slots).Keys);
    MissingIds(records, LastCommitted(slots).Keys);
    EnumeratedIds(missing, |slots|);
    AppendedIndex(slots, missing);
  }

  lemma OpenKeeps(slots: seq<Slot<Value>>, inner: map<Uuid, Rec>, records: seq<Rec>)
    ensures Inv(Open(slots, inner, records))
    ensures Open(slots, inner, records).index.Keys == ById(records).Keys
  {
    OpenIndex(slots, inner, records);
    LastIsIndexed(Open(slots, inner, records));
  }

  lemma InsertKeeps(l: Layer, r: Rec)
    requires Inv(l) && r.id !in l.inner
    ensures Inv(Step(l, Insert(r)))
  {
    var m := Step(l, Insert(r));
    AppendWins(l.slots, (r.id, r.value));
    forall id | id in m.index
      ensures IndexedLast(m, id)
    {
      if id != r.id { assert IndexedLast(l, id); }
    }
    LastIsIndexed(m);
  }

  lemma DeleteKeeps(l: Layer, id: Uuid)
    requires Inv(l) && id in l.inner && id in l.index
    ensures Inv(Step(l, Delete(id)))
  {
    var m := Step(l, Delete(id));
    var p := l.index[id];
    forall other | other in m.index
      ensures IndexedLast(m, other)
    {
      assert IndexedLast(l, other);
      RewriteKeepsOtherIndexes(l.slots, p, Slot(id, l.slots[p].value, false), other, |l.slots|);
    }
    LastIsIndexed(m);
  }

  /** A value write moves no index entry. */
  lemma WriteKeepsIndex(l: Layer, id: Uuid, value: Value)
    requires Inv(l) && id in l.index
    ensures LastCommitted(Rewritten(l, id, Slot(id, value, true))) == LastCommitted(l.slots)
  {
    var p := l.index[id];
    assert l.slots[p].(value := value) == Slot(id, value, true);
    OverwriteKeepsIndex(l.slots, p, value);
  }

  lemma WriteKeeps(l: Layer, id: Uuid, value: Value)
    requires Inv(l) && id in l.index
    ensures Inv(l.(slots := Rewritten(l, id, Slot(id, value, true))))
  {
    var m := l.(slots := Rewritten(l, id, Slot(id, value, true)));
    WriteKeepsIndex(l, id, value);
    forall other | other in m.index
      ensures IndexedLast(m, other)
    {
      assert IndexedLast(l, other);
    }
    LastIsIndexed(m);
  }

  lemma CompactKeeps(l: Layer)
    requires Inv(l)
    ensures Inv(Compacted(l))
    ensures Compacted(l).index.Keys == l.index.Keys
  {
    var m := Compacted(l);
    FreshIndex(LivePairs(l));
    EnumeratedIds(LivePairs(l), 0);
    LivePairsIds(l);
    LastIsIndexed(m);
  }

  lemma LivePairsIds(l: Layer)
    requires Inv(l)
    ensures IdsOf(LivePairs(l)) == l.index.Keys
  {
    var ps := LivePositions(l.index, |l.slots|);
    forall id
      ensures id in IdsOf(LivePairs(l)) <==> id in l.index
    {
      if id in l.index {
        assert l.index[id] in ps;
        var i :| 0 <= i < |ps| && ps[i] == l.index[id];
        assert LivePairs(l)[i].0 == id;
      }
      if id in IdsOf(LivePairs(l)) {
        var i :| 0 <= i < |ps| && LivePairs(l)[i].0 == id;
        assert ps[i] in ps;
        var live :| live in l.index && l.index[live] == ps[i];
      }
    }
  }

  /** A change of the inner store alone touches nothing of this layer's. */
  lemma InnerKeeps(l: Layer, inner: map<Uuid, Rec>)
    requires Inv(l)
    ensures Inv(l.(inner := inner))
  {
    var m := l.(inner := inner);
    forall id | id in m.index
      ensures IndexedLast(m, id)
    {
      assert IndexedLast(l, id);
    }
  }

  lemma StepKeeps(l: Layer, op: Op)
    requires Inv(l)
    ensures Inv(Step(l, op))
  {
    match op
    case Insert(r) =>
      if r.id !in l.inner { InsertKeeps(l, r); }
    case Delete(id) =>
      if id in l.inner && id in l.index { DeleteKeeps(l, id); } else { InnerKeeps(l, l.inner - {id}); }
    case Replace(r) =>
      ReplaceKeeps(l, r);
    case Update(id, value) =>
      if id in l.index { WriteKeeps(l, id, value); }
    case Compact => CompactKeeps(l);
    case Reopen(inner, records) => OpenKeeps(l.slots, inner, records);
  }

  lemma ReplaceKeeps(l: Layer, r: Rec)
    requires Inv(l)
    ensures Inv(Step(l, Replace(r)))
  {
    if r.id in l.inner && r.id in l.index {
      WriteKeeps(l, r.id, r.value);
      InnerKeeps(l.(slots := Rewritten(l, r.id, Slot(r.id, r.value, true))), l.inner[r.id := r]);
    } else {
      InnerKeeps(l, l.inner[r.id := r]);
    }
  }
}
