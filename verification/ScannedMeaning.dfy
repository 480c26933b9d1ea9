/**
 What a run of the durable field layer means (src/generic/mmap_scanned.rs): one stack of values per
 id, the inner store's records, and which ids the layer keeps. Creates, inserts, deletes, replaces,
 updates, compactions and reopens over the slot file do exactly what the stacks do; the last section
 says what follows for reopening.
 */
module ScannedMeaning {
  import opened Bytes
  import opened Histories
  import opened Slots
  import opened SlotStacks
  import opened SlotFiles
  import opened ScannedField

  /** A kept id's current value is the top of its stack; a live id's record shows it. */
  datatype Plain = Plain(stacks: map<Uuid, seq<Value>>, live: map<Uuid, Rec>, kept: set<Uuid>)

  function PlainCreate(inner: map<Uuid, Rec>, records: seq<Rec>): Plain {
    var seeded := PushAll(map[], Pairs(records));
    Plain(seeded, Patched(inner, seeded, ById(records).Keys), ById(records).Keys)
  }

  /** The inner store's records, each kept one with the top of its stack. */
  function Patched(inner: map<Uuid, Rec>, stacks: map<Uuid, seq<Value>>, kept: set<Uuid>): map<Uuid, Rec> {
    map id | id in inner ::
      if id !in kept || StackIn(stacks, id) == [] then inner[id] else inner[id].(value := Top(StackIn(stacks, id)))
  }

  function NonEmpty(stacks: map<Uuid, seq<Value>>): set<Uuid> {
    set id | id in stacks && stacks[id] != []
  }

  /** Supplied ids with no stack are seeded; the others keep what the file remembers. */
  function PlainOpen(stacks: map<Uuid, seq<Value>>, inner: map<Uuid, Rec>, records: seq<Rec>): Plain {
    var seeded := PushAll(stacks, Missing(records, NonEmpty(stacks)));
    Plain(seeded, Patched(inner, seeded, ById(records).Keys), ById(records).Keys)
  }

  function WithTop(stacks: map<Uuid, seq<Value>>, id: Uuid, top: seq<Value>): map<Uuid, seq<Value>> {
    stacks[id := Pop(StackIn(stacks, id)) + top]
  }

  /** One stack of one value, the top of what it was, per kept id. */
  function Tops(stacks: map<Uuid, seq<Value>>, kept: set<Uuid>): map<Uuid, seq<Value>> {
    map id | id in kept && StackIn(stacks, id) != [] :: [Top(StackIn(stacks, id))]
  }

  function PlainStep(p: Plain, op: Op): Plain {
    match op
    case Insert(r) =>
      if r.id in p.live then p
      else Plain(PushAll(p.stacks, [(r.id, r.value)]), p.live[r.id := r], p.kept + {r.id})
    case Delete(id) =>
      if id !in p.live then p
      else if id !in p.kept then p.(live := p.live - {id})
      else Plain(WithTop(p.stacks, id, []), p.live - {id}, p.kept - {id})
    case Replace(r) =>
      if r.id !in p.live then p
      else if r.id !in p.kept then p.(live := p.live[r.id := r])
      else p.(stacks := WithTop(p.stacks, r.id, [r.value]), live := p.live[r.id := r])
    case Update(id, value) =>
      if id !in p.kept then p
      else
        p.(stacks := WithTop(p.stacks, id, [value]),
           live := if id in p.live then p.live[id := p.live[id].(value := value)] else p.live)
    case Compact => p.(stacks := Tops(p.stacks, p.kept))
    case Reopen(inner, records) => PlainOpen(p.stacks, inner, records)
  }

  /** What the machine tells its caller: a problem with the id, or nothing. */
  function PlainAnswer(p: Plain, op: Op): Option<FieldError> {
    match op
    case Insert(r) => if r.id in p.live then Some(Duplicate(r.id)) else None
    case Delete(id) => if id in p.live then None else Some(NotFound(id))
    case Replace(r) => if r.id in p.live.Keys * p.kept then None else Some(NotFound(r.id))
    case Update(id, _) => if id in p.kept then None else Some(NotFound(id))
    case _ => None
  }

  // ----- refinement -----

  /** The layer shows exactly these records. */
  ghost predicate Shows(l: Layer, live: map<Uuid, Rec>) {
    && l.inner.Keys == live.Keys
    && forall id | id in live :: Get(l, id) == Some(live[id])
  }

  ghost predicate Refines(l: Layer, p: Plain) {
    Inv(l) && HoldsStacks(l.slots, p.stacks) && Shows(l, p.live) && l.index.Keys == p.kept
  }

  /** The value of a kept id. */
  function ValueOf(l: Layer, id: Uuid): Value
    requires Inv(l) && id in l.index
  {
    l.slots[l.index[id]].value
  }

  /** A kept id's indexed slot holds the top of its stack, and its live record shows it. */
  lemma ReadsTheTop(l: Layer, id: Uuid)
    requires Inv(l) && id in l.index
    ensures id in LastCommitted(l.slots) && l.index[id] == LastCommitted(l.slots)[id] < |l.slots|
    ensures StackOf(l.slots, id) != [] && ValueOf(l, id) == Top(StackOf(l.slots, id))
    ensures id in l.inner ==> Get(l, id) == Some(l.inner[id].(value := ValueOf(l, id)))
  {
    assert IndexedLast(l, id);
    IndexIsTop(l.slots, id, |l.slots|);
  }

  /** A layer shows its inner store's records, the kept ones with the tops of their stacks. */
  lemma ShowsPatched(l: Layer, stacks: map<Uuid, seq<Value>>)
    requires Inv(l) && HoldsStacks(l.slots, stacks)
    ensures Shows(l, Patched(l.inner, stacks, l.index.Keys))
  {
    forall id | id in l.inner
      ensures Get(l, id) == Some(Patched(l.inner, stacks, l.index.Keys)[id])
    {
      if id in l.index { ReadsTheTop(l, id); }
      assert StackOf(l.slots, id) == StackIn(stacks, id);
    }
  }

  // creating and opening

  lemma FreshStacks(entries: seq<Entry>)
    ensures HoldsStacks(SlotsOf(entries), PushAll(map[], entries))
  {
    var none: seq<Slot<Value>> := [];
    AppendingPushes(none, map[], entries);
    assert none + SlotsOf(entries) == SlotsOf(entries);
  }

  lemma CreateRefines(inner: map<Uuid, Rec>, records: seq<Rec>)
    ensures Refines(Create(inner, records), PlainCreate(inner, records))
  {
    CreateKeeps(inner, records);
    FreshStacks(Pairs(records));
    ShowsPatched(Create(inner, records), PushAll(map[], Pairs(records)));
  }

  lemma {:induction false} SeededValue(records: seq<Rec>, id: Uuid)
    requires id in ById(records)
    ensures id in LastOf(Pairs(records)) && LastOf(Pairs(records))[id] == ById(records)[id].value
  {
    var n := |records| - 1;
    assert Pairs(records)[..n] == Pairs(records[..n]);
    if records[n].id != id {
      SeededValue(records[..n], id);
    }
  }

  /** Over an inner store built from the same list, each id shows its last record, value and all. */
  lemma FreshLayerShowsTheList(records: seq<Rec>)
    ensures Shows(Create(ById(records), records), ById(records))
  {
    var l := Create(ById(records), records);
    CreateKeeps(ById(records), records);
    FreshFileHoldsTheList(Pairs(records));
    forall id | id in l.inner
      ensures Get(l, id) == Some(ById(records)[id])
    {
      ReadsTheTop(l, id);
      SeededValue(records, id);
    }
  }

  lemma SameKnown(slots: seq<Slot<Value>>, stacks: map<Uuid, seq<Value>>)
    requires HoldsStacks(slots, stacks)
    ensures LastCommitted(slots).Keys == NonEmpty(stacks)
  {
    forall id
      ensures id in LastCommitted(slots) <==> id in NonEmpty(stacks)
    {
      IndexIsTop(slots, id, |slots|);
      assert StackOf(slots, id) == StackIn(stacks, id);
    }
  }

  lemma OpenRefines(slots: seq<Slot<Value>>, stacks: map<Uuid, seq<Value>>, inner: map<Uuid, Rec>, records: seq<Rec>)
    requires HoldsStacks(slots, stacks)
    ensures Refines(Open(slots, inner, records), PlainOpen(stacks, inner, records))
  {
    OpenKeeps(slots, inner, records);
    SameKnown(slots, stacks);
    AppendingPushes(slots, stacks, Missing(records, NonEmpty(stacks)));
    ShowsPatched(Open(slots, inner, records), PlainOpen(stacks, inner, records).stacks);
  }

  // inserting

  lemma InsertShows(l: Layer, live: map<Uuid, Rec>, r: Rec)
    requires Inv(l) && Shows(l, live) && r.id !in live
    ensures Shows(Step(l, Insert(r)), live[r.id := r])
  {
    var m := Step(l, Insert(r));
    forall id | id in m.inner
      ensures Get(m, id) == Some(live[r.id := r][id])
    {
      if id != r.id {
        assert Get(l, id) == Some(live[id]);
        if id in l.index { ReadsTheTop(l, id); }
      }
    }
  }

  lemma InsertRefines(l: Layer, p: Plain, r: Rec)
    requires Refines(l, p) && r.id !in p.live
    ensures Refines(Step(l, Insert(r)), PlainStep(p, Insert(r)))
  {
    InsertKeeps(l, r);
    InsertShows(l, p.live, r);
    AppendingPushes(l.slots, p.stacks, [(r.id, r.value)]);
    assert SlotsOf([(r.id, r.value)]) == [Slot(r.id, r.value, true)];
  }

  // rewriting one live slot

  lemma RewriteStacks(l: Layer, stacks: map<Uuid, seq<Value>>, id: Uuid, slot: Slot<Value>)
    requires Inv(l) && HoldsStacks(l.slots, stacks) && id in l.index && slot.id == id
    ensures HoldsStacks(Rewritten(l, id, slot), WithTop(stacks, id, Held(slot, id)))
  {
    ReadsTheTop(l, id);
    RewritingTop(l.slots, stacks, id, slot);
  }

  /** The slot of one kept id rewritten, every other kept id still finds its own. */
  lemma RewriteKeepsOtherReads(l: Layer, id: Uuid, slot: Slot<Value>, other: Uuid)
    requires Inv(l) && id in l.index && other in l.index && other != id
    ensures l.index[other] < |l.slots| && Rewritten(l, id, slot)[l.index[other]] == l.slots[l.index[other]]
  {
    IndexIsSound(l);
  }

  lemma DeleteShows(l: Layer, live: map<Uuid, Rec>, id: Uuid)
    requires Inv(l) && Shows(l, live) && id in live && id in l.index
    ensures Shows(Step(l, Delete(id)), live - {id})
  {
    var m := Step(l, Delete(id));
    forall other | other in m.inner
      ensures Get(m, other) == Some(live[other])
    {
      assert Get(l, other) == Some(live[other]);
      if other in l.index {
        RewriteKeepsOtherReads(l, id, Slot(id, l.slots[l.index[id]].value, false), other);
      }
    }
  }

  /** Dropping or replacing a record this layer has no slot for changes what that id shows and nothing else. */
  lemma InnerShows(l: Layer, live: map<Uuid, Rec>, id: Uuid, record: Option<Rec>)
    requires Inv(l) && Shows(l, live) && id !in l.index
    ensures
      var m := l.(inner := if record.Some? then l.inner[id := record.value] else l.inner - {id});
      Shows(m, if record.Some? then live[id := record.value] else live - {id})
  {
    var m := l.(inner := if record.Some? then l.inner[id := record.value] else l.inner - {id});
    forall other | other in m.inner && other != id
      ensures Get(m, other) == Some(live[other])
    {
      assert Get(l, other) == Some(live[other]);
    }
  }

  lemma DeleteRefines(l: Layer, p: Plain, id: Uuid)
    requires Refines(l, p) && id in p.live
    ensures Refines(Step(l, Delete(id)), PlainStep(p, Delete(id)))
  {
    StepKeeps(l, Delete(id));
    if id in p.kept {
      DeleteShows(l, p.live, id);
      RewriteStacks(l, p.stacks, id, Slot(id, l.slots[l.index[id]].value, false));
    } else {
      InnerShows(l, p.live, id, None);
    }
  }

  lemma WriteShows(l: Layer, live: map<Uuid, Rec>, id: Uuid, value: Value, record: Rec)
    requires Inv(l) && Shows(l, live) && id in l.index
    ensures
      var m := l.(slots := Rewritten(l, id, Slot(id, value, true)), inner := l.inner[id := record]);
      Shows(m, live[id := record.(value := value)])
  {
    var slot := Slot(id, value, true);
    var m := l.(slots := Rewritten(l, id, slot), inner := l.inner[id := record]);
    forall other | other in m.inner
      ensures Get(m, other) == Some(live[id := record.(value := value)][other])
    {
      if other != id {
        assert Get(l, other) == Some(live[other]);
        if other in l.index { RewriteKeepsOtherReads(l, id, slot, other); }
      }
    }
  }

  lemma ReplaceRefines(l: Layer, p: Plain, r: Rec)
    requires Refines(l, p) && r.id in p.live
    ensures Refines(Step(l, Replace(r)), PlainStep(p, Replace(r)))
  {
    StepKeeps(l, Replace(r));
    if r.id in p.kept {
      WriteShows(l, p.live, r.id, r.value, r);
      assert r.(value := r.value) == r;
      WriteStacks(l, p.stacks, r.id, r.value);
    } else {
      InnerShows(l, p.live, r.id, Some(r));
    }
  }

  lemma UpdateShows(l: Layer, live: map<Uuid, Rec>, id: Uuid, value: Value)
    requires Inv(l) && Shows(l, live) && id in l.index
    ensures
      var m := l.(slots := Rewritten(l, id, Slot(id, value, true)));
      Shows(m, if id in live then live[id := live[id].(value := value)] else live)
  {
    var m := l.(slots := Rewritten(l, id, Slot(id, value, true)));
    if id in live {
      WriteShows(l, live, id, value, l.inner[id]);
      assert l.inner[id := l.inner[id]] == l.inner;
      ReadsTheTop(l, id);
      assert live[id].(value := value) == l.inner[id].(value := value);
    } else {
      forall other | other in m.inner
        ensures Get(m, other) == Some(live[other])
      {
        assert Get(l, other) == Some(live[other]);
        if other in l.index { RewriteKeepsOtherReads(l, id, Slot(id, value, true), other); }
      }
    }
  }

  lemma UpdateRefines(l: Layer, p: Plain, id: Uuid, value: Value)
    requires Refines(l, p) && id in p.kept
    ensures Refines(Step(l, Update(id, value)), PlainStep(p, Update(id, value)))
  {
    WriteKeeps(l, id, value);
    UpdateShows(l, p.live, id, value);
    WriteStacks(l, p.stacks, id, value);
  }

  lemma WriteStacks(l: Layer, stacks: map<Uuid, seq<Value>>, id: Uuid, value: Value)
    requires Inv(l) && HoldsStacks(l.slots, stacks) && id in l.index
    ensures HoldsStacks(Rewritten(l, id, Slot(id, value, true)), WithTop(stacks, id, [value]))
  {
    RewriteStacks(l, stacks, id, Slot(id, value, true));
  }

  // ----- compaction -----

  /** The live pairs name each kept id once, with its value. */
  lemma LivePairsAreTheReads(l: Layer)
    requires Inv(l)
    ensures
      var pairs := LivePairs(l);
      && (forall i, j | 0 <= i < j < |pairs| :: pairs[i].0 != pairs[j].0)
      && forall i | 0 <= i < |pairs| :: pairs[i].0 in l.index && pairs[i].1 == ValueOf(l, pairs[i].0)
  {
    var pairs, ps := LivePairs(l), LivePositions(l.index, |l.slots|);
    forall i | 0 <= i < |pairs|
      ensures pairs[i].0 in l.index && l.index[pairs[i].0] == ps[i]
    {
      assert ps[i] in ps;
      var live :| live in l.index && l.index[live] == ps[i];
    }
  }

  lemma {:induction false} DistinctPushes(entries: seq<Entry>)
    requires forall i, j | 0 <= i < j < |entries| :: entries[i].0 != entries[j].0
    ensures PushAll(map[], entries).Keys == IdsOf(entries)
    ensures forall i | 0 <= i < |entries| :: StackIn(PushAll(map[], entries), entries[i].0) == [entries[i].1]
  {
    if entries != [] {
      var n := |entries| - 1;
      DistinctPushes(entries[..n]);
      IdsOfSnoc(entries[..n], entries[n]);
      assert entries == entries[..n] + [entries[n]];
      assert entries[n].0 !in IdsOf(entries[..n]);
      assert StackIn(PushAll(map[], entries[..n]), entries[n].0) == [];
      forall i | 0 <= i < n
        ensures StackIn(PushAll(map[], entries), entries[i].0) == [entries[i].1]
      {
        assert entries[..n][i] == entries[i];
      }
    }
  }

  /** Where a kept id stands among the live pairs. */
  lemma PairOf(l: Layer, id: Uuid) returns (i: nat)
    requires Inv(l) && id in l.index
    ensures i < |LivePairs(l)| && LivePairs(l)[i] == (id, ValueOf(l, id))
  {
    LivePairsIds(l);
    LivePairsAreTheReads(l);
    assert id in IdsOf(LivePairs(l));
    i :| i < |LivePairs(l)| && LivePairs(l)[i].0 == id;
  }

  lemma PushedIds(l: Layer)
    requires Inv(l)
    ensures PushAll(map[], LivePairs(l)).Keys == l.index.Keys
  {
    LivePairsIds(l);
    LivePairsAreTheReads(l);
    DistinctPushes(LivePairs(l));
  }

  lemma PushedValue(l: Layer, id: Uuid)
    requires Inv(l) && id in l.index
    ensures StackIn(PushAll(map[], LivePairs(l)), id) == [ValueOf(l, id)]
  {
    LivePairsAreTheReads(l);
    DistinctPushes(LivePairs(l));
    var i := PairOf(l, id);
    assert StackIn(PushAll(map[], LivePairs(l)), LivePairs(l)[i].0) == [LivePairs(l)[i].1];
  }

  /** Compaction keeps of each kept id's stack its top, and of every other nothing. */
  lemma CompactPushes(l: Layer, stacks: map<Uuid, seq<Value>>)
    requires Inv(l) && HoldsStacks(l.slots, stacks)
    ensures PushAll(map[], LivePairs(l)) == Tops(stacks, l.index.Keys)
  {
    var pushed := PushAll(map[], LivePairs(l));
    PushedIds(l);
    forall id | id in l.index
      ensures StackIn(stacks, id) != [] && StackIn(pushed, id) == [Top(StackIn(stacks, id))]
    {
      PushedTop(l, stacks, id);
    }
    TopsAre(stacks, l.index.Keys, pushed);
  }

  lemma TopsAre(stacks: map<Uuid, seq<Value>>, kept: set<Uuid>, tops: map<Uuid, seq<Value>>)
    requires tops.Keys == kept
    requires forall id | id in kept :: StackIn(stacks, id) != [] && StackIn(tops, id) == [Top(StackIn(stacks, id))]
    ensures tops == Tops(stacks, kept)
  {
  }

  lemma PushedTop(l: Layer, stacks: map<Uuid, seq<Value>>, id: Uuid)
    requires Inv(l) && HoldsStacks(l.slots, stacks) && id in l.index
    ensures StackIn(stacks, id) != []
    ensures StackIn(PushAll(map[], LivePairs(l)), id) == [Top(StackIn(stacks, id))]
  {
    PushedValue(l, id);
    ReadsTheTop(l, id);
    assert StackOf(l.slots, id) == StackIn(stacks, id);
  }

  /** A read shows the inner record and, for a kept id, its value. */
  lemma CompactShows(l: Layer, id: Uuid)
    requires Inv(l)
    ensures Get(Compacted(l), id) == Get(l, id)
  {
    var m := Compacted(l);
    CompactKeeps(l);
    if id in l.index {
      ReadsTheTop(l, id);
      ReadsTheTop(m, id);
      FreshStacks(LivePairs(l));
      PushedValue(l, id);
      assert StackOf(m.slots, id) == StackIn(PushAll(map[], LivePairs(l)), id);
    }
  }

  lemma CompactRefines(l: Layer, p: Plain)
    requires Refines(l, p)
    ensures Refines(Compacted(l), PlainStep(p, Compact))
  {
    CompactKeeps(l);
    CompactedHoldsStacks(l, p.stacks);
    forall id | id in p.live
      ensures Get(Compacted(l), id) == Some(p.live[id])
    {
      CompactShows(l, id);
      assert Get(l, id) == Some(p.live[id]);
    }
  }

  /**
   Compaction changes no read and no scan, leaves one slot per kept id and nothing else, and so
   reclaims exactly the slots that were not live.
   */
  lemma CompactChangesNoRead(l: Layer)
    requires Inv(l)
    ensures forall id :: Get(Compacted(l), id) == Get(l, id)
    ensures Scan(Compacted(l).slots, Compacted(l).index) == Scan(l.slots, l.index)
    ensures |Compacted(l).slots| == |Compacted(l).index| == |l.index| <= |l.slots|
  {
    forall id
      ensures Get(Compacted(l), id) == Get(l, id)
    {
      CompactShows(l, id);
    }
    CompactSizes(l);
    CompactKeepsScan(l);
  }

  lemma CompactSizes(l: Layer)
    requires Inv(l)
    ensures |Compacted(l).slots| == |Compacted(l).index| == |l.index| <= |l.slots|
  {
    var ids := ScanReadsEachIdOnce(l.slots, l.index);
    CompactKeeps(l);
    IndexIsSound(l);
    assert Compacted(l).index.Keys == l.index.Keys;
    assert |l.index.Keys| == |l.index| && |Compacted(l).index.Keys| == |Compacted(l).index|;
  }

  lemma CompactKeepsScan(l: Layer)
    requires Inv(l)
    ensures Scan(Compacted(l).slots, Compacted(l).index) == Scan(l.slots, l.index)
  {
    CompactSizes(l);
    CompactKeeps(l);
    GaplessScanIsTheWholeColumn(Compacted(l).slots, Compacted(l).index);
    assert Column(Compacted(l).slots) == Scan(l.slots, l.index);
  }

  // ----- what an operation's answer says of the reads -----

  /** No id but this one reads otherwise. */
  ghost predicate OthersRead(l: Layer, m: Layer, id: Uuid) {
    forall other | other != id :: Get(m, other) == Get(l, other)
  }

  function Reads(l: Layer): (live: map<Uuid, Rec>)
    requires Inv(l)
    ensures Shows(l, live)
  {
    map id | id in l.inner :: Get(l, id).value
  }

  /** An insert is refused as a duplicate, changing nothing, exactly when the id reads; otherwise the record reads. */
  lemma InsertAnswers(l: Layer, r: Rec)
    requires Inv(l)
    ensures
      var m, answer := Step(l, Insert(r)), Refusal(l.inner.Keys, l.index.Keys, Insert(r));
      && OthersRead(l, m, r.id)
      && if Get(l, r.id).Some? then answer == Some(Duplicate(r.id)) && m == l
         else answer == None && Get(m, r.id) == Some(r)
  {
    if r.id !in l.inner { InsertShows(l, Reads(l), r); }
  }

  /** A delete is refused, changing nothing, exactly when the id does not read; otherwise it no longer does. */
  lemma DeleteAnswers(l: Layer, id: Uuid)
    requires Inv(l)
    ensures
      var m, answer := Step(l, Delete(id)), Refusal(l.inner.Keys, l.index.Keys, Delete(id));
      && OthersRead(l, m, id)
      && Get(m, id) == None
      && if Get(l, id).Some? then answer == None else answer == Some(NotFound(id)) && m == l
  {
    if id in l.inner && id in l.index { DeleteShows(l, Reads(l), id); }
    if id in l.inner && id !in l.index { InnerShows(l, Reads(l), id, None); }
  }

  /**
   A replace of an id that reads leaves the new record to be read, accepted when this layer indexes the id
   and refused when it does not; of any other id it is refused and changes nothing.
   */
  lemma ReplaceAnswers(l: Layer, r: Rec)
    requires Inv(l)
    ensures
      var m, answer := Step(l, Replace(r)), Refusal(l.inner.Keys, l.index.Keys, Replace(r));
      && OthersRead(l, m, r.id)
      && (if Get(l, r.id).Some? then Get(m, r.id) == Some(r) else m == l)
      && answer == if Get(l, r.id).Some? && r.id in l.index then None else Some(NotFound(r.id))
  {
    if r.id in l.inner && r.id in l.index {
      WriteShows(l, Reads(l), r.id, r.value, r);
      assert r.(value := r.value) == r;
    }
    if r.id in l.inner && r.id !in l.index { InnerShows(l, Reads(l), r.id, Some(r)); }
  }

  /** An update is refused, changing nothing, exactly when the id is not indexed; otherwise it reads with the value. */
  lemma UpdateAnswers(l: Layer, id: Uuid, value: Value)
    requires Inv(l)
    ensures
      var m, answer := Step(l, Update(id, value)), Refusal(l.inner.Keys, l.index.Keys, Update(id, value));
      && OthersRead(l, m, id)
      && (Get(m, id).Some? <==> Get(l, id).Some?)
      && (id in l.index && Get(l, id).Some? ==> Get(m, id).value == Get(l, id).value.(value := value))
      && if id in l.index then answer == None else answer == Some(NotFound(id)) && m == l
  {
    if id in l.index { UpdateShows(l, Reads(l), id, value); }
  }

  // ----- whole runs -----

  lemma StepRefines(l: Layer, p: Plain, op: Op)
    requires Refines(l, p)
    ensures Refusal(l.inner.Keys, l.index.Keys, op) == PlainAnswer(p, op)
    ensures Refines(Step(l, op), PlainStep(p, op))
  {
    match op
    case Insert(r) =>
      if r.id !in p.live { InsertRefines(l, p, r); }
    case Delete(id) =>
      if id in p.live { DeleteRefines(l, p, id); }
    case Replace(r) =>
      if r.id in p.live { ReplaceRefines(l, p, r); }
    case Update(id, value) =>
      if id in p.kept { UpdateRefines(l, p, id, value); }
    case Compact => CompactRefines(l, p);
    case Reopen(inner, records) => OpenRefines(l.slots, p.stacks, inner, records);
  }

  /** An operation, or a crash inside one and an open after it, over any inner store and record list. */
  datatype Event =
    | Does(op: Op)
    // dies after so many of the slots an open appends
    | CrashInOpen(records: seq<Rec>, appended: nat, inner: map<Uuid, Rec>, again: seq<Rec>)
    // dies with the inner store's part done, before the slot is appended or after
    | CrashInInsert(record: Rec, landed: bool, inner: map<Uuid, Rec>, again: seq<Rec>)
    // dies before the new file is renamed over the old or after
    | CrashInCompact(renamed: bool, inner: map<Uuid, Rec>, again: seq<Rec>)

  function FirstOf(entries: seq<Entry>, n: nat): seq<Entry> {
    if n <= |entries| then entries[..n] else entries
  }

  /** An insert's slot, if it got that far. */
  function InsertedSlots(slots: seq<Slot<Value>>, r: Rec, landed: bool): seq<Slot<Value>> {
    if landed then slots + [Slot(r.id, r.value, true)] else slots
  }

  function InsertedStacks(stacks: map<Uuid, seq<Value>>, r: Rec, landed: bool): map<Uuid, seq<Value>> {
    if landed then PushAll(stacks, [(r.id, r.value)]) else stacks
  }

  /** The slots a crash leaves in the file. */
  function Left(l: Layer, e: Event): seq<Slot<Value>> {
    match e
    case Does(_) => l.slots
    case CrashInOpen(records, n, _, _) =>
      l.slots + SlotsOf(FirstOf(Missing(records, LastCommitted(l.slots).Keys), n))
    case CrashInInsert(r, landed, _, _) => InsertedSlots(l.slots, r, landed && r.id !in l.inner)
    case CrashInCompact(renamed, _, _) => if renamed then Compacted(l).slots else l.slots
  }

  function StacksLeft(p: Plain, e: Event): map<Uuid, seq<Value>> {
    match e
    case Does(_) => p.stacks
    case CrashInOpen(records, n, _, _) => PushAll(p.stacks, FirstOf(Missing(records, NonEmpty(p.stacks)), n))
    case CrashInInsert(r, landed, _, _) => InsertedStacks(p.stacks, r, landed && r.id !in p.live)
    case CrashInCompact(renamed, _, _) => if renamed then Tops(p.stacks, p.kept) else p.stacks
  }

  function EventStep(l: Layer, e: Event): Layer
    requires Inv(l)
  {
    if e.Does? then Step(l, e.op) else Open(Left(l, e), e.inner, e.again)
  }

  function PlainEvent(p: Plain, e: Event): Plain {
    if e.Does? then PlainStep(p, e.op) else PlainOpen(StacksLeft(p, e), e.inner, e.again)
  }

  lemma CompactedHoldsStacks(l: Layer, stacks: map<Uuid, seq<Value>>)
    requires Inv(l) && HoldsStacks(l.slots, stacks)
    ensures HoldsStacks(Compacted(l).slots, Tops(stacks, l.index.Keys))
  {
    CompactPushes(l, stacks);
    FreshStacks(LivePairs(l));
  }

  lemma CutOpenHoldsStacks(slots: seq<Slot<Value>>, stacks: map<Uuid, seq<Value>>, records: seq<Rec>, n: nat)
    requires HoldsStacks(slots, stacks)
    ensures HoldsStacks(slots + SlotsOf(FirstOf(Missing(records, LastCommitted(slots).Keys), n)),
                        PushAll(stacks, FirstOf(Missing(records, NonEmpty(stacks)), n)))
  {
    SameKnown(slots, stacks);
    AppendingPushes(slots, stacks, FirstOf(Missing(records, NonEmpty(stacks)), n));
  }

  lemma CutInsertHoldsStacks(slots: seq<Slot<Value>>, stacks: map<Uuid, seq<Value>>, r: Rec, landed: bool)
    requires HoldsStacks(slots, stacks)
    ensures HoldsStacks(InsertedSlots(slots, r, landed), InsertedStacks(stacks, r, landed))
  {
    AppendingPushes(slots, stacks, [(r.id, r.value)]);
    assert SlotsOf([(r.id, r.value)]) == [Slot(r.id, r.value, true)];
  }

  lemma LeftHoldsStacks(l: Layer, p: Plain, e: Event)
    requires Inv(l) && HoldsStacks(l.slots, p.stacks) && l.inner.Keys == p.live.Keys && l.index.Keys == p.kept
    ensures HoldsStacks(Left(l, e), StacksLeft(p, e))
  {
    match e
    case Does(_) =>
    case CrashInOpen(records, n, _, _) => CutOpenHoldsStacks(l.slots, p.stacks, records, n);
    case CrashInInsert(r, landed, _, _) => CutInsertHoldsStacks(l.slots, p.stacks, r, landed && r.id !in l.inner);
    case CrashInCompact(_, _, _) => CompactedHoldsStacks(l, p.stacks);
  }

  lemma EventKeeps(l: Layer, e: Event)
    requires Inv(l)
    ensures Inv(EventStep(l, e))
  {
    if e.Does? {
      StepKeeps(l, e.op);
    } else {
      OpenKeeps(Left(l, e), e.inner, e.again);
    }
  }

  lemma EventRefines(l: Layer, p: Plain, e: Event)
    requires Refines(l, p)
    ensures Refines(EventStep(l, e), PlainEvent(p, e))
  {
    if e.Does? {
      StepRefines(l, p, e.op);
    } else {
      LeftHoldsStacks(l, p, e);
      OpenRefines(Left(l, e), StacksLeft(p, e), e.inner, e.again);
    }
  }

  function RunLayer(l: Layer, events: seq<Event>): (m: Layer)
    requires Inv(l)
    ensures Inv(m)
    decreases |events|
  {
    if events == [] then l
    else
      EventKeeps(l, events[0]);
      RunLayer(EventStep(l, events[0]), events[1..])
  }

  function RunPlain(p: Plain, events: seq<Event>): Plain
    decreases |events|
  {
    if events == [] then p else RunPlain(PlainEvent(p, events[0]), events[1..])
  }

  /**
   Every run over the slot file, opened over any inner stores and record lists and crashed inside any of
   its opens, inserts and compactions, is a run of the stacks.
   */
  lemma {:induction false} RunRefines(l: Layer, p: Plain, events: seq<Event>)
    requires Refines(l, p)
    ensures Refines(RunLayer(l, events), RunPlain(p, events))
    decreases |events|
  {
    if events != [] {
      EventKeeps(l, events[0]);
      EventRefines(l, p, events[0]);
      RunRefines(EventStep(l, events[0]), PlainEvent(p, events[0]), events[1..]);
    }
  }

  function RunFrom(inner: map<Uuid, Rec>, records: seq<Rec>, events: seq<Event>): (l: Layer)
    ensures Inv(l)
  {
    CreateKeeps(inner, records);
    RunLayer(Create(inner, records), events)
  }

  /** From a create on: a live id reads the plain machine's record, and no other id reads at all. */
  lemma EveryRunReads(inner: map<Uuid, Rec>, records: seq<Rec>, events: seq<Event>, id: Uuid)
    ensures
      var p := RunPlain(PlainCreate(inner, records), events);
      Get(RunFrom(inner, records, events), id) == if id in p.live then Some(p.live[id]) else None
  {
    CreateRefines(inner, records);
    RunRefines(Create(inner, records), PlainCreate(inner, records), events);
  }

  // ----- what a reopen reads -----

  /** The values a list of pairs carries for one id, in order. */
  function ValuesFor(entries: seq<Entry>, id: Uuid): seq<Value> {
    if entries == [] then []
    else
      var last := entries[|entries| - 1];
      ValuesFor(entries[..|entries| - 1], id) + if last.0 == id then [last.1] else []
  }

  lemma {:induction false} AppendedEntries(slots: seq<Slot<Value>>, entries: seq<Entry>, id: Uuid)
    ensures StackOf(slots + SlotsOf(entries), id) == StackOf(slots, id) + ValuesFor(entries, id)
  {
    if entries == [] {
      assert slots + SlotsOf(entries) == slots;
    } else {
      var n := |entries| - 1;
      AppendedEntries(slots, entries[..n], id);
      SlotsOfSnoc(slots, entries);
      AppendedStack(slots + SlotsOf(entries[..n]), Slot(entries[n].0, entries[n].1, true), id);
    }
  }

  lemma {:induction false} SeedsPushed(records: seq<Rec>, known: set<Uuid>, id: Uuid)
    ensures id in known ==> ValuesFor(Missing(records, known), id) == []
    ensures id !in known && id in ById(records) ==>
              var values := ValuesFor(Missing(records, known), id);
              values != [] && Top(values) == ById(records)[id].value
  {
    if records != [] {
      var n := |records| - 1;
      SeedsPushed(records[..n], known, id);
      var earlier := Missing(records[..n], known);
      if records[n].id !in known {
        assert (earlier + [(records[n].id, records[n].value)])[..|earlier|] == earlier;
      } else {
        assert earlier + [] == earlier;
      }
    }
  }

  /**
   The record an open shows for a supplied id: the inner store's, with the file's last committed value
   if it has one and the supplied value otherwise.
   */
  lemma OpenReads(slots: seq<Slot<Value>>, inner: map<Uuid, Rec>, records: seq<Rec>, id: Uuid)
    requires id in inner && id in ById(records)
    ensures
      var stack := StackOf(slots, id);
      Get(Open(slots, inner, records), id)
      == Some(inner[id].(value := if stack == [] then ById(records)[id].value else Top(stack)))
  {
    OpenKeeps(slots, inner, records);
    ReadsTheTop(Open(slots, inner, records), id);
    OpenedStack(slots, inner, records, id);
  }

  /** The stack of a supplied id after an open: what it was, or its seeds when it was empty. */
  lemma OpenedStack(slots: seq<Slot<Value>>, inner: map<Uuid, Rec>, records: seq<Rec>, id: Uuid)
    requires id in ById(records)
    ensures
      var before, after := StackOf(slots, id), StackOf(Open(slots, inner, records).slots, id);
      after != [] && Top(after) == if before == [] then ById(records)[id].value else Top(before)
  {
    var known := LastCommitted(slots).Keys;
    IndexIsTop(slots, id, |slots|);
    AppendedEntries(slots, Missing(records, known), id);
    SeedsPushed(records, known, id);
  }

  /**
   An open cut off while appending, on a slot boundary, and run again: an id the file remembered reads as
   it would have; one it did not reads the last of its values that got appended, or its seed if none did.
   */
  lemma CrashInOpenReads(slots: seq<Slot<Value>>, inner: map<Uuid, Rec>, records: seq<Rec>, n: nat, id: Uuid)
    requires id in inner && id in ById(records) && n <= |Missing(records, LastCommitted(slots).Keys)|
    ensures
      var appended := Missing(records, LastCommitted(slots).Keys)[..n];
      var stack := StackOf(slots, id) + ValuesFor(appended, id);
      Get(Open(slots + SlotsOf(appended), inner, records), id)
      == Some(inner[id].(value := if stack == [] then ById(records)[id].value else Top(stack)))
  {
    var appended := Missing(records, LastCommitted(slots).Keys)[..n];
    AppendedEntries(slots, appended, id);
    OpenReads(slots + SlotsOf(appended), inner, records, id);
  }

  /**
   Reopening with the kept ids, in any order and with any values for this field, reads every
   record's current value: what the caller supplies for the field is never read back.
   */
  lemma ReopenReadsTheSame(l: Layer, inner: map<Uuid, Rec>, records: seq<Rec>, id: Uuid)
    requires Inv(l) && id in l.index && id in inner && id in ById(records)
    ensures Get(Open(l.slots, inner, records), id) == Some(inner[id].(value := ValueOf(l, id)))
  {
    OpenReads(l.slots, inner, records, id);
    ReadsTheTop(l, id);
  }

  /** A crash before or after a compaction's rename: either file reopens to the same reads of kept ids. */
  lemma CompactionCrashReopens(l: Layer, inner: map<Uuid, Rec>, records: seq<Rec>, id: Uuid)
    requires Inv(l) && id in l.index && id in inner && id in ById(records)
    ensures Get(Open(Compacted(l).slots, inner, records), id) == Get(Open(l.slots, inner, records), id)
  {
    var whole := map[id := inner[id]];
    CompactKeeps(l);
    ReopenReadsTheSame(l, inner, records, id);
    ReopenReadsTheSame(Compacted(l), inner, records, id);
    CompactShows(l.(inner := whole), id);
    InnerKeeps(l, whole);
    ReadsTheTop(l.(inner := whole), id);
    ReadsTheTop(Compacted(l.(inner := whole)), id);
  }

  /**
   A deleted id supplied again at a reopen takes the value it is supplied with exactly when its
   stack held one value. When an earlier committed slot was buried, the delete uncovers it and the
   reopen reads that.
   */
  lemma DeletedIdReopens(l: Layer, id: Uuid, inner: map<Uuid, Rec>, records: seq<Rec>)
    requires Inv(l) && id in l.inner && id in l.index && id in inner && id in ById(records)
    ensures
      var stack := StackOf(l.slots, id);
      && |stack| >= 1
      && Get(Open(Step(l, Delete(id)).slots, inner, records), id) ==
           Some(inner[id].(value := if |stack| == 1 then ById(records)[id].value else stack[|stack| - 2]))
  {
    ReadsTheTop(l, id);
    DeletePops(l, id);
    OpenReads(Step(l, Delete(id)).slots, inner, records, id);
    UnderTheTop(StackOf(l.slots, id));
  }

  lemma DeletePops(l: Layer, id: Uuid)
    requires Inv(l) && id in l.inner && id in l.index
    ensures StackOf(Step(l, Delete(id)).slots, id) == Pop(StackOf(l.slots, id))
  {
    ReadsTheTop(l, id);
    RewriteTop(l.slots, id, Slot(id, l.slots[l.index[id]].value, false), id);
  }

  lemma UnderTheTop(stack: seq<Value>)
    requires stack != []
    ensures |stack| == 1 ==> Pop(stack) == []
    ensures |stack| > 1 ==> Pop(stack) != [] && Top(Pop(stack)) == stack[|stack| - 2]
  {
  }

  /** Only an insert of an id the file still remembers buries a value; that id's stack was not empty. */
  lemma InsertBuriesIff(l: Layer, r: Rec)
    requires Inv(l) && r.id !in l.inner
    ensures |StackOf(Step(l, Insert(r)).slots, r.id)| == 1 <==> r.id !in LastCommitted(l.slots)
  {
    AppendedStack(l.slots, Slot(r.id, r.value, true), r.id);
    IndexIsTop(l.slots, r.id, |l.slots|);
  }

  /**
   An insert cut off after the inner store took the record and before its slot was appended: the
   next open, supplied with the record, reads the value inserted exactly when the file remembers
   no value for the id, or the very same one.
   */
  lemma InterruptedInsertReopensIff(l: Layer, r: Rec, inner: map<Uuid, Rec>, records: seq<Rec>)
    requires Inv(l) && r.id !in l.inner && r.id in inner && inner[r.id] == r
    requires r.id in ById(records) && ById(records)[r.id] == r
    ensures Get(Open(l.slots, inner, records), r.id) == Some(r) <==>
              (r.id in LastCommitted(l.slots) ==> CommittedValues(l.slots)[r.id] == r.value)
  {
    OpenReads(l.slots, inner, records, r.id);
    IndexIsTop(l.slots, r.id, |l.slots|);
  }

  // ----- the stale reads are reachable -----

  /** A reopen that is told of no records. */
  const ToldOfNone: Event := Does(Reopen(map[], []))

  /** A record created, and left out of one reopen: its slot stays, committed, and the layer keeps no id. */
  lemma LeftOutOfAReopen(a: Rec)
    ensures
      var start := Create(map[a.id := a], [a]);
      && Inv(start)
      && EventStep(start, ToldOfNone) == Layer([Slot(a.id, a.value, true)], map[], map[])
  {
    var start := Create(map[a.id := a], [a]);
    CreateKeeps(map[a.id := a], [a]);
    assert start.slots == [Slot(a.id, a.value, true)];
    var reopened := Open(start.slots, map[], []);
    assert reopened.slots == start.slots + [] == start.slots;
    assert reopened.index == map[];
  }

  lemma AfterLeavingOut(a: Rec, rest: seq<Event>)
    ensures
      var l := Layer([Slot(a.id, a.value, true)], map[], map[]);
      Inv(l) && RunFrom(map[a.id := a], [a], [ToldOfNone] + rest) == RunLayer(l, rest)
  {
    LeftOutOfAReopen(a);
    EventKeeps(Create(map[a.id := a], [a]), ToldOfNone);
    RunFirst(Create(map[a.id := a], [a]), ToldOfNone, rest);
  }

  lemma OneSlotStack(a: Rec)
    ensures StackOf([Slot(a.id, a.value, true)], a.id) == [a.value]
  {
    var none: seq<Slot<Value>> := [];
    AppendedStack(none, Slot(a.id, a.value, true), a.id);
    assert none + [Slot(a.id, a.value, true)] == [Slot(a.id, a.value, true)];
    assert StackOf(none, a.id) == [];
  }

  /**
   From a create: a record is left out of a reopen and inserted again with another value, and the insert
   is cut off before its slot. The next open, supplied with the new record, reads the old value.
   */
  lemma InterruptedInsertReadsStale(a: Rec, v: Value)
    ensures
      var b := a.(value := v);
      Get(RunFrom(map[a.id := a], [a], [ToldOfNone, CrashInInsert(b, false, map[a.id := b], [b])]), a.id) == Some(a)
  {
    var b := a.(value := v);
    var l := Layer([Slot(a.id, a.value, true)], map[], map[]);
    var crash := CrashInInsert(b, false, map[a.id := b], [b]);
    AfterLeavingOut(a, [crash]);
    assert [ToldOfNone] + [crash] == [ToldOfNone, crash];
    RunOne(l, crash);
    OneSlotStack(a);
    OneRecord(b);
    OpenReads(l.slots, map[a.id := b], [b], a.id);
    assert b.(value := a.value) == a;
  }

  lemma OneRecord(r: Rec)
    ensures ById([r]) == map[r.id := r]
  {
    assert [r][..0] == [];
  }

  /**
   From a create: the same record is inserted again in full, deleted, and supplied once more. The delete
   uncovers the first value, and that is read, not the one supplied.
   */
  lemma DeleteUncoversStale(a: Rec, v: Value, w: Value)
    ensures
      var b, c := a.(value := v), a.(value := w);
      var events := [ToldOfNone, Does(Insert(b)), Does(Delete(a.id)), Does(Reopen(map[a.id := c], [c]))];
      Get(RunFrom(map[a.id := a], [a], events), a.id) == Some(a)
  {
    var b, c := a.(value := v), a.(value := w);
    var l := Layer([Slot(a.id, a.value, true)], map[], map[]);
    var rest := [Does(Insert(b)), Does(Delete(a.id)), Does(Reopen(map[a.id := c], [c]))];
    AfterLeavingOut(a, rest);
    assert [ToldOfNone] + rest == [ToldOfNone, rest[0], rest[1], rest[2]];
    var l2 := InsertedAgain(a, l, b);
    DeleteKeeps(l2, a.id);
    RunThree(l, rest[0], l2, rest[1], Step(l2, Delete(a.id)), rest[2]);
    OneRecord(c);
    DeletedIdReopens(l2, a.id, map[a.id := c], [c]);
    assert c.(value := a.value) == a;
  }

  lemma InsertedAgain(a: Rec, l: Layer, b: Rec) returns (l2: Layer)
    requires Inv(l) && l == Layer([Slot(a.id, a.value, true)], map[], map[]) && b.id == a.id
    ensures Inv(l2) && l2 == Step(l, Insert(b)) && a.id in l2.inner && a.id in l2.index
    ensures StackOf(l2.slots, a.id) == [a.value, b.value]
  {
    l2 := Step(l, Insert(b));
    InsertKeeps(l, b);
    OneSlotStack(a);
    AppendedStack(l.slots, Slot(b.id, b.value, true), a.id);
  }

  lemma RunThree(l: Layer, x: Event, m: Layer, y: Event, n: Layer, z: Event)
    requires Inv(l) && Inv(m) && Inv(n) && m == EventStep(l, x) && n == EventStep(m, y)
    ensures RunLayer(l, [x, y, z]) == EventStep(n, z)
  {
    RunFirst(l, x, [y, z]);
    RunFirst(m, y, [z]);
    RunOne(n, z);
    ConsOfThree(x, y, z);
  }

  lemma ConsOfThree(x: Event, y: Event, z: Event)
    ensures [x] + [y, z] == [x, y, z] && [y] + [z] == [y, z]
  {
  }

  lemma RunOne(l: Layer, x: Event)
    requires Inv(l)
    ensures RunLayer(l, [x]) == EventStep(l, x)
  {
    EventKeeps(l, x);
    RunStep(l, [x]);
    assert [x][1..] == [];
  }

  lemma RunFirst(l: Layer, x: Event, rest: seq<Event>)
    requires Inv(l) && Inv(EventStep(l, x))
    ensures RunLayer(l, [x] + rest) == RunLayer(EventStep(l, x), rest)
  {
    RunStep(l, [x] + rest);
    assert ([x] + rest)[1..] == rest;
  }

  lemma RunStep(l: Layer, events: seq<Event>)
    requires Inv(l) && events != [] && Inv(EventStep(l, events[0]))
    ensures RunLayer(l, events) == RunLayer(EventStep(l, events[0]), events[1..])
  {
  }
}
