/**
 What a slot file remembers of one id: the stack of its committed values, in position order. A
 slot appended for an id that already has one buries the earlier value, and clearing the marker
 of the last one uncovers it again.
 */
module SlotStacks {
  import opened Bytes
  import opened Slots

  /** What one slot contributes to the stack of `id`. */
  function Held<V>(slot: Slot<V>, id: Uuid): seq<V> {
    if slot.committed && slot.id == id then [slot.value] else []
  }

  function StackBelow<V>(slots: seq<Slot<V>>, id: Uuid, bound: nat): seq<V>
    requires bound <= |slots|
  {
    if bound == 0 then [] else StackBelow(slots, id, bound - 1) + Held(slots[bound - 1], id)
  }

  function StackOf<V>(slots: seq<Slot<V>>, id: Uuid): seq<V> {
    StackBelow(slots, id, |slots|)
  }

  function Top<V>(stack: seq<V>): V
    requires stack != []
  {
    stack[|stack| - 1]
  }

  function Pop<V>(stack: seq<V>): seq<V> {
    if stack == [] then [] else stack[..|stack| - 1]
  }

  /** An id is indexed exactly when its stack is not empty, at the slot holding the top. */
  lemma {:induction false} IndexIsTop<V>(slots: seq<Slot<V>>, id: Uuid, bound: nat)
    requires bound <= |slots|
    ensures id in LastCommittedBelow(slots, bound) <==> StackBelow(slots, id, bound) != []
    ensures id in LastCommittedBelow(slots, bound) ==>
              var p := LastCommittedBelow(slots, bound)[id];
              && p < bound && slots[p].id == id && slots[p].committed
              && slots[p].value == Top(StackBelow(slots, id, bound))
              && forall q | p < q < bound :: Held(slots[q], id) == []
  {
    if bound > 0 {
      IndexIsTop(slots, id, bound - 1);
    }
  }

  /** A stack depends only on what each slot contributes to it. */
  lemma {:induction false} SameStack<V>(slots: seq<Slot<V>>, others: seq<Slot<V>>, id: Uuid, bound: nat)
    requires bound <= |slots| && bound <= |others|
    requires forall p | 0 <= p < bound :: Held(slots[p], id) == Held(others[p], id)
    ensures StackBelow(slots, id, bound) == StackBelow(others, id, bound)
  {
    if bound > 0 {
      SameStack(slots, others, id, bound - 1);
    }
  }

  lemma {:induction false} NothingAbove<V>(slots: seq<Slot<V>>, id: Uuid, p: nat, bound: nat)
    requires p < bound <= |slots|
    requires forall q | p < q < bound :: Held(slots[q], id) == []
    ensures StackBelow(slots, id, bound) == StackBelow(slots, id, p) + Held(slots[p], id)
  {
    if bound > p + 1 {
      NothingAbove(slots, id, p, bound - 1);
      assert Held(slots[bound - 1], id) == [];
    }
  }

  lemma AppendedStack<V>(slots: seq<Slot<V>>, last: Slot<V>, id: Uuid)
    ensures StackOf(slots + [last], id) == StackOf(slots, id) + Held(last, id)
  {
    SameStack(slots, slots + [last], id, |slots|);
  }

  /** Rewriting the indexed slot of `id`, whatever its new value and marker, touches only the top of its stack. */
  lemma RewriteTop<V>(slots: seq<Slot<V>>, id: Uuid, slot: Slot<V>, other: Uuid)
    requires id in LastCommitted(slots) && slot.id == id
    ensures
      var p := LastCommitted(slots)[id];
      && p < |slots|
      && StackOf(slots[p := slot], other) ==
           if other == id then Pop(StackOf(slots, id)) + Held(slot, id) else StackOf(slots, other)
  {
    IndexIsTop(slots, id, |slots|);
    var p := LastCommitted(slots)[id];
    var written := slots[p := slot];
    if other == id {
      NothingAbove(slots, id, p, |slots|);
      NothingAbove(written, id, p, |slots|);
      SameStack(slots, written, id, p);
    } else {
      SameStack(slots, written, other, |slots|);
    }
  }

  /** Rewriting a slot of `id` moves the index of no other id. */
  lemma {:induction false} RewriteKeepsOtherIndexes<V>(
      slots: seq<Slot<V>>, p: nat, slot: Slot<V>, other: Uuid, bound: nat)
    requires p < |slots| && bound <= |slots|
    requires slot.id == slots[p].id != other
    ensures
      var written := slots[p := slot];
      && (other in LastCommittedBelow(written, bound) <==> other in LastCommittedBelow(slots, bound))
      && (other in LastCommittedBelow(slots, bound) ==>
            LastCommittedBelow(written, bound)[other] == LastCommittedBelow(slots, bound)[other])
  {
    if bound > 0 {
      RewriteKeepsOtherIndexes(slots, p, slot, other, bound - 1);
    }
  }

  // ----- appending a list -----

  /** The positions a list takes when appended after `base` slots, collected by id. */
  function Enumerated<V>(entries: seq<(Uuid, V)>, base: nat): map<Uuid, nat> {
    if entries == [] then map[]
    else Enumerated(entries[..|entries| - 1], base)[entries[|entries| - 1].0 := base + |entries| - 1]
  }

  lemma SlotsOfSnoc<V>(slots: seq<Slot<V>>, entries: seq<(Uuid, V)>)
    requires entries != []
    ensures
      var n := |entries| - 1;
      && SlotsOf(entries) == SlotsOf(entries[..n]) + [Slot(entries[n].0, entries[n].1, true)]
      && slots + SlotsOf(entries) == slots + SlotsOf(entries[..n]) + [Slot(entries[n].0, entries[n].1, true)]
  {
  }

  lemma {:induction false} AppendedIndex<V>(slots: seq<Slot<V>>, entries: seq<(Uuid, V)>)
    ensures LastCommitted(slots + SlotsOf(entries)) == LastCommitted(slots) + Enumerated(entries, |slots|)
  {
    if entries == [] {
      assert slots + SlotsOf(entries) == slots;
    } else {
      var n := |entries| - 1;
      AppendedIndex(slots, entries[..n]);
      SlotsOfSnoc(slots, entries);
      AppendWins(slots + SlotsOf(entries[..n]), entries[n]);
    }
  }

  lemma {:induction false} EnumeratedIds<V>(entries: seq<(Uuid, V)>, base: nat)
    ensures Enumerated(entries, base).Keys == IdsOf(entries)
  {
    if entries != [] {
      var n := |entries| - 1;
      EnumeratedIds(entries[..n], base);
      assert IdsOf(entries) == IdsOf(entries[..n]) + {entries[n].0};
    }
  }

  lemma FreshIndex<V>(entries: seq<(Uuid, V)>)
    ensures LastCommitted(SlotsOf(entries)) == Enumerated(entries, 0)
  {
    var none: seq<Slot<V>> := [];
    AppendedIndex(none, entries);
    assert none + SlotsOf(entries) == SlotsOf(entries);
    assert LastCommitted(none) == map[];
  }

  // ----- one stack per id -----

  /** A map of stacks, an absent id standing for the empty one. */
  function StackIn<V>(stacks: map<Uuid, seq<V>>, id: Uuid): seq<V> {
    if id in stacks then stacks[id] else []
  }

  function PushAll<V>(stacks: map<Uuid, seq<V>>, entries: seq<(Uuid, V)>): map<Uuid, seq<V>> {
    if entries == [] then stacks
    else
      var n := |entries| - 1;
      var earlier := PushAll(stacks, entries[..n]);
      earlier[entries[n].0 := StackIn(earlier, entries[n].0) + [entries[n].1]]
  }

  ghost predicate HoldsStacks<V(!new)>(slots: seq<Slot<V>>, stacks: map<Uuid, seq<V>>) {
    forall id :: StackOf(slots, id) == StackIn(stacks, id)
  }

  lemma {:induction false} AppendingPushes<V(!new)>(
      slots: seq<Slot<V>>, stacks: map<Uuid, seq<V>>, entries: seq<(Uuid, V)>)
    requires HoldsStacks(slots, stacks)
    ensures HoldsStacks(slots + SlotsOf(entries), PushAll(stacks, entries))
  {
    if entries == [] {
      assert slots + SlotsOf(entries) == slots;
    } else {
      var n := |entries| - 1;
      AppendingPushes(slots, stacks, entries[..n]);
      SlotsOfSnoc(slots, entries);
      var last := Slot(entries[n].0, entries[n].1, true);
      forall id
        ensures StackOf(slots + SlotsOf(entries), id) == StackIn(PushAll(stacks, entries), id)
      {
        AppendedStack(slots + SlotsOf(entries[..n]), last, id);
      }
    }
  }

  lemma StackInUpdated<V>(stacks: map<Uuid, seq<V>>, id: Uuid, stack: seq<V>, other: Uuid)
    ensures StackIn(stacks[id := stack], other) == if other == id then stack else StackIn(stacks, other)
  {
  }

  /** Rewriting the indexed slot of `id` replaces or drops the top of one stack. */
  lemma RewritingTop<V(!new)>(slots: seq<Slot<V>>, stacks: map<Uuid, seq<V>>, id: Uuid, slot: Slot<V>)
    requires HoldsStacks(slots, stacks) && id in LastCommitted(slots) && slot.id == id
    ensures
      var p := LastCommitted(slots)[id];
      p < |slots| && HoldsStacks(slots[p := slot], stacks[id := Pop(StackIn(stacks, id)) + Held(slot, id)])
  {
    RewriteTop(slots, id, slot, id);
    var written := slots[LastCommitted(slots)[id] := slot];
    var top := Pop(StackIn(stacks, id)) + Held(slot, id);
    assert StackOf(slots, id) == StackIn(stacks, id);
    forall other
      ensures StackOf(written, other) == StackIn(stacks[id := top], other)
    {
      RewriteTop(slots, id, slot, other);
      assert StackOf(slots, other) == StackIn(stacks, other);
      StackInUpdated(stacks, id, top, other);
    }
  }
}
