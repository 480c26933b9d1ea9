/**
 Folding the insert log into a record list (src/generic/mmap_store.rs, `merge_log`). A fold that
 stops after the blob is rewritten and before the log is cleared is folded again at the next open,
 so the question is what a second fold of the same log does.

 The list may hold several records of one id; only the last of them is in the map of positions, so
 the earlier ones are never touched. They matter, because a deletion leaves one of them in place of
 the record it removes. With no such records a second fold finds the same for every id, but even then
 it moves every record the log both deletes and brings back to the end of the list.
 */
module MergeLogs {
  import opened Bytes
  import opened InsertLog

  /** A record: its id and the rest of it, encoded. */
  datatype Entity = Entity(id: Uuid, body: seq<byte>)

  type Logged = LogEntry<Entity, Uuid>

  function IdOf(e: Logged): Uuid {
    if e.Item? then e.item.id else e.key
  }

  // ----- the fold -----

  /**
   A list with its positions: a live record is the one its id's position points at, a shadow one that
   no position does.
   */
  datatype Cell = Live(entity: Entity) | Shadow(entity: Entity)

  function Entities(cells: seq<Cell>): (records: seq<Entity>)
    ensures |records| == |cells|
    ensures forall i | 0 <= i < |cells| :: records[i] == cells[i].entity
  {
    seq(|cells|, i requires 0 <= i < |cells| => cells[i].entity)
  }

  predicate IsLive(cell: Cell, id: Uuid) {
    cell.Live? && cell.entity.id == id
  }

  /** Where the live record of an id stands. */
  function LiveAt(cells: seq<Cell>, id: Uuid): (i: Option<nat>)
    ensures i.Some? ==> i.value < |cells| && IsLive(cells[i.value], id)
    ensures i.None? ==> forall j | 0 <= j < |cells| :: !IsLive(cells[j], id)
  {
    if cells == [] then None
    else if IsLive(cells[|cells| - 1], id) then Some(|cells| - 1)
    else LiveAt(cells[..|cells| - 1], id)
  }

  function Shaded(cells: seq<Cell>, id: Uuid): seq<Cell> {
    var at := LiveAt(cells, id);
    if at.Some? then cells[at.value := Shadow(cells[at.value].entity)] else cells
  }

  /** The positions collected from a list: each id's last record is live. */
  function Positioned(records: seq<Entity>): (cells: seq<Cell>)
    ensures |cells| == |records|
  {
    if records == [] then []
    else
      var last := records[|records| - 1];
      Shaded(Positioned(records[..|records| - 1]), last.id) + [Live(last)]
  }

  /** A live record is overwritten where it stands, a new one appended; a tombstone removes the live one it names. */
  function MergeStep(cells: seq<Cell>, e: Logged): seq<Cell> {
    var at := LiveAt(cells, IdOf(e));
    match e
    case Item(r) => if at.Some? then cells[at.value := Live(r)] else cells + [Live(r)]
    case Tombstone(_) => if at.Some? then cells[..at.value] + cells[at.value + 1..] else cells
  }

  function MergeCells(cells: seq<Cell>, logged: seq<Logged>): seq<Cell> {
    if logged == [] then cells
    else MergeStep(MergeCells(cells, logged[..|logged| - 1]), logged[|logged| - 1])
  }

  function Merge(records: seq<Entity>, logged: seq<Logged>): seq<Entity> {
    Entities(MergeCells(Positioned(records), logged))
  }

  /** Of the records of one id, only the last may be live. */
  predicate LastIsLive(cells: seq<Cell>) {
    forall i, j | 0 <= i < j < |cells| && cells[i].entity.id == cells[j].entity.id :: cells[i].Shadow?
  }

  lemma StepKeepsLastLive(cells: seq<Cell>, e: Logged)
    requires LastIsLive(cells)
    ensures LastIsLive(MergeStep(cells, e))
  {
  }

  lemma {:induction false} MergeKeepsLastLive(cells: seq<Cell>, logged: seq<Logged>)
    requires LastIsLive(cells)
    ensures LastIsLive(MergeCells(cells, logged))
  {
    if logged != [] {
      MergeKeepsLastLive(cells, logged[..|logged| - 1]);
      StepKeepsLastLive(MergeCells(cells, logged[..|logged| - 1]), logged[|logged| - 1]);
    }
  }

  /** Every id of a list just positioned has its last record live. */
  predicate AllLive(cells: seq<Cell>) {
    forall i | 0 <= i < |cells| :: LiveAt(cells, cells[i].entity.id).Some?
  }

  lemma {:induction false} PositionedIsLastLive(records: seq<Entity>)
    ensures LastIsLive(Positioned(records)) && AllLive(Positioned(records))
    ensures Entities(Positioned(records)) == records
  {
    if records != [] {
      var n := |records| - 1;
      var cells, last := Positioned(records[..n]), records[n];
      PositionedIsLastLive(records[..n]);
      OneMoreIsLastLive(cells, last);
      OneMoreIsAllLive(cells, last);
      OneMoreEntity(cells, last);
      assert records[..n] + [last] == records;
    }
  }

  lemma OneMoreEntity(cells: seq<Cell>, last: Entity)
    ensures Entities(Shaded(cells, last.id) + [Live(last)]) == Entities(cells) + [last]
  {
  }

  lemma OneMoreIsLastLive(cells: seq<Cell>, last: Entity)
    requires LastIsLive(cells)
    ensures LastIsLive(Shaded(cells, last.id) + [Live(last)])
  {
    var shaded := Shaded(cells, last.id);
    forall i | 0 <= i < |cells|
      ensures shaded[i].entity == cells[i].entity && (cells[i].Shadow? ==> shaded[i].Shadow?)
      ensures cells[i].entity.id == last.id ==> shaded[i].Shadow?
    {
      if IsLive(cells[i], last.id) { LiveAtOnly(cells, i, last.id); }
    }
  }

  lemma OneMoreIsAllLive(cells: seq<Cell>, last: Entity)
    requires LastIsLive(cells) && AllLive(cells)
    ensures AllLive(Shaded(cells, last.id) + [Live(last)])
  {
    var more := Shaded(cells, last.id) + [Live(last)];
    forall i | 0 <= i < |more|
      ensures LiveAt(more, more[i].entity.id).Some?
    {
      var id := more[i].entity.id;
      assert IsLive(more[|cells|], last.id);
      if id != last.id {
        var at := LiveAt(cells, id).value;
        assert IsLive(more[at], id);
      }
    }
  }

  /** Positioning is the only way to mark a list so. */
  lemma {:induction false} PositionedUnique(cells: seq<Cell>)
    requires LastIsLive(cells) && AllLive(cells)
    ensures Positioned(Entities(cells)) == cells
  {
    var records := Entities(cells);
    PositionedIsLastLive(records);
    var other := Positioned(records);
    forall i | 0 <= i < |cells|
      ensures cells[i] == other[i]
    {
      assert cells[i].entity == other[i].entity;
      LiveIffLast(cells, i);
      LiveIffLast(other, i);
    }
  }

  lemma LiveIffLast(cells: seq<Cell>, i: nat)
    requires LastIsLive(cells) && AllLive(cells) && i < |cells|
    ensures cells[i].Live? <==> forall j | i < j < |cells| :: Entities(cells)[j].id != Entities(cells)[i].id
  {
    var at := LiveAt(cells, cells[i].entity.id).value;
    if cells[i].Live? {
      forall j | i < j < |cells|
        ensures cells[j].entity.id != cells[i].entity.id
      {
      }
    } else {
      assert cells[at].entity.id == cells[i].entity.id;
      assert Entities(cells)[at].id == Entities(cells)[i].id;
    }
  }

  // ----- by id -----

  /** The records of one id, in list order. */
  function Copies(records: seq<Entity>, id: Uuid): seq<Entity> {
    if records == [] then []
    else
      var last := records[|records| - 1];
      Copies(records[..|records| - 1], id) + if last.id == id then [last] else []
  }

  function Shadows(cells: seq<Cell>, id: Uuid): seq<Entity> {
    if cells == [] then []
    else
      var last := cells[|cells| - 1];
      Shadows(cells[..|cells| - 1], id) + if last.Shadow? && last.entity.id == id then [last.entity] else []
  }

  function LiveOf(cells: seq<Cell>, id: Uuid): Option<Entity> {
    var at := LiveAt(cells, id);
    if at.Some? then Some(cells[at.value].entity) else None
  }

  /** What is found under an id: the last of its records. */
  function Find(records: seq<Entity>, id: Uuid): Option<Entity> {
    Last(Copies(records, id))
  }

  function Last(copies: seq<Entity>): Option<Entity> {
    if copies == [] then None else Some(copies[|copies| - 1])
  }

  function Earlier(copies: seq<Entity>): seq<Entity> {
    if copies == [] then [] else copies[..|copies| - 1]
  }

  function Listed(found: Option<Entity>): seq<Entity> {
    if found.Some? then [found.value] else []
  }

  /** The last thing the log says of an id, or what was there before. */
  function LastWord(before: Option<Entity>, logged: seq<Logged>, id: Uuid): Option<Entity> {
    if logged == [] then before
    else
      var e := logged[|logged| - 1];
      if IdOf(e) != id then LastWord(before, logged[..|logged| - 1], id)
      else if e.Item? then Some(e.item)
      else None
  }

  /** An id's records are its shadows and then its live one. */
  lemma {:induction false} CopiesSplit(cells: seq<Cell>, id: Uuid)
    requires LastIsLive(cells)
    ensures Copies(Entities(cells), id) == Shadows(cells, id) + Listed(LiveOf(cells, id))
  {
    if cells != [] {
      var n := |cells| - 1;
      CopiesSplit(cells[..n], id);
      CopiesStep(cells, id);
      if cells[n].entity.id == id {
        NoLiveBefore(cells, n, id);
        if cells[n].Live? { LiveAtOnly(cells, n, id); }
      }
    }
  }

  lemma CopiesStep(cells: seq<Cell>, id: Uuid)
    requires cells != []
    ensures
      var n := |cells| - 1;
      Copies(Entities(cells), id)
      == Copies(Entities(cells[..n]), id) + if cells[n].entity.id == id then [cells[n].entity] else []
    ensures !IsLive(cells[|cells| - 1], id) ==> LiveOf(cells, id) == LiveOf(cells[..|cells| - 1], id)
  {
    assert Entities(cells)[..|cells| - 1] == Entities(cells[..|cells| - 1]);
  }

  lemma NoLiveBefore(cells: seq<Cell>, n: nat, id: Uuid)
    requires LastIsLive(cells) && n < |cells| && cells[n].entity.id == id
    ensures LiveAt(cells[..n], id).None?
  {
    forall j | 0 <= j < n
      ensures !IsLive(cells[..n][j], id)
    {
      assert cells[..n][j] == cells[j];
    }
  }

  lemma LiveAtOnly(cells: seq<Cell>, i: nat, id: Uuid)
    requires LastIsLive(cells) && i < |cells| && IsLive(cells[i], id)
    ensures LiveAt(cells, id) == Some(i)
  {
  }

  lemma {:induction false} ShadowsWithout(cells: seq<Cell>, i: nat, id: Uuid)
    requires i < |cells| && cells[i].Live?
    ensures Shadows(cells[..i] + cells[i + 1..], id) == Shadows(cells, id)
  {
    var n := |cells| - 1;
    if i == n {
      assert cells[..n] + cells[n + 1..] == cells[..n];
    } else {
      var rest := cells[..i] + cells[i + 1..];
      ShadowsWithout(cells[..n], i, id);
      assert rest[..n - 1] == cells[..n][..i] + cells[..n][i + 1..];
      assert rest[n - 1] == cells[n];
    }
  }

  lemma {:induction false} ShadowsOverwritten(cells: seq<Cell>, i: nat, record: Entity, id: Uuid)
    requires i < |cells| && cells[i].Live?
    ensures Shadows(cells[i := Live(record)], id) == Shadows(cells, id)
  {
    var n := |cells| - 1;
    if i == n {
      assert cells[n := Live(record)][..n] == cells[..n];
    } else {
      ShadowsOverwritten(cells[..n], i, record, id);
      assert cells[i := Live(record)][..n] == cells[..n][i := Live(record)];
    }
  }

  /** No entry of the log touches a shadow. */
  lemma StepKeepsShadows(cells: seq<Cell>, e: Logged, id: Uuid)
    ensures Shadows(MergeStep(cells, e), id) == Shadows(cells, id)
  {
    var at := LiveAt(cells, IdOf(e));
    if e.Tombstone? {
      if at.Some? { ShadowsWithout(cells, at.value, id); }
    } else if at.Some? {
      ShadowsOverwritten(cells, at.value, e.item, id);
    } else {
      assert (cells + [Live(e.item)])[..|cells|] == cells;
    }
  }

  lemma StepLive(cells: seq<Cell>, e: Logged, id: Uuid)
    requires LastIsLive(cells)
    ensures LiveOf(MergeStep(cells, e), id)
            == if IdOf(e) != id then LiveOf(cells, id) else if e.Item? then Some(e.item) else None
  {
    var next, at, was := MergeStep(cells, e), LiveAt(cells, IdOf(e)), LiveAt(cells, id);
    StepKeepsLastLive(cells, e);
    if IdOf(e) == id {
      if e.Item? {
        LiveAtOnly(next, if at.Some? then at.value else |cells|, id);
      }
    } else if was.Some? {
      LiveAtOnly(next, if e.Tombstone? && at.Some? && at.value < was.value then was.value - 1 else was.value, id);
    }
  }

  /** A fold leaves an id's shadows as they were, and its live record as the last word of the log on it. */
  lemma {:induction false} MergeCellsById(cells: seq<Cell>, logged: seq<Logged>, id: Uuid)
    requires LastIsLive(cells)
    ensures Shadows(MergeCells(cells, logged), id) == Shadows(cells, id)
    ensures LiveOf(MergeCells(cells, logged), id) == LastWord(LiveOf(cells, id), logged, id)
  {
    if logged != [] {
      var n := |logged| - 1;
      MergeCellsById(cells, logged[..n], id);
      MergeKeepsLastLive(cells, logged[..n]);
      StepKeepsShadows(MergeCells(cells, logged[..n]), logged[n], id);
      StepLive(MergeCells(cells, logged[..n]), logged[n], id);
    }
  }

  /** Positioning makes the last of an id's records live and the earlier ones shadows. */
  lemma PositionedById(records: seq<Entity>, id: Uuid)
    ensures Shadows(Positioned(records), id) == Earlier(Copies(records, id))
    ensures LiveOf(Positioned(records), id) == Find(records, id)
  {
    var cells := Positioned(records);
    PositionedIsLastLive(records);
    CopiesSplit(cells, id);
    if LiveOf(cells, id).None? {
      NoLiveNoShadow(cells, id);
    }
  }

  lemma NoLiveNoShadow(cells: seq<Cell>, id: Uuid)
    requires AllLive(cells) && LiveAt(cells, id).None?
    ensures Shadows(cells, id) == []
  {
    forall i | 0 <= i < |cells|
      ensures cells[i].entity.id != id
    {
      assert LiveAt(cells, cells[i].entity.id).Some?;
    }
    NoneOfId(cells, id);
  }

  lemma {:induction false} NoneOfId(cells: seq<Cell>, id: Uuid)
    requires forall i | 0 <= i < |cells| :: cells[i].entity.id != id
    ensures Shadows(cells, id) == []
  {
    if cells != [] {
      NoneOfId(cells[..|cells| - 1], id);
    }
  }

  /**
   What one fold does to the records of an id: all but the last stay, and the last gives way to the
   log's last word on it.
   */
  lemma MergeCopies(records: seq<Entity>, logged: seq<Logged>, id: Uuid)
    ensures Copies(Merge(records, logged), id)
            == Earlier(Copies(records, id)) + Listed(LastWord(Find(records, id), logged, id))
  {
    var cells := Positioned(records);
    PositionedIsLastLive(records);
    PositionedById(records, id);
    MergeKeepsLastLive(cells, logged);
    MergeCellsById(cells, logged, id);
    CopiesSplit(MergeCells(cells, logged), id);
  }

  /** With one record of the id at most, the merged list holds the log's last word on it. */
  lemma MergeFinds(records: seq<Entity>, logged: seq<Logged>, id: Uuid)
    ensures
      var word := LastWord(Find(records, id), logged, id);
      Find(Merge(records, logged), id) == if word.Some? then word else Last(Earlier(Copies(records, id)))
  {
    MergeCopies(records, logged, id);
  }

  lemma {:induction false} LastWordTwice(before: Option<Entity>, between: Option<Entity>, logged: seq<Logged>, id: Uuid)
    ensures
      || LastWord(between, logged, id) == LastWord(before, logged, id)
      || (LastWord(before, logged, id) == before && LastWord(between, logged, id) == between)
  {
    if logged != [] {
      LastWordTwice(before, between, logged[..|logged| - 1], id);
    }
  }

  /** The log's last word on an id is a tombstone. */
  predicate DeletesLast(logged: seq<Logged>, id: Uuid) {
    logged != [] &&
    var e := logged[|logged| - 1];
    if IdOf(e) == id then e.Tombstone? else DeletesLast(logged[..|logged| - 1], id)
  }

  /** A tombstone last, whatever was there before; otherwise nothing lost. */
  lemma {:induction false} LastWordIs(before: Option<Entity>, logged: seq<Logged>, id: Uuid)
    ensures DeletesLast(logged, id) ==> LastWord(before, logged, id) == None
    ensures !DeletesLast(logged, id) && before.Some? ==> LastWord(before, logged, id).Some?
    ensures !DeletesLast(logged, id) ==>
              LastWord(LastWord(before, logged, id), logged, id) == LastWord(before, logged, id)
  {
    if logged != [] {
      LastWordIs(before, logged[..|logged| - 1], id);
      LastWordTwice(before, LastWord(before, logged, id), logged, id);
    }
  }

  /**
   Folding the same log again finds the same under an id if and only if the log does not delete it
   last, or the two records a deletion would uncover in turn are alike. With one record of each id
   at most there are none, and the second fold finds the same throughout.
   */
  lemma FoldingAgainFindsTheSameIff(records: seq<Entity>, logged: seq<Logged>, id: Uuid)
    ensures
      var once := Merge(records, logged);
      var under := Earlier(Copies(records, id));
      Find(Merge(once, logged), id) == Find(once, id)
      <==> !DeletesLast(logged, id) || Last(under) == Last(Earlier(under))
  {
    var once := Merge(records, logged);
    var under := Earlier(Copies(records, id));
    MergeCopies(records, logged, id);
    MergeCopies(once, logged, id);
    LastWordIs(Find(records, id), logged, id);
    LastWordIs(Find(once, id), logged, id);
    if !DeletesLast(logged, id) {
      assert Listed(LastWord(Find(records, id), logged, id)) == [] ==> Copies(records, id) == [];
    } else {
      assert under + [] == under && Earlier(under) + [] == Earlier(under);
    }
  }

  /**
   It can find another: three records of one id under a log that deletes it. Each fold deletes one more,
   so the first fold leaves the second record to be found and the second fold the first.
   */
  lemma FoldingAgainCanUncover(a: Entity, b: Entity, c: Entity)
    requires a.id == b.id == c.id
    ensures
      var logged := [Tombstone(a.id)];
      var once := Merge([a, b, c], logged);
      Find(once, a.id) == Some(b) && Find(Merge(once, logged), a.id) == Some(a)
  {
    var logged := [Tombstone(a.id)];
    var once := Merge([a, b, c], logged);
    CopiesOfThree(a, b, c);
    LastWordIs(Some(c), logged, a.id);
    MergeCopies([a, b, c], logged, a.id);
    assert Copies(once, a.id) == [a, b];
    LastWordIs(Some(b), logged, a.id);
    MergeFinds(once, logged, a.id);
  }

  lemma CopiesOfThree(a: Entity, b: Entity, c: Entity)
    requires a.id == b.id == c.id
    ensures Copies([a, b, c], a.id) == [a, b, c]
  {
    assert [a, b, c][..2] == [a, b] && [a, b][..1] == [a] && [a][..0] == [];
    assert Copies([a], a.id) == [a];
    assert Copies([a, b], a.id) == [a, b];
  }

  // ----- order -----

  /** What tells a cell apart when only the order matters: a live record by its id, a shadow as it is. */
  datatype Key = LiveId(id: Uuid) | ShadowOf(entity: Entity)

  function KeyOf(cell: Cell): Key {
    if cell.Live? then LiveId(cell.entity.id) else ShadowOf(cell.entity)
  }

  function KeysOf(cells: seq<Cell>): (keys: seq<Key>)
    ensures |keys| == |cells|
    ensures forall i | 0 <= i < |keys| :: keys[i] == KeyOf(cells[i])
  {
    seq(|cells|, i requires 0 <= i < |cells| => KeyOf(cells[i]))
  }

  /** The elements of a list that are in a set, in the list's order. */
  function Keep(ids: seq<Key>, s: set<Key>): seq<Key> {
    if ids == [] then []
    else
      var last := ids[|ids| - 1];
      Keep(ids[..|ids| - 1], s) + if last in s then [last] else []
  }

  lemma {:induction false} KeepMembers(ids: seq<Key>, s: set<Key>)
    ensures forall id :: id in Keep(ids, s) <==> id in ids && id in s
  {
    if ids != [] {
      KeepMembers(ids[..|ids| - 1], s);
      assert ids == ids[..|ids| - 1] + [ids[|ids| - 1]];
    }
  }

  lemma {:induction false} KeepConcat(a: seq<Key>, b: seq<Key>, s: set<Key>)
    ensures Keep(a + b, s) == Keep(a, s) + Keep(b, s)
  {
    if b == [] {
      assert a + b == a;
    } else {
      KeepConcat(a, b[..|b| - 1], s);
      assert (a + b)[..|a + b| - 1] == a + b[..|b| - 1];
    }
  }

  /** Keeping by two sets that pick the same elements of the list is the same. */
  lemma {:induction false} KeepSame(ids: seq<Key>, s: set<Key>, t: set<Key>)
    requires forall id | id in ids :: id in s <==> id in t
    ensures Keep(ids, s) == Keep(ids, t)
  {
    if ids != [] {
      KeepSame(ids[..|ids| - 1], s, t);
      assert ids[|ids| - 1] in ids;
    }
  }

  lemma {:induction false} KeepTwice(ids: seq<Key>, s: set<Key>, t: set<Key>)
    ensures Keep(Keep(ids, s), t) == Keep(ids, s * t)
  {
    if ids != [] {
      var last := ids[|ids| - 1];
      KeepTwice(ids[..|ids| - 1], s, t);
      KeepConcat(Keep(ids[..|ids| - 1], s), if last in s then [last] else [], t);
      assert Keep([last], t) == if last in t then [last] else [] by { assert [last][..0] == []; }
    }
  }

  lemma {:induction false} KeepAll(ids: seq<Key>, s: set<Key>)
    requires forall id | id in ids :: id in s
    ensures Keep(ids, s) == ids
  {
    if ids != [] {
      KeepAll(ids[..|ids| - 1], s);
      assert ids[|ids| - 1] in ids;
    }
  }

  lemma {:induction false} KeepNone(ids: seq<Key>, s: set<Key>)
    requires forall id | id in ids :: id !in s
    ensures Keep(ids, s) == []
  {
    if ids != [] {
      KeepNone(ids[..|ids| - 1], s);
      assert ids[|ids| - 1] in ids;
    }
  }

  /** The order of the ids after one step, without the records. */
  function OrderStep(ids: seq<Key>, e: Logged): seq<Key> {
    if e.Tombstone? then Keep(ids, SetOf(ids) - {LiveId(e.key)})
    else if LiveId(e.item.id) in ids then ids
    else ids + [LiveId(e.item.id)]
  }

  function SetOf(ids: seq<Key>): set<Key> {
    set id | id in ids
  }

  lemma {:induction false} KeepOthers(ids: seq<Key>, i: nat, others: set<Key>)
    requires i < |ids| && forall j | 0 <= j < |ids| :: ids[j] in others <==> j != i
    ensures Keep(ids, others) == ids[..i] + ids[i + 1..]
  {
    var n := |ids| - 1;
    if i == n {
      KeepAll(ids[..n], others);
      assert ids[n + 1..] == [];
    } else {
      KeepOthers(ids[..n], i, others);
      assert ids[..n][..i] == ids[..i];
      assert ids[i + 1..] == ids[..n][i + 1..] + [ids[n]];
    }
  }

  lemma RemovalOrder(cells: seq<Cell>, i: nat)
    requires LastIsLive(cells) && i < |cells| && cells[i].Live?
    ensures Keep(KeysOf(cells), SetOf(KeysOf(cells)) - {KeyOf(cells[i])}) == KeysOf(cells[..i] + cells[i + 1..])
  {
    var keys := KeysOf(cells);
    var others := SetOf(keys) - {keys[i]};
    forall j | 0 <= j < |keys|
      ensures keys[j] in others <==> j != i
    {
      assert keys[j] in keys;
    }
    KeepOthers(keys, i, others);
    assert KeysOf(cells[..i] + cells[i + 1..]) == keys[..i] + keys[i + 1..];
  }

  lemma StepOrder(cells: seq<Cell>, e: Logged)
    requires LastIsLive(cells)
    ensures KeysOf(MergeStep(cells, e)) == OrderStep(KeysOf(cells), e)
  {
    var keys, at := KeysOf(cells), LiveAt(cells, IdOf(e));
    if at.Some? {
      assert keys[at.value] in keys;
      if e.Tombstone? { RemovalOrder(cells, at.value); }
    } else {
      forall i | 0 <= i < |keys|
        ensures keys[i] != LiveId(IdOf(e))
      {
        assert !IsLive(cells[i], IdOf(e));
      }
      if e.Tombstone? { KeepAll(keys, SetOf(keys) - {LiveId(e.key)}); }
    }
  }

  function Order(ids: seq<Key>, logged: seq<Logged>): seq<Key> {
    if logged == [] then ids
    else OrderStep(Order(ids, logged[..|logged| - 1]), logged[|logged| - 1])
  }

  lemma {:induction false} MergeOrder(cells: seq<Cell>, logged: seq<Logged>)
    requires LastIsLive(cells)
    ensures KeysOf(MergeCells(cells, logged)) == Order(KeysOf(cells), logged)
  {
    if logged != [] {
      MergeOrder(cells, logged[..|logged| - 1]);
      MergeKeepsLastLive(cells, logged[..|logged| - 1]);
      StepOrder(MergeCells(cells, logged[..|logged| - 1]), logged[|logged| - 1]);
    }
  }

  // ----- folding again -----

  /** The ids the log has a tombstone for. */
  function Deleted(logged: seq<Logged>): set<Key> {
    set i | 0 <= i < |logged| && logged[i].Tombstone? :: LiveId(logged[i].key)
  }

  lemma DeletedSnoc(logged: seq<Logged>)
    requires logged != []
    ensures
      var n := |logged| - 1;
      Deleted(logged) == Deleted(logged[..n]) + if logged[n].Tombstone? then {LiveId(logged[n].key)} else {}
  {
    var n := |logged| - 1;
    forall id
      ensures id in Deleted(logged)
              <==> id in Deleted(logged[..n]) || (logged[n].Tombstone? && id == LiveId(logged[n].key))
    {
      if id in Deleted(logged) {
        var i :| 0 <= i < |logged| && logged[i].Tombstone? && LiveId(logged[i].key) == id;
        assert i < n ==> logged[..n][i] == logged[i];
      }
      if id in Deleted(logged[..n]) {
        var i :| 0 <= i < n && logged[..n][i].Tombstone? && LiveId(logged[..n][i].key) == id;
        assert logged[i] == logged[..n][i];
      }
    }
  }

  /** What the log deletes and brings back comes out in the same order whatever it started from. */
  lemma {:induction false} DeletedOrder(a: seq<Key>, b: seq<Key>, logged: seq<Logged>)
    ensures Keep(Order(a, logged), Deleted(logged)) == Keep(Order(b, logged), Deleted(logged))
  {
    if logged == [] {
      KeepNone(a, Deleted(logged));
      KeepNone(b, Deleted(logged));
    } else {
      var n := |logged| - 1;
      var e, earlier := logged[n], Deleted(logged[..n]);
      DeletedOrder(a, b, logged[..n]);
      DeletedSnoc(logged);
      var x, y := Order(a, logged[..n]), Order(b, logged[..n]);
      if e.Tombstone? {
        DeleteThenKeep(x, earlier, LiveId(e.key));
        DeleteThenKeep(y, earlier, LiveId(e.key));
      } else {
        AppendThenKeep(x, earlier, LiveId(e.item.id));
        AppendThenKeep(y, earlier, LiveId(e.item.id));
        assert earlier + {} == earlier;
      }
    }
  }

  lemma DeleteThenKeep(ids: seq<Key>, s: set<Key>, id: Key)
    ensures Keep(Keep(ids, SetOf(ids) - {id}), s + {id}) == Keep(Keep(ids, s), s - {id})
  {
    KeepTwice(ids, SetOf(ids) - {id}, s + {id});
    KeepTwice(ids, s, s - {id});
    KeepSame(ids, (SetOf(ids) - {id}) * (s + {id}), s * (s - {id}));
  }

  /** Adding an id unless it is there, seen through a set. */
  lemma AppendThenKeep(ids: seq<Key>, s: set<Key>, id: Key)
    ensures Keep(if id in ids then ids else ids + [id], s) ==
            if id in s && id !in Keep(ids, s) then Keep(ids, s) + [id] else Keep(ids, s)
  {
    KeepMembers(ids, s);
    KeepConcat(ids, [id], s);
    assert [id][..0] == [];
    assert Keep([id], s) == if id in s then [id] else [];
  }

  /** Ids of `start` the log does not delete stay in front, in order; whatever follows is something else. */
  ghost predicate FrontStands(start: seq<Key>, now: seq<Key>, deleted: set<Key>) {
    var front := Keep(start, SetOf(start) - deleted);
    && |front| <= |now|
    && now == front + now[|front|..]
    && forall id | id in now[|front|..] :: id !in SetOf(start) - deleted
  }

  lemma {:induction false} UndeletedStayInFront(start: seq<Key>, logged: seq<Logged>)
    ensures FrontStands(start, Order(start, logged), Deleted(logged))
  {
    if logged == [] {
      KeepAll(start, SetOf(start) - Deleted(logged));
    } else {
      var n := |logged| - 1;
      UndeletedStayInFront(start, logged[..n]);
      DeletedSnoc(logged);
      var now, earlier := Order(start, logged[..n]), Deleted(logged[..n]);
      if logged[n].Tombstone? {
        FrontAfterDelete(start, now, earlier, LiveId(logged[n].key));
      } else {
        FrontAfterItem(start, now, earlier, LiveId(logged[n].item.id));
        assert earlier + {} == earlier;
      }
    }
  }

  lemma FrontAfterItem(start: seq<Key>, now: seq<Key>, deleted: set<Key>, id: Key)
    requires FrontStands(start, now, deleted)
    ensures FrontStands(start, if id in now then now else now + [id], deleted)
  {
    var front := Keep(start, SetOf(start) - deleted);
    var rest := now[|front|..];
    KeepMembers(start, SetOf(start) - deleted);
    if id !in now {
      assert id !in SetOf(start) - deleted by {
        assert id in front ==> id in front + rest;
      }
      assert now + [id] == front + (rest + [id]);
      assert (now + [id])[|front|..] == rest + [id];
    }
  }

  lemma FrontAfterDelete(start: seq<Key>, now: seq<Key>, deleted: set<Key>, id: Key)
    requires FrontStands(start, now, deleted)
    ensures FrontStands(start, Keep(now, SetOf(now) - {id}), deleted + {id})
  {
    var kept, others := SetOf(start) - deleted, SetOf(now) - {id};
    var front := Keep(start, kept);
    var rest := now[|front|..];
    KeepConcat(front, rest, others);
    KeepTwice(start, kept, others);
    KeepMembers(start, kept);
    forall x | x in start
      ensures x in kept * others <==> x in SetOf(start) - (deleted + {id})
    {
      assert x in front ==> x in front + rest;
    }
    KeepSame(start, kept * others, SetOf(start) - (deleted + {id}));
    KeepMembers(rest, others);
    var newFront := Keep(start, SetOf(start) - (deleted + {id}));
    assert Keep(now, others) == newFront + Keep(rest, others);
    assert Keep(now, others)[|newFront|..] == Keep(rest, others);
  }

  /** Either the log settles whether an id is present, or it does not touch it. */
  lemma {:induction false} OrderMembers(a: seq<Key>, b: seq<Key>, logged: seq<Logged>, id: Key)
    ensures (id in Order(a, logged) <==> id in Order(b, logged))
            || ((id in Order(a, logged) <==> id in a) && (id in Order(b, logged) <==> id in b))
  {
    if logged != [] {
      var n := |logged| - 1;
      OrderMembers(a, b, logged[..n], id);
      StepMembers(Order(a, logged[..n]), logged[n], id);
      StepMembers(Order(b, logged[..n]), logged[n], id);
    }
  }

  lemma StepMembers(ids: seq<Key>, e: Logged, id: Key)
    ensures id in OrderStep(ids, e) <==> if LiveId(IdOf(e)) == id then e.Item? else id in ids
  {
    if e.Tombstone? {
      KeepMembers(ids, SetOf(ids) - {LiveId(e.key)});
    }
  }

  /**
   The order a second fold leaves: first the ids the log never deletes, then the ones it deletes
   and brings back, each group in the order it had.
   */
  lemma OrderAfterFoldingAgain(ids: seq<Key>, logged: seq<Logged>)
    ensures
      var merged := Order(ids, logged);
      Order(merged, logged) == Keep(merged, SetOf(merged) - Deleted(logged)) + Keep(merged, Deleted(logged))
  {
    var merged, deleted := Order(ids, logged), Deleted(logged);
    var again := Order(merged, logged);
    UndeletedStayInFront(merged, logged);
    var front := Keep(merged, SetOf(merged) - deleted);
    var rest := again[|front|..];
    forall id | id in rest
      ensures id in deleted
    {
      assert id in again;
      OrderMembers(ids, merged, logged, id);
    }
    KeepMembers(merged, SetOf(merged) - deleted);
    KeepNone(front, deleted);
    KeepAll(rest, deleted);
    KeepConcat(front, rest, deleted);
    assert Keep(again, deleted) == rest;
    DeletedOrder(ids, merged, logged);
  }

  /** What the log deletes already stands at the end. */
  predicate DeletedAtEnd(ids: seq<Key>, deleted: set<Key>) {
    forall i, j | 0 <= i < j < |ids| && ids[i] in deleted :: ids[j] in deleted
  }

  lemma {:induction false} AtEndSplits(ids: seq<Key>, kept: set<Key>, deleted: set<Key>)
    requires DeletedAtEnd(ids, deleted)
    requires forall id | id in ids :: id in kept <==> id !in deleted
    ensures Keep(ids, kept) + Keep(ids, deleted) == ids
  {
    if ids != [] {
      var front, last := ids[..|ids| - 1], ids[|ids| - 1];
      assert last in ids;
      if last in deleted {
        AtEndSplits(front, kept, deleted);
        assert Keep(ids, kept) == Keep(front, kept) + [];
      } else {
        KeepNone(ids, deleted);
        KeepAll(ids, kept);
      }
    }
  }

  lemma SplitIsAtEnd(ids: seq<Key>, kept: set<Key>, deleted: set<Key>)
    requires forall id | id in ids :: id in kept <==> id !in deleted
    requires Keep(ids, kept) + Keep(ids, deleted) == ids
    ensures DeletedAtEnd(ids, deleted)
  {
    var front, back := Keep(ids, kept), Keep(ids, deleted);
    KeepMembers(ids, kept);
    KeepMembers(ids, deleted);
    forall k | 0 <= k < |front|
      ensures ids[k] !in deleted
    {
      assert front[k] in front && front[k] == (front + back)[k];
    }
    forall k | |front| <= k < |ids|
      ensures ids[k] in deleted
    {
      assert back[k - |front|] in back && back[k - |front|] == (front + back)[k];
    }
  }

  lemma SameKeysSameCells(a: seq<Cell>, b: seq<Cell>)
    requires LastIsLive(a) && LastIsLive(b) && KeysOf(a) == KeysOf(b)
    requires forall id :: LiveOf(a, id) == LiveOf(b, id)
    ensures a == b
  {
    assert |a| == |KeysOf(a)| == |KeysOf(b)| == |b|;
    forall i | 0 <= i < |a|
      ensures a[i] == b[i]
    {
      assert KeysOf(a)[i] == KeysOf(b)[i];
      if a[i].Live? {
        LiveAtOnly(a, i, a[i].entity.id);
        LiveAtOnly(b, i, a[i].entity.id);
        assert LiveOf(a, a[i].entity.id) == LiveOf(b, a[i].entity.id);
      }
    }
  }

  /** No record is left of an id the log deletes last. */
  predicate NothingUncovered(records: seq<Entity>, logged: seq<Logged>) {
    forall i | 0 <= i < |records| :: !DeletesLast(logged, records[i].id)
  }

  /** The `i`th record is the last of its id, and the log has a tombstone for it: the log brought it back. */
  predicate BroughtBack(records: seq<Entity>, logged: seq<Logged>, i: nat)
    requires i < |records|
  {
    && (forall j | i < j < |records| :: records[j].id != records[i].id)
    && LiveId(records[i].id) in Deleted(logged)
  }

  /** The records the log brought back stand together at the end. */
  predicate BroughtBackAtEnd(records: seq<Entity>, logged: seq<Logged>) {
    forall i, j | 0 <= i < j < |records| && BroughtBack(records, logged, i) :: BroughtBack(records, logged, j)
  }

  /** With nothing uncovered, a fold's own marking is the one the next fold starts from. */
  lemma FoldedStaysPositioned(records: seq<Entity>, logged: seq<Logged>)
    requires NothingUncovered(Merge(records, logged), logged)
    ensures
      var cells := MergeCells(Positioned(records), logged);
      LastIsLive(cells) && AllLive(cells) && Positioned(Merge(records, logged)) == cells
  {
    var start := Positioned(records);
    var cells := MergeCells(start, logged);
    PositionedIsLastLive(records);
    MergeKeepsLastLive(start, logged);
    forall i | 0 <= i < |cells|
      ensures LiveAt(cells, cells[i].entity.id).Some?
    {
      var id := cells[i].entity.id;
      assert Entities(cells)[i].id == id;
      if LiveAt(cells, id).None? {
        ShadowHasLive(records, logged, i);
      }
    }
    PositionedUnique(cells);
  }

  /** Left without its live record, a shadow's id was deleted last. */
  lemma ShadowHasLive(records: seq<Entity>, logged: seq<Logged>, i: nat)
    requires i < |MergeCells(Positioned(records), logged)|
    ensures
      var cells := MergeCells(Positioned(records), logged);
      var id := cells[i].entity.id;
      LiveAt(cells, id).None? ==> DeletesLast(logged, id)
  {
    var start := Positioned(records);
    var cells := MergeCells(start, logged);
    var id := cells[i].entity.id;
    PositionedIsLastLive(records);
    MergeCellsById(start, logged, id);
    LastWordIs(LiveOf(start, id), logged, id);
    if LiveAt(cells, id).None? {
      assert !IsLive(cells[i], id);
      ShadowIsListed(cells, i);
      if LiveAt(start, id).None? { NoLiveNoShadow(start, id); }
    }
  }

  lemma {:induction false} ShadowIsListed(cells: seq<Cell>, i: nat)
    requires i < |cells| && cells[i].Shadow?
    ensures Shadows(cells, cells[i].entity.id) != []
  {
    if i < |cells| - 1 {
      ShadowIsListed(cells[..|cells| - 1], i);
    }
  }

  lemma {:induction false} CopyIsListed(records: seq<Entity>, i: nat)
    requires i < |records|
    ensures Copies(records, records[i].id) != []
  {
    if i < |records| - 1 {
      CopyIsListed(records[..|records| - 1], i);
    }
  }

  /** The end of the list, told by keys or by records. */
  lemma AtEndEitherWay(cells: seq<Cell>, logged: seq<Logged>)
    requires LastIsLive(cells) && AllLive(cells)
    ensures BroughtBackAtEnd(Entities(cells), logged) <==> DeletedAtEnd(KeysOf(cells), Deleted(logged))
  {
    forall i | 0 <= i < |cells|
      ensures BroughtBack(Entities(cells), logged, i) <==> KeysOf(cells)[i] in Deleted(logged)
    {
      LiveIffLast(cells, i);
    }
  }

  /** A second fold over its own marking keeps the order exactly when what the log deletes is at the end. */
  lemma SecondFoldKeepsCellsIff(start: seq<Cell>, logged: seq<Logged>)
    requires LastIsLive(start)
    ensures
      var cells := MergeCells(start, logged);
      MergeCells(cells, logged) == cells <==> DeletedAtEnd(KeysOf(cells), Deleted(logged))
  {
    var cells, deleted := MergeCells(start, logged), Deleted(logged);
    MergeKeepsLastLive(start, logged);
    MergeKeepsLastLive(cells, logged);
    MergeOrder(start, logged);
    MergeOrder(cells, logged);
    OrderAfterFoldingAgain(KeysOf(start), logged);
    var kept := SetOf(KeysOf(cells)) - deleted;
    if DeletedAtEnd(KeysOf(cells), deleted) {
      AtEndSplits(KeysOf(cells), kept, deleted);
      SecondFoldKeepsLive(start, logged);
      SameKeysSameCells(MergeCells(cells, logged), cells);
    }
    if MergeCells(cells, logged) == cells {
      SplitIsAtEnd(KeysOf(cells), kept, deleted);
    }
  }

  lemma SecondFoldKeepsLive(start: seq<Cell>, logged: seq<Logged>)
    requires LastIsLive(start)
    ensures
      var cells := MergeCells(start, logged);
      forall id :: LiveOf(MergeCells(cells, logged), id) == LiveOf(cells, id)
  {
    var cells := MergeCells(start, logged);
    MergeKeepsLastLive(start, logged);
    forall id
      ensures LiveOf(MergeCells(cells, logged), id) == LiveOf(cells, id)
    {
      MergeCellsById(start, logged, id);
      MergeCellsById(cells, logged, id);
      LastWordTwice(LiveOf(start, id), LiveOf(cells, id), logged, id);
    }
  }

  /**
   A second fold of the same log leaves the list as it is if and only if no record is left of an id the
   log deletes last, and the records it deletes and brings back stand at the end.
   */
  lemma FoldingAgainIsNoOpIff(records: seq<Entity>, logged: seq<Logged>)
    ensures
      var once := Merge(records, logged);
      Merge(once, logged) == once <==> NothingUncovered(once, logged) && BroughtBackAtEnd(once, logged)
  {
    var once := Merge(records, logged);
    if Merge(once, logged) == once {
      NoOpUncoversNothing(records, logged);
    }
    if NothingUncovered(once, logged) {
      var cells := MergeCells(Positioned(records), logged);
      PositionedIsLastLive(records);
      FoldedStaysPositioned(records, logged);
      AtEndEitherWay(cells, logged);
      SecondFoldKeepsCellsIff(Positioned(records), logged);
      if Merge(once, logged) == once {
        FoldedStaysPositioned(once, logged);
      }
    }
  }

  lemma NoOpUncoversNothing(records: seq<Entity>, logged: seq<Logged>)
    requires Merge(Merge(records, logged), logged) == Merge(records, logged)
    ensures NothingUncovered(Merge(records, logged), logged)
  {
    var once := Merge(records, logged);
    forall i | 0 <= i < |once|
      ensures !DeletesLast(logged, once[i].id)
    {
      var id := once[i].id;
      CopyIsListed(once, i);
      MergeCopies(once, logged, id);
      LastWordIs(Find(once, id), logged, id);
      assert Earlier(Copies(once, id)) + [] == Earlier(Copies(once, id));
    }
  }

  // ----- lists with one record of each id -----

  predicate Distinct(records: seq<Entity>) {
    forall i, j | 0 <= i < j < |records| :: records[i].id != records[j].id
  }

  lemma {:induction false} OneCopy(records: seq<Entity>, id: Uuid)
    requires Distinct(records)
    ensures |Copies(records, id)| <= 1
  {
    if records != [] {
      OneCopy(records[..|records| - 1], id);
      if records[|records| - 1].id == id {
        NoCopy(records[..|records| - 1], id);
      }
    }
  }

  lemma {:induction false} NoCopy(records: seq<Entity>, id: Uuid)
    requires forall i | 0 <= i < |records| :: records[i].id != id
    ensures Copies(records, id) == []
  {
    if records != [] {
      NoCopy(records[..|records| - 1], id);
    }
  }

  /** What the store's own lists promise: one record of each id, and a second fold finds the same for every id. */
  lemma FoldingAgainFindsTheSame(records: seq<Entity>, logged: seq<Logged>, id: Uuid)
    requires Distinct(records)
    ensures Find(Merge(Merge(records, logged), logged), id) == Find(Merge(records, logged), id)
  {
    OneCopy(records, id);
    FoldingAgainFindsTheSameIff(records, logged, id);
  }

  /** It does move records: one deleted, put back and followed by a new one changes places with it. */
  lemma FoldingAgainCanReorder(a: Entity, b: Entity)
    requires a.id != b.id
    ensures
      var logged := [Tombstone(a.id), Item(a), Item(b)];
      Merge([a], logged) == [a, b] && Merge([a, b], logged) == [b, a]
  {
    PositionedShort(a, b);
    FirstFold(a, b);
    SecondFold(a, b);
    assert Entities([Live(a), Live(b)]) == [a, b];
    assert Entities([Live(b), Live(a)]) == [b, a];
  }

  lemma PositionedShort(a: Entity, b: Entity)
    requires a.id != b.id
    ensures Positioned([a]) == [Live(a)] && Positioned([a, b]) == [Live(a), Live(b)]
  {
    assert [a, b][..1] == [a] && [a][..0] == [];
    assert [Live(a)][..0] == [];
    assert Positioned([a]) == [Live(a)];
    assert Shaded([Live(a)], b.id) == [Live(a)];
  }

  lemma MergeThree(cells: seq<Cell>, x: Logged, y: Logged, z: Logged)
    ensures MergeCells(cells, [x, y, z]) == MergeStep(MergeStep(MergeStep(cells, x), y), z)
  {
    assert [x, y, z][..2] == [x, y] && [x, y][..1] == [x] && [x][..0] == [];
    assert MergeCells(cells, [x, y]) == MergeStep(MergeCells(cells, [x]), y);
  }

  lemma FirstFold(a: Entity, b: Entity)
    requires a.id != b.id
    ensures MergeCells([Live(a)], [Tombstone(a.id), Item(a), Item(b)]) == [Live(a), Live(b)]
  {
    var only := [Live(a)];
    MergeThree(only, Tombstone(a.id), Item(a), Item(b));
    PutBack([], a, only);
    AddsLast(only, b);
  }

  lemma SecondFold(a: Entity, b: Entity)
    requires a.id != b.id
    ensures MergeCells([Live(a), Live(b)], [Tombstone(a.id), Item(a), Item(b)]) == [Live(b), Live(a)]
  {
    var both := [Live(a), Live(b)];
    MergeThree(both, Tombstone(a.id), Item(a), Item(b));
    PutBack([Live(b)], a, both);
    WritesFirst([Live(a)], b);
  }

  lemma PutBack(rest: seq<Cell>, a: Entity, cells: seq<Cell>)
    requires cells == [Live(a)] + rest && forall i | 0 <= i < |rest| :: rest[i].entity.id != a.id
    ensures MergeStep(MergeStep(cells, Tombstone(a.id)), Item(a)) == rest + [Live(a)]
  {
    DeletesFirst(rest, a);
    AddsLast(rest, a);
  }

  lemma AddsLast(cells: seq<Cell>, a: Entity)
    requires forall i | 0 <= i < |cells| :: cells[i].entity.id != a.id
    ensures MergeStep(cells, Item(a)) == cells + [Live(a)]
  {
    NotLive(cells, a.id);
  }

  lemma WritesFirst(rest: seq<Cell>, b: Entity)
    requires forall i | 0 <= i < |rest| :: rest[i].entity.id != b.id
    ensures MergeStep([Live(b)] + rest, Item(b)) == [Live(b)] + rest
  {
    var cells := [Live(b)] + rest;
    FirstIsLive(rest, b);
    assert cells[0 := Live(b)] == cells;
  }

  lemma FirstIsLive(rest: seq<Cell>, a: Entity)
    requires forall i | 0 <= i < |rest| :: rest[i].entity.id != a.id
    ensures LiveAt([Live(a)] + rest, a.id) == Some(0)
  {
    var cells := [Live(a)] + rest;
    assert IsLive(cells[0], a.id);
    forall j | 0 < j < |cells|
      ensures !IsLive(cells[j], a.id)
    {
      assert cells[j] == rest[j - 1];
    }
  }

  lemma DeletesFirst(rest: seq<Cell>, a: Entity)
    requires forall i | 0 <= i < |rest| :: rest[i].entity.id != a.id
    ensures MergeStep([Live(a)] + rest, Tombstone(a.id)) == rest
  {
    var cells := [Live(a)] + rest;
    FirstIsLive(rest, a);
    assert cells[..0] + cells[1..] == rest;
  }

  lemma NotLive(cells: seq<Cell>, id: Uuid)
    requires forall i | 0 <= i < |cells| :: cells[i].entity.id != id
    ensures LiveAt(cells, id) == None
  {
  }

  // ----- the loop -----

  /** The map `merge_log` keeps points at the live records and nowhere else. */
  ghost predicate Positions(cells: seq<Cell>, positionOf: map<Uuid, nat>) {
    && (forall id | id in positionOf :: positionOf[id] < |cells| && IsLive(cells[positionOf[id]], id))
    && (forall i | 0 <= i < |cells| && cells[i].Live? ::
          cells[i].entity.id in positionOf && positionOf[cells[i].entity.id] == i)
  }

  lemma PositionsFind(cells: seq<Cell>, positionOf: map<Uuid, nat>, id: Uuid)
    requires Positions(cells, positionOf)
    ensures LiveAt(cells, id) == if id in positionOf then Some(positionOf[id]) else None
  {
    var at := LiveAt(cells, id);
    assert at.Some? ==> cells[at.value].entity.id in positionOf;
  }

  /** The map with every position above `i` moved down by one. */
  function Shifted(positionOf: map<Uuid, nat>, i: nat): map<Uuid, nat> {
    map id | id in positionOf :: if positionOf[id] > i then positionOf[id] - 1 else positionOf[id]
  }

  method ShiftDown(positionOf: map<Uuid, nat>, i: nat) returns (shifted: map<Uuid, nat>)
    ensures shifted == Shifted(positionOf, i)
  {
    shifted := positionOf;
    var ids := positionOf.Keys;
    while ids != {}
      invariant ids <= positionOf.Keys == shifted.Keys
      invariant forall id | id in ids :: shifted[id] == positionOf[id]
      invariant forall id | id in positionOf.Keys - ids :: shifted[id] == Shifted(positionOf, i)[id]
      decreases ids
    {
      var id :| id in ids;
      if positionOf[id] > i {
        shifted := shifted[id := positionOf[id] - 1];
      }
      ids := ids - {id};
    }
  }

  lemma RemovedPositions(cells: seq<Cell>, positionOf: map<Uuid, nat>, id: Uuid)
    requires Positions(cells, positionOf) && id in positionOf
    ensures
      var i := positionOf[id];
      Positions(cells[..i] + cells[i + 1..], Shifted(positionOf - {id}, i))
  {
  }

  lemma PositionsOneMore(cells: seq<Cell>, positionOf: map<Uuid, nat>, last: Entity)
    requires Positions(cells, positionOf)
    ensures Positions(Shaded(cells, last.id) + [Live(last)], positionOf[last.id := |cells|])
  {
    PositionsFind(cells, positionOf, last.id);
  }

  /** `records.iter().enumerate()` collected by id: a later record of the same id takes the position over. */
  method CollectPositions(records: seq<Entity>) returns (positionOf: map<Uuid, nat>)
    ensures Positions(Positioned(records), positionOf)
  {
    positionOf := map[];
    for i := 0 to |records|
      invariant Positions(Positioned(records[..i]), positionOf)
    {
      assert records[..i + 1][..i] == records[..i];
      PositionsOneMore(Positioned(records[..i]), positionOf, records[i]);
      positionOf := positionOf[records[i].id := i];
    }
    assert records[..|records|] == records;
  }

  lemma ItemPositions(cells: seq<Cell>, positionOf: map<Uuid, nat>, r: Entity)
    requires Positions(cells, positionOf)
    ensures r.id in positionOf ==>
              var i := positionOf[r.id];
              Positions(cells[i := Live(r)], positionOf) && Entities(cells[i := Live(r)]) == Entities(cells)[i := r]
    ensures r.id !in positionOf ==>
              && Positions(cells + [Live(r)], positionOf[r.id := |cells|])
              && Entities(cells + [Live(r)]) == Entities(cells) + [r]
  {
  }

  lemma RemovedEntity(cells: seq<Cell>, i: nat)
    requires i < |cells|
    ensures Entities(cells[..i] + cells[i + 1..]) == Entities(cells)[..i] + Entities(cells)[i + 1..]
  {
  }

  /** One entry of the log, applied to the list and its positions together. */
  method ApplyEntry(records: seq<Entity>, positionOf: map<Uuid, nat>, e: Logged, ghost cells: seq<Cell>)
    returns (after: seq<Entity>, positions: map<Uuid, nat>)
    requires Positions(cells, positionOf) && records == Entities(cells)
    ensures after == Entities(MergeStep(cells, e))
    ensures Positions(MergeStep(cells, e), positions)
  {
    PositionsFind(cells, positionOf, IdOf(e));
    match e {
      case Item(record) =>
        ItemPositions(cells, positionOf, record);
        if record.id in positionOf {
          after, positions := records[positionOf[record.id] := record], positionOf;
        } else {
          after, positions := records + [record], positionOf[record.id := |records|];
        }
      case Tombstone(id) =>
        if id in positionOf {
          var i := positionOf[id];
          RemovedPositions(cells, positionOf, id);
          RemovedEntity(cells, i);
          positions := ShiftDown(positionOf - {id}, i);
          after := records[..i] + records[i + 1..];
        } else {
          after, positions := records, positionOf;
        }
    }
  }

  method MergeLog(records: seq<Entity>, logged: seq<Logged>) returns (merged: seq<Entity>)
    ensures merged == Merge(records, logged)
  {
    merged := records;
    PositionedIsLastLive(records);
    if logged == [] {
      return;
    }
    var positionOf := CollectPositions(records);
    ghost var start := Positioned(records);
    for k := 0 to |logged|
      invariant merged == Entities(MergeCells(start, logged[..k]))
      invariant Positions(MergeCells(start, logged[..k]), positionOf)
    {
      assert logged[..k + 1][..k] == logged[..k];
      merged, positionOf := ApplyEntry(merged, positionOf, logged[k], MergeCells(start, logged[..k]));
    }
    assert logged[..|logged|] == logged;
  }
}
