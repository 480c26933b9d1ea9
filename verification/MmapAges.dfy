/**
 What the columnar ages file means, as functions of its bytes (src/durability/mmap_store.rs):
 the map of ages it holds, what an open leaves at the path, and whole runs of a store over it
 against a plain map.
 */
module MmapAges {
  import opened Bytes
  import opened Histories
  import opened Slots
  import opened ColumnarImage
  import opened Records
  import opened Rewrites

  /** The ages a file holds, by id: what the first pass of `open` collects. */
  function FileAges(b: seq<byte>): (ages: map<Uuid, u32>)
    requires |b| >= 12
    ensures ages.Keys == LastCommitted(SlotsIn(b)).Keys
  {
    CommittedValues(SlotsIn(b))
  }

  /** The pair each record would be seeded with. */
  function Seeds(records: seq<DogRecord>): (entries: seq<(Uuid, u32)>)
    ensures |entries| == |records|
    ensures forall i | 0 <= i < |records| :: entries[i] == (records[i].id, records[i].age)
  {
    seq(|records|, i requires 0 <= i < |records| => (records[i].id, records[i].age))
  }

  /** An age for each record: the one in `ages` for that id, or the record's own. */
  function Reconciled(ages: map<Uuid, u32>, records: seq<DogRecord>): (entries: seq<(Uuid, u32)>)
    ensures |entries| == |records|
    ensures forall i | 0 <= i < |records| ::
              entries[i] == (records[i].id, if records[i].id in ages then ages[records[i].id] else records[i].age)
  {
    seq(|records|, i requires 0 <= i < |records| =>
      (records[i].id, if records[i].id in ages then ages[records[i].id] else records[i].age))
  }

  /** The bytes at the path once `open` has returned: rewritten when some record has no age yet. */
  function OpenImage(b: seq<byte>, records: seq<DogRecord>): (c: seq<byte>)
    requires |b| >= 12
    ensures |c| >= 12
  {
    if Ids(records) <= FileAges(b).Keys then b else ImageOf(Reconciled(FileAges(b), records))
  }

  /** The age an open gives each supplied id: the remembered one, or its own seed. */
  function Supplied(ages: map<Uuid, u32>, records: seq<DogRecord>): (m: map<Uuid, u32>)
    ensures m.Keys == Ids(records)
  {
    map id | id in ById(records) :: if id in ages then ages[id] else ById(records)[id].age
  }

  lemma {:induction false} ReconciledById(ages: map<Uuid, u32>, records: seq<DogRecord>)
    ensures LastOf(Reconciled(ages, records)) == Supplied(ages, records)
  {
    if records != [] {
      var n := |records| - 1;
      ReconciledById(ages, records[..n]);
      assert Reconciled(ages, records)[..n] == Reconciled(ages, records[..n]);
      SuppliedSnoc(ages, records);
    }
  }

  lemma SuppliedSnoc(ages: map<Uuid, u32>, records: seq<DogRecord>)
    requires records != []
    ensures
      var n := |records| - 1;
      Supplied(ages, records) == Supplied(ages, records[..n])[records[n].id := Reconciled(ages, records)[n].1]
  {
  }

  /** With nothing remembered, every record is seeded. */
  lemma SeedsById(records: seq<DogRecord>)
    ensures LastOf(Seeds(records)) == Supplied(map[], records)
  {
    assert Seeds(records) == Reconciled(map[], records);
    ReconciledById(map[], records);
  }

  /** An image's ages are its list's, a repeated id keeping its last. */
  lemma ImageAges(entries: seq<(Uuid, u32)>)
    ensures FileAges(ImageOf(entries)) == LastOf(entries)
  {
    ImageRoundTrip(entries);
    FreshFileHoldsTheList(entries);
  }

  /**
   In both branches of `open`, every supplied id reads the file's committed age for that id, or
   its own seed when the file has none. When nothing was missing the file is not touched; when
   something was, the new file holds the supplied ids and no others.
   */
  lemma OpenReads(b: seq<byte>, records: seq<DogRecord>)
    requires |b| >= 12
    ensures
      var c := OpenImage(b, records);
      && (forall id | id in Ids(records) ::
            id in FileAges(c) && FileAges(c)[id] == Supplied(FileAges(b), records)[id])
      && (Ids(records) <= FileAges(b).Keys ==> c == b)
      && (!(Ids(records) <= FileAges(b).Keys) ==> FileAges(c).Keys == Ids(records))
  {
    ReconciledById(FileAges(b), records);
    ImageAges(Reconciled(FileAges(b), records));
  }

  /** Reopening with the same records changes no byte. */
  lemma OpenIsIdempotent(b: seq<byte>, records: seq<DogRecord>)
    requires |b| >= 12
    ensures OpenImage(OpenImage(b, records), records) == OpenImage(b, records)
  {
    OpenReads(b, records);
  }

  // ----- crashes during the rewrite -----

  /** How many writes come before the rename: the temp file's creation and its bytes. */
  function WritesOf(records: seq<DogRecord>): nat {
    13 + 21 * |records|
  }

  /** The file a crash inside an open leaves at the path. */
  function LeftByCrash(b: seq<byte>, records: seq<DogRecord>, writes: nat): (c: seq<byte>)
    requires |b| >= 12
    ensures |c| >= 12
    ensures c == if writes > WritesOf(records) then OpenImage(b, records) else b
  {
    if Ids(records) <= FileAges(b).Keys then b
    else AfterWrites(DirImage(Some(b), None), OpenImage(b, records), writes).path.value
  }

  /**
   A crash anywhere in the rewrite leaves the whole old or the whole new image at the path, and
   opening what it left with the same records produces, byte for byte, the file an
   uninterrupted open would have.
   */
  lemma CrashDuringRewriteRecovers(b: seq<byte>, records: seq<DogRecord>, temp: Option<seq<byte>>, d: DirImage)
    requires |b| >= 12 && !(Ids(records) <= FileAges(b).Keys)
    requires DuringRewrite(d, DirImage(Some(b), temp), OpenImage(b, records))
    ensures d.path == Some(b) || d.path == Some(OpenImage(b, records))
    ensures OpenImage(d.path.value, records) == OpenImage(b, records)
  {
    OpenIsIdempotent(b, records);
  }

  // ----- whole runs -----

  datatype Op =
    | Create(records: seq<DogRecord>)
    | Update(id: Uuid, age: u32)
    | Reopen(records: seq<DogRecord>)
    // dies after so many of the rewrite's writes, then reopens
    | CrashInReopen(records: seq<DogRecord>, writes: nat, again: seq<DogRecord>)

  /** A store: the bytes of its file, and the ids it was built from. */
  datatype Store = Store(file: seq<byte>, ids: set<Uuid>)

  predicate Valid(s: Store) {
    |s.file| >= 12 && ReadHeader(s.file) == None && s.ids <= FileAges(s.file).Keys
  }

  function CreateStore(records: seq<DogRecord>): Store {
    Store(ImageOf(Seeds(records)), Ids(records))
  }

  function OpenStore(b: seq<byte>, records: seq<DogRecord>): Store
    requires |b| >= 12
  {
    Store(OpenImage(b, records), Ids(records))
  }

  /** `update_age`: a known id has its age bytes overwritten, an unknown one is refused. */
  function UpdateStore(s: Store, id: Uuid, age: u32): Store
    requires Valid(s)
  {
    if id in s.ids then
      IndexedSlot(SlotsIn(s.file), id);
      s.(file := WithAge(s.file, LastCommitted(SlotsIn(s.file))[id], age))
    else s
  }

  function StoreStep(s: Store, op: Op): Store
    requires Valid(s)
  {
    match op
    case Create(records) => CreateStore(records)
    case Update(id, age) => UpdateStore(s, id, age)
    case Reopen(records) => OpenStore(s.file, records)
    case CrashInReopen(records, writes, again) => OpenStore(LeftByCrash(s.file, records, writes), again)
  }

  /** The plain map: every age remembered, and which ids are visible. */
  datatype Plain = Plain(ages: map<Uuid, u32>, visible: set<Uuid>)

  function Get(p: Plain, id: Uuid): Option<u32> {
    if id in p.visible && id in p.ages then Some(p.ages[id]) else None
  }

  function PlainStep(p: Plain, op: Op): Plain {
    match op
    case Create(records) => Plain(Supplied(map[], records), Ids(records))
    case Update(id, age) => if id in p.visible then p.(ages := p.ages[id := age]) else p
    case Reopen(records) =>
      PlainOpen(p, records)
    case CrashInReopen(records, writes, again) =>
      PlainOpen(if writes > WritesOf(records) then PlainOpen(p, records) else p, again)
  }

  function PlainOpen(p: Plain, records: seq<DogRecord>): Plain {
    if Ids(records) <= p.ages.Keys then p.(visible := Ids(records))
    else Plain(Supplied(p.ages, records), Ids(records))
  }

  function Abstract(s: Store): Plain
    requires Valid(s)
  {
    Plain(FileAges(s.file), s.ids)
  }

  lemma StepRefines(s: Store, op: Op)
    requires Valid(s)
    ensures Valid(StoreStep(s, op))
    ensures Abstract(StoreStep(s, op)) == PlainStep(Abstract(s), op)
  {
    match op
    case Create(records) =>
      CreateRefines(records);
    case Update(id, age) =>
      UpdateRefines(s, id, age);
    case Reopen(records) =>
      OpenRefines(s, records);
    case CrashInReopen(records, writes, again) =>
      CrashRefines(s, records, writes, again);
  }

  lemma CrashRefines(s: Store, records: seq<DogRecord>, writes: nat, again: seq<DogRecord>)
    requires Valid(s)
    ensures
      var t := OpenStore(LeftByCrash(s.file, records, writes), again);
      Valid(t) && Abstract(t) == PlainStep(Abstract(s), CrashInReopen(records, writes, again))
  {
    OpenRefines(s, records);
    OpenRefines(if writes > WritesOf(records) then OpenStore(s.file, records) else s, again);
  }

  lemma CreateRefines(records: seq<DogRecord>)
    ensures Valid(CreateStore(records))
    ensures Abstract(CreateStore(records)) == Plain(Supplied(map[], records), Ids(records))
  {
    ImageRoundTrip(Seeds(records));
    ImageAges(Seeds(records));
    SeedsById(records);
  }

  lemma OpenRefines(s: Store, records: seq<DogRecord>)
    requires Valid(s)
    ensures Valid(OpenStore(s.file, records))
    ensures Abstract(OpenStore(s.file, records)) == PlainOpen(Abstract(s), records)
  {
    OpenReads(s.file, records);
    ReconciledById(FileAges(s.file), records);
    ImageRoundTrip(Reconciled(FileAges(s.file), records));
    ImageAges(Reconciled(FileAges(s.file), records));
  }

  lemma UpdateRefines(s: Store, id: Uuid, age: u32)
    requires Valid(s)
    ensures Valid(UpdateStore(s, id, age))
    ensures Abstract(UpdateStore(s, id, age)) == PlainStep(Abstract(s), Update(id, age))
    ensures LastCommitted(SlotsIn(UpdateStore(s, id, age).file)) == LastCommitted(SlotsIn(s.file))
  {
    if id in s.ids {
      AgeWriteUpdatesOneAge(s.file, id, age);
    }
  }

  /** Writing the indexed age of `id`: the header and the index stand, and one age changes. */
  lemma AgeWriteUpdatesOneAge(b: seq<byte>, id: Uuid, age: u32)
    requires |b| >= 12 && id in FileAges(b)
    ensures
      var p := LastCommitted(SlotsIn(b))[id];
      && p < CountOf(b)
      && ReadHeader(WithAge(b, p, age)) == ReadHeader(b)
      && LastCommitted(SlotsIn(WithAge(b, p, age))) == LastCommitted(SlotsIn(b))
      && FileAges(WithAge(b, p, age)) == FileAges(b)[id := age]
  {
    var slots := SlotsIn(b);
    IndexedSlot(slots, id);
    var p := LastCommitted(slots)[id];
    WithAgeWritesOneAge(b, p, age);
    OverwriteKeepsIndex(slots, p, age);
    OverwriteUpdatesOneValue(slots, id, age);
  }

  function RunStore(s: Store, ops: seq<Op>): Store
    requires Valid(s)
    ensures Valid(RunStore(s, ops))
    decreases |ops|
  {
    if ops == [] then s
    else
      StepRefines(s, ops[0]);
      RunStore(StoreStep(s, ops[0]), ops[1..])
  }

  function RunPlain(p: Plain, ops: seq<Op>): Plain
    decreases |ops|
  {
    if ops == [] then p else RunPlain(PlainStep(p, ops[0]), ops[1..])
  }

  /**
   Refinement over every run: after any sequence of creates, updates and reopens, with any record
   lists in any order, and opens cut off after any of their writes and run again with any list, the
   byte file holds exactly the plain map, so every id reads alike.
   */
  lemma {:induction false} RunRefines(s: Store, ops: seq<Op>)
    requires Valid(s)
    ensures Abstract(RunStore(s, ops)) == RunPlain(Abstract(s), ops)
    decreases |ops|
  {
    if ops != [] {
      StepRefines(s, ops[0]);
      RunRefines(StoreStep(s, ops[0]), ops[1..]);
    }
  }
}
