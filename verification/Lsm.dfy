/**
 The LSM-style store (src/durability/lsm_store.rs): a memtable of age overrides with its log, and
 immutable numbered generations a flush leaves behind. A flush is three writes: the generation's
 file, the count of generations, the truncated log.
 */
module Lsm {
  import opened Bytes
  import opened Histories
  import opened Framing
  import opened Records
  import opened Wal
  import opened LogDirs

  type Overrides = map<Uuid, u32>

  /** The generation files by number, and the count file. */
  datatype Files = Files(ssts: map<nat, Overrides>, generations: Option<nat>)

  type LsmDisk = Disk<Files>

  datatype Mem = Mem(memtable: Overrides, flushed: nat, nextSeq: nat)

  /** A generation the count promises whose file is not there. */
  datatype ResolveError = Io

  // ----- what each operation does -----

  function EmptyDisk(): LsmDisk { Disk(Files(map[], None), None) }

  function GenerationCount(f: Files): nat { if f.generations.Some? then f.generations.value else 0 }

  /** The memtable a log replays to: each id's last logged age. */
  function Memtable(entries: seq<WalEntry>): Overrides {
    if entries == [] then map[]
    else Memtable(entries[..|entries| - 1])[entries[|entries| - 1].id := entries[|entries| - 1].age]
  }

  function NextSeq(entries: seq<WalEntry>): nat {
    if entries == [] then 0 else entries[|entries| - 1].seqNo + 1
  }

  function OpenMem(d: LsmDisk): Result<Mem, ReadError> {
    match ReadWal(d.wal)
    case Err(e) => Err(e)
    case Ok(entries) => Ok(Mem(Memtable(entries), GenerationCount(d.base), NextSeq(entries)))
  }

  function OpenDisk(d: LsmDisk): LsmDisk { if d.wal.Some? then d else d.(wal := Some([])) }

  function Entry(m: Mem, id: Uuid, age: u32): WalEntry
    requires m.nextSeq < U64_MODULUS
  {
    WalEntry(m.nextSeq, id, age)
  }

  function UpdateMem(m: Mem, id: Uuid, age: u32): Mem {
    m.(memtable := m.memtable[id := age], nextSeq := m.nextSeq + 1)
  }

  function FlushMem(m: Mem): Mem { Mem(map[], m.flushed + 1, m.nextSeq) }

  /** The directory after the first `writes` of a flush's three writes (all of them from three on). */
  function FlushDisk(d: LsmDisk, m: Mem, writes: nat): LsmDisk {
    var written := d.base.ssts[m.flushed := m.memtable];
    if writes == 0 then d
    else if writes == 1 then d.(base := d.base.(ssts := written))
    else
      var counted := Files(written, Some(m.flushed + 1));
      if writes == 2 then d.(base := counted) else Disk(counted, Some([]))
  }

  /** Memtable first, then generations newest to oldest, then the base record. */
  function Resolve(f: Files, m: Mem, records: map<Uuid, DogRecord>, id: Uuid): Result<Option<u32>, ResolveError> {
    if id in m.memtable then Ok(Some(m.memtable[id]))
    else ResolveIn(f, m.flushed, records, id)
  }

  function ResolveIn(f: Files, generation: nat, records: map<Uuid, DogRecord>, id: Uuid)
    : Result<Option<u32>, ResolveError>
  {
    if generation == 0 then Ok(if id in records then Some(records[id].age) else None)
    else if generation - 1 !in f.ssts then Err(Io)
    else if id in f.ssts[generation - 1] then Ok(Some(f.ssts[generation - 1][id]))
    else ResolveIn(f, generation - 1, records, id)
  }

  /** What each known id resolves to, for those that resolve. */
  function ResolvedAges(f: Files, m: Mem, records: map<Uuid, DogRecord>): map<Uuid, u32> {
    map id | id in records && Resolve(f, m, records, id).Ok? && Resolve(f, m, records, id).value.Some? ::
      Resolve(f, m, records, id).value.value
  }

  lemma KnownIdsResolveOrFail(f: Files, m: Mem, records: map<Uuid, DogRecord>, id: Uuid)
    requires id in records
    ensures Resolve(f, m, records, id).Err? || Resolve(f, m, records, id).value.Some?
  {
    KnownIdsResolveIn(f, m.flushed, records, id);
  }

  lemma {:induction false} KnownIdsResolveIn(f: Files, count: nat, records: map<Uuid, DogRecord>, id: Uuid)
    requires id in records
    ensures ResolveIn(f, count, records, id).Err? || ResolveIn(f, count, records, id).value.Some?
  {
    if count > 0 {
      KnownIdsResolveIn(f, count - 1, records, id);
    }
  }

  // ----- the invariant -----

  /** The first `count` generations laid over one another, later ones winning. */
  function Layered(f: Files, count: nat): Overrides {
    if count == 0 then map[]
    else if count - 1 in f.ssts then Layered(f, count - 1) + f.ssts[count - 1]
    else Layered(f, count - 1)
  }

  predicate AllPresent(f: Files, count: nat) {
    forall g: nat | g < count :: g in f.ssts
  }

  /** Log, generations and memtable together hold exactly `overrides`. */
  predicate Inv(overrides: Overrides, entries: seq<WalEntry>, d: LsmDisk, m: Mem) {
    && d.wal == Some(Log(entries))
    && m.memtable == Memtable(entries)
    && m.flushed == GenerationCount(d.base)
    && AllPresent(d.base, m.flushed)
    && Layered(d.base, m.flushed) + m.memtable == overrides
  }

  /** Going down from the newest, generation `g` is the first without a file, and none above it has the id. */
  predicate FailsAt(f: Files, count: nat, id: Uuid, g: nat) {
    g < count && g !in f.ssts && forall h: nat | g < h < count :: h in f.ssts && id !in f.ssts[h]
  }

  /** A resolution fails exactly when the memtable lacks the id and a missing file is met before the id is. */
  lemma ResolveFailsIff(f: Files, m: Mem, records: map<Uuid, DogRecord>, id: Uuid)
    ensures Resolve(f, m, records, id).Err? <==> id !in m.memtable && exists g: nat :: FailsAt(f, m.flushed, id, g)
  {
    ResolveInFailsIff(f, m.flushed, records, id);
  }

  lemma {:induction false} ResolveInFailsIff(f: Files, count: nat, records: map<Uuid, DogRecord>, id: Uuid)
    ensures ResolveIn(f, count, records, id).Err? <==> exists g: nat :: FailsAt(f, count, id, g)
  {
    if count > 0 {
      var newest := count - 1;
      ResolveInFailsIff(f, newest, records, id);
      if newest !in f.ssts {
        assert FailsAt(f, count, id, newest);
      } else if id !in f.ssts[newest] {
        if g: nat :| FailsAt(f, newest, id, g) { assert FailsAt(f, count, id, g); }
        if g: nat :| FailsAt(f, count, id, g) { assert FailsAt(f, newest, id, g); }
      }
    }
  }

  lemma {:induction false} ResolveInReadsLayers(f: Files, count: nat, records: map<Uuid, DogRecord>, id: Uuid)
    requires AllPresent(f, count)
    ensures ResolveIn(f, count, records, id)
            == Ok(if id in Layered(f, count) then Some(Layered(f, count)[id])
                  else if id in records then Some(records[id].age) else None)
  {
    if count > 0 {
      assert count - 1 in f.ssts;
      ResolveInReadsLayers(f, count - 1, records, id);
    }
  }

  /** `resolve_age` reads the override when there is one, otherwise the base age. */
  lemma ResolveReadsOverrides(overrides: Overrides, entries: seq<WalEntry>, d: LsmDisk, m: Mem,
                              records: map<Uuid, DogRecord>, id: Uuid)
    requires Inv(overrides, entries, d, m)
    ensures Resolve(d.base, m, records, id)
            == Ok(if id in overrides then Some(overrides[id])
                  else if id in records then Some(records[id].age) else None)
  {
    ResolveInReadsLayers(d.base, m.flushed, records, id);
  }

  /** A scan has for each known id its override when there is one, otherwise its base age; none fails to resolve. */
  lemma ScanReadsOverrides(overrides: Overrides, entries: seq<WalEntry>, d: LsmDisk, m: Mem,
                           records: map<Uuid, DogRecord>)
    requires Inv(overrides, entries, d, m)
    ensures ResolvedAges(d.base, m, records)
            == map id | id in records :: if id in overrides then overrides[id] else records[id].age
  {
    forall id | id in records
      ensures Resolve(d.base, m, records, id) == Ok(Some(if id in overrides then overrides[id] else records[id].age))
    {
      ResolveReadsOverrides(overrides, entries, d, m, records, id);
    }
  }

  lemma {:induction false} LayersIgnoreLaterFiles(f: Files, g: Files, count: nat)
    requires forall n: nat | n < count :: (n in f.ssts <==> n in g.ssts) && (n in f.ssts ==> f.ssts[n] == g.ssts[n])
    ensures Layered(f, count) == Layered(g, count)
  {
    if count > 0 {
      LayersIgnoreLaterFiles(f, g, count - 1);
    }
  }

  lemma MemtableSnoc(entries: seq<WalEntry>, e: WalEntry)
    ensures Memtable(entries + [e]) == Memtable(entries)[e.id := e.age]
  {
    assert (entries + [e])[..|entries|] == entries;
  }

  lemma UpdateKeeps(overrides: Overrides, entries: seq<WalEntry>, d: LsmDisk, m: Mem, id: Uuid, age: u32)
    requires Inv(overrides, entries, d, m) && m.nextSeq < U64_MODULUS
    ensures
      var e := Entry(m, id, age);
      Inv(overrides[id := age], entries + [e], Appended(d, e), UpdateMem(m, id, age))
  {
    FlattenSnoc(Frame, entries, Entry(m, id, age));
    MemtableSnoc(entries, Entry(m, id, age));
    assert Layered(d.base, m.flushed) + m.memtable[id := age] == overrides[id := age];
  }

  lemma OpenKeeps(overrides: Overrides, entries: seq<WalEntry>, d: LsmDisk, m: Mem)
    requires Inv(overrides, entries, d, m)
    ensures OpenMem(d).Ok? && OpenDisk(d) == d
    ensures Inv(overrides, entries, d, OpenMem(d).value)
  {
    WholeLogReadsBack(entries);
  }

  /**
   A flush cut off after any number of its writes, and reopened, holds what it held before. After
   all three it also holds it without the log.
   */
  lemma FlushKeeps(overrides: Overrides, entries: seq<WalEntry>, d: LsmDisk, m: Mem, writes: nat)
    requires Inv(overrides, entries, d, m)
    ensures OpenMem(FlushDisk(d, m, writes)).Ok?
    ensures
      var left := if writes >= 3 then [] else entries;
      Inv(overrides, left, FlushDisk(d, m, writes), OpenMem(FlushDisk(d, m, writes)).value)
    ensures Inv(overrides, [], FlushDisk(d, m, 3), FlushMem(m))
  {
    FlushLayers(d, m);
    var layers := Layered(d.base, m.flushed);
    assert layers + m.memtable + map[] == layers + m.memtable;
    if writes >= 3 {
      OpenKeeps(overrides, [], FlushDisk(d, m, 3), FlushMem(m));
    } else if writes == 2 {
      assert layers + m.memtable + m.memtable == layers + m.memtable;
      OpenKeeps(overrides, entries, FlushDisk(d, m, 2), m.(flushed := m.flushed + 1));
    } else {
      LayersIgnoreLaterFiles(d.base, FlushDisk(d, m, 1).base, m.flushed);
      OpenKeeps(overrides, entries, FlushDisk(d, m, writes), m);
    }
  }

  lemma FlushLayers(d: LsmDisk, m: Mem)
    requires AllPresent(d.base, m.flushed)
    ensures
      var f := FlushDisk(d, m, 2).base;
      && FlushDisk(d, m, 3).base == f
      && GenerationCount(f) == m.flushed + 1
      && AllPresent(f, m.flushed + 1)
      && Layered(f, m.flushed + 1) == Layered(d.base, m.flushed) + m.memtable
  {
    LayersIgnoreLaterFiles(d.base, FlushDisk(d, m, 2).base, m.flushed);
  }

  /** A crash inside an append: the directory opens with the override, or as if it were never asked for. */
  lemma CrashedAppendKeeps(overrides: Overrides, entries: seq<WalEntry>, before: LsmDisk, m: Mem,
                           id: Uuid, age: u32, d: LsmDisk)
    requires Inv(overrides, entries, before, m) && m.nextSeq < U64_MODULUS
    requires DuringAppend(d, before, Entry(m, id, age))
    ensures d != Appended(before, Entry(m, id, age)) ==> OpenMem(d) == OpenMem(before)
    ensures OpenMem(d).Ok?
    ensures Layered(d.base, OpenMem(d).value.flushed) + OpenMem(d).value.memtable
            == if d == Appended(before, Entry(m, id, age)) then overrides[id := age] else overrides
  {
    var e := Entry(m, id, age);
    var j :| 0 <= j <= 40 && d == PartlyAppended(before, e, j);
    assert Frame(e)[..40] == Frame(e);
    CutAppendReads(entries, e, j);
    WholeLogReadsBack(entries);
    if d == Appended(before, e) {
      UpdateKeeps(overrides, entries, before, m, id, age);
      OpenKeeps(overrides[id := age], entries + [e], d, UpdateMem(m, id, age));
    }
  }

  // ----- whole runs -----

  datatype Op =
    | Update(id: Uuid, age: u32)
    | Flush
    | CrashInFlush(writes: nat, records: seq<DogRecord>) // dies after so many writes, then reopens
    | Reopen(records: seq<DogRecord>)

  datatype Sys = Sys(disk: LsmDisk, mem: Mem, records: map<Uuid, DogRecord>)

  function Start(records: seq<DogRecord>): Sys {
    Sys(EmptyDisk().(wal := Some([])), Mem(map[], 0, 0), ById(records))
  }

  function Reopened(d: LsmDisk, records: seq<DogRecord>): Option<Sys> {
    match OpenMem(d)
    case Err(_) => None
    case Ok(m) => Some(Sys(OpenDisk(d), m, ById(records)))
  }

  /** One operation. An update of an unknown id is refused before anything is logged. */
  function Step(s: Sys, op: Op): Option<Sys>
    requires s.disk.wal.Some? && s.mem.nextSeq < U64_MODULUS
  {
    match op
    case Update(id, age) =>
      if id !in s.records then Some(s)
      else Some(s.(disk := Appended(s.disk, Entry(s.mem, id, age)), mem := UpdateMem(s.mem, id, age)))
    case Flush => Some(s.(disk := FlushDisk(s.disk, s.mem, 3), mem := FlushMem(s.mem)))
    case CrashInFlush(writes, records) => Reopened(FlushDisk(s.disk, s.mem, writes), records)
    case Reopen(records) => Reopened(s.disk, records)
  }

  function Run(records: seq<DogRecord>, ops: seq<Op>): Option<Sys> {
    if ops == [] then Some(Start(records))
    else
      match Run(records, ops[..|ops| - 1])
      case None => None
      case Some(s) =>
        if s.disk.wal.Some? && s.mem.nextSeq < U64_MODULUS then Step(s, ops[|ops| - 1]) else None
  }

  /** The reference: the last accepted age of each id, and the records last opened with. */
  datatype Plain = Plain(overrides: Overrides, records: map<Uuid, DogRecord>)

  function RunPlain(records: seq<DogRecord>, ops: seq<Op>): Plain {
    if ops == [] then Plain(map[], ById(records))
    else
      var p := RunPlain(records, ops[..|ops| - 1]);
      match ops[|ops| - 1]
      case Update(id, age) => if id in p.records then p.(overrides := p.overrides[id := age]) else p
      case Flush => p
      case CrashInFlush(_, again) => p.(records := ById(again))
      case Reopen(again) => p.(records := ById(again))
  }

  ghost predicate Holds(p: Plain, entries: seq<WalEntry>, s: Sys, steps: nat) {
    && Inv(p.overrides, entries, s.disk, s.mem)
    && s.records == p.records
    && NextSeq(entries) <= s.mem.nextSeq <= steps
    && Numbered(entries, s.mem.nextSeq)
  }

  lemma StepHolds(p: Plain, entries: seq<WalEntry>, s: Sys, op: Op, steps: nat) returns (after: seq<WalEntry>)
    requires Holds(p, entries, s, steps) && steps < U64_MODULUS
    ensures Step(s, op).Some?
    ensures
      var q :=
        match op
        case Update(id, age) => if id in p.records then p.(overrides := p.overrides[id := age]) else p
        case Flush => p
        case CrashInFlush(_, again) => p.(records := ById(again))
        case Reopen(again) => p.(records := ById(again));
      Holds(q, after, Step(s, op).value, steps + 1)
  {
    after := entries;
    match op
    case Update(id, age) =>
      if id in s.records {
        UpdateKeeps(p.overrides, entries, s.disk, s.mem, id, age);
        after := entries + [Entry(s.mem, id, age)];
      }
    case Flush =>
      FlushKeeps(p.overrides, entries, s.disk, s.mem, 3);
      after := [];
    case CrashInFlush(writes, _) =>
      FlushKeeps(p.overrides, entries, s.disk, s.mem, writes);
      WholeLogReadsBack(entries);
      WholeLogReadsBack([]);
      if writes >= 3 { after := []; }
    case Reopen(_) =>
      OpenKeeps(p.overrides, entries, s.disk, s.mem);
      WholeLogReadsBack(entries);
  }

  lemma {:induction false} RunHolds(records: seq<DogRecord>, ops: seq<Op>) returns (entries: seq<WalEntry>)
    requires |ops| < U64_MODULUS
    ensures Run(records, ops).Some?
    ensures Holds(RunPlain(records, ops), entries, Run(records, ops).value, |ops|)
  {
    if ops == [] {
      entries := [];
    } else {
      var n := |ops| - 1;
      var earlier := RunHolds(records, ops[..n]);
      entries := StepHolds(RunPlain(records, ops[..n]), earlier, Run(records, ops[..n]).value, ops[n], n);
    }
  }

  /**
   Over every run from an empty directory, with flushes cut off after any of their writes and
   reopens with any records: `resolve_age` gives each id its last accepted age, or failing that
   the age of the record the store was last opened with.
   */
  lemma EveryRunResolves(records: seq<DogRecord>, ops: seq<Op>, id: Uuid)
    requires |ops| < U64_MODULUS
    ensures Run(records, ops).Some?
    ensures
      var s, p := Run(records, ops).value, RunPlain(records, ops);
      Resolve(s.disk.base, s.mem, s.records, id)
      == Ok(if id in p.overrides then Some(p.overrides[id])
            else if id in p.records then Some(p.records[id].age) else None)
  {
    var entries := RunHolds(records, ops);
    var s, p := Run(records, ops).value, RunPlain(records, ops);
    ResolveReadsOverrides(p.overrides, entries, s.disk, s.mem, s.records, id);
  }

  /** The list a run was last opened with. */
  function InForce(records: seq<DogRecord>, ops: seq<Op>): seq<DogRecord> {
    if ops == [] then records
    else
      match ops[|ops| - 1]
      case CrashInFlush(_, again) => again
      case Reopen(again) => again
      case _ => InForce(records, ops[..|ops| - 1])
  }

  /** The updates accepted: those of ids in the list in force. */
  function Accepted(records: seq<DogRecord>, ops: seq<Op>): seq<(Uuid, u32)> {
    if ops == [] then []
    else
      var before, last := ops[..|ops| - 1], ops[|ops| - 1];
      Accepted(records, before)
      + if last.Update? && Listed(InForce(records, before), last.id) then [(last.id, last.age)] else []
  }

  lemma {:induction false} PlainIsHistory(records: seq<DogRecord>, ops: seq<Op>)
    ensures RunPlain(records, ops) == Plain(LastOf(Accepted(records, ops)), ById(InForce(records, ops)))
  {
    if ops != [] {
      var before, last := ops[..|ops| - 1], ops[|ops| - 1];
      PlainIsHistory(records, before);
      if last.Update? {
        var sets := Accepted(records, before);
        ByIdLists(InForce(records, before), last.id);
        assert (sets + [(last.id, last.age)])[..|sets|] == sets;
        assert sets + [] == sets;
      } else {
        assert Accepted(records, ops) == Accepted(records, before);
      }
    }
  }

  /**
   After every such run a scan has one age for each id of the list last opened with and none for any other:
   the last age accepted for it in the whole run, or failing that the age it is listed with.
   */
  lemma EveryRunScans(records: seq<DogRecord>, ops: seq<Op>)
    requires |ops| < U64_MODULUS
    ensures Run(records, ops).Some?
    ensures
      var s, list := Run(records, ops).value, InForce(records, ops);
      && (forall id :: id in ResolvedAges(s.disk.base, s.mem, s.records) <==> Listed(list, id))
      && forall i | 0 <= i < |list| && LastRecord(list, i) ::
           && list[i].id in ResolvedAges(s.disk.base, s.mem, s.records)
           && ResolvedAges(s.disk.base, s.mem, s.records)[list[i].id]
              == SetLast(Accepted(records, ops), list[i].id, list[i].age)
  {
    var entries := RunHolds(records, ops);
    var s, list := Run(records, ops).value, InForce(records, ops);
    ScanReadsOverrides(RunPlain(records, ops).overrides, entries, s.disk, s.mem, s.records);
    PlainIsHistory(records, ops);
    forall id
      ensures id in ResolvedAges(s.disk.base, s.mem, s.records) <==> Listed(list, id)
    {
      ByIdLists(list, id);
    }
    forall i | 0 <= i < |list| && LastRecord(list, i)
      ensures list[i].id in ResolvedAges(s.disk.base, s.mem, s.records)
      ensures ResolvedAges(s.disk.base, s.mem, s.records)[list[i].id]
              == SetLast(Accepted(records, ops), list[i].id, list[i].age)
    {
      ByIdKeepsTheLast(list, i);
    }
  }

  /** The log a run leaves reads back numbered one by one, and the next entry follows on. */
  lemma EveryRunNumbersInOrder(records: seq<DogRecord>, ops: seq<Op>)
    requires |ops| < U64_MODULUS
    ensures Run(records, ops).Some?
    ensures
      var s := Run(records, ops).value;
      ReadWal(s.disk.wal).Ok? && Numbered(ReadWal(s.disk.wal).value, s.mem.nextSeq)
  {
    var entries := RunHolds(records, ops);
    WholeLogReadsBack(entries);
  }

  /** While the store stays open its numbers go up by one with each accepted update, and never back. */
  lemma NumbersOnlyGrow(records: seq<DogRecord>, ops: seq<Op>, op: Op)
    requires |ops| + 1 < U64_MODULUS && (op.Update? || op.Flush?)
    ensures Run(records, ops).Some? && Run(records, ops + [op]).Some?
    ensures Run(records, ops + [op]).value.mem.nextSeq
            == Run(records, ops).value.mem.nextSeq
               + if op.Update? && Listed(InForce(records, ops), op.id) then 1 else 0
  {
    var entries := RunHolds(records, ops);
    PlainIsHistory(records, ops);
    RunSnoc(records, ops, op);
    if op.Update? { ByIdLists(InForce(records, ops), op.id); }
  }

  /** Opened over an empty directory, the store has nothing in its memtable and starts its numbers at zero. */
  lemma FirstOpen(f: Files)
    requires f == Files(map[], None)
    ensures OpenMem(Disk(f, None)) == Ok(Mem(map[], 0, 0)) && OpenDisk(Disk(f, None)) == Disk(f, Some([]))
  {
  }

  /**
   A run ended by a crash inside an append, and opened again: memtable, generations and base files are
   those a reopen would find after the run without that update, or with it once the whole frame is there.
   */
  lemma TornAppendEndsARun(records: seq<DogRecord>, ops: seq<Op>, id: Uuid, age: u32, d: LsmDisk, again: seq<DogRecord>)
    requires |ops| + 2 < U64_MODULUS && Run(records, ops).Some?
    requires id in Run(records, ops).value.records && Run(records, ops).value.mem.nextSeq < U64_MODULUS
    requires
      var s := Run(records, ops).value;
      DuringAppend(d, s.disk, Entry(s.mem, id, age))
    ensures
      var s := Run(records, ops).value;
      var done := if d == Appended(s.disk, Entry(s.mem, id, age)) then ops + [Update(id, age)] else ops;
      var reopened := Run(records, done + [Reopen(again)]);
      && reopened.Some?
      && OpenMem(d) == Ok(reopened.value.mem)
      && d.base == reopened.value.disk.base
  {
    var s := Run(records, ops).value;
    var entries := RunHolds(records, ops);
    CrashedAppendKeeps(RunPlain(records, ops).overrides, entries, s.disk, s.mem, id, age, d);
    if d == Appended(s.disk, Entry(s.mem, id, age)) {
      WholeAppendEndsARun(records, ops, id, age, again);
    } else {
      RunSnoc(records, ops, Reopen(again));
    }
  }

  lemma WholeAppendEndsARun(records: seq<DogRecord>, ops: seq<Op>, id: Uuid, age: u32, again: seq<DogRecord>)
    requires |ops| + 2 < U64_MODULUS && Run(records, ops).Some?
    requires
      var s := Run(records, ops).value;
      s.disk.wal.Some? && s.mem.nextSeq < U64_MODULUS && id in s.records
    ensures
      var d := Appended(Run(records, ops).value.disk, Entry(Run(records, ops).value.mem, id, age));
      var reopened := Run(records, ops + [Update(id, age)] + [Reopen(again)]);
      && (OpenMem(d).Ok? <==> reopened.Some?)
      && (reopened.Some? ==> OpenMem(d) == Ok(reopened.value.mem) && d.base == reopened.value.disk.base)
  {
    RunSnoc(records, ops, Update(id, age));
    var more := RunHolds(records, ops + [Update(id, age)]);
    RunSnoc(records, ops + [Update(id, age)], Reopen(again));
  }

  lemma RunSnoc(records: seq<DogRecord>, ops: seq<Op>, op: Op)
    requires Run(records, ops).Some?
    requires Run(records, ops).value.disk.wal.Some? && Run(records, ops).value.mem.nextSeq < U64_MODULUS
    ensures Run(records, ops + [op]) == Step(Run(records, ops).value, op)
  {
    assert (ops + [op])[..|ops|] == ops;
  }

  // ----- creating over an old directory -----

  /**
   `create` truncates the log and nothing else. The store it returns reads base ages; reopening it
   reads whatever generations an earlier store left. The two agree on every id exactly when the old
   generations override no known id with another age.
   */
  lemma CreateOverOldDirectoryIff(d: LsmDisk, records: map<Uuid, DogRecord>)
    requires AllPresent(d.base, GenerationCount(d.base))
    ensures
      var created, reopened := Mem(map[], 0, 0), OpenMem(d.(wal := Some([])));
      && reopened.Ok?
      && ((forall id | id in records ::
             Resolve(d.base, created, records, id) == Resolve(d.base, reopened.value, records, id))
          <==> forall id | id in records && id in Layered(d.base, GenerationCount(d.base)) ::
                 Layered(d.base, GenerationCount(d.base))[id] == records[id].age)
  {
    WholeLogReadsBack([]);
    forall id | id in records
      ensures Resolve(d.base, Mem(map[], 0, 0), records, id) == Ok(Some(records[id].age))
      ensures Resolve(d.base, OpenMem(d.(wal := Some([]))).value, records, id)
              == Ok(Some(if id in Layered(d.base, GenerationCount(d.base))
                         then Layered(d.base, GenerationCount(d.base))[id] else records[id].age))
    {
      ResolveInReadsLayers(d.base, GenerationCount(d.base), records, id);
    }
  }

  // ----- updates after a torn tail -----

  /**
   An update appended after a torn tail: the next open cannot read the log, or opens as if the log held
   the entries before the tear and at most one more, made of bytes of both frames.
   */
  lemma AfterTearOpens(entries: seq<WalEntry>, d: LsmDisk, next: WalEntry, j: nat, later: WalEntry)
    requires d.wal == Some(Log(entries)) && 0 < j < 40
    ensures
      OpenMem(Appended(PartlyAppended(d, next, j), later))
      == match AfterTear(next, j, later)
         case Err(err) => Err(err)
         case Ok(more) => OpenMem(d.(wal := Some(Log(entries + more))))
  {
    TornLogReadsAs(entries, next, j, later);
  }

  /** The directory opens, and resolves the id to this age. */
  predicate ShowsAge(records: map<Uuid, DogRecord>, d: LsmDisk, id: Uuid, age: u32) {
    match OpenMem(d)
    case Err(_) => false
    case Ok(m) => Resolve(d.base, m, records, id) == Ok(Some(age))
  }

  lemma ShowsOldOrPhantom(records: map<Uuid, DogRecord>, entries: seq<WalEntry>, d: LsmDisk,
                          next: WalEntry, j: nat, later: WalEntry, before: u32)
    requires d.wal == Some(Log(entries)) && 0 < j < 40
    requires ShowsAge(records, d, later.id, before)
    requires ShowsAge(records, Appended(PartlyAppended(d, next, j), later), later.id, later.age)
    ensures later.age == before || PhantomAge(next, j, later.seqNo, later.id) == Some(later.age)
  {
    AfterTearOpens(entries, d, next, j, later);
    OnlyThePhantomIsRead(next, j, later);
    var more := AfterTear(next, j, later).value;
    if more == [] {
      assert entries + more == entries;
    } else {
      assert more == [more[0]];
      OneMoreShows(records, entries, d, more[0], later.id, before, later.age);
    }
  }

  lemma OneMoreShows(records: map<Uuid, DogRecord>, entries: seq<WalEntry>, d: LsmDisk, p: WalEntry,
                     id: Uuid, before: u32, age: u32)
    requires d.wal == Some(Log(entries)) && ShowsAge(records, d, id, before)
    requires ShowsAge(records, d.(wal := Some(Log(entries + [p]))), id, age)
    ensures age == if p.id == id then p.age else before
  {
    WholeLogReadsBack(entries);
    WholeLogReadsBack(entries + [p]);
    MemtableSnoc(entries, p);
  }

  /**
   A run cut short inside an append, reopened with any records and given one more update: of all the ages
   that update can set but the one already there, at most one is there after the next open.
   */
  lemma AtMostOneAgeSurvivesATear(records: seq<DogRecord>, ops: seq<Op>, lost: (Uuid, u32), j: nat,
                                  again: map<Uuid, DogRecord>, id: Uuid, before: u32, a: u32, b: u32)
    requires |ops| < U64_MODULUS && Run(records, ops).Some? && 0 < j < 40
    requires
      var s := Run(records, ops).value;
      && s.disk.wal.Some? && s.mem.nextSeq < U64_MODULUS
      && var torn := PartlyAppended(s.disk, Entry(s.mem, lost.0, lost.1), j);
      ShowsAge(again, torn, id, before) && OpenMem(torn).value.nextSeq < U64_MODULUS
    requires a != before && b != before
    ensures
      var s := Run(records, ops).value;
      var torn := PartlyAppended(s.disk, Entry(s.mem, lost.0, lost.1), j);
      var m := OpenMem(torn).value;
      && ShowsAge(again, Appended(torn, Entry(m, id, a)), id, a)
      && ShowsAge(again, Appended(torn, Entry(m, id, b)), id, b)
      ==> a == b
  {
    var s := Run(records, ops).value;
    var next := Entry(s.mem, lost.0, lost.1);
    var torn := PartlyAppended(s.disk, next, j);
    var entries := RunHolds(records, ops);
    CutAppendReads(entries, next, j);
    WholeLogReadsBack(entries);
    var m := OpenMem(torn).value;
    if ShowsAge(again, Appended(torn, Entry(m, id, a)), id, a) {
      ShowsOldOrPhantom(again, entries, s.disk, next, j, Entry(m, id, a), before);
    }
    if ShowsAge(again, Appended(torn, Entry(m, id, b)), id, b) {
      ShowsOldOrPhantom(again, entries, s.disk, next, j, Entry(m, id, b), before);
    }
  }
}
