/**
 The fsync-per-write log store (src/durability/wal_fsync.rs). A checkpoint replaces the base
 snapshot and then truncates the log, two writes a crash can part; an open replays the whole log
 over the base. What makes the gap harmless is that replay over a base already containing the
 log changes nothing.
 */
module WalFsync {
  import opened Bytes
  import opened Folds
  import opened Framing
  import opened Records
  import opened Wal
  import opened CanonicalState
  import opened LogDirs

  type FsyncDisk = Disk<Option<State>>

  datatype Mem = Mem(state: State, nextSeq: nat)

  datatype OpenError = Serde | Store(error: StoreError)

  function Start(records: seq<DogRecord>, edges: seq<Edge>, base: Option<State>): State {
    if base.Some? then base.value else NewState(records, edges)
  }

  function NextSeq(entries: seq<WalEntry>): nat {
    if entries == [] then 0 else entries[|entries| - 1].seqNo + 1
  }

  function OpenMem(records: seq<DogRecord>, edges: seq<Edge>, d: FsyncDisk): Result<Mem, OpenError> {
    match ReadWal(d.wal)
    case Err(_) => Err(OpenError.Serde)
    case Ok(entries) =>
      match Replay(Start(records, edges, d.base), entries)
      case Err(e) => Err(Store(e))
      case Ok(replayed) => Ok(Mem(replayed, NextSeq(entries)))
  }

  function OpenDisk(d: FsyncDisk): FsyncDisk { if d.wal.Some? then d else d.(wal := Some([])) }

  function Entry(m: Mem, id: Uuid, age: u32): WalEntry
    requires m.nextSeq < U64_MODULUS
  {
    WalEntry(m.nextSeq, id, age)
  }

  function UpdateMem(m: Mem, id: Uuid, age: u32): Mem { Mem(WithAge(m.state, id, age), m.nextSeq + 1) }

  /** The directory between a checkpoint's two writes, and after both. */
  function MidCheckpoint(d: FsyncDisk, m: Mem): FsyncDisk { d.(base := Some(m.state)) }

  function AfterCheckpoint(d: FsyncDisk, m: Mem): FsyncDisk { Disk(Some(m.state), Some([])) }

  /**
   The log holds exactly `entries`, and applying them to the base gives the running state. The
   same reading describes the gap inside a checkpoint: the base then already contains them.
   */
  predicate Inv(records: seq<DogRecord>, edges: seq<Edge>, entries: seq<WalEntry>, d: FsyncDisk, state: State) {
    && d.wal == Some(Log(entries))
    && Consistent(Start(records, edges, d.base))
    && Start(records, edges, d.base).records.Keys == Ids(records)
    && state == Applied(Start(records, edges, d.base), entries)
  }

  lemma CreateKeeps(records: seq<DogRecord>, edges: seq<Edge>)
    ensures Inv(records, edges, [], Disk(None, Some([])), NewState(records, edges))
  {
    NewStateIsConsistent(records, edges);
  }

  lemma UpdateKeeps(records: seq<DogRecord>, edges: seq<Edge>, entries: seq<WalEntry>, d: FsyncDisk, m: Mem,
                    id: Uuid, age: u32)
    requires Inv(records, edges, entries, d, m.state) && m.nextSeq < U64_MODULUS
    ensures
      var e := Entry(m, id, age);
      Inv(records, edges, entries + [e], Appended(d, e), UpdateMem(m, id, age).state)
  {
    var e := Entry(m, id, age);
    FlattenSnoc(Frame, entries, e);
    FoldSnoc(Apply, Start(records, edges, d.base), entries, e);
  }

  /** Both states a checkpoint passes through describe the same running state. */
  lemma CheckpointKeeps(records: seq<DogRecord>, edges: seq<Edge>, entries: seq<WalEntry>, d: FsyncDisk, m: Mem)
    requires Inv(records, edges, entries, d, m.state)
    ensures Inv(records, edges, entries, MidCheckpoint(d, m), m.state)
    ensures Inv(records, edges, [], AfterCheckpoint(d, m), m.state)
  {
    AppliedIsConsistent(Start(records, edges, d.base), entries);
    ReplayIsIdempotent(Start(records, edges, d.base), entries);
  }

  /** An open gives back the running state exactly when every logged id is known. */
  lemma OpenRecoversIff(records: seq<DogRecord>, edges: seq<Edge>, entries: seq<WalEntry>, d: FsyncDisk, state: State)
    requires Inv(records, edges, entries, d, state)
    ensures
      if AllKnown(Ids(records), entries) then OpenMem(records, edges, d) == Ok(Mem(state, NextSeq(entries)))
      else OpenMem(records, edges, d).Err? && OpenMem(records, edges, d).error.Store?
  {
    WholeLogReadsBack(entries);
    ReplayIsApplied(Start(records, edges, d.base), entries);
  }

  lemma CrashedAppendOpens(records: seq<DogRecord>, edges: seq<Edge>, entries: seq<WalEntry>,
                           before: FsyncDisk, e: WalEntry, d: FsyncDisk)
    requires before.wal == Some(Log(entries)) && DuringAppend(d, before, e)
    ensures d != Appended(before, e) ==> OpenMem(records, edges, d) == OpenMem(records, edges, before)
  {
    var j :| 0 <= j <= 40 && d == PartlyAppended(before, e, j);
    CutAppendReads(entries, e, j);
    WholeLogReadsBack(entries);
    if j == 40 { assert Frame(e)[..40] == Frame(e); }
  }

  // ----- whole runs -----

  /** A reopen may be given other records and edges than the store was created with. */
  datatype Op =
    | Update(id: Uuid, age: u32)
    | Checkpoint
    | CrashInCheckpoint(records: seq<DogRecord>, edges: seq<Edge>) // dies between the two writes, then reopens
    | Reopen(records: seq<DogRecord>, edges: seq<Edge>)

  datatype Sys = Sys(disk: FsyncDisk, mem: Mem)

  function Reopened(records: seq<DogRecord>, edges: seq<Edge>, d: FsyncDisk): Option<Sys> {
    match OpenMem(records, edges, d)
    case Err(_) => None
    case Ok(m) => Some(Sys(OpenDisk(d), m))
  }

  /** One operation; `None` once an open has failed. */
  function Step(s: Sys, op: Op): Option<Sys>
    requires s.disk.wal.Some? && s.mem.nextSeq < U64_MODULUS
  {
    match op
    case Update(id, age) => Some(Sys(Appended(s.disk, Entry(s.mem, id, age)), UpdateMem(s.mem, id, age)))
    case Checkpoint => Some(Sys(AfterCheckpoint(s.disk, s.mem), s.mem))
    case CrashInCheckpoint(records, edges) => Reopened(records, edges, MidCheckpoint(s.disk, s.mem))
    case Reopen(records, edges) => Reopened(records, edges, s.disk)
  }

  /** A run from an empty directory. */
  function Run(records: seq<DogRecord>, edges: seq<Edge>, ops: seq<Op>): Option<Sys> {
    if ops == [] then Some(Sys(Disk(None, Some([])), Mem(NewState(records, edges), 0)))
    else
      match Run(records, edges, ops[..|ops| - 1])
      case None => None
      case Some(s) =>
        if s.disk.wal.Some? && s.mem.nextSeq < U64_MODULUS then Step(s, ops[|ops| - 1]) else None
  }

  // What a caller can tell of a run from its operations alone.

  /** Every update of a run, accepted or not, its sequence number left out. */
  function Updates(ops: seq<Op>): seq<WalEntry> {
    if ops == [] then []
    else
      var earlier := Updates(ops[..|ops| - 1]);
      match ops[|ops| - 1]
      case Update(id, age) => earlier + [WalEntry(0, id, age)]
      case _ => earlier
  }

  /** Those the log still holds: the ones since the last whole checkpoint. */
  function Pending(ops: seq<Op>): seq<WalEntry> {
    if ops == [] then []
    else
      var earlier := Pending(ops[..|ops| - 1]);
      match ops[|ops| - 1]
      case Update(id, age) => earlier + [WalEntry(0, id, age)]
      case Checkpoint => []
      case _ => earlier
  }

  /** A base snapshot has been written. */
  predicate Based(ops: seq<Op>) {
    ops != [] && (Based(ops[..|ops| - 1]) || ops[|ops| - 1].Checkpoint? || ops[|ops| - 1].CrashInCheckpoint?)
  }

  /** The lists the run builds on: a reopen's own count only while there is no base. */
  function InForce(records: seq<DogRecord>, edges: seq<Edge>, ops: seq<Op>): (seq<DogRecord>, seq<Edge>) {
    if ops == [] then (records, edges)
    else
      match ops[|ops| - 1]
      case Reopen(r, e) =>
        if Based(ops[..|ops| - 1]) then InForce(records, edges, ops[..|ops| - 1]) else (r, e)
      case _ => InForce(records, edges, ops[..|ops| - 1])
  }

  /** The sequential reference: every update, those of unknown ids left out, applied to the lists in force. */
  function Sequential(records: seq<DogRecord>, edges: seq<Edge>, ops: seq<Op>): State {
    var (r, e) := InForce(records, edges, ops);
    Applied(NewState(r, e), Updates(ops))
  }

  predicate Knows(records: seq<DogRecord>, edges: seq<Edge>, ops: seq<Op>, entries: seq<WalEntry>) {
    AllKnown(Ids(InForce(records, edges, ops).0), entries)
  }

  /** Some reopen, after a crash or not, finds an update pending of an id it does not know. */
  predicate FailsToOpen(records: seq<DogRecord>, edges: seq<Edge>, ops: seq<Op>) {
    ops != [] &&
    var before, last := ops[..|ops| - 1], ops[|ops| - 1];
    || FailsToOpen(records, edges, before)
    || ((last.Reopen? || last.CrashInCheckpoint?) && !Knows(records, edges, ops, Pending(before)))
  }

  // And what is so of every run.

  function Unnumbered(entries: seq<WalEntry>): seq<WalEntry> {
    if entries == [] then []
    else Unnumbered(entries[..|entries| - 1]) + [entries[|entries| - 1].(seqNo := 0)]
  }

  lemma UnnumberedSnoc(entries: seq<WalEntry>, e: WalEntry)
    ensures Unnumbered(entries + [e]) == Unnumbered(entries) + [e.(seqNo := 0)]
  {
    assert (entries + [e])[..|entries|] == entries;
  }

  lemma {:induction false} NumbersDoNotMatter(s: State, ids: set<Uuid>, entries: seq<WalEntry>)
    ensures Applied(s, Unnumbered(entries)) == Applied(s, entries)
    ensures AllKnown(ids, Unnumbered(entries)) <==> AllKnown(ids, entries)
  {
    if entries != [] {
      var n := |entries| - 1;
      var last := entries[n];
      NumbersDoNotMatter(s, ids, entries[..n]);
      assert entries == entries[..n] + [last];
      FoldSnoc(Apply, s, entries[..n], last);
      FoldSnoc(Apply, s, Unnumbered(entries[..n]), last.(seqNo := 0));
      AllKnownSnoc(ids, entries[..n], last);
      AllKnownSnoc(ids, Unnumbered(entries[..n]), last.(seqNo := 0));
    }
  }

  ghost predicate Holds(records: seq<DogRecord>, edges: seq<Edge>, ops: seq<Op>, entries: seq<WalEntry>, s: Sys) {
    var (r, e) := InForce(records, edges, ops);
    && Inv(r, e, entries, s.disk, s.mem.state)
    && s.mem.state == Applied(NewState(r, e), Updates(ops))
    && Unnumbered(entries) == Pending(ops)
    && (s.disk.base.Some? <==> Based(ops))
    && (!Based(ops) ==> Pending(ops) == Updates(ops))
    && NextSeq(entries) <= s.mem.nextSeq <= |ops|
    && Numbered(entries, s.mem.nextSeq)
  }

  lemma UpdateHolds(records: seq<DogRecord>, edges: seq<Edge>, ops: seq<Op>, entries: seq<WalEntry>, s: Sys)
    requires 0 < |ops| < U64_MODULUS && ops[|ops| - 1].Update?
    requires Holds(records, edges, ops[..|ops| - 1], entries, s)
    ensures
      var Update(id, age) := ops[|ops| - 1];
      Holds(records, edges, ops, entries + [Entry(s.mem, id, age)], Step(s, ops[|ops| - 1]).value)
  {
    var Update(id, age) := ops[|ops| - 1];
    var before := ops[..|ops| - 1];
    var (r, e) := InForce(records, edges, before);
    UpdateKeeps(r, e, entries, s.disk, s.mem, id, age);
    UnnumberedSnoc(entries, Entry(s.mem, id, age));
    FoldSnoc(Apply, NewState(r, e), Updates(before), WalEntry(0, id, age));
  }

  lemma CheckpointHolds(records: seq<DogRecord>, edges: seq<Edge>, ops: seq<Op>, entries: seq<WalEntry>, s: Sys)
    requires 0 < |ops| < U64_MODULUS && ops[|ops| - 1].Checkpoint?
    requires Holds(records, edges, ops[..|ops| - 1], entries, s)
    ensures Holds(records, edges, ops, [], Step(s, ops[|ops| - 1]).value)
  {
    var (r, e) := InForce(records, edges, ops[..|ops| - 1]);
    CheckpointKeeps(r, e, entries, s.disk, s.mem);
  }

  /** An open over a base takes no notice of the lists it is given. */
  lemma BaseOverrides(r: seq<DogRecord>, e: seq<Edge>, r2: seq<DogRecord>, e2: seq<Edge>, d: FsyncDisk)
    requires d.base.Some?
    ensures OpenMem(r, e, d) == OpenMem(r2, e2, d)
  {
  }

  /** What a reopen makes of the directory, whichever lists it is given over a base. */
  lemma ReopensTo(r: seq<DogRecord>, e: seq<Edge>, r2: seq<DogRecord>, e2: seq<Edge>, entries: seq<WalEntry>,
                  d: FsyncDisk, state: State, pending: seq<WalEntry>)
    requires Inv(r, e, entries, d, state) && (d.base.Some? || (r2 == r && e2 == e)) && Unnumbered(entries) == pending
    ensures Reopened(r2, e2, d)
            == if AllKnown(Ids(r), pending) then Some(Sys(d, Mem(state, NextSeq(entries)))) else None
  {
    if d.base.Some? { BaseOverrides(r, e, r2, e2, d); }
    OpenRecoversIff(r, e, entries, d, state);
    NumbersDoNotMatter(state, Ids(r), entries);
  }

  lemma CrashHolds(records: seq<DogRecord>, edges: seq<Edge>, ops: seq<Op>, entries: seq<WalEntry>, s: Sys)
    requires 0 < |ops| < U64_MODULUS && ops[|ops| - 1].CrashInCheckpoint?
    requires Holds(records, edges, ops[..|ops| - 1], entries, s)
    ensures Step(s, ops[|ops| - 1]).None? <==> !Knows(records, edges, ops, Pending(ops[..|ops| - 1]))
    ensures Step(s, ops[|ops| - 1]).Some? ==> Holds(records, edges, ops, entries, Step(s, ops[|ops| - 1]).value)
  {
    var CrashInCheckpoint(r2, e2) := ops[|ops| - 1];
    var before := ops[..|ops| - 1];
    var (r, e) := InForce(records, edges, before);
    CheckpointKeeps(r, e, entries, s.disk, s.mem);
    ReopensTo(r, e, r2, e2, entries, MidCheckpoint(s.disk, s.mem), s.mem.state, Pending(before));
  }

  lemma ReopenHolds(records: seq<DogRecord>, edges: seq<Edge>, ops: seq<Op>, entries: seq<WalEntry>, s: Sys)
    requires 0 < |ops| < U64_MODULUS && ops[|ops| - 1].Reopen?
    requires Holds(records, edges, ops[..|ops| - 1], entries, s)
    ensures Step(s, ops[|ops| - 1]).None? <==> !Knows(records, edges, ops, Pending(ops[..|ops| - 1]))
    ensures Step(s, ops[|ops| - 1]).Some? ==> Holds(records, edges, ops, entries, Step(s, ops[|ops| - 1]).value)
  {
    var Reopen(r2, e2) := ops[|ops| - 1];
    var before := ops[..|ops| - 1];
    var (r, e) := InForce(records, edges, ops);
    var (r1, e1) := InForce(records, edges, before);
    var state := RebasedInv(r1, e1, r, e, entries, s.disk, s.mem.state);
    NumbersDoNotMatter(NewState(r, e), Ids(r), entries);
    ReopensTo(r, e, r2, e2, entries, s.disk, state, Pending(before));
  }

  /** Without a base the log is the whole story, whichever lists it is told over. */
  lemma RebasedInv(r1: seq<DogRecord>, e1: seq<Edge>, r: seq<DogRecord>, e: seq<Edge>, entries: seq<WalEntry>,
                   d: FsyncDisk, before: State) returns (state: State)
    requires Inv(r1, e1, entries, d, before) && (d.base.Some? ==> r == r1 && e == e1)
    ensures Inv(r, e, entries, d, state)
    ensures state == if d.base.Some? then before else Applied(NewState(r, e), entries)
  {
    NewStateIsConsistent(r, e);
    state := if d.base.Some? then before else Applied(NewState(r, e), entries);
  }

  lemma StepHolds(records: seq<DogRecord>, edges: seq<Edge>, ops: seq<Op>, earlier: seq<WalEntry>, s: Sys)
    returns (entries: seq<WalEntry>)
    requires 0 < |ops| < U64_MODULUS && Holds(records, edges, ops[..|ops| - 1], earlier, s)
    ensures
      var before, last := ops[..|ops| - 1], ops[|ops| - 1];
      Step(s, last).None? <==>
        (last.Reopen? || last.CrashInCheckpoint?) && !Knows(records, edges, ops, Pending(before))
    ensures Step(s, ops[|ops| - 1]).Some? ==> Holds(records, edges, ops, entries, Step(s, ops[|ops| - 1]).value)
  {
    entries := earlier;
    match ops[|ops| - 1]
    case Update(id, age) =>
      entries := earlier + [Entry(s.mem, id, age)];
      UpdateHolds(records, edges, ops, earlier, s);
    case Checkpoint =>
      entries := [];
      CheckpointHolds(records, edges, ops, earlier, s);
    case CrashInCheckpoint(_, _) => CrashHolds(records, edges, ops, earlier, s);
    case Reopen(_, _) => ReopenHolds(records, edges, ops, earlier, s);
  }

  lemma {:induction false} RunHolds(records: seq<DogRecord>, edges: seq<Edge>, ops: seq<Op>)
    returns (entries: seq<WalEntry>)
    requires |ops| < U64_MODULUS
    ensures Run(records, edges, ops).None? <==> FailsToOpen(records, edges, ops)
    ensures Run(records, edges, ops).Some? ==> Holds(records, edges, ops, entries, Run(records, edges, ops).value)
  {
    entries := [];
    if ops == [] {
      CreateKeeps(records, edges);
    } else {
      var n := |ops| - 1;
      var earlier := RunHolds(records, edges, ops[..n]);
      var before := Run(records, edges, ops[..n]);
      if before.Some? {
        entries := StepHolds(records, edges, ops, earlier, before.value);
      }
    }
  }

  /**
   Over every run from an empty directory, reopened anywhere with any record lists, crashed or not
   between a checkpoint's two writes: an open fails exactly when an update pending since the last
   whole checkpoint has an id unknown to it; otherwise the store holds the sequential result.
   */
  lemma EveryRunIsSequential(records: seq<DogRecord>, edges: seq<Edge>, ops: seq<Op>)
    requires |ops| < U64_MODULUS
    ensures Run(records, edges, ops).None? <==> FailsToOpen(records, edges, ops)
    ensures Run(records, edges, ops).Some? ==>
              Run(records, edges, ops).value.mem.state == Sequential(records, edges, ops)
  {
    var entries := RunHolds(records, edges, ops);
  }

  /**
   What that store shows: each id of the lists in force its last record, with the last age of every update
   ever made of it, and nothing for any other id; each record's place in the cache holds the age.
   */
  lemma EveryRunShows(records: seq<DogRecord>, edges: seq<Edge>, ops: seq<Op>)
    requires |ops| < U64_MODULUS && Run(records, edges, ops).Some?
    ensures ShowsAfter(InForce(records, edges, ops).0, Sets(Updates(ops)), Run(records, edges, ops).value.mem.state)
  {
    var (r, e) := InForce(records, edges, ops);
    EveryRunIsSequential(records, edges, ops);
    AppliedShows(r, e, Updates(ops));
  }

  /** The log a run leaves reads back numbered one by one, and the next entry follows on. */
  lemma EveryRunNumbersInOrder(records: seq<DogRecord>, edges: seq<Edge>, ops: seq<Op>)
    requires |ops| < U64_MODULUS && Run(records, edges, ops).Some?
    ensures
      var s := Run(records, edges, ops).value;
      ReadWal(s.disk.wal).Ok? && Numbered(ReadWal(s.disk.wal).value, s.mem.nextSeq)
  {
    var entries := RunHolds(records, edges, ops);
    WholeLogReadsBack(entries);
  }

  /** While the store stays open its numbers go up by one with each update, accepted or not, and never back. */
  lemma NumbersOnlyGrow(records: seq<DogRecord>, edges: seq<Edge>, ops: seq<Op>, op: Op)
    requires |ops| + 1 < U64_MODULUS && Run(records, edges, ops).Some? && (op.Update? || op.Checkpoint?)
    ensures Run(records, edges, ops + [op]).Some?
    ensures Run(records, edges, ops + [op]).value.mem.nextSeq
            == Run(records, edges, ops).value.mem.nextSeq + if op.Update? then 1 else 0
  {
    var entries := RunHolds(records, edges, ops);
    RunSnoc(records, edges, ops, op);
  }

  /** Opened over an empty directory, the store is the one a create would make. */
  lemma FirstOpen(records: seq<DogRecord>, edges: seq<Edge>)
    ensures OpenMem(records, edges, Disk(None, None)) == Ok(Mem(NewState(records, edges), 0))
    ensures OpenDisk(Disk(None, None)) == Disk(None, Some([]))
  {
  }

  /**
   A run ended by a crash inside an append, and opened again with any lists: the store is the one a
   reopen would give after the run without that update, or with it once the whole frame is there.
   */
  lemma TornAppendEndsARun(records: seq<DogRecord>, edges: seq<Edge>, ops: seq<Op>, id: Uuid, age: u32,
                           d: FsyncDisk, r: seq<DogRecord>, e: seq<Edge>)
    requires |ops| + 2 < U64_MODULUS && Run(records, edges, ops).Some?
    requires Run(records, edges, ops).value.mem.nextSeq < U64_MODULUS
    requires
      var s := Run(records, edges, ops).value;
      DuringAppend(d, s.disk, Entry(s.mem, id, age))
    ensures
      var s := Run(records, edges, ops).value;
      var done := if d == Appended(s.disk, Entry(s.mem, id, age)) then ops + [Update(id, age)] else ops;
      var reopened := Run(records, edges, done + [Reopen(r, e)]);
      && (OpenMem(r, e, d).Ok? <==> reopened.Some?)
      && (reopened.Some? ==> OpenMem(r, e, d) == Ok(reopened.value.mem))
  {
    var s := Run(records, edges, ops).value;
    if d == Appended(s.disk, Entry(s.mem, id, age)) {
      WholeAppendEndsARun(records, edges, ops, id, age, r, e);
    } else {
      var entries := RunHolds(records, edges, ops);
      CrashedAppendOpens(r, e, entries, s.disk, Entry(s.mem, id, age), d);
      RunSnoc(records, edges, ops, Reopen(r, e));
    }
  }

  lemma WholeAppendEndsARun(records: seq<DogRecord>, edges: seq<Edge>, ops: seq<Op>, id: Uuid, age: u32,
                            r: seq<DogRecord>, e: seq<Edge>)
    requires |ops| + 2 < U64_MODULUS && Run(records, edges, ops).Some?
    requires
      var s := Run(records, edges, ops).value;
      s.disk.wal.Some? && s.mem.nextSeq < U64_MODULUS
    ensures
      var s := Run(records, edges, ops).value;
      var d := Appended(s.disk, Entry(s.mem, id, age));
      var reopened := Run(records, edges, ops + [Update(id, age)] + [Reopen(r, e)]);
      && (OpenMem(r, e, d).Ok? <==> reopened.Some?)
      && (reopened.Some? ==> OpenMem(r, e, d) == Ok(reopened.value.mem))
  {
    RunSnoc(records, edges, ops, Update(id, age));
    var more := RunHolds(records, edges, ops + [Update(id, age)]);
    RunSnoc(records, edges, ops + [Update(id, age)], Reopen(r, e));
  }

  lemma RunSnoc(records: seq<DogRecord>, edges: seq<Edge>, ops: seq<Op>, op: Op)
    requires Run(records, edges, ops).Some?
    requires
      var s := Run(records, edges, ops).value;
      s.disk.wal.Some? && s.mem.nextSeq < U64_MODULUS
    ensures Run(records, edges, ops + [op]) == Step(Run(records, edges, ops).value, op)
  {
    assert (ops + [op])[..|ops|] == ops;
  }

  /**
   `create` truncates the log and nothing else: a base snapshot an earlier store left comes back at
   the next open, which gives the created store only when that snapshot is its very state.
   */
  lemma CreateOverOldDirectoryIff(records: seq<DogRecord>, edges: seq<Edge>, d: FsyncDisk)
    ensures OpenMem(records, edges, d.(wal := Some([]))) == Ok(Mem(NewState(records, edges), 0))
            <==> d.base == None || d.base == Some(NewState(records, edges))
  {
    WholeLogReadsBack([]);
  }

  /** One update of an unknown id, refused to its caller, is logged all the same, and the next open fails. */
  lemma RefusedUpdateBlocksTheNextOpen(records: seq<DogRecord>, edges: seq<Edge>, entries: seq<WalEntry>,
                                       d: FsyncDisk, m: Mem, id: Uuid, age: u32)
    requires Inv(records, edges, entries, d, m.state) && m.nextSeq < U64_MODULUS && AllKnown(Ids(records), entries)
    ensures UpdateState(m.state, id, age).Err? <==> id !in Ids(records)
    ensures OpenMem(records, edges, Appended(d, Entry(m, id, age))).Err? <==> id !in Ids(records)
  {
    var e := Entry(m, id, age);
    AppliedIsConsistent(Start(records, edges, d.base), entries);
    UpdateKeepsConsistent(m.state, id, age);
    UpdateKeeps(records, edges, entries, d, m, id, age);
    OpenRecoversIff(records, edges, entries + [e], Appended(d, e), UpdateMem(m, id, age).state);
    AllKnownSnoc(Ids(records), entries, e);
  }

  // ----- updates after a torn tail -----

  /**
   An update appended after a torn tail: the next open cannot read the log, or opens as if the log held
   the entries before the tear and at most one more, made of bytes of both frames.
   */
  lemma AfterTearOpens(records: seq<DogRecord>, edges: seq<Edge>, entries: seq<WalEntry>, d: FsyncDisk,
                       next: WalEntry, j: nat, later: WalEntry)
    requires d.wal == Some(Log(entries)) && 0 < j < 40
    ensures
      OpenMem(records, edges, Appended(PartlyAppended(d, next, j), later))
      == match AfterTear(next, j, later)
         case Err(_) => Err(OpenError.Serde)
         case Ok(more) => OpenMem(records, edges, d.(wal := Some(Log(entries + more))))
  {
    TornLogReadsAs(entries, next, j, later);
  }

  /** The directory opens, and shows this age for the id. */
  predicate ShowsAge(records: seq<DogRecord>, edges: seq<Edge>, d: FsyncDisk, id: Uuid, age: u32) {
    match OpenMem(records, edges, d)
    case Err(_) => false
    case Ok(m) => id in m.state.records && m.state.records[id].age == age
  }

  lemma ShowsOldOrPhantom(records: seq<DogRecord>, edges: seq<Edge>, entries: seq<WalEntry>, d: FsyncDisk,
                          next: WalEntry, j: nat, later: WalEntry, before: u32)
    requires d.wal == Some(Log(entries)) && 0 < j < 40 && Consistent(Start(records, edges, d.base))
    requires ShowsAge(records, edges, d, later.id, before)
    requires ShowsAge(records, edges, Appended(PartlyAppended(d, next, j), later), later.id, later.age)
    ensures later.age == before || PhantomAge(next, j, later.seqNo, later.id) == Some(later.age)
  {
    AfterTearOpens(records, edges, entries, d, next, j, later);
    OnlyThePhantomIsRead(next, j, later);
    var more := AfterTear(next, j, later).value;
    if more == [] {
      assert entries + more == entries;
    } else {
      assert more == [more[0]];
      OneMoreShows(records, edges, entries, d, more[0], later.id, before, later.age);
    }
  }

  lemma OneMoreShows(records: seq<DogRecord>, edges: seq<Edge>, entries: seq<WalEntry>, d: FsyncDisk,
                     p: WalEntry, id: Uuid, before: u32, age: u32)
    requires d.wal == Some(Log(entries)) && Consistent(Start(records, edges, d.base))
    requires ShowsAge(records, edges, d, id, before)
    requires ShowsAge(records, edges, d.(wal := Some(Log(entries + [p]))), id, age)
    ensures age == if p.id == id then p.age else before
  {
    var start := Start(records, edges, d.base);
    WholeLogReadsBack(entries);
    WholeLogReadsBack(entries + [p]);
    ReplayIsApplied(start, entries);
    AppliedIsConsistent(start, entries);
    OneMoreReplayed(start, entries, p, id);
  }

  /**
   A run cut short inside an append, reopened with any lists and given one more update: of all the ages
   that update can set but the one already there, at most one is there after the next open.
   */
  lemma AtMostOneAgeSurvivesATear(records: seq<DogRecord>, edges: seq<Edge>, ops: seq<Op>, lost: (Uuid, u32), j: nat,
                                  r: seq<DogRecord>, e: seq<Edge>, id: Uuid, before: u32, a: u32, b: u32)
    requires |ops| < U64_MODULUS && Run(records, edges, ops).Some? && 0 < j < 40
    requires
      var s := Run(records, edges, ops).value;
      && s.disk.wal.Some? && s.mem.nextSeq < U64_MODULUS
      && var torn := PartlyAppended(s.disk, Entry(s.mem, lost.0, lost.1), j);
      ShowsAge(r, e, torn, id, before) && OpenMem(r, e, torn).value.nextSeq < U64_MODULUS
    requires a != before && b != before
    ensures
      var s := Run(records, edges, ops).value;
      var torn := PartlyAppended(s.disk, Entry(s.mem, lost.0, lost.1), j);
      var m := OpenMem(r, e, torn).value;
      && ShowsAge(r, e, Appended(torn, Entry(m, id, a)), id, a)
      && ShowsAge(r, e, Appended(torn, Entry(m, id, b)), id, b)
      ==> a == b
  {
    var s := Run(records, edges, ops).value;
    var next := Entry(s.mem, lost.0, lost.1);
    var torn := PartlyAppended(s.disk, next, j);
    var entries := RunHolds(records, edges, ops);
    NewStateIsConsistent(r, e);
    assert Frame(next)[..40] == Frame(next);
    CrashedAppendOpens(r, e, entries, s.disk, next, torn);
    var m := OpenMem(r, e, torn).value;
    if ShowsAge(r, e, Appended(torn, Entry(m, id, a)), id, a) {
      ShowsOldOrPhantom(r, e, entries, s.disk, next, j, Entry(m, id, a), before);
    }
    if ShowsAge(r, e, Appended(torn, Entry(m, id, b)), id, b) {
      ShowsOldOrPhantom(r, e, entries, s.disk, next, j, Entry(m, id, b), before);
    }
  }
}
