/**
 The snapshot-plus-log store (src/durability/hybrid.rs). A checkpoint writes the whole state with
 the sequence number of the last entry it covers and leaves the log alone; an open restores the
 snapshot and replays only the entries after that number.
 */
module Hybrid {
  import opened Bytes
  import opened Folds
  import opened Framing
  import opened Records
  import opened Wal
  import opened CanonicalState
  import opened LogDirs

  datatype Snapshot = Snapshot(cutoff: Option<u64>, state: State)

  type HybridDisk = Disk<Option<Snapshot>>

  /** A running store: its state and the number its next entry will carry. */
  datatype Mem = Mem(state: State, nextSeq: nat)

  datatype OpenError = Serde | Store(error: StoreError)

  // ----- what each operation does -----

  function EmptyDisk(): HybridDisk { Disk(None, None) }

  function CreateDisk(d: HybridDisk): HybridDisk { d.(wal := Some([])) }

  function CreateMem(records: seq<DogRecord>, edges: seq<Edge>): Mem { Mem(NewState(records, edges), 0) }

  function AfterCutoff(cutoff: Option<u64>, entries: seq<WalEntry>): seq<WalEntry> {
    if entries == [] then []
    else
      (if cutoff == None || entries[0].seqNo > cutoff.value then [entries[0]] else [])
      + AfterCutoff(cutoff, entries[1..])
  }

  /** One more than the largest sequence number in the log. */
  function NextSeq(entries: seq<WalEntry>): nat {
    if entries == [] then 0
    else
      var n := NextSeq(entries[..|entries| - 1]);
      var s := entries[|entries| - 1].seqNo + 1;
      if n >= s then n else s
  }

  function OpenMem(records: seq<DogRecord>, edges: seq<Edge>, d: HybridDisk): Result<Mem, OpenError> {
    match ReadWal(d.wal)
    case Err(_) => Err(OpenError.Serde)
    case Ok(entries) => ReplayAfter(Start(records, edges, d.base), Cutoff(d.base), entries)
  }

  /** The snapshot's state, or the caller's records when there is no snapshot. */
  function Start(records: seq<DogRecord>, edges: seq<Edge>, base: Option<Snapshot>): State {
    if base.Some? then base.value.state else NewState(records, edges)
  }

  function Cutoff(base: Option<Snapshot>): Option<u64> {
    if base.Some? then base.value.cutoff else None
  }

  function ReplayAfter(start: State, cutoff: Option<u64>, entries: seq<WalEntry>): Result<Mem, OpenError> {
    match Replay(start, AfterCutoff(cutoff, entries))
    case Err(e) => Err(Store(e))
    case Ok(replayed) => Ok(Mem(replayed, NextSeq(entries)))
  }

  function OpenDisk(d: HybridDisk): HybridDisk { if d.wal.Some? then d else d.(wal := Some([])) }

  /** The entry an update logs, whether or not the id turns out to be known. */
  function Entry(m: Mem, id: Uuid, age: u32): WalEntry
    requires m.nextSeq < U64_MODULUS
  {
    WalEntry(m.nextSeq, id, age)
  }

  function UpdateMem(m: Mem, id: Uuid, age: u32): Mem { Mem(WithAge(m.state, id, age), m.nextSeq + 1) }

  function SnapshotOf(m: Mem): Snapshot
    requires m.nextSeq <= U64_MODULUS
  {
    Snapshot(if m.nextSeq == 0 then None else Some(m.nextSeq - 1), m.state)
  }

  // ----- the invariant -----

  /** How many entries a snapshot covers. */
  function Covered(base: Option<Snapshot>): nat {
    if base.None? || base.value.cutoff.None? then 0 else base.value.cutoff.value + 1
  }

  /**
   `entries` have been logged since the directory was empty: they are the whole log, numbered
   from zero without a gap, and the running state is the base with all of them applied. A
   snapshot covers entries already logged, and is the base with exactly those applied.
   */
  predicate Inv(base: State, entries: seq<WalEntry>, d: HybridDisk, m: Mem) {
    && d.wal == Some(Log(entries))
    && (forall i | 0 <= i < |entries| :: entries[i].seqNo == i)
    && m == Mem(Applied(base, entries), |entries|)
    && Covered(d.base) <= |entries| <= U64_MODULUS
    && (d.base.Some? ==> d.base.value.state == Applied(base, entries[..Covered(d.base)]))
  }

  lemma CreateKeeps(records: seq<DogRecord>, edges: seq<Edge>)
    ensures Inv(NewState(records, edges), [], CreateDisk(EmptyDisk()), CreateMem(records, edges))
  {
  }

  lemma UpdateKeeps(base: State, entries: seq<WalEntry>, d: HybridDisk, m: Mem, id: Uuid, age: u32)
    requires Inv(base, entries, d, m) && m.nextSeq < U64_MODULUS
    ensures Inv(base, entries + [Entry(m, id, age)], Appended(d, Entry(m, id, age)), UpdateMem(m, id, age))
  {
    var e := Entry(m, id, age);
    FlattenSnoc(Frame, entries, e);
    FoldSnoc(Apply, base, entries, e);
    assert (entries + [e])[..Covered(d.base)] == entries[..Covered(d.base)];
  }

  lemma CheckpointKeeps(base: State, entries: seq<WalEntry>, d: HybridDisk, m: Mem)
    requires Inv(base, entries, d, m)
    ensures Inv(base, entries, d.(base := Some(SnapshotOf(m))), m)
    ensures Covered(Some(SnapshotOf(m))) == |entries|
  {
    assert entries[..|entries|] == entries;
  }

  lemma {:induction false} CutoffSelectsSuffix(cutoff: Option<u64>, entries: seq<WalEntry>, first: nat)
    requires forall i | 0 <= i < |entries| :: entries[i].seqNo == first + i
    ensures
      var n := if cutoff == None || cutoff.value < first then 0 else cutoff.value + 1 - first;
      AfterCutoff(cutoff, entries) == if n <= |entries| then entries[n..] else []
  {
    if entries != [] {
      CutoffSelectsSuffix(cutoff, entries[1..], first + 1);
    }
  }

  /** Above every number in the log, and no higher than it must be, whatever order they stand in. */
  lemma {:induction false} NextSeqIsAboveAll(entries: seq<WalEntry>)
    ensures forall i | 0 <= i < |entries| :: entries[i].seqNo < NextSeq(entries)
    ensures NextSeq(entries) > 0 ==> exists i :: 0 <= i < |entries| && entries[i].seqNo + 1 == NextSeq(entries)
  {
    if entries != [] {
      var n := |entries| - 1;
      NextSeqIsAboveAll(entries[..n]);
      forall i | 0 <= i < n
        ensures entries[i].seqNo < NextSeq(entries)
      {
        assert entries[..n][i] == entries[i];
      }
      if NextSeq(entries) == NextSeq(entries[..n]) && NextSeq(entries) > 0 {
        var i :| 0 <= i < n && entries[..n][i].seqNo + 1 == NextSeq(entries[..n]);
        assert entries[i].seqNo + 1 == NextSeq(entries);
      } else {
        assert entries[n].seqNo + 1 == NextSeq(entries);
      }
    }
  }

  lemma {:induction false} NextSeqIsLength(entries: seq<WalEntry>)
    requires forall i | 0 <= i < |entries| :: entries[i].seqNo == i
    ensures NextSeq(entries) == |entries|
  {
    if entries != [] {
      NextSeqIsLength(entries[..|entries| - 1]);
    }
  }

  /**
   An open with any record list: the snapshot's state if there is one, the supplied list's otherwise,
   with every entry logged since applied; it succeeds exactly when those entries' ids are known there.
   With the list the store was built from, or over a snapshot, that is the running store.
   */
  lemma OpenRecoversIff(records: seq<DogRecord>, edges: seq<Edge>, base: State, entries: seq<WalEntry>,
                        d: HybridDisk, m: Mem)
    requires Inv(base, entries, d, m) && Consistent(base)
    ensures
      var start := if d.base.Some? then base else NewState(records, edges);
      if AllKnown(start.records.Keys, entries[Covered(d.base)..]) then
        OpenMem(records, edges, d) == Ok(Mem(Applied(start, entries), |entries|))
      else OpenMem(records, edges, d).Err? && OpenMem(records, edges, d).error.Store?
  {
    var start := if d.base.Some? then base else NewState(records, edges);
    WholeLogReadsBack(entries);
    NewStateIsConsistent(records, edges);
    CutoffSelectsSuffix(Cutoff(d.base), entries, 0);
    NextSeqIsLength(entries);
    SuffixReplay(start, entries, Covered(d.base));
    StartIsPrefix(records, edges, start, entries, d.base);
  }

  /** Where replay starts: the state in force with the covered entries applied. */
  lemma StartIsPrefix(records: seq<DogRecord>, edges: seq<Edge>, start: State, entries: seq<WalEntry>,
                      base: Option<Snapshot>)
    requires Covered(base) <= |entries|
    requires if base.Some? then base.value.state == Applied(start, entries[..Covered(base)])
             else start == NewState(records, edges)
    ensures Start(records, edges, base) == Applied(start, entries[..Covered(base)])
  {
    if base.None? { assert entries[..0] == []; }
  }

  /** Replaying a suffix over the applied prefix: all of it when its ids are known, else a failure. */
  lemma SuffixReplay(base: State, entries: seq<WalEntry>, n: nat)
    requires Consistent(base) && n <= |entries|
    ensures Replay(Applied(base, entries[..n]), entries[n..]).Ok? <==> AllKnown(base.records.Keys, entries[n..])
    ensures Replay(Applied(base, entries[..n]), entries[n..]).Ok? ==>
              Replay(Applied(base, entries[..n]), entries[n..]).value == Applied(base, entries)
  {
    AppliedIsConsistent(base, entries[..n]);
    ReplayIsApplied(Applied(base, entries[..n]), entries[n..]);
    FoldConcat(Apply, base, entries[..n], entries[n..]);
    assert entries[..n] + entries[n..] == entries;
  }

  /** A crash during an append leaves a directory that opens as before the update, unless the whole frame is there. */
  lemma CrashedAppendOpens(records: seq<DogRecord>, edges: seq<Edge>, entries: seq<WalEntry>,
                           before: HybridDisk, e: WalEntry, d: HybridDisk)
    requires before.wal == Some(Log(entries)) && DuringAppend(d, before, e)
    ensures d != Appended(before, e) ==> OpenMem(records, edges, d) == OpenMem(records, edges, before)
  {
    var j :| 0 <= j <= 40 && d == PartlyAppended(before, e, j);
    CutAppendReads(entries, e, j);
    WholeLogReadsBack(entries);
    if j == 40 { assert Frame(e)[..40] == Frame(e); }
  }

  // ----- whole runs -----

  /** A reopen may be given other records and edges than the store was created with. */
  datatype Op = Update(id: Uuid, age: u32) | Checkpoint | Reopen(records: seq<DogRecord>, edges: seq<Edge>)

  datatype Sys = Sys(disk: HybridDisk, mem: Mem)

  /** One operation; `None` once an open has failed. */
  function Step(s: Sys, op: Op): Option<Sys>
    requires s.disk.wal.Some? && s.mem.nextSeq < U64_MODULUS
  {
    match op
    case Update(id, age) => Some(Sys(Appended(s.disk, Entry(s.mem, id, age)), UpdateMem(s.mem, id, age)))
    case Checkpoint => Some(Sys(s.disk.(base := Some(SnapshotOf(s.mem))), s.mem))
    case Reopen(records, edges) =>
      match OpenMem(records, edges, s.disk)
      case Err(_) => None
      case Ok(m) => Some(Sys(OpenDisk(s.disk), m))
  }

  /** A run from an empty directory. */
  function Run(records: seq<DogRecord>, edges: seq<Edge>, ops: seq<Op>): Option<Sys> {
    if ops == [] then Some(Sys(CreateDisk(EmptyDisk()), CreateMem(records, edges)))
    else
      match Run(records, edges, ops[..|ops| - 1])
      case None => None
      case Some(s) =>
        if s.disk.wal.Some? && s.mem.nextSeq < U64_MODULUS then Step(s, ops[|ops| - 1]) else None
  }

  // What a caller can tell of a run from its operations alone.

  /** What a run logs: one entry per update, accepted or not, numbered in order. */
  function Logged(ops: seq<Op>): (entries: seq<WalEntry>)
    requires |ops| < U64_MODULUS
    ensures |entries| <= |ops|
    ensures forall i | 0 <= i < |entries| :: entries[i].seqNo == i
  {
    if ops == [] then []
    else
      var earlier := Logged(ops[..|ops| - 1]);
      match ops[|ops| - 1]
      case Update(id, age) => earlier + [WalEntry(|earlier|, id, age)]
      case _ => earlier
  }

  predicate Checkpointed(ops: seq<Op>) {
    exists i :: 0 <= i < |ops| && ops[i].Checkpoint?
  }

  /** The entries logged since the last checkpoint, or since the beginning. */
  function Pending(ops: seq<Op>): seq<WalEntry>
    requires |ops| < U64_MODULUS
  {
    if ops == [] then []
    else
      var earlier := Pending(ops[..|ops| - 1]);
      match ops[|ops| - 1]
      case Update(id, age) => earlier + [WalEntry(|Logged(ops[..|ops| - 1])|, id, age)]
      case Checkpoint => []
      case Reopen(_, _) => earlier
  }

  /** The lists the run builds on: a reopen's own count only while there is no snapshot. */
  function ListsInForce(records: seq<DogRecord>, edges: seq<Edge>, ops: seq<Op>): (seq<DogRecord>, seq<Edge>) {
    if ops == [] then (records, edges)
    else
      match ops[|ops| - 1]
      case Reopen(r, e) =>
        if Checkpointed(ops[..|ops| - 1]) then ListsInForce(records, edges, ops[..|ops| - 1]) else (r, e)
      case _ => ListsInForce(records, edges, ops[..|ops| - 1])
  }

  function InForce(records: seq<DogRecord>, edges: seq<Edge>, ops: seq<Op>): State {
    NewState(ListsInForce(records, edges, ops).0, ListsInForce(records, edges, ops).1)
  }

  /** Some reopen finds an entry pending of an id it does not know. */
  predicate FailsToOpen(records: seq<DogRecord>, edges: seq<Edge>, ops: seq<Op>)
    requires |ops| < U64_MODULUS
  {
    ops != [] &&
    var before := ops[..|ops| - 1];
    || FailsToOpen(records, edges, before)
    || (ops[|ops| - 1].Reopen? && !AllKnown(InForce(records, edges, ops).records.Keys, Pending(before)))
  }

  // And what is so of every run.

  ghost predicate Holds(records: seq<DogRecord>, edges: seq<Edge>, ops: seq<Op>, s: Sys)
    requires |ops| < U64_MODULUS
  {
    && Inv(InForce(records, edges, ops), Logged(ops), s.disk, s.mem)
    && Consistent(InForce(records, edges, ops))
    && Pending(ops) == Logged(ops)[Covered(s.disk.base)..]
    && (s.disk.base.Some? <==> Checkpointed(ops))
  }

  lemma CheckpointedSnoc(ops: seq<Op>)
    requires ops != []
    ensures Checkpointed(ops) <==> Checkpointed(ops[..|ops| - 1]) || ops[|ops| - 1].Checkpoint?
  {
    var before := ops[..|ops| - 1];
    if Checkpointed(before) {
      var i :| 0 <= i < |before| && before[i].Checkpoint?;
      assert ops[i].Checkpoint?;
    }
    if i :| 0 <= i < |ops| && ops[i].Checkpoint? {
      assert i < |before| ==> before[i].Checkpoint?;
    }
  }

  lemma UpdateHolds(records: seq<DogRecord>, edges: seq<Edge>, ops: seq<Op>, s: Sys)
    requires 0 < |ops| < U64_MODULUS && ops[|ops| - 1].Update?
    requires Holds(records, edges, ops[..|ops| - 1], s)
    ensures Holds(records, edges, ops, Step(s, ops[|ops| - 1]).value)
  {
    var Update(id, age) := ops[|ops| - 1];
    var before := ops[..|ops| - 1];
    UpdateKeeps(InForce(records, edges, before), Logged(before), s.disk, s.mem, id, age);
    CheckpointedSnoc(ops);
    SuffixSnoc(Logged(before), Entry(s.mem, id, age), Covered(s.disk.base));
  }

  lemma SuffixSnoc(entries: seq<WalEntry>, e: WalEntry, n: nat)
    requires n <= |entries|
    ensures (entries + [e])[n..] == entries[n..] + [e]
  {
  }

  lemma CheckpointHolds(records: seq<DogRecord>, edges: seq<Edge>, ops: seq<Op>, s: Sys)
    requires 0 < |ops| < U64_MODULUS && ops[|ops| - 1].Checkpoint?
    requires Holds(records, edges, ops[..|ops| - 1], s)
    ensures Holds(records, edges, ops, Step(s, ops[|ops| - 1]).value)
  {
    var before := ops[..|ops| - 1];
    CheckpointKeeps(InForce(records, edges, before), Logged(before), s.disk, s.mem);
    CheckpointedSnoc(ops);
  }

  lemma ReopenHolds(records: seq<DogRecord>, edges: seq<Edge>, ops: seq<Op>, s: Sys)
    requires 0 < |ops| < U64_MODULUS && ops[|ops| - 1].Reopen?
    requires Holds(records, edges, ops[..|ops| - 1], s)
    ensures Step(s, ops[|ops| - 1]).None?
            <==> !AllKnown(InForce(records, edges, ops).records.Keys, Pending(ops[..|ops| - 1]))
    ensures Step(s, ops[|ops| - 1]).Some? ==> Holds(records, edges, ops, Step(s, ops[|ops| - 1]).value)
  {
    var Reopen(r, e) := ops[|ops| - 1];
    var before := ops[..|ops| - 1];
    var start := InForce(records, edges, ops);
    CheckpointedSnoc(ops);
    ReopensTo(r, e, InForce(records, edges, before), Logged(before), s.disk, s.mem);
    NewStateIsConsistent(r, e);
    RebasedInv(InForce(records, edges, before), start, Logged(before), s.disk, s.mem);
  }

  /** What a reopen makes of the directory. */
  lemma ReopensTo(r: seq<DogRecord>, e: seq<Edge>, base: State, entries: seq<WalEntry>, d: HybridDisk, m: Mem)
    requires Inv(base, entries, d, m) && Consistent(base) && m.nextSeq < U64_MODULUS
    ensures
      var start := if d.base.Some? then base else NewState(r, e);
      Step(Sys(d, m), Reopen(r, e))
      == if AllKnown(start.records.Keys, entries[Covered(d.base)..])
         then Some(Sys(d, Mem(Applied(start, entries), |entries|))) else None
  {
    OpenRecoversIff(r, e, base, entries, d, m);
  }

  /** Without a snapshot the log is the whole story, whatever state it is told over. */
  lemma RebasedInv(base: State, start: State, entries: seq<WalEntry>, d: HybridDisk, m: Mem)
    requires Inv(base, entries, d, m) && (d.base.Some? ==> start == base)
    ensures Inv(start, entries, d, Mem(Applied(start, entries), |entries|))
  {
  }

  lemma {:induction false} RunHolds(records: seq<DogRecord>, edges: seq<Edge>, ops: seq<Op>)
    requires |ops| < U64_MODULUS
    ensures Run(records, edges, ops).None? <==> FailsToOpen(records, edges, ops)
    ensures Run(records, edges, ops).Some? ==> Holds(records, edges, ops, Run(records, edges, ops).value)
  {
    if ops == [] {
      CreateKeeps(records, edges);
      NewStateIsConsistent(records, edges);
    } else {
      var n := |ops| - 1;
      RunHolds(records, edges, ops[..n]);
      var before := Run(records, edges, ops[..n]);
      if before.Some? {
        match ops[n]
        case Update(_, _) => UpdateHolds(records, edges, ops, before.value);
        case Checkpoint => CheckpointHolds(records, edges, ops, before.value);
        case Reopen(_, _) => ReopenHolds(records, edges, ops, before.value);
      }
    }
  }

  /**
   Over every run from an empty directory, reopened with any record lists: an open fails exactly when
   an entry pending since the last checkpoint has an id unknown to it; otherwise the store always
   holds every update ever logged applied in order, those of unknown ids left out, to the records in
   force, whatever checkpoints and reopens came between.
   */
  lemma EveryRunIsSequential(records: seq<DogRecord>, edges: seq<Edge>, ops: seq<Op>)
    requires |ops| < U64_MODULUS
    ensures Run(records, edges, ops).None? <==> FailsToOpen(records, edges, ops)
    ensures Run(records, edges, ops).Some? ==>
              var s := Run(records, edges, ops).value;
              && s.mem == Mem(Applied(InForce(records, edges, ops), Logged(ops)), |Logged(ops)|)
              && Covered(s.disk.base) <= s.mem.nextSeq
              && (s.disk.base.Some? ==>
                    s.disk.base.value.state
                    == Applied(InForce(records, edges, ops), Logged(ops)[..Covered(s.disk.base)]))
  {
    RunHolds(records, edges, ops);
  }

  /**
   What that store shows: each id of the lists in force its last record, with the last age of every update
   ever made of it, and nothing for any other id; each record's place in the cache holds the age.
   */
  lemma EveryRunShows(records: seq<DogRecord>, edges: seq<Edge>, ops: seq<Op>)
    requires |ops| < U64_MODULUS && Run(records, edges, ops).Some?
    ensures ShowsAfter(ListsInForce(records, edges, ops).0, Sets(Logged(ops)),
                       Run(records, edges, ops).value.mem.state)
  {
    var (r, e) := ListsInForce(records, edges, ops);
    EveryRunIsSequential(records, edges, ops);
    AppliedShows(r, e, Logged(ops));
  }

  /** The log a run leaves reads back whole, numbered one by one from zero, and the next entry follows on. */
  lemma EveryRunNumbersInOrder(records: seq<DogRecord>, edges: seq<Edge>, ops: seq<Op>)
    requires |ops| < U64_MODULUS && Run(records, edges, ops).Some?
    ensures
      var s := Run(records, edges, ops).value;
      && ReadWal(s.disk.wal) == Ok(Logged(ops))
      && Numbered(Logged(ops), s.mem.nextSeq)
      && s.mem.nextSeq == |Logged(ops)|
  {
    RunHolds(records, edges, ops);
    WholeLogReadsBack(Logged(ops));
  }

  /** Opened over an empty directory, the store is the one a create would make. */
  lemma FirstOpen(records: seq<DogRecord>, edges: seq<Edge>)
    ensures OpenMem(records, edges, EmptyDisk()) == Ok(Mem(NewState(records, edges), 0))
    ensures OpenDisk(EmptyDisk()) == Disk(None, Some([]))
  {
  }

  /** With ids known to every list only, no run fails. */
  lemma {:induction false} KnownIdsNeverFail(records: seq<DogRecord>, edges: seq<Edge>, known: set<Uuid>, ops: seq<Op>)
    requires |ops| < U64_MODULUS && known <= Ids(records)
    requires forall i | 0 <= i < |ops| && ops[i].Update? :: ops[i].id in known
    requires forall i | 0 <= i < |ops| && ops[i].Reopen? :: known <= Ids(ops[i].records)
    ensures AllKnown(known, Pending(ops)) && known <= InForce(records, edges, ops).records.Keys
    ensures !FailsToOpen(records, edges, ops)
  {
    if ops != [] {
      var before := ops[..|ops| - 1];
      KnownIdsNeverFail(records, edges, known, before);
      if ops[|ops| - 1].Update? {
        AllKnownSnoc(known, Pending(before), WalEntry(|Logged(before)|, ops[|ops| - 1].id, ops[|ops| - 1].age));
      }
    }
  }

  /**
   A run ended by a crash inside an append, and opened again with any lists: the store is the one a
   reopen would give after the run without that update, or with it once the whole frame is there.
   */
  lemma TornAppendEndsARun(records: seq<DogRecord>, edges: seq<Edge>, ops: seq<Op>, id: Uuid, age: u32,
                           d: HybridDisk, r: seq<DogRecord>, e: seq<Edge>)
    requires |ops| + 2 < U64_MODULUS && Run(records, edges, ops).Some?
    requires Run(records, edges, ops).value.mem.nextSeq < U64_MODULUS
    requires
      var s := Run(records, edges, ops).value;
      DuringAppend(d, s.disk, Entry(s.mem, id, age))
    ensures
      var s := Run(records, edges, ops).value;
      var done := if d == Appended(s.disk, Entry(s.mem, id, age)) then ops + [Update(id, age)] else ops;
      var reopened := Run(records, edges, done + [Reopen(r, e)]);
      && (OpenMem(r, e, d).Ok? <==> reopened.Some?)
      && (reopened.Some? ==> OpenMem(r, e, d) == Ok(reopened.value.mem))
  {
    var s := Run(records, edges, ops).value;
    if d == Appended(s.disk, Entry(s.mem, id, age)) {
      WholeAppendEndsARun(records, edges, ops, id, age, r, e);
    } else {
      RunHolds(records, edges, ops);
      CrashedAppendOpens(r, e, Logged(ops), s.disk, Entry(s.mem, id, age), d);
      RunSnoc(records, edges, ops, Reopen(r, e));
    }
  }

  lemma WholeAppendEndsARun(records: seq<DogRecord>, edges: seq<Edge>, ops: seq<Op>, id: Uuid, age: u32,
                            r: seq<DogRecord>, e: seq<Edge>)
    requires |ops| + 2 < U64_MODULUS && Run(records, edges, ops).Some?
    requires
      var s := Run(records, edges, ops).value;
      s.disk.wal.Some? && s.mem.nextSeq < U64_MODULUS
    ensures
      var s := Run(records, edges, ops).value;
      var d := Appended(s.disk, Entry(s.mem, id, age));
      var reopened := Run(records, edges, ops + [Update(id, age)] + [Reopen(r, e)]);
      && (OpenMem(r, e, d).Ok? <==> reopened.Some?)
      && (reopened.Some? ==> OpenMem(r, e, d) == Ok(reopened.value.mem))
  {
    RunSnoc(records, edges, ops, Update(id, age));
    RunHolds(records, edges, ops + [Update(id, age)]);
    RunSnoc(records, edges, ops + [Update(id, age)], Reopen(r, e));
  }

  lemma RunSnoc(records: seq<DogRecord>, edges: seq<Edge>, ops: seq<Op>, op: Op)
    requires Run(records, edges, ops).Some?
    requires
      var s := Run(records, edges, ops).value;
      s.disk.wal.Some? && s.mem.nextSeq < U64_MODULUS
    ensures Run(records, edges, ops + [op]) == Step(Run(records, edges, ops).value, op)
  {
    assert (ops + [op])[..|ops|] == ops;
  }

  // ----- creating over an old directory -----

  /**
   `create` truncates the log and leaves an old snapshot where it was, cutoff and all, while its own
   numbering starts from zero again. The next open restores that snapshot and replays only the
   entries numbered past its cutoff: as many of the new store's first updates as the old snapshot
   covered are never replayed.
   */
  lemma CreateOverOldDirectoryOpens(records: seq<DogRecord>, edges: seq<Edge>, left: Snapshot, entries: seq<WalEntry>)
    requires Gapless(entries)
    ensures
      var n := Covered(Some(left));
      var replayed := Replay(left.state, if n <= |entries| then entries[n..] else []);
      OpenMem(records, edges, Disk(Some(left), Some(Log(entries))))
      == if replayed.Ok? then Ok(Mem(replayed.value, |entries|)) else Err(Store(replayed.error))
  {
    WholeLogReadsBack(entries);
    CutoffSelectsSuffix(left.cutoff, entries, 0);
    NextSeqIsLength(entries);
  }

  predicate Gapless(entries: seq<WalEntry>) {
    forall i | 0 <= i < |entries| :: entries[i].seqNo == i
  }

  /** After these updates the directory opens to the store that made them. */
  ghost predicate OpensToTheStore(records: seq<DogRecord>, edges: seq<Edge>, left: Snapshot, entries: seq<WalEntry>) {
    OpenMem(records, edges, Disk(Some(left), Some(Log(entries))))
    == Ok(Mem(Applied(NewState(records, edges), entries), |entries|))
  }

  /**
   Created over an old snapshot, a store keeps every update of known ids through the next open exactly
   when that snapshot is the new store's own state and covers nothing. (With no records there is
   nothing to update, and only the state matters.)
   */
  lemma CreateOverOldDirectoryIff(records: seq<DogRecord>, edges: seq<Edge>, left: Snapshot)
    ensures (forall entries | Gapless(entries) && AllKnown(Ids(records), entries) ::
               OpensToTheStore(records, edges, left, entries))
            <==> left.state == NewState(records, edges) && (left.cutoff == None || records == [])
  {
    if left.state == NewState(records, edges) && (left.cutoff == None || records == []) {
      forall entries | Gapless(entries) && AllKnown(Ids(records), entries)
        ensures OpensToTheStore(records, edges, left, entries)
      {
        UncoveredOpens(records, edges, left, entries);
      }
    } else {
      var lost := SomethingIsLost(records, edges, left);
    }
  }

  /** Otherwise some log of known ids opens to another state: the empty one, or one with a single update. */
  lemma SomethingIsLost(records: seq<DogRecord>, edges: seq<Edge>, left: Snapshot) returns (log: seq<WalEntry>)
    requires left.state != NewState(records, edges) || (left.cutoff.Some? && records != [])
    ensures Gapless(log) && AllKnown(Ids(records), log) && !OpensToTheStore(records, edges, left, log)
  {
    if left.state != NewState(records, edges) {
      log := [];
      CreateOverOldDirectoryOpens(records, edges, left, log);
    } else {
      var r := records[|records| - 1];
      var age: u32 := if r.age == 0 then 1 else 0;
      log := [WalEntry(0, r.id, age)];
      FirstUpdateIsLost(records, edges, left.cutoff.value, r.id, age);
    }
  }

  lemma UncoveredOpens(records: seq<DogRecord>, edges: seq<Edge>, left: Snapshot, entries: seq<WalEntry>)
    requires Gapless(entries) && AllKnown(Ids(records), entries)
    requires left.state == NewState(records, edges) && (left.cutoff == None || records == [])
    ensures OpensToTheStore(records, edges, left, entries)
  {
    CreateOverOldDirectoryOpens(records, edges, left, entries);
    NewStateIsConsistent(records, edges);
    ReplayIsApplied(left.state, entries);
    if records == [] { NothingKnown(entries); }
    assert entries[0..] == entries;
  }

  lemma NothingKnown(entries: seq<WalEntry>)
    requires AllKnown({}, entries)
    ensures entries == []
  {
    if entries != [] { AllKnownFirst({}, entries); }
  }

  /**
   The witness: over a snapshot of the very same state that covers anything, one update to another age
   is not there after the open.
   */
  lemma FirstUpdateIsLost(records: seq<DogRecord>, edges: seq<Edge>, cutoff: u64, id: Uuid, age: u32)
    requires id in ById(records) && age != ById(records)[id].age
    ensures
      var left, log := Snapshot(Some(cutoff), NewState(records, edges)), [WalEntry(0, id, age)];
      && OpenMem(records, edges, Disk(Some(left), Some(Log(log)))) == Ok(Mem(NewState(records, edges), 1))
      && !OpensToTheStore(records, edges, left, log)
    ensures NewState(records, edges) != WithAge(NewState(records, edges), id, age)
  {
    var s, e := NewState(records, edges), WalEntry(0, id, age);
    CreateOverOldDirectoryOpens(records, edges, Snapshot(Some(cutoff), s), [e]);
    OneUpdateShows(records, edges, e);
  }

  lemma OneUpdateShows(records: seq<DogRecord>, edges: seq<Edge>, e: WalEntry)
    requires e.id in ById(records) && e.age != ById(records)[e.id].age
    ensures
      var s := NewState(records, edges);
      Applied(s, [e]) == WithAge(s, e.id, e.age) && WithAge(s, e.id, e.age).records != s.records
  {
    var s := NewState(records, edges);
    assert [e][1..] == [];
    assert Applied(s, [e]) == Applied(Apply(s, e), []);
    assert WithAge(s, e.id, e.age).records[e.id].age == e.age;
  }

  // ----- updates after a torn tail -----

  /**
   An update appended after a torn tail: the next open cannot read the log, or opens as if the log held
   the entries before the tear and at most one more, made of bytes of both frames.
   */
  lemma AfterTearOpens(records: seq<DogRecord>, edges: seq<Edge>, entries: seq<WalEntry>, d: HybridDisk,
                       next: WalEntry, j: nat, later: WalEntry)
    requires d.wal == Some(Log(entries)) && 0 < j < 40
    ensures
      OpenMem(records, edges, Appended(PartlyAppended(d, next, j), later))
      == match AfterTear(next, j, later)
         case Err(_) => Err(OpenError.Serde)
         case Ok(more) => OpenMem(records, edges, d.(wal := Some(Log(entries + more))))
  {
    TornLogReadsAs(entries, next, j, later);
  }

  /** The directory opens, and shows this age for the id. */
  predicate ShowsAge(records: seq<DogRecord>, edges: seq<Edge>, d: HybridDisk, id: Uuid, age: u32) {
    match OpenMem(records, edges, d)
    case Err(_) => false
    case Ok(m) => id in m.state.records && m.state.records[id].age == age
  }

  lemma ShowsOldOrPhantom(records: seq<DogRecord>, edges: seq<Edge>, entries: seq<WalEntry>, d: HybridDisk,
                          next: WalEntry, j: nat, later: WalEntry, before: u32)
    requires d.wal == Some(Log(entries)) && 0 < j < 40 && Consistent(Start(records, edges, d.base))
    requires ShowsAge(records, edges, d, later.id, before)
    requires ShowsAge(records, edges, Appended(PartlyAppended(d, next, j), later), later.id, later.age)
    ensures later.age == before || PhantomAge(next, j, later.seqNo, later.id) == Some(later.age)
  {
    AfterTearOpens(records, edges, entries, d, next, j, later);
    OnlyThePhantomIsRead(next, j, later);
    var more := AfterTear(next, j, later).value;
    if more == [] {
      assert entries + more == entries;
    } else {
      assert more == [more[0]];
      OneMoreShows(records, edges, entries, d, more[0], later.id, before, later.age);
    }
  }

  lemma {:induction false} AfterCutoffSnoc(cutoff: Option<u64>, entries: seq<WalEntry>, p: WalEntry)
    ensures AfterCutoff(cutoff, entries + [p])
            == AfterCutoff(cutoff, entries) + if cutoff == None || p.seqNo > cutoff.value then [p] else []
  {
    if entries == [] {
      assert [] + [p] == [p] && [p][1..] == [];
    } else {
      var last := if cutoff == None || p.seqNo > cutoff.value then [p] else [];
      var first := if cutoff == None || entries[0].seqNo > cutoff.value then [entries[0]] else [];
      AfterCutoffSnoc(cutoff, entries[1..], p);
      assert (entries + [p])[1..] == entries[1..] + [p];
      assert first + (AfterCutoff(cutoff, entries[1..]) + last) == first + AfterCutoff(cutoff, entries[1..]) + last;
    }
  }

  /** One entry more in the log, covered by the snapshot or not: the age shown is that entry's or the one before. */
  lemma OneMoreShows(records: seq<DogRecord>, edges: seq<Edge>, entries: seq<WalEntry>, d: HybridDisk,
                     p: WalEntry, id: Uuid, before: u32, age: u32)
    requires d.wal == Some(Log(entries)) && Consistent(Start(records, edges, d.base))
    requires ShowsAge(records, edges, d, id, before)
    requires ShowsAge(records, edges, d.(wal := Some(Log(entries + [p]))), id, age)
    ensures age == before || (p.id == id && age == p.age)
  {
    var start, replayed := Start(records, edges, d.base), AfterCutoff(Cutoff(d.base), entries);
    WholeLogReadsBack(entries);
    WholeLogReadsBack(entries + [p]);
    AfterCutoffSnoc(Cutoff(d.base), entries, p);
    if AfterCutoff(Cutoff(d.base), entries + [p]) == replayed + [p] {
      ReplayIsApplied(start, replayed);
      AppliedIsConsistent(start, replayed);
      OneMoreReplayed(start, replayed, p, id);
    } else {
      assert replayed + [] == replayed;
    }
  }

  /**
   A run cut short inside an append, reopened with any lists and given one more update: of all the ages
   that update can set but the one already there, at most one is there after the next open.
   */
  lemma AtMostOneAgeSurvivesATear(records: seq<DogRecord>, edges: seq<Edge>, ops: seq<Op>, lost: (Uuid, u32), j: nat,
                                  r: seq<DogRecord>, e: seq<Edge>, id: Uuid, before: u32, a: u32, b: u32)
    requires |ops| < U64_MODULUS && Run(records, edges, ops).Some? && 0 < j < 40
    requires
      var s := Run(records, edges, ops).value;
      && s.disk.wal.Some? && s.mem.nextSeq < U64_MODULUS
      && var torn := PartlyAppended(s.disk, Entry(s.mem, lost.0, lost.1), j);
      ShowsAge(r, e, torn, id, before) && OpenMem(r, e, torn).value.nextSeq < U64_MODULUS
    requires a != before && b != before
    ensures
      var s := Run(records, edges, ops).value;
      var torn := PartlyAppended(s.disk, Entry(s.mem, lost.0, lost.1), j);
      var m := OpenMem(r, e, torn).value;
      && ShowsAge(r, e, Appended(torn, Entry(m, id, a)), id, a)
      && ShowsAge(r, e, Appended(torn, Entry(m, id, b)), id, b)
      ==> a == b
  {
    var s, entries := Run(records, edges, ops).value, Logged(ops);
    var next := Entry(s.mem, lost.0, lost.1);
    var torn := PartlyAppended(s.disk, next, j);
    RunHolds(records, edges, ops);
    NewStateIsConsistent(r, e);
    AppliedIsConsistent(InForce(records, edges, ops), entries[..Covered(s.disk.base)]);
    assert Frame(next)[..40] == Frame(next);
    CrashedAppendOpens(r, e, entries, s.disk, next, torn);
    var m := OpenMem(r, e, torn).value;
    if ShowsAge(r, e, Appended(torn, Entry(m, id, a)), id, a) {
      ShowsOldOrPhantom(r, e, entries, s.disk, next, j, Entry(m, id, a), before);
    }
    if ShowsAge(r, e, Appended(torn, Entry(m, id, b)), id, b) {
      ShowsOldOrPhantom(r, e, entries, s.disk, next, j, Entry(m, id, b), before);
    }
  }
}
