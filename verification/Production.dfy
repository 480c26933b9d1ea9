/**
 The production store (src/production.rs): an ages file and, beside it, the companion blob that
 lets the store be reopened from its path alone.

 What could go wrong is that the blob and the ages file drift apart, or that an age is read back
 from the blob, where it is only the seed the record was first given. The first does not happen in any
 run in which no two different record sets share a fingerprint, wherever it crashed; the second only
 where the last section says.
 */
module Production {
  import opened Bytes
  import opened ColumnarImage
  import opened Records
  import opened BlobHeader
  import opened RecordBlobs
  import MmapAges

  /** The two files, and the record set the open store was built from. */
  datatype State = State(ages: seq<byte>, companion: Option<seq<byte>>, built: RecordBlob)

  /** How a store is opened again after a crash. */
  datatype Restart = With(blob: RecordBlob) | Portable

  datatype Op =
    | Create(blob: RecordBlob)
    | Open(blob: RecordBlob)
    | OpenPortable
    | Update(id: Uuid, age: u32)
    // dies with the ages file created and the blob not yet written, then restarts
    | CrashInCreate(blob: RecordBlob, next: Restart)
    // dies after so many writes of the ages file's rewrite, or after all and before the blob's, then restarts
    | CrashInOpen(blob: RecordBlob, writes: nat, next: Restart)

  predicate Valid(s: State) {
    MmapAges.Valid(Ages(s))
  }

  function Ages(s: State): MmapAges.Store {
    MmapAges.Store(s.ages, Ids(s.built.records))
  }

  function CreateState(blob: RecordBlob): State {
    State(MmapAges.CreateStore(blob.records).file, Some(Encode(blob)), blob)
  }

  /** The blob is replaced unless its header is current for the record set in hand. */
  function Companion(present: Option<seq<byte>>, blob: RecordBlob): Option<seq<byte>> {
    if IsCurrentAt(present, blob) then present else Some(Encode(blob))
  }

  function OpenState(ages: seq<byte>, companion: Option<seq<byte>>, blob: RecordBlob): State
    requires |ages| >= 12
  {
    State(MmapAges.OpenImage(ages, blob.records), Companion(companion, blob), blob)
  }

  /** Reads the blob first; a blob that cannot be read opens nothing and changes nothing. */
  function OpenPortableState(ages: seq<byte>, companion: Option<seq<byte>>): Result<State, Cause>
    requires |ages| >= 12
  {
    match Read(companion)
    case Err(cause) => Err(cause)
    case Ok(blob) => Ok(State(MmapAges.OpenImage(ages, blob.records), companion, blob))
  }

  function Restarted(ages: seq<byte>, companion: Option<seq<byte>>, next: Restart): Result<State, Cause>
    requires |ages| >= 12
  {
    match next
    case With(blob) => Ok(OpenState(ages, companion, blob))
    case Portable => OpenPortableState(ages, companion)
  }

  function Updated(s: State, id: Uuid, age: u32): State
    requires Valid(s)
  {
    s.(ages := MmapAges.UpdateStore(Ages(s), id, age).file)
  }

  /** The ages file a crashed operation leaves; the blob is then as it was. */
  function AgesLeft(s: State, op: Op): (ages: seq<byte>)
    requires Valid(s)
    ensures |ages| >= 12
  {
    match op
    case CrashInCreate(blob, _) => MmapAges.CreateStore(blob.records).file
    case CrashInOpen(blob, writes, _) => MmapAges.LeftByCrash(s.ages, blob.records, writes)
    case _ => s.ages
  }

  /** One operation; an error is a portable open of a blob that cannot be read. */
  function Step(s: State, op: Op): Result<State, Cause>
    requires Valid(s)
  {
    match op
    case Create(blob) => Ok(CreateState(blob))
    case Open(blob) => Ok(OpenState(s.ages, s.companion, blob))
    case OpenPortable => OpenPortableState(s.ages, s.companion)
    case Update(id, age) => Ok(Updated(s, id, age))
    case CrashInCreate(_, next) => Restarted(AgesLeft(s, op), s.companion, next)
    case CrashInOpen(_, _, next) => Restarted(AgesLeft(s, op), s.companion, next)
  }

  // ----- what a store shows -----

  datatype Shown = Shown(
    records: map<Uuid, DogRecord>, breeds: map<Breed, seq<Uuid>>, adjacency: map<Uuid, seq<Uuid>>)

  /** Every record with the age the file holds for it, and the two indexes. */
  function Show(s: State): Shown
    requires Valid(s)
  {
    Shown(WithAges(s.built.records, MmapAges.FileAges(s.ages)),
          BreedIndex(s.built.records), AdjacencyIndex(s.built.edges))
  }

  function WithAges(records: seq<DogRecord>, ages: map<Uuid, u32>): map<Uuid, DogRecord>
    requires Ids(records) <= ages.Keys
  {
    map id | id in ById(records) :: ById(records)[id].(age := ages[id])
  }

  lemma CreateIsValid(blob: RecordBlob)
    ensures Valid(CreateState(blob))
    ensures MmapAges.FileAges(CreateState(blob).ages) == MmapAges.Supplied(map[], blob.records)
  {
    MmapAges.CreateRefines(blob.records);
  }

  // ----- what ages aside means -----

  lemma {:induction false} SameIds(a: seq<DogRecord>, b: seq<DogRecord>)
    requires |a| == |b|
    requires forall i | 0 <= i < |a| :: a[i].id == b[i].id && a[i].breed == b[i].breed
    ensures Ids(a) == Ids(b)
    ensures BreedIndex(a) == BreedIndex(b)
    ensures forall id | id in ById(a) :: ById(a)[id].id == ById(b)[id].id && ById(a)[id].breed == ById(b)[id].breed
  {
    if a != [] {
      var n := |a| - 1;
      SameIds(a[..n], b[..n]);
    }
  }

  /** Sets that differ only in seed ages show the same over the same ages file. */
  lemma SeedsDoNotShow(a: RecordBlob, b: RecordBlob, ages: map<Uuid, u32>)
    requires SameButAges(a, b) && Ids(a.records) <= ages.Keys
    ensures Ids(b.records) <= ages.Keys
    ensures WithAges(a.records, ages) == WithAges(b.records, ages)
    ensures BreedIndex(a.records) == BreedIndex(b.records)
    ensures AdjacencyIndex(a.edges) == AdjacencyIndex(b.edges)
  {
    SameIds(a.records, b.records);
    forall id | id in ById(a.records)
      ensures WithAges(a.records, ages)[id] == WithAges(b.records, ages)[id]
    {
    }
    assert WithAges(a.records, ages).Keys == WithAges(b.records, ages).Keys;
  }

  // ----- every run, as a plain machine -----

  /** The ages remembered, the record set the open store was built from and the one the blob holds. */
  datatype Plain = Plain(ages: map<Uuid, u32>, built: RecordBlob, written: RecordBlob)

  /** What an open with a record set makes of the ages remembered. */
  function Reopened(ages: map<Uuid, u32>, records: seq<DogRecord>): map<Uuid, u32> {
    if Ids(records) <= ages.Keys then ages else MmapAges.Supplied(ages, records)
  }

  /** An open keeps the blob of a set with the same fingerprint, the same set or not. */
  function PlainOpen(ages: map<Uuid, u32>, written: RecordBlob, blob: RecordBlob): Plain {
    Plain(Reopened(ages, blob.records), blob, if Fingerprint(written) == Fingerprint(blob) then written else blob)
  }

  function PlainPortable(ages: map<Uuid, u32>, written: RecordBlob): Plain {
    Plain(Reopened(ages, written.records), written, written)
  }

  function PlainRestart(ages: map<Uuid, u32>, written: RecordBlob, next: Restart): Plain {
    match next
    case With(blob) => PlainOpen(ages, written, blob)
    case Portable => PlainPortable(ages, written)
  }

  function PlainStep(p: Plain, op: Op): Plain {
    match op
    case Create(blob) => Plain(MmapAges.Supplied(map[], blob.records), blob, blob)
    case Open(blob) => PlainOpen(p.ages, p.written, blob)
    case OpenPortable => PlainPortable(p.ages, p.written)
    case Update(id, age) => if id in Ids(p.built.records) then p.(ages := p.ages[id := age]) else p
    case CrashInCreate(blob, next) => PlainRestart(MmapAges.Supplied(map[], blob.records), p.written, next)
    case CrashInOpen(blob, writes, next) =>
      PlainRestart(
        if writes > MmapAges.WritesOf(blob.records) then Reopened(p.ages, blob.records) else p.ages, p.written, next)
  }

  predicate Refines(s: State, p: Plain) {
    && Valid(s) && s.companion == Some(Encode(p.written)) && s.built == p.built
    && MmapAges.FileAges(s.ages) == p.ages
  }

  /** Any ages file with a sound header, opened with a list, holds what the plain machine says. */
  lemma OpenedAges(ages: seq<byte>, records: seq<DogRecord>)
    requires |ages| >= 12 && ReadHeader(ages) == None
    ensures
      var file := MmapAges.OpenImage(ages, records);
      && MmapAges.Valid(MmapAges.Store(file, Ids(records)))
      && MmapAges.FileAges(file) == Reopened(MmapAges.FileAges(ages), records)
  {
    MmapAges.OpenRefines(MmapAges.Store(ages, {}), records);
  }

  lemma OpenRefines(ages: seq<byte>, written: RecordBlob, blob: RecordBlob)
    requires |ages| >= 12 && ReadHeader(ages) == None
    ensures Refines(OpenState(ages, Some(Encode(written)), blob), PlainOpen(MmapAges.FileAges(ages), written, blob))
  {
    OpenedAges(ages, blob.records);
    CurrentIff(written, blob);
  }

  lemma PortableRefines(ages: seq<byte>, written: RecordBlob)
    requires |ages| >= 12 && ReadHeader(ages) == None
    ensures OpenPortableState(ages, Some(Encode(written))).Ok?
    ensures Refines(OpenPortableState(ages, Some(Encode(written))).value,
                    PlainPortable(MmapAges.FileAges(ages), written))
  {
    OpenedAges(ages, written.records);
    ReadBack(written);
  }

  lemma RestartRefines(ages: seq<byte>, written: RecordBlob, next: Restart)
    requires |ages| >= 12 && ReadHeader(ages) == None
    ensures Restarted(ages, Some(Encode(written)), next).Ok?
    ensures Refines(Restarted(ages, Some(Encode(written)), next).value,
                    PlainRestart(MmapAges.FileAges(ages), written, next))
  {
    match next
    case With(blob) => OpenRefines(ages, written, blob);
    case Portable => PortableRefines(ages, written);
  }

  lemma StepRefines(s: State, p: Plain, op: Op)
    requires Refines(s, p)
    ensures Step(s, op).Ok? && Refines(Step(s, op).value, PlainStep(p, op))
  {
    match op
    case Create(blob) => CreateIsValid(blob);
    case Open(blob) => OpenRefines(s.ages, p.written, blob);
    case OpenPortable => PortableRefines(s.ages, p.written);
    case Update(id, age) => UpdateRefines(s, p, id, age);
    case CrashInCreate(blob, next) => CutCreateRefines(s, p, blob, next);
    case CrashInOpen(blob, writes, next) => CutOpenRefines(s, p, blob, writes, next);
  }

  lemma UpdateRefines(s: State, p: Plain, id: Uuid, age: u32)
    requires Refines(s, p)
    ensures Refines(Updated(s, id, age), PlainStep(p, Update(id, age)))
  {
    MmapAges.UpdateRefines(Ages(s), id, age);
  }

  lemma CutCreateRefines(s: State, p: Plain, blob: RecordBlob, next: Restart)
    requires Refines(s, p)
    ensures Step(s, CrashInCreate(blob, next)).Ok?
    ensures Refines(Step(s, CrashInCreate(blob, next)).value, PlainStep(p, CrashInCreate(blob, next)))
  {
    CreateIsValid(blob);
    CrashRefines(s, p, CrashInCreate(blob, next), MmapAges.Supplied(map[], blob.records));
  }

  lemma CutOpenRefines(s: State, p: Plain, blob: RecordBlob, writes: nat, next: Restart)
    requires Refines(s, p)
    ensures Step(s, CrashInOpen(blob, writes, next)).Ok?
    ensures Refines(Step(s, CrashInOpen(blob, writes, next)).value, PlainStep(p, CrashInOpen(blob, writes, next)))
  {
    OpenedAges(s.ages, blob.records);
    var ages := if writes > MmapAges.WritesOf(blob.records) then Reopened(p.ages, blob.records) else p.ages;
    CrashRefines(s, p, CrashInOpen(blob, writes, next), ages);
  }

  /** Whatever ages the crash left in the file, the restart goes on from those. */
  lemma CrashRefines(s: State, p: Plain, op: Op, ages: map<Uuid, u32>)
    requires Valid(s) && s.companion == Some(Encode(p.written)) && (op.CrashInCreate? || op.CrashInOpen?)
    requires ReadHeader(AgesLeft(s, op)) == None && MmapAges.FileAges(AgesLeft(s, op)) == ages
    ensures Step(s, op).Ok? && Refines(Step(s, op).value, PlainRestart(ages, p.written, op.next))
  {
    RestartRefines(AgesLeft(s, op), p.written, op.next);
  }

  function Run(s: State, ops: seq<Op>): Result<State, Cause>
    requires Valid(s)
    decreases |ops|
  {
    if ops == [] then Ok(s)
    else
      match Step(s, ops[0])
      case Err(cause) => Err(cause)
      case Ok(t) => if Valid(t) then Run(t, ops[1..]) else Ok(t)
  }

  function RunPlain(p: Plain, ops: seq<Op>): Plain
    decreases |ops|
  {
    if ops == [] then p else RunPlain(PlainStep(p, ops[0]), ops[1..])
  }

  /**
   Every run of creates, opens, portable opens, updates and crashes inside any of them, restarted any way:
   no open fails, and the two files are those of the plain machine, whatever sets are given and whether or
   not they collide.
   */
  lemma {:induction false} RunRefines(s: State, p: Plain, ops: seq<Op>)
    requires Refines(s, p)
    ensures Run(s, ops).Ok? && Refines(Run(s, ops).value, RunPlain(p, ops))
    decreases |ops|
  {
    if ops != [] {
      StepRefines(s, p, ops[0]);
      RunRefines(Step(s, ops[0]).value, PlainStep(p, ops[0]), ops[1..]);
    }
  }

  // ----- blob and ages file stay together -----

  /** The two sets share a fingerprint only if they differ at most in ages. */
  predicate NoCollision(a: RecordBlob, b: RecordBlob) {
    Fingerprint(a) == Fingerprint(b) ==> SameButAges(a, b)
  }

  /** The record sets an operation opens a store with or has written to the blob. */
  function BlobsOf(op: Op): set<RecordBlob> {
    match op
    case Create(blob) => {blob}
    case Open(blob) => {blob}
    case CrashInCreate(_, With(blob)) => {blob}
    case CrashInOpen(_, _, With(blob)) => {blob}
    case _ => {}
  }

  function BlobsIn(ops: seq<Op>): set<RecordBlob>
    decreases |ops|
  {
    if ops == [] then {} else BlobsOf(ops[0]) + BlobsIn(ops[1..])
  }

  ghost predicate NoCollisions(blobs: set<RecordBlob>) {
    forall a, b | a in blobs && b in blobs :: NoCollision(a, b)
  }

  /** The blob holds the open store's record set, but for seed ages. */
  lemma PlainStepStays(p: Plain, op: Op, blobs: set<RecordBlob>)
    requires SameButAges(p.written, p.built) && p.written in blobs && BlobsOf(op) <= blobs && NoCollisions(blobs)
    ensures SameButAges(PlainStep(p, op).written, PlainStep(p, op).built) && PlainStep(p, op).written in blobs
  {
    match op
    case Create(_) =>
    case Open(blob) => OpenStays(p.ages, p.written, blob, blobs);
    case OpenPortable =>
    case Update(_, _) =>
    case CrashInCreate(lost, next) => RestartStays(MmapAges.Supplied(map[], lost.records), p.written, next, blobs);
    case CrashInOpen(lost, writes, next) =>
      var wrote := writes > MmapAges.WritesOf(lost.records);
      RestartStays(if wrote then Reopened(p.ages, lost.records) else p.ages, p.written, next, blobs);
  }

  lemma OpenStays(ages: map<Uuid, u32>, written: RecordBlob, blob: RecordBlob, blobs: set<RecordBlob>)
    requires written in blobs && blob in blobs && NoCollisions(blobs)
    ensures
      var p := PlainOpen(ages, written, blob);
      SameButAges(p.written, p.built) && p.written in blobs
  {
    assert NoCollision(written, blob);
  }

  lemma RestartStays(ages: map<Uuid, u32>, written: RecordBlob, next: Restart, blobs: set<RecordBlob>)
    requires written in blobs && NoCollisions(blobs) && (next.With? ==> next.blob in blobs)
    ensures
      var p := PlainRestart(ages, written, next);
      SameButAges(p.written, p.built) && p.written in blobs
  {
    if next.With? { OpenStays(ages, written, next.blob, blobs); }
  }

  lemma {:induction false} PlainRunStays(p: Plain, ops: seq<Op>, blobs: set<RecordBlob>)
    requires SameButAges(p.written, p.built) && p.written in blobs && BlobsIn(ops) <= blobs && NoCollisions(blobs)
    ensures SameButAges(RunPlain(p, ops).written, RunPlain(p, ops).built)
    decreases |ops|
  {
    if ops != [] {
      PlainStepStays(p, ops[0], blobs);
      PlainRunStays(PlainStep(p, ops[0]), ops[1..], blobs);
    }
  }

  /** The blob on disk is `written`, the open store's record set but for seed ages. */
  predicate Inv(s: State, written: RecordBlob) {
    && Valid(s)
    && s.companion == Some(Encode(written))
    && SameButAges(written, s.built)
  }

  /**
   Reopening from the path alone succeeds, changes no byte of either file, and shows exactly what
   the open store shows. No record's age comes from the blob: the ages file already holds them all.
   */
  lemma PortableReopenShowsTheSame(s: State, written: RecordBlob)
    requires Inv(s, written)
    ensures Step(s, OpenPortable) == Ok(State(s.ages, s.companion, written))
    ensures Valid(Step(s, OpenPortable).value) && Show(Step(s, OpenPortable).value) == Show(s)
  {
    ReadBack(written);
    SameSetShowsTheSame(s, written);
  }

  lemma SameSetShowsTheSame(s: State, written: RecordBlob)
    requires Valid(s) && SameButAges(s.built, written)
    ensures
      var t := State(s.ages, s.companion, written);
      MmapAges.OpenImage(s.ages, written.records) == s.ages && Valid(t) && Show(t) == Show(s)
  {
    SeedsDoNotShow(s.built, written, MmapAges.FileAges(s.ages));
  }

  /** How a store at an empty path comes to be: created whole, or opened after a create cut off before the blob. */
  datatype Start = Created(blob: RecordBlob) | CutCreate(lost: RecordBlob, blob: RecordBlob)

  function StartState(start: Start): State {
    match start
    case Created(blob) => CreateState(blob)
    case CutCreate(lost, blob) => OpenState(MmapAges.CreateStore(lost.records).file, None, blob)
  }

  function StartPlain(start: Start): Plain {
    match start
    case Created(blob) => Plain(MmapAges.Supplied(map[], blob.records), blob, blob)
    case CutCreate(lost, blob) => Plain(Reopened(MmapAges.Supplied(map[], lost.records), blob.records), blob, blob)
  }

  lemma StartRefines(start: Start)
    ensures Refines(StartState(start), StartPlain(start))
  {
    match start
    case Created(blob) => CreateIsValid(blob);
    case CutCreate(lost, blob) =>
      CreateIsValid(lost);
      OpenedAges(MmapAges.CreateStore(lost.records).file, blob.records);
  }

  function RunFrom(start: Start, ops: seq<Op>): Result<State, Cause> {
    StartRefines(start);
    Run(StartState(start), ops)
  }

  /**
   From a create, cut off or not: every run opens every time and holds the ages and record sets of the
   plain machine.
   */
  lemma EveryRunRefines(start: Start, ops: seq<Op>)
    ensures RunFrom(start, ops).Ok? && Refines(RunFrom(start, ops).value, RunPlain(StartPlain(start), ops))
  {
    StartRefines(start);
    RunRefines(StartState(start), StartPlain(start), ops);
  }

  /**
   What the store then shows: each id of the set last opened with, as its last record there but with the
   age the plain machine remembers for it, and no other id; and that set's breeds and edges.
   */
  lemma EveryRunShows(start: Start, ops: seq<Op>)
    ensures RunFrom(start, ops).Ok? && Valid(RunFrom(start, ops).value)
    ensures
      var p, shown := RunPlain(StartPlain(start), ops), Show(RunFrom(start, ops).value).records;
      && (forall id :: id in shown <==> Listed(p.built.records, id))
      && forall i | 0 <= i < |p.built.records| && LastRecord(p.built.records, i) ::
           var r := p.built.records[i];
           r.id in shown && r.id in p.ages && shown[r.id] == DogRecord(r.id, r.breed, p.ages[r.id])
    ensures
      var p, shown := RunPlain(StartPlain(start), ops), Show(RunFrom(start, ops).value);
      && (forall id :: Lookup(shown.adjacency, id) == OtherEnds(p.built.edges, id))
      && forall breed, id :: multiset(Lookup(shown.breeds, breed))[id] == Pairings(p.built.records, id, breed)
  {
    EveryRunRefines(start, ops);
    IndexesAreTheSets(RunPlain(StartPlain(start), ops).built);
    var p := RunPlain(StartPlain(start), ops);
    forall id
      ensures id in Show(RunFrom(start, ops).value).records <==> Listed(p.built.records, id)
    {
      ByIdLists(p.built.records, id);
    }
    forall i | 0 <= i < |p.built.records| && LastRecord(p.built.records, i)
      ensures
        var r, shown := p.built.records[i], Show(RunFrom(start, ops).value).records;
        r.id in shown && r.id in p.ages && shown[r.id] == DogRecord(r.id, r.breed, p.ages[r.id])
    {
      ByIdKeepsTheLast(p.built.records, i);
    }
  }

  lemma IndexesAreTheSets(blob: RecordBlob)
    ensures forall id :: Lookup(AdjacencyIndex(blob.edges), id) == OtherEnds(blob.edges, id)
    ensures forall breed, id ::
              multiset(Lookup(BreedIndex(blob.records), breed))[id] == Pairings(blob.records, id, breed)
  {
    forall id
      ensures Lookup(AdjacencyIndex(blob.edges), id) == OtherEnds(blob.edges, id)
    {
      AdjacencyListsOtherEnds(blob.edges, id);
    }
    forall breed, id
      ensures multiset(Lookup(BreedIndex(blob.records), breed))[id] == Pairings(blob.records, id, breed)
    {
      BreedIndexCounts(blob.records, breed, id);
    }
  }

  /**
   After any such run, crashed anywhere: as long as no two of the sets opened with collide, a portable
   reopen changes no byte of the ages file and shows the same ids, breeds, indexes and ages.
   */
  lemma EveryRunReopensPortably(start: Start, ops: seq<Op>)
    requires NoCollisions({start.blob} + BlobsIn(ops))
    ensures RunFrom(start, ops).Ok? && Valid(RunFrom(start, ops).value)
    ensures
      var s := RunFrom(start, ops).value;
      && Step(s, OpenPortable).Ok?
      && Valid(Step(s, OpenPortable).value) && Show(Step(s, OpenPortable).value) == Show(s)
      && Step(s, OpenPortable).value.ages == s.ages
  {
    EveryRunRefines(start, ops);
    var p := StartPlain(start);
    PlainRunStays(p, ops, {start.blob} + BlobsIn(ops));
    PortableReopenShowsTheSame(RunFrom(start, ops).value, RunPlain(p, ops).written);
  }

  /**
   The hypothesis is exactly what is needed of each open: over a blob holding `written`, opening with
   `blob` leaves a pair that reopens with `blob`'s ids, breeds and edges if and only if the two do not
   collide.
   */
  lemma OpenLeavesItsOwnBlobIff(s: State, written: RecordBlob, blob: RecordBlob)
    requires Inv(s, written)
    ensures
      var companion := OpenState(s.ages, s.companion, blob).companion;
      && Read(companion).Ok?
      && (SameButAges(Read(companion).value, blob) <==> NoCollision(written, blob))
  {
    CompanionAfter(written, blob);
    ReadBack(if Fingerprint(written) == Fingerprint(blob) then written else blob);
  }

  lemma CompanionAfter(written: RecordBlob, blob: RecordBlob)
    ensures Companion(Some(Encode(written)), blob)
            == Some(Encode(if Fingerprint(written) == Fingerprint(blob) then written else blob))
  {
    CurrentIff(written, blob);
  }

  // ----- crashes -----

  /**
   A crash after the ages file was opened, and perhaps rewritten, and before the blob was replaced:
   opening again with the same set leaves both files as an uninterrupted open would have.
   */
  lemma CrashBetweenTheFilesHeals(ages: seq<byte>, companion: Option<seq<byte>>, blob: RecordBlob)
    requires |ages| >= 12
    ensures
      var between := MmapAges.OpenImage(ages, blob.records);
      OpenState(between, companion, blob) == OpenState(ages, companion, blob)
  {
    MmapAges.OpenIsIdempotent(ages, blob.records);
  }

  /**
   A portable reopen in that same gap still opens, with the old set; an id the interrupted open had
   dropped from the ages file is then seeded from the blob again. It is the one way a seed comes back.
   */
  lemma PortableReopenInTheGap(s: State, written: RecordBlob, blob: RecordBlob, id: Uuid)
    requires Inv(s, written) && id in Ids(written.records)
    ensures
      var ages := MmapAges.FileAges(s.ages);
      var between := MmapAges.OpenImage(s.ages, blob.records);
      var reopened := OpenPortableState(between, s.companion);
      && reopened.Ok?
      && id in MmapAges.FileAges(reopened.value.ages)
      && id in ages
      && MmapAges.FileAges(reopened.value.ages)[id] ==
           if id in Ids(blob.records) || Ids(blob.records) <= ages.Keys then ages[id]
           else ById(written.records)[id].age
  {
    var between := MmapAges.OpenImage(s.ages, blob.records);
    ReadBack(written);
    SameIds(written.records, s.built.records);
    MmapAges.OpenReads(s.ages, blob.records);
    MmapAges.OpenReads(between, written.records);
  }

  /** A create cut off before its blob, at a path with no blob: only an open with a record set gets past it. */
  lemma CutCreateNeedsItsRecords(lost: RecordBlob)
    ensures Restarted(MmapAges.CreateStore(lost.records).file, None, Portable) == Err(CannotRead)
    ensures Restarted(MmapAges.CreateStore(lost.records).file, None, With(lost)) == Ok(CreateState(lost))
  {
    CreateIsValid(lost);
  }

  // A seed comes back: the gap is reachable.

  function Alone(a: DogRecord): (blob: RecordBlob)
    requires FitsRecord(a)
  {
    Contents([a], [])
  }

  /** A store of one record, given another age. */
  lemma OneUpdated(a: DogRecord, x: u32)
    requires FitsRecord(a)
    ensures
      var blob := Alone(a);
      RunPlain(StartPlain(Created(blob)), [Update(a.id, x)]) == Plain(map[a.id := x], blob, blob)
  {
    var blob := Alone(a);
    var p := StartPlain(Created(blob));
    OneRecord(a);
    assert p.ages == map[a.id := a.age];
    assert [Update(a.id, x)][1..] == [];
    assert RunPlain(PlainStep(p, Update(a.id, x)), []) == PlainStep(p, Update(a.id, x));
  }

  /** An open with another record, cut off before the blob, has dropped the first one's age for good. */
  lemma GapSeeds(a: DogRecord, b: DogRecord, x: u32)
    requires a.id != b.id && FitsRecord(a) && FitsRecord(b)
    ensures PlainStep(Plain(map[a.id := x], Alone(a), Alone(a)), Gap(b)).ages == map[a.id := a.age]
  {
    OneRecord(a);
    OneRecord(b);
    assert b.id in Ids([b]) && a.id in Ids([a]);
    assert Reopened(map[a.id := x], [b]) == map[b.id := b.age];
    assert Reopened(map[b.id := b.age], [a]) == map[a.id := a.age];
  }

  /** An open with that record alone, cut off with the ages file rewritten and the blob not, then a portable one. */
  function Gap(b: DogRecord): Op
    requires FitsRecord(b)
  {
    CrashInOpen(Alone(b), MmapAges.WritesOf([b]) + 1, Portable)
  }

  lemma OneRecord(a: DogRecord)
    ensures ById([a]) == map[a.id := a]
  {
    assert [a][..0] == [];
  }

  /** The ages a run leaves in the file. */
  function AgesAfter(start: Start, ops: seq<Op>): map<Uuid, u32> {
    EveryRunRefines(start, ops);
    MmapAges.FileAges(RunFrom(start, ops).value.ages)
  }

  lemma AgesAfterArePlain(start: Start, ops: seq<Op>)
    ensures AgesAfter(start, ops) == RunPlain(StartPlain(start), ops).ages
  {
    EveryRunRefines(start, ops);
  }

  /**
   From a create: a record is given another age, an open with a different record is cut off in the gap,
   and a portable reopen reads the first record's seed in place of the age it was given.
   */
  lemma SeedComesBack(a: DogRecord, b: DogRecord, x: u32)
    requires a.id != b.id && FitsRecord(a) && FitsRecord(b)
    ensures AgesAfter(Created(Alone(a)), [Update(a.id, x)]) == map[a.id := x]
    ensures AgesAfter(Created(Alone(a)), [Update(a.id, x), Gap(b)]) == map[a.id := a.age]
  {
    var start := Created(Alone(a));
    OneUpdated(a, x);
    GapSeeds(a, b, x);
    AgesAfterArePlain(start, [Update(a.id, x)]);
    AgesAfterArePlain(start, [Update(a.id, x), Gap(b)]);
    PlainTwo(StartPlain(start), Update(a.id, x), Gap(b));
  }

  lemma PlainTwo(p: Plain, x: Op, y: Op)
    ensures RunPlain(p, [x, y]) == PlainStep(RunPlain(p, [x]), y)
  {
    assert [x, y][1..] == [y] && [y][1..] == [] && [x][1..] == [];
    assert RunPlain(PlainStep(p, x), [y]) == RunPlain(PlainStep(PlainStep(p, x), y), []);
    assert RunPlain(p, [x]) == RunPlain(PlainStep(p, x), []);
  }
}
