/**
 The sharded store (src/concurrency/sharded.rs) as threads taking turns: every lock taken and given
 back, every record read under a scan's lock, and every record read or written by a get or an
 update is one action, and the actions of different threads come in any order.

 Gets and updates act on one atomic map. A scan does not see one state of that map, but a state per
 shard, each later than the one before.
 */
module Sharded {
  import opened Bytes
  import opened Histories
  import opened Records
  import opened Folds

  const SHARD_COUNT: nat := 64

  // ----- routing -----

  /** `Uuid::as_u128`: the octets as one number, most significant first. */
  function AsU128(octets: seq<byte>): nat {
    if octets == [] then 0 else 256 * AsU128(octets[..|octets| - 1]) + octets[|octets| - 1]
  }

  function ShardIndex(id: Uuid): (k: nat)
    ensures k < SHARD_COUNT
  {
    AsU128(id.octets) % 64
  }

  /** Sixty-four divides 256, so only the last octet routes. */
  lemma LastOctetRoutes(id: Uuid)
    ensures ShardIndex(id) == id.octets[15] % 64
  {
    var high, last := AsU128(id.octets[..15]), id.octets[15];
    assert AsU128(id.octets) == 256 * high + last;
    MultipleDropsOut(high, last);
  }

  lemma MultipleDropsOut(high: nat, last: nat)
    ensures (256 * high + last) % 64 == last % 64
  {
    var q := last / 64;
    assert 256 * high + last == 64 * (4 * high + q) + last % 64;
  }

  // ----- the atomic map -----

  type Table = map<Uuid, DogRecord>

  datatype Call = Get(id: Uuid) | Update(id: Uuid, age: u32)

  datatype Reply = Found(record: Option<DogRecord>) | Updated | Unknown(id: Uuid)

  /** One get or update having taken effect, and what it was answered. */
  datatype Event = Event(thread: nat, call: Call, reply: Reply)

  function Answer(table: Table, call: Call): Reply {
    match call
    case Get(id) => Found(if id in table then Some(table[id]) else None)
    case Update(id, _) => if id in table then Updated else Unknown(id)
  }

  function Effect(table: Table, call: Call): Table {
    if call.Update? && call.id in table then table[call.id := table[call.id].(age := call.age)] else table
  }

  function Replay(table: Table, log: seq<Event>): Table {
    Fold((t: Table, e: Event) => Effect(t, e.call), table, log)
  }

  // ----- threads, locks and shards -----

  datatype Thread =
    | Idle
    | Calling(call: Call, since: nat)
    | Locked(call: Call, since: nat)
    | Answered(call: Call, since: nat, at: nat, reply: Reply)
    | Unlocked(call: Call, since: nat, at: nat, reply: Reply)
    | Scanning(since: nat, parts: seq<map<Uuid, u32>>, moments: seq<nat>)
    | Reading(since: nat, parts: seq<map<Uuid, u32>>, moments: seq<nat>, part: map<Uuid, u32>)

  /** `log` is the order in which gets and updates took effect; `since` and `moments` are positions in it. */
  datatype State = State(shards: seq<Table>, threads: map<nat, Thread>, log: seq<Event>)

  datatype Action =
    | Invoke(call: Call)
    | InvokeScan
    | Lock
    | Act
    | ReadOne(id: Uuid)
    | Unlock
    | Return

  function At(s: State, t: nat): Thread {
    if t in s.threads then s.threads[t] else Idle
  }

  /** The shard a thread holds the lock of. */
  function Holds(thread: Thread): Option<nat> {
    match thread
    case Locked(call, _) => Some(ShardIndex(call.id))
    case Answered(call, _, _, _) => Some(ShardIndex(call.id))
    case Reading(_, parts, _, _) => Some(|parts|)
    case _ => None
  }

  predicate Writes(thread: Thread) {
    (thread.Locked? || thread.Answered?) && thread.call.Update?
  }

  /** A write lock is granted when nobody holds the shard, a read lock when nobody holds it to write. */
  predicate Grants(s: State, t: nat, k: nat, write: bool) {
    forall u | u in s.threads && u != t && Holds(s.threads[u]) == Some(k) :: !write && !Writes(s.threads[u])
  }

  function With(s: State, t: nat, thread: Thread): State {
    s.(threads := s.threads[t := thread])
  }

  function ShardAt(s: State, k: nat): Table {
    if k < |s.shards| then s.shards[k] else map[]
  }

  function AgesOf(table: Table): map<Uuid, u32> {
    map id | id in table :: table[id].age
  }

  /** One action of one thread. An action whose turn has not come, or whose lock is not granted, waits. */
  function Step(s: State, t: nat, a: Action): State {
    match (At(s, t), a)
    case (Idle, Invoke(call)) => With(s, t, Calling(call, |s.log|))
    case (Calling(call, since), Lock) =>
      if Grants(s, t, ShardIndex(call.id), call.Update?) then With(s, t, Locked(call, since)) else s
    case (Locked(call, since), Act) =>
      var k := ShardIndex(call.id);
      var reply := Answer(ShardAt(s, k), call);
      if k < |s.shards| then
        With(s, t, Answered(call, since, |s.log|, reply))
          .(shards := s.shards[k := Effect(s.shards[k], call)], log := s.log + [Event(t, call, reply)])
      else s
    case (Answered(call, since, at, reply), Unlock) => With(s, t, Unlocked(call, since, at, reply))
    case (Unlocked(_, _, _, _), Return) => With(s, t, Idle)
    case (Idle, InvokeScan) => With(s, t, Scanning(|s.log|, [], []))
    case (Scanning(since, parts, moments), Lock) =>
      if |parts| < SHARD_COUNT && Grants(s, t, |parts|, false) then
        With(s, t, Reading(since, parts, moments, map[]))
      else s
    case (Reading(since, parts, moments, part), ReadOne(id)) =>
      var shard := ShardAt(s, |parts|);
      if id in shard && id !in part then With(s, t, Reading(since, parts, moments, part[id := shard[id].age])) else s
    case (Reading(since, parts, moments, part), Unlock) =>
      if part.Keys == ShardAt(s, |parts|).Keys then
        With(s, t, Scanning(since, parts + [part], moments + [|s.log|]))
      else s
    case (Scanning(_, parts, _), Return) => if |parts| == SHARD_COUNT then With(s, t, Idle) else s
    case _ => s
  }

  function Initial(records: seq<DogRecord>): State {
    State(seq(SHARD_COUNT, k requires 0 <= k => ShardOf(ById(records), k)), map[], [])
  }

  function ShardOf(table: Table, k: nat): Table {
    map id | id in table && ShardIndex(id) == k :: table[id]
  }

  // ----- what every action keeps -----

  /** The shards partition the atomic map. */
  ghost predicate ShardsHold(s: State, start: Table) {
    && |s.shards| == SHARD_COUNT
    && forall k | 0 <= k < SHARD_COUNT :: s.shards[k] == ShardOf(Replay(start, s.log), k)
  }

  /** Two threads hold the same shard only to read. */
  ghost predicate Exclusive(s: State) {
    forall t, u | t in s.threads && u in s.threads && t != u ::
      Holds(s.threads[t]).Some? && Holds(s.threads[t]) == Holds(s.threads[u]) ==>
        !Writes(s.threads[t]) && !Writes(s.threads[u])
  }

  /** A call answered took effect after it was made, with the answer the atomic map gave there. */
  predicate AnsweredAt(t: nat, call: Call, since: nat, at: nat, reply: Reply, log: seq<Event>) {
    since <= at < |log| && log[at] == Event(t, call, reply)
  }

  /** Each part is its shard of the atomic map at its moment; the moments never go back. */
  ghost predicate PartsSeen(start: Table, log: seq<Event>, since: nat, parts: seq<map<Uuid, u32>>, moments: seq<nat>) {
    && |parts| == |moments| <= SHARD_COUNT
    && since <= |log|
    && (forall j | 0 <= j < |moments| :: since <= moments[j] <= |log|)
    && (forall i, j | 0 <= i < j < |moments| :: moments[i] <= moments[j])
    && forall j | 0 <= j < |parts| :: parts[j] == AgesOf(ShardOf(Replay(start, log[..moments[j]]), j))
  }

  /** While a scan holds a shard, what it has read there is what is there now. */
  ghost predicate PartStands(part: map<Uuid, u32>, shard: Table) {
    part.Keys <= shard.Keys && forall id | id in part :: part[id] == shard[id].age
  }

  ghost predicate ThreadOk(s: State, start: Table, t: nat, thread: Thread) {
    match thread
    case Idle => true
    case Calling(_, since) => since <= |s.log|
    case Locked(_, since) => since <= |s.log|
    case Answered(call, since, at, reply) => AnsweredAt(t, call, since, at, reply, s.log)
    case Unlocked(call, since, at, reply) => AnsweredAt(t, call, since, at, reply, s.log)
    case Scanning(since, parts, moments) => PartsSeen(start, s.log, since, parts, moments)
    case Reading(since, parts, moments, part) =>
      && PartsSeen(start, s.log, since, parts, moments) && |parts| < SHARD_COUNT
      && PartStands(part, ShardAt(s, |parts|))
  }

  ghost predicate Threads(s: State, start: Table) {
    forall t | t in s.threads :: ThreadOk(s, start, t, s.threads[t])
  }

  /** Every answer in the log is the atomic map's at that point. */
  ghost predicate Sequential(start: Table, log: seq<Event>) {
    forall i | 0 <= i < |log| :: log[i].reply == Answer(Replay(start, log[..i]), log[i].call)
  }

  ghost predicate Inv(s: State, start: Table) {
    ShardsHold(s, start) && Exclusive(s) && Threads(s, start) && Sequential(start, s.log)
  }

  lemma InitialHolds(records: seq<DogRecord>)
    ensures Inv(Initial(records), ById(records))
  {
    assert Replay(ById(records), []) == ById(records);
  }

  // taking effect

  lemma ReplaySnoc(start: Table, log: seq<Event>, e: Event)
    ensures Replay(start, log + [e]) == Effect(Replay(start, log), e.call)
  {
    FoldSnoc((t: Table, x: Event) => Effect(t, x.call), start, log, e);
  }

  /** A call acts on its id's shard as on the whole table, and on no other shard. */
  lemma ShardActs(table: Table, call: Call, k: nat)
    ensures Answer(ShardOf(table, ShardIndex(call.id)), call) == Answer(table, call)
    ensures ShardOf(Effect(table, call), k) ==
            if k == ShardIndex(call.id) then Effect(ShardOf(table, k), call) else ShardOf(table, k)
  {
  }

  lemma ActKeepsShards(s: State, start: Table, t: nat)
    requires ShardsHold(s, start) && Sequential(start, s.log) && At(s, t).Locked?
    ensures ShardsHold(Step(s, t, Act), start) && Sequential(start, Step(s, t, Act).log)
  {
    var call := At(s, t).call;
    var table := Replay(start, s.log);
    var e := Event(t, call, Answer(table, call));
    ShardActs(table, call, ShardIndex(call.id));
    assert Step(s, t, Act).log == s.log + [e];
    ReplaySnoc(start, s.log, e);
    forall k | 0 <= k < SHARD_COUNT
      ensures Step(s, t, Act).shards[k] == ShardOf(Effect(table, call), k)
    {
      ShardActs(table, call, k);
    }
    SequentialSnoc(start, s.log, e);
  }

  lemma SequentialSnoc(start: Table, log: seq<Event>, e: Event)
    requires Sequential(start, log) && e.reply == Answer(Replay(start, log), e.call)
    ensures Sequential(start, log + [e])
  {
    forall i | 0 <= i < |log + [e]|
      ensures (log + [e])[i].reply == Answer(Replay(start, (log + [e])[..i]), (log + [e])[i].call)
    {
      assert (log + [e])[..i] == log[..i];
      assert i == |log| ==> log[..i] == log;
    }
  }

  lemma PartsSeenLater(start: Table, log: seq<Event>, e: Event, since: nat, parts: seq<map<Uuid, u32>>,
                       moments: seq<nat>)
    requires PartsSeen(start, log, since, parts, moments)
    ensures PartsSeen(start, log + [e], since, parts, moments)
  {
    forall j | 0 <= j < |parts|
      ensures parts[j] == AgesOf(ShardOf(Replay(start, (log + [e])[..moments[j]]), j))
    {
      assert (log + [e])[..moments[j]] == log[..moments[j]];
    }
  }

  /** Another thread's action taking effect disturbs nothing this thread relies on: the lock sees to that. */
  lemma ActSpares(s: State, start: Table, t: nat, u: nat)
    requires Inv(s, start) && At(s, t).Locked? && u in s.threads && u != t
    ensures ThreadOk(Step(s, t, Act), start, u, s.threads[u])
  {
    var next := Step(s, t, Act);
    var e := next.log[|s.log|];
    assert next.log == s.log + [e];
    var thread := s.threads[u];
    assert ThreadOk(s, start, u, thread);
    if thread.Scanning? || thread.Reading? {
      PartsSeenLater(start, s.log, e, thread.since, thread.parts, thread.moments);
    }
    if thread.Reading? {
      ReaderKeepsItsShard(s, start, t, u);
    }
  }

  lemma ReaderKeepsItsShard(s: State, start: Table, t: nat, u: nat)
    requires Inv(s, start) && At(s, t).Locked? && u in s.threads && u != t && s.threads[u].Reading?
    ensures ShardAt(Step(s, t, Act), |s.threads[u].parts|) == ShardAt(s, |s.threads[u].parts|)
  {
    var k := |s.threads[u].parts|;
    assert Holds(s.threads[u]) == Some(k);
    assert Holds(s.threads[t]) == Some(ShardIndex(s.threads[t].call.id));
  }

  lemma ActKeeps(s: State, start: Table, t: nat)
    requires Inv(s, start) && At(s, t).Locked?
    ensures Inv(Step(s, t, Act), start)
  {
    var next := Step(s, t, Act);
    ActKeepsShards(s, start, t);
    assert ThreadOk(s, start, t, s.threads[t]);
    forall u | u in next.threads
      ensures ThreadOk(next, start, u, next.threads[u])
    {
      if u != t { ActSpares(s, start, t, u); }
    }
    assert Holds(next.threads[t]) == Holds(s.threads[t]);
  }

  // everything else: only the thread itself moves

  lemma OwnMoveKeeps(s: State, start: Table, t: nat, thread: Thread)
    requires Inv(s, start) && ThreadOk(s, start, t, thread)
    requires Holds(thread).Some? ==>
               || (Holds(thread) == Holds(At(s, t)) && Writes(thread) == Writes(At(s, t)))
               || Grants(s, t, Holds(thread).value, Writes(thread))
    ensures Inv(With(s, t, thread), start)
  {
    var next := With(s, t, thread);
    forall u | u in next.threads
      ensures ThreadOk(next, start, u, next.threads[u])
    {
      assert u != t ==> ThreadOk(s, start, u, s.threads[u]);
    }
    forall u, v | u in next.threads && v in next.threads && u != v
                  && Holds(next.threads[u]).Some? && Holds(next.threads[u]) == Holds(next.threads[v])
      ensures !Writes(next.threads[u]) && !Writes(next.threads[v])
    {
    }
  }

  /** One more shard seen, as it is now. */
  lemma PartsSeenMore(start: Table, log: seq<Event>, since: nat, parts: seq<map<Uuid, u32>>, moments: seq<nat>,
                      part: map<Uuid, u32>)
    requires PartsSeen(start, log, since, parts, moments) && |parts| < SHARD_COUNT
    requires part == AgesOf(ShardOf(Replay(start, log), |parts|))
    ensures PartsSeen(start, log, since, parts + [part], moments + [|log|])
  {
    assert log[..|log|] == log;
  }

  lemma UnlockScanKeeps(s: State, start: Table, t: nat)
    requires Inv(s, start) && At(s, t).Reading?
    ensures Inv(Step(s, t, Unlock), start)
  {
    var thread := s.threads[t];
    assert ThreadOk(s, start, t, thread);
    if thread.part.Keys == ShardAt(s, |thread.parts|).Keys {
      assert thread.part == AgesOf(s.shards[|thread.parts|]);
      PartsSeenMore(start, s.log, thread.since, thread.parts, thread.moments, thread.part);
      OwnMoveKeeps(s, start, t, Scanning(thread.since, thread.parts + [thread.part], thread.moments + [|s.log|]));
    }
  }

  lemma StepKeeps(s: State, start: Table, t: nat, a: Action)
    requires Inv(s, start)
    ensures Inv(Step(s, t, a), start)
  {
    var thread, next := At(s, t), Step(s, t, a);
    assert ThreadOk(s, start, t, thread);
    if thread.Locked? && a.Act? {
      ActKeeps(s, start, t);
    } else if thread.Reading? && a.Unlock? {
      UnlockScanKeeps(s, start, t);
    } else if next != s {
      assert next == With(s, t, At(next, t));
      OwnMoveKeeps(s, start, t, At(next, t));
    }
  }

  // ----- whole runs -----

  type Turn = (nat, Action)

  function Run(s: State, turns: seq<Turn>): State
    decreases |turns|
  {
    if turns == [] then s else Run(Step(s, turns[0].0, turns[0].1), turns[1..])
  }

  lemma {:induction false} RunKeeps(s: State, start: Table, turns: seq<Turn>)
    requires Inv(s, start)
    ensures Inv(Run(s, turns), start)
    decreases |turns|
  {
    if turns != [] {
      StepKeeps(s, start, turns[0].0, turns[0].1);
      RunKeeps(Step(s, turns[0].0, turns[0].1), start, turns[1..]);
    }
  }

  /** The records as one table, whatever shard they are in. */
  function Merged(s: State, id: Uuid): Option<DogRecord> {
    var shard := ShardAt(s, ShardIndex(id));
    if id in shard then Some(shard[id]) else None
  }

  /**
   Every interleaving is a run of one atomic map: the shards together are that map after the log,
   every answer in the log is the map's at that point, and a call that has been answered took effect
   between being made and returning.
   */
  lemma EveryRunIsAtomic(records: seq<DogRecord>, turns: seq<Turn>)
    ensures
      var s := Run(Initial(records), turns);
      && Sequential(ById(records), s.log)
      && (forall id :: Merged(s, id) == Answer(Replay(ById(records), s.log), Get(id)).record)
      && forall t | t in s.threads && s.threads[t].Unlocked? ::
           var thread := s.threads[t];
           AnsweredAt(t, thread.call, thread.since, thread.at, thread.reply, s.log)
  {
    InitialHolds(records);
    RunKeeps(Initial(records), ById(records), turns);
    var s := Run(Initial(records), turns);
    forall id
      ensures Merged(s, id) == Answer(Replay(ById(records), s.log), Get(id)).record
    {
      assert s.shards[ShardIndex(id)] == ShardOf(Replay(ById(records), s.log), ShardIndex(id));
    }
    forall t | t in s.threads && s.threads[t].Unlocked?
      ensures
        var thread := s.threads[t];
        AnsweredAt(t, thread.call, thread.since, thread.at, thread.reply, s.log)
    {
      assert ThreadOk(s, ById(records), t, s.threads[t]);
    }
  }

  /** No get or update adds or removes an id. */
  lemma {:induction false} ReplayKeepsIds(start: Table, log: seq<Event>)
    ensures Replay(start, log).Keys == start.Keys
  {
    if log != [] {
      var n := |log| - 1;
      ReplayKeepsIds(start, log[..n]);
      assert log == log[..n] + [log[n]];
      ReplaySnoc(start, log[..n], log[n]);
    }
  }

  /**
   A finished scan, in every interleaving: one age for each record and no other, and moments that
   never go back, all between the scan's start and now, at which the shards were as it reports them.
   */
  lemma EveryScanSeesShardsInTurn(records: seq<DogRecord>, turns: seq<Turn>, t: nat)
    requires At(Run(Initial(records), turns), t).Scanning?
    requires |At(Run(Initial(records), turns), t).parts| == SHARD_COUNT
    ensures
      var s := Run(Initial(records), turns);
      var scan := At(s, t);
      && PartsSeen(ById(records), s.log, scan.since, scan.parts, scan.moments)
      && forall j, id | 0 <= j < SHARD_COUNT :: id in scan.parts[j] <==> id in ById(records) && ShardIndex(id) == j
  {
    var s := Run(Initial(records), turns);
    var start := ById(records);
    InitialHolds(records);
    RunKeeps(Initial(records), start, turns);
    var scan := At(s, t);
    assert ThreadOk(s, start, t, scan);
    forall j, id | 0 <= j < SHARD_COUNT
      ensures id in scan.parts[j] <==> id in start && ShardIndex(id) == j
    {
      ReplayKeepsIds(start, s.log[..scan.moments[j]]);
    }
  }

  /** So each age reported is one that record held at some moment during the scan. */
  lemma EachAgeWasHeld(records: seq<DogRecord>, turns: seq<Turn>, t: nat, id: Uuid) returns (moment: nat)
    requires At(Run(Initial(records), turns), t).Scanning?
    requires |At(Run(Initial(records), turns), t).parts| == SHARD_COUNT
    requires id in ById(records)
    ensures
      var s := Run(Initial(records), turns);
      var part := At(s, t).parts[ShardIndex(id)];
      && At(s, t).since <= moment <= |s.log|
      && id in part
      && id in Replay(ById(records), s.log[..moment])
      && part[id] == Replay(ById(records), s.log[..moment])[id].age
  {
    EveryScanSeesShardsInTurn(records, turns, t);
    moment := At(Run(Initial(records), turns), t).moments[ShardIndex(id)];
  }

  /** With no update taking effect since it began, a scan is a snapshot. */
  lemma UndisturbedScanIsSnapshot(start: Table, log: seq<Event>, since: nat, parts: seq<map<Uuid, u32>>,
                                  moments: seq<nat>)
    requires PartsSeen(start, log, since, parts, moments)
    requires forall i | since <= i < |log| :: !log[i].reply.Updated?
    requires Sequential(start, log)
    ensures forall j | 0 <= j < |parts| :: parts[j] == AgesOf(ShardOf(Replay(start, log), j))
  {
    forall j | 0 <= j < |parts|
      ensures parts[j] == AgesOf(ShardOf(Replay(start, log), j))
    {
      NothingChanged(start, log, moments[j], |log|);
      assert log[..|log|] == log;
    }
  }

  lemma {:induction false} NothingChanged(start: Table, log: seq<Event>, lo: nat, hi: nat)
    requires lo <= hi <= |log| && Sequential(start, log)
    requires forall i | lo <= i < hi :: !log[i].reply.Updated?
    ensures Replay(start, log[..lo]) == Replay(start, log[..hi])
    decreases hi
  {
    if lo < hi {
      NothingChanged(start, log, lo, hi - 1);
      assert log[..hi] == log[..hi - 1] + [log[hi - 1]];
      ReplaySnoc(start, log[..hi - 1], log[hi - 1]);
    }
  }

  // ----- what the answers and the ages are -----

  /** The updates asked for, in the order they took effect. */
  function SetsOf(log: seq<Event>): seq<(Uuid, u32)> {
    if log == [] then []
    else
      var last := log[|log| - 1].call;
      SetsOf(log[..|log| - 1]) + if last.Update? then [(last.id, last.age)] else []
  }

  function RecordOf(table: Table, id: Uuid): Option<DogRecord> {
    if id in table then Some(table[id]) else None
  }

  /** The map after a log shows each id listed as its last record with the last age set. */
  lemma {:induction false} ReplayShows(records: seq<DogRecord>, log: seq<Event>, id: Uuid)
    ensures RecordOf(Replay(ById(records), log), id) == RecordAfter(records, SetsOf(log), id)
  {
    if log != [] {
      var n := |log| - 1;
      var last := log[n].call;
      ReplayShows(records, log[..n], id);
      assert log == log[..n] + [log[n]];
      ReplaySnoc(ById(records), log[..n], log[n]);
      if last.Update? {
        ReplayShows(records, log[..n], last.id);
        if id in ById(records) { SetLastSnoc(SetsOf(log[..n]), last.id, last.age, id, ById(records)[id].age); }
      } else {
        assert SetsOf(log) == SetsOf(log[..n]);
      }
    }
  }

  /**
   What a get or update is owed after the updates before it: the last record of the id with the last age
   set, or acceptance exactly for ids listed.
   */
  ghost predicate Owed(records: seq<DogRecord>, sets: seq<(Uuid, u32)>, call: Call, reply: Reply) {
    match call
    case Get(id) => reply == Found(RecordAfter(records, sets, id))
    case Update(id, _) => reply == if Listed(records, id) then Updated else Unknown(id)
  }

  /** In every run each reply is what the updates that took effect before it make it owed. */
  lemma EveryReplyIsOwed(records: seq<DogRecord>, turns: seq<Turn>)
    ensures
      var s := Run(Initial(records), turns);
      && (forall i | 0 <= i < |s.log| :: Owed(records, SetsOf(s.log[..i]), s.log[i].call, s.log[i].reply))
      && forall id :: Merged(s, id) == RecordAfter(records, SetsOf(s.log), id)
  {
    EveryRunIsAtomic(records, turns);
    var s := Run(Initial(records), turns);
    forall i | 0 <= i < |s.log|
      ensures Owed(records, SetsOf(s.log[..i]), s.log[i].call, s.log[i].reply)
    {
      ReplayShows(records, s.log[..i], s.log[i].call.id);
      ByIdLists(records, s.log[i].call.id);
    }
    forall id
      ensures Merged(s, id) == RecordAfter(records, SetsOf(s.log), id)
    {
      ReplayShows(records, s.log, id);
    }
  }

  /** And each age a finished scan reports is the last set before some moment of the scan, or the one listed. */
  lemma EachAgeWasSet(records: seq<DogRecord>, turns: seq<Turn>, t: nat, id: Uuid) returns (moment: nat)
    requires At(Run(Initial(records), turns), t).Scanning?
    requires |At(Run(Initial(records), turns), t).parts| == SHARD_COUNT
    requires Listed(records, id)
    ensures
      var s := Run(Initial(records), turns);
      var part := At(s, t).parts[ShardIndex(id)];
      && At(s, t).since <= moment <= |s.log|
      && id in part
      && RecordAfter(records, SetsOf(s.log[..moment]), id).Some?
      && part[id] == RecordAfter(records, SetsOf(s.log[..moment]), id).value.age
  {
    ByIdLists(records, id);
    moment := EachAgeWasHeld(records, turns, t, id);
    ReplayShows(records, Run(Initial(records), turns).log[..moment], id);
  }

  // ----- real time -----

  /** A thread with no call from before position `n` of the log. */
  predicate NotBefore(s: State, t: nat, n: nat) {
    |s.log| >= n && (At(s, t).Idle? || At(s, t).since >= n)
  }

  lemma {:induction false} StaysNotBefore(s: State, t: nat, n: nat, turns: seq<Turn>)
    requires NotBefore(s, t, n)
    ensures NotBefore(Run(s, turns), t, n)
    decreases |turns|
  {
    if turns != [] {
      StaysNotBefore(Step(s, turns[0].0, turns[0].1), t, n, turns[1..]);
    }
  }

  lemma {:induction false} LogGrows(s: State, turns: seq<Turn>)
    ensures |s.log| <= |Run(s, turns).log|
    decreases |turns|
  {
    if turns != [] {
      LogGrows(Step(s, turns[0].0, turns[0].1), turns[1..]);
    }
  }

  /**
   A call answered before another is made takes effect before it: `u` has its answer after `turns`,
   and `t`, which may be the same thread, is between calls at some later moment and has the answer to
   a later call after `more`.
   */
  lemma EffectsFollowRealTime(records: seq<DogRecord>, turns: seq<Turn>, between: seq<Turn>, more: seq<Turn>,
                              u: nat, t: nat)
    requires At(Run(Initial(records), turns), u).Unlocked?
    requires At(Run(Run(Initial(records), turns), between), t).Idle?
    requires At(Run(Run(Run(Initial(records), turns), between), more), t).Unlocked?
    ensures
      var first := Run(Initial(records), turns);
      At(first, u).at < At(Run(Run(first, between), more), t).at
  {
    var start, first := ById(records), Run(Initial(records), turns);
    var middle := Run(first, between);
    var last := Run(middle, more);
    InitialHolds(records);
    RunKeeps(Initial(records), start, turns);
    RunKeeps(first, start, between);
    RunKeeps(middle, start, more);
    assert ThreadOk(first, start, u, first.threads[u]);
    LogGrows(first, between);
    StaysNotBefore(middle, t, |middle.log|, more);
    assert ThreadOk(last, start, t, last.threads[t]);
  }

  // ----- a scan left alone finishes; a scan interrupted need not be a snapshot -----

  lemma {:induction false} RunConcat(s: State, a: seq<Turn>, b: seq<Turn>)
    ensures Run(s, a + b) == Run(Run(s, a), b)
    decreases |a|
  {
    if a == [] {
      assert a + b == b;
    } else {
      RunConcat(Step(s, a[0].0, a[0].1), a[1..], b);
      assert (a + b)[1..] == a[1..] + b;
    }
  }

  lemma RunOne(s: State, t: nat, a: Action)
    ensures Run(s, [(t, a)]) == Step(s, t, a)
  {
    assert [(t, a)][1..] == [];
  }

  /** No other thread holds a lock. */
  predicate Alone(s: State, t: nat) {
    forall u | u in s.threads && u != t :: Holds(s.threads[u]).None?
  }

  /** The records left in the shard, read one after the other in some order. */
  lemma {:induction false} ReadsTheShard(s: State, t: nat) returns (turns: seq<Turn>)
    requires At(s, t).Reading? && PartStands(At(s, t).part, ShardAt(s, |At(s, t).parts|))
    ensures Run(s, turns) == With(s, t, At(s, t).(part := AgesOf(ShardAt(s, |At(s, t).parts|))))
    decreases |ShardAt(s, |At(s, t).parts|).Keys - At(s, t).part.Keys|
  {
    var thread, shard := At(s, t), ShardAt(s, |At(s, t).parts|);
    if thread.part.Keys == shard.Keys {
      turns := [];
      assert thread.part == AgesOf(shard);
      assert s.threads[t := thread] == s.threads;
    } else {
      var id :| id in shard && id !in thread.part;
      var next := Step(s, t, ReadOne(id));
      assert shard.Keys - At(next, t).part.Keys < shard.Keys - thread.part.Keys by {
        assert id in shard.Keys - thread.part.Keys;
      }
      SubsetIsSmaller(shard.Keys - At(next, t).part.Keys, shard.Keys - thread.part.Keys);
      var rest := ReadsTheShard(next, t);
      turns := [(t, ReadOne(id))] + rest;
      assert turns[1..] == rest;
    }
  }

  lemma {:induction false} SubsetIsSmaller(a: set<Uuid>, b: set<Uuid>)
    requires a < b
    ensures |a| < |b|
  {
    if a == {} {
    } else {
      var id :| id in a;
      SubsetIsSmaller(a - {id}, b - {id});
    }
  }

  function NextPart(s: State, scan: Thread): Thread
    requires scan.Scanning?
  {
    Scanning(scan.since, scan.parts + [AgesOf(ShardAt(s, |scan.parts|))], scan.moments + [|s.log|])
  }

  lemma ScansNextShard(s: State, t: nat) returns (turns: seq<Turn>)
    requires At(s, t).Scanning? && |At(s, t).parts| < SHARD_COUNT && Alone(s, t)
    ensures Run(s, turns) == With(s, t, NextPart(s, At(s, t)))
  {
    var scan := At(s, t);
    var locked := Step(s, t, Lock);
    RunOne(s, t, Lock);
    assert At(locked, t) == Reading(scan.since, scan.parts, scan.moments, map[]);
    var reading := ReadsTheShard(locked, t);
    var full := Run(locked, reading);
    RunOne(full, t, Unlock);
    RunConcat(locked, reading, [(t, Unlock)]);
    RunConcat(s, [(t, Lock)], reading + [(t, Unlock)]);
    turns := [(t, Lock)] + (reading + [(t, Unlock)]);
    assert Step(full, t, Unlock).threads == s.threads[t := NextPart(s, scan)];
  }

  /** Shards `|parts|` to `n` read with nobody in the way: each as it stands. */
  ghost predicate ReadOn(s: State, t: nat, n: nat, after: State) {
    var scan, later := At(s, t), At(after, t);
    && scan.Scanning? && later.Scanning?
    && after == With(s, t, later)
    && later.since == scan.since
    && |scan.parts| <= |later.parts| == n
    && later.parts[..|scan.parts|] == scan.parts
    && forall j | |scan.parts| <= j < n :: later.parts[j] == AgesOf(ShardAt(s, j))
  }

  lemma {:induction false} ScansOn(s: State, t: nat, n: nat) returns (turns: seq<Turn>)
    requires At(s, t).Scanning? && |At(s, t).parts| <= n <= SHARD_COUNT && Alone(s, t)
    ensures ReadOn(s, t, n, Run(s, turns))
    decreases n - |At(s, t).parts|
  {
    if |At(s, t).parts| == n {
      turns := [];
      assert s.threads[t := At(s, t)] == s.threads;
    } else {
      var first := ScansNextShard(s, t);
      var next := Run(s, first);
      assert At(next, t) == NextPart(s, At(s, t));
      var rest := ScansOn(next, t, n);
      RunConcat(s, first, rest);
      turns := first + rest;
      ReadOnStep(s, t, n, next, Run(next, rest));
    }
  }

  lemma ReadOnStep(s: State, t: nat, n: nat, next: State, after: State)
    requires At(s, t).Scanning? && next == With(s, t, NextPart(s, At(s, t)))
    requires ReadOn(next, t, n, after)
    ensures ReadOn(s, t, n, after)
  {
    var scan, later := At(s, t), At(after, t);
    var k := |scan.parts|;
    assert At(next, t).parts == scan.parts + [AgesOf(ShardAt(s, k))];
    assert later.parts[..k] == later.parts[..k + 1][..k] == scan.parts;
    assert later.parts[k] == later.parts[..k + 1][k];
    forall j | k <= j < n
      ensures later.parts[j] == AgesOf(ShardAt(s, j))
    {
      assert ShardAt(next, j) == ShardAt(s, j);
    }
  }

  /** An update made by a thread that finds every lock free. */
  function AfterUpdate(s: State, u: nat, call: Call): State
    requires ShardIndex(call.id) < |s.shards|
  {
    var k := ShardIndex(call.id);
    State(s.shards[k := Effect(s.shards[k], call)], s.threads[u := Idle],
          s.log + [Event(u, call, Answer(s.shards[k], call))])
  }

  lemma UpdatesAlone(s: State, u: nat, call: Call) returns (turns: seq<Turn>)
    requires At(s, u).Idle? && Alone(s, u) && |s.shards| == SHARD_COUNT
    ensures Run(s, turns) == AfterUpdate(s, u, call)
  {
    LocksAlone(s, u, call);
    ActsAndReturns(s, With(s, u, Locked(call, |s.log|)), u, call);
    turns := RunFive(s, u, [Invoke(call), Lock, Act, Unlock, Return]);
  }

  lemma LocksAlone(s: State, u: nat, call: Call)
    requires At(s, u).Idle? && Alone(s, u)
    ensures Step(Step(s, u, Invoke(call)), u, Lock) == With(s, u, Locked(call, |s.log|))
  {
    var s1 := With(s, u, Calling(call, |s.log|));
    assert Step(s, u, Invoke(call)) == s1;
    assert At(s1, u) == Calling(call, |s.log|);
    assert With(s1, u, Locked(call, |s.log|)) == With(s, u, Locked(call, |s.log|));
  }

  lemma ActsAndReturns(s: State, locked: State, u: nat, call: Call)
    requires |s.shards| == SHARD_COUNT && locked == With(s, u, Locked(call, |s.log|))
    ensures Step(Step(Step(locked, u, Act), u, Unlock), u, Return) == AfterUpdate(s, u, call)
  {
    var reply := Answer(s.shards[ShardIndex(call.id)], call);
    var acted := Step(locked, u, Act);
    assert At(acted, u) == Answered(call, |s.log|, |s.log|, reply);
    assert At(Step(acted, u, Unlock), u) == Unlocked(call, |s.log|, |s.log|, reply);
    assert Step(Step(acted, u, Unlock), u, Return).threads == s.threads[u := Idle];
  }

  lemma RunFive(s: State, u: nat, actions: seq<Action>) returns (turns: seq<Turn>)
    requires |actions| == 5
    ensures
      var s1 := Step(s, u, actions[0]);
      var s2 := Step(s1, u, actions[1]);
      var s3 := Step(s2, u, actions[2]);
      var s4 := Step(s3, u, actions[3]);
      Run(s, turns) == Step(s4, u, actions[4])
  {
    var s1 := Step(s, u, actions[0]);
    var s2 := Step(s1, u, actions[1]);
    var s3 := Step(s2, u, actions[2]);
    var s4 := Step(s3, u, actions[3]);
    var t3 := [(u, actions[3])] + [(u, actions[4])];
    var t2 := [(u, actions[2])] + t3;
    var t1 := [(u, actions[1])] + t2;
    turns := [(u, actions[0])] + t1;
    RunOne(s4, u, actions[4]);
    RunFirst(s3, u, actions[3], [(u, actions[4])]);
    RunFirst(s2, u, actions[2], t3);
    RunFirst(s1, u, actions[1], t2);
    RunFirst(s, u, actions[0], t1);
  }

  lemma RunFirst(s: State, t: nat, a: Action, rest: seq<Turn>)
    ensures Run(s, [(t, a)] + rest) == Run(Step(s, t, a), rest)
  {
    assert ([(t, a)] + rest)[1..] == rest;
  }

  ghost predicate IsSnapshot(table: Table, parts: seq<map<Uuid, u32>>) {
    forall j | 0 <= j < |parts| :: parts[j] == AgesOf(ShardOf(table, j))
  }

  /** A fresh scan through the first `n` shards. */
  lemma ScanFront(records: seq<DogRecord>, n: nat) returns (turns: seq<Turn>)
    requires n <= SHARD_COUNT
    ensures
      var s := Run(Initial(records), turns);
      && s.shards == Initial(records).shards && s.log == [] && s.threads.Keys == {0}
      && At(s, 0).Scanning? && At(s, 0).since == 0 && |At(s, 0).parts| == n
      && forall j | 0 <= j < n :: At(s, 0).parts[j] == AgesOf(s.shards[j])
  {
    var s0 := Initial(records);
    var s1 := Step(s0, 0, InvokeScan);
    var rest := ScansOn(s1, 0, n);
    RunFirst(s0, 0, InvokeScan, rest);
    turns := [(0, InvokeScan)] + rest;
    assert At(s1, 0) == Scanning(0, [], []);
    ScanStarts(s1, n, Run(s1, rest));
  }

  lemma ScanStarts(s: State, n: nat, after: State)
    requires At(s, 0) == Scanning(0, [], []) && s.threads.Keys == {0} && |s.shards| == SHARD_COUNT && n <= SHARD_COUNT
    requires ReadOn(s, 0, n, after)
    ensures after.shards == s.shards && after.log == s.log && after.threads.Keys == {0}
    ensures |At(after, 0).parts| == n && forall j | 0 <= j < n :: At(after, 0).parts[j] == AgesOf(s.shards[j])
  {
  }

  /** Two updates by thread 1 while thread 0 is between shards. */
  lemma TwoUpdates(s: State, first: Call, second: Call) returns (turns: seq<Turn>)
    requires |s.shards| == SHARD_COUNT && s.threads.Keys == {0} && At(s, 0).Scanning? && s.log == []
    requires ShardIndex(first.id) != ShardIndex(second.id)
    ensures
      var t, k := Run(s, turns), ShardIndex(second.id);
      && |t.shards| == SHARD_COUNT && t.shards[k] == Effect(s.shards[k], second)
      && At(t, 0) == At(s, 0) && Alone(t, 0)
      && |t.log| == 2 && t.log[0].call == first && t.log[1].call == second
  {
    var one := UpdatesAlone(s, 1, first);
    var s1 := AfterUpdate(s, 1, first);
    var two := UpdatesAlone(s1, 1, second);
    RunConcat(s, one, two);
    turns := one + two;
  }

  /**
   A scan need not be a snapshot: past the first record's shard, both records are updated, and the
   scan goes on to report the first as it was and the second as it is, which they never were at once.
   Whatever other records there are, this happens to any two in different shards.
   */
  lemma ScanNeedNotBeASnapshot(records: seq<DogRecord>, a: Uuid, b: Uuid, x: u32, y: u32) returns (turns: seq<Turn>)
    requires a in ById(records) && b in ById(records) && ShardIndex(a) < ShardIndex(b)
    requires x != ById(records)[a].age && y != ById(records)[b].age
    ensures
      var s := Run(Initial(records), turns);
      && Finished(At(s, 0))
      && forall m | 0 <= m <= |s.log| :: !IsSnapshot(Replay(ById(records), s.log[..m]), At(s, 0).parts)
  {
    turns := TornScan(records, a, b, x, y);
    var s := Run(Initial(records), turns);
    var e, f := s.log[0], s.log[1];
    assert s.log == [e, f];
    NeverBoth(ById(records), a, b, e, f, At(s, 0).parts);
  }

  lemma TornScan(records: seq<DogRecord>, a: Uuid, b: Uuid, x: u32, y: u32) returns (turns: seq<Turn>)
    requires a in ById(records) && b in ById(records) && ShardIndex(a) < ShardIndex(b)
    ensures
      var s := Run(Initial(records), turns);
      && Finished(At(s, 0))
      && |s.log| == 2 && s.log[0].call == Update(a, x) && s.log[1].call == Update(b, y)
      && var parts := At(s, 0).parts;
         && a in parts[ShardIndex(a)] && parts[ShardIndex(a)][a] == ById(records)[a].age
         && b in parts[ShardIndex(b)] && parts[ShardIndex(b)][b] == y
  {
    var front := ScanFront(records, ShardIndex(a) + 1);
    var s2 := Run(Initial(records), front);
    var updates := TwoUpdates(s2, Update(a, x), Update(b, y));
    var s4 := Run(s2, updates);
    var back := ScansOn(s4, 0, SHARD_COUNT);
    var s5 := Run(s4, back);
    RunConcat(s2, updates, back);
    RunConcat(Initial(records), front, updates + back);
    turns := front + (updates + back);
    TornParts(records, a, b, y, s2, s4, s5);
  }

  /** The first record's part was taken before the updates, the second's after. */
  lemma TornParts(records: seq<DogRecord>, a: Uuid, b: Uuid, y: u32, s2: State, s4: State, s5: State)
    requires a in ById(records) && b in ById(records) && ShardIndex(a) < ShardIndex(b)
    requires s2.shards == Initial(records).shards
    requires At(s2, 0).Scanning? && |At(s2, 0).parts| == ShardIndex(a) + 1
    requires At(s2, 0).parts[ShardIndex(a)] == AgesOf(s2.shards[ShardIndex(a)])
    requires |s4.shards| == SHARD_COUNT && At(s4, 0) == At(s2, 0)
    requires s4.shards[ShardIndex(b)] == Effect(s2.shards[ShardIndex(b)], Update(b, y))
    requires ReadOn(s4, 0, SHARD_COUNT, s5)
    ensures
      var parts := At(s5, 0).parts;
      && |parts| == SHARD_COUNT
      && a in parts[ShardIndex(a)] && parts[ShardIndex(a)][a] == ById(records)[a].age
      && b in parts[ShardIndex(b)] && parts[ShardIndex(b)][b] == y
  {
    var i, j, parts := ShardIndex(a), ShardIndex(b), At(s5, 0).parts;
    assert parts[i] == parts[..i + 1][i];
    assert a in s2.shards[i] && b in s2.shards[j];
    assert parts[j] == AgesOf(ShardAt(s4, j));
  }

  lemma NeverBoth(start: Table, a: Uuid, b: Uuid, e: Event, f: Event, parts: seq<map<Uuid, u32>>)
    requires a in start && b in start && a != b && |parts| == SHARD_COUNT
    requires e.call.Update? && f.call.Update? && e.call.id == a && f.call.id == b
    requires e.call.age != start[a].age && f.call.age != start[b].age
    requires a in parts[ShardIndex(a)] && parts[ShardIndex(a)][a] == start[a].age
    requires b in parts[ShardIndex(b)] && parts[ShardIndex(b)][b] == f.call.age
    ensures forall m | 0 <= m <= 2 :: !IsSnapshot(Replay(start, [e, f][..m]), parts)
  {
    var i, j := ShardIndex(a), ShardIndex(b);
    ReplaySnoc(start, [], e);
    ReplaySnoc(start, [e], f);
    assert [e, f][..0] == [] && [e, f][..1] == [e] && [e, f][..2] == [e] + [f] && [] + [e] == [e];
    forall m | 0 <= m <= 2
      ensures !IsSnapshot(Replay(start, [e, f][..m]), parts)
    {
      var table := Replay(start, [e, f][..m]);
      if m == 2 {
        assert AgesOf(ShardOf(table, i))[a] == e.call.age;
      } else {
        assert AgesOf(ShardOf(table, j))[b] == start[b].age;
      }
    }
  }

  // ----- when a scan is a snapshot -----

  predicate Finished(scan: Thread) {
    scan.Scanning? && |scan.parts| == SHARD_COUNT
  }

  /** If the scan has finished, it shows the map as it was at one moment of the scan. */
  ghost predicate ShowsOneMoment(records: seq<DogRecord>, turns: seq<Turn>, t: nat) {
    var s := Run(Initial(records), turns);
    Finished(At(s, t)) ==>
      exists m :: At(s, t).since <= m <= |s.log| && IsSnapshot(Replay(ById(records), s.log[..m]), At(s, t).parts)
  }

  predicate OneShard(records: seq<DogRecord>) {
    forall a, b | a in ById(records) && b in ById(records) :: ShardIndex(a) == ShardIndex(b)
  }

  /** Every finished scan of every run is a snapshot exactly when all the records are in one shard. */
  lemma ScansAreSnapshotsIff(records: seq<DogRecord>)
    ensures (forall turns, t :: ShowsOneMoment(records, turns, t)) <==> OneShard(records)
  {
    if OneShard(records) {
      forall turns, t
        ensures ShowsOneMoment(records, turns, t)
      {
        if Finished(At(Run(Initial(records), turns), t)) {
          OneShardScanIsSnapshot(records, turns, t);
        }
      }
    } else {
      var turns := SomeScanIsTorn(records);
      assert !ShowsOneMoment(records, turns, 0);
    }
  }

  lemma SomeScanIsTorn(records: seq<DogRecord>) returns (turns: seq<Turn>)
    requires !OneShard(records)
    ensures !ShowsOneMoment(records, turns, 0)
  {
    var table := ById(records);
    var a, b :| a in table && b in table && ShardIndex(a) < ShardIndex(b);
    turns := ScanNeedNotBeASnapshot(records, a, b,
                                    if table[a].age == 0 then 1 else 0, if table[b].age == 0 then 1 else 0);
  }

  lemma OneShardScanIsSnapshot(records: seq<DogRecord>, turns: seq<Turn>, t: nat)
    requires OneShard(records) && Finished(At(Run(Initial(records), turns), t))
    ensures ShowsOneMoment(records, turns, t)
  {
    var start, s := ById(records), Run(Initial(records), turns);
    var scan := At(s, t);
    EveryScanSeesShardsInTurn(records, turns, t);
    var k := if start == map[] then 0 else var id :| id in start; ShardIndex(id);
    var m := scan.moments[k];
    ReplayKeepsIds(start, s.log[..m]);
    forall j | 0 <= j < SHARD_COUNT
      ensures scan.parts[j] == AgesOf(ShardOf(Replay(start, s.log[..m]), j))
    {
      if j != k {
        assert scan.parts[j] == map[];
        assert ShardOf(Replay(start, s.log[..m]), j) == map[];
      }
    }
    assert IsSnapshot(Replay(start, s.log[..m]), scan.parts);
  }
}
