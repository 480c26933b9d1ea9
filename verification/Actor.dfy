/**
 The actor store (src/concurrency/actor.rs) as clients and one worker taking turns: a client makes
 a reply channel, puts a request on the queue and waits; the worker takes a request off the queue,
 runs it on the store it alone owns, and sends the answer down the request's channel.

 Whatever the order of the turns, every answer is what a sequential store gives when it is fed the
 requests in queue order.
 */
module Actor {
  import opened Bytes
  import opened Folds
  import opened Records
  import CS = CanonicalState

  datatype Request = Get(id: Uuid) | ScanAges | UpdateAge(id: Uuid, age: u32)

  datatype Reply = Record(record: Option<DogRecord>) | Ages(ages: seq<u32>) | Done(outcome: Result<(), StoreError>)

  // ----- the sequential store -----

  function Answer(store: CS.State, request: Request): Reply {
    match request
    case Get(id) => Record(if id in store.records then Some(store.records[id]) else None)
    case ScanAges => Ages(store.ageCache)
    case UpdateAge(id, age) => Done(if id in store.records then Ok(()) else Err(NotFound(id)))
  }

  function Effect(store: CS.State, request: Request): CS.State {
    if request.UpdateAge? then CS.WithAge(store, request.id, request.age) else store
  }

  datatype Message = Message(from: nat, channel: nat, request: Request)

  function After(start: CS.State, sent: seq<Message>): CS.State {
    Fold((store: CS.State, m: Message) => Effect(store, m.request), start, sent)
  }

  /** What the sequential store answers the `i`th request sent. */
  function Outcome(start: CS.State, sent: seq<Message>, i: nat): Reply
    requires i < |sent|
  {
    Answer(After(start, sent[..i]), sent[i].request)
  }

  // ----- clients, queue and worker -----

  datatype Client =
    | Free
    | Prepared(channel: nat, request: Request)
    | Waiting(channel: nat, request: Request, index: nat)

  datatype Worker = Listening | Taken(message: Message) | Served(message: Message, reply: Reply)

  datatype Returned = Returned(from: nat, index: nat, reply: Reply)

  /** `sent` and `returned` are the histories: every message queued, every call answered. */
  datatype State = State(
    nextChannel: nat, queue: seq<Message>, worker: Worker, store: CS.State, mailboxes: map<nat, Reply>,
    clients: map<nat, Client>, sent: seq<Message>, returned: seq<Returned>)

  datatype Action =
    | Prepare(client: nat, request: Request)
    | Send(client: nat)
    | Take
    | Serve
    | Deliver
    | Receive(client: nat)

  function At(s: State, t: nat): Client {
    if t in s.clients then s.clients[t] else Free
  }

  /** One turn. One whose time has not come waits. */
  function Step(s: State, a: Action): State {
    match a
    case Prepare(t, request) =>
      if At(s, t).Free? then
        s.(clients := s.clients[t := Prepared(s.nextChannel, request)], nextChannel := s.nextChannel + 1)
      else s
    case Send(t) =>
      if At(s, t).Prepared? then
        var m := Message(t, At(s, t).channel, At(s, t).request);
        s.(clients := s.clients[t := Waiting(m.channel, m.request, |s.sent|)],
           queue := s.queue + [m], sent := s.sent + [m])
      else s
    case Take =>
      if s.worker.Listening? && s.queue != [] then s.(worker := Taken(s.queue[0]), queue := s.queue[1..]) else s
    case Serve =>
      if s.worker.Taken? then
        var m := s.worker.message;
        s.(worker := Served(m, Answer(s.store, m.request)), store := Effect(s.store, m.request))
      else s
    case Deliver =>
      if s.worker.Served? then
        s.(mailboxes := s.mailboxes[s.worker.message.channel := s.worker.reply], worker := Listening)
      else s
    case Receive(t) =>
      if At(s, t).Waiting? && At(s, t).channel in s.mailboxes then
        var c := At(s, t);
        s.(clients := s.clients[t := Free], mailboxes := s.mailboxes - {c.channel},
           returned := s.returned + [Returned(t, c.index, s.mailboxes[c.channel])])
      else s
  }

  function Initial(start: CS.State): State {
    State(0, [], Listening, start, map[], map[], [], [])
  }

  /** How many messages have been taken off the queue, and how many of those answered. */
  function TakenCount(s: State): int { |s.sent| - |s.queue| }

  function DeliveredCount(s: State): int {
    TakenCount(s) - if s.worker.Listening? then 0 else 1
  }

  // ----- what every turn keeps -----

  /** The queue is the tail of what was sent; the store has run everything before it, in order. */
  ghost predicate WorkerOk(s: State, start: CS.State) {
    var taken := TakenCount(s);
    && 0 <= DeliveredCount(s) && taken <= |s.sent|
    && s.queue == s.sent[taken..]
    && match s.worker
       case Listening => s.store == After(start, s.sent[..taken])
       case Taken(m) => m == s.sent[taken - 1] && s.store == After(start, s.sent[..taken - 1])
       case Served(m, reply) =>
         && m == s.sent[taken - 1] && reply == Outcome(start, s.sent, taken - 1)
         && s.store == After(start, s.sent[..taken])
  }

  /** No two messages share a channel, and none uses a channel still to be sent on. */
  ghost predicate ChannelsOk(s: State) {
    && (forall i, j | 0 <= i < j < |s.sent| :: s.sent[i].channel != s.sent[j].channel)
    && (forall i | 0 <= i < |s.sent| :: s.sent[i].channel < s.nextChannel)
    && (forall c | c in s.mailboxes :: c < s.nextChannel)
    && (forall t | t in s.clients && s.clients[t].Prepared? :: PreparedOk(s, s.clients[t].channel))
    && forall t, u | t in s.clients && u in s.clients && t != u && s.clients[t].Prepared? && s.clients[u].Prepared? ::
         s.clients[t].channel != s.clients[u].channel
  }

  predicate PreparedOk(s: State, channel: nat) {
    && channel < s.nextChannel && channel !in s.mailboxes
    && forall i | 0 <= i < |s.sent| :: s.sent[i].channel != channel
  }

  /** A waiting client's message is the one it sent, its mailbox full exactly when that one was answered. */
  ghost predicate WaitingOk(s: State, start: CS.State, t: nat, c: Client) {
    c.Waiting? ==>
      && c.index < |s.sent| && s.sent[c.index] == Message(t, c.channel, c.request)
      && (c.channel in s.mailboxes <==> c.index < DeliveredCount(s))
      && (c.channel in s.mailboxes ==> s.mailboxes[c.channel] == Outcome(start, s.sent, c.index))
      && forall k | 0 <= k < |s.returned| :: s.returned[k].index != c.index
  }

  ghost predicate ClientsOk(s: State, start: CS.State) {
    && (forall t | t in s.clients :: WaitingOk(s, start, t, s.clients[t]))
    && forall i | 0 <= DeliveredCount(s) <= i < |s.sent| :: SenderWaits(s, i)
  }

  /** Nobody has given up waiting on the `i`th message. */
  predicate SenderWaits(s: State, i: nat)
    requires i < |s.sent|
  {
    At(s, s.sent[i].from) == Waiting(s.sent[i].channel, s.sent[i].request, i)
  }

  ghost predicate ReturnedOk(s: State, start: CS.State, r: Returned) {
    && r.index < |s.sent| && r.index < DeliveredCount(s)
    && s.sent[r.index].from == r.from
    && r.reply == Outcome(start, s.sent, r.index)
  }

  ghost predicate HistoryOk(s: State, start: CS.State) {
    && (forall k | 0 <= k < |s.returned| :: ReturnedOk(s, start, s.returned[k]))
    && forall j, k | 0 <= j < k < |s.returned| :: s.returned[j].index != s.returned[k].index
  }

  ghost predicate Inv(s: State, start: CS.State) {
    WorkerOk(s, start) && ChannelsOk(s) && ClientsOk(s, start) && HistoryOk(s, start)
  }

  lemma InitialHolds(start: CS.State)
    ensures Inv(Initial(start), start)
  {
  }

  lemma PrepareKeepsChannels(s: State, t: nat, request: Request)
    requires ChannelsOk(s) && At(s, t).Free?
    ensures ChannelsOk(Step(s, Prepare(t, request)))
  {
    var next := Step(s, Prepare(t, request));
    forall u | u in next.clients && next.clients[u].Prepared?
      ensures PreparedOk(next, next.clients[u].channel)
    {
      assert u != t ==> PreparedOk(s, s.clients[u].channel);
    }
  }

  lemma PrepareKeeps(s: State, start: CS.State, t: nat, request: Request)
    requires Inv(s, start)
    ensures Inv(Step(s, Prepare(t, request)), start)
  {
    var next := Step(s, Prepare(t, request));
    if At(s, t).Free? {
      forall u | u in next.clients
        ensures WaitingOk(next, start, u, next.clients[u])
      {
        assert u != t ==> WaitingOk(s, start, u, s.clients[u]);
      }
      forall i | 0 <= DeliveredCount(next) <= i < |next.sent|
        ensures SenderWaits(next, i)
      {
        assert SenderWaits(s, i);
      }
      forall k | 0 <= k < |next.returned|
        ensures ReturnedOk(next, start, next.returned[k])
      {
        assert ReturnedOk(s, start, s.returned[k]);
      }
      PrepareKeepsChannels(s, t, request);
    }
  }

  /** A message more does not change the answer to an earlier one. */
  lemma OutcomeStands(start: CS.State, sent: seq<Message>, m: Message, i: nat)
    requires i < |sent|
    ensures Outcome(start, sent + [m], i) == Outcome(start, sent, i)
  {
    assert (sent + [m])[..i] == sent[..i];
  }

  lemma SendKeepsWorker(s: State, start: CS.State, t: nat)
    requires Inv(s, start) && At(s, t).Prepared?
    ensures WorkerOk(Step(s, Send(t)), start)
    ensures TakenCount(Step(s, Send(t))) == TakenCount(s)
  {
    var next, taken := Step(s, Send(t)), TakenCount(s);
    assert next.sent[taken..] == s.sent[taken..] + [next.sent[|s.sent|]];
    assert next.sent[..taken] == s.sent[..taken];
    if !s.worker.Listening? {
      assert next.sent[..taken - 1] == s.sent[..taken - 1];
    }
  }

  lemma SendKeepsClients(s: State, start: CS.State, t: nat)
    requires Inv(s, start) && At(s, t).Prepared?
    ensures ClientsOk(Step(s, Send(t)), start)
  {
    var next := Step(s, Send(t));
    var m := next.sent[|s.sent|];
    SendKeepsWorker(s, start, t);
    forall u | u in next.clients
      ensures WaitingOk(next, start, u, next.clients[u])
    {
      if u == t {
        assert PreparedOk(s, m.channel);
        forall k | 0 <= k < |s.returned|
          ensures s.returned[k].index != |s.sent|
        {
          assert ReturnedOk(s, start, s.returned[k]);
        }
      } else {
        assert WaitingOk(s, start, u, s.clients[u]);
        if s.clients[u].Waiting? { OutcomeStands(start, s.sent, m, s.clients[u].index); }
      }
    }
    forall i | 0 <= DeliveredCount(next) <= i < |next.sent|
      ensures SenderWaits(next, i)
    {
      if i < |s.sent| { assert SenderWaits(s, i); }
    }
  }

  lemma SendKeeps(s: State, start: CS.State, t: nat)
    requires Inv(s, start)
    ensures Inv(Step(s, Send(t)), start)
  {
    var next := Step(s, Send(t));
    if At(s, t).Prepared? {
      SendKeepsWorker(s, start, t);
      SendKeepsClients(s, start, t);
      SendKeepsChannels(s, t);
      forall k | 0 <= k < |next.returned|
        ensures ReturnedOk(next, start, next.returned[k])
      {
        assert ReturnedOk(s, start, s.returned[k]);
        OutcomeStands(start, s.sent, next.sent[|s.sent|], s.returned[k].index);
      }
    }
  }

  lemma SendKeepsChannels(s: State, t: nat)
    requires ChannelsOk(s) && At(s, t).Prepared?
    ensures ChannelsOk(Step(s, Send(t)))
  {
    var next := Step(s, Send(t));
    assert PreparedOk(s, At(s, t).channel);
    forall u | u in next.clients && next.clients[u].Prepared?
      ensures PreparedOk(next, next.clients[u].channel)
    {
      assert PreparedOk(s, s.clients[u].channel);
    }
  }

  /** The worker's own turns: nothing a client relies on changes but its mailbox. */
  lemma SameForClients(s: State, next: State, start: CS.State)
    requires ClientsOk(s, start) && HistoryOk(s, start) && ChannelsOk(s)
    requires next.clients == s.clients && next.sent == s.sent && next.mailboxes == s.mailboxes
    requires next.returned == s.returned && next.nextChannel == s.nextChannel
    requires DeliveredCount(next) == DeliveredCount(s)
    ensures ClientsOk(next, start) && HistoryOk(next, start) && ChannelsOk(next)
  {
    forall t | t in next.clients
      ensures WaitingOk(next, start, t, next.clients[t])
    {
      assert WaitingOk(s, start, t, s.clients[t]);
    }
    forall i | 0 <= DeliveredCount(next) <= i < |next.sent|
      ensures SenderWaits(next, i)
    {
      assert SenderWaits(s, i);
    }
    forall k | 0 <= k < |next.returned|
      ensures ReturnedOk(next, start, next.returned[k])
    {
      assert ReturnedOk(s, start, s.returned[k]);
    }
    forall t | t in next.clients && next.clients[t].Prepared?
      ensures PreparedOk(next, next.clients[t].channel)
    {
      assert PreparedOk(s, s.clients[t].channel);
    }
  }

  lemma TakeKeeps(s: State, start: CS.State)
    requires Inv(s, start)
    ensures Inv(Step(s, Take), start)
  {
    var next, taken := Step(s, Take), TakenCount(s);
    if s.worker.Listening? && s.queue != [] {
      assert s.sent[taken..][0] == s.sent[taken] && s.sent[taken..][1..] == s.sent[taken + 1..];
      SameForClients(s, next, start);
    }
  }

  lemma AfterOneMore(start: CS.State, sent: seq<Message>, i: nat)
    requires i < |sent|
    ensures After(start, sent[..i + 1]) == Effect(After(start, sent[..i]), sent[i].request)
  {
    assert sent[..i + 1] == sent[..i] + [sent[i]];
    FoldSnoc((store: CS.State, m: Message) => Effect(store, m.request), start, sent[..i], sent[i]);
  }

  lemma ServeKeeps(s: State, start: CS.State)
    requires Inv(s, start)
    ensures Inv(Step(s, Serve), start)
  {
    if s.worker.Taken? {
      AfterOneMore(start, s.sent, TakenCount(s) - 1);
      SameForClients(s, Step(s, Serve), start);
    }
  }

  lemma DeliverKeepsChannels(s: State)
    requires ChannelsOk(s) && s.worker.Served? && exists i :: 0 <= i < |s.sent| && s.sent[i] == s.worker.message
    ensures ChannelsOk(Step(s, Deliver))
  {
    var next := Step(s, Deliver);
    forall t | t in next.clients && next.clients[t].Prepared?
      ensures PreparedOk(next, next.clients[t].channel)
    {
      assert PreparedOk(s, s.clients[t].channel);
    }
  }

  lemma DeliverKeeps(s: State, start: CS.State)
    requires Inv(s, start)
    ensures Inv(Step(s, Deliver), start)
  {
    var next := Step(s, Deliver);
    if s.worker.Served? {
      var i := TakenCount(s) - 1;
      assert SenderWaits(s, i);
      forall t | t in next.clients
        ensures WaitingOk(next, start, t, next.clients[t])
      {
        assert WaitingOk(s, start, t, s.clients[t]);
        if s.clients[t].Waiting? && s.clients[t].index != i {
          assert s.clients[t].channel != s.sent[i].channel;
        }
      }
      forall j | 0 <= DeliveredCount(next) <= j < |next.sent|
        ensures SenderWaits(next, j)
      {
        assert SenderWaits(s, j);
      }
      forall k | 0 <= k < |next.returned|
        ensures ReturnedOk(next, start, next.returned[k])
      {
        assert ReturnedOk(s, start, s.returned[k]);
      }
      DeliverKeepsChannels(s);
    }
  }

  lemma ReceiveKeepsClients(s: State, start: CS.State, t: nat)
    requires Inv(s, start) && At(s, t).Waiting? && At(s, t).channel in s.mailboxes
    ensures ClientsOk(Step(s, Receive(t)), start)
  {
    var next, c := Step(s, Receive(t)), At(s, t);
    assert WaitingOk(s, start, t, c);
    forall u | u in next.clients
      ensures WaitingOk(next, start, u, next.clients[u])
    {
      assert WaitingOk(s, start, u, s.clients[u]);
      if u != t && s.clients[u].Waiting? {
        assert s.clients[u].index != c.index;
        assert s.clients[u].channel != c.channel;
      }
    }
    forall i | 0 <= DeliveredCount(next) <= i < |next.sent|
      ensures SenderWaits(next, i)
    {
      assert SenderWaits(s, i);
    }
  }

  lemma ReceiveKeepsHistory(s: State, start: CS.State, t: nat)
    requires Inv(s, start) && At(s, t).Waiting? && At(s, t).channel in s.mailboxes
    ensures HistoryOk(Step(s, Receive(t)), start)
  {
    var next := Step(s, Receive(t));
    assert WaitingOk(s, start, t, At(s, t));
    forall k | 0 <= k < |next.returned|
      ensures ReturnedOk(next, start, next.returned[k])
    {
      if k < |s.returned| { assert ReturnedOk(s, start, s.returned[k]); }
    }
  }

  lemma ReceiveKeepsChannels(s: State, t: nat)
    requires ChannelsOk(s) && At(s, t).Waiting? && At(s, t).channel in s.mailboxes
    ensures ChannelsOk(Step(s, Receive(t)))
  {
    var next := Step(s, Receive(t));
    forall u | u in next.clients && next.clients[u].Prepared?
      ensures PreparedOk(next, next.clients[u].channel)
    {
      assert PreparedOk(s, s.clients[u].channel);
    }
  }

  lemma ReceiveKeeps(s: State, start: CS.State, t: nat)
    requires Inv(s, start)
    ensures Inv(Step(s, Receive(t)), start)
  {
    var next := Step(s, Receive(t));
    if At(s, t).Waiting? && At(s, t).channel in s.mailboxes {
      assert WaitingOk(s, start, t, At(s, t));
      ReceiveKeepsClients(s, start, t);
      ReceiveKeepsHistory(s, start, t);
      ReceiveKeepsChannels(s, t);
    }
  }

  lemma StepKeeps(s: State, start: CS.State, a: Action)
    requires Inv(s, start)
    ensures Inv(Step(s, a), start)
  {
    match a
    case Prepare(t, request) => PrepareKeeps(s, start, t, request);
    case Send(t) => SendKeeps(s, start, t);
    case Take => TakeKeeps(s, start);
    case Serve => ServeKeeps(s, start);
    case Deliver => DeliverKeeps(s, start);
    case Receive(t) => ReceiveKeeps(s, start, t);
  }

  // ----- whole runs -----

  function Run(s: State, turns: seq<Action>): State
    decreases |turns|
  {
    if turns == [] then s else Run(Step(s, turns[0]), turns[1..])
  }

  lemma {:induction false} RunKeeps(s: State, start: CS.State, turns: seq<Action>)
    requires Inv(s, start)
    ensures Inv(Run(s, turns), start)
    decreases |turns|
  {
    if turns != [] {
      StepKeeps(s, start, turns[0]);
      RunKeeps(Step(s, turns[0]), start, turns[1..]);
    }
  }

  /**
   In every run, each answered call was answered once, with the sequential store's answer to the
   message that same client sent, and the store the worker owns is that sequential store.
   */
  lemma EveryRunIsSequential(start: CS.State, turns: seq<Action>)
    ensures
      var s := Run(Initial(start), turns);
      && (forall k | 0 <= k < |s.returned| :: ReturnedOk(s, start, s.returned[k]))
      && (forall j, k | 0 <= j < k < |s.returned| :: s.returned[j].index != s.returned[k].index)
      && |s.queue| <= |s.sent|
      && (s.worker.Listening? ==> s.store == After(start, s.sent[..|s.sent| - |s.queue|]))
  {
    InitialHolds(start);
    RunKeeps(Initial(start), start, turns);
  }

  // ----- what the answers are -----

  /** The updates among the messages, in order. */
  function SetsOf(sent: seq<Message>): seq<(Uuid, u32)> {
    if sent == [] then []
    else
      var last := sent[|sent| - 1].request;
      SetsOf(sent[..|sent| - 1]) + if last.UpdateAge? then [(last.id, last.age)] else []
  }

  /**
   What a store built from `records` owes a request after these updates: a get the last record of the id
   with the last age set, a scan one age for each record at its place, an update its acceptance exactly
   for ids listed.
   */
  ghost predicate Owed(records: seq<DogRecord>, sets: seq<(Uuid, u32)>, request: Request, reply: Reply) {
    match request
    case Get(id) => reply == Record(RecordAfter(records, sets, id))
    case ScanAges =>
      && reply.Ages? && |reply.ages| == |records|
      && forall i | 0 <= i < |records| :: reply.ages[i] == CS.CellAfter(records, sets, i)
    case UpdateAge(id, _) => reply == Done(if Listed(records, id) then Ok(()) else Err(NotFound(id)))
  }

  lemma {:induction false} AfterShows(records: seq<DogRecord>, edges: seq<Edge>, sent: seq<Message>)
    ensures CS.ShowsAfter(records, SetsOf(sent), After(CS.NewState(records, edges), sent))
  {
    var start := CS.NewState(records, edges);
    if sent == [] {
      CS.NewShows(records, edges);
    } else {
      var n := |sent| - 1;
      var last := sent[n].request;
      AfterShows(records, edges, sent[..n]);
      AfterOneMore(start, sent, n);
      assert sent[..n + 1] == sent;
      if last.UpdateAge? {
        CS.UpdateShows(records, SetsOf(sent[..n]), After(start, sent[..n]), last.id, last.age);
      } else {
        assert SetsOf(sent) == SetsOf(sent[..n]);
      }
    }
  }

  lemma AnswerIsOwed(records: seq<DogRecord>, sets: seq<(Uuid, u32)>, store: CS.State, request: Request)
    requires CS.ShowsAfter(records, sets, store)
    ensures Owed(records, sets, request, Answer(store, request))
  {
    if !request.ScanAges? {
      assert CS.RecordOf(store, request.id) == RecordAfter(records, sets, request.id);
      ByIdLists(records, request.id);
    }
  }

  /** Every message, once answered, gets what the messages sent before it make it owed. */
  lemma OutcomeIsOwed(records: seq<DogRecord>, edges: seq<Edge>, sent: seq<Message>, i: nat)
    requires i < |sent|
    ensures Owed(records, SetsOf(sent[..i]), sent[i].request, Outcome(CS.NewState(records, edges), sent, i))
  {
    AfterShows(records, edges, sent[..i]);
    AnswerIsOwed(records, SetsOf(sent[..i]), After(CS.NewState(records, edges), sent[..i]), sent[i].request);
  }

  /**
   In every run over a store built from a list, each call that has returned was given what the updates
   sent before its message make it owed.
   */
  lemma EveryReplyIsOwed(records: seq<DogRecord>, edges: seq<Edge>, turns: seq<Action>)
    ensures
      var s := Run(Initial(CS.NewState(records, edges)), turns);
      forall k | 0 <= k < |s.returned| ::
        && s.returned[k].index < |s.sent|
        && s.sent[s.returned[k].index].from == s.returned[k].from
        && Owed(records, SetsOf(s.sent[..s.returned[k].index]), s.sent[s.returned[k].index].request,
                s.returned[k].reply)
  {
    var s := Run(Initial(CS.NewState(records, edges)), turns);
    EveryRunIsSequential(CS.NewState(records, edges), turns);
    forall k | 0 <= k < |s.returned|
      ensures s.returned[k].index < |s.sent|
      ensures s.sent[s.returned[k].index].from == s.returned[k].from
      ensures Owed(records, SetsOf(s.sent[..s.returned[k].index]), s.sent[s.returned[k].index].request,
                   s.returned[k].reply)
    {
      assert ReturnedOk(s, CS.NewState(records, edges), s.returned[k]);
      OutcomeIsOwed(records, edges, s.sent, s.returned[k].index);
    }
  }

  // ----- real time -----

  /** A client with nothing queued before position `n`, and nothing answered from before it since `m`. */
  ghost predicate NotBefore(s: State, t: nat, n: nat, m: nat) {
    && |s.sent| >= n && |s.returned| >= m
    && (At(s, t).Waiting? ==> At(s, t).index >= n)
    && forall k | m <= k < |s.returned| && s.returned[k].from == t :: s.returned[k].index >= n
  }

  lemma {:induction false} StaysNotBefore(s: State, t: nat, n: nat, m: nat, turns: seq<Action>)
    requires NotBefore(s, t, n, m)
    ensures NotBefore(Run(s, turns), t, n, m)
    ensures s.returned <= Run(s, turns).returned
    decreases |turns|
  {
    if turns != [] {
      StaysNotBefore(Step(s, turns[0]), t, n, m, turns[1..]);
    }
  }

  /** A call answered before another is begun comes before it in queue order. */
  lemma OrderFollowsRealTime(start: CS.State, turns: seq<Action>, more: seq<Action>, t: nat, j: nat, k: nat)
    requires At(Run(Initial(start), turns), t).Free?
    requires j < |Run(Initial(start), turns).returned| <= k < |Run(Run(Initial(start), turns), more).returned|
    requires Run(Run(Initial(start), turns), more).returned[k].from == t
    ensures
      var s := Run(Run(Initial(start), turns), more);
      j < |s.returned| && s.returned[j].index < s.returned[k].index
  {
    var middle := Run(Initial(start), turns);
    InitialHolds(start);
    RunKeeps(Initial(start), start, turns);
    assert ReturnedOk(middle, start, middle.returned[j]);
    StaysNotBefore(middle, t, |middle.sent|, |middle.returned|, more);
  }

  // ----- nobody waits for ever -----

  lemma {:induction false} RunConcat(s: State, a: seq<Action>, b: seq<Action>)
    ensures Run(s, a + b) == Run(Run(s, a), b)
    decreases |a|
  {
    if a == [] {
      assert a + b == b;
    } else {
      RunConcat(Step(s, a[0]), a[1..], b);
      assert (a + b)[1..] == a[1..] + b;
    }
  }

  /** The worker's three turns, from wherever it is. */
  function Cycle(s: State): State {
    Step(Step(Step(s, Take), Serve), Deliver)
  }

  lemma RunCycle(s: State)
    ensures Run(s, [Take, Serve, Deliver]) == Cycle(s)
  {
    assert [Take, Serve, Deliver][1..] == [Serve, Deliver];
    assert [Serve, Deliver][1..] == [Deliver] && [Deliver][1..] == [];
    assert Run(Step(Step(s, Take), Serve), [Deliver]) == Cycle(s);
  }

  /** From any state the worker, left to itself, empties the queue. */
  lemma {:induction false} WorkerDrains(s: State) returns (turns: seq<Action>)
    ensures Run(s, turns).queue == [] && Run(s, turns).worker.Listening?
    ensures Run(s, turns).clients == s.clients
    decreases |s.queue|, if s.worker.Listening? then 0 else 1
  {
    if s.queue == [] && s.worker.Listening? {
      turns := [];
    } else {
      var next := Cycle(s);
      RunCycle(s);
      var rest := WorkerDrains(next);
      RunConcat(s, [Take, Serve, Deliver], rest);
      turns := [Take, Serve, Deliver] + rest;
    }
  }

  /** So from any reachable state there is a way on that answers every waiting client. */
  lemma EveryoneCanBeAnswered(start: CS.State, turns: seq<Action>) returns (more: seq<Action>)
    ensures
      var s := Run(Run(Initial(start), turns), more);
      && s.clients == Run(Initial(start), turns).clients
      && forall t | t in s.clients && s.clients[t].Waiting? ::
           && s.clients[t].channel in s.mailboxes && s.clients[t].index < |s.sent|
           && s.mailboxes[s.clients[t].channel] == Outcome(start, s.sent, s.clients[t].index)
  {
    var middle := Run(Initial(start), turns);
    InitialHolds(start);
    RunKeeps(Initial(start), start, turns);
    more := WorkerDrains(middle);
    RunKeeps(middle, start, more);
    var s := Run(middle, more);
    forall t | t in s.clients && s.clients[t].Waiting?
      ensures s.clients[t].channel in s.mailboxes && s.clients[t].index < |s.sent|
      ensures s.mailboxes[s.clients[t].channel] == Outcome(start, s.sent, s.clients[t].index)
    {
      assert WaitingOk(s, start, t, s.clients[t]);
    }
  }
}
