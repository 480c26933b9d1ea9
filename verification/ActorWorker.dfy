/**
 The actor's worker thread (src/concurrency/actor.rs): a loop over the requests as they arrive, on a
 store nobody else can reach.
 */
module ActorWorkers {
  import opened Records
  import opened Actor
  import CS = CanonicalState

  /** One request, answered by the store's own method. */
  method ServeRequest(store: CS.CanonicalCachedState, request: Request) returns (reply: Reply)
    requires CS.Consistent(store.Value())
    modifies store
    ensures CS.Consistent(store.Value())
    ensures reply == Answer(old(store.Value()), request)
    ensures store.Value() == Effect(old(store.Value()), request)
    ensures forall records, sets | CS.ShowsAfter(records, sets, old(store.Value())) ::
              Owed(records, sets, request, reply)
  {
    ghost var before := store.Value();
    forall records, sets | CS.ShowsAfter(records, sets, before)
      ensures Owed(records, sets, request, Answer(before, request))
    {
      AnswerIsOwed(records, sets, before, request);
    }
    match request {
      case Get(id) =>
        var record := store.Get(id);
        reply := Record(record);
      case ScanAges =>
        var ages := store.ScanAges();
        reply := Ages(ages);
      case UpdateAge(id, age) =>
        var outcome := store.UpdateAge(id, age);
        reply := Done(outcome);
    }
  }

  /** The loop over whatever is sent until the channel closes: every request answered, in order. */
  method Work(records: seq<DogRecord>, edges: seq<Edge>, received: seq<Message>)
    returns (replies: seq<Reply>, store: CS.CanonicalCachedState)
    ensures |replies| == |received|
    ensures forall i | 0 <= i < |received| :: replies[i] == Outcome(CS.NewState(records, edges), received, i)
    ensures forall i | 0 <= i < |received| :: Owed(records, SetsOf(received[..i]), received[i].request, replies[i])
    ensures fresh(store) && store.Value() == After(CS.NewState(records, edges), received)
  {
    ghost var start := CS.NewState(records, edges);
    store := new CS.CanonicalCachedState.NewSequential(records, edges);
    replies := [];
    for i := 0 to |received|
      invariant |replies| == i && fresh(store) && CS.Consistent(store.Value())
      invariant store.Value() == After(start, received[..i])
      invariant forall j | 0 <= j < i :: replies[j] == Outcome(start, received, j)
    {
      AfterOneMore(start, received, i);
      var reply := ServeRequest(store, received[i].request);
      replies := replies + [reply];
    }
    assert received[..|received|] == received;
    forall i | 0 <= i < |received|
      ensures Owed(records, SetsOf(received[..i]), received[i].request, replies[i])
    {
      OutcomeIsOwed(records, edges, received, i);
    }
  }
}
