/**
 The sharded store's own code (src/concurrency/sharded.rs), each call running with its locks held:
 what one turn of each thread does in Sharded.
 */
module ShardedStores {
  import opened Bytes
  import opened Records
  import opened Sharded

  class ShardedStore {
    const shards: array<Table>

    ghost predicate Valid()
      reads shards
    {
      && shards.Length == SHARD_COUNT
      && forall k, id | 0 <= k < SHARD_COUNT && id in shards[k] :: ShardIndex(id) == k
    }

    constructor (records: seq<DogRecord>)
      ensures fresh(shards) && Valid()
      ensures shards[..] == Initial(records).shards
    {
      shards := new Table[SHARD_COUNT](_ => map[]);
      new;
      for i := 0 to |records|
        invariant forall k | 0 <= k < SHARD_COUNT :: shards[k] == ShardOf(ById(records[..i]), k)
      {
        assert records[..i + 1][..i] == records[..i];
        var k := ShardIndex(records[i].id);
        shards[k] := shards[k][records[i].id := records[i]];
      }
      assert records[..|records|] == records;
    }

    method Get(id: Uuid) returns (r: Option<DogRecord>)
      requires Valid()
      ensures Found(r) == Answer(shards[ShardIndex(id)], Call.Get(id))
    {
      var shard := shards[ShardIndex(id)];
      r := if id in shard then Some(shard[id]) else None;
    }

    method UpdateAge(id: Uuid, age: u32) returns (r: Result<(), StoreError>)
      requires Valid()
      modifies shards
      ensures Valid()
      ensures r == if Answer(old(shards[ShardIndex(id)]), Update(id, age)).Updated? then Ok(()) else Err(NotFound(id))
      ensures shards[..] == old(shards[..])[ShardIndex(id) := Effect(old(shards[ShardIndex(id)]), Update(id, age))]
    {
      var k := ShardIndex(id);
      if id !in shards[k] {
        return Err(NotFound(id));
      }
      shards[k] := shards[k][id := shards[k][id].(age := age)];
      r := Ok(());
    }

    /** One age per record, shard after shard. */
    method ScanAges() returns (ages: seq<u32>)
      requires Valid()
      ensures Lists(ages, AllAges(shards[..]))
    {
      ages := [];
      ghost var ids: seq<Uuid> := [];
      for k := 0 to SHARD_COUNT
        invariant ListedBy(ages, ids, AllAges(shards[..k]))
      {
        var part := AgesIn(shards[k]);
        ghost var partIds :| ListedBy(part, partIds, AgesOf(shards[k]));
        assert shards[..k + 1][..k] == shards[..k];
        AllAgesFound(shards[..k]);
        ListsJoin(ages, ids, AllAges(shards[..k]), part, partIds, AgesOf(shards[k]));
        ages, ids := ages + part, ids + partIds;
      }
      assert shards[..SHARD_COUNT] == shards[..];
    }
  }

  /** The ages of every record of every shard. */
  function AllAges(shards: seq<Table>): map<Uuid, u32> {
    if shards == [] then map[] else AllAges(shards[..|shards| - 1]) + AgesOf(shards[|shards| - 1])
  }

  /** In shards that hold only their own ids, each id is found in its shard. */
  lemma {:induction false} AllAgesFound(shards: seq<Table>)
    requires forall k, id | 0 <= k < |shards| && id in shards[k] :: ShardIndex(id) == k
    ensures forall id :: id in AllAges(shards) <==> ShardIndex(id) < |shards| && id in shards[ShardIndex(id)]
    ensures forall id | id in AllAges(shards) :: AllAges(shards)[id] == shards[ShardIndex(id)][id].age
  {
    if shards != [] {
      AllAgesFound(shards[..|shards| - 1]);
    }
  }

  lemma {:induction false} ListsJoin(
      a: seq<u32>, ids: seq<Uuid>, s: map<Uuid, u32>, b: seq<u32>, more: seq<Uuid>, t: map<Uuid, u32>)
    requires ListedBy(a, ids, s) && ListedBy(b, more, t) && s.Keys !! t.Keys
    ensures ListedBy(a + b, ids + more, s + t)
    decreases |b|
  {
    if b == [] {
      assert a + b == a && ids + more == ids && s + t == s;
    } else {
      var n := |b| - 1;
      ListOneLess(b, more, t);
      ListsJoin(a, ids, s, b[..n], more[..n], t - {more[n]});
      ListOneMore(a + b[..n], ids + more[..n], s + (t - {more[n]}), more[n], b[n]);
      LastComesBack(a, b);
      LastComesBack(ids, more);
      EntryComesBack(s, t, more[n]);
    }
  }

  lemma LastComesBack<T>(a: seq<T>, b: seq<T>)
    requires b != []
    ensures a + b[..|b| - 1] + [b[|b| - 1]] == a + b
  {
  }

  lemma EntryComesBack(s: map<Uuid, u32>, t: map<Uuid, u32>, id: Uuid)
    requires id in t
    ensures (s + (t - {id}))[id := t[id]] == s + t
  {
  }

  lemma ListOneLess(b: seq<u32>, more: seq<Uuid>, t: map<Uuid, u32>)
    requires ListedBy(b, more, t) && b != []
    ensures ListedBy(b[..|b| - 1], more[..|b| - 1], t - {more[|b| - 1]})
  {
    var n := |b| - 1;
    forall id | id in t - {more[n]}
      ensures id in more[..n]
    {
      assert id in more;
    }
  }

  /** `guard.values().map(|record| record.age)`: the ages of one shard, in no particular order. */
  method AgesIn(shard: Table) returns (ages: seq<u32>)
    ensures Lists(ages, AgesOf(shard))
  {
    ages := [];
    ghost var ids: seq<Uuid> := [];
    var left := shard.Keys;
    while left != {}
      invariant left <= shard.Keys
      invariant ListedBy(ages, ids, AgesOf(shard) - left)
      decreases left
    {
      var id :| id in left;
      ListOneMore(ages, ids, AgesOf(shard) - left, id, shard[id].age);
      assert AgesOf(shard) - (left - {id}) == (AgesOf(shard) - left)[id := shard[id].age];
      ages, ids := ages + [shard[id].age], ids + [id];
      left := left - {id};
    }
    assert AgesOf(shard) - left == AgesOf(shard);
  }
}
