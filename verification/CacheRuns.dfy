/** Whole runs of the heap cache: its list is the one the specification computes. */
module CacheRuns {
  import opened Words
  import opened LruSpec
  import opened LruRuns
  import opened LruOwnership
  import opened Cache

  // The cache is in the state the specification reaches after ops.
  ghost predicate Traced<V>(c: Cache<V>, ops: seq<Op<V>>)
    reads c
  {
    c.entries == Run(c.limits, [], ops) && (c.owns ==> multiset(c.freed) == Freed(c.limits, ops))
  }

  // What an operation on a cache that held `before` and had freed `gone` leaves.
  ghost predicate Stepped<V>(c: Cache<V>, op: Op<V>, before: seq<Entry<V>>, gone: seq<V>)
    reads c`entries, c`freed
  {
    var o := Step(c.limits, before, op);
    c.entries == o.entries && c.freed == gone + if c.owns then o.released else []
  }

  method PerformPut<V>(c: Cache<V>, op: Op<V>, room: bool)
    requires c.Valid() && op.Put?
    modifies c, c.buckets, c.members
    ensures c.Valid() && fresh(c.members - old(c.members)) && (c.buckets == old(c.buckets) || fresh(c.buckets))
    ensures Stepped(c, op, old(c.entries), old(c.freed)) && (c.starved ==> old(c.starved) || !room)
  {
    var _ := c.Put(op.key, op.value, op.size, op.memory, room);
  }

  method PerformGet<V>(c: Cache<V>, op: Op<V>)
    requires c.Valid() && op.Get?
    modifies c, c.buckets, c.members
    ensures c.Valid() && fresh(c.members - old(c.members)) && c.buckets == old(c.buckets)
    ensures Stepped(c, op, old(c.entries), old(c.freed)) && c.starved == old(c.starved)
  {
    var _ := c.Get(op.key);
  }

  method PerformRemove<V>(c: Cache<V>, op: Op<V>)
    requires c.Valid() && op.Remove?
    modifies c, c.buckets, c.members
    ensures c.Valid() && fresh(c.members - old(c.members)) && c.buckets == old(c.buckets)
    ensures Stepped(c, op, old(c.entries), old(c.freed)) && c.starved == old(c.starved)
  {
    c.Remove(op.key);
  }

  method PerformClear<V>(c: Cache<V>, op: Op<V>)
    requires c.Valid() && op.Clear?
    modifies c, c.buckets, c.members
    ensures c.Valid() && fresh(c.members - old(c.members)) && c.buckets == old(c.buckets)
    ensures Stepped(c, op, old(c.entries), old(c.freed)) && c.starved == old(c.starved)
  {
    c.Clear();
  }

  // `room` says whether calloc finds room for a larger bucket array.
  method Perform<V>(c: Cache<V>, op: Op<V>, room: bool)
    requires c.Valid()
    modifies c, c.buckets, c.members
    ensures c.Valid() && fresh(c.members - old(c.members)) && (c.buckets == old(c.buckets) || fresh(c.buckets))
    ensures Stepped(c, op, old(c.entries), old(c.freed)) && (c.starved ==> old(c.starved) || !room)
  {
    match op
    case Get(_) => PerformGet(c, op);
    case Put(_, _, _, _) => PerformPut(c, op, room);
    case Remove(_) => PerformRemove(c, op);
    case Clear => PerformClear(c, op);
  }

  // The last of the operations, after the others.
  method PerformLast<V>(c: Cache<V>, ops: seq<Op<V>>, room: bool)
    requires ops != [] && c.Valid() && Traced(c, ops[..|ops| - 1])
    modifies c, c.buckets, c.members
    ensures c.Valid() && fresh(c.members - old(c.members)) && (c.buckets == old(c.buckets) || fresh(c.buckets))
    ensures Traced(c, ops) && (c.starved ==> old(c.starved) || !room)
  {
    Perform(c, ops[|ops| - 1], room);
  }

  // At most three quarters of the buckets' number are entries, unless doubling it would wrap around.
  ghost predicate LightlyLoaded<V>(c: Cache<V>)
    reads c
  {
    4 * c.currentEntries <= 3 * c.bucketCount || 2 * c.bucketCount >= WORD_64
  }

  lemma LoadOf<V>(c: Cache<V>)
    requires c.Valid() && !c.starved
    ensures LightlyLoaded(c) && c.currentEntries == |c.entries|
  {
  }

  // Any sequence of get, put, remove and clear, with evictions and resizes along the way. Each
  // operation has its own outcome of the allocation of buckets; while all succeed the load stays low.
  method Replay<V>(c: Cache<V>, ops: seq<Op<V>>, rooms: seq<bool>)
    requires c.Valid() && c.entries == [] && c.freed == [] && |rooms| == |ops|
    modifies c, c.buckets, c.members
    ensures c.Valid() && fresh(c.members - old(c.members)) && (c.buckets == old(c.buckets) || fresh(c.buckets))
    ensures Traced(c, ops)
    ensures c.starved ==> old(c.starved) || false in rooms
    ensures !old(c.starved) && false !in rooms ==> LightlyLoaded(c) && c.currentEntries == |Run(c.limits, [], ops)|
    decreases |ops|
  {
    if ops != [] {
      var n := |ops| - 1;
      Replay(c, ops[..n], rooms[..n]);
      PerformLast(c, ops, rooms[n]);
    }
    if !c.starved {
      LoadOf(c);
    }
  }

  // After any run and a final destroy, every value that a put accepted has been freed exactly as
  // many times as it was accepted.
  method ReplayAndDestroy<V>(c: Cache<V>, ops: seq<Op<V>>)
    requires c.Valid() && c.entries == [] && c.freed == [] && c.owns
    modifies c, c.buckets, c.members
    ensures multiset(c.freed) == Accepted(c.limits, ops)
  {
    Replay(c, ops, seq(|ops|, _ => true));
    OwnershipConserved(c.limits, ops);
    c.Destroy();
  }
}
