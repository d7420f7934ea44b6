/** Who owns the cached values: every value a put accepted is either resident or has been freed. */
module LruOwnership {
  import opened Words
  import opened LruSpec
  import opened LruRuns

  // The values the cache has taken over from its callers, with multiplicity.
  ghost function Accepted<V>(l: Limits, ops: seq<Op<V>>): multiset<V> {
    if ops == [] then multiset{} else
      var before := ops[..|ops| - 1];
      var op := ops[|ops| - 1];
      Accepted(l, before) + Taken(op, Step(l, Run(l, [], before), op).status)
  }

  ghost function Taken<V>(op: Op<V>, status: Status): multiset<V> {
    if op.Put? && op.value.Some? && status == Stored then multiset{op.value.value} else multiset{}
  }

  // The values passed to free_fn, with multiplicity.
  ghost function Freed<V>(l: Limits, ops: seq<Op<V>>): multiset<V> {
    if ops == [] then multiset{} else
      var before := ops[..|ops| - 1];
      Freed(l, before) + multiset(Step(l, Run(l, [], before), ops[|ops| - 1]).released)
  }

  ghost function Held<V>(s: seq<Entry<V>>): multiset<V> {
    multiset(Values(s))
  }

  lemma {:induction false} HeldPush<V>(e: Entry<V>, s: seq<Entry<V>>)
    ensures Held([e] + s) == multiset{e.value} + Held(s)
  {
    assert Values([e] + s) == [e.value] + Values(s);
  }

  lemma HeldSplit<V>(s: seq<Entry<V>>, n: nat)
    requires n <= |s|
    ensures Held(s) == Held(s[..n]) + Held(s[n..])
  {
    assert Values(s) == Values(s[..n]) + Values(s[n..]);
  }

  lemma HeldDrop<V>(s: seq<Entry<V>>, i: nat)
    requires i < |s|
    ensures Held(s) == multiset{s[i].value} + Held(Drop(s, i))
  {
    HeldSplit(s, i);
    assert s[i..] == [s[i]] + s[i + 1..];
    HeldPush(s[i], s[i + 1..]);
    HeldSplit(Drop(s, i), i);
    assert Drop(s, i)[..i] == s[..i] && Drop(s, i)[i..] == s[i + 1..];
  }

  lemma {:induction false} HeldBackwards<V>(s: seq<Entry<V>>)
    ensures multiset(Backwards(s)) == Held(s)
  {
    if s != [] {
      HeldBackwards(s[..|s| - 1]);
    }
  }

  // What the cache holds afterwards and what it freed is what it held and what it was given.
  ghost predicate Conserves<V>(s: seq<Entry<V>>, o: Outcome<V>, taken: multiset<V>) {
    Held(o.entries) + multiset(o.released) == Held(s) + taken
  }

  lemma EvictionConserves<V>(l: Limits, s: seq<Entry<V>>, needed: uint64)
    ensures Held(Survivors(l, s, needed)) + multiset(Evicted(l, s, needed)) == Held(s)
  {
    var n := Kept(l, s, needed);
    HeldSplit(s, n);
    HeldBackwards(s[n..]);
  }

  lemma Regroup<V>(kept: multiset<V>, gone: multiset<V>, all: multiset<V>, taken: multiset<V>)
    requires kept + gone == all
    ensures taken + kept + gone == all + taken && kept + gone == all + multiset{}
  {
  }

  lemma PutNewConserves<V>(l: Limits, s: seq<Entry<V>>, e: Entry<V>, memory: bool)
    ensures var o := PutNew(l, s, e, memory);
      Conserves(s, o, if o.status == Stored then multiset{e.value} else multiset{})
  {
    var kept, gone := Survivors(l, s, e.size), multiset(Evicted(l, s, e.size));
    EvictionConserves(l, s, e.size);
    HeldPush(e, kept);
    Regroup(Held(kept), gone, Held(s), multiset{e.value});
  }

  lemma NothingConserves<V>(s: seq<Entry<V>>, status: Status)
    ensures Conserves(s, Outcome(s, status, []), multiset{})
  {
  }

  // Taking the entry at i out and putting e in front; freeing the one in exchange for the other.
  lemma SwapConserves<V>(s: seq<Entry<V>>, i: nat, e: Entry<V>)
    requires i < |s|
    ensures Conserves(s, Outcome([e] + Drop(s, i), Stored, [s[i].value]), multiset{e.value})
    ensures e == s[i] ==> Conserves(s, Outcome([e] + Drop(s, i), Stored, []), multiset{})
  {
    assert multiset([s[i].value]) == multiset{s[i].value};
    HeldDrop(s, i);
    HeldPush(e, Drop(s, i));
  }

  lemma DropConserves<V>(s: seq<Entry<V>>, i: nat)
    requires i < |s|
    ensures Conserves(s, Outcome(Drop(s, i), Stored, [s[i].value]), multiset{})
  {
    assert multiset([s[i].value]) == multiset{s[i].value};
    HeldDrop(s, i);
  }

  lemma PutConserves<V>(l: Limits, s: seq<Entry<V>>, op: Op<V>)
    requires op.Put?
    ensures Conserves(s, Step(l, s, op), Taken(op, Step(l, s, op).status))
  {
    if op.value.Some? && op.size <= l.memory {
      var e := Entry(op.key, op.value.value, op.size);
      var i := Find(s, op.key);
      if i < |s| {
        SwapConserves(s, i, e);
      } else {
        PutNewConserves(l, s, e, op.memory);
      }
    } else {
      NothingConserves(s, Step(l, s, op).status);
    }
  }

  // One operation: what it accepts is added, and what it frees is what leaves the cache.
  lemma StepConserves<V>(l: Limits, s: seq<Entry<V>>, op: Op<V>)
    ensures Conserves(s, Step(l, s, op), Taken(op, Step(l, s, op).status))
  {
    NothingConserves(s, Stored);
    match op
    case Get(k) =>
      if Resident(s, k) {
        SwapConserves(s, Find(s, k), s[Find(s, k)]);
      }
    case Put(_, _, _, _) => PutConserves(l, s, op);
    case Remove(k) =>
      if Resident(s, k) {
        DropConserves(s, Find(s, k));
      }
    case Clear =>
      assert Held<V>([]) == multiset{};
  }

  // Over any run, the accepted values are the resident ones plus the freed ones.
  lemma {:induction false} OwnershipConserved<V>(l: Limits, ops: seq<Op<V>>)
    ensures Accepted(l, ops) == Held(Run(l, [], ops)) + Freed(l, ops)
  {
    if ops != [] {
      var before := ops[..|ops| - 1];
      var s, op := Run(l, [], before), ops[|ops| - 1];
      var o := Step(l, s, op);
      OwnershipConserved(l, before);
      StepConserves(l, s, op);
      Rearrange(Accepted(l, before), Held(s), Freed(l, before),
        Taken(op, o.status), Held(o.entries), multiset(o.released));
    }
  }

  lemma Rearrange<V>(a: multiset<V>, h: multiset<V>, f: multiset<V>, t: multiset<V>, h': multiset<V>, r: multiset<V>)
    requires a == h + f && h' + r == h + t
    ensures a + t == h' + (f + r)
  {
    assert a + t == (h + t) + f;
  }

  ghost predicate Distinct<V>(m: multiset<V>) {
    forall v :: v in m ==> m[v] == 1
  }

  // With distinct values no resident value has been freed and none is freed twice; once the cache is
  // destroyed every accepted value has been freed exactly once.
  lemma DistinctValuesAreSafe<V>(l: Limits, ops: seq<Op<V>>)
    requires Distinct(Accepted(l, ops))
    ensures Held(Run(l, [], ops)) !! Freed(l, ops) && Distinct(Freed(l, ops))
    ensures Freed(l, ops) + multiset(Values(Run(l, [], ops))) == Accepted(l, ops)
  {
    OwnershipConserved(l, ops);
    PartsOfDistinct(Accepted(l, ops), Held(Run(l, [], ops)), Freed(l, ops));
  }

  lemma PartsOfDistinct<V>(a: multiset<V>, h: multiset<V>, f: multiset<V>)
    requires a == h + f && Distinct(a)
    ensures h !! f && Distinct(f)
  {
    forall v | v in h || v in f
      ensures h[v] + f[v] == 1
    {
      assert a[v] == h[v] + f[v];
      assert v in a;
    }
  }

  // Putting a value that is not freed and not resident under another key leaves no freed value
  // resident exactly when the key does not already hold that same value.
  lemma PutKeepsLive<V>(l: Limits, s: seq<Entry<V>>, freed: multiset<V>, op: Op<V>)
    requires Bounded(l, s) && op.Put? && op.value.Some? && op.size <= l.memory
    requires Held(s) !! freed && Distinct(Held(s)) && op.value.value !in freed
    requires forall i :: 0 <= i < |s| && s[i].value == op.value.value ==> s[i].key == op.key
    ensures var o := Step(l, s, op);
      Held(o.entries) !! freed + multiset(o.released) <==> Lookup(s, op.key) != op.value
  {
    var i := Find(s, op.key);
    if i < |s| && s[i].value == op.value.value {
      PutAgain(l, s, op);
    } else {
      NotHeldElsewhere(s, op.key, op.value.value);
      PutKeepsOthers(l, s, freed, op);
    }
  }

  lemma NotHeldElsewhere<V>(s: seq<Entry<V>>, k: Key, v: V)
    requires UniqueKeys(s) && Lookup(s, k) != Some(v)
    requires forall i :: 0 <= i < |s| && s[i].value == v ==> s[i].key == k
    ensures v !in Held(s)
  {
    forall i | 0 <= i < |s|
      ensures s[i].value != v
    {
      assert s[i].key == k ==> Find(s, k) == i;
    }
  }

  lemma PutKeepsOthers<V>(l: Limits, s: seq<Entry<V>>, freed: multiset<V>, op: Op<V>)
    requires op.Put? && op.value.Some? && op.value.value !in freed && op.value.value !in Held(s)
    requires Held(s) !! freed && Distinct(Held(s))
    ensures Held(Step(l, s, op).entries) !! freed + multiset(Step(l, s, op).released)
  {
    forall x | x in Held(Step(l, s, op).entries)
      ensures x !in freed + multiset(Step(l, s, op).released)
    {
      ReleasedAreOld(l, s, op, x);
    }
  }

  lemma PutAgain<V>(l: Limits, s: seq<Entry<V>>, op: Op<V>)
    requires op.Put? && op.value.Some? && op.size <= l.memory && Lookup(s, op.key) == op.value
    ensures op.value.value in Held(Step(l, s, op).entries) && Step(l, s, op).released == [op.value.value]
  {
    assert Values(Step(l, s, op).entries)[0] == op.value.value;
  }

  lemma ReleasedAreOld<V>(l: Limits, s: seq<Entry<V>>, op: Op<V>, x: V)
    requires op.Put? && op.value.Some? && Distinct(Held(s)) && x in Held(Step(l, s, op).entries)
    requires op.value.value !in Held(s)
    ensures x !in multiset(Step(l, s, op).released) && (x in Held(s) || x == op.value.value)
  {
    StepConserves(l, s, op);
    var o := Step(l, s, op);
    assert (Held(o.entries) + multiset(o.released))[x] == Held(s)[x] + Taken(op, o.status)[x];
  }
}
