/**
 * LRU inclusion: while the memory limit does not bind, a smaller cache always holds a subsequence of
 * what a larger one holds after the same operations, so a larger cache never has fewer hits.
 */
module LruInclusion {
  import opened Words
  import opened LruSpec
  import opened LruRuns

  // a is a subsequence of b, entry for entry.
  ghost predicate InOrder<V>(a: seq<Entry<V>>, b: seq<Entry<V>>) {
    && (forall i :: 0 <= i < |a| ==> Find(b, a[i].key) < |b| && b[Find(b, a[i].key)] == a[i])
    && (forall i, j :: 0 <= i < j < |a| ==> Find(b, a[i].key) < Find(b, a[j].key))
  }

  // The entries under other keys leave room for a put of `size` bytes under k.
  ghost predicate Roomy<V>(l: Limits, s: seq<Entry<V>>, op: Op<V>) {
    op.Put? && op.value.Some? && op.size <= l.memory ==>
      op.memory && Memory(LruSpec.Remove(s, op.key).entries) + op.size <= l.memory
  }

  // Along the run no allocation fails and the memory limit never binds.
  ghost predicate Unbound<V>(l: Limits, ops: seq<Op<V>>) {
    ops == [] ||
      (var before := ops[..|ops| - 1]; Unbound(l, before) && Roomy(l, Run(l, [], before), ops[|ops| - 1]))
  }

  ghost function Hits<V>(l: Limits, ops: seq<Op<V>>): nat {
    if ops == [] then 0 else
      var before := ops[..|ops| - 1];
      var op := ops[|ops| - 1];
      Hits(l, before) + if op.Get? && Resident(Run(l, [], before), op.key) then 1 else 0
  }

  // Dropping the entry at q from b keeps any subsequence of b that avoids its key.
  lemma AvoidInOrder<V>(a: seq<Entry<V>>, b: seq<Entry<V>>, q: nat)
    requires UniqueKeys(b) && InOrder(a, b) && q < |b|
    requires forall i :: 0 <= i < |a| ==> a[i].key != b[q].key
    ensures InOrder(a, Drop(b, q))
  {
    var d := Drop(b, q);
    forall i | 0 <= i < |a|
      ensures Find(d, a[i].key) == Find(b, a[i].key) - if Find(b, a[i].key) > q then 1 else 0
      ensures Find(b, a[i].key) != q && Find(d, a[i].key) < |d| && d[Find(d, a[i].key)] == a[i]
    {
      FindDrop(b, q, a[i].key);
    }
  }

  lemma SubInOrder<V>(a: seq<Entry<V>>, b: seq<Entry<V>>, p: nat)
    requires InOrder(a, b) && p < |a|
    ensures InOrder(Drop(a, p), b)
  {
    var d := Drop(a, p);
    assert forall i :: 0 <= i < p ==> d[i] == a[i];
    assert forall i :: p <= i < |d| ==> d[i] == a[i + 1];
  }

  // Dropping the entry under k from b, and from a if it is there, keeps the rest in order.
  lemma DropInOrder<V>(a: seq<Entry<V>>, b: seq<Entry<V>>, k: Key)
    requires UniqueKeys(a) && UniqueKeys(b) && InOrder(a, b)
    ensures InOrder(LruSpec.Remove(a, k).entries, LruSpec.Remove(b, k).entries)
  {
    var p, q := Find(a, k), Find(b, k);
    if p < |a| {
      SubInOrder(a, b, p);
      FindDrop(a, p, k);
    }
    if q < |b| {
      AvoidInOrder(LruSpec.Remove(a, k).entries, b, q);
    }
  }

  lemma PushInOrder<V>(e: Entry<V>, a: seq<Entry<V>>, b: seq<Entry<V>>)
    requires InOrder(a, b) && !Resident(b, e.key)
    ensures InOrder(a, [e] + b) && InOrder([e] + a, [e] + b)
  {
    forall i | 0 <= i < |a|
      ensures Find([e] + b, a[i].key) == 1 + Find(b, a[i].key)
    {
      FindPush(e, b, a[i].key);
    }
    FindPush(e, b, e.key);
  }

  // Cutting both lists to their limits, when the larger is full only if the smaller is.
  lemma CutInOrder<V>(a: seq<Entry<V>>, b: seq<Entry<V>>, n: nat, m: nat)
    requires InOrder(a, b) && n <= |a| && m <= |b| && (m < |b| ==> n == |a| - 1 && m == |b| - 1)
    ensures InOrder(a[..n], b[..m])
  {
    forall i | 0 <= i < n
      ensures Find(b[..m], a[i].key) == Find(b, a[i].key) < m
    {
      FindTake(b, m, a[i].key);
      if m < |b| {
        assert Find(b, a[i].key) < Find(b, a[n].key) < |b|;
      }
    }
    assert b[..|b|] == b;
  }

  lemma {:induction false} InOrderMemory<V>(a: seq<Entry<V>>, b: seq<Entry<V>>)
    requires UniqueKeys(a) && UniqueKeys(b) && InOrder(a, b)
    ensures Memory(a) <= Memory(b)
    decreases |b|
  {
    if a != [] {
      var k := a[0].key;
      var q := Find(b, k);
      FindDrop(a, 0, k);
      DropInOrder(a, b, k);
      assert a[0] == b[q] && Find(a, k) == 0;
      InOrderMemory(Drop(a, 0), Drop(b, q));
      MemoryDrop(a, 0);
      MemoryDrop(b, q);
    }
  }

  // While memory does not bind, eviction removes the last entry exactly when the list is full.
  lemma CutsOne<V>(l: Limits, s: seq<Entry<V>>, needed: uint64)
    requires Bounded(l, s) && l.entries > 0 && Memory(s) + needed <= l.memory
    ensures Survivors(l, s, needed) == if |s| < l.entries then s else s[..|s| - 1]
  {
    TotalIsMemory(s);
    if |s| == l.entries {
      var t := s[..|s| - 1];
      TotalIsMemory(t);
      assert Memory(s) == Memory(t) + s[|s| - 1].size;
      assert t == [] || Fits(l, t, needed);
      EvictStep(l, s, needed);
      assert t[..|t|] == t;
    } else {
      assert s[..|s|] == s;
    }
  }

  // The relation that every step keeps between the smaller and the larger cache.
  ghost predicate Included<V>(n: Limits, m: Limits, a: seq<Entry<V>>, b: seq<Entry<V>>) {
    && Bounded(n, a) && Bounded(m, b) && InOrder(a, b)
    && |b| - |a| <= m.entries - n.entries && Memory(b) <= m.memory
  }

  lemma EvictIncluded<V>(n: Limits, m: Limits, a: seq<Entry<V>>, b: seq<Entry<V>>, needed: uint64)
    requires 0 < n.entries <= m.entries && n.memory == m.memory && Included(n, m, a, b)
    requires Memory(b) + needed <= m.memory
    ensures var a', b' := Survivors(n, a, needed), Survivors(m, b, needed);
      && InOrder(a', b') && |b'| - |a'| <= m.entries - n.entries
      && |a'| < n.entries && |b'| < m.entries && Memory(b') <= Memory(b)
  {
    InOrderMemory(a, b);
    CutsOne(n, a, needed);
    CutsOne(m, b, needed);
    CutInOrder(a, b, |Survivors(n, a, needed)|, |Survivors(m, b, needed)|);
  }

  // A put under a key that neither cache holds.
  lemma NewIncluded<V>(n: Limits, m: Limits, a: seq<Entry<V>>, b: seq<Entry<V>>, e: Entry<V>)
    requires 0 < n.entries <= m.entries && n.memory == m.memory && Included(n, m, a, b)
    requires !Resident(a, e.key) && !Resident(b, e.key) && Memory(b) + e.size <= m.memory
    ensures Included(n, m, LruSpec.PutNew(n, a, e, true).entries, LruSpec.PutNew(m, b, e, true).entries)
  {
    var b' := Survivors(m, b, e.size);
    EvictIncluded(n, m, a, b, e.size);
    FindTake(b, |b'|, e.key);
    PushInOrder(e, Survivors(n, a, e.size), b');
    PutNewBounded(n, a, e, true);
    PutNewBounded(m, b, e, true);
    MemoryPush(e, b');
  }

  // What eviction leaves of the smaller cache is still in order in the larger one, b0.
  lemma EvictOnly<V>(n: Limits, a: seq<Entry<V>>, b0: seq<Entry<V>>, needed: uint64)
    requires 0 < n.entries && Bounded(n, a) && UniqueKeys(b0) && InOrder(a, b0) && Memory(b0) + needed <= n.memory
    ensures InOrder(Survivors(n, a, needed), b0)
    ensures |Survivors(n, a, needed)| == if |a| < n.entries then |a| else |a| - 1
  {
    InOrderMemory(a, b0);
    CutsOne(n, a, needed);
    assert b0[..|b0|] == b0;
    CutInOrder(a, b0, |Survivors(n, a, needed)|, |b0|);
  }

  // The smaller cache, which does not hold e.key, admits e in front; b0 is the larger one without e.key.
  lemma AdmitIncluded<V>(n: Limits, m: Limits, a: seq<Entry<V>>, b0: seq<Entry<V>>, e: Entry<V>)
    requires 0 < n.entries <= m.entries && n.memory == m.memory && Bounded(n, a) && !Resident(a, e.key)
    requires InOrder(a, b0) && UniqueKeys(b0) && !Resident(b0, e.key) && Bounded(m, [e] + b0)
    requires |b0| - |a| < m.entries - n.entries && Memory(b0) + e.size <= m.memory
    ensures Included(n, m, LruSpec.PutNew(n, a, e, true).entries, [e] + b0)
  {
    EvictOnly(n, a, b0, e.size);
    PushInOrder(e, Survivors(n, a, e.size), b0);
    PutNewBounded(n, a, e, true);
    MemoryPush(e, b0);
  }

  // The larger cache replaces or promotes the entry under e.key, the smaller one holds it too or not.
  lemma FrontIncluded<V>(n: Limits, m: Limits, a: seq<Entry<V>>, b: seq<Entry<V>>, e: Entry<V>)
    requires 0 < n.entries <= m.entries && n.memory == m.memory && Included(n, m, a, b)
    requires Resident(b, e.key) && e.size <= m.memory
    requires Memory(LruSpec.Remove(b, e.key).entries) + e.size <= m.memory
    ensures var b' := [e] + LruSpec.Remove(b, e.key).entries;
      && (Resident(a, e.key) ==> Included(n, m, [e] + LruSpec.Remove(a, e.key).entries, b'))
      && (!Resident(a, e.key) ==> Included(n, m, LruSpec.PutNew(n, a, e, true).entries, b'))
      && (!Resident(a, e.key) && e == b[Find(b, e.key)] ==> Included(n, m, a, b'))
  {
    var k := e.key;
    var a0, b0 := LruSpec.Remove(a, k).entries, LruSpec.Remove(b, k).entries;
    DropInOrder(a, b, k);
    FindDrop(b, Find(b, k), k);
    DropBounded(m, b, Find(b, k), e);
    MemoryPush(e, b0);
    PushInOrder(e, a0, b0);
    if Resident(a, k) {
      DropBounded(n, a, Find(a, k), e);
    } else {
      AdmitIncluded(n, m, a, b0, e);
    }
  }

  lemma DropIncluded<V>(n: Limits, m: Limits, a: seq<Entry<V>>, b: seq<Entry<V>>, k: Key)
    requires Included(n, m, a, b)
    ensures Included(n, m, LruSpec.Remove(a, k).entries, LruSpec.Remove(b, k).entries)
  {
    DropInOrder(a, b, k);
    StepBounded(n, a, Remove(k));
    StepBounded(m, b, Remove(k));
    if Resident(b, k) {
      MemoryDrop(b, Find(b, k));
    }
  }

  lemma StepIncluded<V>(n: Limits, m: Limits, a: seq<Entry<V>>, b: seq<Entry<V>>, op: Op<V>)
    requires 0 < n.entries <= m.entries && n.memory == m.memory
    requires Included(n, m, a, b) && Roomy(m, b, op)
    ensures Included(n, m, Step(n, a, op).entries, Step(m, b, op).entries)
  {
    match op
    case Get(k) =>
      if Resident(b, k) {
        MemoryDrop(b, Find(b, k));
        FrontIncluded(n, m, a, b, b[Find(b, k)]);
      }
    case Put(k, v, size, memory) =>
      if v.Some? && size <= m.memory {
        var e := Entry(k, v.value, size);
        if Resident(b, k) {
          FrontIncluded(n, m, a, b, e);
        } else {
          NewIncluded(n, m, a, b, e);
        }
      }
    case Remove(k) => DropIncluded(n, m, a, b, k);
    case Clear =>
  }

  // The inclusion property over whole runs, and its consequence for hits.
  lemma {:induction false} LargerCacheIncludesSmaller<V>(n: Limits, m: Limits, ops: seq<Op<V>>)
    requires 0 < n.entries <= m.entries && n.memory == m.memory && Unbound(m, ops)
    ensures Included(n, m, Run(n, [], ops), Run(m, [], ops))
    ensures Hits(n, ops) <= Hits(m, ops)
  {
    if ops != [] {
      var before := ops[..|ops| - 1];
      LargerCacheIncludesSmaller(n, m, before);
      StepIncluded(n, m, Run(n, [], before), Run(m, [], before), ops[|ops| - 1]);
    }
  }

  // Every lookup that the smaller cache answers, the larger one answers with the same value.
  lemma LookupsAgree<V>(n: Limits, m: Limits, ops: seq<Op<V>>, k: Key)
    requires 0 < n.entries <= m.entries && n.memory == m.memory && Unbound(m, ops)
    ensures Lookup(Run(n, [], ops), k).Some? ==> Lookup(Run(m, [], ops), k) == Lookup(Run(n, [], ops), k)
  {
    LargerCacheIncludesSmaller(n, m, ops);
  }
}
