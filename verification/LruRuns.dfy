/** What holds over whole runs of cache operations, whatever their order. */
module LruRuns {
  import opened Words
  import opened LruSpec

  datatype Op<+V> =
    | Get(key: Key)
    | Put(key: Key, value: Option<V>, size: uint64, memory: bool)
    | Remove(key: Key)
    | Clear

  function Step<V>(l: Limits, s: seq<Entry<V>>, op: Op<V>): Outcome<V> {
    match op
    case Get(k) => Outcome(Touch(s, k), Stored, [])
    case Put(k, v, size, memory) => LruSpec.Put(l, s, k, v, size, memory)
    case Remove(k) => LruSpec.Remove(s, k)
    case Clear => LruSpec.Clear(s)
  }

  function Run<V>(l: Limits, s: seq<Entry<V>>, ops: seq<Op<V>>): seq<Entry<V>> {
    if ops == [] then s else Step(l, Run(l, s, ops[..|ops| - 1]), ops[|ops| - 1]).entries
  }

  lemma StepBounded<V>(l: Limits, s: seq<Entry<V>>, op: Op<V>)
    requires Bounded(l, s)
    ensures Bounded(l, Step(l, s, op).entries)
  {
    match op
    case Get(k) =>
      var i := Find(s, k);
      if i < |s| { DropBounded(l, s, i, s[i]); }
    case Put(k, v, size, memory) =>
      if v.Some? && size <= l.memory {
        var i := Find(s, k);
        if i < |s| {
          DropBounded(l, s, i, Entry(k, v.value, size));
        } else {
          PutNewBounded(l, s, Entry(k, v.value, size), memory);
        }
      }
    case Remove(k) =>
      var i := Find(s, k);
      if i < |s| { DropBounded(l, s, i, s[i]); }
    case Clear =>
  }

  // Keys stay unique, no more than max_entries entries are kept, none larger than max_memory.
  lemma {:induction false} RunBounded<V>(l: Limits, s: seq<Entry<V>>, ops: seq<Op<V>>)
    requires Bounded(l, s)
    ensures Bounded(l, Run(l, s, ops))
  {
    if ops != [] {
      var before := ops[..|ops| - 1];
      RunBounded(l, s, before);
      StepBounded(l, Run(l, s, before), ops[|ops| - 1]);
    }
  }

  lemma {:induction false} MemoryBound<V>(s: seq<Entry<V>>, most: nat)
    requires forall i :: 0 <= i < |s| ==> s[i].size <= most
    ensures Memory(s) <= |s| * most
  {
    if s != [] {
      MemoryBound(s[..|s| - 1], most);
      assert |s| * most == (|s| - 1) * most + most;
    }
  }

  // The size_t counter holds the true total exactly while that total fits 64 bits.
  lemma {:induction false} TotalIsMemory<V>(s: seq<Entry<V>>)
    ensures Total(s) == Word64(Memory(s))
    ensures Total(s) == Memory(s) <==> Memory(s) < WORD_64
  {
    if s != [] {
      TotalIsMemory(s[..|s| - 1]);
    }
  }

  // Limits under which no sum the cache forms can wrap around.
  ghost predicate NoWrap(l: Limits) {
    (l.entries + 1) * l.memory < WORD_64
  }

  lemma BoundedMemory<V>(l: Limits, s: seq<Entry<V>>)
    requires Bounded(l, s)
    ensures Memory(s) <= |s| * l.memory
    ensures NoWrap(l) ==> Total(s) == Memory(s)
  {
    MemoryBound(s, l.memory);
    TotalIsMemory(s);
    TimesIncreases(|s|, l.entries + 1, l.memory);
  }

  // Over all runs the memory counter is the exact sum of the sizes, and at most entries * max_memory.
  lemma RunMemory<V>(l: Limits, ops: seq<Op<V>>)
    ensures Memory(Run(l, [], ops)) <= |Run(l, [], ops)| * l.memory
    ensures NoWrap(l) ==> Total(Run(l, [], ops)) == Memory(Run(l, [], ops))
  {
    RunBounded(l, [], ops);
    BoundedMemory(l, Run(l, [], ops));
  }

  lemma TimesIncreases(a: nat, b: nat, m: nat)
    requires a <= b
    ensures a * m <= b * m
  {
    assert b * m == a * m + (b - a) * m;
  }

  lemma FitsIsRoom<V>(l: Limits, s: seq<Entry<V>>, needed: uint64)
    requires Memory(s) + needed < WORD_64
    ensures Fits(l, s, needed) <==> |s| < l.entries && Memory(s) + needed <= l.memory
  {
    TotalIsMemory(s);
  }

  lemma {:induction false} MemoryOfPrefix<V>(s: seq<Entry<V>>, k: nat)
    requires k <= |s|
    ensures Memory(s[..k]) <= Memory(s)
  {
    if k < |s| {
      MemoryOfPrefix(s[..|s| - 1], k);
      assert s[..|s| - 1][..k] == s[..k];
    } else {
      assert s[..k] == s;
    }
  }

  // Eviction keeps the longest recency prefix that leaves room, and characterises it.
  lemma {:induction false} KeepsLongestPrefix<V>(l: Limits, s: seq<Entry<V>>, needed: uint64, m: nat)
    requires m <= |s|
    ensures Survivors(l, s, needed) == s[..m] <==>
      (m == 0 || Fits(l, s[..m], needed)) && forall j :: m < j <= |s| ==> !Fits(l, s[..j], needed)
  {
    KeptBounds(l, s, needed);
    var k := Kept(l, s, needed);
    if m != k {
      assert |s[..m]| != |s[..k]|;
    }
  }

  lemma {:induction false} KeptBounds<V>(l: Limits, s: seq<Entry<V>>, needed: uint64)
    ensures var k := Kept(l, s, needed);
      (k == 0 || Fits(l, s[..k], needed)) && forall j :: k < j <= |s| ==> !Fits(l, s[..j], needed)
  {
    assert s[..|s|] == s;
    if s != [] && !Fits(l, s, needed) {
      var t := s[..|s| - 1];
      KeptBounds(l, t, needed);
      assert forall j :: 0 <= j < |s| ==> t[..j] == s[..j];
    }
  }

  // A put under a fresh key is never refused for lack of space, and ends within both limits, provided
  // that the sum of the sizes it begins with does not wrap around.
  lemma FreshPutFits<V>(l: Limits, s: seq<Entry<V>>, e: Entry<V>, memory: bool)
    requires l.entries > 0 && !Resident(s, e.key) && e.size <= l.memory && Memory(s) + e.size < WORD_64
    ensures var o := LruSpec.Put(l, s, e.key, Some(e.value), e.size, memory);
      && o.status == (if memory then Stored else ENoMem)
      && |o.entries| <= l.entries && Memory(o.entries) <= l.memory
  {
    var k := Kept(l, s, e.size);
    KeptBounds(l, s, e.size);
    MemoryOfPrefix(s, k);
    FitsIsRoom(l, s[..k], e.size);
    MemoryPush(e, s[..k]);
    assert Memory<V>([]) == 0;
  }

  lemma {:induction false} MemoryPush<V>(e: Entry<V>, s: seq<Entry<V>>)
    ensures Memory([e] + s) == e.size + Memory(s)
  {
    if s == [] {
      assert [e] + s == [e];
      assert Memory([e]) == Memory([e][..0]) + e.size;
    } else {
      MemoryPush(e, s[..|s| - 1]);
      assert ([e] + s)[..|s|] == [e] + s[..|s| - 1];
    }
  }

  lemma {:induction false} MemoryDrop<V>(s: seq<Entry<V>>, i: nat)
    requires i < |s|
    ensures Memory(Drop(s, i)) == Memory(s) - s[i].size
  {
    if i < |s| - 1 {
      MemoryDrop(s[..|s| - 1], i);
      assert Drop(s, i)[..|s| - 2] == Drop(s[..|s| - 1], i);
    } else {
      assert Drop(s, i) == s[..|s| - 1];
    }
  }

  // Replacing a resident value evicts nothing: the cache stays within max_memory exactly when the
  // other entries leave room for the new value.
  lemma ReplaceMemory<V>(l: Limits, s: seq<Entry<V>>, k: Key, v: V, size: uint64, memory: bool)
    requires Resident(s, k) && size <= l.memory
    ensures var o := LruSpec.Put(l, s, k, Some(v), size, memory);
      Memory(o.entries) <= l.memory <==> Memory(s) - s[Find(s, k)].size + size <= l.memory
  {
    var i := Find(s, k);
    MemoryDrop(s, i);
    MemoryPush(Entry(k, v, size), Drop(s, i));
  }

  // Two puts that fit, then a larger value under the first key: 15 bytes held under a limit of 10.
  lemma ReplaceCanExceedLimit()
    ensures var l := Limits(2, 10);
      var s := Run(l, [], [Put(1, Some(0), 5, true), Put(2, Some(1), 5, true), Put(1, Some(2), 10, true)]);
      Memory(s) == 15 > l.memory
  {
    var l := Limits(2, 10);
    var a := [Put(1, Some(0), 5, true)];
    var b := a + [Put(2, Some(1), 5, true)];
    var c := b + [Put(1, Some(2), 10, true)];
    assert a[..0] == [] && b[..1] == a && c[..2] == b;
    var e0, e1, e2 := Entry(1, 0, 5), Entry(2, 1, 5), Entry(1, 2, 10);
    assert Run(l, [], a) == [e0];
    assert Total([e0]) == Add64(Total([e0][..0]), 5) == 5;
    assert Fits(l, [e0], 5);
    assert [e0][..1] == [e0];
    assert Run(l, [], b) == [e1, e0];
    assert Find([e1, e0], 1) == 1;
    assert Drop([e1, e0], 1) == [e1];
    assert Run(l, [], c) == [e2, e1];
    assert [e2, e1][..1] == [e2];
    assert Memory([e2, e1]) == Memory([e2]) + 5 == Memory<int>([]) + 10 + 5;
  }
}
