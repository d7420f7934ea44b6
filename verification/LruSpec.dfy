/**
 * What the LRU cache means: a list of entries, most recently used first, and one function per
 * operation. Nothing here mentions links, buckets or locks; the heap structure of `Cache` is
 * proved to behave like these functions.
 */
module LruSpec {
  import opened Words

  type Key = uint64

  datatype Entry<+V> = Entry(key: Key, value: V, size: uint64)

  datatype Limits = Limits(entries: uint64, memory: uint64)

  // EINVAL, E2BIG, ENOSPC and ENOMEM are the four ways a put can fail.
  datatype Status = Stored | EInval | E2Big | ENoSpc | ENoMem

  // The list after an operation, its status, and the values handed to free_fn, in call order.
  datatype Outcome<+V> = Outcome(entries: seq<Entry<V>>, status: Status, released: seq<V>)

  function Find<V>(s: seq<Entry<V>>, k: Key): (i: nat)
    ensures i <= |s|
    ensures i < |s| ==> s[i].key == k
    ensures forall j :: 0 <= j < i ==> s[j].key != k
  {
    if s == [] || s[0].key == k then 0 else 1 + Find(s[1..], k)
  }

  predicate Resident<V>(s: seq<Entry<V>>, k: Key) {
    Find(s, k) < |s|
  }

  ghost predicate UniqueKeys<V>(s: seq<Entry<V>>) {
    forall i, j :: 0 <= i < j < |s| ==> s[i].key != s[j].key
  }

  // What every list inside a cache with limits l satisfies.
  ghost predicate Bounded<V>(l: Limits, s: seq<Entry<V>>) {
    UniqueKeys(s) && Capped(l, s)
  }

  ghost predicate Capped<V>(l: Limits, s: seq<Entry<V>>) {
    |s| <= l.entries && forall i :: 0 <= i < |s| ==> s[i].size <= l.memory
  }

  // The true total size, and the total as a size_t variable that wraps around holds it.
  function Memory<V>(s: seq<Entry<V>>): nat {
    if s == [] then 0 else Memory(s[..|s| - 1]) + s[|s| - 1].size
  }

  function Total<V>(s: seq<Entry<V>>): uint64 {
    if s == [] then 0 else Add64(Total(s[..|s| - 1]), s[|s| - 1].size)
  }

  function Drop<V>(s: seq<Entry<V>>, i: nat): seq<Entry<V>>
    requires i < |s|
  {
    s[..i] + s[i + 1..]
  }

  predicate Fits<V>(l: Limits, s: seq<Entry<V>>, needed: uint64) {
    |s| < l.entries && Add64(Total(s), needed) <= l.memory
  }

  // How many of the most recently used entries survive cache_evict.
  function Kept<V>(l: Limits, s: seq<Entry<V>>, needed: uint64): (n: nat)
    ensures n <= |s|
  {
    if s == [] || Fits(l, s, needed) then |s| else Kept(l, s[..|s| - 1], needed)
  }

  function Values<V>(s: seq<Entry<V>>): (r: seq<V>)
    ensures |r| == |s|
    ensures forall i :: 0 <= i < |s| ==> r[i] == s[i].value
  {
    if s == [] then [] else Values(s[..|s| - 1]) + [s[|s| - 1].value]
  }

  // Values in the order eviction releases them: least recently used first.
  function Backwards<V>(s: seq<Entry<V>>): (r: seq<V>)
    ensures |r| == |s|
    ensures forall i :: 0 <= i < |s| ==> r[i] == s[|s| - 1 - i].value
  {
    if s == [] then [] else [s[|s| - 1].value] + Backwards(s[..|s| - 1])
  }

  function Survivors<V>(l: Limits, s: seq<Entry<V>>, needed: uint64): seq<Entry<V>> {
    s[..Kept(l, s, needed)]
  }

  function Evicted<V>(l: Limits, s: seq<Entry<V>>, needed: uint64): seq<V> {
    Backwards(s[Kept(l, s, needed)..])
  }

  function Touch<V>(s: seq<Entry<V>>, k: Key): seq<Entry<V>> {
    var i := Find(s, k);
    if i == |s| then s else [s[i]] + Drop(s, i)
  }

  function Lookup<V>(s: seq<Entry<V>>, k: Key): Option<V> {
    var i := Find(s, k);
    if i == |s| then None else Some(s[i].value)
  }

  // Storing under a key that is not resident. `memory` says whether malloc finds room for an entry.
  function PutNew<V>(l: Limits, s: seq<Entry<V>>, e: Entry<V>, memory: bool): Outcome<V> {
    var rest := Survivors(l, s, e.size);
    var released := Evicted(l, s, e.size);
    if |rest| >= l.entries then Outcome(rest, ENoSpc, released)
    else if !memory then Outcome(rest, ENoMem, released)
    else Outcome([e] + rest, Stored, released)
  }

  function Put<V>(l: Limits, s: seq<Entry<V>>, k: Key, value: Option<V>, size: uint64, memory: bool): Outcome<V> {
    if value.None? then Outcome(s, EInval, [])
    else if size > l.memory then Outcome(s, E2Big, [])
    else
      var e := Entry(k, value.value, size);
      var i := Find(s, k);
      if i < |s| then Outcome([e] + Drop(s, i), Stored, [s[i].value]) else PutNew(l, s, e, memory)
  }

  function Remove<V>(s: seq<Entry<V>>, k: Key): Outcome<V> {
    var i := Find(s, k);
    if i == |s| then Outcome(s, Stored, []) else Outcome(Drop(s, i), Stored, [s[i].value])
  }

  function Clear<V>(s: seq<Entry<V>>): Outcome<V> {
    Outcome([], Stored, Values(s))
  }

  lemma FindUnique<V>(s: seq<Entry<V>>, k: Key, i: nat)
    requires UniqueKeys(s) && i < |s| && s[i].key == k
    ensures Find(s, k) == i
  {
  }

  lemma FindPush<V>(e: Entry<V>, s: seq<Entry<V>>, k: Key)
    ensures Find([e] + s, k) == if e.key == k then 0 else 1 + Find(s, k)
  {
    assert ([e] + s)[1..] == s;
  }

  lemma FindDrop<V>(s: seq<Entry<V>>, i: nat, k: Key)
    requires UniqueKeys(s) && i < |s|
    ensures k == s[i].key ==> Find(Drop(s, i), k) == |s| - 1
    ensures k != s[i].key ==> Find(Drop(s, i), k) == Find(s, k) - if Find(s, k) > i then 1 else 0
  {
    var d := Drop(s, i);
    var p := Find(s, k);
    assert forall j :: 0 <= j < |d| ==> d[j] == s[if j < i then j else j + 1];
    if k != s[i].key && p < |s| {
      FindUnique(d, k, if p > i then p - 1 else p);
    }
  }

  lemma FindTake<V>(s: seq<Entry<V>>, n: nat, k: Key)
    requires n <= |s|
    ensures Find(s[..n], k) == if Find(s, k) < n then Find(s, k) else n
  {
    assert forall j :: 0 <= j < n ==> s[..n][j] == s[j];
  }

  lemma {:induction false} TotalDrop<V>(s: seq<Entry<V>>, i: nat)
    requires i < |s|
    ensures Total(Drop(s, i)) == Sub64(Total(s), s[i].size)
  {
    if i < |s| - 1 {
      TotalDrop(s[..|s| - 1], i);
      assert Drop(s, i)[..|s| - 2] == Drop(s[..|s| - 1], i);
    } else {
      assert Drop(s, i) == s[..|s| - 1];
    }
  }

  lemma {:induction false} TotalPush<V>(e: Entry<V>, s: seq<Entry<V>>)
    ensures Total([e] + s) == Add64(Total(s), e.size)
  {
    if s == [] {
      assert [e] + s == [e];
      assert Total([e]) == Add64(Total([e][..0]), e.size);
    } else {
      TotalPush(e, s[..|s| - 1]);
      assert ([e] + s)[..|s|] == [e] + s[..|s| - 1];
    }
  }

  // One round of cache_evict on a list without room: the last entry goes.
  lemma EvictStep<V>(l: Limits, s: seq<Entry<V>>, needed: uint64)
    requires s != [] && !Fits(l, s, needed)
    ensures Survivors(l, s, needed) == Survivors(l, s[..|s| - 1], needed)
    ensures Evicted(l, s, needed) == [s[|s| - 1].value] + Evicted(l, s[..|s| - 1], needed)
  {
    var n := Kept(l, s, needed);
    assert s[n..][..|s| - 1 - n] == s[..|s| - 1][n..];
  }

  lemma TotalUpdate<V>(s: seq<Entry<V>>, i: nat, e: Entry<V>)
    requires i < |s|
    ensures Total(s[i := e]) == Add64(Sub64(Total(s), s[i].size), e.size)
  {
    var t := s[i := e];
    assert Drop(t, i) == Drop(s, i);
    TotalDrop(s, i);
    TotalDrop(t, i);
  }

  lemma TotalFront<V>(s: seq<Entry<V>>, i: nat)
    requires i < |s|
    ensures Total([s[i]] + Drop(s, i)) == Total(s)
  {
    TotalDrop(s, i);
    TotalPush(s[i], Drop(s, i));
  }

  lemma PushUnique<V>(e: Entry<V>, s: seq<Entry<V>>)
    requires UniqueKeys(s) && !Resident(s, e.key)
    ensures UniqueKeys([e] + s)
  {
  }

  lemma DropBounded<V>(l: Limits, s: seq<Entry<V>>, i: nat, e: Entry<V>)
    requires Bounded(l, s) && i < |s|
    ensures Bounded(l, Drop(s, i))
    ensures e.size <= l.memory && e.key == s[i].key ==> Bounded(l, [e] + Drop(s, i))
  {
  }

  lemma PutNewBounded<V>(l: Limits, s: seq<Entry<V>>, e: Entry<V>, memory: bool)
    requires Bounded(l, s) && !Resident(s, e.key) && e.size <= l.memory
    ensures Bounded(l, PutNew(l, s, e, memory).entries)
  {
    var rest := Survivors(l, s, e.size);
    assert forall i :: 0 <= i < |rest| ==> rest[i] == s[i];
    assert !Resident(rest, e.key);
    PushUnique(e, rest);
  }
}
