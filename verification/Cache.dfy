module Cache {
  import opened Words
  import opened LruSpec
  import Bits

  const INITIAL_BUCKETS: nat := 64
  const MAX_INITIAL_BUCKETS: nat := 65536

  class Node<V> {
    var key: Key
    var value: V
    var size: uint64
    var prev: Node?<V>
    var next: Node?<V>
    var hnext: Node?<V>

    constructor (key: Key, value: V, size: uint64)
      ensures this.key == key && this.value == value && this.size == size
      ensures prev == next == hnext == null
    {
      this.key, this.value, this.size := key, value, size;
      prev, next, hnext := null, null, null;
    }

    method Assign(value: V, size: uint64)
      modifies this`value, this`size
      ensures this.value == value && this.size == size
    {
      this.value, this.size := value, size;
    }
  }

  ghost function At<V>(c: seq<Node<V>>, i: int): (n: Node?<V>) {
    if 0 <= i < |c| then c[i] else null
  }

  ghost predicate Chained<V>(c: seq<Node<V>>)
    reads c`hnext
  {
    && (forall i, j :: 0 <= i < j < |c| ==> c[i] != c[j])
    && (forall j {:trigger c[j].hnext} :: 0 <= j < |c| ==> c[j].hnext == At(c, j + 1))
  }

  ghost function Without<V>(c: seq<Node<V>>, j: nat): (d: seq<Node<V>>)
    requires j < |c|
    ensures |d| == |c| - 1
    ensures forall i :: 0 <= i < j ==> d[i] == c[i]
    ensures forall i :: j <= i < |d| ==> d[i] == c[i + 1]
    ensures forall n :: n in d ==> n in c
    ensures forall n :: n in c && n != c[j] ==> n in d
  {
    assert forall n :: n in c ==> n in c[..j] || n == c[j] || n in c[j + 1..];
    c[..j] + c[j + 1..]
  }

  // The list of nodes carries these entries.
  ghost predicate Mirrors<V>(ns: seq<Node<V>>, es: seq<Entry<V>>)
    reads ns`key, ns`value, ns`size
  {
    |es| == |ns| && forall i :: 0 <= i < |ns| ==> es[i] == Entry(ns[i].key, ns[i].value, ns[i].size)
  }

  lemma MirrorWithout<V>(ns: seq<Node<V>>, es: seq<Entry<V>>, p: nat)
    requires Mirrors(ns, es) && UniqueKeys(es) && p < |ns|
    ensures Mirrors(Without(ns, p), Drop(es, p)) && UniqueKeys(Drop(es, p))
    ensures forall n :: n in ns && n.key == ns[p].key ==> n == ns[p]
  {
    var d := Without(ns, p);
    forall i | 0 <= i < |d|
      ensures Drop(es, p)[i] == Entry(d[i].key, d[i].value, d[i].size)
    {
      assert d[i] == ns[if i < p then i else i + 1];
    }
  }

  lemma MirrorFront<V>(ns: seq<Node<V>>, es: seq<Entry<V>>, p: nat)
    requires Mirrors(ns, es) && UniqueKeys(es) && p < |ns|
    ensures Mirrors([ns[p]] + Without(ns, p), [es[p]] + Drop(es, p))
    ensures UniqueKeys([es[p]] + Drop(es, p))
  {
    MirrorWithout(ns, es, p);
    assert Find(Drop(es, p), es[p].key) == |es| - 1;
    PushUnique(es[p], Drop(es, p));
  }

  lemma MirrorUpdate<V>(ns: seq<Node<V>>, es: seq<Entry<V>>, p: nat)
    requires |ns| == |es| && p < |ns| && UniqueKeys(es) && ns[p].key == es[p].key
    requires forall i :: 0 <= i < |ns| && i != p ==> es[i] == Entry(ns[i].key, ns[i].value, ns[i].size)
    ensures Mirrors(ns, es[p := Entry(ns[p].key, ns[p].value, ns[p].size)])
    ensures UniqueKeys(es[p := Entry(ns[p].key, ns[p].value, ns[p].size)])
  {
  }

  // entry->hnext = cache->buckets[idx].
  method Prepend<V>(e: Node<V>, first: Node?<V>, ghost c: seq<Node<V>>)
    requires Chained(c) && e !in c && first == At(c, 0)
    modifies e`hnext
    ensures Chained([e] + c)
  {
    e.hnext := first;
  }

  // prev->hnext = entry->hnext (when there is a prev) and entry->hnext = NULL.
  method Bypass<V>(prev: Node?<V>, entry: Node<V>, ghost c: seq<Node<V>>, ghost j: nat)
    requires Chained(c) && j < |c| && entry == c[j] && prev == At(c, j - 1)
    modifies c`hnext
    ensures Chained(Without(c, j)) && entry !in Without(c, j)
    ensures entry.hnext == null
    ensures At(Without(c, j), 0) == if prev == null then old(entry.hnext) else c[0]
  {
    if prev != null {
      prev.hnext := entry.hnext;
    }
    entry.hnext := null;
  }

  ghost predicate DoublyLinked<V>(ns: seq<Node<V>>)
    reads ns`prev, ns`next
  {
    && (forall i, j :: 0 <= i < j < |ns| ==> ns[i] != ns[j])
    && (forall i {:trigger ns[i].prev} :: 0 <= i < |ns| ==> ns[i].prev == At(ns, i - 1))
    && (forall i {:trigger ns[i].next} :: 0 <= i < |ns| ==> ns[i].next == At(ns, i + 1))
  }

  // entry->prev->next = entry->next and entry->next->prev = entry->prev, where those exist.
  method Detach<V>(e: Node<V>, ghost ns: seq<Node<V>>, ghost p: nat)
    requires DoublyLinked(ns) && p < |ns| && e == ns[p]
    modifies {e.prev}`next, {e.next}`prev
    ensures DoublyLinked(Without(ns, p)) && e !in Without(ns, p)
    ensures e.prev == At(ns, p - 1) && e.next == At(ns, p + 1)
  {
    assert e.prev == At(ns, p - 1) && e.next == At(ns, p + 1);
    if e.prev != null {
      e.prev.next := e.next;
    }
    if e.next != null {
      e.next.prev := e.prev;
    }
  }

  // entry->prev = entry->next = NULL.
  method Unlink<V>(e: Node<V>, ghost ns: seq<Node<V>>)
    requires DoublyLinked(ns) && e !in ns
    modifies e`prev, e`next
    ensures DoublyLinked(ns) && e.prev == e.next == null
  {
    e.prev := null;
    e.next := null;
  }

  lemma LoadAfterDoubling(n: nat, load: nat)
    requires load > 0 && n >= INITIAL_BUCKETS
    ensures 4 * (load - 1) <= 3 * n ==> 4 * load <= 3 * (2 * n)
  {
  }

  // What has been freed once eviction is over, after `freed` and then the rest of the eviction.
  ghost function GoneAfter<V>(l: Limits, owns: bool, freed: seq<V>, s: seq<Entry<V>>, needed: uint64): seq<V> {
    freed + if owns then Evicted(l, s, needed) else []
  }

  lemma EvictionGoesOn<V>(l: Limits, owns: bool, freed: seq<V>, s: seq<Entry<V>>, needed: uint64)
    requires s != [] && !Fits(l, s, needed)
    ensures Survivors(l, s, needed) == Survivors(l, s[..|s| - 1], needed)
    ensures GoneAfter(l, owns, freed, s, needed)
         == GoneAfter(l, owns, freed + if owns then [s[|s| - 1].value] else [], s[..|s| - 1], needed)
  {
    EvictStep(l, s, needed);
    var last, more := [s[|s| - 1].value], Evicted(l, s[..|s| - 1], needed);
    assert freed + (last + more) == freed + last + more;
    assert freed + [] == freed;
  }

  ghost predicate Collects<V>(done: set<Node<V>>, c: seq<Node<V>>) {
    (forall n :: n in done ==> n in c) && (forall n :: n in c ==> n in done)
  }

  lemma CollectNext<V>(done: set<Node<V>>, ns: seq<Node<V>>, i: nat)
    requires i < |ns| && Collects(done, ns[..i]) && forall j :: 0 <= j < i ==> ns[j] != ns[i]
    ensures ns[i] !in done && Collects(done + {ns[i]}, ns[..i + 1])
  {
    assert ns[..i + 1] == ns[..i] + [ns[i]];
  }

  class Cache<V> {
    const hash: Key -> uint64
    const limits: Limits
    const owns: bool
    var buckets: array<Node?<V>>
    var bucketCount: uint64
    var bucketMask: uint64
    var currentEntries: nat
    var currentMemory: uint64
    var head: Node?<V>
    var tail: Node?<V>

    ghost var nodes: seq<Node<V>>
    ghost var members: set<Node<V>>
    ghost var chains: seq<seq<Node<V>>>
    ghost var entries: seq<Entry<V>>
    ghost var freed: seq<V>
    ghost var starved: bool
    ghost var log: nat

    ghost predicate Linked()
      reads this`head, this`tail, this`nodes, this`members, members`prev, members`next
    {
      (forall n :: n in nodes ==> n in members) && (forall n :: n in members ==> n in nodes)
      && head == At(nodes, 0) && tail == At(nodes, |nodes| - 1) && DoublyLinked(nodes)
    }

    function Slot(k: Key): nat
      reads this`bucketMask
    {
      Bits.And(hash(k), bucketMask)
    }

    // The chains hold exactly the given nodes, each in the bucket its key hashes to.
    ghost predicate Table(members: set<Node<V>>)
      reads this`buckets, this`bucketCount, this`bucketMask, this`chains, buckets, members`key, members`hnext
    {
      && buckets.Length == bucketCount == |chains| == bucketMask + 1
      && (forall b, n :: 0 <= b < |chains| && n in chains[b] ==> n in members && Slot(n.key) == b)
      && (forall b :: 0 <= b < |chains| ==> buckets[b] == At(chains[b], 0) && Chained(chains[b]))
      && (forall n :: n in members ==> n in chains[Slot(n.key)])
    }

    method LruInsertHead(e: Node<V>)
      requires Linked() && e !in nodes
      modifies this`head, this`tail, this`nodes, this`members, members`prev, e`prev, e`next
      ensures Linked() && nodes == [e] + old(nodes) && members == old(members) + {e}
    {
      e.prev := null;
      e.next := head;
      if head != null {
        head.prev := e;
      } else {
        tail := e;
      }
      head := e;
      nodes, members := [e] + nodes, members + {e};
    }

    method LruRemove(e: Node<V>, ghost p: nat)
      requires Linked() && p < |nodes| && nodes[p] == e
      modifies this`head, this`tail, this`nodes, this`members, members`prev, members`next
      ensures Linked() && nodes == old(Without(nodes, p)) && members == old(members) - {e}
      ensures e.prev == e.next == null
    {
      Detach(e, nodes, p);
      if e.prev == null {
        head := e.next;
      }
      if e.next == null {
        tail := e.prev;
      }
      nodes, members := Without(nodes, p), members - {e};
      Unlink(e, nodes);
    }

    method HashInsert(e: Node<V>, ghost members: set<Node<V>>)
      requires Table(members) && e !in members
      modifies buckets, this`chains, e`hnext
      ensures Table(members + {e})
    {
      var idx := Slot(e.key);
      ghost var c := chains[idx];
      Prepend(e, buckets[idx], c);
      buckets[idx] := e;
      chains := chains[idx := [e] + c];
    }

    // Takes the node at position j out of chain idx: the body of hash_remove's loop on a match.
    method Unchain(idx: nat, prev: Node?<V>, entry: Node<V>, ghost j: nat, ghost members: set<Node<V>>)
      requires Table(members) && idx < |chains| && j < |chains[idx]|
      requires entry == chains[idx][j] && prev == At(chains[idx], j - 1)
      modifies buckets, this`chains, members`hnext
      ensures Table(members - {entry}) && entry.hnext == null
    {
      ghost var c := chains[idx];
      forall b, n | 0 <= b < |chains| && b != idx && n in chains[b]
        ensures n !in c
      {
        assert Slot(n.key) == b;
      }
      if prev == null {
        buckets[idx] := entry.hnext;
      }
      Bypass(prev, entry, c, j);
      chains := chains[idx := Without(c, j)];
    }

    method HashRemove(key: Key, ghost members: set<Node<V>>, ghost e: Node<V>)
      requires Table(members) && e in members && e.key == key
      requires forall n :: n in members && n.key == key ==> n == e
      modifies buckets, this`chains, members`hnext
      ensures Table(members - {e}) && e.hnext == null
    {
      var idx := Slot(key);
      var entry := buckets[idx];
      var prev: Node?<V> := null;
      ghost var c := chains[idx];
      ghost var j := 0;
      while entry != null
        invariant 0 <= j <= |c| && entry == At(c, j) && prev == At(c, j - 1)
        invariant e !in c[..j]
        decreases |c| - j
      {
        if entry.key == key {
          Unchain(idx, prev, entry, j, members);
          return;
        }
        prev := entry;
        entry := entry.hnext;
        j := j + 1;
      }
    }

    ghost predicate Counted()
      reads this`currentEntries, this`currentMemory, this`entries
    {
      currentEntries == |entries| && currentMemory == Total(entries)
    }

    ghost predicate Structure()
      reads this, buckets, nodes, members
    {
      Linked() && Table(members) && Mirrors(nodes, entries) && UniqueKeys(entries) && Counted()
    }

    method LruMoveToHead(e: Node<V>, ghost p: nat)
      requires Linked() && p < |nodes| && nodes[p] == e
      modifies this`head, this`tail, this`nodes, this`members, members`prev, members`next
      ensures Linked() && nodes == [e] + old(Without(nodes, p)) && members == old(members)
    {
      if head == e {
        return;
      }
      LruRemove(e, p);
      LruInsertHead(e);
    }

    method HashFind(key: Key) returns (e: Node?<V>)
      requires Structure()
      ensures e == At(nodes, Find(entries, key))
    {
      var idx := Slot(key);
      e := buckets[idx];
      ghost var c := chains[idx];
      ghost var j := 0;
      while e != null
        invariant 0 <= j <= |c| && e == At(c, j)
        invariant forall i :: 0 <= i < j ==> c[i].key != key
        decreases |c| - j
      {
        if e.key == key {
          ghost var p :| 0 <= p < |nodes| && nodes[p] == e;
          FindUnique(entries, key, p);
          return;
        }
        e := e.hnext;
        j := j + 1;
      }
    }

    // hash_remove and lru_remove on one node.
    method Unhook(e: Node<V>, ghost p: nat)
      requires Linked() && Table(members) && p < |nodes| && nodes[p] == e
      requires forall n :: n in nodes && n.key == e.key ==> n == e
      modifies this`head, this`tail, this`nodes, this`members, this`chains
      modifies buckets, members`hnext, members`prev, members`next
      ensures Linked() && Table(members) && nodes == old(Without(nodes, p)) && members == old(members) - {e}
    {
      HashRemove(e.key, members, e);
      LruRemove(e, p);
    }

    // Stores the two counters and calls free_fn, if there is one, on the values in `gone`.
    method Count(count: nat, memory: uint64, ghost es: seq<Entry<V>>, ghost gone: seq<V>)
      modifies this`currentEntries, this`currentMemory, this`entries, this`freed
      ensures currentEntries == count && currentMemory == memory && entries == es
      ensures freed == old(freed) + if owns then gone else []
    {
      currentEntries, currentMemory := count, memory;
      entries := es;
      freed := freed + if owns then gone else [];
    }

    // The bookkeeping once the list and the chains hold the entries es.
    method Settle(count: nat, memory: uint64, ghost es: seq<Entry<V>>, ghost gone: seq<V>)
      requires Linked() && Table(members) && Mirrors(nodes, es) && UniqueKeys(es)
      requires count == |es| && memory == Total(es)
      modifies this`currentEntries, this`currentMemory, this`entries, this`freed
      ensures Structure() && entries == es && currentEntries == count
      ensures freed == old(freed) + if owns then gone else []
    {
      Count(count, memory, es, gone);
    }

    // The five steps shared by cache_evict and sqfs_cache_remove once the victim is known.
    method Discard(e: Node<V>, ghost p: nat)
      requires Structure() && p < |nodes| && nodes[p] == e
      modifies this`head, this`tail, this`nodes, this`members, this`chains, this`entries, this`freed
      modifies this`currentEntries, this`currentMemory, buckets, members`hnext, members`prev, members`next
      ensures Structure() && nodes == old(Without(nodes, p)) && entries == old(Drop(entries, p))
      ensures members == old(members) - {e}
      ensures freed == old(freed) + if owns then [old(entries[p].value)] else []
    {
      MirrorWithout(nodes, entries, p);
      TotalDrop(entries, p);
      ghost var rest := Drop(entries, p);
      Unhook(e, p);
      assert Mirrors(nodes, rest);
      Settle(currentEntries - 1, Sub64(currentMemory, e.size), rest, [e.value]);
    }

    method DiscardLast()
      requires Structure() && tail != null
      modifies this`head, this`tail, this`nodes, this`members, this`chains, this`entries, this`freed
      modifies this`currentEntries, this`currentMemory, buckets, members`hnext, members`prev, members`next
      ensures |old(entries)| > 0 && entries == old(entries)[..|old(entries)| - 1]
      ensures Structure() && members <= old(members)
      ensures freed == old(freed) + if owns then [old(entries)[|old(entries)| - 1].value] else []
    {
      Discard(tail, |entries| - 1);
      assert entries == old(entries)[..|old(entries)| - 1];
    }

    // A round of cache_evict's loop.
    method DiscardTail(ghost needed: uint64)
      requires Structure() && tail != null && !Fits(limits, entries, needed)
      modifies this`head, this`tail, this`nodes, this`members, this`chains, this`entries, this`freed
      modifies this`currentEntries, this`currentMemory, buckets, members`hnext, members`prev, members`next
      ensures Structure() && members <= old(members) && |entries| < old(|entries|)
      ensures Survivors(limits, entries, needed) == old(Survivors(limits, entries, needed))
      ensures Released(needed) == old(Released(needed))
    {
      EvictionGoesOn(limits, owns, freed, entries, needed);
      DiscardLast();
    }

    // Everything free_fn has been called on once eviction is over.
    ghost function Released(needed: uint64): seq<V>
      reads this`freed, this`entries
    {
      GoneAfter(limits, owns, freed, entries, needed)
    }

    method CacheEvict(needed: uint64)
      requires Structure()
      modifies this`head, this`tail, this`nodes, this`members, this`chains, this`entries, this`freed
      modifies this`currentEntries, this`currentMemory, buckets, members`hnext, members`prev, members`next
      ensures Structure() && members <= old(members)
      ensures entries == old(Survivors(limits, entries, needed)) && freed == old(Released(needed))
    {
      while tail != null
        invariant Structure() && members <= old(members)
        invariant Survivors(limits, entries, needed) == old(Survivors(limits, entries, needed))
        invariant Released(needed) == old(Released(needed))
        decreases |entries|
      {
        if currentEntries < limits.entries && Add64(currentMemory, needed) <= limits.memory {
          break;
        }
        DiscardTail(needed);
      }
    }

    // Enters every node into the empty chains, walking the recency list.
    method Refill()
      requires Linked() && Table({})
      modifies buckets, this`chains, members`hnext
      ensures Linked() && Table(members)
    {
      var entry := head;
      ghost var i := 0;
      ghost var done: set<Node<V>> := {};
      while entry != null
        invariant Linked() && Table(done)
        invariant 0 <= i <= |nodes| && entry == At(nodes, i)
        invariant Collects(done, nodes[..i])
        decreases |nodes| - i
      {
        CollectNext(done, nodes, i);
        HashInsert(entry, done);
        done := done + {entry};
        entry := entry.next;
        i := i + 1;
      }
      assert nodes[..i] == nodes;
      assert done == members;
    }

    // Moves every entry into a bucket array of the given size.
    method Rehash(newCount: uint64)
      requires Linked() && newCount > 0
      modifies this`buckets, this`bucketCount, this`bucketMask, this`chains, members`hnext
      ensures Linked() && Table(members) && fresh(buckets) && bucketCount == newCount
    {
      buckets := new Node?<V>[newCount](_ => null);
      bucketCount := newCount;
      bucketMask := newCount - 1;
      chains := seq(newCount, _ => []);
      Refill();
    }

    // The bucket count is a power of two, and the load is at most 3/4 unless an allocation failed
    // or the count cannot double any more.
    ghost predicate Sized(load: nat)
      reads this`bucketCount, this`starved, this`log
    {
      && bucketCount == Bits.Power2(log) && bucketCount >= INITIAL_BUCKETS
      && (starved || 4 * load <= 3 * bucketCount || 2 * bucketCount >= WORD_64)
    }

    // More than three quarters of n buckets' number are entries, twice as many buckets can be counted, and
    // there is room for them.
    ghost predicate Grows(n: nat, room: bool)
      reads this`currentEntries
    {
      4 * currentEntries > 3 * n && 2 * n < 0x1_0000_0000_0000_0000 && room
    }

    // The body of cache_resize_if_needed; `room` says whether calloc finds room for the bucket array.
    method Resize(room: bool)
      requires Linked() && Table(members) && currentEntries > 0 && Sized(currentEntries - 1)
      modifies this`buckets, this`bucketCount, this`bucketMask, this`chains, this`starved, this`log, members`hnext
      ensures Linked() && Table(members) && Sized(currentEntries) && (fresh(buckets) || buckets == old(buckets))
      ensures bucketCount == if Grows(old(bucketCount), room) then 2 * old(bucketCount) else old(bucketCount)
      ensures starved ==> old(starved) || !room
    {
      var newCount := Add64(bucketCount, bucketCount);
      if 4 * currentEntries <= 3 * bucketCount || newCount < bucketCount {
        return;
      }
      if !room {
        starved := true;
        return;
      }
      Double(newCount);
    }

    method Double(newCount: uint64)
      requires Linked() && Table(members) && currentEntries > 0 && Sized(currentEntries - 1)
      requires newCount == 2 * bucketCount
      modifies this`buckets, this`bucketCount, this`bucketMask, this`chains, this`log, members`hnext
      ensures Linked() && Table(members) && Sized(currentEntries) && fresh(buckets) && bucketCount == newCount
    {
      LoadAfterDoubling(bucketCount, currentEntries);
      log := log + 1;
      assert newCount == Bits.Power2(log);
      Rehash(newCount);
    }

    method ResizeIfNeeded(room: bool)
      requires Structure() && currentEntries > 0 && Sized(currentEntries - 1)
      modifies this`buckets, this`bucketCount, this`bucketMask, this`chains, this`starved, this`log, members`hnext
      ensures Structure() && Sized(currentEntries) && (fresh(buckets) || buckets == old(buckets))
      ensures entries == old(entries) && freed == old(freed) && members == old(members)
      ensures starved ==> old(starved) || !room
    {
      Resize(room);
    }

    // Moving a node in the list leaves the table alone.
    method MoveInTable(e: Node<V>, ghost p: nat)
      requires Linked() && Table(members) && p < |nodes| && nodes[p] == e
      modifies this`head, this`tail, this`nodes, this`members, members`prev, members`next
      ensures Linked() && Table(members) && nodes == [e] + old(Without(nodes, p)) && members == old(members)
    {
      LruMoveToHead(e, p);
    }

    // lru_move_to_head on the entry at position p of the list.
    method Promote(e: Node<V>, ghost p: nat)
      requires Structure() && p < |nodes| && nodes[p] == e
      modifies this`head, this`tail, this`nodes, this`members, members`prev, members`next
      modifies this`entries, this`currentEntries, this`currentMemory, this`freed
      ensures Structure() && members == old(members)
      ensures entries == old([entries[p]] + Drop(entries, p)) && freed == old(freed)
      ensures currentEntries == old(currentEntries)
    {
      MirrorFront(nodes, entries, p);
      TotalFront(entries, p);
      ghost var moved := [entries[p]] + Drop(entries, p);
      MoveInTable(e, p);
      assert Mirrors(nodes, moved);
      Settle(currentEntries, currentMemory, moved, []);
    }

    // The bookkeeping of sqfs_cache_put on an existing entry; the old value is freed.
    method Revalue(e: Node<V>, ghost p: nat, value: V, size: uint64)
      requires Structure() && p < |nodes| && nodes[p] == e
      modifies this`currentEntries, this`currentMemory, this`entries, this`freed, members`value, members`size
      ensures Structure() && entries == old(entries)[p := Entry(e.key, value, size)]
      ensures freed == old(freed) + if owns then [old(entries[p].value)] else []
    {
      var memory := Add64(Sub64(currentMemory, e.size), size);
      ghost var gone := [e.value];
      TotalUpdate(entries, p, Entry(e.key, value, size));
      e.Assign(value, size);
      MirrorUpdate(nodes, entries, p);
      Settle(currentEntries, memory, entries[p := Entry(e.key, value, size)], gone);
    }

    // hash_insert and lru_insert_head on a new entry.
    method Hook(e: Node<V>)
      requires Linked() && Table(members) && e !in members
      modifies this`head, this`tail, this`nodes, this`members, this`chains
      modifies buckets, members`prev, e`prev, e`next, e`hnext
      ensures Linked() && Table(members) && nodes == [e] + old(nodes) && members == old(members) + {e}
    {
      HashInsert(e, members);
      LruInsertHead(e);
    }

    method Insert(e: Node<V>)
      requires Structure() && e !in members && !Resident(entries, e.key)
      modifies this`head, this`tail, this`nodes, this`members, this`chains, this`entries, this`freed
      modifies this`currentEntries, this`currentMemory, buckets, members`prev, e`prev, e`next, e`hnext
      ensures Structure() && members == old(members) + {e} && currentEntries == old(currentEntries) + 1
      ensures entries == [Entry(e.key, e.value, e.size)] + old(entries) && freed == old(freed)
    {
      ghost var pushed := [Entry(e.key, e.value, e.size)] + entries;
      PushUnique(pushed[0], entries);
      TotalPush(pushed[0], entries);
      Hook(e);
      assert Mirrors(nodes, pushed);
      Settle(currentEntries + 1, Add64(currentMemory, e.size), pushed, []);
    }

    ghost predicate Valid()
      reads this, buckets, nodes, members
    {
      Structure() && Sized(currentEntries) && Capped(limits, entries) && limits.entries > 0
    }

    // What the invariant says of the table: every node is in the chain of its hash modulo the bucket count.
    lemma ChainOfHash(n: Node<V>)
      requires Valid() && n in nodes
      ensures bucketCount == |chains| && n in chains[hash(n.key) % bucketCount]
      ensures forall b :: 0 <= b < |chains| && n in chains[b] ==> b == hash(n.key) % bucketCount
    {
      Bits.MaskIsRemainder(hash(n.key), log);
      assert n in members && Slot(n.key) == hash(n.key) % bucketCount;
    }

    method Replace(e: Node<V>, ghost p: nat, value: V, size: uint64)
      requires Structure() && p < |nodes| && nodes[p] == e
      modifies this`head, this`tail, this`nodes, this`members, members`prev, members`next
      modifies this`entries, this`currentEntries, this`currentMemory, this`freed, members`value, members`size
      ensures Structure() && members == old(members) && currentEntries == old(currentEntries)
      ensures entries == [Entry(e.key, value, size)] + old(Drop(entries, p))
      ensures freed == old(freed) + if owns then [old(entries[p].value)] else []
    {
      Revalue(e, p, value, size);
      Promote(e, p);
    }

    method InsertMore(e: Node<V>)
      requires Structure() && Sized(currentEntries) && e !in members && !Resident(entries, e.key)
      modifies this`head, this`tail, this`nodes, this`members, this`chains, this`entries, this`freed
      modifies this`currentEntries, this`currentMemory, buckets, members`prev, e`prev, e`next, e`hnext
      ensures Structure() && members == old(members) + {e} && currentEntries > 0 && Sized(currentEntries - 1)
      ensures entries == [Entry(e.key, e.value, e.size)] + old(entries) && freed == old(freed)
    {
      Insert(e);
    }

    // The part of sqfs_cache_put that follows the allocation of the entry.
    method Admit(e: Node<V>, room: bool)
      requires Structure() && Sized(currentEntries) && e !in members && !Resident(entries, e.key)
      modifies this, buckets, members`prev, members`hnext, e`prev, e`next, e`hnext
      ensures Structure() && Sized(currentEntries) && members == old(members) + {e}
      ensures buckets == old(buckets) || fresh(buckets)
      ensures entries == [Entry(e.key, e.value, e.size)] + old(entries) && freed == old(freed)
      ensures starved ==> old(starved) || !room
    {
      InsertMore(e);
      ResizeIfNeeded(room);
    }

    // The part of sqfs_cache_put that follows eviction.
    method Store(key: Key, value: V, size: uint64, memory: bool, room: bool) returns (status: Status)
      requires Structure() && Sized(currentEntries) && !Resident(entries, key)
      modifies this, buckets, members
      ensures Structure() && Sized(currentEntries) && freed == old(freed)
      ensures fresh(members - old(members)) && (buckets == old(buckets) || fresh(buckets))
      ensures status == (if old(|entries|) >= limits.entries then ENoSpc else if !memory then ENoMem else Stored)
      ensures entries == if status == Stored then [Entry(key, value, size)] + old(entries) else old(entries)
      ensures starved ==> old(starved) || !room
    {
      if currentEntries >= limits.entries {
        return ENoSpc;
      }
      if !memory {
        return ENoMem;
      }
      var e := new Node(key, value, size);
      Admit(e, room);
      return Stored;
    }

    // Eviction and what follows it.
    method EvictAndStore(key: Key, value: V, size: uint64, memory: bool, room: bool) returns (status: Status)
      requires Valid() && !Resident(entries, key) && size <= limits.memory
      modifies this, buckets, members
      ensures Structure() && Sized(currentEntries)
      ensures fresh(members - old(members)) && (buckets == old(buckets) || fresh(buckets))
      ensures var o := old(LruSpec.PutNew(limits, entries, Entry(key, value, size), memory));
              entries == o.entries && status == o.status && freed == old(freed) + if owns then o.released else []
      ensures starved ==> old(starved) || !room
    {
      CacheEvict(size);
      status := Store(key, value, size, memory, room);
    }

    // The part of sqfs_cache_put that follows a failed lookup.
    method PutNew(key: Key, value: V, size: uint64, memory: bool, room: bool) returns (status: Status)
      requires Valid() && !Resident(entries, key) && size <= limits.memory
      modifies this, buckets, members
      ensures Valid() && fresh(members - old(members)) && (buckets == old(buckets) || fresh(buckets))
      ensures var o := old(LruSpec.PutNew(limits, entries, Entry(key, value, size), memory));
              entries == o.entries && status == o.status && freed == old(freed) + if owns then o.released else []
      ensures starved ==> old(starved) || !room
    {
      PutNewBounded(limits, entries, Entry(key, value, size), memory);
      status := EvictAndStore(key, value, size, memory, room);
    }

    method PutExisting(e: Node<V>, value: V, size: uint64)
      requires Valid() && Resident(entries, e.key) && e == At(nodes, Find(entries, e.key)) && size <= limits.memory
      modifies this, members
      ensures Valid() && members == old(members) && buckets == old(buckets) && starved == old(starved)
      ensures entries == [Entry(old(e.key), value, size)] + old(Drop(entries, Find(entries, e.key)))
      ensures freed == old(freed) + if owns then [old(entries[Find(entries, e.key)].value)] else []
    {
      ghost var p := Find(entries, e.key);
      DropBounded(limits, entries, p, Entry(e.key, value, size));
      Replace(e, p, value, size);
    }

    // sqfs_cache_put. `memory` and `room` are the outcomes of malloc for the entry and of calloc for
    // a larger bucket array.
    method Put(key: Key, value: Option<V>, size: uint64, memory: bool, room: bool) returns (status: Status)
      requires Valid()
      modifies this, buckets, members
      ensures Valid() && fresh(members - old(members)) && (buckets == old(buckets) || fresh(buckets))
      ensures var o := old(LruSpec.Put(limits, entries, key, value, size, memory));
              entries == o.entries && status == o.status && freed == old(freed) + if owns then o.released else []
      ensures starved ==> old(starved) || !room
    {
      if value.None? {
        return EInval;
      }
      if size > limits.memory {
        return E2Big;
      }
      var existing := HashFind(key);
      if existing != null {
        PutExisting(existing, value.value, size);
        return Stored;
      }
      status := PutNew(key, value.value, size, memory, room);
    }

    method RemoveFound(e: Node<V>, ghost p: nat)
      requires Valid() && p < |nodes| && nodes[p] == e
      modifies this, buckets, members
      ensures Valid() && members <= old(members) && buckets == old(buckets) && starved == old(starved)
      ensures entries == old(Drop(entries, p)) && freed == old(freed) + if owns then [old(entries[p].value)] else []
    {
      DropBounded(limits, entries, p, entries[p]);
      Discard(e, p);
    }

    method Remove(key: Key)
      requires Valid()
      modifies this, buckets, members
      ensures Valid() && members <= old(members) && buckets == old(buckets) && starved == old(starved)
      ensures var o := old(LruSpec.Remove(entries, key));
              entries == o.entries && freed == old(freed) + if owns then o.released else []
    {
      var entry := HashFind(key);
      if entry != null {
        RemoveFound(entry, Find(entries, key));
      }
    }

    // The first critical section of sqfs_cache_get, under the read lock.
    method GetLookup(key: Key) returns (value: Option<V>)
      requires Valid()
      ensures value == Lookup(entries, key)
    {
      var entry := HashFind(key);
      value := if entry != null then Some(entry.value) else None;
    }

    method TouchFound(e: Node<V>, ghost p: nat)
      requires Valid() && p < |nodes| && nodes[p] == e
      modifies this, members
      ensures Valid() && members == old(members) && buckets == old(buckets) && starved == old(starved)
      ensures entries == old([entries[p]] + Drop(entries, p)) && freed == old(freed)
    {
      DropBounded(limits, entries, p, entries[p]);
      Promote(e, p);
    }

    // The second critical section of sqfs_cache_get, under the write lock: the entry is looked up again.
    method GetTouch(key: Key)
      requires Valid()
      modifies this, members
      ensures Valid() && members == old(members) && buckets == old(buckets) && starved == old(starved)
      ensures entries == old(Touch(entries, key)) && freed == old(freed)
    {
      var entry := HashFind(key);
      if entry != null {
        TouchFound(entry, Find(entries, key));
      }
    }

    // sqfs_cache_get when no other thread runs between its two critical sections.
    method Get(key: Key) returns (value: Option<V>)
      requires Valid()
      modifies this, members
      ensures Valid() && members == old(members) && buckets == old(buckets) && starved == old(starved)
      ensures value == old(Lookup(entries, key)) && entries == old(Touch(entries, key)) && freed == old(freed)
    {
      value := GetLookup(key);
      if value.Some? {
        GetTouch(key);
      }
    }

    // Frees every entry from the head on: the loop shared by sqfs_cache_clear and sqfs_cache_destroy.
    method FreeAll()
      requires Linked() && Mirrors(nodes, entries)
      modifies this`freed
      ensures freed == old(freed) + if owns then Values(entries) else []
    {
      var entry := head;
      ghost var i := 0;
      while entry != null
        invariant 0 <= i <= |nodes| && entry == At(nodes, i) && Linked() && Mirrors(nodes, entries)
        invariant freed == old(freed) + if owns then Values(entries[..i]) else []
        decreases |nodes| - i
      {
        freed := freed + if owns then [entry.value] else [];
        assert entries[..i + 1][..i] == entries[..i];
        entry := entry.next;
        i := i + 1;
      }
      assert entries[..i] == entries;
    }

    // memset of the bucket array in sqfs_cache_clear.
    method ClearBuckets()
      requires buckets.Length == bucketCount == bucketMask + 1
      modifies this`chains, buckets
      ensures Table({})
    {
      forall b | 0 <= b < buckets.Length {
        buckets[b] := null;
      }
      chains := seq(bucketCount, _ => []);
    }

    method ClearList()
      modifies this`head, this`tail, this`nodes, this`members
      ensures Linked() && nodes == [] && members == {}
    {
      head, tail := null, null;
      nodes, members := [], {};
    }

    // The resets of sqfs_cache_clear.
    method Reset()
      requires Table(members) && Sized(currentEntries) && limits.entries > 0
      modifies this`head, this`tail, this`nodes, this`members, this`chains, this`entries, this`freed
      modifies this`currentEntries, this`currentMemory, buckets
      ensures Valid() && entries == [] && members == {} && buckets == old(buckets) && starved == old(starved)
      ensures freed == old(freed)
    {
      ClearBuckets();
      ClearList();
      Settle(0, 0, [], []);
    }

    method Clear()
      requires Valid()
      modifies this, buckets
      ensures Valid() && members == {} && buckets == old(buckets) && starved == old(starved)
      ensures var o := old(LruSpec.Clear(entries));
              entries == o.entries && freed == old(freed) + if owns then o.released else []
    {
      FreeAll();
      Reset();
    }

    // The cache is unusable afterwards: its bucket array is gone and every field is zero.
    method Destroy()
      requires Valid()
      modifies this
      ensures entries == [] && freed == old(freed) + if owns then Values(old(entries)) else []
    {
      FreeAll();
      head, tail, currentEntries, currentMemory, bucketCount, bucketMask := null, null, 0, 0, 0, 0;
      nodes, members, entries := [], {}, [];
    }

    constructor Empty(limits: Limits, owns: bool, hash: Key -> uint64, bucketCount: uint64, ghost log: nat)
      requires bucketCount == Bits.Power2(log) && bucketCount >= INITIAL_BUCKETS && limits.entries > 0
      ensures Valid() && fresh(buckets) && entries == [] && members == {} && freed == [] && !starved
      ensures this.limits == limits && this.owns == owns && this.hash == hash && this.bucketCount == bucketCount
    {
      this.limits, this.owns, this.hash := limits, owns, hash;
      this.bucketCount, this.log, bucketMask := bucketCount, log, bucketCount - 1;
      buckets := new Node?<V>[bucketCount](_ => null);
      head, tail, currentEntries, currentMemory := null, null, 0, 0;
      nodes, members, entries, chains := [], {}, [], seq(bucketCount, _ => []);
      freed, starved := [], false;
    }

    // sqfs_cache_init; null stands for the error return. `room` is the outcome of calloc.
    static method Init(limits: Limits, owns: bool, hash: Key -> uint64, room: bool) returns (c: Cache?<V>)
      ensures c == null <==> limits.entries == 0 || !room
      ensures c != null ==> c.Valid() && fresh(c) && fresh(c.buckets) && c.entries == [] && c.members == {}
      ensures c != null ==> c.limits == limits && c.owns == owns && c.hash == hash && c.freed == [] && !c.starved
      ensures c != null ==> limits.entries <= c.bucketCount || c.bucketCount == 65536
      ensures c != null ==> c.bucketCount == 64 || 64 < c.bucketCount < 2 * limits.entries
    {
      if limits.entries == 0 {
        return null;
      }
      var count: uint64 := INITIAL_BUCKETS;
      ghost var log := 6;
      while count < limits.entries && count < MAX_INITIAL_BUCKETS
        invariant count == Bits.Power2(log) && INITIAL_BUCKETS <= count <= MAX_INITIAL_BUCKETS
        invariant log <= 16
        invariant count == INITIAL_BUCKETS || count < 2 * limits.entries
        decreases MAX_INITIAL_BUCKETS - count
      {
        if log < 15 {
          Bits.Power2Increases(log + 1, 16);
        }
        count := count * 2;
        log := log + 1;
      }
      if !room {
        return null;
      }
      c := new Cache.Empty(limits, owns, hash, count, log);
    }
  }
}
