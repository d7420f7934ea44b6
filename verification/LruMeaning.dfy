/** The cache as a map from keys to values in an order of use: what each operation does to both. */
module LruMeaning {
  import opened Words
  import opened LruSpec
  import opened LruRuns

  // When a put is accepted, and the error of one that is not.
  lemma PutStatus<V>(l: Limits, s: seq<Entry<V>>, k: Key, value: Option<V>, size: uint64, memory: bool)
    requires Bounded(l, s) && l.entries > 0 && Memory(s) + size < WORD_64
    ensures LruSpec.Put(l, s, k, value, size, memory).status ==
      if value == None then EInval
      else if size > l.memory then E2Big
      else if memory || Resident(s, k) then Stored
      else ENoMem
  {
    if value.Some? && size <= l.memory && !Resident(s, k) {
      FreshPutFits(l, s, Entry(k, value.value, size), memory);
    }
  }

  // A put that is refused for its value or its size changes nothing and frees nothing.
  lemma RefusedPut<V>(l: Limits, s: seq<Entry<V>>, k: Key, value: Option<V>, size: uint64, memory: bool)
    requires value == None || size > l.memory
    ensures LruSpec.Put(l, s, k, value, size, memory).entries == s
    ensures LruSpec.Put(l, s, k, value, size, memory).released == []
  {
  }

  // After a put that is accepted its key has the value and is the most recently used one.
  lemma PutMaps<V>(l: Limits, s: seq<Entry<V>>, k: Key, v: V, size: uint64, memory: bool)
    requires LruSpec.Put(l, s, k, Some(v), size, memory).status == Stored
    ensures var t := LruSpec.Put(l, s, k, Some(v), size, memory).entries;
      t != [] && t[0] == Entry(k, v, size) && Lookup(t, k) == Some(v)
  {
  }

  lemma LookupPush<V>(e: Entry<V>, s: seq<Entry<V>>, x: Key)
    requires e.key != x
    ensures Lookup([e] + s, x) == Lookup(s, x)
  {
    FindPush(e, s, x);
  }

  lemma LookupDrop<V>(s: seq<Entry<V>>, i: nat, x: Key)
    requires UniqueKeys(s) && i < |s|
    ensures Lookup(Drop(s, i), x) == if x == s[i].key then None else Lookup(s, x)
  {
    FindDrop(s, i, x);
    if x != s[i].key && Find(s, x) < |s| {
      var p := Find(s, x);
      assert Drop(s, i)[if p > i then p - 1 else p] == s[p];
    }
  }

  lemma LookupTake<V>(s: seq<Entry<V>>, n: nat, x: Key)
    requires n <= |s|
    ensures Lookup(s[..n], x) == if Find(s, x) < n then Lookup(s, x) else None
  {
    FindTake(s, n, x);
  }

  // Replacing a value touches no other key.
  lemma ReplaceKeepsOthers<V>(l: Limits, s: seq<Entry<V>>, k: Key, v: V, size: uint64, memory: bool, x: Key)
    requires Bounded(l, s) && Resident(s, k) && size <= l.memory && x != k
    ensures Lookup(LruSpec.Put(l, s, k, Some(v), size, memory).entries, x) == Lookup(s, x)
  {
    var i := Find(s, k);
    LookupDrop(s, i, x);
    LookupPush(Entry(k, v, size), Drop(s, i), x);
  }

  // A put under a fresh key takes away other keys only by evicting them, and those from the least
  // recently used one on: a key that stays has nothing evicted before it.
  lemma FreshPutKeepsRecent<V>(l: Limits, s: seq<Entry<V>>, e: Entry<V>, memory: bool, x: Key)
    requires Bounded(l, s) && !Resident(s, e.key) && e.size <= l.memory && x != e.key
    ensures var t := LruSpec.Put(l, s, e.key, Some(e.value), e.size, memory).entries;
      Lookup(t, x) == if Find(s, x) < Kept(l, s, e.size) then Lookup(s, x) else None
  {
    var kept := Survivors(l, s, e.size);
    LookupTake(s, Kept(l, s, e.size), x);
    LookupPush(e, kept, x);
  }

  // Removing takes away this key and no other.
  lemma RemoveMaps<V>(s: seq<Entry<V>>, k: Key, x: Key)
    requires UniqueKeys(s)
    ensures Lookup(LruSpec.Remove(s, k).entries, x) == if x == k then None else Lookup(s, x)
    ensures LruSpec.Remove(s, k).released == if Resident(s, k) then [Lookup(s, k).value] else []
  {
    if Resident(s, k) {
      LookupDrop(s, Find(s, k), x);
    }
  }

  lemma ClearMaps<V>(s: seq<Entry<V>>, x: Key)
    ensures LruSpec.Clear(s).entries == [] && |LruSpec.Clear(s).released| == |s|
    ensures forall i :: 0 <= i < |s| ==> LruSpec.Clear(s).released[i] == s[i].value
  {
  }

  // A lookup finds the value of the entry with the key.
  lemma LookupFinds<V>(s: seq<Entry<V>>, k: Key)
    ensures (forall i :: 0 <= i < |s| ==> s[i].key != k) <==> Lookup(s, k) == None
    ensures UniqueKeys(s) ==> forall i :: 0 <= i < |s| && s[i].key == k ==> Lookup(s, k) == Some(s[i].value)
  {
    if UniqueKeys(s) {
      forall i | 0 <= i < |s| && s[i].key == k
        ensures Lookup(s, k) == Some(s[i].value)
      {
        FindUnique(s, k, i);
      }
    }
  }

  // A get moves the entry it finds to the front, and the others keep their order.
  lemma GetReorders<V>(s: seq<Entry<V>>, k: Key, i: nat)
    requires UniqueKeys(s) && i < |s| && s[i].key == k
    ensures Touch(s, k) == [s[i]] + (s[..i] + s[i + 1..])
  {
    FindUnique(s, k, i);
  }

  // What a get of one key, then of another, puts first.
  lemma LastUsedFirst<V>(s: seq<Entry<V>>, k: Key, x: Key)
    requires UniqueKeys(s) && Resident(s, k) && Resident(s, x) && k != x
    ensures UniqueKeys(Touch(s, k)) && Touch(Touch(s, k), x)[0].key == x
  {
    var i := Find(s, k);
    FindDrop(s, i, x);
    FindPush(s[i], Drop(s, i), x);
    FindDrop(s, i, k);
    PushUnique(s[i], Drop(s, i));
  }
}
