/**
 * Threads sharing one cache. sqfs_cache_get runs two critical sections, a lookup under the read lock
 * and a promotion under the write lock; other threads may run in between. Each critical section is
 * one atomic step.
 */
module CacheThreads {
  import opened Words
  import opened LruSpec
  import opened LruOwnership
  import opened LruRuns
  import opened Cache
  import CacheRuns

  type Thread = nat

  datatype Event<+V> =
    | Lookup1(t: Thread, key: Key)
    | Promote2(t: Thread)
    | Atomic(op: Op<V>)

  // What a get that has left its first section remembers.
  datatype Pending<+V> = Pending(key: Key, value: V)

  datatype System<+V> = System(entries: seq<Entry<V>>, waiting: map<Thread, Pending<V>>)

  function Start<V>(): System<V> { System([], map[]) }

  function Next<V>(l: Limits, s: System<V>, ev: Event<V>): System<V> {
    match ev
    case Lookup1(t, k) =>
      if t in s.waiting || !Resident(s.entries, k) then s
      else s.(waiting := s.waiting[t := Pending(k, s.entries[Find(s.entries, k)].value)])
    case Promote2(t) =>
      if t !in s.waiting then s
      else System(Touch(s.entries, s.waiting[t].key), s.waiting - {t})
    case Atomic(op) =>
      s.(entries := Step(l, s.entries, op).entries)
  }

  function Reach<V>(l: Limits, events: seq<Event<V>>): System<V> {
    if events == [] then Start() else Next(l, Reach(l, events[..|events| - 1]), events[|events| - 1])
  }

  lemma TouchBounded<V>(l: Limits, s: seq<Entry<V>>, k: Key)
    requires Bounded(l, s)
    ensures Bounded(l, Touch(s, k))
  {
    StepBounded(l, s, Get(k));
  }

  // Whatever the interleaving, keys stay unique and the limits on entries and sizes hold.
  lemma {:induction false} EveryInterleavingBounded<V>(l: Limits, events: seq<Event<V>>)
    ensures Bounded(l, Reach(l, events).entries)
  {
    if events != [] {
      var before := events[..|events| - 1];
      EveryInterleavingBounded(l, before);
      var s := Reach(l, before);
      match events[|events| - 1]
      case Lookup1(t, k) =>
      case Promote2(t) =>
        if t in s.waiting {
          TouchBounded(l, s.entries, s.waiting[t].key);
        }
      case Atomic(op) => StepBounded(l, s.entries, op);
    }
  }

  lemma LookupMoved<V>(s: seq<Entry<V>>, i: nat, x: Key)
    requires UniqueKeys(s) && i < |s|
    ensures Lookup([s[i]] + Drop(s, i), x) == Lookup(s, x)
  {
    var e, d := s[i], Drop(s, i);
    FindPush(e, d, x);
    FindDrop(s, i, x);
    if x == e.key {
      FindUnique(s, x, i);
    } else if Find(s, x) < |s| {
      var j := Find(s, x);
      assert j != i && d[if j > i then j - 1 else j] == s[j];
      assert ([e] + d)[1 + Find(d, x)] == d[Find(d, x)];
    }
  }

  // Promotion never changes what any key is mapped to, and does nothing when the key is gone.
  lemma PromotionKeepsMap<V>(s: seq<Entry<V>>, k: Key, x: Key)
    requires UniqueKeys(s)
    ensures Lookup(Touch(s, k), x) == Lookup(s, x) && |Touch(s, k)| == |s|
    ensures !Resident(s, k) ==> Touch(s, k) == s
    ensures Resident(s, k) ==> Touch(s, k)[0] == s[Find(s, k)]
  {
    if Resident(s, k) {
      LookupMoved(s, Find(s, k), x);
    }
  }

  // Get's two sections leave the key-value map alone, whichever thread runs them and when.
  lemma GetsKeepMap<V>(l: Limits, events: seq<Event<V>>, ev: Event<V>, x: Key)
    requires !ev.Atomic?
    ensures var s := Reach(l, events);
      Lookup(Next(l, s, ev).entries, x) == Lookup(s.entries, x)
  {
    var s := Reach(l, events);
    EveryInterleavingBounded(l, events);
    if ev.Promote2? && ev.t in s.waiting {
      PromotionKeepsMap(s.entries, s.waiting[ev.t].key, x);
    }
  }

  // The value a get returns is the one its key was mapped to when it ran its first section, however
  // many steps of other threads lie between that section and its second one.
  lemma {:induction false} GetReturnsFirstLookup<V>(l: Limits, events: seq<Event<V>>, i: nat, k: Key, t: Thread)
    requires i < |events| && events[i] == Lookup1(t, k) && t !in Reach(l, events[..i]).waiting
    requires forall j :: i < j < |events| ==> events[j] != Promote2(t)
    ensures var s := Reach(l, events);
      match Lookup(Reach(l, events[..i]).entries, k)
      case Some(v) => t in s.waiting && s.waiting[t] == Pending(k, v)
      case None => Reach(l, events[..i + 1]) == Reach(l, events[..i])
  {
    var before := events[..|events| - 1];
    assert events[..i + 1][..i] == events[..i];
    if i == |events| - 1 {
      assert before == events[..i] && events[..i + 1] == events;
    } else {
      assert before[..i] == events[..i] && before[..i + 1] == events[..i + 1];
      assert forall j :: i < j < |before| ==> before[j] == events[j];
      GetReturnsFirstLookup(l, before, i, k, t);
    }
  }

  // Uninterrupted, the two sections are the sequential get.
  lemma UninterruptedGet<V>(l: Limits, events: seq<Event<V>>, k: Key, t: Thread)
    requires t !in Reach(l, events).waiting
    ensures Reach(l, events + [Lookup1(t, k), Promote2(t)])
         == Reach(l, events).(entries := Step(l, Reach(l, events).entries, Get(k)).entries)
  {
    var one := events + [Lookup1(t, k)];
    var two := events + [Lookup1(t, k), Promote2(t)];
    assert one[..|events|] == events && two[..|one|] == one;
    var s := Reach(l, events);
    assert (if Resident(s.entries, k) then
        s.waiting[t := Reach(l, one).waiting[t]] - {t} else s.waiting - {t}) == s.waiting;
  }

  // The sequential operations that an interleaving amounts to: a get takes effect in its second section.
  function Sequential<V>(l: Limits, events: seq<Event<V>>): seq<Op<V>> {
    if events == [] then []
    else
      var before := events[..|events| - 1];
      Sequential(l, before) + Effect(Reach(l, before), events[|events| - 1])
  }

  function Effect<V>(s: System<V>, ev: Event<V>): seq<Op<V>> {
    match ev
    case Lookup1(_, _) => []
    case Promote2(t) => if t in s.waiting then [Get(s.waiting[t].key)] else []
    case Atomic(op) => [op]
  }

  lemma OneMoreOp<V>(l: Limits, ops: seq<Op<V>>, op: Op<V>)
    ensures var o := Step(l, Run(l, [], ops), op);
      && Run(l, [], ops + [op]) == o.entries
      && Freed(l, ops + [op]) == Freed(l, ops) + multiset(o.released)
      && Accepted(l, ops + [op]) == Accepted(l, ops) + Taken(op, o.status)
  {
    assert (ops + [op])[..|ops|] == ops;
  }

  // Every interleaving of the critical sections leaves the list that a sequential run leaves.
  lemma {:induction false} Serializable<V>(l: Limits, events: seq<Event<V>>)
    ensures Reach(l, events).entries == Run(l, [], Sequential(l, events))
  {
    if events != [] {
      var before := events[..|events| - 1];
      var ops, more := Sequential(l, before), Effect(Reach(l, before), events[|events| - 1]);
      Serializable(l, before);
      if more == [] {
        assert ops + more == ops;
      } else {
        OneMoreOp(l, ops, more[0]);
      }
    }
  }

  // The values that the puts among the events accepted, and those that the events freed.
  ghost function AcceptedBy<V>(l: Limits, events: seq<Event<V>>): multiset<V> {
    Accepted(l, Sequential(l, events))
  }

  ghost function FreedBy<V>(l: Limits, events: seq<Event<V>>): multiset<V> {
    Freed(l, Sequential(l, events))
  }

  lemma LastEvent<V>(l: Limits, events: seq<Event<V>>)
    requires events != []
    ensures var before, ev := events[..|events| - 1], events[|events| - 1];
      var o := if ev.Atomic? then Step(l, Reach(l, before).entries, ev.op) else Outcome([], Stored, []);
      && FreedBy(l, events) == FreedBy(l, before) + multiset(o.released)
      && AcceptedBy(l, events) == AcceptedBy(l, before) + if ev.Atomic? then Taken(ev.op, o.status) else multiset{}
  {
    var before := events[..|events| - 1];
    var ops, more := Sequential(l, before), Effect(Reach(l, before), events[|events| - 1]);
    Serializable(l, before);
    if more == [] {
      assert ops + more == ops;
    } else {
      OneMoreOp(l, ops, more[0]);
    }
  }

  // Whatever the interleaving, accepted values are the resident ones plus the freed ones.
  lemma ThreadsConserveOwnership<V>(l: Limits, events: seq<Event<V>>)
    ensures AcceptedBy(l, events) == Held(Reach(l, events).entries) + FreedBy(l, events)
  {
    Serializable(l, events);
    OwnershipConserved(l, Sequential(l, events));
  }

  // An entry of the list after an operation was in it before or is the one that was put.
  lemma EntryOrigin<V>(l: Limits, s: seq<Entry<V>>, op: Op<V>, e: Entry<V>)
    requires e in Step(l, s, op).entries
    ensures e in s || (e.value in Taken(op, Step(l, s, op).status))
  {
  }

  lemma HeldValue<V>(s: seq<Entry<V>>, i: nat)
    requires i < |s|
    ensures s[i].value in Held(s)
  {
    assert Values(s)[i] == s[i].value;
  }

  lemma ValueHolder<V>(s: seq<Entry<V>>, v: V) returns (i: nat)
    requires v in Held(s)
    ensures i < |s| && s[i].value == v
  {
    assert v in Values(s);
    i :| i < |Values(s)| && Values(s)[i] == v;
  }

  lemma OneHolder<V>(s: seq<Entry<V>>, i: nat, j: nat)
    requires Distinct(Held(s)) && i < |s| && j < |s| && s[i].value == s[j].value
    ensures i == j
  {
    if i < j {
      HeldTwice(s, i, j);
    } else if j < i {
      HeldTwice(s, j, i);
    }
  }

  lemma HeldTwice<V>(s: seq<Entry<V>>, i: nat, j: nat)
    requires i < j < |s| && s[i].value == s[j].value
    ensures !Distinct(Held(s))
  {
    HeldDrop(s, j);
    assert Drop(s, j)[i] == s[i];
    HeldValue(Drop(s, j), i);
    assert Held(s)[s[i].value] >= 2;
  }

  // The value was accepted, and while it is resident it is so under the key.
  ghost predicate Remembers<V>(s: seq<Entry<V>>, accepted: multiset<V>, p: Pending<V>) {
    p.value in accepted && (p.value in Held(s) ==> Lookup(s, p.key) == Some(p.value))
  }

  lemma StepRemembers<V>(l: Limits, s: seq<Entry<V>>, op: Op<V>, accepted: multiset<V>, p: Pending<V>)
    requires Bounded(l, s) && Held(s) <= accepted && Distinct(accepted + Taken(op, Step(l, s, op).status))
    requires Remembers(s, accepted, p)
    ensures Remembers(Step(l, s, op).entries, accepted + Taken(op, Step(l, s, op).status), p)
  {
    var s', taken := Step(l, s, op).entries, Taken(op, Step(l, s, op).status);
    var v := p.value;
    assert (accepted + taken)[v] == accepted[v] + taken[v];
    if v in Held(s') {
      var i := ValueHolder(s', v);
      EntryOrigin(l, s, op, s'[i]);
      var j :| 0 <= j < |s| && s[j] == s'[i];
      HeldValue(s, j);
      assert forall x :: Held(s)[x] <= (accepted + taken)[x];
      OneHolder(s, j, Find(s, p.key));
      StepBounded(l, s, op);
      FindUnique(s', p.key, i);
    }
  }

  lemma HeldTouch<V>(s: seq<Entry<V>>, k: Key)
    ensures Held(Touch(s, k)) == Held(s)
  {
    var i := Find(s, k);
    if i < |s| {
      HeldDrop(s, i);
      HeldPush(s[i], Drop(s, i));
    }
  }

  lemma TouchRemembers<V>(s: seq<Entry<V>>, k: Key, accepted: multiset<V>, p: Pending<V>)
    requires UniqueKeys(s) && Remembers(s, accepted, p)
    ensures Remembers(Touch(s, k), accepted, p)
  {
    PromotionKeepsMap(s, k, p.key);
    HeldTouch(s, k);
  }

  // What one event does to what a waiting get remembers.
  lemma NextRemembers<V>(l: Limits, s: System<V>, ev: Event<V>, accepted: multiset<V>, taken: multiset<V>, t: Thread)
    requires Bounded(l, s.entries) && Held(s.entries) <= accepted && Distinct(accepted + taken)
    requires taken == if ev.Atomic? then Taken(ev.op, Step(l, s.entries, ev.op).status) else multiset{}
    requires t in s.waiting ==> Remembers(s.entries, accepted, s.waiting[t])
    requires t in Next(l, s, ev).waiting
    ensures Remembers(Next(l, s, ev).entries, accepted + taken, Next(l, s, ev).waiting[t])
  {
    if t !in s.waiting {
      HeldValue(s.entries, Find(s.entries, ev.key));
    } else if ev.Atomic? {
      StepRemembers(l, s.entries, ev.op, accepted, s.waiting[t]);
    } else if ev.Promote2? && ev.t in s.waiting {
      TouchRemembers(s.entries, s.waiting[ev.t].key, accepted, s.waiting[t]);
    }
  }

  lemma {:induction false} WaitingRemembers<V>(l: Limits, events: seq<Event<V>>, t: Thread)
    requires Distinct(AcceptedBy(l, events)) && t in Reach(l, events).waiting
    ensures Remembers(Reach(l, events).entries, AcceptedBy(l, events), Reach(l, events).waiting[t])
  {
    var before, ev := events[..|events| - 1], events[|events| - 1];
    var s, accepted := Reach(l, before), AcceptedBy(l, before);
    var taken := if ev.Atomic? then Taken(ev.op, Step(l, s.entries, ev.op).status) else multiset{};
    LastEvent(l, events);
    ThreadsConserveOwnership(l, before);
    EveryInterleavingBounded(l, before);
    if t in s.waiting {
      PartsOfDistinct(accepted + taken, taken, accepted);
      WaitingRemembers(l, before, t);
    }
    NextRemembers(l, s, ev, accepted, taken, t);
  }

  // The value a waiting get will return has been freed exactly when its key no longer maps to it,
  // whatever other threads have done since its first section.
  lemma ReturnedValueFreed<V>(l: Limits, events: seq<Event<V>>, t: Thread)
    requires Distinct(AcceptedBy(l, events)) && t in Reach(l, events).waiting
    ensures var s := Reach(l, events);
      s.waiting[t].value in FreedBy(l, events) <==> Lookup(s.entries, s.waiting[t].key) != Some(s.waiting[t].value)
  {
    var s := Reach(l, events);
    var v := s.waiting[t].value;
    WaitingRemembers(l, events, t);
    ThreadsConserveOwnership(l, events);
    assert AcceptedBy(l, events)[v] == Held(s.entries)[v] + FreedBy(l, events)[v];
    if Lookup(s.entries, s.waiting[t].key) == Some(v) {
      HeldValue(s.entries, Find(s.entries, s.waiting[t].key));
    }
  }

  // Both occur: another thread may replace the value between the two sections.
  lemma StaleValueCanBeReturned()
    ensures var l, put := Limits(4, 100), [Atomic(Put(7, Some(10), 1, true))];
      var looked := put + [Lookup1(0, 7)];
      var replaced := looked + [Atomic(Put(7, Some(11), 1, true))];
      && Distinct(AcceptedBy(l, replaced))
      && 0 in Reach(l, looked).waiting && Reach(l, looked).waiting[0].value !in FreedBy(l, looked)
      && 0 in Reach(l, replaced).waiting && Reach(l, replaced).waiting[0].value in FreedBy(l, replaced)
  {
    var l := Limits(4, 100);
    var a: seq<Event<int>> := [Atomic(Put(7, Some(10), 1, true))];
    var b := a + [Lookup1(0, 7)];
    var c := b + [Atomic(Put(7, Some(11), 1, true))];
    ReplacingRun(l, a, b, c);
    AcceptedInRun(l, a, b, c);
    ReturnedValueFreed(l, b, 0);
    ReturnedValueFreed(l, c, 0);
  }

  lemma ReplacingRun(l: Limits, a: seq<Event<int>>, b: seq<Event<int>>, c: seq<Event<int>>)
    requires l == Limits(4, 100) && a == [Atomic(Put(7, Some(10), 1, true))]
    requires b == a + [Lookup1(0, 7)] && c == b + [Atomic(Put(7, Some(11), 1, true))]
    ensures Reach(l, b) == System([Entry(7, 10, 1)], map[0 := Pending(7, 10)])
    ensures Reach(l, c) == System([Entry(7, 11, 1)], map[0 := Pending(7, 10)])
  {
    assert a[..0] == [] && b[..1] == a && c[..2] == b;
    assert Reach(l, a) == System([Entry(7, 10, 1)], map[]);
    assert Drop([Entry(7, 10, 1)], 0) == [];
  }

  lemma AcceptedInRun(l: Limits, a: seq<Event<int>>, b: seq<Event<int>>, c: seq<Event<int>>)
    requires l == Limits(4, 100) && a == [Atomic(Put(7, Some(10), 1, true))]
    requires b == a + [Lookup1(0, 7)] && c == b + [Atomic(Put(7, Some(11), 1, true))]
    requires Reach(l, b).entries == [Entry(7, 10, 1)]
    ensures AcceptedBy(l, b) == multiset{10} && AcceptedBy(l, c) == multiset{10, 11}
  {
    LastEvent(l, a);
    LastEvent(l, b);
    LastEvent(l, c);
    assert a[..0] == [] && b[..1] == a && c[..2] == b;
    assert Step(l, [], Put(7, Some(10), 1, true)).status == Stored;
  }

  // The same steps taken by the heap cache: every interleaving keeps the links, the chains and the
  // counters consistent, gives the list of the abstract system, and frees the same values.
  method Interleave<V>(c: Cache<V>, events: seq<Event<V>>) returns (waiting: map<Thread, Pending<V>>)
    requires c.Valid() && c.entries == [] && c.freed == []
    modifies c, c.buckets, c.members
    ensures c.Valid() && System(c.entries, waiting) == Reach(c.limits, events)
    ensures c.owns ==> multiset(c.freed) == FreedBy(c.limits, events)
    ensures fresh(c.members - old(c.members)) && (c.buckets == old(c.buckets) || fresh(c.buckets))
    decreases |events|
  {
    waiting := map[];
    if events != [] {
      var n := |events| - 1;
      waiting := Interleave(c, events[..n]);
      LastEvent(c.limits, events);
      waiting := RunSection(c, events[n], waiting);
    }
  }

  function Released<V>(l: Limits, s: seq<Entry<V>>, ev: Event<V>): seq<V> {
    if ev.Atomic? then Step(l, s, ev.op).released else []
  }

  method RunSection<V>(c: Cache<V>, ev: Event<V>, waiting: map<Thread, Pending<V>>)
    returns (waiting': map<Thread, Pending<V>>)
    requires c.Valid()
    modifies c, c.buckets, c.members
    ensures c.Valid() && System(c.entries, waiting') == Next(c.limits, System(old(c.entries), waiting), ev)
    ensures c.freed == old(c.freed) + if c.owns then old(Released(c.limits, c.entries, ev)) else []
    ensures fresh(c.members - old(c.members)) && (c.buckets == old(c.buckets) || fresh(c.buckets))
  {
    waiting' := waiting;
    match ev
    case Lookup1(t, k) =>
      var value := c.GetLookup(k);
      if t !in waiting && value.Some? {
        waiting' := waiting[t := Pending(k, value.value)];
      }
    case Promote2(t) =>
      if t in waiting {
        c.GetTouch(waiting[t].key);
        waiting' := waiting - {t};
      }
    case Atomic(op) =>
      var room: bool := *;
      CacheRuns.Perform(c, op, room);
  }
}
