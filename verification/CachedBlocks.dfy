/**
 * The cache that data blocks and fragment blocks share: what one access to it answers, what it leaves
 * in the cache, and when the answers are those of the disk.
 */
module CachedBlocks {
  import opened Words
  import opened Buffers
  import opened Bytes
  import opened Disk
  import opened FileLayout
  import opened FileContents
  import opened LruSpec
  import opened Cache

  // sqfs_data_block_entry_t and sqfs_fragment_t, which share one layout; is_cached is always set.
  datatype CachedBlock = CachedBlock(data: bytes)

  type Shelf = seq<Entry<CachedBlock>>

  // sizeof of those structures.
  const ENTRY_HEADER: nat := 32

  // The data block at a position, wanted from some offset on, or a fragment block. Data blocks are
  // cached under their position, fragment blocks under their index.
  datatype Access =
    | DataAt(pos: uint64, encoded: uint32, from: nat)
    | FragmentOf(index: uint32)

  function KeyOf(x: Access): Key { if x.DataAt? then x.pos else x.index }

  // The expanded block, and what an access answers of it, when there is no cache.
  function Expanded(w: World, x: Access): Result<bytes> {
    match x
    case DataAt(pos, encoded, _) => DataBlock(w.disk, pos, encoded, w.blockSize)
    case FragmentOf(index) => FragmentBlock(w, index)
  }

  function PartFor(x: Access, data: bytes): bytes {
    if x.DataAt? && x.from <= |data| then data[x.from..] else if x.DataAt? then [] else data
  }

  function DirectAnswer(w: World, x: Access): Result<bytes> {
    match Expanded(w, x)
    case Err(e) => Err(e)
    case Ok(data) => Ok(PartFor(x, data))
  }

  // A cached data block is not used when it ends before the offset.
  predicate Usable(x: Access, v: CachedBlock) { x.DataAt? ==> x.from < |v.data| }

  predicate Hits(s: Shelf, x: Access) {
    Lookup(s, KeyOf(x)).Some? && Usable(x, Lookup(s, KeyOf(x)).value)
  }

  // What an access answers when the cache holds s. The entry found is not asked what it is a block of.
  function CachedAnswer(w: World, s: Shelf, x: Access): Result<bytes> {
    if Hits(s, x) then Ok(PartFor(x, Lookup(s, KeyOf(x)).value.data)) else DirectAnswer(w, x)
  }

  // How the allocations of an access turn out: those for the entry, and the cache's own for a node.
  datatype Luck = Luck(entry: bool, node: bool)

  function Charge(w: World, x: Access, data: bytes): nat {
    ENTRY_HEADER + if x.DataAt? then |data| else w.blockSize
  }

  // What the cache holds after an access: a block read from disk is put into it. An empty data block is not.
  function NextBlocks(w: World, l: Limits, s: Shelf, x: Access, luck: Luck): Shelf {
    var touched := Touch(s, KeyOf(x));
    if Hits(s, x) || !luck.entry then touched
    else match Expanded(w, x)
      case Err(_) => touched
      case Ok(data) =>
        if (x.DataAt? && data == []) || Charge(w, x, data) >= WORD_64 then touched
        else LruSpec.Put(l, touched, KeyOf(x), Some(CachedBlock(data)), Charge(w, x, data), luck.node).entries
  }

  // The access is one the read loop makes: of a block that is no hole, at an offset inside it.
  predicate Proper(w: World, x: Access) {
    match x
    case DataAt(_, encoded, from) =>
      encoded != 0 && (Expanded(w, x).Ok? ==> from < |Expanded(w, x).value| <= w.blockSize)
    case FragmentOf(index) => index != NO_FRAGMENT
  }

  // What the inodes of an image refer to: positions and encoded sizes of data blocks, and indices of
  // fragments.
  datatype Used = Used(blocks: set<(Key, uint32)>, fragments: set<uint32>)

  predicate Uses(w: World, used: Used, x: Access) {
    Proper(w, x) && if x.DataAt? then (x.pos, x.encoded) in used.blocks else x.index in used.fragments
  }

  predicate AllUse(w: World, used: Used, xs: seq<Access>) {
    forall i :: 0 <= i < |xs| ==> Uses(w, used, xs[i])
  }

  // What an empty cache holds after some accesses, when no allocation fails.
  function After(w: World, l: Limits, xs: seq<Access>): Shelf {
    if xs == [] then []
    else NextBlocks(w, l, After(w, l, xs[..|xs| - 1]), xs[|xs| - 1], Luck(true, true))
  }

  function WholeOf(x: Access): Access { if x.DataAt? then x.(from := 0) else x }

  // The access is one that can be made under key p, to the whole of a block.
  predicate Whole(w: World, used: Used, p: Key, x: Access) {
    Uses(w, used, x) && KeyOf(x) == p && (x.DataAt? ==> x.from == 0)
  }

  // v is what some access under key k expands to.
  ghost predicate Origin(w: World, used: Used, k: Key, v: CachedBlock) {
    exists x :: Whole(w, used, k, x) && Expanded(w, x) == Ok(v.data)
  }

  ghost predicate Originate(w: World, used: Used, s: Shelf) {
    forall i :: 0 <= i < |s| ==> Origin(w, used, s[i].key, s[i].value)
  }

  lemma NextOriginate(w: World, used: Used, l: Limits, s: Shelf, x: Access, luck: Luck)
    requires Originate(w, used, s) && Uses(w, used, x)
    ensures Originate(w, used, NextBlocks(w, l, s, x, luck))
  {
    var s' := NextBlocks(w, l, s, x, luck);
    forall i | 0 <= i < |s'|
      ensures Origin(w, used, s'[i].key, s'[i].value)
    {
      NextOrigin(w, l, s, x, luck, s'[i]);
      assert Uses(w, used, WholeOf(x)) && Expanded(w, WholeOf(x)) == Expanded(w, x);
      assert s'[i] !in s ==> Whole(w, used, s'[i].key, WholeOf(x));
    }
  }

  // An entry of the cache after an access was in it before, or is the block that was accessed.
  lemma NextOrigin(w: World, l: Limits, s: Shelf, x: Access, luck: Luck, e: Entry<CachedBlock>)
    requires e in NextBlocks(w, l, s, x, luck)
    ensures e in s ||
      (e.key == KeyOf(x) && Expanded(w, x) == Ok(e.value.data) && (x.DataAt? ==> e.value.data != []))
  {
    var touched := Touch(s, KeyOf(x));
    if e in touched {
      TouchedWasThere(s, KeyOf(x), e);
    } else {
      var data := Expanded(w, x).value;
      PutOrigin(l, touched, KeyOf(x), CachedBlock(data), Charge(w, x, data), luck.node, e);
    }
  }

  lemma TouchedWasThere(s: Shelf, k: Key, e: Entry<CachedBlock>)
    requires e in Touch(s, k)
    ensures e in s
  {
  }

  lemma PutOrigin(l: Limits, s: Shelf, k: Key, v: CachedBlock, size: uint64, memory: bool, e: Entry<CachedBlock>)
    requires e in LruSpec.Put(l, s, k, Some(v), size, memory).entries
    ensures e in s || e == Entry(k, v, size)
  {
  }

  lemma {:induction false} AfterOriginate(w: World, used: Used, l: Limits, xs: seq<Access>)
    requires AllUse(w, used, xs)
    ensures Originate(w, used, After(w, l, xs))
  {
    if xs != [] {
      AfterOriginate(w, used, l, xs[..|xs| - 1]);
      NextOriginate(w, used, l, After(w, l, xs[..|xs| - 1]), xs[|xs| - 1], Luck(true, true));
    }
  }

  // The block that is used at position p with this encoded size.
  function BlockOf(w: World, p: Key, encoded: uint32): Result<bytes> {
    DataBlock(w.disk, p, encoded, w.blockSize)
  }

  predicate Located(w: World, used: Used, p: Key, encoded: uint32) {
    (p, encoded) in used.blocks && Proper(w, DataAt(p, encoded, 0))
  }

  // The block and the fragment of one number are the same. (An empty fragment is not taken for a block.)
  predicate SameAsFragment(w: World, p: uint32, encoded: uint32) {
    var d, g := BlockOf(w, p, encoded), FragmentBlock(w, p);
    d.Ok? || (g.Ok? && g.value != []) ==> d == g
  }

  // No position in use has two encoded sizes that expand differently, and none that is also an index in
  // use has other bytes than that fragment.
  ghost predicate Agreeable(w: World, used: Used, p: Key) {
    && (forall e, e' :: Located(w, used, p, e) && Located(w, used, p, e') && BlockOf(w, p, e).Ok? ==>
          BlockOf(w, p, e') == BlockOf(w, p, e))
    && (p in used.fragments && p != NO_FRAGMENT ==>
          forall e :: Located(w, used, p, e) ==> SameAsFragment(w, p, e))
  }

  // It is enough that no position in use is an index in use or used with two encoded sizes.
  predicate Separate(used: Used) {
    && (forall b :: b in used.blocks ==> b.0 !in used.fragments)
    && (forall b, c :: b in used.blocks && c in used.blocks && b.0 == c.0 ==> b.1 == c.1)
  }

  lemma SeparateIsAgreeable(w: World, used: Used, p: Key)
    requires Separate(used)
    ensures Agreeable(w, used, p)
  {
    forall e: uint32, e': uint32 | Located(w, used, p, e) && Located(w, used, p, e')
      ensures e == e' && p !in used.fragments
    {
      var b, c := (p, e), (p, e');
      assert b in used.blocks && c in used.blocks && b.0 == c.0;
    }
  }

  // Having made access x, the cache takes its block for that of any access under the same key.
  predicate Consistent(w: World, x: Access, y: Access) {
    Expanded(w, x).Ok? && (y.DataAt? ==> Expanded(w, x).value != []) ==> Expanded(w, y) == Expanded(w, x)
  }

  lemma AgreeableIsConsistent(w: World, used: Used, p: Key)
    ensures Agreeable(w, used, p) <==>
      forall x, y :: Whole(w, used, p, x) && Whole(w, used, p, y) ==> Consistent(w, x, y)
  {
    forall x | Whole(w, used, p, x)
      ensures if x.DataAt? then x == DataAt(p, x.encoded, 0) && Located(w, used, p, x.encoded) else x == FragmentOf(p)
    {
    }
    forall e | Located(w, used, p, e)
      ensures Whole(w, used, p, DataAt(p, e, 0)) && Expanded(w, DataAt(p, e, 0)) == BlockOf(w, p, e)
    {
    }
    if forall x, y :: Whole(w, used, p, x) && Whole(w, used, p, y) ==> Consistent(w, x, y) {
      forall e, e' | Located(w, used, p, e) && Located(w, used, p, e') && BlockOf(w, p, e).Ok?
        ensures BlockOf(w, p, e') == BlockOf(w, p, e)
      {
        assert Consistent(w, DataAt(p, e, 0), DataAt(p, e', 0));
      }
      if p in used.fragments && p != NO_FRAGMENT {
        assert Whole(w, used, p, FragmentOf(p));
        forall e | Located(w, used, p, e)
          ensures SameAsFragment(w, p, e)
        {
          assert Consistent(w, DataAt(p, e, 0), FragmentOf(p)) && Consistent(w, FragmentOf(p), DataAt(p, e, 0));
        }
      }
    }
  }

  // An access under key p after others answers what the disk has.
  ghost predicate TransparentAfter(w: World, l: Limits, xs: seq<Access>, x: Access) {
    CachedAnswer(w, After(w, l, xs), x) == DirectAnswer(w, x)
  }

  ghost predicate Transparent(w: World, used: Used, l: Limits, p: Key) {
    forall xs, x :: AllUse(w, used, xs) && Uses(w, used, x) && KeyOf(x) == p ==> TransparentAfter(w, l, xs, x)
  }

  lemma AgreeableAnswers(w: World, used: Used, s: Shelf, x: Access)
    requires Originate(w, used, s) && Uses(w, used, x) && Agreeable(w, used, KeyOf(x))
    ensures CachedAnswer(w, s, x) == DirectAnswer(w, x)
  {
    if Hits(s, x) {
      var v := Lookup(s, KeyOf(x)).value;
      assert Origin(w, used, KeyOf(x), v);
      var y :| Whole(w, used, KeyOf(x), y) && Expanded(w, y) == Ok(v.data);
      AgreeableIsConsistent(w, used, KeyOf(x));
      assert Whole(w, used, KeyOf(x), WholeOf(x));
      assert Consistent(w, y, WholeOf(x));
    }
  }

  // Room for any block.
  predicate RoomForBlocks(w: World, l: Limits) {
    l.entries > 0 && ENTRY_HEADER + w.blockSize <= l.memory
  }

  lemma FirstAccess(w: World, l: Limits, x: Access, data: bytes)
    requires RoomForBlocks(w, l) && Expanded(w, x) == Ok(data) && (x.DataAt? ==> 0 < |data| <= w.blockSize)
    ensures After(w, l, [x]) ==
      [Entry(KeyOf(x), CachedBlock(data), if x.DataAt? then 32 + |data| else 32 + w.blockSize)]
  {
    assert [x][..0] == [];
    assert Touch<CachedBlock>([], KeyOf(x)) == [];
  }

  // An empty data block is not cached.
  lemma EmptyIsNotCached(w: World, l: Limits, s: Shelf, x: Access, luck: Luck)
    requires x.DataAt? && Expanded(w, x) == Ok([])
    ensures NextBlocks(w, l, s, x, luck) == Touch(s, x.pos)
  {
  }

  // Over all sequences of reads of what is used the shared cache is transparent to both kinds of access
  // under a key exactly when the blocks the key can stand for do not clash.
  lemma TransparentIff(w: World, used: Used, l: Limits, p: Key)
    requires RoomForBlocks(w, l)
    ensures Transparent(w, used, l, p) <==> Agreeable(w, used, p)
  {
    AgreeableIsConsistent(w, used, p);
    if Agreeable(w, used, p) {
      forall xs, x | AllUse(w, used, xs) && Uses(w, used, x) && KeyOf(x) == p
        ensures TransparentAfter(w, l, xs, x)
      {
        AfterOriginate(w, used, l, xs);
        AgreeableAnswers(w, used, After(w, l, xs), x);
      }
    } else {
      var x, y :| Whole(w, used, p, x) && Whole(w, used, p, y) && !Consistent(w, x, y);
      FirstAccess(w, l, x, Expanded(w, x).value);
      assert AllUse(w, used, [x]) && !TransparentAfter(w, l, [x], y);
    }
  }

  // An image with a data block of one byte at position 96 and a fragment of index 96, and both orders
  // of reading them: the second read gets the other one's byte.
  function Clash(): World {
    World(Disk(Zeros(96) + [7, 9], (_, _) => None), 4096,
          FragmentTable(true, seq(97, _ => FragmentEntry(97, 0x100_0001))))
  }

  lemma ClashingRun()
    ensures var w, l := Clash(), Limits(128, 0x100_0000);
      var x, y := DataAt(96, 0x100_0001, 0), FragmentOf(96);
      && DirectAnswer(w, x) == Ok([7]) && CachedAnswer(w, After(w, l, [y]), x) == Ok([9])
      && DirectAnswer(w, y) == Ok([9]) && CachedAnswer(w, After(w, l, [x]), y) == Ok([7])
      && AllUse(w, Used({(96, 0x100_0001)}, {96}), [x, y])
  {
    var w, l := Clash(), Limits(128, 0x100_0000);
    var x, y := DataAt(96, 0x100_0001, 0), FragmentOf(96);
    assert w.disk.image[96..97] == [7] && w.disk.image[97..98] == [9];
    FirstAccess(w, l, x, [7]);
    FirstAccess(w, l, y, [9]);
  }

  // A cache operation may replace the bucket array and add nodes, but touches no other object.
  twostate predicate Grown(c: Cache<CachedBlock>)
    reads c
  {
    fresh(c.members - old(c.members)) && (c.buckets == old(c.buckets) || fresh(c.buckets))
  }

  // sqfs_data_read_block. `memory` says that every allocation succeeds, here and in the methods below.
  method DataReadBlock(w: World, pos: uint64, encoded: uint32, memory: bool) returns (r: Result<bytes>)
    ensures r == DataBlock(w.disk, pos, encoded, w.blockSize) || (!memory && r == Err(NoMemory))
  {
    if encoded == 0 {
      return Ok(Zeros(w.blockSize));
    }
    var size := StoredSize(encoded);
    if StoredRaw(encoded) {
      var stored := ReadAt(w.disk, pos, size);
      return if stored.Some? then Ok(stored.value) else Err(Io);
    }
    if size > w.blockSize {
      var available: bool := *;
      if !memory && !available {
        return Err(NoMemory);
      }
    }
    var stored := ReadAt(w.disk, pos, size);
    if stored.None? {
      return Err(Io);
    }
    var out := Inflate(w.disk, stored.value, w.blockSize);
    return if out.Some? then Ok(out.value) else Err(Corrupt);
  }

  // sqfs_cache_get, and whether the entry can be used.
  method Recall(cache: Cache<CachedBlock>, x: Access) returns (r: Option<bytes>)
    requires cache.Valid()
    modifies cache, cache.members
    ensures cache.Valid() && cache.members == old(cache.members) && cache.buckets == old(cache.buckets)
    ensures cache.entries == old(Touch(cache.entries, KeyOf(x)))
    ensures r == if old(Hits(cache.entries, x)) then Some(old(Lookup(cache.entries, KeyOf(x))).value.data) else None
  {
    var found := cache.Get(KeyOf(x));
    r := if found.Some? && Usable(x, found.value) then Some(found.value.data) else None;
  }

  // Puts a block read from disk into the cache; a put that fails is ignored.
  method Keep(w: World, cache: Cache<CachedBlock>, x: Access, data: bytes, memory: bool, ghost before: Shelf)
    returns (ghost luck: Luck)
    requires cache.Valid() && cache.entries == Touch(before, KeyOf(x)) && !Hits(before, x) && Expanded(w, x) == Ok(data)
    modifies cache, cache.buckets, cache.members
    ensures cache.Valid() && Grown(cache)
    ensures cache.entries == NextBlocks(w, cache.limits, before, x, luck) && (memory ==> luck == Luck(true, true))
  {
    var entry: bool, node: bool, room: bool := *, *, *;
    entry, node := entry || memory, node || memory;
    luck := Luck(entry, node);
    if entry && !(x.DataAt? && data == []) && Charge(w, x, data) < WORD_64 {
      var _ := cache.Put(KeyOf(x), Some(CachedBlock(data)), Charge(w, x, data), node, room);
    }
  }

  function Cut(r: Result<bytes>, n: nat): Result<bytes> {
    if r.Ok? then Ok(r.value[0..Least(n, |r.value|)]) else r
  }

  // What is copied of a block just read, and of a cached one.
  function FreshPart(w: World, x: Access, data: bytes, remaining: nat): bytes
    requires x.DataAt? && x.from <= |data| && x.from <= w.blockSize
  {
    data[x.from..x.from + Least(Least(w.blockSize - x.from, remaining), |data| - x.from)]
  }

  function CachedPart(x: Access, data: bytes, remaining: nat): bytes
    requires x.DataAt? && x.from <= |data|
  {
    data[x.from..x.from + Least(|data| - x.from, remaining)]
  }

  lemma FreshPartIsCut(w: World, x: Access, data: bytes, remaining: nat)
    requires x.DataAt? && Proper(w, x) && Expanded(w, x) == Ok(data)
    ensures x.from <= |data| && x.from <= w.blockSize
    ensures Cut(DirectAnswer(w, x), remaining) == Ok(FreshPart(w, x, data, remaining))
  {
    SliceBehind(data, x.from, 0, Least(remaining, |data| - x.from));
  }

  lemma CachedPartIsCut(w: World, s: Shelf, x: Access, remaining: nat)
    requires x.DataAt? && Hits(s, x)
    ensures var data := Lookup(s, x.pos).value.data;
      x.from <= |data| && Cut(CachedAnswer(w, s, x), remaining) == Ok(CachedPart(x, data, remaining))
  {
    var data := Lookup(s, x.pos).value.data;
    SliceBehind(data, x.from, 0, Least(remaining, |data| - x.from));
  }

  // Reads and expands a block that is not cached, and offers it to the cache.
  method Fetch(w: World, cache: Cache<CachedBlock>, x: Access, memory: bool, ghost before: Shelf)
    returns (r: Result<bytes>, ghost luck: Luck)
    requires cache.Valid() && x.DataAt? && cache.entries == Touch(before, x.pos) && !Hits(before, x)
    modifies cache, cache.buckets, cache.members
    ensures cache.Valid() && Grown(cache)
    ensures cache.entries == NextBlocks(w, cache.limits, before, x, luck) && (memory ==> luck == Luck(true, true))
    ensures r == Expanded(w, x) || (!memory && r == Err(NoMemory))
  {
    r := DataReadBlock(w, x.pos, x.encoded, memory);
    if r.Ok? {
      luck := Keep(w, cache, x, r.value, memory, before);
    } else {
      luck := Luck(memory, memory);
    }
  }

  // A round of the read loop on a block that is no hole: the cache first, then the disk.
  method ReadData(w: World, cache: Cache<CachedBlock>, x: Access, remaining: nat, memory: bool)
    returns (r: Result<bytes>, ghost luck: Luck)
    requires cache.Valid() && x.DataAt? && Proper(w, x)
    modifies cache, cache.buckets, cache.members
    ensures cache.Valid() && Grown(cache)
    ensures cache.entries == old(NextBlocks(w, cache.limits, cache.entries, x, luck))
    ensures memory ==> luck == Luck(true, true)
    ensures r == old(Cut(CachedAnswer(w, cache.entries, x), remaining)) || (!memory && r == Err(NoMemory))
  {
    ghost var before := cache.entries;
    var cached := Recall(cache, x);
    if cached.Some? {
      CachedPartIsCut(w, before, x, remaining);
      return Ok(CachedPart(x, cached.value, remaining)), Luck(true, true);
    }
    var block;
    block, luck := Fetch(w, cache, x, memory, before);
    if block.Err? {
      return block, luck;
    }
    FreshPartIsCut(w, x, block.value, remaining);
    return Ok(FreshPart(w, x, block.value, remaining)), luck;
  }

  // sqfs_fragment_read when the cache holds s.
  function FragmentAnswer(w: World, s: Shelf, index: uint32, offset: uint32, size: nat): Result<bytes> {
    if index == NO_FRAGMENT then Err(NotFound)
    else if offset >= w.blockSize then Err(Corrupt)
    else match CachedAnswer(w, s, FragmentOf(index))
      case Err(e) => Err(e)
      case Ok(block) => Ok(FragmentPart(block, w.blockSize, offset, size))
  }

  function AfterFragment(w: World, l: Limits, s: Shelf, index: uint32, offset: uint32, luck: Luck): Shelf {
    if index == NO_FRAGMENT || offset >= w.blockSize then s else NextBlocks(w, l, s, FragmentOf(index), luck)
  }

  // sqfs_fragment_read through the cache.
  method ReadFragment(w: World, cache: Cache<CachedBlock>, index: uint32, offset: uint32, size: nat, memory: bool)
    returns (r: Result<bytes>, ghost luck: Luck)
    requires cache.Valid()
    modifies cache, cache.buckets, cache.members
    ensures cache.Valid() && Grown(cache)
    ensures cache.entries == old(AfterFragment(w, cache.limits, cache.entries, index, offset, luck))
    ensures memory ==> luck == Luck(true, true)
    ensures r == old(FragmentAnswer(w, cache.entries, index, offset, size)) || (!memory && r == Err(NoMemory))
  {
    ghost var before := cache.entries;
    luck := Luck(memory, memory);
    if index == NO_FRAGMENT {
      return Err(NotFound), luck;
    }
    if offset >= w.blockSize {
      return Err(Corrupt), luck;
    }
    var cached := Recall(cache, FragmentOf(index));
    if cached.Some? {
      return Ok(FragmentPart(cached.value, w.blockSize, offset, size)), luck;
    }
    var available: bool := *;
    if !memory && !available {
      return Err(NoMemory), luck;
    }
    var block := FragmentBlock(w, index);
    if block.Err? {
      return Err(block.error), luck;
    }
    luck := Keep(w, cache, FragmentOf(index), block.value, memory, before);
    return Ok(FragmentPart(block.value, w.blockSize, offset, size)), luck;
  }
}
