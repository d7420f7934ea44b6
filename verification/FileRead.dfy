/** Reading files through the cache of blocks, by the loop that assembles them. */
module FileRead {
  import opened Words
  import opened Buffers
  import opened Bytes
  import opened Disk
  import opened Division
  import opened FileLayout
  import opened FileContents
  import opened FileAnswers
  import opened LruSpec
  import opened Cache
  import opened CachedBlocks

  // The file's stored blocks and its fragment are among those used.
  ghost predicate InUse(used: Used, f: File) {
    && (Fragmented(f) ==> f.fragment in used.fragments)
    && forall i :: 0 <= i < |f.blockSizes| && f.blockSizes[i] != 0 ==> (PosAt(f, i), f.blockSizes[i]) in used.blocks
  }

  // None of the keys under which these are cached stands for different blocks.
  ghost predicate Known(w: World, used: Used, f: File) {
    && InUse(used, f)
    && (Fragmented(f) ==> Agreeable(w, used, f.fragment))
    && forall i :: 0 <= i < |f.blockSizes| && f.blockSizes[i] != 0 ==> Agreeable(w, used, PosAt(f, i))
  }

  ghost predicate KnownFragment(w: World, used: Used, index: uint32) {
    index != NO_FRAGMENT ==> index in used.fragments && Agreeable(w, used, index)
  }

  // Where positions and indices are separate, that is the case.
  lemma SeparateIsKnown(w: World, used: Used, f: File)
    requires Separate(used) && InUse(used, f)
    ensures Known(w, used, f)
  {
    forall p: Key
      ensures Agreeable(w, used, p)
    {
      SeparateIsAgreeable(w, used, p);
    }
  }

  // Every cached block is what some access under its key expands to.
  ghost predicate Good(w: World, used: Used, cache: Cache<CachedBlock>)
    reads cache, cache.buckets, cache.nodes, cache.members
  {
    cache.Valid() && Originate(w, used, cache.entries)
  }

  // A fragment read returns what one without a cache would.
  method ReadFragmentOf(w: World, ghost used: Used, cache: Cache<CachedBlock>, index: uint32,
      offset: uint32, size: nat, memory: bool)
    returns (r: Result<bytes>)
    requires Good(w, used, cache) && KnownFragment(w, used, index)
    modifies cache, cache.buckets, cache.members
    ensures Good(w, used, cache) && Grown(cache)
    ensures r == FragmentRead(w, index, offset, size) || (!memory && r == Err(NoMemory))
  {
    ghost var before := cache.entries;
    ghost var luck;
    r, luck := ReadFragment(w, cache, index, offset, size, memory);
    if index != NO_FRAGMENT {
      AgreeableAnswers(w, used, before, FragmentOf(index));
      NextOriginate(w, used, cache.limits, before, FragmentOf(index), luck);
    }
  }

  // The contents with a tail of zeros, which read_from_fragment puts in place of a tail it cannot read.
  ghost function ContentsWithoutTail(w: World, f: File): bytes
    requires w.blockSize > 0
  {
    Blocks(w, f, |f.blockSizes|) + if Fragmented(f) then Zeros(TailSize(w, f)) else []
  }

  lemma TailIsFragmentPart(w: World, f: File, from: nat, size: nat)
    requires WellFormed(w, f) && Fragmented(f) && from + size <= TailSize(w, f) && size > 0
    ensures var part, tail := FragmentRead(w, f.fragment, Word32(f.fragmentOffset + from), size), TailBytes(w, f);
      if part.Ok? then tail.Ok? && part.value == tail.value[from..from + size] else tail.Err?
  {
    var block := FragmentBlock(w, f.fragment);
    if block.Ok? {
      PartOfTail(w.blockSize, f.fragmentOffset, TailSize(w, f), block.value, from, size);
    }
  }

  lemma PartOfTail(blockSize: uint32, start: uint32, n: nat, block: bytes, from: nat, size: nat)
    requires from + size <= n && start + n <= |block| <= blockSize && size > 0
    ensures start + from < blockSize && Word32(start + from) == start + from
    ensures FragmentPart(block, blockSize, start + from, size) == block[start..start + n][from..from + size]
  {
    SliceOfSlice(block, start, n, from, from + size);
  }

  // read_from_fragment: every failure is answered with zeros.
  method ReadTail(w: World, ghost used: Used, cache: Cache<CachedBlock>, f: File, from: nat,
      size: nat, memory: bool)
    returns (r: bytes)
    requires Good(w, used, cache) && Known(w, used, f)
    requires WellFormed(w, f) && Fragmented(f) && from + size <= TailSize(w, f) && size > 0
    modifies cache, cache.buckets, cache.members
    ensures Good(w, used, cache) && Grown(cache)
    ensures |r| == size
    ensures TailBytes(w, f).Ok? ==> r == TailBytes(w, f).value[from..from + size] || (!memory && r == Zeros(size))
    ensures TailBytes(w, f).Err? ==> r == Zeros(size)
    ensures r == Tail(w, f)[from..from + size] || (!memory && r == Zeros(size))
  {
    TailIsFragmentPart(w, f, from, size);
    assert Zeros(TailSize(w, f))[from..from + size] == Zeros(size);
    var part := ReadFragmentOf(w, used, cache, f.fragment, Word32(f.fragmentOffset + from), size, memory);
    r := if part.Ok? then part.value else Zeros(size);
  }

  // Position pos, in piece i of m bytes, and size, in piece q.
  lemma PieceOf(m: nat, pos: nat, i: nat, from: nat, size: nat, q: nat, t: nat)
    requires pos == Begin(m, i) + from && from < m && size == Begin(m, q) + t && t < m && pos < size
    ensures i <= q && (i < q ==> Begin(m, i) + m <= size) && (i == q ==> from < t)
  {
    if q < i {
      BeginIncreases(m, q, i);
    } else if i < q {
      BeginIncreases(m, i, q);
    }
  }

  // Where the read loop finds the byte at `pos`: in a block, or in the tail.
  lemma Locate(w: World, f: File, pos: uint64, i: nat, from: nat)
    requires WellFormed(w, f) && pos < f.size && i == pos / w.blockSize && from == pos % w.blockSize
    ensures pos == Begin(w.blockSize, i) + from && Word32(i) == i
    ensures i < |f.blockSizes| ==> from < Share(w, f, i)
    ensures i >= |f.blockSizes| ==> i == |f.blockSizes| && Fragmented(f) && from + (f.size - pos) == TailSize(w, f)
  {
    var m := w.blockSize;
    IsDivision(pos, m);
    Recompose(pos, m);
    Recompose(f.size, m);
    PieceOf(m, pos, i, from, f.size, Quotient(f.size, m), Remainder(f.size, m));
  }

  // block_idx and block_offset of the read loop.
  method FindBlock(w: World, ghost f: File, pos: uint64) returns (index: uint32, from: uint32)
    requires WellFormed(w, f) && pos < f.size
    ensures pos == Begin(w.blockSize, index) + from && index <= |f.blockSizes|
    ensures index < |f.blockSizes| ==> from < Share(w, f, index)
    ensures index == |f.blockSizes| ==> Fragmented(f) && from + (f.size - pos) == TailSize(w, f)
  {
    Locate(w, f, pos, pos / w.blockSize, pos % w.blockSize);
    index, from := Word32(pos / w.blockSize), pos % w.blockSize;
  }

  // The access that reads block i of the file from an offset in it on.
  function BlockAccess(f: File, i: nat, from: nat): Access
    requires i < |f.blockSizes|
  {
    DataAt(PosAt(f, i), f.blockSizes[i], from)
  }

  // b is what block i holds from `from` on, cut to `remaining` bytes.
  ghost predicate IsRun(w: World, f: File, i: nat, from: nat, remaining: nat, b: bytes)
    requires i < |f.blockSizes|
  {
    from < Share(w, f, i) && b == Piece(w, f, i)[from..from + Least(remaining, Share(w, f, i) - from)]
  }

  lemma BlockRun(w: World, used: Used, f: File, i: nat, from: nat, remaining: nat)
    requires WellFormed(w, f) && Known(w, used, f) && i < |f.blockSizes| && f.blockSizes[i] != 0
    requires from < Share(w, f, i)
    ensures var x := BlockAccess(f, i, from);
      && Uses(w, used, x) && Agreeable(w, used, KeyOf(x))
      && Cut(DirectAnswer(w, x), remaining).Ok? == Block(w, f, i).Ok?
      && (Block(w, f, i).Err? ==> DirectAnswer(w, x) == Err(Block(w, f, i).error))
      && (Block(w, f, i).Ok? ==> IsRun(w, f, i, from, remaining, Cut(DirectAnswer(w, x), remaining).value))
  {
    if Block(w, f, i).Ok? {
      SliceBehind(Block(w, f, i).value, from, 0, Least(remaining, Share(w, f, i) - from));
    }
  }

  // Block i through the cache.
  method ReadStored(w: World, ghost used: Used, cache: Cache<CachedBlock>, ghost f: File, ghost i: nat,
      pos: uint64, encoded: uint32, from: nat, remaining: nat, memory: bool)
    returns (r: Result<bytes>)
    requires Good(w, used, cache) && Known(w, used, f) && WellFormed(w, f)
    requires i < |f.blockSizes| && encoded != 0 && (pos, encoded) == Location(f, i) && from < Share(w, f, i)
    modifies cache, cache.buckets, cache.members
    ensures Good(w, used, cache) && Grown(cache)
    ensures r.Ok? ==> Block(w, f, i).Ok? && IsRun(w, f, i, from, remaining, r.value)
    ensures r.Err? ==> (!memory && r.error == NoMemory) || Block(w, f, i) == Err(r.error)
  {
    var x := DataAt(pos, encoded, from);
    ghost var before := cache.entries;
    BlockRun(w, used, f, i, from, remaining);
    AgreeableAnswers(w, used, before, x);
    ghost var luck;
    r, luck := ReadData(w, cache, x, remaining, memory);
    NextOriginate(w, used, cache.limits, before, x, luck);
  }

  // What a read aims at: the contents, the contents with zeros for the tail, and where the tail begins.
  datatype Target = Target(contents: bytes, noTail: bytes, tailAt: nat)

  ghost function TargetOf(w: World, f: File): Target
    requires w.blockSize > 0
  {
    Target(Contents(w, f), ContentsWithoutTail(w, f), Begin(w.blockSize, |f.blockSizes|))
  }

  // The block that holds `pos` cannot be read, for the given reason.
  ghost predicate FailsAt(w: World, f: File, pos: nat, e: Error) {
    exists i :: 0 <= i < |f.blockSizes| && Holds(w, i, pos) && Block(w, f, i) == Err(e)
  }

  ghost predicate Holds(w: World, i: nat, pos: nat) {
    Begin(w.blockSize, i) <= pos < Begin(w.blockSize, i) + w.blockSize
  }

  lemma RunReads(w: World, f: File, pos: nat, i: nat, from: nat, remaining: nat, b: bytes)
    requires WellFormed(w, f) && i < |f.blockSizes| && pos == Begin(w.blockSize, i) + from && remaining > 0
    requires IsRun(w, f, i, from, remaining, b)
    ensures PartAt(Contents(w, f), pos, b) && 0 < |b| <= remaining && pos + |b| <= Begin(w.blockSize, i) + w.blockSize
    ensures Begin(w.blockSize, i) + w.blockSize <= Begin(w.blockSize, |f.blockSizes|) && Holds(w, i, pos)
  {
    PieceInContents(w, f, i, from, from + |b|);
    BeginIncreases(w.blockSize, i, |f.blockSizes|);
  }

  // A run inside block i meets no other block.
  lemma RunExpands(w: World, f: File, i: nat, a: nat, b: nat)
    requires i < |f.blockSizes| && Block(w, f, i).Ok?
    requires Begin(w.blockSize, i) <= a && b <= Begin(w.blockSize, i) + w.blockSize
    ensures AllExpand(w, f, a, b)
  {
    forall k | 0 <= k < |f.blockSizes| && Meets(w, k, a, b)
      ensures Block(w, f, k).Ok?
    {
      if k < i {
        BeginIncreases(w.blockSize, k, i);
      } else if k > i {
        BeginIncreases(w.blockSize, i, k);
      }
    }
  }

  lemma TailExpands(w: World, f: File, a: nat, b: nat)
    requires Begin(w.blockSize, |f.blockSizes|) <= a
    ensures AllExpand(w, f, a, b)
  {
    forall k | 0 <= k < |f.blockSizes|
      ensures !Meets(w, k, a, b)
    {
      BeginIncreases(w.blockSize, k, |f.blockSizes|);
    }
  }

  lemma TailReads(w: World, f: File, pos: nat, from: nat, b: bytes)
    requires WellFormed(w, f) && Fragmented(f) && pos == Begin(w.blockSize, |f.blockSizes|) + from
    requires from + |b| <= TailSize(w, f)
    ensures b == Tail(w, f)[from..from + |b|] ==> PartAt(Contents(w, f), pos, b)
    ensures b == Zeros(|b|) ==> PartAt(ContentsWithoutTail(w, f), pos, b)
  {
    TailInContents(w, f, from, from + |b|);
    BlocksLength(w, f, |f.blockSizes|);
  }

  // One round of the read loop at file offset `pos`, outside the tail.
  method ReadBlockRound(w: World, ghost used: Used, cache: Cache<CachedBlock>, context: FileContext,
      ghost pos: nat, index: uint32, from: nat, remaining: nat, memory: bool)
    returns (r: Result<bytes>)
    requires Good(w, used, cache) && Known(w, used, context.file) && WellFormed(w, context.file)
    requires context.blockSize == w.blockSize && index < context.blockCount == |context.file.blockSizes|
    requires from < Share(w, context.file, index) && pos == Begin(w.blockSize, index) + from
    requires remaining > 0 && pos + remaining <= context.file.size
    modifies cache, cache.buckets, cache.members
    ensures Good(w, used, cache) && Grown(cache)
    ensures r.Ok? ==> PartAt(Contents(w, context.file), pos, r.value) && 0 < |r.value| <= remaining
    ensures r.Ok? ==> pos + |r.value| <= Begin(w.blockSize, |context.file.blockSizes|)
    ensures r.Ok? ==> AllExpand(w, context.file, pos, pos + |r.value|)
    ensures r.Err? ==> (!memory && r.error == NoMemory) || FailsAt(w, context.file, pos, r.error)
  {
    var location := context.BlockLocation(index);
    var (block, encoded) := location.value;
    if encoded == 0 {
      r := Ok(Zeros(Least(w.blockSize - from, remaining)));
    } else {
      r := ReadStored(w, used, cache, context.file, index, block, encoded, from, remaining, memory);
    }
    if r.Ok? {
      RunReads(w, context.file, pos, index, from, remaining, r.value);
      RunExpands(w, context.file, index, pos, pos + |r.value|);
    } else {
      assert Holds(w, index, pos);
    }
  }

  // The round of the read loop that reads the tail.
  method ReadTailRound(w: World, ghost used: Used, cache: Cache<CachedBlock>, f: File, ghost pos: nat,
      from: nat, remaining: nat, memory: bool)
    returns (r: bytes)
    requires Good(w, used, cache) && Known(w, used, f) && WellFormed(w, f) && Fragmented(f)
    requires pos == Begin(w.blockSize, |f.blockSizes|) + from && from + remaining <= TailSize(w, f) && remaining > 0
    modifies cache, cache.buckets, cache.members
    ensures Good(w, used, cache) && Grown(cache)
    ensures |r| == remaining && AllExpand(w, f, pos, pos + remaining)
    ensures PartAt(Contents(w, f), pos, r) || (!memory && PartAt(ContentsWithoutTail(w, f), pos, r))
  {
    r := ReadTail(w, used, cache, f, from, remaining, memory);
    TailReads(w, f, pos, from, r);
    TailExpands(w, f, pos, pos + remaining);
  }

  // One round of the read loop at file offset `pos`. `last` says that the loop ends with this round.
  method ReadRound(w: World, ghost used: Used, cache: Cache<CachedBlock>, context: FileContext,
      pos: uint64, remaining: nat, memory: bool)
    returns (r: Result<bytes>, last: bool)
    requires Good(w, used, cache) && Known(w, used, context.file) && WellFormed(w, context.file)
    requires context.blockSize == w.blockSize && context.blockCount == |context.file.blockSizes|
    requires remaining > 0 && pos + remaining <= context.file.size
    modifies cache, cache.buckets, cache.members
    ensures Good(w, used, cache) && Grown(cache)
    ensures r.Ok? ==> Round(TargetOf(w, context.file), pos, remaining, memory, r.value, last)
    ensures r.Ok? ==> AllExpand(w, context.file, pos, pos + |r.value|)
    ensures r.Err? ==> (!memory && r.error == NoMemory) || FailsAt(w, context.file, pos, r.error)
  {
    var index, from := FindBlock(w, context.file, pos);
    last := index == context.blockCount && context.file.fragment != NO_FRAGMENT;
    if last {
      var tail := ReadTailRound(w, used, cache, context.file, pos, from, remaining, memory);
      r := Ok(tail);
    } else {
      r := ReadBlockRound(w, used, cache, context, pos, index, from, remaining, memory);
    }
  }

  lemma BothBeforeTail(w: World, f: File)
    requires w.blockSize > 0 && |f.blockSizes| == Count(w, f)
    ensures AgreeBeforeTail(TargetOf(w, f), f.size)
  {
    var blocks := Blocks(w, f, |f.blockSizes|);
    BlocksLength(w, f, |f.blockSizes|);
    ContentsLength(w, f);
    assert Contents(w, f)[..|blocks|] == blocks == ContentsWithoutTail(w, f)[..|blocks|];
  }

  ghost predicate AgreeBeforeTail(g: Target, size: nat) {
    && |g.contents| == |g.noTail| == size
    && (g.tailAt <= size ==> g.contents[..g.tailAt] == g.noTail[..g.tailAt])
    && (g.tailAt > size ==> g.contents == g.noTail)
  }

  // The bytes read so far, after every round.
  ghost predicate Progress(g: Target, offset: nat, b: bytes, size: nat, memory: bool) {
    && |b| <= size
    && (PartAt(g.contents, offset, b) || (!memory && |b| == size && PartAt(g.noTail, offset, b)))
    && (b == [] || |b| == size || offset + |b| <= g.tailAt)
  }

  // What one round of the read loop at `pos` yields when `remaining` bytes are still wanted.
  ghost predicate Round(g: Target, pos: nat, remaining: nat, memory: bool, b: bytes, last: bool) {
    && 0 < |b| <= remaining && (last ==> |b| == remaining)
    && (!last ==> pos + |b| <= g.tailAt)
    && (PartAt(g.contents, pos, b) || (!memory && last && PartAt(g.noTail, pos, b)))
  }

  lemma ProgressOn(g: Target, offset: nat, a: bytes, b: bytes, size: nat, memory: bool, pos: nat,
    last: bool, total: nat)
    requires AgreeBeforeTail(g, total) && pos == offset + |a| && |a| < size
    requires Progress(g, offset, a, size, memory) && Round(g, pos, size - |a|, memory, b, last)
    ensures Progress(g, offset, a + b, size, memory)
  {
    if PartAt(g.contents, pos, b) {
      JoinSlices(g.contents, offset, a, b);
    } else {
      assert a == g.noTail[offset..pos] by {
        if a != [] {
          assert offset + |a| <= g.tailAt;
          assert a == g.contents[..g.tailAt][offset..pos] || g.tailAt > total;
        }
      }
      JoinSlices(g.noTail, offset, a, b);
    }
  }

  method CopyOut(ghost w: World, ghost used: Used, cache: Cache<CachedBlock>, buffer: array<byte>,
      at: nat, data: bytes)
    requires at + |data| <= buffer.Length && Good(w, used, cache)
    modifies buffer
    ensures Good(w, used, cache)
    ensures buffer[at + |data|..] == old(buffer[at + |data|..])
    ensures buffer[..at + |data|] == old(buffer[..at]) + data
  {
    Fill(buffer, at, data);
  }

  // How a read of `wanted` bytes at `offset` fails.
  ghost predicate FailsFor(w: World, f: File, offset: nat, wanted: nat, memory: bool, e: Error) {
    (!memory && e == NoMemory) || FirstFailure(w, f, offset, offset + wanted, 0) == Some(e)
  }

  lemma FailureHere(w: World, f: File, offset: nat, done: nat, wanted: nat, e: Error)
    requires done < wanted && AllExpand(w, f, offset, offset + done) && FailsAt(w, f, offset + done, e)
    ensures FirstFailure(w, f, offset, offset + wanted, 0) == Some(e)
  {
    var i :| 0 <= i < |f.blockSizes| && Holds(w, i, offset + done) && Block(w, f, i) == Err(e);
    FailsFirst(w, f, offset, offset + done, offset + wanted, i);
  }

  // A round of the read loop after `read` has been read.
  method ReadMore(w: World, ghost used: Used, cache: Cache<CachedBlock>, context: FileContext,
      offset: uint64, done: nat, wanted: nat, memory: bool, ghost g: Target, ghost read: bytes)
    returns (r: Result<bytes>, last: bool)
    requires Good(w, used, cache) && Known(w, used, context.file) && WellFormed(w, context.file)
    requires context.blockSize == w.blockSize && context.blockCount == |context.file.blockSizes|
    requires |read| == done < wanted && offset + wanted <= context.file.size && g == TargetOf(w, context.file)
    requires AgreeBeforeTail(g, context.file.size) && Progress(g, offset, read, wanted, memory)
    requires AllExpand(w, context.file, offset, offset + done)
    modifies cache, cache.buckets, cache.members
    ensures Good(w, used, cache) && Grown(cache)
    ensures r.Ok? ==> 0 < |r.value| <= wanted - done && (last ==> |r.value| == wanted - done)
    ensures r.Ok? ==> Progress(g, offset, read + r.value, wanted, memory)
    ensures r.Ok? ==> AllExpand(w, context.file, offset, offset + (done + |r.value|))
    ensures r.Err? ==> FailsFor(w, context.file, offset, wanted, memory, r.error)
  {
    var pos := offset + done;
    r, last := ReadRound(w, used, cache, context, pos, wanted - done, memory);
    if r.Ok? {
      ProgressOn(g, offset, read, r.value, wanted, memory, pos, last, context.file.size);
      ExpandJoins(w, context.file, offset, pos, pos + |r.value|);
    } else if memory || r.error != NoMemory {
      FailureHere(w, context.file, offset, done, wanted, r.error);
    }
  }

  // A round of the read loop, and the copying of what it reads. `read` is what the buffer held before.
  method ReadNext(w: World, ghost used: Used, cache: Cache<CachedBlock>, context: FileContext,
      offset: uint64, buffer: array<byte>, done: nat, wanted: nat, memory: bool, ghost g: Target, ghost read: bytes)
    returns (r: Result<nat>, last: bool, ghost read': bytes)
    requires Good(w, used, cache) && Known(w, used, context.file) && WellFormed(w, context.file)
    requires context.blockSize == w.blockSize && context.blockCount == |context.file.blockSizes|
    requires done < wanted <= buffer.Length && offset + wanted <= context.file.size && g == TargetOf(w, context.file)
    requires AgreeBeforeTail(g, context.file.size)
    requires read == buffer[..done] && Progress(g, offset, read, wanted, memory)
    requires AllExpand(w, context.file, offset, offset + done)
    modifies cache, cache.buckets, cache.members, buffer
    ensures Good(w, used, cache) && Grown(cache)
    ensures r.Ok? ==> done < r.value <= wanted && (last ==> r.value == wanted)
    ensures r.Ok? ==> read' == buffer[..r.value] && Progress(g, offset, read', wanted, memory)
    ensures r.Ok? ==> AllExpand(w, context.file, offset, offset + r.value)
    ensures r.Ok? ==> buffer[r.value..] == old(buffer[r.value..])
    ensures r.Err? ==> FailsFor(w, context.file, offset, wanted, memory, r.error)
  {
    var chunk;
    read' := read;
    chunk, last := ReadMore(w, used, cache, context, offset, done, wanted, memory, g, read);
    if chunk.Ok? {
      var end := done + |chunk.value|;
      ghost var rest := buffer[end..];
      assert buffer[..done] == read && rest == old(buffer[end..]);
      read' := read + chunk.value;
      assert Progress(g, offset, read', wanted, memory);
      CopyOut(w, used, cache, buffer, done, chunk.value);
      assert buffer[end..] == rest;
      r := Ok(end);
    } else {
      r := Err(chunk.error);
    }
  }

  // The main read loop.
  method ReadLoop(w: World, ghost used: Used, cache: Cache<CachedBlock>, context: FileContext,
      offset: uint64, buffer: array<byte>, wanted: nat, memory: bool, ghost g: Target)
    returns (r: Result<nat>)
    requires Good(w, used, cache) && Known(w, used, context.file) && WellFormed(w, context.file)
    requires context.blockSize == w.blockSize && context.blockCount == |context.file.blockSizes|
    requires 0 < wanted <= buffer.Length && offset + wanted <= context.file.size && g == TargetOf(w, context.file)
    requires AgreeBeforeTail(g, context.file.size)
    modifies cache, cache.buckets, cache.members, buffer
    ensures Good(w, used, cache) && Grown(cache)
    ensures r.Ok? ==> r.value == wanted && buffer[wanted..] == old(buffer[wanted..])
    ensures r.Ok? ==> Progress(g, offset, buffer[..wanted], wanted, memory)
    ensures r.Ok? ==> AllExpand(w, context.file, offset, offset + wanted)
    ensures r.Err? ==> FailsFor(w, context.file, offset, wanted, memory, r.error)
  {
    var done := 0;
    ghost var read := [];
    while done < wanted
      invariant 0 <= done <= wanted && read == buffer[..done]
      invariant Good(w, used, cache) && Grown(cache)
      invariant Progress(g, offset, read, wanted, memory) && AllExpand(w, context.file, offset, offset + done)
      invariant buffer[wanted..] == old(buffer[wanted..])
    {
      var next, last;
      next, last, read := ReadNext(w, used, cache, context, offset, buffer, done, wanted, memory, g, read);
      if next.Err? {
        return next;
      }
      assert buffer[wanted..] == buffer[next.value..][wanted - next.value..];
      done := next.value;
      if last {
        break;
      }
    }
    return Ok(done);
  }

  method MakeContext(w: World, f: File) returns (context: FileContext)
    requires WellFormed(w, f)
    ensures fresh(context) && context.file == f && context.blockSize == w.blockSize
    ensures context.blockCount == |f.blockSizes|
  {
    CountIsTrueCount(w, f);
    context := new FileContext(f, w.blockSize);
  }

  // A read that has ended gives the answer that is due, except for want of memory.
  ghost predicate Given(w: World, f: File, offset: nat, size: nat, b: bytes, memory: bool)
    requires WellFormed(w, f)
  {
    ServedAnswer(w, f, offset, size) == Ok(b) || (!memory && PartAt(ContentsWithoutTail(w, f), offset, b))
  }

  lemma AnswerGiven(w: World, f: File, offset: nat, size: nat, b: bytes, memory: bool)
    requires WellFormed(w, f) && |b| == Readable(f, offset, size) > 0
    requires Progress(TargetOf(w, f), offset, b, |b|, memory) && AllExpand(w, f, offset, offset + |b|)
    ensures Given(w, f, offset, size, b, memory)
  {
    NoFailure(w, f, offset, offset + |b|, 0);
  }

  // The error of a read is that of the first block it met that cannot be read, except for want of memory.
  ghost predicate GivenUp(w: World, f: File, offset: nat, size: nat, e: Error, memory: bool)
    requires WellFormed(w, f)
  {
    ServedAnswer(w, f, offset, size) == Err(e) || (!memory && e == NoMemory)
  }

  lemma FailureGiven(w: World, f: File, offset: nat, size: nat, e: Error, memory: bool)
    requires WellFormed(w, f) && Readable(f, offset, size) > 0
    requires FailsFor(w, f, offset, Readable(f, offset, size), memory, e)
    ensures GivenUp(w, f, offset, size, e, memory)
  {
  }

  // The read loop for a range that is not empty.
  method ReadWanted(w: World, ghost used: Used, cache: Cache<CachedBlock>, context: FileContext,
      offset: uint64, buffer: array<byte>, ghost size: nat, wanted: nat, memory: bool)
    returns (r: Result<nat>)
    requires Good(w, used, cache) && Known(w, used, context.file) && WellFormed(w, context.file)
    requires context.blockSize == w.blockSize && context.blockCount == |context.file.blockSizes|
    requires 0 < wanted == Readable(context.file, offset, size) && size <= buffer.Length
    modifies cache, cache.buckets, cache.members, buffer
    ensures Good(w, used, cache) && Grown(cache)
    ensures r.Ok? ==> r.value == wanted && buffer[wanted..] == old(buffer[wanted..])
    ensures r.Ok? ==> Given(w, context.file, offset, size, buffer[..wanted], memory)
    ensures r.Err? ==> GivenUp(w, context.file, offset, size, r.error, memory)
  {
    BothBeforeTail(w, context.file);
    r := ReadLoop(w, used, cache, context, offset, buffer, wanted, memory, TargetOf(w, context.file));
    if r.Ok? {
      AnswerGiven(w, context.file, offset, size, buffer[..wanted], memory);
    } else {
      FailureGiven(w, context.file, offset, size, r.error, memory);
    }
  }

  // sqfs_data_read_internal.
  method DataRead(w: World, ghost used: Used, cache: Cache<CachedBlock>, f: File, offset: uint64,
      buffer: array<byte>, size: nat, memory: bool)
    returns (r: Result<nat>)
    requires Good(w, used, cache) && Known(w, used, f) && WellFormed(w, f)
    requires size <= buffer.Length && offset + size < WORD_64
    modifies cache, cache.buckets, cache.members, buffer
    ensures Good(w, used, cache) && Grown(cache)
    ensures r.Ok? ==> r.value == Readable(f, offset, size) && buffer[r.value..] == old(buffer[r.value..])
    ensures r.Ok? ==> Given(w, f, offset, size, buffer[..r.value], memory)
    ensures r.Err? ==> GivenUp(w, f, offset, size, r.error, memory)
  {
    var context := MakeContext(w, f);
    if offset >= f.size || size == 0 {
      return Ok(0);
    }
    var available: bool := *;
    if !memory && !available {
      return Err(NoMemory);
    }
    r := ReadWanted(w, used, cache, context, offset, buffer, size, Least(size, f.size - offset), memory);
  }

  datatype Request =
    | FileAt(file: File, offset: uint64, size: nat)
    | FragmentAt(index: uint32, from: uint32, size: nat)

  ghost predicate Admissible(w: World, used: Used, q: Request) {
    match q
    case FileAt(f, offset, size) => Known(w, used, f) && WellFormed(w, f) && offset + size < WORD_64
    case FragmentAt(index, _, _) => KnownFragment(w, used, index)
  }

  // What this reader answers from the image alone, without any cache.
  ghost function Uncached(w: World, used: Used, q: Request): Result<bytes>
    requires Admissible(w, used, q)
  {
    match q
    case FileAt(f, offset, size) => ServedAnswer(w, f, offset, size)
    case FragmentAt(index, from, size) => FragmentRead(w, index, from, size)
  }

  method Answer(w: World, ghost used: Used, cache: Cache<CachedBlock>, q: Request)
    returns (r: Result<bytes>)
    requires Good(w, used, cache) && Admissible(w, used, q)
    modifies cache, cache.buckets, cache.members
    ensures Good(w, used, cache) && Grown(cache)
    ensures r == Uncached(w, used, q)
  {
    match q
    case FileAt(f, offset, size) =>
      var buffer := new byte[size](_ => 0);
      var n := DataRead(w, used, cache, f, offset, buffer, size, true);
      r := if n.Ok? then Ok(buffer[..n.value]) else Err(n.error);
    case FragmentAt(index, from, size) =>
      r := ReadFragmentOf(w, used, cache, index, from, size, true);
  }

  ghost predicate AllAdmissible(w: World, used: Used, requests: seq<Request>) {
    forall i :: 0 <= i < |requests| ==> Admissible(w, used, requests[i])
  }

  // Every reply is the one that its request gets from the image alone.
  ghost predicate AllAnswered(w: World, used: Used, requests: seq<Request>, replies: seq<Result<bytes>>)
    requires AllAdmissible(w, used, requests)
  {
    |replies| == |requests| && forall i :: 0 <= i < |replies| ==> replies[i] == Uncached(w, used, requests[i])
  }

  // Whatever was read before and whatever the cache kept of it, every answer is that of the image
  // read without a cache.
  method AnswerAll(w: World, ghost used: Used, cache: Cache<CachedBlock>, requests: seq<Request>)
    returns (replies: seq<Result<bytes>>)
    requires cache.Valid() && cache.entries == []
    requires AllAdmissible(w, used, requests)
    modifies cache, cache.buckets, cache.members
    ensures Good(w, used, cache) && Grown(cache)
    ensures AllAnswered(w, used, requests, replies)
    decreases |requests|
  {
    replies := [];
    if requests != [] {
      var n := |requests| - 1;
      replies := AnswerAll(w, used, cache, requests[..n]);
      var r := Answer(w, used, cache, requests[n]);
      replies := replies + [r];
    }
  }
}
