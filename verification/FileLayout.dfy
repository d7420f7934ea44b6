/** Where the parts of a file are: block counts, positions on disk, and the flat contents they make up. */
module FileLayout {
  import opened Words
  import opened Disk

  const NO_FRAGMENT: uint32 := 0xFFFF_FFFF

  // The file part of an inode.
  datatype File = File(size: uint64, start: uint64, fragment: uint32, fragmentOffset: uint32, blockSizes: seq<uint32>)

  // The number of blocks the file really has.
  function TrueCount(size: uint64, blockSize: uint32, fragmented: bool): nat
    requires blockSize > 0
  {
    size / blockSize + if !fragmented && size % blockSize != 0 then 1 else 0
  }

  // sqfs_calc_block_count, which returns a uint32_t.
  function CalcBlockCount(size: uint64, blockSize: uint32, fragmented: bool): uint32
    requires blockSize > 0
  {
    if size == 0 then 0 else Word32(TrueCount(size, blockSize, fragmented))
  }

  lemma WordNext(n: nat)
    ensures Word32(Word32(n) + 1) == Word32(n + 1)
  {
  }

  // sqfs_file_ctx_t, filled in place by sqfs_file_ctx_init and calculate_block_layout.
  class FileContext {
    const file: File
    const blockSize: uint32
    var blockCount: uint32
    var tailSize: uint32

    constructor (file: File, blockSize: uint32)
      requires blockSize > 0
      ensures this.file == file && this.blockSize == blockSize
      ensures blockCount == CalcBlockCount(file.size, blockSize, file.fragment != NO_FRAGMENT)
      ensures tailSize == file.size % blockSize
    {
      this.file, this.blockSize := file, blockSize;
      blockCount, tailSize := 0, 0;
      new;
      CalculateLayout();
    }

    // The layout computed when a file is read counts the blocks that were counted when its inode was parsed.
    method CalculateLayout()
      requires blockSize > 0
      modifies this`blockCount, this`tailSize
      ensures blockCount == CalcBlockCount(file.size, blockSize, file.fragment != NO_FRAGMENT)
      ensures tailSize == file.size % blockSize
    {
      if file.size == 0 {
        blockCount, tailSize := 0, 0;
        return;
      }
      var full := file.size / blockSize;
      WordNext(full);
      blockCount := Word32(full);
      tailSize := file.size % blockSize;
      if tailSize > 0 && file.fragment == NO_FRAGMENT {
        blockCount := Word32(blockCount + 1);
      }
    }

    // sqfs_file_block_location: position on disk and encoded size; a hole is at position 0 with size 0.
    method BlockLocation(index: uint32) returns (r: Result<(uint64, uint32)>)
      requires |file.blockSizes| == blockCount
      ensures r == if index < blockCount then Ok(Location(file, index))
                   else Err(if index == blockCount && file.fragment != NO_FRAGMENT then NotFound else BadBlock)
    {
      if index >= blockCount {
        if index == blockCount && file.fragment != NO_FRAGMENT {
          return Err(NotFound);
        }
        return Err(BadBlock);
      }
      if file.blockSizes[index] == 0 {
        return Ok((0, 0));
      }
      var pos := file.start;
      var i := 0;
      while i < index
        invariant 0 <= i <= index && pos == PosAt(file, i)
      {
        pos := Add64(pos, StoredSize(file.blockSizes[i]));
        i := i + 1;
      }
      return Ok((pos, file.blockSizes[index]));
    }
  }

  // The number of bytes each block occupies on disk.
  function StoredSizes(encoded: seq<uint32>): (r: seq<uint32>)
    ensures |r| == |encoded| && forall i :: 0 <= i < |r| ==> r[i] == StoredSize(encoded[i])
  {
    seq(|encoded|, i requires 0 <= i < |encoded| => StoredSize(encoded[i]))
  }

  // Where block i starts when blocks of the given stored sizes follow each other from `start` on.
  function StartOf(start: uint64, sizes: seq<uint32>, i: nat): uint64
    requires i <= |sizes|
  {
    if i == 0 then start else Add64(StartOf(start, sizes, i - 1), sizes[i - 1])
  }

  function PosAt(f: File, i: nat): uint64
    requires i <= |f.blockSizes|
  {
    StartOf(f.start, StoredSizes(f.blockSizes), i)
  }

  function Location(f: File, i: nat): (uint64, uint32)
    requires i < |f.blockSizes|
  {
    if f.blockSizes[i] == 0 then (0, 0) else (PosAt(f, i), f.blockSizes[i])
  }

  function Sum(sizes: seq<uint32>, i: nat): nat
    requires i <= |sizes|
  {
    if i == 0 then 0 else Sum(sizes, i - 1) + sizes[i - 1]
  }

  // Some block from i to j-1 stores something; holes do not.
  predicate StoresAny(sizes: seq<uint32>, i: nat, j: nat)
    requires i <= j <= |sizes|
    decreases j
  {
    i < j && (sizes[j - 1] != 0 || StoresAny(sizes, i, j - 1))
  }

  // While the stored blocks end below 2^64, block i starts where the blocks before it end.
  lemma {:induction false} StartIsPrefixSum(start: uint64, sizes: seq<uint32>, i: nat)
    requires i <= |sizes| && start + Sum(sizes, i) < WORD_64
    ensures StartOf(start, sizes, i) == start + Sum(sizes, i)
  {
    if i > 0 {
      StartIsPrefixSum(start, sizes, i - 1);
    }
  }

  lemma {:induction false} GapStores(sizes: seq<uint32>, i: nat, j: nat)
    requires i <= j <= |sizes|
    ensures Sum(sizes, i) <= Sum(sizes, j) && (Sum(sizes, i) < Sum(sizes, j) <==> StoresAny(sizes, i, j))
    decreases j
  {
    if i < j {
      GapStores(sizes, i, j - 1);
    }
  }

  lemma EndsAt(start: uint64, sizes: seq<uint32>, i: nat)
    requires i < |sizes| && start + Sum(sizes, |sizes|) < WORD_64
    ensures StartOf(start, sizes, i) == start + Sum(sizes, i)
    ensures StartOf(start, sizes, i) + sizes[i] == start + Sum(sizes, i + 1)
  {
    GapStores(sizes, i, |sizes|);
    StartIsPrefixSum(start, sizes, i);
  }

  // Blocks are laid out in order and without overlap; block j follows block i at once exactly when
  // no block in between stores anything.
  lemma BlocksInOrder(start: uint64, sizes: seq<uint32>, i: nat, j: nat, end: nat, next: nat)
    requires i < j < |sizes| && start + Sum(sizes, |sizes|) < WORD_64
    requires end == StartOf(start, sizes, i) + sizes[i] && next == StartOf(start, sizes, j)
    ensures end <= next && (end < next <==> StoresAny(sizes, i + 1, j))
  {
    EndsAt(start, sizes, i);
    EndsAt(start, sizes, j);
    NextStarts(start, sizes, i + 1, j, end, next);
  }

  lemma NextStarts(start: uint64, sizes: seq<uint32>, k: nat, j: nat, end: nat, next: nat)
    requires k <= j <= |sizes| && end == start + Sum(sizes, k) && next == start + Sum(sizes, j)
    ensures end <= next && (end < next <==> StoresAny(sizes, k, j))
  {
    GapStores(sizes, k, j);
  }

  // The index the read loop computes for an offset: a uint32_t.
  function IndexOf(offset: uint64, blockSize: uint32): uint32
    requires blockSize > 0
  {
    Word32(offset / blockSize)
  }

  // The offset is served from the block it lies in, or from the fragment when it lies in the tail.
  predicate Served(size: uint64, blockSize: uint32, fragmented: bool, offset: uint64)
    requires blockSize > 0
  {
    var index := IndexOf(offset, blockSize);
    var count := CalcBlockCount(size, blockSize, fragmented);
    if offset / blockSize < TrueCount(size, blockSize, fragmented)
    then index == offset / blockSize && index < count
    else index == count && fragmented
  }

  // Every offset of a file is served correctly exactly when its number of blocks fits 32 bits.
  lemma EveryOffsetServed(size: uint64, blockSize: uint32, fragmented: bool)
    requires blockSize > 0
    ensures (forall o: uint64 :: o < size ==> Served(size, blockSize, fragmented, o))
      <==> TrueCount(size, blockSize, fragmented) < WORD_32
  {
    var n := TrueCount(size, blockSize, fragmented);
    if n < WORD_32 {
      forall o: uint64 | o < size
        ensures Served(size, blockSize, fragmented, o)
      {
        ServedWhenCountFits(size, blockSize, fragmented, o);
      }
    } else {
      LastIndexUnserved(size, blockSize, fragmented);
    }
  }

  lemma ServedWhenCountFits(size: uint64, blockSize: uint32, fragmented: bool, o: uint64)
    requires blockSize > 0 && o < size && TrueCount(size, blockSize, fragmented) < WORD_32
    ensures Served(size, blockSize, fragmented, o)
  {
    QuotientBound(o, size, blockSize);
    var n := TrueCount(size, blockSize, fragmented);
    SmallWord(n);
    assert o / blockSize <= n;
    SmallWord(o / blockSize);
  }

  lemma SmallWord(n: nat)
    requires n < WORD_32
    ensures Word32(n) == n
  {
  }

  lemma QuotientBound(o: nat, size: nat, blockSize: nat)
    requires o < size && blockSize > 0
    ensures 0 <= o / blockSize <= size / blockSize
    ensures o / blockSize == size / blockSize ==> size % blockSize != 0
  {
    var q, t := o / blockSize, size / blockSize;
    assert o == q * blockSize + o % blockSize && size == t * blockSize + size % blockSize;
    if q > t {
      Gap(t, q, blockSize);
    }
  }

  lemma Gap(a: nat, b: nat, m: nat)
    requires a < b
    ensures a * m + m <= b * m
  {
    assert b * m == a * m + (b - a) * m;
    assert (b - a) * m == m + (b - a - 1) * m;
  }

  lemma LastIndexUnserved(size: uint64, blockSize: uint32, fragmented: bool)
    requires blockSize > 0 && TrueCount(size, blockSize, fragmented) >= WORD_32
    ensures 0xFFFF_FFFF * blockSize < size
    ensures !Served(size, blockSize, fragmented, 0xFFFF_FFFF * blockSize)
  {
    var o := 0xFFFF_FFFF * blockSize;
    var t := size / blockSize;
    assert size == t * blockSize + size % blockSize;
    if t > 0xFFFF_FFFF {
      Gap(0xFFFF_FFFF, t, blockSize);
    }
    assert o / blockSize == 0xFFFF_FFFF;
  }
}
