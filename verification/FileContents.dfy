/** The flat contents of a file: its blocks expanded one after the other, then its fragment tail. */
module FileContents {
  import opened Words
  import opened Bytes
  import opened Disk
  import opened FileLayout
  import opened Division

  datatype FragmentEntry = FragmentEntry(start: uint64, size: uint32)
  datatype FragmentTable = FragmentTable(loaded: bool, entries: seq<FragmentEntry>)

  // A mounted image.
  datatype World = World(disk: Disk, blockSize: uint32, table: FragmentTable)

  // sqfs_fragment_location and sqfs_fragment_read_block.
  function FragmentBlock(w: World, index: uint32): Result<bytes> {
    if index == NO_FRAGMENT then Err(NotFound)
    else if !w.table.loaded then Err(Corrupt)
    else if index >= |w.table.entries| then Err(NotFound)
    else
      var e := w.table.entries[index];
      if e.start == 0 && e.size == 0 then Err(Corrupt)
      else match ReadAt(w.disk, e.start, StoredSize(e.size))
        case None => Err(Corrupt)
        case Some(stored) =>
          if StoredRaw(e.size) then Ok(stored)
          else match Inflate(w.disk, stored, w.blockSize)
            case None => Err(Corrupt)
            case Some(out) => Ok(out)
  }

  // The part of an expanded fragment block that a read of `size` bytes at `offset` returns.
  function FragmentPart(block: bytes, blockSize: uint32, offset: uint32, size: nat): bytes
    requires offset < blockSize
  {
    if offset > |block| then Zeros(if size < blockSize - offset then size else blockSize - offset)
    else block[offset..offset + if size < |block| - offset then size else |block| - offset]
  }

  // sqfs_fragment_read without the cache.
  function FragmentRead(w: World, index: uint32, offset: uint32, size: nat): Result<bytes> {
    if index == NO_FRAGMENT then Err(NotFound)
    else if offset >= w.blockSize then Err(Corrupt)
    else match FragmentBlock(w, index)
      case Err(e) => Err(e)
      case Ok(block) => Ok(FragmentPart(block, w.blockSize, offset, size))
  }

  ghost predicate Fragmented(f: File) {
    f.fragment != NO_FRAGMENT
  }

  // The number of blocks of the file, TrueCount written with repeated subtraction.
  ghost function Count(w: World, f: File): nat
    requires w.blockSize > 0
  {
    Quotient(f.size, w.blockSize) + if !Fragmented(f) && Remainder(f.size, w.blockSize) != 0 then 1 else 0
  }

  lemma CountIsTrueCount(w: World, f: File)
    requires w.blockSize > 0
    ensures Count(w, f) == TrueCount(f.size, w.blockSize, Fragmented(f))
  {
    IsDivision(f.size, w.blockSize);
  }

  function Block(w: World, f: File, i: nat): Result<bytes>
    requires i < |f.blockSizes|
  {
    DataBlock(w.disk, PosAt(f, i), f.blockSizes[i], w.blockSize)
  }

  // How many bytes of the file block i holds.
  ghost function Share(w: World, f: File, i: nat): nat {
    var p := Begin(w.blockSize, i);
    if p + w.blockSize <= f.size then w.blockSize else if p <= f.size then f.size - p else 0
  }

  ghost function TailSize(w: World, f: File): nat
    requires w.blockSize > 0
  {
    Remainder(f.size, w.blockSize)
  }

  // What the format and this reader ask of a file's inode: the block array has one element per block,
  // a stored block that expands does so to its share of the file, and the tail lies inside the
  // fragment block if that expands.
  ghost predicate WellFormed(w: World, f: File) {
    && w.blockSize > 0
    && |f.blockSizes| == Count(w, f) < WORD_32
    && (forall i :: 0 <= i < |f.blockSizes| && f.blockSizes[i] != 0 && Block(w, f, i).Ok? ==>
          |Block(w, f, i).value| == Share(w, f, i))
    && (Fragmented(f) && FragmentBlock(w, f.fragment).Ok? ==>
          f.fragmentOffset + TailSize(w, f) <= |FragmentBlock(w, f.fragment).value| <= w.blockSize)
  }

  // The bytes block i contributes: a hole contributes zeros. (So does a block that does not expand;
  // reading such a block fails.)
  ghost function Piece(w: World, f: File, i: nat): (b: bytes)
    requires i < |f.blockSizes|
    ensures |b| == Share(w, f, i)
  {
    if f.blockSizes[i] != 0 && Block(w, f, i).Ok? && |Block(w, f, i).value| == Share(w, f, i)
    then Block(w, f, i).value
    else Zeros(Share(w, f, i))
  }

  // The tail end, or why it cannot be read.
  ghost function TailBytes(w: World, f: File): (r: Result<bytes>)
    requires w.blockSize > 0
    ensures r.Ok? ==> |r.value| == TailSize(w, f)
  {
    var size := TailSize(w, f);
    match FragmentBlock(w, f.fragment)
    case Ok(block) =>
      if f.fragmentOffset + size <= |block| then Ok(block[f.fragmentOffset..f.fragmentOffset + size]) else Err(Corrupt)
    case Err(e) => Err(e)
  }

  // What read_from_fragment makes of it: zeros when the fragment block cannot be read.
  ghost function Tail(w: World, f: File): (b: bytes)
    requires w.blockSize > 0
    ensures |b| == TailSize(w, f)
  {
    if TailBytes(w, f).Ok? then TailBytes(w, f).value else Zeros(TailSize(w, f))
  }

  ghost function Blocks(w: World, f: File, k: nat): bytes
    requires k <= |f.blockSizes|
  {
    if k == 0 then [] else Blocks(w, f, k - 1) + Piece(w, f, k - 1)
  }

  ghost function Contents(w: World, f: File): bytes
    requires w.blockSize > 0
  {
    Blocks(w, f, |f.blockSizes|) + if Fragmented(f) then Tail(w, f) else []
  }

  // Every block but the last of a file without a fragment is full.
  lemma FullBlocks(w: World, f: File, i: nat)
    requires w.blockSize > 0 && i < Count(w, f)
    ensures Begin(w.blockSize, i + 1) == Begin(w.blockSize, i) + w.blockSize
    ensures i + 1 < Count(w, f) || Fragmented(f) ==> Share(w, f, i) == w.blockSize
    ensures i + 1 == Count(w, f) && !Fragmented(f) ==> Begin(w.blockSize, i) + Share(w, f, i) == f.size
  {
    var q := Quotient(f.size, w.blockSize);
    Recompose(f.size, w.blockSize);
    if i < q {
      BeginIncreases(w.blockSize, i, q);
    }
  }

  lemma NoBlocks(w: World, f: File)
    requires w.blockSize > 0 && Count(w, f) == 0 && !Fragmented(f)
    ensures f.size == 0
  {
    Recompose(f.size, w.blockSize);
  }

  // The length up to block k when every block before it is full.
  lemma {:induction false} FullLength(w: World, f: File, k: nat)
    requires k <= |f.blockSizes| && forall i :: 0 <= i < k ==> Share(w, f, i) == w.blockSize
    ensures |Blocks(w, f, k)| == Begin(w.blockSize, k)
  {
    if k > 0 {
      FullLength(w, f, k - 1);
    }
  }

  lemma BlocksLength(w: World, f: File, k: nat)
    requires w.blockSize > 0 && k <= |f.blockSizes| == Count(w, f)
    ensures k < Count(w, f) || Fragmented(f) ==> |Blocks(w, f, k)| == Begin(w.blockSize, k)
    ensures k == Count(w, f) && !Fragmented(f) ==> |Blocks(w, f, k)| == f.size
  {
    var full := if k == Count(w, f) && !Fragmented(f) && k > 0 then k - 1 else k;
    forall i | 0 <= i < full
      ensures Share(w, f, i) == w.blockSize
    {
      FullBlocks(w, f, i);
    }
    FullLength(w, f, full);
    if full < k {
      FullBlocks(w, f, full);
    } else if k == Count(w, f) && !Fragmented(f) {
      NoBlocks(w, f);
    }
  }

  lemma ContentsLength(w: World, f: File)
    requires w.blockSize > 0 && |f.blockSizes| == Count(w, f)
    ensures |Contents(w, f)| == f.size
  {
    BlocksLength(w, f, |f.blockSizes|);
    Recompose(f.size, w.blockSize);
  }

  lemma SliceOfFirst<T>(a: seq<T>, b: seq<T>, from: nat, to: nat)
    requires from <= to <= |a|
    ensures (a + b)[from..to] == a[from..to]
  {
  }

  lemma SliceOfSlice<T>(a: seq<T>, p: nat, n: nat, from: nat, to: nat)
    requires from <= to <= n && p + n <= |a|
    ensures a[p..p + n][from..to] == a[p + from..p + to]
  {
    var part := a[p..p + n];
    var x, y := part[from..to], a[p + from..p + to];
    forall j | 0 <= j < |x|
      ensures x[j] == y[j]
    {
      assert part[from + j] == a[p + (from + j)];
    }
  }

  // b has block i where it belongs.
  ghost predicate HasPiece(w: World, f: File, i: nat, b: bytes)
    requires i < |f.blockSizes|
  {
    var p, n := Begin(w.blockSize, i), Share(w, f, i);
    p + n <= |b| && b[p..p + n] == Piece(w, f, i)
  }

  lemma StillHasPiece(w: World, f: File, i: nat, b: bytes, more: bytes)
    requires i < |f.blockSizes| && HasPiece(w, f, i, b)
    ensures HasPiece(w, f, i, b + more)
  {
    SliceOfFirst(b, more, Begin(w.blockSize, i), Begin(w.blockSize, i) + Share(w, f, i));
  }

  lemma NewPiece(w: World, f: File, i: nat, b: bytes)
    requires i < |f.blockSizes| && |b| == Begin(w.blockSize, i)
    ensures HasPiece(w, f, i, b + Piece(w, f, i))
  {
    SliceOfSecond(b, Piece(w, f, i), 0, Share(w, f, i));
  }

  // Block i occupies its share of the contents from the offset on where it begins.
  lemma {:induction false} PieceInBlocks(w: World, f: File, i: nat, k: nat)
    requires w.blockSize > 0 && i < k <= |f.blockSizes| == Count(w, f)
    ensures HasPiece(w, f, i, Blocks(w, f, k))
    decreases k
  {
    if i < k - 1 {
      PieceInBlocks(w, f, i, k - 1);
      StillHasPiece(w, f, i, Blocks(w, f, k - 1), Piece(w, f, k - 1));
    } else {
      BlocksLength(w, f, i);
      NewPiece(w, f, i, Blocks(w, f, i));
    }
  }

  // A run of bytes inside block i.
  lemma {:induction false} PieceInContents(w: World, f: File, i: nat, from: nat, to: nat)
    requires w.blockSize > 0 && i < |f.blockSizes| == Count(w, f)
    requires from <= to <= Share(w, f, i)
    ensures Begin(w.blockSize, i) + to <= |Contents(w, f)|
    ensures Contents(w, f)[Begin(w.blockSize, i) + from..Begin(w.blockSize, i) + to] == Piece(w, f, i)[from..to]
  {
    var b, rest := Blocks(w, f, |f.blockSizes|), if Fragmented(f) then Tail(w, f) else [];
    assert Contents(w, f) == b + rest;
    PieceInBlocks(w, f, i, |f.blockSizes|);
    StillHasPiece(w, f, i, b, rest);
    RunOfPiece(w, f, i, Contents(w, f), from, to);
  }

  lemma RunOfPiece(w: World, f: File, i: nat, c: bytes, from: nat, to: nat)
    requires i < |f.blockSizes| && HasPiece(w, f, i, c) && from <= to <= Share(w, f, i)
    ensures Begin(w.blockSize, i) + to <= |c|
    ensures c[Begin(w.blockSize, i) + from..Begin(w.blockSize, i) + to] == Piece(w, f, i)[from..to]
  {
    SliceOfSlice(c, Begin(w.blockSize, i), Share(w, f, i), from, to);
  }

  // A run of bytes inside the tail.
  lemma TailInContents(w: World, f: File, from: nat, to: nat)
    requires w.blockSize > 0 && Fragmented(f) && |f.blockSizes| == Count(w, f)
    requires from <= to <= TailSize(w, f)
    ensures Begin(w.blockSize, |f.blockSizes|) + to <= |Contents(w, f)|
    ensures var p := Begin(w.blockSize, |f.blockSizes|);
      Contents(w, f)[p + from..p + to] == Tail(w, f)[from..to]
  {
    var b := Blocks(w, f, |f.blockSizes|);
    BlocksLength(w, f, |f.blockSizes|);
    assert Contents(w, f) == b + Tail(w, f) && |b| == Begin(w.blockSize, |f.blockSizes|);
    SliceOfSecond(b, Tail(w, f), from, to);
  }

  lemma SliceOfSecond<T>(a: seq<T>, b: seq<T>, from: nat, to: nat)
    requires from <= to <= |b|
    ensures (a + b)[|a| + from..|a| + to] == b[from..to]
  {
  }
}
