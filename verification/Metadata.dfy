/** Metadata blocks, the byte streams they hold, and the two functions that read them. */
module Metadata {
  import opened Words
  import opened Bytes
  import opened Buffers
  import opened Disk

  const META_BLOCK: nat := 8192

  // The program has two readers: Strict is sqfs_meta_read_block, Lenient is read_meta_block.
  datatype Reader = Strict | Lenient

  datatype MetaBlock = MetaBlock(data: bytes, next: nat)

  function HeaderAt(d: Disk, pos: nat): (h: Option<uint16>)
    ensures h.Some? <==> pos + 2 <= |d.image|
  {
    match ReadAt(d, pos, 2)
    case None => None
    case Some(b) => Some(Le16(b, 0))
  }

  function HeaderSize(h: uint16): nat { h % 0x8000 }
  predicate HeaderRaw(h: uint16) { h >= 0x8000 }
  predicate LegalSize(h: uint16) { 1 <= HeaderSize(h) <= META_BLOCK }

  // The errors of a read that runs over the end of the image.
  function EndError(how: Reader): Error { if how.Strict? then Io else Corrupt }

  // What the block whose payload starts at `pos` expands to.
  function Payload(d: Disk, pos: nat, h: uint16, how: Reader): Result<bytes> {
    match ReadAt(d, pos, HeaderSize(h))
    case None => Err(EndError(how))
    case Some(stored) =>
      if HeaderRaw(h) then Ok(stored)
      else match Inflate(d, stored, META_BLOCK)
        case None => Err(Corrupt)
        case Some(out) => Ok(out)
  }

  function BlockAt(d: Disk, pos: nat, how: Reader): (r: Result<MetaBlock>)
    ensures r.Ok? ==> pos + 2 <= r.value.next <= |d.image|
  {
    match HeaderAt(d, pos)
    case None => Err(EndError(how))
    case Some(h) =>
      if how.Strict? && !LegalSize(h) then Err(Corrupt)
      else match Payload(d, pos + 2, h, how)
        case Err(e) => Err(e)
        case Ok(data) => Ok(MetaBlock(data, pos + 2 + HeaderSize(h)))
  }

  // The blocks from a position on, joined, up to the first that cannot be read; `end` says why.
  datatype Stream = Stream(data: bytes, end: Error)

  function StreamFrom(d: Disk, pos: nat, how: Reader): Stream
    decreases |d.image| - pos
  {
    match BlockAt(d, pos, how)
    case Err(e) => Stream([], e)
    case Ok(b) => var rest := StreamFrom(d, b.next, how); Stream(b.data + rest.data, rest.end)
  }

  function Slice(s: Stream, offset: nat, size: nat): Result<bytes> {
    if offset + size <= |s.data| then Ok(s.data[offset..offset + size]) else Err(s.end)
  }

  function Prepend(b: bytes, r: Result<bytes>): Result<bytes> {
    match r
    case Ok(rest) => Ok(b + rest)
    case Err(e) => Err(e)
  }

  // What sqfs_meta_read delivers.
  function MetaSlice(d: Disk, pos: nat, offset: nat, size: nat): Result<bytes> {
    if size == 0 then Ok([]) else Slice(StreamFrom(d, pos, Strict), offset, size)
  }

  // What read_directory_data delivers.
  function DirectorySlice(d: Disk, pos: nat, offset: nat, size: nat): Result<bytes> {
    match BlockAt(d, pos, Lenient)
    case Err(e) => Err(e)
    case Ok(b) =>
      if offset >= |b.data| then Err(BadDir) else Slice(StreamFrom(d, pos, Lenient), offset, size)
  }

  lemma JoinedSlice(a: bytes, b: bytes, offset: nat, size: nat)
    requires offset <= |a| && offset + size <= |a| + |b|
    ensures (a + b)[offset..offset + size] ==
      if offset + size <= |a| then a[offset..offset + size] else a[offset..] + b[0..offset + size - |a|]
  {
  }

  lemma SliceStep(d: Disk, pos: nat, how: Reader, b: MetaBlock, offset: nat, size: nat)
    requires BlockAt(d, pos, how) == Ok(b) && offset <= |b.data|
    ensures Slice(StreamFrom(d, pos, how), offset, size) ==
      if offset + size <= |b.data| then Ok(b.data[offset..offset + size])
      else Prepend(b.data[offset..], Slice(StreamFrom(d, b.next, how), 0, offset + size - |b.data|))
  {
    var rest := StreamFrom(d, b.next, how);
    assert StreamFrom(d, pos, how) == Stream(b.data + rest.data, rest.end);
    if offset + size <= |b.data| + |rest.data| {
      JoinedSlice(b.data, rest.data, offset, size);
    }
  }

  // `wanted` is `got` and then what `left` more bytes from `offset` of the stream at `pos` are.
  ghost predicate OnTheWay(d: Disk, how: Reader, wanted: Result<bytes>, got: bytes, pos: nat, offset: nat, left: nat) {
    && wanted == Prepend(got, Slice(StreamFrom(d, pos, how), offset, left))
    && (left > 0 && BlockAt(d, pos, how).Ok? ==> offset <= |BlockAt(d, pos, how).value.data|)
  }

  // What a reader has got, and what it still has to read.
  ghost predicate Reads(d: Disk, how: Reader, wanted: Result<bytes>, got: bytes, pos: nat, offset: nat, left: nat) {
    if left == 0 then wanted == Ok(got) else OnTheWay(d, how, wanted, got, pos, offset, left)
  }

  // Copying what one block holds of it brings a read further.
  lemma CopyStep(d: Disk, how: Reader, wanted: Result<bytes>, got: bytes, pos: nat, offset: nat, left: nat,
      b: MetaBlock, part: bytes)
    requires left > 0 && OnTheWay(d, how, wanted, got, pos, offset, left) && BlockAt(d, pos, how) == Ok(b)
    requires offset <= |b.data| ==> part == b.data[offset..offset + Least(left, |b.data| - offset)]
    ensures offset <= |b.data|
    ensures Reads(d, how, wanted, got + part, b.next, 0, left - |part|)
  {
    SliceStep(d, pos, how, b, offset, left);
    if |part| < left {
      assert part == b.data[offset..];
      PrependTwice(got, part, Slice(StreamFrom(d, b.next, how), 0, left - |part|));
    }
  }

  lemma PrependTwice(a: bytes, b: bytes, r: Result<bytes>)
    ensures Prepend(a, Prepend(b, r)) == Prepend(a + b, r)
    ensures Prepend([], r) == r
  {
    if r.Ok? {
      assert a + (b + r.value) == a + b + r.value;
      assert [] + r.value == r.value;
    }
  }

  // sqfs_meta_read_block.
  method ReadStrict(d: Disk, pos: nat, memory: bool) returns (r: Result<bytes>)
    ensures match BlockAt(d, pos, Strict)
            case Ok(b) => r == Ok(b.data) || (!memory && r == Err(NoMemory))
            case Err(e) => r == Err(e) || (!memory && r == Err(NoMemory))
  {
    var header := HeaderAt(d, pos);
    if header.None? {
      return Err(Io);
    }
    var size := HeaderSize(header.value);
    if size == 0 || size > META_BLOCK {
      return Err(Corrupt);
    }
    if HeaderRaw(header.value) {
      var stored := ReadAt(d, pos + 2, size);
      return if stored.Some? then Ok(stored.value) else Err(Io);
    }
    if size == META_BLOCK {
      var available: bool := *;
      if !memory && !available {
        return Err(NoMemory);
      }
    }
    var stored := ReadAt(d, pos + 2, size);
    if stored.None? {
      return Err(Io);
    }
    var out := Inflate(d, stored.value, META_BLOCK);
    return if out.Some? then Ok(out.value) else Err(Corrupt);
  }

  // read_meta_block, with decompress_meta_block in it.
  method ReadLenient(d: Disk, pos: nat, memory: bool) returns (r: Result<MetaBlock>)
    ensures r == BlockAt(d, pos, Lenient) || (!memory && r == Err(NoMemory))
  {
    var header := HeaderAt(d, pos);
    if header.None? {
      return Err(Corrupt);
    }
    var size := HeaderSize(header.value);
    var data;
    if HeaderRaw(header.value) {
      var stored := ReadAt(d, pos + 2, size);
      if stored.None? {
        return Err(Corrupt);
      }
      data := stored.value;
    } else {
      var available: bool := *;
      if !memory && !available {
        return Err(NoMemory);
      }
      var stored := ReadAt(d, pos + 2, size);
      if stored.None? {
        return Err(Corrupt);
      }
      var out := Inflate(d, stored.value, META_BLOCK);
      if out.None? {
        return Err(Corrupt);
      }
      data := out.value;
    }
    return Ok(MetaBlock(data, pos + 2 + size));
  }

  // How a read of `size` bytes into a buffer ends when it should deliver `wanted`.
  predicate Delivers(before: bytes, after: bytes, size: nat, r: Result<()>, wanted: Result<bytes>, memory: bool)
    requires size <= |before| == |after|
  {
    || (!memory && r == Err(NoMemory))
    || if wanted.Ok? then r == Ok(()) && after == wanted.value + before[size..] else r == Err(wanted.error)
  }

  // Reads a block and copies what is wanted of it behind what the buffer has got.
  method CopyBlock(d: Disk, pos: nat, offset: nat, buffer: array<byte>, done: nat, size: nat, memory: bool,
      ghost wanted: Result<bytes>, ghost got: bytes)
    returns (r: Result<nat>, ghost got': bytes)
    requires done < size <= buffer.Length && buffer[..done] == got
    requires Reads(d, Strict, wanted, got, pos, offset, size - done)
    modifies buffer
    ensures r.Ok? ==> BlockAt(d, pos, Strict).Ok? && done <= r.value <= size && buffer[..r.value] == got'
    ensures r.Ok? ==> Reads(d, Strict, wanted, got', BlockAt(d, pos, Strict).value.next, 0, size - r.value)
    ensures r.Ok? ==> buffer[size..] == old(buffer[size..])
    ensures r.Err? ==> wanted == Err(r.error) || (!memory && r.error == NoMemory)
  {
    got' := got;
    var block := ReadStrict(d, pos, memory);
    if block.Err? {
      return Err(block.error), got';
    }
    var part := block.value[offset..offset + Least(size - done, |block.value| - offset)];
    CopyStep(d, Strict, wanted, got, pos, offset, size - done, BlockAt(d, pos, Strict).value, part);
    ghost var rest := buffer[size..];
    Fill(buffer, done, part);
    assert buffer[size..] == rest;
    got' := got + part;
    return Ok(done + |part|), got';
  }

  // sqfs_meta_read. The block and offset are the two parts of a metadata reference.
  method MetaRead(d: Disk, start: nat, startOffset: uint16, buffer: array<byte>, size: nat, memory: bool)
    returns (r: Result<()>)
    requires size <= buffer.Length
    requires BlockAt(d, start, Strict).Ok? ==> startOffset <= |BlockAt(d, start, Strict).value.data|
    modifies buffer
    ensures Delivers(old(buffer[..]), buffer[..], size, r, MetaSlice(d, start, startOffset, size), memory)
  {
    if size == 0 {
      return Ok(());
    }
    var available: bool := *;
    if !memory && !available {
      return Err(NoMemory);
    }
    ghost var wanted := MetaSlice(d, start, startOffset, size);
    PrependTwice([], [], wanted);
    var pos, offset: nat, done: nat := start, startOffset, 0;
    ghost var got := [];
    while done < size
      invariant done <= size && buffer[size..] == old(buffer[size..]) && buffer[..done] == got
      invariant Reads(d, Strict, wanted, got, pos, offset, size - done)
      decreases |d.image| - pos, size - done
    {
      var next;
      next, got := CopyBlock(d, pos, offset, buffer, done, size, memory, wanted, got);
      if next.Err? {
        return Err(next.error);
      }
      done := next.value;
      if done < size {
        var header := HeaderAt(d, pos);
        if header.None? {
          return Err(Io);
        }
        pos := pos + 2 + HeaderSize(header.value);
        offset := 0;
      }
    }
    return Ok(());
  }

  // read_directory_data.
  method ReadDirectoryData(d: Disk, start: nat, startOffset: uint16, size: nat, buffer: array<byte>, memory: bool)
    returns (r: Result<()>)
    requires size <= buffer.Length
    modifies buffer
    ensures Delivers(old(buffer[..]), buffer[..], size, r, DirectorySlice(d, start, startOffset, size), memory)
  {
    var first := ReadLenient(d, start, memory);
    if first.Err? {
      return Err(first.error);
    }
    var data := first.value.data;
    if startOffset >= |data| {
      return Err(BadDir);
    }
    ghost var wanted := DirectorySlice(d, start, startOffset, size);
    SliceStep(d, start, Lenient, first.value, startOffset, size);
    if startOffset + size <= |data| {
      Fill(buffer, 0, data[startOffset..startOffset + size]);
      return Ok(());
    }
    Fill(buffer, 0, data[startOffset..]);
    r := ReadRest(d, first.value.next, |data| - startOffset, size, buffer, memory, wanted);
  }

  // The loop of read_directory_data over the blocks after the first.
  method ReadRest(d: Disk, start: nat, already: nat, size: nat, buffer: array<byte>, memory: bool,
      ghost wanted: Result<bytes>)
    returns (r: Result<()>)
    requires already < size <= buffer.Length
    requires OnTheWay(d, Lenient, wanted, buffer[..already], start, 0, size - already)
    modifies buffer
    ensures Delivers(old(buffer[..]), buffer[..], size, r, wanted, memory)
  {
    var copied: nat, pos := already, start;
    ghost var got := buffer[..already];
    while copied < size
      invariant copied <= size && buffer[size..] == old(buffer[size..]) && buffer[..copied] == got
      invariant Reads(d, Lenient, wanted, got, pos, 0, size - copied)
      decreases |d.image| - pos
    {
      var block := ReadLenient(d, pos, memory);
      if block.Err? {
        return Err(block.error);
      }
      var part := block.value.data[..Least(size - copied, |block.value.data|)];
      CopyStep(d, Lenient, wanted, got, pos, 0, size - copied, block.value, part);
      Fill(buffer, copied, part);
      got := got + part;
      copied := copied + |part|;
      pos := block.value.next;
    }
    return Ok(());
  }

  // Every block that holds some of the first n bytes from `pos` has a stored size in 1..8192.
  predicate Legal(d: Disk, pos: nat, n: nat)
    decreases |d.image| - pos
  {
    match BlockAt(d, pos, Lenient)
    case Err(_) => true
    case Ok(b) => n > 0 ==> LegalSize(HeaderAt(d, pos).value) && (n > |b.data| ==> Legal(d, b.next, n - |b.data|))
  }

  lemma {:induction false} StreamsAgree(d: Disk, pos: nat, n: nat)
    requires n > 0
    ensures n <= |StreamFrom(d, pos, Strict).data| <==> n <= |StreamFrom(d, pos, Lenient).data| && Legal(d, pos, n)
    ensures n <= |StreamFrom(d, pos, Strict).data| ==>
      StreamFrom(d, pos, Strict).data[..n] == StreamFrom(d, pos, Lenient).data[..n]
    decreases |d.image| - pos
  {
    var strict, lenient := BlockAt(d, pos, Strict), BlockAt(d, pos, Lenient);
    if strict.Ok? {
      var b := strict.value;
      assert lenient == strict;
      if n > |b.data| {
        StreamsAgree(d, b.next, n - |b.data|);
        var s, t := StreamFrom(d, b.next, Strict).data, StreamFrom(d, b.next, Lenient).data;
        if n <= |b.data + s| {
          assert (b.data + s)[..n] == b.data + s[..n - |b.data|];
          assert (b.data + t)[..n] == b.data + t[..n - |b.data|];
        }
      } else {
        assert StreamFrom(d, pos, Strict).data[..n] == b.data[..n];
      }
    }
  }

  // Where the directory reader succeeds, the two readers agree exactly when the sizes of the blocks
  // it visits are legal; where the other succeeds, they disagree only on an offset outside the first block.
  lemma ReadersAgree(d: Disk, pos: nat, offset: nat, size: nat)
    requires size > 0
    ensures DirectorySlice(d, pos, offset, size).Ok? ==>
      (MetaSlice(d, pos, offset, size) == DirectorySlice(d, pos, offset, size) <==> Legal(d, pos, offset + size))
    ensures MetaSlice(d, pos, offset, size).Ok? ==>
      DirectorySlice(d, pos, offset, size) ==
        if offset < |BlockAt(d, pos, Strict).value.data| then MetaSlice(d, pos, offset, size) else Err(BadDir)
  {
    var n := offset + size;
    StreamsAgree(d, pos, n);
    var s, t := StreamFrom(d, pos, Strict).data, StreamFrom(d, pos, Lenient).data;
    if n <= |s| {
      assert s[offset..n] == s[..n][offset..] == t[..n][offset..] == t[offset..n];
    }
  }

  // A metadata block as a writer of images stores it: compressed when that is shorter.
  predicate Shortens(deflate: bytes -> bytes, chunk: bytes) { 0 < |deflate(chunk)| < |chunk| }

  function StoredPayload(deflate: bytes -> bytes, chunk: bytes): bytes {
    if Shortens(deflate, chunk) then deflate(chunk) else chunk
  }

  function StoredHeader(deflate: bytes -> bytes, chunk: bytes): (h: uint16)
    requires 1 <= |chunk| <= META_BLOCK
    ensures LegalSize(h) && HeaderSize(h) == |StoredPayload(deflate, chunk)|
    ensures HeaderRaw(h) <==> !Shortens(deflate, chunk)
  {
    if Shortens(deflate, chunk) then |deflate(chunk)| else 0x8000 + |chunk|
  }

  function Store(deflate: bytes -> bytes, chunk: bytes): (b: bytes)
    requires 1 <= |chunk| <= META_BLOCK
    ensures |b| == 2 + |StoredPayload(deflate, chunk)|
  {
    ToLe16(StoredHeader(deflate, chunk)) + StoredPayload(deflate, chunk)
  }

  predicate Chunks(chunks: seq<bytes>) {
    forall i :: 0 <= i < |chunks| ==> 1 <= |chunks[i]| <= META_BLOCK
  }

  // The chunk is stored at `pos`, and the library restores it if it is compressed.
  ghost predicate StoredAt(d: Disk, deflate: bytes -> bytes, pos: nat, chunk: bytes)
    requires 1 <= |chunk| <= META_BLOCK
  {
    && PartAt(d.image, pos, Store(deflate, chunk))
    && (Shortens(deflate, chunk) ==> d.inflate(deflate(chunk), META_BLOCK) == Some(chunk))
  }

  // The chunks are stored one after the other from `pos` on.
  ghost predicate LaidOut(d: Disk, deflate: bytes -> bytes, pos: nat, chunks: seq<bytes>)
    requires Chunks(chunks)
    decreases |chunks|
  {
    chunks != [] ==>
      && StoredAt(d, deflate, pos, chunks[0])
      && LaidOut(d, deflate, pos + |Store(deflate, chunks[0])|, chunks[1..])
  }

  function Joined(chunks: seq<bytes>): bytes {
    if chunks == [] then [] else chunks[0] + Joined(chunks[1..])
  }

  lemma BlockInPlace(d: Disk, pos: nat, h: uint16, payload: bytes, chunk: bytes, how: Reader)
    requires LegalSize(h) && HeaderSize(h) == |payload| && PartAt(d.image, pos, ToLe16(h) + payload)
    requires if HeaderRaw(h) then chunk == payload
        else |chunk| <= META_BLOCK && d.inflate(payload, META_BLOCK) == Some(chunk)
    ensures BlockAt(d, pos, how) == Ok(MetaBlock(chunk, pos + 2 + |payload|))
  {
    PartsOf(d.image, pos, ToLe16(h), payload);
    assert HeaderAt(d, pos) == Some(h);
    assert ReadAt(d, pos + 2, |payload|) == Some(payload);
  }

  lemma StoredBlock(d: Disk, deflate: bytes -> bytes, pos: nat, chunk: bytes, how: Reader)
    requires 1 <= |chunk| <= META_BLOCK && StoredAt(d, deflate, pos, chunk)
    ensures BlockAt(d, pos, how) == Ok(MetaBlock(chunk, pos + |Store(deflate, chunk)|))
  {
    BlockInPlace(d, pos, StoredHeader(deflate, chunk), StoredPayload(deflate, chunk), chunk, how);
  }

  lemma StreamBegins(d: Disk, pos: nat, how: Reader, b: MetaBlock, written: bytes)
    requires BlockAt(d, pos, how) == Ok(b) && written <= StreamFrom(d, b.next, how).data
    ensures b.data + written <= StreamFrom(d, pos, how).data
  {
    PrefixAfter(b.data, written, StreamFrom(d, b.next, how).data);
  }

  lemma {:induction false} StreamOfLayout(d: Disk, deflate: bytes -> bytes, pos: nat, chunks: seq<bytes>, how: Reader)
    requires Chunks(chunks) && LaidOut(d, deflate, pos, chunks)
    ensures Joined(chunks) <= StreamFrom(d, pos, how).data
    decreases |chunks|
  {
    if chunks != [] {
      var next := pos + |Store(deflate, chunks[0])|;
      StoredBlock(d, deflate, pos, chunks[0], how);
      StreamOfLayout(d, deflate, next, chunks[1..], how);
      StreamBegins(d, pos, how, MetaBlock(chunks[0], next), Joined(chunks[1..]));
    }
  }

  // How much of the layout and of the stream comes before chunk i.
  function StoredBefore(deflate: bytes -> bytes, chunks: seq<bytes>, i: nat): nat
    requires Chunks(chunks) && i <= |chunks|
  {
    if i == 0 then 0 else |Store(deflate, chunks[0])| + StoredBefore(deflate, chunks[1..], i - 1)
  }

  function DataBefore(chunks: seq<bytes>, i: nat): nat
    requires i <= |chunks|
  {
    if i == 0 then 0 else |chunks[0]| + DataBefore(chunks[1..], i - 1)
  }

  lemma SliceIsPart(s: Stream, written: bytes, offset: nat, b: bytes)
    requires written <= s.data && PartAt(written, offset, b)
    ensures Slice(s, offset, |b|) == Ok(b)
  {
    assert written == s.data[..|written|];
    assert written[offset..offset + |b|] == s.data[offset..offset + |b|];
  }

  // Either reader finds chunk i where the layout puts it.
  lemma {:induction false} ChunkIsRead(d: Disk, deflate: bytes -> bytes, pos: nat, chunks: seq<bytes>, i: nat,
      block: nat, how: Reader)
    requires Chunks(chunks) && LaidOut(d, deflate, pos, chunks)
    requires i < |chunks| && block == pos + StoredBefore(deflate, chunks, i)
    ensures BlockAt(d, block, how).Ok? && BlockAt(d, block, how).value.data == chunks[i]
    decreases i
  {
    if i == 0 {
      StoredBlock(d, deflate, pos, chunks[0], how);
    } else {
      ChunkIsRead(d, deflate, pos + |Store(deflate, chunks[0])|, chunks[1..], i - 1, block, how);
    }
  }

  // The chunks are laid out at `pos`, chunk i at `block`, and b is in their stream `offset` bytes into chunk i.
  ghost predicate Written(d: Disk, deflate: bytes -> bytes, pos: nat, chunks: seq<bytes>, i: nat, block: nat,
      offset: nat, b: bytes) {
    && Chunks(chunks) && LaidOut(d, deflate, pos, chunks)
    && i < |chunks| && block == pos + StoredBefore(deflate, chunks, i)
    && offset < |chunks[i]| && PartAt(Joined(chunks), DataBefore(chunks, i) + offset, b)
  }

  lemma RestIsWritten(d: Disk, deflate: bytes -> bytes, pos: nat, chunks: seq<bytes>, i: nat, block: nat,
      offset: nat, b: bytes)
    requires Written(d, deflate, pos, chunks, i, block, offset, b) && i > 0
    ensures Written(d, deflate, pos + |Store(deflate, chunks[0])|, chunks[1..], i - 1, block, offset, b)
  {
    PartBehind(chunks[0], Joined(chunks[1..]), DataBefore(chunks[1..], i - 1) + offset, b);
  }

  // Either reader delivers b from this block and offset on.
  predicate BothRead(d: Disk, block: nat, offset: nat, b: bytes) {
    MetaSlice(d, block, offset, |b|) == Ok(b) == DirectorySlice(d, block, offset, |b|)
  }

  lemma FirstIsRead(d: Disk, deflate: bytes -> bytes, pos: nat, chunks: seq<bytes>, block: nat, offset: nat, b: bytes)
    requires Written(d, deflate, pos, chunks, 0, block, offset, b)
    ensures BothRead(d, block, offset, b)
  {
    StoredBlock(d, deflate, pos, chunks[0], Lenient);
    StreamOfLayout(d, deflate, pos, chunks, Strict);
    StreamOfLayout(d, deflate, pos, chunks, Lenient);
    SliceIsPart(StreamFrom(d, pos, Strict), Joined(chunks), offset, b);
    SliceIsPart(StreamFrom(d, pos, Lenient), Joined(chunks), offset, b);
  }

  // Whatever was written in blocks is read back, from any offset in any block and across blocks.
  lemma {:induction false} WrittenIsRead(d: Disk, deflate: bytes -> bytes, pos: nat, chunks: seq<bytes>, i: nat,
      block: nat, offset: nat, b: bytes)
    requires Written(d, deflate, pos, chunks, i, block, offset, b)
    ensures BothRead(d, block, offset, b)
    decreases i
  {
    var rest := pos + |Store(deflate, chunks[0])|;
    if i == 0 {
      FirstIsRead(d, deflate, pos, chunks, block, offset, b);
    } else {
      RestIsWritten(d, deflate, pos, chunks, i, block, offset, b);
      WrittenIsRead(d, deflate, rest, chunks[1..], i - 1, block, offset, b);
    }
  }

  // A stream cut into blocks of 8 KiB.
  function Chop(s: bytes): (chunks: seq<bytes>)
    ensures Chunks(chunks) && Joined(chunks) == s
    ensures forall i :: 0 <= i < |chunks| - 1 ==> |chunks[i]| == META_BLOCK
    decreases |s|
  {
    if s == [] then []
    else if |s| <= META_BLOCK then assert Joined([s]) == s + Joined([]); [s]
    else [s[..META_BLOCK]] + Chop(s[META_BLOCK..])
  }

  lemma {:induction false} FullChunks(chunks: seq<bytes>, i: nat)
    requires i < |chunks| && forall j :: 0 <= j < |chunks| - 1 ==> |chunks[j]| == META_BLOCK
    ensures DataBefore(chunks, i) == META_BLOCK * i
  {
    if i > 0 {
      FullChunks(chunks[1..], i - 1);
    }
  }

  lemma {:induction false} ChunkOf(s: bytes, at: nat)
    requires at < |s|
    ensures at / META_BLOCK < |Chop(s)| && at % META_BLOCK < |Chop(s)[at / META_BLOCK]|
    decreases |s|
  {
    if |s| > META_BLOCK && at >= META_BLOCK {
      ChunkOf(s[META_BLOCK..], at - META_BLOCK);
      assert (at - META_BLOCK) / META_BLOCK == at / META_BLOCK - 1;
    }
  }

  lemma {:induction false} ChunkSlice(s: bytes, i: nat)
    requires i < |Chop(s)|
    ensures META_BLOCK * i < |s| && Chop(s)[i] == s[META_BLOCK * i..Least(|s|, META_BLOCK * i + META_BLOCK)]
    decreases i
  {
    if |s| > META_BLOCK && i > 0 {
      ChunkSlice(s[META_BLOCK..], i - 1);
    }
  }

  // Any stretch of a stream written in blocks of 8 KiB is read back from the reference made of the
  // position of its block and its offset in it.
  lemma StreamRoundTrip(d: Disk, deflate: bytes -> bytes, pos: nat, s: bytes, at: nat, b: bytes)
    requires LaidOut(d, deflate, pos, Chop(s))
    requires at < |s| && PartAt(s, at, b)
    ensures at / META_BLOCK < |Chop(s)|
    ensures
      var block, offset := pos + StoredBefore(deflate, Chop(s), at / META_BLOCK), at % META_BLOCK;
      BothRead(d, block, offset, b)
  {
    ChunkOf(s, at);
    var i := at / META_BLOCK;
    var block := pos + StoredBefore(deflate, Chop(s), i);
    StretchIsRead(d, deflate, pos, Chop(s), i, block, at % META_BLOCK, b);
  }

  lemma StretchIsRead(d: Disk, deflate: bytes -> bytes, pos: nat, chunks: seq<bytes>, i: nat, block: nat, offset: nat,
      b: bytes)
    requires Chunks(chunks) && LaidOut(d, deflate, pos, chunks) && i < |chunks| && offset < |chunks[i]|
    requires forall j :: 0 <= j < |chunks| - 1 ==> |chunks[j]| == META_BLOCK
    requires block == pos + StoredBefore(deflate, chunks, i) && PartAt(Joined(chunks), META_BLOCK * i + offset, b)
    ensures BothRead(d, block, offset, b)
  {
    FullChunks(chunks, i);
    assert Written(d, deflate, pos, chunks, i, block, offset, b);
    WrittenIsRead(d, deflate, pos, chunks, i, block, offset, b);
  }
}
