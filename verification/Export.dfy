/** The export table, which maps inode numbers to references, and its one retained metadata block. */
module Export {
  import opened Words
  import opened Bytes
  import opened Buffers
  import opened Disk
  import Inodes
  import Metadata

  const REFS_PER_BLOCK: nat := 1024
  const NOWHERE: uint64 := 0xFFFF_FFFF_FFFF_FFFF

  // The block kept between lookups, with the address it was read from.
  datatype Retained = Nothing | Block(addr: uint64, data: bytes)

  // Reference i of a block.
  function Pick(data: bytes, i: nat): Result<uint64> {
    if 8 * i + 8 > |data| then Err(NotFound) else Ok(Le64(data, 8 * i))
  }

  // The address of the block that holds the reference of an inode.
  function AddressFor(d: Disk, table: nat, number: uint64): Result<uint64>
    requires number > 0
  {
    match ReadAt(d, table + 8 * ((number - 1) / REFS_PER_BLOCK), 8)
    case None => Err(Corrupt)
    case Some(b) => if Le64(b, 0) == NOWHERE || Le64(b, 0) == 0 then Err(NotFound) else Ok(Le64(b, 0))
  }

  // The reference of an inode, as the image has it.
  function ExportRef(d: Disk, table: nat, number: uint64): Result<uint64> {
    if number == 0 then Err(NotFound)
    else match AddressFor(d, table, number)
      case Err(e) => Err(e)
      case Ok(addr) =>
        match Metadata.BlockAt(d, addr, Metadata.Strict)
        case Err(e) => Err(e)
        case Ok(b) => Pick(b.data, (number - 1) % REFS_PER_BLOCK)
  }

  // A block read that fails after its header was accepted may have written to the buffer.
  predicate Disturbs(d: Disk, addr: nat) {
    var h := Metadata.HeaderAt(d, addr);
    Metadata.BlockAt(d, addr, Metadata.Strict).Err? && h.Some? && Metadata.LegalSize(h.value)
  }

  // What a read of the block at `addr` into the buffer that holds s leaves there; `junk` is what a
  // failing read wrote. The address of the retained block is not changed by a read that fails.
  function Reload(d: Disk, s: Retained, addr: uint64, junk: bytes): Retained {
    match Metadata.BlockAt(d, addr, Metadata.Strict)
    case Ok(b) => Block(addr, b.data)
    case Err(_) => if s.Block? && Disturbs(d, addr) then Block(s.addr, junk) else s
  }

  predicate Needs(s: Retained, addr: uint64) { s.Nothing? || s.addr != addr }

  // One lookup: the new state and the answer.
  function Lookup(d: Disk, table: nat, s: Retained, number: uint64, junk: bytes): (Retained, Result<uint64>) {
    if number == 0 then (s, Err(NotFound))
    else match AddressFor(d, table, number)
      case Err(e) => (s, Err(e))
      case Ok(addr) =>
        if !Needs(s, addr) then (s, Pick(s.data, (number - 1) % REFS_PER_BLOCK))
        else match Metadata.BlockAt(d, addr, Metadata.Strict)
          case Err(e) => (Reload(d, s, addr, junk), Err(e))
          case Ok(b) => (Reload(d, s, addr, junk), Pick(b.data, (number - 1) % REFS_PER_BLOCK))
  }

  // The retained block is the block at the retained address.
  predicate Honest(d: Disk, s: Retained) {
    s.Block? ==>
      && Metadata.BlockAt(d, s.addr, Metadata.Strict).Ok?
      && Metadata.BlockAt(d, s.addr, Metadata.Strict).value.data == s.data
  }

  // The lookup reads a block, in vain, over the retained one.
  predicate Spoils(d: Disk, table: nat, s: Retained, number: uint64) {
    && number > 0 && AddressFor(d, table, number).Ok?
    && s.Block? && Needs(s, AddressFor(d, table, number).value) && Disturbs(d, AddressFor(d, table, number).value)
  }

  // From an honest state every lookup answers what the image has, and leaves an honest state exactly
  // when it does not spoil the block or happens to leave it as it was.
  lemma LookupHonest(d: Disk, table: nat, s: Retained, number: uint64, junk: bytes)
    requires Honest(d, s)
    ensures Lookup(d, table, s, number, junk).1 == ExportRef(d, table, number)
    ensures Honest(d, Lookup(d, table, s, number, junk).0) <==> !Spoils(d, table, s, number) || junk == s.data
  {
  }

  datatype Request = Request(number: uint64, junk: bytes)

  function Answers(d: Disk, table: nat, s: Retained, requests: seq<Request>): (answers: seq<Result<uint64>>)
    ensures |answers| == |requests|
    decreases |requests|
  {
    if requests == [] then []
    else
      var step := Lookup(d, table, s, requests[0].number, requests[0].junk);
      [step.1] + Answers(d, table, step.0, requests[1..])
  }

  // No read that such a lookup makes spoils the retained block.
  predicate Harmless(d: Disk, table: nat, number: uint64) {
    number > 0 && AddressFor(d, table, number).Ok? ==> !Disturbs(d, AddressFor(d, table, number).value)
  }

  // Over any sequence of lookups the answers do not depend on what was looked up before.
  lemma {:induction false} AnswersAreRefs(d: Disk, table: nat, s: Retained, requests: seq<Request>, i: nat)
    requires Honest(d, s) && i < |requests|
    requires forall k :: 0 <= k < |requests| ==> Harmless(d, table, requests[k].number)
    ensures Answers(d, table, s, requests)[i] == ExportRef(d, table, requests[i].number)
    decreases i
  {
    var first, rest := requests[0], requests[1..];
    var step := Lookup(d, table, s, first.number, first.junk);
    LookupStaysHonest(d, table, s, first.number, first.junk, step.0);
    if i > 0 {
      AnswersAreRefs(d, table, step.0, rest, i - 1);
      assert rest[i - 1] == requests[i];
      assert Answers(d, table, s, requests)[i] == Answers(d, table, step.0, rest)[i - 1];
    }
  }

  lemma LookupStaysHonest(d: Disk, table: nat, s: Retained, number: uint64, junk: bytes, s': Retained)
    requires Honest(d, s) && Harmless(d, table, number) && s' == Lookup(d, table, s, number, junk).0
    ensures Honest(d, s') && Lookup(d, table, s, number, junk).1 == ExportRef(d, table, number)
  {
    LookupHonest(d, table, s, number, junk);
  }

  // After a failed read the leftovers are taken for the retained block: a lookup in it answers from them.
  lemma LeftoversAreServed(d: Disk, table: nat, s: Retained, spoiling: uint64, number: uint64, junk: bytes)
    requires Honest(d, s) && Spoils(d, table, s, spoiling)
    requires number > 0 && AddressFor(d, table, number) == Ok(s.addr)
    ensures Answers(d, table, s, [Request(spoiling, junk), Request(number, junk)])[1] ==
      Pick(junk, (number - 1) % REFS_PER_BLOCK)
  {
    var requests := [Request(spoiling, junk), Request(number, junk)];
    assert requests[1..] == [Request(number, junk)];
    assert Lookup(d, table, s, spoiling, junk).0 == Block(s.addr, junk);
  }

  // Two addresses, a raw block with the reference 5 of inode 1, and a block of one byte that does not expand.
  function SpoilingDisk(): Disk {
    Disk(ToLe64(16) + ToLe64(26) + (ToLe16(0x8008) + ToLe64(5)) + (ToLe16(1) + [3]), (_, _) => None)
  }

  lemma SpoilingParts()
    ensures var image := SpoilingDisk().image;
      && AddressIs(SpoilingDisk(), 0, 0, 16) && AddressIs(SpoilingDisk(), 0, 1, 26)
      && PartAt(image, 16, ToLe16(0x8008) + ToLe64(5)) && PartAt(image, 26, ToLe16(1) + [3])
  {
    PartsInOrder(ToLe64(16), ToLe64(26), ToLe16(0x8008) + ToLe64(5), ToLe16(1) + [3]);
  }

  lemma PartsInOrder(a: bytes, b: bytes, c: bytes, e: bytes)
    ensures var all := a + b + c + e;
      PartAt(all, 0, a) && PartAt(all, |a|, b) && PartAt(all, |a + b|, c) && PartAt(all, |a + b + c|, e)
  {
  }

  lemma DoesNotExpand(d: Disk, pos: nat, payload: bytes)
    requires 1 <= |payload| <= Metadata.META_BLOCK && PartAt(d.image, pos, ToLe16(|payload|) + payload)
    requires d.inflate(payload, Metadata.META_BLOCK) == None
    ensures Metadata.BlockAt(d, pos, Metadata.Strict) == Err(Corrupt) && Disturbs(d, pos)
  {
    PartsOf(d.image, pos, ToLe16(|payload|), payload);
    assert Metadata.HeaderAt(d, pos) == Some(|payload|);
    assert ReadAt(d, pos + 2, |payload|) == Some(payload);
  }

  lemma RawHeader()
    ensures Metadata.HeaderSize(0x8008) == 8 && Metadata.HeaderRaw(0x8008)
  {
  }

  lemma SpoilingBlocks(d: Disk, first: bytes, second: bytes)
    requires |first| == 8 && |second| == 1 && d.inflate(second, Metadata.META_BLOCK) == None
    requires AddressIs(d, 0, 0, 16) && AddressIs(d, 0, 1, 26)
    requires PartAt(d.image, 16, ToLe16(0x8008) + first) && PartAt(d.image, 26, ToLe16(1) + second)
    ensures AddressFor(d, 0, 1) == Ok(16) && AddressFor(d, 0, 1025) == Ok(26)
    ensures Metadata.BlockAt(d, 16, Metadata.Strict) == Ok(Metadata.MetaBlock(first, 26))
    ensures Metadata.BlockAt(d, 26, Metadata.Strict) == Err(Corrupt) && Disturbs(d, 26)
  {
    AddressRead(d, 0, 1, 16);
    AddressRead(d, 0, 1025, 26);
    RawHeader();
    Metadata.BlockInPlace(d, 16, 0x8008, first, first, Metadata.Strict);
    DoesNotExpand(d, 26, second);
  }

  // The first answer, then what comes after it.
  lemma AnswerFirst(d: Disk, s: Retained, number: uint64, junk: bytes, rest: seq<Request>)
    ensures var step := Lookup(d, 0, s, number, junk);
      Answers(d, 0, s, [Request(number, junk)] + rest) == [step.1] + Answers(d, 0, step.0, rest)
  {
    assert ([Request(number, junk)] + rest)[1..] == rest;
  }

  // What is found under one address, and then fails under another.
  lemma SpoilingLookups(d: Disk, first: bytes, junk: bytes)
    requires AddressFor(d, 0, 1) == Ok(16) && AddressFor(d, 0, 1025) == Ok(26)
    requires Metadata.BlockAt(d, 16, Metadata.Strict) == Ok(Metadata.MetaBlock(first, 26))
    requires Metadata.BlockAt(d, 26, Metadata.Strict) == Err(Corrupt) && Disturbs(d, 26)
    ensures Answers(d, 0, Nothing, [Request(1, junk)] + ([Request(1025, junk)] + [Request(1, junk)]))
         == [Pick(first, 0), Err(Corrupt), Pick(junk, 0)]
    ensures ExportRef(d, 0, 1) == Pick(first, 0)
  {
    var s := Block(16, first);
    AnswerFirst(d, Nothing, 1, junk, [Request(1025, junk)] + [Request(1, junk)]);
    AnswerFirst(d, s, 1025, junk, [Request(1, junk)]);
    LeftoversAreServed(d, 0, s, 1025, 1, junk);
    assert [Request(1025, junk)] + [Request(1, junk)] == [Request(1025, junk), Request(1, junk)];
  }

  // Inode 1 is looked up, then inode 1025 in vain, then inode 1 again, with another answer.
  lemma LeftoversRun()
    ensures var d, junk := SpoilingDisk(), ToLe64(9);
      && ExportRef(d, 0, 1) == Ok(5)
      && Answers(d, 0, Nothing, [Request(1, junk)] + ([Request(1025, junk)] + [Request(1, junk)]))
         == [Ok(5), Err(Corrupt), Ok(9)]
  {
    SpoilingParts();
    SpoilingBlocks(SpoilingDisk(), ToLe64(5), [3]);
    SpoilingLookups(SpoilingDisk(), ToLe64(5), ToLe64(9));
  }

  // The static variables of sqfs_inode_load.
  class ExportBlock {
    var buffer: array?<byte>
    var size: nat
    var addr: uint64

    constructor ()
      ensures Valid() && State() == Nothing
    {
      buffer, size, addr := null, 0, 0;
    }

    ghost predicate Valid()
      reads this, buffer
    {
      buffer != null ==> buffer.Length == Metadata.META_BLOCK && size <= buffer.Length
    }

    ghost function State(): Retained
      requires Valid()
      reads this, buffer
    {
      if buffer == null || addr == 0 then Nothing else Block(addr, buffer[..size])
    }

    // Reads the block at `at` into the buffer.
    method ReadBlock(d: Disk, at: uint64, memory: bool) returns (r: Result<()>, ghost junk: bytes)
      requires Valid() && at != 0
      requires buffer != null
      modifies this`size, this`addr, buffer
      ensures Valid() && buffer == old(buffer)
      ensures match Metadata.BlockAt(d, at, Metadata.Strict)
              case Ok(b) => r.Ok? || (!memory && r == Err(NoMemory))
              case Err(e) => r == Err(e) || (!memory && r == Err(NoMemory))
      ensures State() == (if r == Err(NoMemory) then old(State()) else Reload(d, old(State()), at, junk))
    {
      junk := buffer[..size];
      var block := Metadata.ReadStrict(d, at, memory);
      if block.Ok? {
        BlockFits(d, at);
        Fill(buffer, 0, block.value);
        size, addr := |block.value|, at;
        assert buffer[..size] == block.value;
        return Ok(()), junk;
      }
      r := Err(block.error);
      var header := Metadata.HeaderAt(d, at);
      if block.error != NoMemory && header.Some? && Metadata.LegalSize(header.value) {
        var leftovers: bytes := *;
        if |leftovers| == size {
          Fill(buffer, 0, leftovers);
          junk := leftovers;
          assert buffer[..size] == leftovers;
        }
      }
    }

    // The lookup in sqfs_inode_load. `junk` is what a failed read left in the buffer.
    method Resolve(d: Disk, hasTable: bool, table: nat, number: uint64, memory: bool)
      returns (r: Result<uint64>, ghost junk: bytes)
      requires Valid()
      modifies this, buffer
      ensures Valid() && (buffer == old(buffer) || fresh(buffer))
      ensures !hasTable ==> r == Err(NotFound) && State() == old(State())
      ensures hasTable ==>
        || (State(), r) == Lookup(d, table, old(State()), number, junk)
        || (!memory && r == Err(NoMemory) && State() == old(State()))
    {
      junk := [];
      if number == 0 || !hasTable {
        return Err(NotFound), junk;
      }
      var entry := ReadAt(d, table + 8 * ((number - 1) / REFS_PER_BLOCK), 8);
      if entry.None? {
        return Err(Corrupt), junk;
      }
      var at := Le64(entry.value, 0);
      if at == NOWHERE || at == 0 {
        return Err(NotFound), junk;
      }
      if buffer == null || addr != at {
        if buffer == null {
          var available: bool := *;
          if !memory && !available {
            return Err(NoMemory), junk;
          }
          buffer, size, addr := new byte[Metadata.META_BLOCK], 0, 0;
        }
        var done;
        done, junk := ReadBlock(d, at, memory);
        if done.Err? {
          return Err(done.error), junk;
        }
      }
      var offset := 8 * ((number - 1) % REFS_PER_BLOCK);
      if offset + 8 > size {
        return Err(NotFound), junk;
      }
      assert State().data == buffer[..size];
      return Ok(Le64(buffer[..size], offset)), junk;
    }

    // sqfs_inode_load.
    method Load(d: Disk, hasTable: bool, table: nat, inodeTable: nat, number: uint64, blockSize: uint32, memory: bool)
      returns (r: Result<Inodes.Inode>)
      requires Valid() && Honest(d, State()) && blockSize > 0
      modifies this, buffer
      ensures Valid() && (buffer == old(buffer) || fresh(buffer))
      ensures Harmless(d, table, number) ==> Honest(d, State())
      ensures r.Ok? ==>
        fresh(r.value) && InodeNumbered(d, hasTable, table, inodeTable, number, blockSize) == Ok(r.value.Contents())
      ensures r.Err? ==>
        InodeNumbered(d, hasTable, table, inodeTable, number, blockSize) == Err(r.error)
        || (!memory && r.error == NoMemory)
    {
      ghost var before := State();
      var ref;
      ghost var junk;
      ref, junk := Resolve(d, hasTable, table, number, memory);
      LookupHonest(d, table, before, number, junk);
      if ref.Err? {
        return Err(ref.error);
      }
      r := LoadRef(d, inodeTable, ref.value, blockSize, memory);
    }
  }

  // The inode of a number, as the image has it.
  function InodeNumbered(d: Disk, hasTable: bool, table: nat, inodeTable: nat, number: uint64,
      blockSize: uint32): Result<Inodes.Value>
    requires blockSize > 0
  {
    if !hasTable then Err(NotFound)
    else match ExportRef(d, table, number)
      case Err(e) => Err(e)
      case Ok(ref) => InodeOf(d, inodeTable, ref, blockSize)
  }

  function InodeOf(d: Disk, inodeTable: nat, ref: uint64, blockSize: uint32): Result<Inodes.Value>
    requires blockSize > 0
  {
    Inodes.Load(d, inodeTable + ref / 0x1_0000, ref % 0x1_0000, blockSize)
  }

  method LoadRef(d: Disk, inodeTable: nat, ref: uint64, blockSize: uint32, memory: bool)
    returns (r: Result<Inodes.Inode>)
    requires blockSize > 0
    ensures r.Ok? ==> fresh(r.value) && InodeOf(d, inodeTable, ref, blockSize) == Ok(r.value.Contents())
    ensures r.Err? ==> InodeOf(d, inodeTable, ref, blockSize) == Err(r.error) || (!memory && r.error == NoMemory)
  {
    r := Inodes.GetByRef(d, inodeTable + ref / 0x1_0000, ref % 0x1_0000, blockSize, memory);
  }

  lemma BlockFits(d: Disk, at: nat)
    requires Metadata.BlockAt(d, at, Metadata.Strict).Ok?
    ensures |Metadata.BlockAt(d, at, Metadata.Strict).value.data| <= Metadata.META_BLOCK
  {
  }

  // The references of an image, eight bytes each.
  function Store(refs: seq<uint64>): (b: bytes)
    ensures |b| == 8 * |refs|
  {
    if refs == [] then [] else ToLe64(refs[0]) + Store(refs[1..])
  }

  lemma FieldBehind(first: bytes, rest: bytes, p: nat)
    requires p + 8 <= |rest|
    ensures Le64(first + rest, |first| + p) == Le64(rest, p)
  {
    LongFieldIs(first + rest, |first| + p, rest[p..p + 8]);
    LongFieldIs(rest, p, rest[p..p + 8]);
  }

  lemma {:induction false} StoredRef(refs: seq<uint64>, i: nat)
    requires i < |refs|
    ensures Le64(Store(refs), 8 * i) == refs[i]
    decreases i
  {
    var first, rest := ToLe64(refs[0]), Store(refs[1..]);
    assert Store(refs) == first + rest;
    if i == 0 {
      LongFieldIs(first + rest, 0, first);
    } else {
      StoredRef(refs[1..], i - 1);
      FieldBehind(first, rest, 8 * (i - 1));
    }
  }

  // The image has the references in metadata blocks from `start` on and the blocks' addresses at `table`.
  ghost predicate Exports(d: Disk, deflate: bytes -> bytes, table: nat, start: nat, refs: seq<uint64>) {
    var chunks := Metadata.Chop(Store(refs));
    && Metadata.LaidOut(d, deflate, start, chunks)
    && forall k :: 0 <= k < |chunks| ==> AddressIs(d, table, k, start + Metadata.StoredBefore(deflate, chunks, k))
  }

  ghost predicate AddressIs(d: Disk, table: nat, k: nat, addr: nat) {
    0 < addr < NOWHERE && PartAt(d.image, table + 8 * k, ToLe64(addr))
  }

  // The reference resolved for inode n is element n-1 of the flat array.
  lemma ExportRoundTrip(d: Disk, deflate: bytes -> bytes, table: nat, start: nat, refs: seq<uint64>, number: uint64)
    requires Exports(d, deflate, table, start, refs) && 1 <= number <= |refs|
    ensures ExportRef(d, table, number) == Ok(refs[number - 1])
  {
    var chunks, n := Metadata.Chop(Store(refs)), number - 1;
    var k, i := n / REFS_PER_BLOCK, n % REFS_PER_BLOCK;
    SplitRef(n, k, i);
    RefInChunk(refs, n, k, i, chunks);
    var addr := start + Metadata.StoredBefore(deflate, chunks, k);
    assert AddressIs(d, table, k, addr);
    AddressRead(d, table, number, addr);
    Metadata.ChunkIsRead(d, deflate, start, chunks, k, addr, Metadata.Strict);
    RefFound(d, table, number, addr, chunks[k], i, refs[n]);
  }

  // Loading by number: element n-1 of the table is how far into the inode table the block with an inode
  // is stored, times 65536, and the inode's offset in the block. Then number n yields that inode.
  lemma {:induction false} LoadByNumber(d: Disk, deflate: bytes -> bytes, table: nat, start: nat, refs: seq<uint64>,
      number: uint64, inodeTable: nat, chunks: seq<bytes>, i: nat, before: nat, offset: uint16, v: Inodes.Value,
      blockSize: uint32)
    requires Exports(d, deflate, table, start, refs) && 1 <= number <= |refs|
    requires Inodes.Inside(d, deflate, inodeTable, chunks, i, inodeTable + before, offset, v, blockSize)
    requires refs[number - 1] == 65536 * before + offset
    ensures blockSize > 0 && InodeNumbered(d, true, table, inodeTable, number, blockSize) == Ok(v)
  {
    ExportRoundTrip(d, deflate, table, start, refs, number);
    Inodes.InodeInside(d, deflate, inodeTable, chunks, i, inodeTable + before, offset, v, blockSize);
    NumberedIs(d, table, inodeTable, number, refs[number - 1], before, offset, blockSize);
  }

  lemma NumberedIs(d: Disk, table: nat, inodeTable: nat, number: uint64, ref: uint64, before: nat, offset: uint16,
      blockSize: uint32)
    requires blockSize > 0 && ExportRef(d, table, number) == Ok(ref) && ref == 65536 * before + offset
    ensures InodeNumbered(d, true, table, inodeTable, number, blockSize)
         == Inodes.Load(d, inodeTable + before, offset, blockSize)
  {
    SplitInodeRef(ref, before, offset);
  }

  lemma SplitInodeRef(ref: uint64, before: nat, offset: uint16)
    requires ref == 65536 * before + offset
    ensures ref / 0x1_0000 == before && ref % 0x1_0000 == offset
  {
  }

  lemma RefFound(d: Disk, table: nat, number: uint64, addr: uint64, data: bytes, i: nat, ref: uint64)
    requires number > 0 && AddressFor(d, table, number) == Ok(addr)
    requires Metadata.BlockAt(d, addr, Metadata.Strict).Ok?
      && Metadata.BlockAt(d, addr, Metadata.Strict).value.data == data
    requires i == (number - 1) % REFS_PER_BLOCK && Pick(data, i) == Ok(ref)
    ensures ExportRef(d, table, number) == Ok(ref)
  {
  }

  lemma AddressRead(d: Disk, table: nat, number: uint64, addr: uint64)
    requires number > 0 && AddressIs(d, table, (number - 1) / REFS_PER_BLOCK, addr)
    ensures AddressFor(d, table, number) == Ok(addr)
  {
    var p := table + 8 * ((number - 1) / REFS_PER_BLOCK);
    assert ReadAt(d, p, 8) == Some(ToLe64(addr));
  }

  lemma FieldInSlice(b: bytes, from: nat, to: nat, p: nat)
    requires from + p + 8 <= to <= |b|
    ensures Le64(b[from..to], p) == Le64(b, from + p)
  {
  }

  lemma RefInSlice(refs: seq<uint64>, n: nat, q: nat, i: nat, chunk: bytes)
    requires i < 1024 && n == 1024 * q + i && n < |refs| && 8192 * q <= |Store(refs)|
    requires chunk == Store(refs)[8192 * q..Least(|Store(refs)|, 8192 * q + 8192)]
    ensures Pick(chunk, i) == Ok(refs[n])
  {
    StoredRef(refs, n);
    FieldInSlice(Store(refs), 8192 * q, Least(|Store(refs)|, 8192 * q + 8192), 8 * i);
  }

  lemma SplitRef(n: nat, q: nat, i: nat)
    requires q == n / REFS_PER_BLOCK && i == n % REFS_PER_BLOCK
    ensures n == 1024 * q + i && 8 * n / Metadata.META_BLOCK == q
  {
    assert 8 * n / 8192 == n / 1024;
  }

  lemma RefInChunk(refs: seq<uint64>, n: nat, q: nat, i: nat, chunks: seq<bytes>)
    requires n < |refs| && chunks == Metadata.Chop(Store(refs))
    requires n == 1024 * q + i && i < 1024 && 8 * n / Metadata.META_BLOCK == q
    ensures q < |chunks| && Pick(chunks[q], i) == Ok(refs[n])
  {
    Metadata.ChunkOf(Store(refs), 8 * n);
    Metadata.ChunkSlice(Store(refs), q);
    RefInSlice(refs, n, q, i, chunks[q]);
  }
}
