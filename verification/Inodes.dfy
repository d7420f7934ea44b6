/** Inodes: how long one is, what its fields are, and loading it from a metadata block. */
module Inodes {
  import opened Words
  import opened Bytes
  import opened Buffers
  import opened Disk
  import Metadata
  import FileLayout

  const NO_XATTR: uint32 := 0xFFFF_FFFF
  const HEADER_SIZE: nat := 16
  const MAX_INODE_SIZE: nat := 8192

  const DIRECTORY: uint16 := 1
  const FILE: uint16 := 2
  const SYMLINK: uint16 := 3
  const LONG_DIRECTORY: uint16 := 8
  const LONG_FILE: uint16 := 9
  const LONG_SYMLINK: uint16 := 10

  predicate ValidKind(kind: uint16) { 1 <= kind <= 14 }
  predicate IsDevice(kind: uint16) { kind == 4 || kind == 5 || kind == 11 || kind == 12 }
  predicate IsLong(kind: uint16) { kind >= LONG_DIRECTORY }

  datatype Header = Header(kind: uint16, permissions: uint16, uid: uint16, gid: uint16, mtime: uint32, number: uint32)

  // The union in struct sqfs_inode. Its member xattr_idx is stored over the first four bytes of the
  // others. A LostLink is a symbolic link whose pointer to the target has had its low half replaced.
  datatype Body =
    | Directory(block: uint64, bytes: uint32, offset: uint16, parent: uint64, indexCount: uint16)
    | Regular(file: FileLayout.File, sparse: uint64, xattr: uint32)
    | Symlink(target: bytes)
    | LostLink(length: uint32, low: uint32)
    | Device(major: uint32, minor: uint32)
    | Ipc(xattr: uint32)

  datatype Value = Value(header: Header, links: uint32, body: Body)

  // A 64-bit member of the union after a 32-bit one was stored.
  function WithLow(n: uint64, x: uint32): uint64 { n - n % 0x1_0000_0000 + x }

  lemma LowOfWord(n: uint32, x: uint32)
    ensures WithLow(n, x) == x
  {
  }

  function ReadHeader(b: bytes): Header
    requires |b| >= HEADER_SIZE
  {
    Header(Le16(b, 0), Le16(b, 2), Le16(b, 4), Le16(b, 6), Le32(b, 8), Le32(b, 12))
  }

  // How many bytes of an inode are read to find out its size.
  function SizingPrefix(kind: uint16): nat {
    if kind == FILE then 32
    else if kind == LONG_FILE then 56
    else if kind == SYMLINK || kind == LONG_SYMLINK then 24
    else HEADER_SIZE
  }

  // What sizeof yields for the kinds of one size.
  function FixedSize(kind: uint16): nat {
    if kind == DIRECTORY then 32
    else if kind == LONG_DIRECTORY then 40
    else if IsDevice(kind) then (if IsLong(kind) then 28 else 24)
    else if IsLong(kind) then 24 else 20
  }

  predicate Sizeable(b: bytes) {
    |b| >= HEADER_SIZE && ValidKind(Le16(b, 0)) && |b| >= SizingPrefix(Le16(b, 0))
  }

  // The number of block sizes in a file's inode.
  function BlockCount(b: bytes, blockSize: uint32): uint32
    requires Sizeable(b) && (Le16(b, 0) == FILE || Le16(b, 0) == LONG_FILE) && blockSize > 0
  {
    if Le16(b, 0) == FILE
    then FileLayout.CalcBlockCount(Le32(b, 28), blockSize, Le32(b, 20) != FileLayout.NO_FRAGMENT)
    else FileLayout.CalcBlockCount(Le64(b, 24), blockSize, Le32(b, 44) != FileLayout.NO_FRAGMENT)
  }

  // The size that sqfs_inode_get_by_ref computes from the first bytes.
  function Size(b: bytes, blockSize: uint32): (n: nat)
    requires Sizeable(b) && blockSize > 0
    ensures n >= SizingPrefix(Le16(b, 0))
  {
    var kind := Le16(b, 0);
    if kind == FILE then 32 + 4 * BlockCount(b, blockSize)
    else if kind == LONG_FILE then 56 + 4 * BlockCount(b, blockSize)
    else if kind == SYMLINK then 24 + Le32(b, 20)
    else if kind == LONG_SYMLINK then 28 + Le32(b, 20)
    else FixedSize(kind)
  }

  function Sizes(b: bytes, from: nat, n: nat): (s: seq<uint32>)
    requires from + 4 * n <= |b|
    ensures |s| == n
  {
    seq(n, i requires 0 <= i < n => Le32(b, from + 4 * i))
  }

  function Major(device: uint32): uint32 { device / 0x100 % 0x1000 }
  function Minor(device: uint32): uint32 { device % 0x100 + device / 0x10_0000 * 0x100 }

  // Storing the xattr index of an extended directory, an extended link or a device overwrites the
  // first member of the union: the block index, the pointer to the target, or the major number.
  function ReadBody(b: bytes, blockSize: uint32): Body
    requires Sizeable(b) && blockSize > 0 && Size(b, blockSize) <= |b|
  {
    var kind := Le16(b, 0);
    if kind == DIRECTORY then
      var n := Le16(b, 24);
      Directory(Le32(b, 16), if n >= 3 then n - 3 else n, Le16(b, 26), Le32(b, 28), 0)
    else if kind == LONG_DIRECTORY then
      Directory(Le32(b, 36), Le32(b, 20), Le16(b, 34), Le32(b, 28), Le16(b, 32))
    else if kind == FILE then
      Regular(FileLayout.File(Le32(b, 28), Le32(b, 16), Le32(b, 20), Le32(b, 24),
              Sizes(b, 32, BlockCount(b, blockSize))), 0, NO_XATTR)
    else if kind == LONG_FILE then
      Regular(FileLayout.File(Le64(b, 24), Le64(b, 16), Le32(b, 44), Le32(b, 48),
              Sizes(b, 56, BlockCount(b, blockSize))), Le64(b, 32), Le32(b, 52))
    else if kind == SYMLINK then Symlink(b[24..24 + Le32(b, 20)])
    else if kind == LONG_SYMLINK then LostLink(Le32(b, 20), Le32(b, 24 + Le32(b, 20)))
    else if IsDevice(kind) then Device(if IsLong(kind) then Le32(b, 24) else NO_XATTR, Minor(Le32(b, 20)))
    else Ipc(if IsLong(kind) then Le32(b, 20) else NO_XATTR)
  }

  function ReadLinks(b: bytes): uint32
    requires |b| >= HEADER_SIZE && ValidKind(Le16(b, 0))
    requires Le16(b, 0) != FILE ==> |b| >= 20
    requires Le16(b, 0) == DIRECTORY ==> |b| >= 24
    requires Le16(b, 0) == LONG_FILE ==> |b| >= 44
  {
    var kind := Le16(b, 0);
    if kind == FILE then 1
    else if kind == DIRECTORY then Le32(b, 20)
    else if kind == LONG_FILE then Le32(b, 40)
    else Le32(b, 16)
  }

  // The inode at the front of b.
  function Decode(b: bytes, blockSize: uint32): Value
    requires Sizeable(b) && blockSize > 0 && Size(b, blockSize) <= |b|
  {
    Value(ReadHeader(b), ReadLinks(b), ReadBody(b, blockSize))
  }

  // What loading yields from the metadata block `data`: the inode must lie inside the block.
  function LoadFrom(data: bytes, offset: nat, blockSize: uint32): Result<Value>
    requires blockSize > 0
  {
    if offset > |data| || !Sizeable(data[offset..]) then Err(BadInode)
    else if Size(data[offset..], blockSize) > |data| - offset then Err(BadInode)
    else Ok(Decode(data[offset..], blockSize))
  }

  // What sqfs_inode_get_by_ref delivers; `pos` is the position of the block.
  function Load(d: Disk, pos: nat, offset: uint16, blockSize: uint32): Result<Value>
    requires blockSize > 0
  {
    match Metadata.BlockAt(d, pos, Metadata.Strict)
    case Err(e) => Err(e)
    case Ok(block) => LoadFrom(block.data, offset, blockSize)
  }

  // The first n bytes of an inode determine the rest of its size, and its first Size bytes all of it.
  lemma SizePrefix(b: bytes, n: nat, blockSize: uint32)
    requires n <= |b| && blockSize > 0 && Sizeable(b[..n])
    ensures Sizeable(b) && Size(b[..n], blockSize) == Size(b, blockSize)
  {
  }

  lemma SizesPrefix(b: bytes, n: nat, from: nat, count: nat)
    requires from + 4 * count <= n <= |b|
    ensures Sizes(b[..n], from, count) == Sizes(b, from, count)
  {
    forall i | 0 <= i < count
      ensures Le32(b[..n], from + 4 * i) == Le32(b, from + 4 * i)
    {
    }
  }

  lemma SlicePrefix(b: bytes, n: nat, from: nat, to: nat)
    requires from <= to <= n <= |b|
    ensures b[..n][from..to] == b[from..to]
  {
  }

  lemma DecodePrefix(b: bytes, n: nat, blockSize: uint32)
    requires n <= |b| && blockSize > 0 && Sizeable(b[..n]) && Size(b[..n], blockSize) <= n
    ensures Sizeable(b) && Size(b, blockSize) == Size(b[..n], blockSize)
    ensures Decode(b[..n], blockSize) == Decode(b, blockSize)
  {
    SizePrefix(b, n, blockSize);
    BodyPrefix(b, n, blockSize);
  }

  lemma BodyPrefix(b: bytes, n: nat, blockSize: uint32)
    requires n <= |b| && blockSize > 0 && Sizeable(b[..n]) && Size(b[..n], blockSize) <= n
    requires Sizeable(b) && Size(b, blockSize) == Size(b[..n], blockSize)
    ensures ReadBody(b[..n], blockSize) == ReadBody(b, blockSize)
  {
    var kind := Le16(b, 0);
    if kind == FILE || kind == LONG_FILE {
      FilePrefix(b, n, blockSize);
    } else if kind == SYMLINK {
      SlicePrefix(b, n, 24, 24 + Le32(b, 20));
    }
  }

  lemma FilePrefix(b: bytes, n: nat, blockSize: uint32)
    requires n <= |b| && blockSize > 0 && Sizeable(b[..n]) && Size(b[..n], blockSize) <= n
    requires Sizeable(b) && Size(b, blockSize) == Size(b[..n], blockSize)
    requires Le16(b, 0) == FILE || Le16(b, 0) == LONG_FILE
    ensures ReadBody(b[..n], blockSize) == ReadBody(b, blockSize)
  {
    SizesPrefix(b, n, if Le16(b, 0) == FILE then 32 else 56, BlockCount(b, blockSize));
  }

  // read_inode_metadata.
  method ReadInodeMetadata(d: Disk, pos: nat, offset: uint16, size: nat, memory: bool) returns (r: Result<bytes>)
    ensures match Metadata.BlockAt(d, pos, Metadata.Strict)
            case Err(e) => r == Err(e) || (!memory && r == Err(NoMemory))
            case Ok(b) =>
              || r == (if offset + size > |b.data| then Err(BadInode) else Ok(b.data[offset..offset + size]))
              || (!memory && r == Err(NoMemory))
  {
    var block := Metadata.ReadStrict(d, pos, memory);
    if block.Err? {
      return block;
    }
    if offset + size > |block.value| {
      return Err(BadInode);
    }
    return Ok(block.value[offset..offset + size]);
  }

  // struct sqfs_inode, filled in place by the parsers. The block sizes are an array of their own.
  class Inode {
    var header: Header
    var links: uint32
    var body: Body
    var blockSizes: array<uint32>

    constructor ()
      ensures fresh(blockSizes)
    {
      header, links, body := Header(0, 0, 0, 0, 0, 0), 0, Ipc(0);
      blockSizes := new uint32[0];
    }

    // The body with the file's block sizes in it.
    ghost function BodyValue(): Body
      reads this`body, this`blockSizes, blockSizes
    {
      if body.Regular? then body.(file := body.file.(blockSizes := blockSizes[..])) else body
    }

    ghost function Contents(): Value
      reads this, blockSizes
    {
      Value(header, links, BodyValue())
    }

    method ReadSizes(data: bytes, from: nat, count: uint32)
      requires from + 4 * count <= |data|
      modifies this`blockSizes
      ensures fresh(blockSizes) && blockSizes[..] == Sizes(data, from, count)
    {
      blockSizes := new uint32[count];
      var i: nat := 0;
      while i < count
        invariant i <= count && blockSizes.Length == count && fresh(blockSizes)
        invariant forall k :: 0 <= k < i ==> blockSizes[k] == Le32(data, from + 4 * k)
      {
        blockSizes[i] := Le32(data, from + 4 * i);
        i := i + 1;
      }
    }

    // inode->xattr_idx = x, which on a little-endian machine sets the low 32 bits of the union's
    // first member.
    method StoreXattr(x: uint32)
      requires body.Symlink? ==> |body.target| < WORD_32
      modifies this`body
      ensures old(body).Directory? ==> body == old(body).(block := WithLow(old(body).block, x))
      ensures old(body).Device? ==> body == old(body).(major := x)
      ensures old(body).Ipc? ==> body == Ipc(x)
      ensures old(body).Symlink? ==> body == LostLink(|old(body).target|, x)
      ensures old(body).LostLink? ==> body == old(body).(low := x)
      ensures old(body).Regular? ==> body == old(body)
    {
      match body
      case Directory(block, _, _, _, _) => body := body.(block := WithLow(block, x));
      case Device(_, _) => body := body.(major := x);
      case Ipc(_) => body := Ipc(x);
      case Symlink(target) => body := LostLink(|target|, x);
      case LostLink(_, _) => body := body.(low := x);
      case Regular(_, _, _) =>
    }

    // Whether the inode has the links and the body that the bytes of an inode stand for.
    ghost predicate Parsed(data: bytes, blockSize: uint32)
      requires Sizeable(data) && blockSize > 0 && Size(data, blockSize) <= |data|
      reads this`links, this`body, this`blockSizes, blockSizes
    {
      links == ReadLinks(data) && BodyValue() == ReadBody(data, blockSize)
    }

    // parse_inode_dir and parse_inode_ldir.
    method ParseDirectory(data: bytes, ghost blockSize: uint32)
      requires Sizeable(data) && blockSize > 0 && Size(data, blockSize) <= |data| && Le16(data, 0) == DIRECTORY
      modifies this`links, this`body
      ensures Parsed(data, blockSize)
    {
      var stored := Le16(data, 24);
      var size := if stored >= 3 then stored - 3 else stored;
      links := Le32(data, 20);
      body := Directory(Le32(data, 16), size, Le16(data, 26), Le32(data, 28), 0);
    }

    method ParseLongDirectory(data: bytes, ghost blockSize: uint32)
      requires Sizeable(data) && blockSize > 0 && Size(data, blockSize) <= |data| && Le16(data, 0) == LONG_DIRECTORY
      modifies this`links, this`body
      ensures Parsed(data, blockSize)
    {
      LowOfWord(Le32(data, 24), Le32(data, 36));
      links := Le32(data, 16);
      body := Directory(Le32(data, 24), Le32(data, 20), Le16(data, 34), Le32(data, 28), Le16(data, 32));
      StoreXattr(Le32(data, 36));
    }

    // The parsers below return bytes_consumed, from the fields they read. The program reads every field
    // before it compares that with the size of its data; here fields behind the data are not read.

    // parse_inode_file and parse_inode_lfile; `available` is the outcome of allocating the block sizes.
    method ParseFile(data: bytes, blockSize: uint32, available: bool) returns (r: Result<nat>)
      requires Sizeable(data) && blockSize > 0 && Le16(data, 0) == FILE
      modifies this`links, this`body, this`blockSizes
      ensures fresh(blockSizes) || blockSizes == old(blockSizes)
      ensures if r.Ok? then r.value == Size(data, blockSize) else r.error == NoMemory && !available
      ensures r.Ok? && r.value <= |data| ==> Parsed(data, blockSize)
    {
      var size, fragment := Le32(data, 28), Le32(data, 20);
      links := 1;
      body := Regular(FileLayout.File(size, Le32(data, 16), fragment, Le32(data, 24), []), 0, NO_XATTR);
      var count := FileLayout.CalcBlockCount(size, blockSize, fragment != FileLayout.NO_FRAGMENT);
      if count > 0 && !available {
        return Err(NoMemory);
      }
      var consumed := HEADER_SIZE + 16 + 4 * (count as nat);
      if consumed <= |data| {
        ReadSizes(data, HEADER_SIZE + 16, count);
      }
      return Ok(consumed);
    }

    method ParseLongFile(data: bytes, blockSize: uint32, available: bool) returns (r: Result<nat>)
      requires Sizeable(data) && blockSize > 0 && Le16(data, 0) == LONG_FILE
      modifies this`links, this`body, this`blockSizes
      ensures fresh(blockSizes) || blockSizes == old(blockSizes)
      ensures if r.Ok? then r.value == Size(data, blockSize) else r.error == NoMemory && !available
      ensures r.Ok? && r.value <= |data| ==> Parsed(data, blockSize)
    {
      var size, fragment := Le64(data, 24), Le32(data, 44);
      links := Le32(data, 40);
      body := Regular(FileLayout.File(size, Le64(data, 16), fragment, Le32(data, 48), []),
        Le64(data, 32), Le32(data, 52));
      var count := FileLayout.CalcBlockCount(size, blockSize, fragment != FileLayout.NO_FRAGMENT);
      if count > 0 && !available {
        return Err(NoMemory);
      }
      var consumed := HEADER_SIZE + 40 + 4 * (count as nat);
      if consumed <= |data| {
        ReadSizes(data, HEADER_SIZE + 40, count);
      }
      return Ok(consumed);
    }

    // parse_inode_symlink and parse_inode_lsymlink.
    method ParseSymlink(data: bytes, ghost blockSize: uint32, available: bool) returns (r: Result<nat>)
      requires Sizeable(data) && blockSize > 0
      requires Le16(data, 0) == SYMLINK || Le16(data, 0) == LONG_SYMLINK
      modifies this`links, this`body
      ensures if r.Ok? then r.value == Size(data, blockSize) else r.error == NoMemory && !available
      ensures r.Ok? && r.value <= |data| ==> Parsed(data, blockSize)
    {
      links := Le32(data, 16);
      var size: nat := Le32(data, 20);
      if !available {
        return Err(NoMemory);
      }
      var consumed := HEADER_SIZE + 8 + size + if Le16(data, 0) == LONG_SYMLINK then 4 else 0;
      if consumed <= |data| {
        body := Symlink(data[24..24 + size]);
        if Le16(data, 0) == LONG_SYMLINK {
          StoreXattr(Le32(data, 24 + size));
        }
      }
      return Ok(consumed);
    }

    // parse_inode_dev.
    method ParseDevice(data: bytes, ghost blockSize: uint32, long: bool) returns (consumed: nat)
      requires Sizeable(data) && blockSize > 0
      requires IsDevice(Le16(data, 0)) && long == IsLong(Le16(data, 0))
      modifies this`links, this`body
      ensures consumed == Size(data, blockSize) && (consumed <= |data| ==> Parsed(data, blockSize))
    {
      consumed := HEADER_SIZE + if long then 12 else 8;
      if consumed <= |data| {
        links := Le32(data, 16);
        body := Device(Major(Le32(data, 20)), Minor(Le32(data, 20)));
        StoreXattr(if long then Le32(data, 24) else NO_XATTR);
      }
    }

    // parse_inode_ipc.
    method ParseIpc(data: bytes, ghost blockSize: uint32, long: bool) returns (consumed: nat)
      requires Sizeable(data) && blockSize > 0
      requires Le16(data, 0) in {6, 7, 13, 14} && long == IsLong(Le16(data, 0))
      modifies this`links, this`body
      ensures consumed == Size(data, blockSize) && (consumed <= |data| ==> Parsed(data, blockSize))
    {
      consumed := HEADER_SIZE + if long then 8 else 4;
      if consumed <= |data| {
        links := Le32(data, 16);
        body := Ipc(NO_XATTR);
        StoreXattr(if long then Le32(data, 20) else NO_XATTR);
      }
    }

    // The switch of parse_inode. Directories do not tell what they consume; their size is fixed.
    method ParseBody(data: bytes, blockSize: uint32, available: bool) returns (r: Result<nat>)
      requires Sizeable(data) && blockSize > 0
      modifies this`links, this`body, this`blockSizes
      ensures fresh(blockSizes) || blockSizes == old(blockSizes)
      ensures r.Ok? ==> r.value == Size(data, blockSize) || (r.value == 0 && Size(data, blockSize) <= |data|)
      ensures r.Ok? && r.value <= |data| ==> Parsed(data, blockSize)
      ensures r.Err? ==> (r.error == NoMemory && !available) || (r.error == BadInode && Size(data, blockSize) > |data|)
    {
      var kind := Le16(data, 0);
      if kind == DIRECTORY {
        if |data| < 32 {
          return Err(BadInode);
        }
        ParseDirectory(data, blockSize);
        r := Ok(0);
      } else if kind == LONG_DIRECTORY {
        if |data| < 40 {
          return Err(BadInode);
        }
        ParseLongDirectory(data, blockSize);
        r := Ok(0);
      } else if kind == FILE {
        r := ParseFile(data, blockSize, available);
      } else if kind == LONG_FILE {
        r := ParseLongFile(data, blockSize, available);
      } else if kind == SYMLINK || kind == LONG_SYMLINK {
        r := ParseSymlink(data, blockSize, available);
      } else if IsDevice(kind) {
        var consumed := ParseDevice(data, blockSize, IsLong(kind));
        r := Ok(consumed);
      } else {
        var consumed := ParseIpc(data, blockSize, IsLong(kind));
        r := Ok(consumed);
      }
    }

    // parse_inode. The caller has read at least the part of the inode that tells its size.
    method Parse(data: bytes, blockSize: uint32, available: bool) returns (r: Result<()>)
      requires blockSize > 0
      requires |data| >= HEADER_SIZE && ValidKind(Le16(data, 0)) ==> |data| >= SizingPrefix(Le16(data, 0))
      modifies this
      ensures fresh(blockSizes) || blockSizes == old(blockSizes)
      ensures
        || (!available && r == Err(NoMemory))
        || if !Sizeable(data) || Size(data, blockSize) > |data| then r == Err(BadInode)
           else r.Ok? && Contents() == Decode(data, blockSize)
    {
      if |data| < HEADER_SIZE {
        return Err(BadInode);
      }
      if !ValidKind(Le16(data, 0)) {
        return Err(BadInode);
      }
      var consumed := ParseBody(data, blockSize, available);
      if consumed.Err? {
        return Err(consumed.error);
      }
      if consumed.value > 0 && consumed.value > |data| {
        return Err(BadInode);
      }
      header := ReadHeader(data);
      r := Ok(());
    }
  }

  // The switch of sqfs_inode_get_by_ref over what has been read of an inode. It does not depend on the
  // parsers, and yields the number of bytes that they consume.
  method SizeOf(b: bytes, blockSize: uint32) returns (n: nat)
    requires Sizeable(b) && blockSize > 0
    ensures n == Size(b, blockSize)
  {
    var kind := Le16(b, 0);
    if kind == DIRECTORY {
      n := 32;
    } else if kind == LONG_DIRECTORY {
      n := 40;
    } else if kind == FILE {
      var fileSize, fragment := Le32(b, 28), Le32(b, 20);
      var count := FileLayout.CalcBlockCount(fileSize, blockSize, fragment != FileLayout.NO_FRAGMENT);
      n := HEADER_SIZE + 16 + 4 * (count as nat);
    } else if kind == LONG_FILE {
      var fileSize, fragment := Le64(b, 24), Le32(b, 44);
      var count := FileLayout.CalcBlockCount(fileSize, blockSize, fragment != FileLayout.NO_FRAGMENT);
      n := HEADER_SIZE + 40 + 4 * (count as nat);
    } else if kind == SYMLINK {
      n := HEADER_SIZE + 8 + Le32(b, 20) as nat;
    } else if kind == LONG_SYMLINK {
      n := HEADER_SIZE + 8 + Le32(b, 20) as nat + 4;
    } else if kind == 4 || kind == 5 {
      n := 24;
    } else if kind == 11 || kind == 12 {
      n := 28;
    } else if kind == 6 || kind == 7 {
      n := 20;
    } else {
      n := 24;
    }
  }

  // The first part of sqfs_inode_get_by_ref: the inode's size, from one or two partial reads.
  method ComputeSize(d: Disk, pos: nat, offset: uint16, blockSize: uint32, memory: bool) returns (r: Result<nat>)
    requires blockSize > 0
    ensures match Metadata.BlockAt(d, pos, Metadata.Strict)
            case Err(e) => r == Err(e) || (!memory && r == Err(NoMemory))
            case Ok(b) =>
              || r == (if offset <= |b.data| && Sizeable(b.data[offset..])
                         then Ok(Size(b.data[offset..], blockSize))
                         else Err(BadInode))
              || (!memory && r == Err(NoMemory))
  {
    var start := ReadInodeMetadata(d, pos, offset, HEADER_SIZE, memory);
    if start.Err? {
      return Err(start.error);
    }
    var kind := Le16(start.value, 0);
    if !ValidKind(kind) {
      return Err(BadInode);
    }
    ghost var inode := Metadata.BlockAt(d, pos, Metadata.Strict).value.data[offset..];
    var prefix := SizingPrefix(kind);
    if prefix > HEADER_SIZE {
      start := ReadInodeMetadata(d, pos, offset, prefix, memory);
      if start.Err? {
        return Err(start.error);
      }
    }
    assert start.value == inode[..prefix];
    SizePrefix(inode, prefix, blockSize);
    var size := SizeOf(start.value, blockSize);
    return Ok(size);
  }

  // sqfs_inode_get_by_ref; the reference is split into the position of the block and the offset in it.
  method GetByRef(d: Disk, pos: nat, offset: uint16, blockSize: uint32, memory: bool) returns (r: Result<Inode>)
    requires blockSize > 0
    ensures r.Ok? ==>
      fresh(r.value) && fresh(r.value.blockSizes) && Load(d, pos, offset, blockSize) == Ok(r.value.Contents())
    ensures r.Err? ==> Load(d, pos, offset, blockSize) == Err(r.error) || (!memory && r.error == NoMemory)
  {
    var size := ComputeSize(d, pos, offset, blockSize, memory);
    if size.Err? {
      return Err(size.error);
    }
    var wanted := if size.value > MAX_INODE_SIZE then MAX_INODE_SIZE else size.value;
    var raw := ReadInodeMetadata(d, pos, offset, wanted, memory);
    if raw.Err? {
      return Err(raw.error);
    }
    var available: bool := *;
    if !memory && !available {
      return Err(NoMemory);
    }
    ghost var inode := Metadata.BlockAt(d, pos, Metadata.Strict).value.data[offset..];
    assert raw.value == inode[..|raw.value|];
    var loaded := new Inode();
    SizePrefix(inode, |raw.value|, blockSize);
    var done := loaded.Parse(raw.value, blockSize, memory || available);
    if done.Err? {
      return Err(done.error);
    }
    DecodePrefix(inode, |raw.value|, blockSize);
    return Ok(loaded);
  }

  // The stored forms. Directory sizes are stored with 3 added.
  function EncodeHeader(h: Header): (b: bytes)
    ensures |b| == HEADER_SIZE
  {
    ToLe16(h.kind) + ToLe16(h.permissions) + ToLe16(h.uid) + ToLe16(h.gid) + ToLe32(h.mtime) + ToLe32(h.number)
  }

  function EncodeSizes(s: seq<uint32>): (b: bytes)
    ensures |b| == 4 * |s|
  {
    if s == [] then [] else ToLe32(s[0]) + EncodeSizes(s[1..])
  }

  // The block sizes are as many as the size of the file asks for.
  predicate Counted(f: FileLayout.File, blockSize: uint32)
    requires blockSize > 0
  {
    |f.blockSizes| == FileLayout.CalcBlockCount(f.size, blockSize, f.fragment != FileLayout.NO_FRAGMENT)
  }

  // The inodes whose stored form keeps every field.
  predicate Storable(v: Value, blockSize: uint32)
    requires blockSize > 0
  {
    match v.body
    case Directory(block, bytes, _, parent, indexCount) =>
      v.header.kind == DIRECTORY && block < WORD_32 && bytes + 3 < WORD_16 && parent < WORD_32 && indexCount == 0
    case Regular(f, sparse, xattr) =>
      && Counted(f, blockSize)
      && (v.header.kind == LONG_FILE
          || (v.header.kind == FILE && f.size < WORD_32 && f.start < WORD_32 && sparse == 0
              && xattr == NO_XATTR && v.links == 1))
    case Symlink(target) => v.header.kind == SYMLINK && |target| < WORD_32
    case Device(_, _) => false
    case LostLink(_, _) => false
    case Ipc(xattr) => v.header.kind in {13, 14} || (v.header.kind in {6, 7} && xattr == NO_XATTR)
  }

  function EncodeFile(f: FileLayout.File): bytes
    requires f.size < WORD_32 && f.start < WORD_32
  {
    ToLe32(f.start) + ToLe32(f.fragment) + ToLe32(f.fragmentOffset) + ToLe32(f.size) + EncodeSizes(f.blockSizes)
  }

  function EncodeLongFile(f: FileLayout.File, sparse: uint64, links: uint32, xattr: uint32): bytes {
    ToLe64(f.start) + ToLe64(f.size) + ToLe64(sparse) + ToLe32(links)
    + ToLe32(f.fragment) + ToLe32(f.fragmentOffset) + ToLe32(xattr) + EncodeSizes(f.blockSizes)
  }

  function EncodeDirectory(block: uint32, links: uint32, size: nat, offset: uint16, parent: uint32): bytes
    requires size + 3 < WORD_16
  {
    ToLe32(block) + ToLe32(links) + ToLe16(size + 3) + ToLe16(offset) + ToLe32(parent)
  }

  function EncodeSymlink(links: uint32, target: bytes): bytes
    requires |target| < WORD_32
  {
    ToLe32(links) + ToLe32(|target|) + target
  }

  function EncodeIpc(links: uint32, long: bool, xattr: uint32): bytes {
    ToLe32(links) + if long then ToLe32(xattr) else []
  }

  function EncodeBody(v: Value, blockSize: uint32): bytes
    requires blockSize > 0 && Storable(v, blockSize)
  {
    match v.body
    case Directory(block, size, offset, parent, _) => EncodeDirectory(block, v.links, size, offset, parent)
    case Regular(f, sparse, xattr) =>
      if v.header.kind == FILE then EncodeFile(f) else EncodeLongFile(f, sparse, v.links, xattr)
    case Symlink(target) => EncodeSymlink(v.links, target)
    case Ipc(xattr) => EncodeIpc(v.links, IsLong(v.header.kind), xattr)
  }

  function Encode(v: Value, blockSize: uint32): bytes
    requires blockSize > 0 && Storable(v, blockSize)
  {
    EncodeHeader(v.header) + EncodeBody(v, blockSize)
  }

  lemma {:induction false} SizesRoundTrip(b: bytes, from: nat, s: seq<uint32>)
    requires PartAt(b, from, EncodeSizes(s))
    ensures Sizes(b, from, |s|) == s
    decreases |s|
  {
    if s != [] {
      PartsOf(b, from, ToLe32(s[0]), EncodeSizes(s[1..]));
      WideFieldIs(b, from, ToLe32(s[0]));
      SizesRoundTrip(b, from + 4, s[1..]);
      forall i | 0 <= i < |s|
        ensures Sizes(b, from, |s|)[i] == s[i]
      {
        if i > 0 {
          assert Sizes(b, from + 4, |s| - 1)[i - 1] == Le32(b, from + 4 + 4 * (i - 1));
        }
      }
    }
  }

  lemma HeaderRoundTrip(b: bytes, h: Header)
    requires PartAt(b, 0, EncodeHeader(h))
    ensures ReadHeader(b) == h
  {
    var e := EncodeHeader(h);
    assert e == b[0..16];
    assert b[0..2] == e[0..2] == ToLe16(h.kind) && b[2..4] == e[2..4] == ToLe16(h.permissions);
    assert b[4..6] == e[4..6] == ToLe16(h.uid) && b[6..8] == e[6..8] == ToLe16(h.gid);
    assert b[8..12] == e[8..12] == ToLe32(h.mtime) && b[12..16] == e[12..16] == ToLe32(h.number);
    FieldIs(b, 0, ToLe16(h.kind));
    FieldIs(b, 2, ToLe16(h.permissions));
    FieldIs(b, 4, ToLe16(h.uid));
    FieldIs(b, 6, ToLe16(h.gid));
    WideFieldIs(b, 8, ToLe32(h.mtime));
    WideFieldIs(b, 12, ToLe32(h.number));
  }

  lemma WideFieldAt(b: bytes, p: nat, n: uint32)
    requires PartAt(b, p, ToLe32(n))
    ensures Le32(b, p) == n
  {
    WideFieldIs(b, p, ToLe32(n));
  }

  lemma LongFieldAt(b: bytes, p: nat, n: uint64)
    requires PartAt(b, p, ToLe64(n))
    ensures Le64(b, p) == n
  {
    LongFieldIs(b, p, ToLe64(n));
  }

  lemma FieldAt(b: bytes, p: nat, n: uint16)
    requires PartAt(b, p, ToLe16(n))
    ensures Le16(b, p) == n
  {
    FieldIs(b, p, ToLe16(n));
  }

  predicate HasHeader(b: bytes, h: Header) { |b| >= HEADER_SIZE && ReadHeader(b) == h }

  lemma FileFields(b: bytes, f: FileLayout.File)
    requires f.size < WORD_32 && f.start < WORD_32 && PartAt(b, 16, EncodeFile(f))
    ensures Le32(b, 16) == f.start && Le32(b, 20) == f.fragment
    ensures Le32(b, 24) == f.fragmentOffset && Le32(b, 28) == f.size
    ensures Sizes(b, 32, |f.blockSizes|) == f.blockSizes
  {
    var x, y, z, w := ToLe32(f.start), ToLe32(f.fragment), ToLe32(f.fragmentOffset), ToLe32(f.size);
    PartsOf(b, 16, x + y + z + w, EncodeSizes(f.blockSizes));
    PartsOf(b, 16, x + y + z, w);
    PartsOf(b, 16, x + y, z);
    PartsOf(b, 16, x, y);
    WideFieldAt(b, 16, f.start);
    WideFieldAt(b, 20, f.fragment);
    WideFieldAt(b, 24, f.fragmentOffset);
    WideFieldAt(b, 28, f.size);
    SizesRoundTrip(b, 32, f.blockSizes);
  }

  lemma FileRoundTrip(b: bytes, v: Value, blockSize: uint32)
    requires blockSize > 0 && Storable(v, blockSize) && v.header.kind == FILE
    requires HasHeader(b, v.header) && PartAt(b, 16, EncodeFile(v.body.file))
    ensures Sizeable(b) && Size(b, blockSize) == 16 + |EncodeFile(v.body.file)| && Decode(b, blockSize) == v
  {
    FileFields(b, v.body.file);
  }

  lemma LongFileFields(b: bytes, f: FileLayout.File, sparse: uint64, links: uint32, xattr: uint32)
    requires PartAt(b, 16, EncodeLongFile(f, sparse, links, xattr))
    ensures Le64(b, 16) == f.start && Le64(b, 24) == f.size && Le64(b, 32) == sparse && Le32(b, 40) == links
    ensures Le32(b, 44) == f.fragment && Le32(b, 48) == f.fragmentOffset && Le32(b, 52) == xattr
    ensures Sizes(b, 56, |f.blockSizes|) == f.blockSizes
  {
    var x, y, z := ToLe64(f.start), ToLe64(f.size), ToLe64(sparse);
    var p, q, r, t := ToLe32(links), ToLe32(f.fragment), ToLe32(f.fragmentOffset), ToLe32(xattr);
    PartsOf(b, 16, x + y + z + p + q + r + t, EncodeSizes(f.blockSizes));
    PartsOf(b, 16, x + y + z + p + q + r, t);
    PartsOf(b, 16, x + y + z + p + q, r);
    PartsOf(b, 16, x + y + z + p, q);
    PartsOf(b, 16, x + y + z, p);
    PartsOf(b, 16, x + y, z);
    PartsOf(b, 16, x, y);
    LongFieldAt(b, 16, f.start);
    LongFieldAt(b, 24, f.size);
    LongFieldAt(b, 32, sparse);
    WideFieldAt(b, 40, links);
    WideFieldAt(b, 44, f.fragment);
    WideFieldAt(b, 48, f.fragmentOffset);
    WideFieldAt(b, 52, xattr);
    SizesRoundTrip(b, 56, f.blockSizes);
  }

  lemma LongFileRoundTrip(b: bytes, v: Value, blockSize: uint32)
    requires blockSize > 0 && Storable(v, blockSize) && v.header.kind == LONG_FILE
    requires HasHeader(b, v.header) && PartAt(b, 16, EncodeBody(v, blockSize))
    ensures Sizeable(b) && Size(b, blockSize) == 16 + |EncodeBody(v, blockSize)| && Decode(b, blockSize) == v
  {
    LongFileFields(b, v.body.file, v.body.sparse, v.links, v.body.xattr);
  }

  lemma DirectoryRoundTrip(b: bytes, v: Value, blockSize: uint32)
    requires blockSize > 0 && Storable(v, blockSize) && v.header.kind == DIRECTORY
    requires HasHeader(b, v.header) && PartAt(b, 16, EncodeBody(v, blockSize))
    ensures Sizeable(b) && Size(b, blockSize) == 16 + |EncodeBody(v, blockSize)| && Decode(b, blockSize) == v
  {
    var x, y, z := ToLe32(v.body.block), ToLe32(v.links), ToLe16(v.body.bytes + 3);
    var w, t := ToLe16(v.body.offset), ToLe32(v.body.parent);
    PartsOf(b, 16, x + y + z + w, t);
    PartsOf(b, 16, x + y + z, w);
    PartsOf(b, 16, x + y, z);
    PartsOf(b, 16, x, y);
    WideFieldAt(b, 16, v.body.block);
    WideFieldAt(b, 20, v.links);
    FieldAt(b, 24, v.body.bytes + 3);
    FieldAt(b, 26, v.body.offset);
    WideFieldAt(b, 28, v.body.parent);
  }

  lemma SymlinkRoundTrip(b: bytes, v: Value, blockSize: uint32)
    requires blockSize > 0 && Storable(v, blockSize) && v.header.kind == SYMLINK
    requires HasHeader(b, v.header) && PartAt(b, 16, EncodeBody(v, blockSize))
    ensures Sizeable(b) && Size(b, blockSize) == 16 + |EncodeBody(v, blockSize)| && Decode(b, blockSize) == v
  {
    var x, y := ToLe32(v.links), ToLe32(|v.body.target|);
    PartsOf(b, 16, x + y, v.body.target);
    PartsOf(b, 16, x, y);
    WideFieldAt(b, 16, v.links);
    WideFieldAt(b, 20, |v.body.target|);
  }

  lemma IpcRoundTrip(b: bytes, v: Value, blockSize: uint32)
    requires blockSize > 0 && Storable(v, blockSize) && v.body.Ipc?
    requires HasHeader(b, v.header) && PartAt(b, 16, EncodeBody(v, blockSize))
    ensures Sizeable(b) && Size(b, blockSize) == 16 + |EncodeBody(v, blockSize)| && Decode(b, blockSize) == v
  {
    var x, y := ToLe32(v.links), if IsLong(v.header.kind) then ToLe32(v.body.xattr) else [];
    PartsOf(b, 16, x, y);
    WideFieldAt(b, 16, v.links);
    if IsLong(v.header.kind) {
      WideFieldAt(b, 20, v.body.xattr);
    }
  }

  // A stored inode is sized exactly, from its first bytes, and read back field by field.
  lemma InodeRoundTrip(b: bytes, v: Value, blockSize: uint32)
    requires blockSize > 0 && Storable(v, blockSize) && PartAt(b, 0, Encode(v, blockSize))
    ensures Sizeable(b) && Size(b, blockSize) == |Encode(v, blockSize)| && Decode(b, blockSize) == v
  {
    PartsOf(b, 0, EncodeHeader(v.header), EncodeBody(v, blockSize));
    HeaderRoundTrip(b, v.header);
    match v.body
    case Directory(_, _, _, _, _) => DirectoryRoundTrip(b, v, blockSize);
    case Regular(_, _, _) =>
      if v.header.kind == FILE {
        FileRoundTrip(b, v, blockSize);
      } else {
        LongFileRoundTrip(b, v, blockSize);
      }
    case Symlink(_) => SymlinkRoundTrip(b, v, blockSize);
    case Ipc(_) => IpcRoundTrip(b, v, blockSize);
  }

  // The kinds that do not come back as they were stored: their sizes are exact as well, and this is
  // what is left of them.
  function EncodeDevice(links: uint32, device: uint32, long: bool, xattr: uint32): bytes {
    ToLe32(links) + ToLe32(device) + if long then ToLe32(xattr) else []
  }

  lemma DeviceStored(b: bytes, h: Header, links: uint32, device: uint32, xattr: uint32, blockSize: uint32)
    requires blockSize > 0 && IsDevice(h.kind) && HasHeader(b, h)
    requires PartAt(b, 16, EncodeDevice(links, device, IsLong(h.kind), xattr))
    ensures Sizeable(b) && Size(b, blockSize) == 16 + |EncodeDevice(links, device, IsLong(h.kind), xattr)|
    ensures Decode(b, blockSize) == Value(h, links, Device(if IsLong(h.kind) then xattr else NO_XATTR, Minor(device)))
  {
    var x, y := ToLe32(links), ToLe32(device);
    var z := if IsLong(h.kind) then ToLe32(xattr) else [];
    PartsOf(b, 16, x + y, z);
    PartsOf(b, 16, x, y);
    WideFieldAt(b, 16, links);
    WideFieldAt(b, 20, device);
    if IsLong(h.kind) {
      WideFieldAt(b, 24, xattr);
    }
  }

  function EncodeLongSymlink(links: uint32, target: bytes, xattr: uint32): bytes
    requires |target| < WORD_32
  {
    ToLe32(links) + ToLe32(|target|) + target + ToLe32(xattr)
  }

  lemma LongSymlinkStored(b: bytes, h: Header, links: uint32, target: bytes, xattr: uint32, blockSize: uint32)
    requires blockSize > 0 && h.kind == LONG_SYMLINK && HasHeader(b, h) && |target| < WORD_32
    requires PartAt(b, 16, EncodeLongSymlink(links, target, xattr))
    ensures Sizeable(b) && Size(b, blockSize) == 16 + |EncodeLongSymlink(links, target, xattr)|
    ensures Decode(b, blockSize) == Value(h, links, LostLink(|target|, xattr))
  {
    var x, y := ToLe32(links), ToLe32(|target|);
    PartsOf(b, 16, x + y + target, ToLe32(xattr));
    PartsOf(b, 16, x + y, target);
    PartsOf(b, 16, x, y);
    WideFieldAt(b, 16, links);
    WideFieldAt(b, 20, |target|);
    WideFieldAt(b, 24 + |target|, xattr);
  }

  function EncodeLongDirectory(links: uint32, size: uint32, block: uint32, parent: uint32, indexCount: uint16,
      offset: uint16, xattr: uint32): bytes
  {
    ToLe32(links) + ToLe32(size) + ToLe32(block) + ToLe32(parent) + ToLe16(indexCount) + ToLe16(offset) + ToLe32(xattr)
  }

  lemma LongDirectoryStored(b: bytes, h: Header, links: uint32, size: uint32, block: uint32, parent: uint32,
      indexCount: uint16, offset: uint16, xattr: uint32, blockSize: uint32)
    requires blockSize > 0 && h.kind == LONG_DIRECTORY && HasHeader(b, h)
    requires PartAt(b, 16, EncodeLongDirectory(links, size, block, parent, indexCount, offset, xattr))
    ensures Sizeable(b) && Size(b, blockSize) == 40
    ensures Decode(b, blockSize) == Value(h, links, Directory(xattr, size, offset, parent, indexCount))
  {
    var p, q, r, t := ToLe32(links), ToLe32(size), ToLe32(block), ToLe32(parent);
    var u, v := ToLe16(indexCount), ToLe16(offset);
    PartsOf(b, 16, p + q + r + t + u + v, ToLe32(xattr));
    PartsOf(b, 16, p + q + r + t + u, v);
    PartsOf(b, 16, p + q + r + t, u);
    PartsOf(b, 16, p + q + r, t);
    PartsOf(b, 16, p + q, r);
    PartsOf(b, 16, p, q);
    WideFieldAt(b, 16, links);
    WideFieldAt(b, 20, size);
    WideFieldAt(b, 24, block);
    WideFieldAt(b, 28, parent);
    FieldAt(b, 32, indexCount);
    FieldAt(b, 34, offset);
    WideFieldAt(b, 36, xattr);
  }

  // An inode stored at `offset` of a block is loaded exactly when it ends inside that block. `more` is
  // what the next blocks hold.
  lemma LoadsInsideBlock(data: bytes, more: bytes, offset: nat, v: Value, blockSize: uint32)
    requires blockSize > 0 && Storable(v, blockSize)
    requires offset <= |data| && PartAt(data + more, offset, Encode(v, blockSize))
    ensures LoadFrom(data, offset, blockSize) ==
      if offset + |Encode(v, blockSize)| <= |data| then Ok(v) else Err(BadInode)
  {
    var e, all, inside := Encode(v, blockSize), (data + more)[offset..], data[offset..];
    assert all[0..|e|] == (data + more)[offset..offset + |e|] == e;
    InodeRoundTrip(all, v, blockSize);
    assert inside == all[..|inside|];
    if Sizeable(inside) {
      SizePrefix(all, |inside|, blockSize);
      if |e| <= |inside| {
        DecodePrefix(all, |inside|, blockSize);
      }
    }
  }

  // The same for an inode in an inode table that was written in metadata blocks.
  lemma WrittenInodeLoads(d: Disk, deflate: bytes -> bytes, table: nat, chunks: seq<bytes>, i: nat, offset: uint16,
      v: Value, blockSize: uint32)
    requires blockSize > 0 && Storable(v, blockSize)
    requires Metadata.Chunks(chunks) && Metadata.LaidOut(d, deflate, table, chunks)
    requires i < |chunks| && offset <= |chunks[i]|
    requires PartAt(Metadata.Joined(chunks[i..]), offset, Encode(v, blockSize))
    ensures Load(d, table + Metadata.StoredBefore(deflate, chunks, i), offset, blockSize) ==
      if offset + |Encode(v, blockSize)| <= |chunks[i]| then Ok(v) else Err(BadInode)
  {
    InodeInChunk(d, deflate, table, chunks, i, table + Metadata.StoredBefore(deflate, chunks, i), offset, v, blockSize);
  }

  lemma InodeInChunk(d: Disk, deflate: bytes -> bytes, table: nat, chunks: seq<bytes>, i: nat, block: nat,
      offset: uint16, v: Value, blockSize: uint32)
    requires blockSize > 0 && Storable(v, blockSize)
    requires Metadata.Chunks(chunks) && Metadata.LaidOut(d, deflate, table, chunks)
    requires i < |chunks| && offset <= |chunks[i]| && block == table + Metadata.StoredBefore(deflate, chunks, i)
    requires PartAt(Metadata.Joined(chunks[i..]), offset, Encode(v, blockSize))
    ensures Load(d, block, offset, blockSize) ==
      if offset + |Encode(v, blockSize)| <= |chunks[i]| then Ok(v) else Err(BadInode)
  {
    var rest := Metadata.Joined(chunks[i..][1..]);
    assert Metadata.Joined(chunks[i..]) == chunks[i] + rest;
    Metadata.ChunkIsRead(d, deflate, table, chunks, i, block, Metadata.Strict);
    LoadsInsideBlock(chunks[i], rest, offset, v, blockSize);
  }

  // The chunks are the blocks of the inode table; chunk i is stored at `block` and has v at the offset.
  ghost predicate Inside(d: Disk, deflate: bytes -> bytes, table: nat, chunks: seq<bytes>, i: nat, block: nat,
      offset: uint16, v: Value, blockSize: uint32)
  {
    && blockSize > 0 && Storable(v, blockSize)
    && Metadata.Chunks(chunks) && Metadata.LaidOut(d, deflate, table, chunks)
    && i < |chunks| && block == table + Metadata.StoredBefore(deflate, chunks, i)
    && PartAt(chunks[i], offset, Encode(v, blockSize))
  }

  // An inode that lies inside a block of the inode table is loaded.
  lemma {:induction false} InodeInside(d: Disk, deflate: bytes -> bytes, table: nat, chunks: seq<bytes>, i: nat,
      block: nat, offset: uint16, v: Value, blockSize: uint32)
    requires Inside(d, deflate, table, chunks, i, block, offset, v, blockSize)
    ensures Load(d, block, offset, blockSize) == Ok(v)
  {
    var e, rest := Encode(v, blockSize), Metadata.Joined(chunks[i..][1..]);
    assert Metadata.Joined(chunks[i..]) == chunks[i] + rest;
    assert (chunks[i] + rest)[offset..offset + |e|] == chunks[i][offset..offset + |e|];
    InodeInChunk(d, deflate, table, chunks, i, block, offset, v, blockSize);
  }

  // The block at `pos` has the encoded inode at the offset.
  predicate InBlock(d: Disk, pos: nat, offset: uint16, h: Header, body: bytes) {
    var block := Metadata.BlockAt(d, pos, Metadata.Strict);
    && block.Ok? && offset + HEADER_SIZE + |body| <= |block.value.data|
    && block.value.data[offset..offset + HEADER_SIZE + |body|] == EncodeHeader(h) + body
  }

  lemma EncodedInBlock(d: Disk, pos: nat, offset: uint16, h: Header, body: bytes) returns (b: bytes)
    requires InBlock(d, pos, offset, h, body)
    ensures HasHeader(b, h) && PartAt(b, 16, body)
    ensures forall blockSize: uint32 :: blockSize > 0 && Sizeable(b) && Size(b, blockSize) == 16 + |body| ==>
      Load(d, pos, offset, blockSize) == Ok(Decode(b, blockSize))
  {
    var data := Metadata.BlockAt(d, pos, Metadata.Strict).value.data;
    b := data[offset..];
    assert b[0..16 + |body|] == EncodeHeader(h) + body;
    PartsOf(b, 0, EncodeHeader(h), body);
    HeaderRoundTrip(b, h);
  }

  // The first member of the union does not survive where an xattr index is stored after it. Of an
  // extended directory that is the block index;
  lemma LongDirectoryBlock(d: Disk, pos: nat, offset: uint16, blockSize: uint32, h: Header, links: uint32, size: uint32,
      block: uint32, parent: uint32, indexCount: uint16, from: uint16, xattr: uint32)
    requires blockSize > 0 && h.kind == LONG_DIRECTORY
    requires InBlock(d, pos, offset, h, EncodeLongDirectory(links, size, block, parent, indexCount, from, xattr))
    ensures var r := Load(d, pos, offset, blockSize);
      && r == Ok(Value(h, links, Directory(xattr, size, from, parent, indexCount)))
      && (r.value.body.block == block <==> xattr == block)
  {
    var body := EncodeLongDirectory(links, size, block, parent, indexCount, from, xattr);
    var b := EncodedInBlock(d, pos, offset, h, body);
    LongDirectoryStored(b, h, links, size, block, parent, indexCount, from, xattr, blockSize);
  }

  // of a device, the major number, which is lost in basic devices as well;
  lemma DeviceMajor(d: Disk, pos: nat, offset: uint16, blockSize: uint32, h: Header, links: uint32, device: uint32,
      xattr: uint32)
    requires blockSize > 0 && IsDevice(h.kind)
    requires InBlock(d, pos, offset, h, EncodeDevice(links, device, IsLong(h.kind), xattr))
    ensures var r := Load(d, pos, offset, blockSize);
      && r == Ok(Value(h, links, Device(if IsLong(h.kind) then xattr else NO_XATTR, Minor(device))))
      && (r.value.body.major == Major(device) <==> IsLong(h.kind) && xattr == Major(device))
  {
    var b := EncodedInBlock(d, pos, offset, h, EncodeDevice(links, device, IsLong(h.kind), xattr));
    DeviceStored(b, h, links, device, xattr, blockSize);
  }

  // and of an extended symbolic link, the low half of the pointer to the target, wherever that was allocated.
  lemma LongSymlinkTarget(d: Disk, pos: nat, offset: uint16, blockSize: uint32, h: Header, links: uint32, target: bytes,
      xattr: uint32, pointer: uint64)
    requires blockSize > 0 && h.kind == LONG_SYMLINK && |target| < WORD_32
    requires InBlock(d, pos, offset, h, EncodeLongSymlink(links, target, xattr))
    ensures var r := Load(d, pos, offset, blockSize);
      && r == Ok(Value(h, links, LostLink(|target|, xattr)))
      && (WithLow(pointer, r.value.body.low) == pointer <==> xattr == pointer % 0x1_0000_0000)
  {
    var b := EncodedInBlock(d, pos, offset, h, EncodeLongSymlink(links, target, xattr));
    LongSymlinkStored(b, h, links, target, xattr, blockSize);
  }

  // The layout computed when a loaded file is read counts as many blocks as its inode holds sizes.
  lemma LoadedFileIsCounted(d: Disk, pos: nat, offset: uint16, blockSize: uint32)
    requires blockSize > 0 && Load(d, pos, offset, blockSize).Ok? && Load(d, pos, offset, blockSize).value.body.Regular?
    ensures Counted(Load(d, pos, offset, blockSize).value.body.file, blockSize)
  {
  }
}
