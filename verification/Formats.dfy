/** The structures of the disk format, field by field from their bytes. */
module Formats {
  import opened Words
  import opened Bytes
  import opened Disk
  import opened FileLayout
  import FragmentTables
  import FileContents
  import Directory
  import Inodes
  import Xattr
  import Paths

  // Two, four and eight bytes as a number, the first byte the lowest.
  function Two(b: bytes, p: nat): (n: uint16)
    requires p + 2 <= |b|
    ensures n == Le16(b, p)
  {
    b[p] as int + 256 * b[p + 1] as int
  }

  function Four(b: bytes, p: nat): (n: uint32)
    requires p + 4 <= |b|
    ensures n == Le32(b, p)
  {
    b[p] as int + 256 * b[p + 1] as int + 65536 * b[p + 2] as int + 16777216 * b[p + 3] as int
  }

  function Eight(b: bytes, p: nat): (n: uint64)
    requires p + 8 <= |b|
    ensures n == Le64(b, p)
  {
    Four(b, p) + 4294967296 * Four(b, p + 4)
  }

  // The 16 bytes that every inode begins with.
  function HeaderBytes(b: bytes): Inodes.Header
    requires |b| >= 16
  {
    Inodes.Header(Two(b, 0), Two(b, 2), Two(b, 4), Two(b, 6), Four(b, 8), Four(b, 12))
  }

  // A basic directory; its listing is three bytes shorter than stored.
  lemma DirectoryBytes(b: bytes, blockSize: uint32)
    requires blockSize > 0 && |b| >= 32 && Two(b, 0) == 1
    ensures Inodes.Sizeable(b) && Inodes.Size(b, blockSize) == 32
    ensures Inodes.Decode(b, blockSize) == Inodes.Value(HeaderBytes(b), Four(b, 20), Inodes.Directory(
      Four(b, 16), if Two(b, 24) >= 3 then Two(b, 24) - 3 else Two(b, 24), Two(b, 26), Four(b, 28), 0))
  {
  }

  // An extended directory; the xattr index is stored over the block index.
  lemma LongDirectoryBytes(b: bytes, blockSize: uint32)
    requires blockSize > 0 && |b| >= 40 && Two(b, 0) == 8
    ensures Inodes.Sizeable(b) && Inodes.Size(b, blockSize) == 40
    ensures Inodes.Decode(b, blockSize) == Inodes.Value(HeaderBytes(b), Four(b, 16), Inodes.Directory(
      Four(b, 36), Four(b, 20), Two(b, 34), Four(b, 28), Two(b, 32)))
  {
  }

  // How many block sizes follow a file's inode: one for each full block, and one for the rest if that is
  // not in a fragment; kept in 32 bits.
  function Blocks(size: uint64, fragment: uint32, blockSize: uint32): nat
    requires blockSize > 0
  {
    (size / blockSize + if fragment == 0xFFFF_FFFF && size % blockSize > 0 then 1 else 0) % 0x1_0000_0000
  }

  lemma BlocksCounted(size: uint64, fragment: uint32, blockSize: uint32)
    requires blockSize > 0
    ensures CalcBlockCount(size, blockSize, fragment != NO_FRAGMENT) == Blocks(size, fragment, blockSize)
  {
  }

  // The block sizes from p on.
  ghost predicate SizesFrom(s: seq<uint32>, b: bytes, p: nat, n: nat) {
    |s| == n && p + 4 * n <= |b| && forall i :: 0 <= i < n ==> s[i] == Four(b, p + 4 * i)
  }

  lemma FileBytes(b: bytes, blockSize: uint32)
    requires blockSize > 0 && |b| >= 32 && Two(b, 0) == 2
    requires |b| >= 32 + 4 * Blocks(Four(b, 28), Four(b, 20), blockSize)
    ensures var n := Blocks(Four(b, 28), Four(b, 20), blockSize);
      && Inodes.Sizeable(b) && Inodes.Size(b, blockSize) == 32 + 4 * n
      && var v := Inodes.Decode(b, blockSize);
      && v.header == HeaderBytes(b) && v.links == 1 && v.body.Regular? && v.body.sparse == 0
      && v.body.xattr == 0xFFFF_FFFF
      && v.body.file == File(Four(b, 28), Four(b, 16), Four(b, 20), Four(b, 24), v.body.file.blockSizes)
      && SizesFrom(v.body.file.blockSizes, b, 32, n)
  {
    BlocksCounted(Four(b, 28), Four(b, 20), blockSize);
  }

  lemma LongFileBytes(b: bytes, blockSize: uint32)
    requires blockSize > 0 && |b| >= 56 && Two(b, 0) == 9
    requires |b| >= 56 + 4 * Blocks(Eight(b, 24), Four(b, 44), blockSize)
    ensures var n := Blocks(Eight(b, 24), Four(b, 44), blockSize);
      && Inodes.Sizeable(b) && Inodes.Size(b, blockSize) == 56 + 4 * n
      && var v := Inodes.Decode(b, blockSize);
      && v.header == HeaderBytes(b) && v.links == Four(b, 40) && v.body.Regular? && v.body.sparse == Eight(b, 32)
      && v.body.xattr == Four(b, 52)
      && v.body.file == File(Eight(b, 24), Eight(b, 16), Four(b, 44), Four(b, 48), v.body.file.blockSizes)
      && SizesFrom(v.body.file.blockSizes, b, 56, n)
  {
    BlocksCounted(Eight(b, 24), Four(b, 44), blockSize);
  }

  lemma SymlinkBytes(b: bytes, blockSize: uint32)
    requires blockSize > 0 && |b| >= 24 && Two(b, 0) == 3 && |b| >= 24 + Four(b, 20)
    ensures Inodes.Sizeable(b) && Inodes.Size(b, blockSize) == 24 + Four(b, 20)
    ensures Inodes.Decode(b, blockSize) ==
      Inodes.Value(HeaderBytes(b), Four(b, 16), Inodes.Symlink(b[24..24 + Four(b, 20)]))
  {
  }

  // An extended link has its xattr index behind the target, and it overwrites the pointer.
  lemma LongSymlinkBytes(b: bytes, blockSize: uint32)
    requires blockSize > 0 && |b| >= 24 && Two(b, 0) == 10 && |b| >= 28 + Four(b, 20)
    ensures Inodes.Sizeable(b) && Inodes.Size(b, blockSize) == 28 + Four(b, 20)
    ensures Inodes.Decode(b, blockSize) ==
      Inodes.Value(HeaderBytes(b), Four(b, 16), Inodes.LostLink(Four(b, 20), Four(b, 24 + Four(b, 20))))
  {
  }

  // A device number: the low 8 bits of the minor number, 12 bits of the major one, the rest of the minor.
  function DeviceNumber(major: nat, minor: nat): nat { minor % 256 + 256 * major + 0x10_0000 * (minor / 256) }

  lemma DeviceNumberParts(major: nat, minor: nat)
    requires major < 4096 && minor < 0x10_0000
    ensures DeviceNumber(major, minor) < WORD_32
    ensures Inodes.Major(DeviceNumber(major, minor)) == major && Inodes.Minor(DeviceNumber(major, minor)) == minor
  {
    var low, high := minor % 256, minor / 256;
    var n := DeviceNumber(major, minor);
    assert n == low + 256 * (major + 4096 * high);
    assert n / 256 == major + 4096 * high && n % 256 == low;
    assert (major + 4096 * high) % 4096 == major;
    assert n / 0x10_0000 == high;
  }

  lemma DeviceBytes(b: bytes, blockSize: uint32)
    requires blockSize > 0 && |b| >= 24 && Two(b, 0) in {4, 5, 11, 12}
    requires Two(b, 0) > 7 ==> |b| >= 28
    ensures Inodes.Sizeable(b) && Inodes.Size(b, blockSize) == if Two(b, 0) > 7 then 28 else 24
    ensures Inodes.Decode(b, blockSize) == Inodes.Value(HeaderBytes(b), Four(b, 16), Inodes.Device(
      if Two(b, 0) > 7 then Four(b, 24) else 0xFFFF_FFFF, Inodes.Minor(Four(b, 20))))
  {
  }

  lemma IpcBytes(b: bytes, blockSize: uint32)
    requires blockSize > 0 && |b| >= 20 && Two(b, 0) in {6, 7, 13, 14}
    requires Two(b, 0) > 7 ==> |b| >= 24
    ensures Inodes.Sizeable(b) && Inodes.Size(b, blockSize) == if Two(b, 0) > 7 then 24 else 20
    ensures Inodes.Decode(b, blockSize) == Inodes.Value(HeaderBytes(b), Four(b, 16),
      Inodes.Ipc(if Two(b, 0) > 7 then Four(b, 20) else 0xFFFF_FFFF))
  {
  }

  // Other types, and less than a header, are no inode.
  lemma NoInode(data: bytes, offset: nat, blockSize: uint32)
    requires blockSize > 0 && offset <= |data|
    requires |data| < offset + 16 || !(1 <= Two(data, offset) <= 14)
    ensures Inodes.LoadFrom(data, offset, blockSize) == Err(BadInode)
  {
  }

  // A run's header, and a record in it: the count and the name's length are stored less one.
  lemma RunBytes(b: bytes)
    requires |b| >= 12
    ensures Directory.TakeHeader(b) ==
      Directory.Header((Four(b, 0) + 1) % 0x1_0000_0000, Four(b, 4), Four(b, 8))
  {
  }

  lemma RecordBytes(b: bytes)
    ensures |b| < 8 ==> Directory.TakeRecord(b) == None
    ensures |b| >= 8 ==>
      var n := (Two(b, 6) + 1) % 0x1_0000;
      Directory.TakeRecord(b) ==
        if |b| < 8 + n || Two(b, 4) == 0 || Two(b, 4) > 7 then None
        else Some(Directory.Record(Two(b, 0), Two(b, 2), Two(b, 4), b[8..8 + n]))
  {
  }

  // A record of the fragment table.
  lemma FragmentBytes(b: bytes, i: nat)
    requires 16 * i + 16 <= |b|
    ensures FragmentTables.Record(b, i) == FileContents.FragmentEntry(Eight(b, 16 * i), Four(b, 16 * i + 8))
  {
  }

  // A pair of an attribute's name and value.
  lemma AttributeBytes(b: bytes)
    requires |b| >= 4
    ensures var n := Two(b, 2);
      Xattr.TakeAttribute(b) ==
        if b[0] > 2 || |b| < 8 + n || |b| < 8 + n + Four(b, 4 + n) then None
        else Some(Xattr.Attribute(Two(b, 0), b[4..4 + n], b[8 + n..8 + n + Four(b, 4 + n)]))
  {
  }

  // Components are between slashes, which are bytes of the value 47: "/a//b/".
  lemma SlashesSeparate()
    ensures Paths.Components([47, 97, 47, 47, 98, 47]) == [[97], [98]]
  {
    var end: bytes, rest: bytes := [47], [47, 98, 47];
    assert end[1..] == [];
    Paths.FirstComponent([98], end);
    assert [47] + [98] + end == rest;
    Paths.FirstComponent([97], [47] + rest);
    assert ([47] + rest)[1..] == rest;
    assert [47] + [97] + ([47] + rest) == [47, 97, 47, 47, 98, 47];
  }
}
