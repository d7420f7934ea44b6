/** When the readers of single blocks and table entries succeed and how they fail, told from the image's bytes. */
module Failures {
  import opened Words
  import opened Buffers
  import opened Bytes
  import opened Disk
  import opened FileContents
  import Metadata
  import FileStorage
  import FragmentTables
  import Export
  import Xattr
  import Paths
  import Inodes

  // The library expands the bytes into a buffer of `room` bytes.
  predicate Expands(d: Disk, stored: bytes, room: nat) {
    d.inflate(stored, room).Some? && |d.inflate(stored, room).value| <= room
  }

  // A data block: the word is its stored size, and 2^24 more if it is not compressed; 0 is a hole.
  lemma DataBlockAnswers(d: Disk, pos: nat, size: nat, raw: bool, room: nat)
    requires size < 0x100_0000
    ensures DataBlock(d, pos, 0, room) == Ok(seq(room, _ => 0))
    ensures size > 0 && pos + size > |d.image| ==>
      DataBlock(d, pos, if raw then size + 0x100_0000 else size, room) == Err(Io)
    ensures pos + size <= |d.image| ==> DataBlock(d, pos, size + 0x100_0000, room) == Ok(d.image[pos..pos + size])
    ensures DataBlock(d, pos, 0x100_0000, room) == Ok([])
    ensures size > 0 && pos + size <= |d.image| ==>
      DataBlock(d, pos, size, room) ==
        if Expands(d, d.image[pos..pos + size], room) then Ok(d.inflate(d.image[pos..pos + size], room).value)
        else Err(Corrupt)
  {
    FileStorage.WordSays(size, 0, 0);
    FileStorage.WordSays(size, 1, 0);
    FileStorage.WordSays(0, 1, 0);
    if pos + size <= |d.image| && size == 0 {
      assert d.image[pos..pos + size] == [];
    }
  }

  // A fragment block is read as a data block of its record is, but every failure of that is one error. A
  // record of zeros is refused.
  lemma FragmentBlockAnswers(w: World, index: uint32)
    ensures index == 0xFFFF_FFFF ==> FragmentBlock(w, index) == Err(NotFound)
    ensures index != 0xFFFF_FFFF && !w.table.loaded ==> FragmentBlock(w, index) == Err(Corrupt)
    ensures index != 0xFFFF_FFFF && w.table.loaded && index >= |w.table.entries| ==>
      FragmentBlock(w, index) == Err(NotFound)
    ensures index != 0xFFFF_FFFF && w.table.loaded && index < |w.table.entries| ==>
      var e := w.table.entries[index];
      && (e.start == 0 && e.size == 0 ==> FragmentBlock(w, index) == Err(Corrupt))
      && (e.size != 0 ==>
            var r := DataBlock(w.disk, e.start, e.size, w.blockSize);
            FragmentBlock(w, index) == if r.Ok? then r else Err(Corrupt))
  {
  }

  // A read from a fragment block: as many bytes as there are from the offset on, and zeros up to the
  // block size from an offset behind its end.
  lemma FragmentReadAnswers(w: World, index: uint32, offset: uint32, size: nat)
    ensures index != 0xFFFF_FFFF && offset >= w.blockSize ==> FragmentRead(w, index, offset, size) == Err(Corrupt)
    ensures offset < w.blockSize && FragmentBlock(w, index).Err? ==>
      FragmentRead(w, index, offset, size) == if index == 0xFFFF_FFFF then Err(NotFound) else FragmentBlock(w, index)
    ensures offset < w.blockSize && FragmentBlock(w, index).Ok? ==>
      var block := FragmentBlock(w, index).value;
      FragmentRead(w, index, offset, size) ==
        if offset > |block| then Ok(seq(Least(size, w.blockSize - offset), _ => 0))
        else Ok(block[offset..offset + Least(size, |block| - offset)])
  {
  }

  // A metadata block: the header is the stored size, and 2^15 more if it is not compressed. One reader
  // asks that the size is from 1 to 8192; the other takes what there is.
  lemma MetadataBlockAnswers(d: Disk, pos: nat, size: nat, raw: bool, how: Metadata.Reader)
    requires size < 0x8000 && PartAt(d.image, pos, ToLe16(if raw then size + 0x8000 else size))
    ensures var end := pos + 2 + size;
      Metadata.BlockAt(d, pos, how) ==
        if how.Strict? && (size == 0 || size > 8192) then Err(Corrupt)
        else if size > 0 && end > |d.image| then Err(if how.Strict? then Io else Corrupt)
        else if raw then Ok(Metadata.MetaBlock(d.image[pos + 2..end], end))
        else if Expands(d, d.image[pos + 2..end], 8192)
        then Ok(Metadata.MetaBlock(d.inflate(d.image[pos + 2..end], 8192).value, end))
        else Err(Corrupt)
  {
    var h: uint16 := if raw then size + 0x8000 else size;
    HeaderSays(size, raw);
    assert Metadata.HeaderAt(d, pos) == Some(h) by {
      FieldIs(d.image[pos..pos + 2], 0, ToLe16(h));
    }
    if size == 0 {
      assert d.image[pos + 2..pos + 2] == [];
    }
  }

  lemma HeaderSays(size: nat, raw: bool)
    requires size < 0x8000
    ensures var h := if raw then size + 0x8000 else size;
      Metadata.HeaderSize(h) == size && (Metadata.HeaderRaw(h) <==> raw)
  {
  }

  lemma NoHeader(d: Disk, pos: nat, how: Metadata.Reader)
    requires pos + 2 > |d.image|
    ensures Metadata.BlockAt(d, pos, how) == Err(if how.Strict? then Io else Corrupt)
  {
  }

  // The address of the block with the reference of an inode number: eight bytes of the table.
  lemma AddressAnswers(d: Disk, table: nat, number: uint64)
    requires number > 0
    ensures var p := table + 8 * ((number - 1) / 1024);
      && (p + 8 > |d.image| ==> Export.AddressFor(d, table, number) == Err(Corrupt))
      && (p + 8 <= |d.image| ==>
            Export.AddressFor(d, table, number) ==
              if Le64(d.image, p) == 0 || Le64(d.image, p) == 0xFFFF_FFFF_FFFF_FFFF then Err(NotFound)
              else Ok(Le64(d.image, p)))
  {
  }

  // The reference in that block, and why there is none.
  lemma ExportAnswers(d: Disk, table: nat, number: uint64, addr: uint64)
    ensures Export.ExportRef(d, table, 0) == Err(NotFound)
    ensures number > 0 && Export.AddressFor(d, table, number).Err? ==>
      Export.ExportRef(d, table, number) == Err(Export.AddressFor(d, table, number).error)
    ensures number > 0 && Export.AddressFor(d, table, number) == Ok(addr) ==>
      var i, b := (number - 1) % 1024, Metadata.BlockAt(d, addr, Metadata.Strict);
      Export.ExportRef(d, table, number) ==
        if b.Err? then Err(b.error)
        else if 8 * i + 8 > |b.value.data| then Err(NotFound)
        else Ok(Le64(b.value.data, 8 * i))
  {
  }

  lemma NoExportTable(d: Disk, table: nat, inodeTable: nat, number: uint64, blockSize: uint32)
    requires blockSize > 0
    ensures Export.InodeNumbered(d, false, table, inodeTable, number, blockSize) == Err(NotFound)
  {
  }

  // The fragment table, if its index runs over the end of the image, or its first block is too short or
  // cannot be read.
  lemma FragmentTableAnswers(d: Disk, table: nat, n: uint32, count: nat)
    requires 0 < n && n + 511 < 0x1_0000_0000 && count == (n + 511) / 512
    ensures table + 8 * count > |d.image| ==> FragmentTables.TableEntries(d, table, n) == Err(Corrupt)
    ensures table + 8 * count <= |d.image| ==>
      var b := Metadata.BlockAt(d, Le64(d.image, table), Metadata.Strict);
      && (b.Err? ==> FragmentTables.TableEntries(d, table, n) == Err(b.error))
      && (b.Ok? && |b.value.data| < 16 * Least(n, 512) ==> FragmentTables.TableEntries(d, table, n) == Err(Corrupt))
  {
    if table + 8 * count <= |d.image| {
      var addrs := FragmentTables.Addresses(d.image[table..table + 8 * count], count);
      FirstAddress(d, table, count);
      TableOfBlocks(d, table, n, count, addrs);
      FirstBlockFails(d, addrs, n);
    }
  }

  lemma TableOfBlocks(d: Disk, table: nat, n: uint32, count: nat, addrs: seq<uint64>)
    requires 0 < n && n + 511 < 0x1_0000_0000 && count == (n + 511) / 512
    requires FragmentsAt(d, table, count, addrs)
    ensures var r := FragmentTables.FromBlocks(d, addrs, n);
      r.Err? ==> FragmentTables.TableEntries(d, table, n) == r
  {
    CountOfBlocks(n, count);
    EntriesOfBlocks(d, table, n, count, addrs);
  }

  lemma CountOfBlocks(n: uint32, count: nat)
    requires n + 511 < 0x1_0000_0000 && count == (n + 511) / 512
    ensures FragmentTables.BlockCount(n) == count
  {
  }

  // The index at `table` has these addresses.
  predicate FragmentsAt(d: Disk, table: nat, count: nat, addrs: seq<uint64>) {
    var r := ReadAt(d, table, 8 * count);
    r.Some? && addrs == FragmentTables.Addresses(r.value, count)
  }

  lemma EntriesOfBlocks(d: Disk, table: nat, n: nat, count: nat, addrs: seq<uint64>)
    requires FragmentsAt(d, table, count, addrs)
    ensures var r := FragmentTables.FromBlocks(d, addrs, n);
      r.Err? ==> FragmentTables.EntriesOf(d, table, n, count) == r
  {
  }

  lemma FirstAddress(d: Disk, table: nat, count: nat)
    requires count > 0 && table + 8 * count <= |d.image|
    ensures ReadAt(d, table, 8 * count) == Some(d.image[table..table + 8 * count])
    ensures FragmentTables.Addresses(d.image[table..table + 8 * count], count)[0] == Le64(d.image, table)
  {
  }

  lemma FirstBlockFails(d: Disk, addrs: seq<uint64>, n: nat)
    requires addrs != []
    ensures var b := Metadata.BlockAt(d, addrs[0], Metadata.Strict);
      && (b.Err? ==> FragmentTables.FromBlocks(d, addrs, n) == Err(b.error))
      && (b.Ok? && |b.value.data| < 16 * Least(n, 512) ==> FragmentTables.FromBlocks(d, addrs, n) == Err(Corrupt))
  {
  }

  // A table whose count of blocks wraps around: every record is zero.
  lemma WrappedTable(d: Disk, table: nat, n: uint32)
    requires n >= 0xFFFF_FE01
    ensures FragmentTables.TableEntries(d, table, n) == Ok(seq(n, _ => FragmentEntry(0, 0)))
  {
    FragmentTables.TableWraps(d, table, n);
    assert seq(n, _ => FragmentTables.NO_RECORD) == seq(n, _ => FragmentEntry(0, 0));
  }

  // The attribute calls, before they look at any pair.
  lemma AttributeAnswers(d: Disk, t: Xattr.IdTable, index: uint32, name: bytes)
    ensures !t.loaded ==> Xattr.Listed(d, t, index) == Err(NotFound) && Xattr.Found(d, t, index, name) == Err(NotFound)
    ensures t.loaded && index == 0xFFFF_FFFF ==>
      Xattr.Listed(d, t, index) == Ok([]) && Xattr.Found(d, t, index, name) == Err(NotFound)
    ensures t.loaded && |t.refs| <= index < 0xFFFF_FFFF ==>
      Xattr.Listed(d, t, index) == Err(BadXattr) && Xattr.Found(d, t, index, name) == Err(BadXattr)
    ensures t.loaded && index < |t.refs| && index < 0xFFFF_FFFF ==>
      var b := Metadata.BlockAt(d, t.start + t.refs[index] / 65536, Metadata.Lenient);
      b.Err? ==> Xattr.Listed(d, t, index) == Err(b.error) && Xattr.Found(d, t, index, name) == Err(b.error)
  {
  }

  // The flag that a value is stored elsewhere is not looked at: the value delivered is what stands in its
  // place, the eight bytes of a reference.
  lemma OutOfLineIsIgnored(name: bytes, place: bytes, prefix: nat)
    requires |name| < WORD_16 && |place| == 8 && prefix < 3
    ensures var flagged := Xattr.Attribute(0x100 + prefix, name, place);
      && Xattr.TakeAttributes(Xattr.StoreAttributes([flagged])) == Some([flagged])
      && Xattr.PairOf(flagged) == Xattr.PairOf(Xattr.Attribute(prefix, name, place))
      && Xattr.PairOf(flagged).value == place
  {
    var flagged := [Xattr.Attribute(0x100 + prefix, name, place)];
    assert Xattr.StoreAttributes(flagged) + [] == Xattr.StoreAttributes(flagged);
    Xattr.AttributesRoundTrip(flagged, []);
  }

  // One step of a path: what is reported instead of a child.
  lemma StepAnswers(m: Paths.Image, v: Inodes.Value, name: bytes)
    requires m.blockSize > 0
    ensures v.header.kind != 1 && v.header.kind != 8 ==> Paths.Child(m, v, name) == Paths.Failed(Paths.NotDirectory)
    ensures v.header.kind == 1 || v.header.kind == 8 ==>
      var es := Paths.EntriesIn(m, v);
      && (es.Err? ==> Paths.Child(m, v, name) == Paths.Failed(
            if es.error == NotFound then Paths.NoEntry
            else if es.error == NoMemory then Paths.OutOfMemory
            else Paths.InputOutput))
      && (es.Ok? && Paths.FirstNamed(es.value, name).None? ==>
            Paths.Child(m, v, name) == Paths.Failed(Paths.NoEntry))
      && (es.Ok? && Paths.FirstNamed(es.value, name).Some? ==>
            var inode := Paths.InodeAt(m, Paths.FirstNamed(es.value, name).value.inodeRef);
            Paths.Child(m, v, name) == if inode.Ok? then Paths.Found(inode.value) else Paths.Failed(Paths.NoEntry))
  {
  }

  // The root's inode cannot be loaded.
  lemma NoRoot(m: Paths.Image, path: bytes)
    requires m.blockSize > 0 && path != [] && Paths.InodeAt(m, m.root).Err?
    ensures Paths.Resolve(m, path) == Paths.Failed(
      match Paths.InodeAt(m, m.root).error
      case NotFound => Paths.NoEntry
      case NoMemory => Paths.OutOfMemory
      case _ => Paths.InputOutput)
  {
  }
}
