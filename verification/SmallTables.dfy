/**
 * Tables as small as they can be: an export table of one number, a fragment table of one record, and the
 * attributes of one file. And a run that a cache of two entries has room for.
 */
module SmallTables {
  import opened Words
  import opened Buffers
  import opened Bytes
  import opened Disk
  import Metadata
  import Export
  import Xattr
  import opened FileContents
  import FragmentTables
  import opened LruSpec
  import opened LruRuns
  import LruInclusion
  import Inodes
  import SmallVolume

  lemma OneRaw(d: Disk, pos: nat, chunk: bytes)
    requires 1 <= |chunk| <= 8192 && PartAt(d.image, pos, ToLe16(0x8000 + |chunk|) + chunk)
    ensures PartAt(d.image, pos, Metadata.Store(SmallVolume.Same, chunk))
    ensures Metadata.StoredAt(d, SmallVolume.Same, pos, chunk)
  {
    assert !Metadata.Shortens(SmallVolume.Same, chunk);
  }

  // The address 8, and behind it a block with the reference 77.
  function ExportDisk(): Disk { Disk(ToLe64(8) + (ToLe16(0x8008) + ToLe64(77)), (_, _) => None) }

  lemma ExportParts()
    ensures var image := ExportDisk().image;
      PartAt(image, 0, ToLe64(8)) && PartAt(image, 8, ToLe16(0x8008) + ToLe64(77))
  {
    var a, b := ToLe64(8), ToLe16(0x8008) + ToLe64(77);
    assert (a + b)[0..8] == a && (a + b)[8..18] == b;
  }

  lemma SmallExport()
    ensures Export.Exports(ExportDisk(), SmallVolume.Same, 0, 8, [77])
    ensures Export.ExportRef(ExportDisk(), 0, 1) == Ok(77)
  {
    ExportParts();
    OneRef(ExportDisk(), 77);
    Export.ExportRoundTrip(ExportDisk(), SmallVolume.Same, 0, 8, [77], 1);
  }

  lemma OneRef(d: Disk, ref: uint64)
    requires PartAt(d.image, 0, ToLe64(8)) && PartAt(d.image, 8, ToLe16(0x8008) + ToLe64(ref))
    ensures Export.Exports(d, SmallVolume.Same, 0, 8, [ref])
  {
    var chunk := ToLe64(ref);
    var refs: seq<uint64> := [ref];
    assert refs[1..] == [];
    assert Export.Store(refs) == chunk + Export.Store(refs[1..]) == chunk;
    assert Metadata.Chop(chunk) == [chunk];
    OneRaw(d, 8, chunk);
    SmallVolume.OneChunk(d, 8, chunk);
    assert Export.AddressIs(d, 0, 0, 8);
  }

  // "user.a" with the value "x", one byte into a block at position 3 of the table.
  function Pairs(): bytes { ToLe16(0) + ToLe16(1) + [97] + ToLe32(1) + [120] }
  function PairsDisk(): Disk { Disk([0, 0, 0] + (ToLe16(0x800B) + ([0] + Pairs())), (_, _) => None) }
  function PairsTable(): Xattr.IdTable { Xattr.IdTable(true, 0, [3 * 65536 + 1]) }

  lemma PairsParts()
    ensures PartAt(PairsDisk().image, 3, ToLe16(0x800B) + ([0] + Pairs()))
  {
    var a: bytes, b := [0, 0, 0], ToLe16(0x800B) + ([0] + Pairs());
    assert (a + b)[3..16] == b;
  }

  lemma SmallAttributes()
    ensures var a, p := Xattr.Attribute(0, [97], [120]), Xattr.Pair([117, 115, 101, 114, 46, 97], [120]);
      && Xattr.StoresPairs(PairsDisk(), SmallVolume.Same, PairsTable(), 0, [0] + Pairs(), 3, 1, [a])
      && Xattr.AllStandFor([a], [p]) && Xattr.Listed(PairsDisk(), PairsTable(), 0) == Ok([p])
  {
    var a, p := Xattr.Attribute(0, [97], [120]), Xattr.Pair([117, 115, 101, 114, 46, 97], [120]);
    PairsParts();
    OneAttribute(a);
    OnePair(PairsDisk(), PairsTable(), [0] + Pairs(), a);
    assert Xattr.StandsFor(a, p);
    Xattr.StoredAreListed(PairsDisk(), SmallVolume.Same, PairsTable(), 0, [0] + Pairs(), 3, 1, [a], [p]);
  }

  lemma OnePair(d: Disk, t: Xattr.IdTable, chunk: bytes, a: Xattr.Attribute)
    requires t == Xattr.IdTable(true, 0, [3 * 65536 + 1]) && Xattr.ValidAttributes([a]) && |chunk| == 11
    requires chunk == [0] + Xattr.StoreAttributes([a]) && PartAt(d.image, 3, ToLe16(0x800B) + chunk)
    ensures Xattr.StoresPairs(d, SmallVolume.Same, t, 0, chunk, 3, 1, [a])
  {
    OneRaw(d, 3, chunk);
    assert chunk[1..11] == Xattr.StoreAttributes([a]);
  }

  lemma OneAttribute(a: Xattr.Attribute)
    requires a == Xattr.Attribute(0, [97], [120])
    ensures Xattr.ValidAttributes([a]) && Xattr.StoreAttributes([a]) == Pairs()
  {
    assert [a][1..] == [];
    assert Xattr.StoreAttributes([a]) == Xattr.StoreAttribute(a) + [];
  }

  // The address 8, and behind it a block with one record.
  function FragmentDisk(): Disk {
    Disk(ToLe64(8) + (ToLe16(0x8010) + FragmentTables.StoreRecords([FragmentEntry(96, 5)])), (_, _) => None)
  }

  lemma FragmentParts()
    ensures var image := FragmentDisk().image;
      && PartAt(image, 0, ToLe64(8))
      && PartAt(image, 8, ToLe16(0x8010) + FragmentTables.StoreRecords([FragmentEntry(96, 5)]))
  {
    var a, b := ToLe64(8), ToLe16(0x8010) + FragmentTables.StoreRecords([FragmentEntry(96, 5)]);
    assert (a + b)[0..8] == a && (a + b)[8..26] == b;
  }

  lemma OneRecord(d: Disk, records: seq<FragmentEntry>, chunk: bytes)
    requires |records| == 1 && chunk == FragmentTables.StoreRecords(records)
    requires PartAt(d.image, 0, ToLe64(8)) && PartAt(d.image, 8, ToLe16(0x8010) + chunk)
    ensures FragmentTables.TableEntries(d, 0, 1) == Ok(records)
  {
    assert records[..1] == records && records[1..] == [];
    assert FragmentTables.RecordChunks(records) == [chunk];
    OneRaw(d, 8, chunk);
    SmallVolume.OneChunk(d, 8, chunk);
    assert FragmentTables.Addresses(ToLe64(8), 1) == [8];
    assert FragmentTables.Addressed([], SmallVolume.Same, 8 + |Metadata.Store(SmallVolume.Same, chunk)|, []);
    FragmentTables.TableRoundTrip(d, SmallVolume.Same, 0, 8, records, ToLe64(8));
  }

  lemma SmallFragmentTable()
    ensures FragmentTables.TableEntries(FragmentDisk(), 0, 1) == Ok([FragmentEntry(96, 5)])
  {
    FragmentParts();
    OneRecord(FragmentDisk(), [FragmentEntry(96, 5)], FragmentTables.StoreRecords([FragmentEntry(96, 5)]));
  }

  // Two puts and a get, for which the memory limit of 10 does not bind. A cache of one entry misses where
  // one of two entries hits.
  lemma SmallRunHasRoom()
    ensures var ops: seq<Op<int>> := [Put(1, Some(0), 5, true), Put(2, Some(1), 5, true), Get(1)];
      && LruInclusion.Unbound(Limits(2, 10), ops)
      && LruInclusion.Hits(Limits(1, 10), ops) == 0 && LruInclusion.Hits(Limits(2, 10), ops) == 1
  {
    var a: seq<Op<int>> := [Put(1, Some(0), 5, true)];
    var b := a + [Put(2, Some(1), 5, true)];
    var c := b + [Get(1)];
    assert a[..0] == [] && b[..1] == a && c[..2] == b;
    TwoPuts(Limits(2, 10), a, b);
    TwoPuts(Limits(1, 10), a, b);
    assert c == [Put(1, Some(0), 5, true), Put(2, Some(1), 5, true), Get(1)];
  }

  lemma TwoPuts(l: Limits, a: seq<Op<int>>, b: seq<Op<int>>)
    requires (l.entries == 1 || l.entries == 2) && l.memory == 10
    requires a == [Put(1, Some(0), 5, true)] && b == a + [Put(2, Some(1), 5, true)]
    ensures Run(l, [], b) == if l.entries == 2 then [Entry(2, 1, 5), Entry(1, 0, 5)] else [Entry(2, 1, 5)]
    ensures LruInclusion.Hits(l, b) == 0 && (l.entries == 2 ==> LruInclusion.Unbound(l, b))
  {
    assert a[..0] == [] && b[..1] == a;
    var e0 := Entry(1, 0, 5);
    assert Run(l, [], a) == [e0];
    assert Total([e0]) == Add64(Total([e0][..0]), 5) == 5;
    assert Memory([e0]) == Memory([e0][..0]) + 5 == 5;
    var one: seq<Entry<int>> := [e0];
    assert one[..1] == one && one[..0] == [];
    if l.entries == 1 {
      assert !Fits(l, [e0], 5);
      assert Fits(l, [e0][..0], 5);
      assert Kept(l, [e0], 5) == 0;
    } else {
      assert Fits(l, [e0], 5);
    }
    assert LruInclusion.Hits(l, a[..0]) == 0 && LruInclusion.Hits(l, a) == 0;
    assert b[|b| - 1].Put?;
    assert LruSpec.Remove([e0], 2).entries == [e0];
    assert LruSpec.Remove<int>([], 1).entries == [];
  }

  // An inode written into a metadata block is where the results about single inodes ask for it.
  lemma WrittenInBlock(d: Disk, deflate: bytes -> bytes, pos: nat, chunk: bytes, offset: uint16, h: Inodes.Header,
      body: bytes)
    requires 1 <= |chunk| <= 8192 && Metadata.StoredAt(d, deflate, pos, chunk)
    requires PartAt(chunk, offset, Inodes.EncodeHeader(h) + body)
    ensures Inodes.InBlock(d, pos, offset, h, body)
  {
    Metadata.StoredBlock(d, deflate, pos, chunk, Metadata.Strict);
  }
}
