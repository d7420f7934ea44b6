/** A volume of one directory and one file, as small as one with a stored block and a tail can be. */
module SmallVolume {
  import opened Words
  import opened Buffers
  import opened Bytes
  import opened Strings
  import opened Disk
  import opened FileLayout
  import opened FileContents
  import opened FileStorage
  import opened Directory
  import opened Paths
  import opened Trees
  import opened CachedBlocks
  import opened FileRead
  import opened OpenFiles
  import Metadata
  import Inodes

  const BLOCK: uint32 := 4096

  function Full(): bytes { seq(4096, _ => 7) }

  // One block, behind the superblock, and a fragment of one byte behind that.
  function SmallFile(): File { File(4097, 96, 0, 0, [0x100_1000]) }
  function SmallTable(): FragmentTable { FragmentTable(true, [FragmentEntry(4192, 0x100_0001)]) }

  function FileNode(): Inodes.Value {
    Inodes.Value(Inodes.Header(Inodes.FILE, 0x1A4, 0, 0, 0, 2), 1, Inodes.Regular(SmallFile(), 0, Inodes.NO_XATTR))
  }

  function Runs(): seq<Run> { [Run(0, 1, [Record(32, 1, Inodes.FILE, [97])])] }

  function RootNode(): Inodes.Value {
    Inodes.Value(Inodes.Header(Inodes.DIRECTORY, 0x1ED, 0, 0, 0, 1), 2, Inodes.Directory(0, 21, 0, 0, 0))
  }

  lemma Sizes()
    ensures Inodes.Storable(RootNode(), BLOCK) && |Inodes.Encode(RootNode(), BLOCK)| == 32
    ensures Inodes.Storable(FileNode(), BLOCK) && |Inodes.Encode(FileNode(), BLOCK)| == 36
    ensures ValidRuns(Runs()) && |StoreRuns(Runs())| == 21
  {
    assert |Inodes.EncodeSizes(SmallFile().blockSizes)| == 4;
    var r := Runs()[0];
    assert Runs()[1..] == [] && r.records[1..] == [];
    assert StoreRecords(r.records) == StoreRecord(r.records[0]) + [];
  }

  function InodeChunk(): bytes
  {
    Sizes();
    Inodes.Encode(RootNode(), BLOCK) + Inodes.Encode(FileNode(), BLOCK)
  }

  function ListingChunk(): bytes
  {
    Sizes();
    StoreRuns(Runs())
  }

  // A compressor that never gains anything.
  function Same(b: bytes): bytes { b }

  function StoredInodes(): bytes {
    Sizes();
    Metadata.Store(Same, InodeChunk())
  }

  function StoredListings(): bytes {
    Sizes();
    Metadata.Store(Same, ListingChunk())
  }

  function SmallDisk(): Disk {
    Disk(Zeros(96) + Full() + [9] + StoredInodes() + StoredListings(), (_, _) => None)
  }

  function Small(): Volume {
    Volume(World(SmallDisk(), BLOCK, SmallTable()),
           Image(SmallDisk(), 4193, 4193 + |StoredInodes()|, BLOCK, 0),
           Same, [InodeChunk()], [ListingChunk()])
  }

  function Data(): bytes { Full() + [9] }
  function SmallTree(): Tree { Folder([Item([97], Leaf(Data()))]) }

  lemma DiskParts()
    ensures var image := SmallDisk().image;
      && PartAt(image, 96, Full()) && PartAt(image, 4192, [9])
      && PartAt(image, 4193, StoredInodes()) && PartAt(image, 4193 + |StoredInodes()|, StoredListings())
  {
    PartsInOrder(Zeros(96), Full(), [9], StoredInodes(), StoredListings());
  }

  lemma PartsInOrder(a: bytes, b: bytes, c: bytes, d: bytes, e: bytes)
    ensures var all := a + b + c + d + e;
      && PartAt(all, |a|, b) && PartAt(all, |a + b|, c)
      && PartAt(all, |a + b + c|, d) && PartAt(all, |a + b + c + d|, e)
  {
  }

  lemma OneChunk(d: Disk, pos: nat, chunk: bytes)
    requires 1 <= |chunk| <= Metadata.META_BLOCK && PartAt(d.image, pos, Metadata.Store(Same, chunk))
    ensures Metadata.Chunks([chunk]) && Metadata.LaidOut(d, Same, pos, [chunk]) && Metadata.Joined([chunk]) == chunk
  {
    assert !Metadata.Shortens(Same, chunk);
    assert Metadata.LaidOut(d, Same, pos + |Metadata.Store(Same, chunk)|, []);
    assert Metadata.Joined([chunk]) == chunk + Metadata.Joined([]);
  }

  lemma FileIsStored()
    ensures StoresFile(Small().world, Same, SmallFile(), Data())
  {
    DiskParts();
    var w, f := Small().world, SmallFile();
    assert Data()[0..4096] == Full() && Data()[4096..] == [9];
    assert FragmentStored(w, Same, 0, [9], [9]) && PartAt([9], 0, [9]);
    assert StoresShare(w, Same, f, Data(), 0, Full());
    assert Metadata.Joined([Full()]) == Full() + Metadata.Joined([]);
    assert StoresBlocks(w, Same, f, Data(), [Full()]);
    assert StoresTail(w, Same, f, Data());
  }

  lemma TablesAreWritten()
    ensures WrittenTables(Small()) && Metadata.Chunks([ListingChunk()])
    ensures Metadata.LaidOut(Small().image.disk, Same, Small().image.directoryTable, [ListingChunk()])
    ensures Metadata.Joined([ListingChunk()]) == ListingChunk()
  {
    Sizes();
    DiskParts();
    OneChunk(SmallDisk(), 4193, InodeChunk());
    OneChunk(SmallDisk(), 4193 + |StoredInodes()|, ListingChunk());
  }

  lemma NodesAreStored()
    ensures InodeIn(Small(), 0, 0, 0, RootNode()) && InodeIn(Small(), 0, 32, 0, FileNode())
  {
    Sizes();
    TablesAreWritten();
    assert PartAt(InodeChunk(), 0, Inodes.Encode(RootNode(), BLOCK) + Inodes.Encode(FileNode(), BLOCK));
    PartsOf(InodeChunk(), 0, Inodes.Encode(RootNode(), BLOCK), Inodes.Encode(FileNode(), BLOCK));
  }

  lemma RootIsListed()
    ensures ListingIn(Small(), RootNode(), Runs(), 0)
    ensures Flatten(Runs()) == [Dirent([97], 2, 32, Inodes.FILE)]
    ensures Slots(Runs()) == [Slot(0, 1, Record(32, 1, Inodes.FILE, [97]))]
  {
    Sizes();
    TablesAreWritten();
    assert PartAt(ListingChunk(), 0, StoreRuns(Runs()));
    var r := Runs()[0];
    assert Runs()[1..] == [] && r.records[1..] == [];
    assert Entries(0, 1, r.records) == [Entry(0, 1, r.records[0])] + [];
    assert Flatten(Runs()) == Entries(0, 1, r.records) + [];
  }

  lemma {:induction false} OneFileTree(y: Volume, root: Inodes.Value, file: Inodes.Value, runs: seq<Run>,
      s: Slot, data: bytes)
    requires WrittenTables(y) && y.image.root == 0 && InodeIn(y, 0, 0, 0, root)
    requires InodeIn(y, s.start, s.record.offset, 0, file)
    requires ListingIn(y, root, runs, 0) && Slots(runs) == [s]
    requires file.body.Regular? && StoresFile(y.world, y.deflate, file.body.file, data)
    ensures StoresTree(y, Folder([Item(CString(s.record.name), Leaf(data))]))
  {
    var item := Item(CString(s.record.name), Leaf(data));
    assert Node(y, file, Leaf(data));
    assert Refers(y, s, item);
    assert Lists(y, [s], [item]);
    assert Node(y, root, Folder([item]));
    assert RootIn(y, 0, 0, 0, root);
  }

  // The volume stores its tree.
  lemma {:induction false} SmallTreeIsStored()
    ensures StoresTree(Small(), SmallTree())
  {
    TablesAreWritten();
    NodesAreStored();
    RootIsListed();
    FileIsStored();
    var name: bytes := [97];
    StringLengthIs(name, 1);
    assert CString(name) == name;
    OneFileTree(Small(), RootNode(), FileNode(), Runs(), Slot(0, 1, Record(32, 1, Inodes.FILE, name)), Data());
  }

  // The keys of the volume's blocks are distinguished, although block positions and fragment indices
  // are numbers of one cache.
  lemma SmallFileIsKnown()
    ensures var w, used := Small().world, Used({(96, 0x100_1000)}, {0});
      WellFormed(w, SmallFile()) && Known(w, used, SmallFile())
  {
    FileIsStored();
    StoredContents(Small().world, Same, SmallFile(), Data());
    SeparateIsKnown(Small().world, Used({(96, 0x100_1000)}, {0}), SmallFile());
  }

  lemma OneStep(m: Image, root: Inodes.Value, e: Dirent, file: Inodes.Value, path: bytes)
    requires m.blockSize > 0 && InodeAt(m, m.root) == Ok(root) && InodeAt(m, e.inodeRef) == Ok(file)
    requires IsDirectory(root) && EntriesIn(m, root) == Ok([e])
    requires path != [] && Components(path[1..]) == [CString(e.name)]
    ensures Resolve(m, path) == Found(file)
  {
    var name := CString(e.name);
    assert FirstNamed([e], name) == Some(e);
    assert Child(m, root, name) == Found(file);
    var names := Components(path[1..]);
    assert names[0] == name && names[1..] == [];
    assert Walk(m, file, names[1..]) == Found(file);
    assert Walk(m, root, names) == Found(file);
  }

  lemma {:induction false} OneFilePath(y: Volume, root: Inodes.Value, file: Inodes.Value, runs: seq<Run>,
      e: Dirent, path: bytes)
    requires WrittenTables(y) && y.image.root == 0 && InodeIn(y, 0, 0, 0, root)
    requires e.inodeRef < 65536 && InodeIn(y, 0, e.inodeRef, 0, file)
    requires ListingIn(y, root, runs, 0) && Flatten(runs) == [e]
    requires path != [] && Components(path[1..]) == [CString(e.name)]
    ensures Resolve(y.image, path) == Found(file)
  {
    InodeIsFound(y, 0, 0, 0, root, 0);
    InodeIsFound(y, 0, e.inodeRef, 0, file, e.inodeRef);
    ListingIsFound(y, root, runs, 0);
    OneStep(y.image, root, e, file, path);
  }

  // "/a"
  function Path(): bytes { [SLASH, 97] }

  lemma PathIs()
    ensures Components(Path()[1..]) == [[97]] && PlaceOf(SmallTree(), [[97]]) == There(Leaf(Data()))
  {
    assert Path()[1..] == [97];
    SegmentIs([97], 1);
    var b: bytes := [97];
    assert b[..1] == b && b[1..] == [];
    var item := Item([97], Leaf(Data()));
    assert Named([item], [97]) == Some(item.tree);
    var names: seq<bytes> := [[97]];
    assert names[1..] == [];
  }

  lemma PathLeadsToFile()
    ensures Resolve(Small().image, Path()) == Found(FileNode())
  {
    TablesAreWritten();
    NodesAreStored();
    RootIsListed();
    StringLengthIs([97], 1);
    PathIs();
    OneFilePath(Small(), RootNode(), FileNode(), Runs(), Dirent([97], 2, 32, Inodes.FILE), Path());
  }

  // Every read of its file, by its path, is due the bytes stored.
  lemma SmallFileIsDue(offset: nat, size: nat)
    ensures Due(Small().image, Small().world, Used({(96, 0x100_1000)}, {0}), Path(), offset, size,
                RangeOf(Data(), offset, size))
  {
    PathIs();
    SmallTreeIsStored();
    SmallFileIsKnown();
    PathLeadsToFile();
    StoredIsDue(Small(), SmallTree(), Data(), Used({(96, 0x100_1000)}, {0}), Path(), offset, size);
  }
}
