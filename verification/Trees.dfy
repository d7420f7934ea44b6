/**
 * A tree of files and directories as a writer of images stores it: paths lead to its nodes, and reading
 * what they lead to gives the data of its files.
 */
module Trees {
  import opened Words
  import opened Buffers
  import opened Bytes
  import opened Strings
  import opened Disk
  import opened Directory
  import opened Paths
  import opened FileContents
  import opened FileAnswers
  import opened FileStorage
  import Metadata
  import Inodes

  datatype Tree = Leaf(data: bytes) | Folder(children: seq<Item>) | Special
  datatype Item = Item(name: bytes, tree: Tree)

  // An image and the blocks of the inode table and of the directory table that were written into it.
  datatype Volume = Volume(
    world: World, image: Image, deflate: bytes -> bytes, inodes: seq<bytes>, listings: seq<bytes>)

  ghost predicate WrittenTables(y: Volume) {
    && y.world.disk == y.image.disk && y.world.blockSize == y.image.blockSize > 0
    && Metadata.Chunks(y.inodes) && Metadata.LaidOut(y.image.disk, y.deflate, y.image.inodeTable, y.inodes)
  }

  // The inode v lies inside block i of the inode table, which is stored `start` bytes into the table, at
  // the offset.
  ghost predicate InodeIn(y: Volume, start: nat, offset: uint16, i: nat, v: Inodes.Value) {
    && y.image.blockSize > 0 && Metadata.Chunks(y.inodes) && i < |y.inodes|
    && start == Metadata.StoredBefore(y.deflate, y.inodes, i)
    && Inodes.Storable(v, y.image.blockSize)
    && PartAt(y.inodes[i], offset, Inodes.Encode(v, y.image.blockSize))
  }

  // The directory v has these runs, which begin in block i of the directory table.
  ghost predicate ListingIn(y: Volume, v: Inodes.Value, runs: seq<Run>, i: nat) {
    && v.body.Directory? && ValidRuns(runs) && v.body.bytes == |StoreRuns(runs)|
    && (runs != [] ==> ListingAt(y, v.body.block, v.body.offset, i, StoreRuns(runs)))
  }

  // The listing begins at the offset in block i of the directory table, which is `start` bytes into it.
  ghost predicate ListingAt(y: Volume, start: nat, offset: uint16, i: nat, listing: bytes) {
    Metadata.Written(y.image.disk, y.deflate, y.image.directoryTable, y.listings, i,
      y.image.directoryTable + start, offset, listing)
  }

  lemma {:induction false} InodeIsFound(y: Volume, start: nat, offset: uint16, i: nat, v: Inodes.Value, ref: uint64)
    requires WrittenTables(y) && InodeIn(y, start, offset, i, v) && ref == 65536 * start + offset
    ensures InodeAt(y.image, ref) == Ok(v)
  {
    Inodes.InodeInside(y.image.disk, y.deflate, y.image.inodeTable, y.inodes, i,
      y.image.inodeTable + start, offset, v, y.image.blockSize);
    SplitRef(start, offset, ref);
  }

  lemma SplitRef(start: nat, offset: uint16, ref: uint64)
    requires ref == 65536 * start + offset
    ensures ref / 0x1_0000 == start && ref % 0x1_0000 == offset
  {
  }

  lemma {:induction false} ListingIsFound(y: Volume, v: Inodes.Value, runs: seq<Run>, i: nat)
    requires ListingIn(y, v, runs, i)
    ensures EntriesIn(y.image, v) == Ok(Flatten(runs))
  {
    EntriesFound(y, v, runs, i, Flatten(runs));
  }

  lemma {:induction false} EntriesFound(y: Volume, v: Inodes.Value, runs: seq<Run>, i: nat, entries: seq<Dirent>)
    requires ListingIn(y, v, runs, i) && entries == Flatten(runs)
    ensures EntriesIn(y.image, v) == Ok(entries)
  {
    EntriesAreListed(y.image, v);
    if runs != [] {
      WrittenListing(y.image.disk, y.deflate, y.image.directoryTable, y.listings, i,
        y.image.directoryTable + v.body.block, v.body.offset, v.body.bytes, runs, StoreRuns(runs), entries);
    }
  }

  lemma EntriesAreListed(m: Image, v: Inodes.Value)
    requires v.body.Directory?
    ensures EntriesIn(m, v) == Listing(m.disk, m.directoryTable + v.body.block, v.body.offset, v.body.bytes)
    ensures v.body.bytes == 0 ==> EntriesIn(m, v) == Ok([])
  {
  }

  lemma {:induction false} WrittenListing(d: Disk, deflate: bytes -> bytes, table: nat, chunks: seq<bytes>, i: nat,
      block: nat, offset: uint16, size: uint32, runs: seq<Run>, listing: bytes, entries: seq<Dirent>)
    requires Metadata.Written(d, deflate, table, chunks, i, block, offset, listing) && size == |listing|
    requires ValidRuns(runs) && listing == StoreRuns(runs) && entries == Flatten(runs)
    ensures Listing(d, block, offset, size) == Ok(entries)
  {
    Metadata.WrittenIsRead(d, deflate, table, chunks, i, block, offset, listing);
    ListingOf(d, block, offset, listing);
    ParserIsInverse(listing);
  }

  // v is the inode of the tree's root, and everything below is stored as well.
  ghost predicate Node(y: Volume, v: Inodes.Value, t: Tree)
    decreases t
  {
    && y.image.blockSize > 0 && Inodes.Storable(v, y.image.blockSize)
    && match t
       case Leaf(data) => v.body.Regular? && StoresFile(y.world, y.deflate, v.body.file, data)
       case Special => !v.body.Regular? && !v.body.Directory?
       case Folder(children) => exists runs, i :: ListingIn(y, v, runs, i) && Lists(y, Slots(runs), children)
  }

  // The stored entries are those of the children, in order.
  ghost predicate Lists(y: Volume, slots: seq<Slot>, children: seq<Item>)
    decreases children
  {
    |slots| == |children| && forall i :: 0 <= i < |children| ==> Refers(y, slots[i], children[i])
  }

  // The stored entry has the child's name, and the child's inode is in the block at its run's start, at
  // the offset of its record.
  ghost predicate Refers(y: Volume, s: Slot, c: Item)
    decreases c
  {
    CString(s.record.name) == c.name && exists k, u :: InodeIn(y, s.start, s.record.offset, k, u) && Node(y, u, c.tree)
  }

  // The superblock's reference to the root tells where the root's inode is.
  ghost predicate RootIn(y: Volume, start: nat, offset: uint16, k: nat, v: Inodes.Value) {
    y.image.root == 65536 * start + offset && InodeIn(y, start, offset, k, v)
  }

  ghost predicate StoresTree(y: Volume, t: Tree) {
    WrittenTables(y) && exists start: nat, offset: uint16, k, v :: RootIn(y, start, offset, k, v) && Node(y, v, t)
  }

  // Where a list of names leads in a tree.
  datatype Place = There(tree: Tree) | Missing | Blocked

  function Named(children: seq<Item>, name: bytes): Option<Tree> {
    if children == [] then None
    else if children[0].name == name then Some(children[0].tree)
    else Named(children[1..], name)
  }

  function PlaceOf(t: Tree, names: seq<bytes>): Place
    decreases |names|
  {
    if names == [] then There(t)
    else if !t.Folder? then Blocked
    else match Named(t.children, names[0])
      case None => Missing
      case Some(u) => PlaceOf(u, names[1..])
  }

  // A walk through the image ends where one through the tree does.
  ghost predicate Leads(y: Volume, o: Outcome, p: Place) {
    match p
    case There(t) => o.Found? && Node(y, o.inode, t)
    case Missing => o == Failed(NoEntry)
    case Blocked => o == Failed(NotDirectory)
  }

  lemma {:induction false} FirstIsNamed(entries: seq<Dirent>, children: seq<Item>, name: bytes) returns (i: nat)
    requires |entries| == |children|
    requires forall j :: 0 <= j < |children| ==> CString(entries[j].name) == children[j].name
    ensures i <= |children|
    ensures i == |children| ==> FirstNamed(entries, name) == None && Named(children, name) == None
    ensures i < |children| ==> FirstNamed(entries, name) == Some(entries[i])
    ensures i < |children| ==> Named(children, name) == Some(children[i].tree)
    decreases |children|
  {
    if children == [] || children[0].name == name {
      i := 0;
    } else {
      i := FirstIsNamed(entries[1..], children[1..], name);
      i := i + 1;
    }
  }

  // What a directory of the tree lists.
  lemma {:induction false} FolderListing(y: Volume, v: Inodes.Value, t: Tree)
    returns (entries: seq<Dirent>, slots: seq<Slot>)
    requires WrittenTables(y) && Node(y, v, t) && t.Folder?
    ensures IsDirectory(v) && EntriesIn(y.image, v) == Ok(entries)
    ensures DescribeAll(entries, slots) && Lists(y, slots, t.children)
  {
    var runs, i :| ListingIn(y, v, runs, i) && Lists(y, Slots(runs), t.children);
    ListingIsFound(y, v, runs, i);
    FlattenDescribes(runs);
    entries, slots := Flatten(runs), Slots(runs);
  }

  lemma {:induction false} EntryLeads(y: Volume, e: Dirent, s: Slot, c: Item)
    requires WrittenTables(y) && Describes(e, s) && Refers(y, s, c)
    ensures InodeAt(y.image, e.inodeRef).Ok? && Node(y, InodeAt(y.image, e.inodeRef).value, c.tree)
  {
    var k, u :| InodeIn(y, s.start, s.record.offset, k, u) && Node(y, u, c.tree);
    InodeIsFound(y, s.start, s.record.offset, k, u, e.inodeRef);
  }

  ghost predicate Opens(y: Volume, o: Outcome, t: Option<Tree>) {
    if t.None? then o == Failed(NoEntry) else o.Found? && Node(y, o.inode, t.value)
  }

  lemma {:induction false} FolderChild(y: Volume, v: Inodes.Value, t: Tree, name: bytes)
    requires WrittenTables(y) && Node(y, v, t) && t.Folder?
    ensures Opens(y, Child(y.image, v, name), Named(t.children, name))
  {
    var entries, slots := FolderListing(y, v, t);
    ChildOpens(y, v, entries, slots, t.children, name);
  }

  lemma {:induction false} ChildOpens(y: Volume, v: Inodes.Value, entries: seq<Dirent>, slots: seq<Slot>,
      children: seq<Item>, name: bytes)
    requires WrittenTables(y) && IsDirectory(v) && EntriesIn(y.image, v) == Ok(entries)
    requires DescribeAll(entries, slots) && Lists(y, slots, children)
    ensures Opens(y, Child(y.image, v, name), Named(children, name))
  {
    forall j | 0 <= j < |children|
      ensures CString(entries[j].name) == children[j].name
    {
      assert Refers(y, slots[j], children[j]) && Describes(entries[j], slots[j]);
    }
    var i := FirstIsNamed(entries, children, name);
    if i < |children| {
      assert Describes(entries[i], slots[i]);
      EntryLeads(y, entries[i], slots[i], children[i]);
    }
  }

  lemma {:induction false} WalkLeads(y: Volume, v: Inodes.Value, t: Tree, names: seq<bytes>)
    requires WrittenTables(y) && Node(y, v, t)
    ensures Leads(y, Walk(y.image, v, names), PlaceOf(t, names))
    decreases |names|
  {
    if names != [] && t.Folder? {
      FolderChild(y, v, t, names[0]);
      var next := Child(y.image, v, names[0]);
      if next.Found? {
        WalkLeads(y, next.inode, Named(t.children, names[0]).value, names[1..]);
      }
    }
  }

  // Resolving a path of a stored tree finds the inode of the node it names, or fails as it should.
  lemma {:induction false} PathLeads(y: Volume, t: Tree, path: bytes)
    requires StoresTree(y, t) && path != []
    ensures Leads(y, Resolve(y.image, path), PlaceOf(t, Components(path[1..])))
  {
    var start: nat, offset: uint16, k, v :| RootIn(y, start, offset, k, v) && Node(y, v, t);
    InodeIsFound(y, start, offset, k, v, y.image.root);
    WalkLeads(y, v, t, Components(path[1..]));
  }

  // From the path of a file in a stored tree to its data: whatever part of it is read.
  lemma {:induction false} PathToData(y: Volume, t: Tree, names: seq<bytes>, data: bytes, offset: nat, size: nat)
    requires StoresTree(y, t) && names != [] && PlaceOf(t, names) == There(Leaf(data))
    requires forall i :: 0 <= i < |names| ==> names[i] != [] && SLASH !in names[i]
    ensures
      var o := Resolve(y.image, Joined(names));
      && o.Found? && o.inode.body.Regular? && WellFormed(y.world, o.inode.body.file)
      && ServedAnswer(y.world, o.inode.body.file, offset, size) == Ok(RangeOf(data, offset, size))
  {
    ComponentsOfJoined(names);
    var path := Joined(names);
    assert Components(path) == Components(path[1..]);
    PathLeads(y, t, path);
    var o := Resolve(y.image, path);
    StoredFileIsRead(y.world, y.deflate, o.inode.body.file, data, offset, size);
  }
}
