/** Opening files by their paths and reading from them, on top of everything below. */
module OpenFiles {
  import opened Words
  import opened Bytes
  import opened Disk
  import opened Paths
  import opened FileLayout
  import opened FileContents
  import opened FileAnswers
  import opened Cache
  import opened CachedBlocks
  import opened FileRead
  import opened FileStorage
  import opened Trees
  import Inodes

  // sqfs_vfs_fh_t.
  datatype Handle = Handle(inode: Inodes.Inode, fileSize: uint64)

  datatype Refusal = Unresolved(fault: Fault) | NotFile

  predicate IsFile(v: Inodes.Value) { v.header.kind == Inodes.FILE || v.header.kind == Inodes.LONG_FILE }

  lemma {:induction false} WalkIsTyped(m: Image, v: Inodes.Value, names: seq<bytes>)
    requires m.blockSize > 0 && (IsFile(v) <==> v.body.Regular?)
    ensures Walk(m, v, names).Found? ==> (IsFile(Walk(m, v, names).inode) <==> Walk(m, v, names).inode.body.Regular?)
    decreases |names|
  {
    if names != [] && Child(m, v, names[0]).Found? {
      WalkIsTyped(m, Child(m, v, names[0]).inode, names[1..]);
    }
  }

  lemma ResolvedIsTyped(m: Image, path: bytes)
    requires m.blockSize > 0 && path != [] && Resolve(m, path).Found?
    ensures IsFile(Resolve(m, path).inode) <==> Resolve(m, path).inode.body.Regular?
  {
    WalkIsTyped(m, InodeAt(m, m.root).value, Components(path[1..]));
  }

  // The handle's inode is the file that the path leads to.
  ghost predicate Holds(m: Image, path: bytes, h: Handle)
    requires m.blockSize > 0 && path != []
    reads h.inode, h.inode.blockSizes
  {
    var v := h.inode.Contents();
    Resolve(m, path) == Found(v) && IsFile(v) && v.body.Regular? && h.fileSize == v.body.file.size
  }

  // sqfs_vfs_open.
  method Open(m: Image, path: bytes, memory: bool) returns (h: Option<Handle>, why: Refusal)
    requires m.blockSize > 0 && path != [] && 0 !in path
    ensures h.Some? ==> fresh(h.value.inode) && Holds(m, path, h.value)
    ensures h.None? ==>
      || (why.Unresolved? && OutOfLuck(memory, why.fault))
      || if Resolve(m, path).Found? then !IsFile(Resolve(m, path).inode) && why == NotFile
         else why == Unresolved(Resolve(m, path).fault)
  {
    var inode, fault := ResolvePath(m, path, memory);
    if inode.None? {
      return None, Unresolved(fault);
    }
    ResolvedIsTyped(m, path);
    if inode.value.header.kind != Inodes.FILE && inode.value.header.kind != Inodes.LONG_FILE {
      return None, NotFile;
    }
    var available: bool := *;
    if !memory && !available {
      return None, Unresolved(OutOfMemory);
    }
    return Some(Handle(inode.value, inode.value.body.file.size)), NotFile;
  }

  // The file whose inode the handle has.
  ghost function FileOf(h: Handle): File
    requires h.inode.body.Regular?
    reads h.inode, h.inode.blockSizes
  {
    h.inode.Contents().body.file
  }

  datatype Reading = Done(count: nat) | Failing(fault: Fault)

  lemma SameRange(w: World, f: File, offset: nat, size: nat, size': nat)
    requires WellFormed(w, f) && Readable(f, offset, size) == Readable(f, offset, size')
    ensures ServedAnswer(w, f, offset, size) == ServedAnswer(w, f, offset, size')
  {
  }

  // sqfs_vfs_read.
  method Read(w: World, ghost used: Used, cache: Cache<CachedBlock>, h: Handle, offset: uint64, buffer: array<byte>,
      size: nat, memory: bool)
    returns (r: Reading)
    requires Good(w, used, cache) && h.inode.body.Regular? && h.fileSize == FileOf(h).size
    requires WellFormed(w, FileOf(h)) && Known(w, used, FileOf(h))
    requires size <= buffer.Length && offset + size < WORD_64
    modifies cache, cache.buckets, cache.members, buffer
    ensures Good(w, used, cache) && Grown(cache)
    ensures r.Done? ==> r.count == Readable(old(FileOf(h)), offset, size) <= size
    ensures r.Done? ==> Given(w, old(FileOf(h)), offset, size, buffer[..r.count], memory)
    ensures r.Done? ==> buffer[r.count..] == old(buffer[r.count..])
    ensures r.Failing? ==>
      var answer := ServedAnswer(w, old(FileOf(h)), offset, size);
      (answer.Err? && r.fault == Errno(answer.error)) || (!memory && r.fault == OutOfMemory)
  {
    if offset >= h.fileSize {
      return Done(0);
    }
    var f := h.inode.body.file.(blockSizes := h.inode.blockSizes[..]);
    var limited := if offset + size > h.fileSize then h.fileSize - offset else size;
    SameRange(w, f, offset, size, limited);
    var n := DataRead(w, used, cache, f, offset, buffer, limited, memory);
    r := if n.Ok? then Done(n.value) else Failing(Errno(n.error));
  }

  // The path leads to a file of which a read of the range is due these bytes.
  ghost predicate Due(m: Image, w: World, used: Used, path: bytes, offset: nat, size: nat, wanted: bytes)
    requires m.blockSize > 0 && path != []
  {
    var o := Resolve(m, path);
    && o.Found? && IsFile(o.inode) && o.inode.body.Regular?
    && WellFormed(w, o.inode.body.file) && Known(w, used, o.inode.body.file)
    && ServedAnswer(w, o.inode.body.file, offset, size) == Ok(wanted)
  }

  // Opening a path and reading from what it leads to, when allocations succeed.
  method OpenAndRead(m: Image, w: World, ghost used: Used, cache: Cache<CachedBlock>, path: bytes, offset: uint64,
      buffer: array<byte>, size: nat, ghost wanted: bytes)
    returns (r: Reading)
    requires m.blockSize > 0 && path != [] && 0 !in path && Due(m, w, used, path, offset, size, wanted)
    requires Good(w, used, cache) && size <= buffer.Length && offset + size < WORD_64
    modifies cache, cache.buckets, cache.members, buffer
    ensures Good(w, used, cache) && Grown(cache)
    ensures r == Done(|wanted|) && |wanted| <= size && buffer[..|wanted|] == wanted
    ensures buffer[|wanted|..] == old(buffer[|wanted|..])
  {
    var h, why := Open(m, path, true);
    r := Read(w, used, cache, h.value, offset, buffer, size, true);
  }

  // No key under which blocks of the file at the path are cached stands for other blocks.
  ghost predicate Distinguished(y: Volume, used: Used, path: bytes)
    requires y.image.blockSize > 0 && path != []
  {
    var o := Resolve(y.image, path);
    o.Found? && o.inode.body.Regular? ==> Known(y.world, used, o.inode.body.file)
  }

  lemma StoredIsDue(y: Volume, t: Tree, data: bytes, used: Used, path: bytes, offset: nat, size: nat)
    requires StoresTree(y, t) && path != [] && PlaceOf(t, Components(path[1..])) == There(Leaf(data))
    requires Distinguished(y, used, path)
    ensures Due(y.image, y.world, used, path, offset, size, RangeOf(data, offset, size))
  {
    PathLeads(y, t, path);
    ResolvedIsTyped(y.image, path);
    StoredFileIsRead(y.world, y.deflate, Resolve(y.image, path).inode.body.file, data, offset, size);
  }

  // The whole way: whatever the cache holds, opening the path of a file of a stored tree and reading a
  // range of it gives that range of the data that was stored.
  method ReadPath(y: Volume, ghost t: Tree, ghost data: bytes, ghost used: Used, cache: Cache<CachedBlock>,
      path: bytes, offset: uint64, buffer: array<byte>, size: nat)
    returns (r: Reading)
    requires StoresTree(y, t) && path != [] && 0 !in path
    requires PlaceOf(t, Components(path[1..])) == There(Leaf(data)) && Distinguished(y, used, path)
    requires Good(y.world, used, cache) && size <= buffer.Length && offset + size < WORD_64
    modifies cache, cache.buckets, cache.members, buffer
    ensures Good(y.world, used, cache) && Grown(cache)
    ensures r == Done(|RangeOf(data, offset, size)|) && |RangeOf(data, offset, size)| <= size
    ensures buffer[..|RangeOf(data, offset, size)|] == RangeOf(data, offset, size)
    ensures buffer[|RangeOf(data, offset, size)|..] == old(buffer[|RangeOf(data, offset, size)|..])
  {
    StoredIsDue(y, t, data, used, path, offset, size);
    r := OpenAndRead(y.image, y.world, used, cache, path, offset, buffer, size, RangeOf(data, offset, size));
  }
}
