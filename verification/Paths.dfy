/** Path resolution: from the root inode through directories, component by component. */
module Paths {
  import opened Words
  import opened Bytes
  import opened Strings
  import opened Disk
  import opened Directory
  import Inodes

  const SLASH: byte := 47

  // The parts of a mounted image that a walk uses; `root` is the root directory's reference.
  datatype Image = Image(disk: Disk, inodeTable: nat, directoryTable: nat, blockSize: uint32, root: uint64)

  datatype Fault = NoEntry | NotDirectory | InputOutput | OutOfMemory

  datatype Outcome = Found(inode: Inodes.Value) | Failed(fault: Fault)

  // sqfs_err_to_errno.
  function Errno(e: Error): Fault {
    match e
    case NotFound => NoEntry
    case NoMemory => OutOfMemory
    case _ => InputOutput
  }

  predicate IsDirectory(v: Inodes.Value) {
    v.header.kind == Inodes.DIRECTORY || v.header.kind == Inodes.LONG_DIRECTORY
  }

  function InodeAt(m: Image, ref: uint64): Result<Inodes.Value>
    requires m.blockSize > 0
  {
    Inodes.Load(m.disk, m.inodeTable + ref / 0x1_0000, ref % 0x1_0000, m.blockSize)
  }

  function EntriesIn(m: Image, v: Inodes.Value): Result<seq<Dirent>> {
    if v.body.Directory?
    then Listing(m.disk, m.directoryTable + v.body.block, v.body.offset, v.body.bytes)
    else Err(BadInode)
  }

  // The first entry with the name, by strcmp.
  function FirstNamed(entries: seq<Dirent>, name: bytes): Option<Dirent> {
    if entries == [] then None
    else if CString(entries[0].name) == name then Some(entries[0])
    else FirstNamed(entries[1..], name)
  }

  // The entry with the name, or what is reported instead.
  function Search(entries: Result<seq<Dirent>>, name: bytes): (Option<Dirent>, Fault) {
    if entries.Err? then (None, Errno(entries.error)) else (FirstNamed(entries.value, name), NoEntry)
  }

  // One component further. An entry whose inode cannot be loaded counts as missing.
  function Child(m: Image, v: Inodes.Value, name: bytes): Outcome
    requires m.blockSize > 0
  {
    if !IsDirectory(v) then Failed(NotDirectory)
    else
      var found := Search(EntriesIn(m, v), name);
      if found.0.None? then Failed(found.1)
      else match InodeAt(m, found.0.value.inodeRef)
        case Err(_) => Failed(NoEntry)
        case Ok(child) => Found(child)
  }

  function Walk(m: Image, v: Inodes.Value, names: seq<bytes>): Outcome
    requires m.blockSize > 0
    decreases |names|
  {
    if names == [] then Found(v)
    else match Child(m, v, names[0])
      case Failed(f) => Failed(f)
      case Found(child) => Walk(m, child, names[1..])
  }

  function SegmentLength(s: bytes): (n: nat)
    ensures n <= |s| && (n < |s| ==> s[n] == SLASH) && forall i :: 0 <= i < n ==> s[i] != SLASH
  {
    if s == [] || s[0] == SLASH then 0 else 1 + SegmentLength(s[1..])
  }

  // The non-empty parts between slashes.
  function Components(s: bytes): (names: seq<bytes>)
    ensures forall i :: 0 <= i < |names| ==> names[i] != [] && SLASH !in names[i]
    decreases |s|
  {
    if s == [] then []
    else if s[0] == SLASH then Components(s[1..])
    else [s[..SegmentLength(s)]] + Components(s[SegmentLength(s)..])
  }

  // What sqfs_vfs_resolve_path delivers. The first character of the path is not looked at.
  function Resolve(m: Image, path: bytes): Outcome
    requires m.blockSize > 0 && path != []
  {
    match InodeAt(m, m.root)
    case Err(e) => Failed(Errno(e))
    case Ok(root) => Walk(m, root, Components(path[1..]))
  }

  lemma {:induction false} SegmentOf(a: bytes, b: bytes)
    ensures SegmentLength(a + [SLASH] + b) == SegmentLength(a)
    decreases a
  {
    var s := a + [SLASH] + b;
    if a != [] && a[0] != SLASH {
      SegmentOf(a[1..], b);
      assert s[1..] == a[1..] + [SLASH] + b;
    }
  }

  // A slash separates.
  lemma {:induction false} ComponentsSplit(a: bytes, b: bytes)
    ensures Components(a + [SLASH] + b) == Components(a) + Components(b)
    decreases |a|
  {
    var s := a + [SLASH] + b;
    if a == [] {
      assert s[1..] == b;
    } else if a[0] == SLASH {
      assert s[1..] == a[1..] + [SLASH] + b;
      ComponentsSplit(a[1..], b);
    } else {
      var n := SegmentLength(a);
      SegmentOf(a, b);
      assert s[..n] == a[..n] && s[n..] == a[n..] + [SLASH] + b;
      ComponentsSplit(a[n..], b);
    }
  }

  // Repeated and trailing slashes make no difference.
  lemma SlashesCollapse(a: bytes, b: bytes)
    ensures Components(a + [SLASH] + ([SLASH] + b)) == Components(a + [SLASH] + b)
    ensures Components(a + [SLASH] + []) == Components(a)
  {
    ComponentsSplit(a, [SLASH] + b);
    ComponentsSplit(a, b);
    ComponentsSplit(a, []);
    ComponentsSplit([], b);
    assert [] + [SLASH] + b == [SLASH] + b;
  }

  function Joined(names: seq<bytes>): bytes {
    if names == [] then [] else [SLASH] + names[0] + Joined(names[1..])
  }

  lemma {:induction false} SegmentIs(s: bytes, n: nat)
    requires n <= |s| && (n < |s| ==> s[n] == SLASH) && forall i :: 0 <= i < n ==> s[i] != SLASH
    ensures SegmentLength(s) == n
    decreases n
  {
    if n > 0 {
      SegmentIs(s[1..], n - 1);
    }
  }

  lemma FirstComponent(name: bytes, rest: bytes)
    requires name != [] && SLASH !in name && (rest != [] ==> rest[0] == SLASH)
    ensures Components([SLASH] + name + rest) == [name] + Components(rest)
  {
    var s := name + rest;
    assert ([SLASH] + name + rest)[1..] == s;
    SegmentIs(s, |name|);
    assert s[..|name|] == name && s[|name|..] == rest;
  }

  // Every list of non-empty names without slashes is the components of a path.
  lemma {:induction false} ComponentsOfJoined(names: seq<bytes>)
    requires forall i :: 0 <= i < |names| ==> names[i] != [] && SLASH !in names[i]
    ensures Components(Joined(names)) == names
  {
    if names != [] {
      ComponentsOfJoined(names[1..]);
      FirstComponent(names[0], Joined(names[1..]));
      assert [names[0]] + names[1..] == names;
    }
  }

  lemma {:induction false} WalkSplit(m: Image, v: Inodes.Value, a: seq<bytes>, b: seq<bytes>)
    requires m.blockSize > 0
    ensures Walk(m, v, a + b) == match Walk(m, v, a) case Failed(f) => Failed(f) case Found(u) => Walk(m, u, b)
    decreases |a|
  {
    if a == [] {
      assert a + b == b;
    } else {
      assert (a + b)[1..] == a[1..] + b;
      var next := Child(m, v, a[0]);
      if next.Found? {
        WalkSplit(m, next.inode, a[1..], b);
      }
    }
  }

  // Resolving p/q is walking q from what p resolves to.
  lemma ResolveComposes(m: Image, p: bytes, q: bytes)
    requires m.blockSize > 0 && p != []
    ensures Resolve(m, p + [SLASH] + q) ==
      match Resolve(m, p)
      case Failed(f) => Failed(f)
      case Found(v) => Walk(m, v, Components(q))
  {
    assert (p + [SLASH] + q)[1..] == p[1..] + [SLASH] + q;
    ComponentsSplit(p[1..], q);
    var root := InodeAt(m, m.root);
    if root.Ok? {
      WalkSplit(m, root.value, Components(p[1..]), Components(q));
    }
  }

  // A walk stops for a non-directory exactly when it reaches one with components left.
  lemma {:induction false} NotDirectoryIff(m: Image, v: Inodes.Value, names: seq<bytes>)
    requires m.blockSize > 0
    ensures Walk(m, v, names) == Failed(NotDirectory) <==>
      exists k :: 0 <= k < |names| && StopsAt(m, v, names, k)
    decreases |names|
  {
    if names != [] {
      var next := Child(m, v, names[0]);
      if next.Found? {
        NotDirectoryIff(m, next.inode, names[1..]);
        forall k | 0 < k < |names|
          ensures StopsAt(m, v, names, k) <==> StopsAt(m, next.inode, names[1..], k - 1)
        {
          StopsLater(m, v, names, k, next.inode);
        }
        if Walk(m, v, names) == Failed(NotDirectory) {
          var k :| 0 <= k < |names[1..]| && StopsAt(m, next.inode, names[1..], k);
          assert StopsAt(m, v, names, k + 1);
        }
      } else {
        forall k | 0 < k < |names|
          ensures !StopsAt(m, v, names, k)
        {
          assert names[..k][0] == names[0];
        }
        assert StopsAt(m, v, names, 0) <==> !IsDirectory(v);
      }
    }
  }

  lemma StopsLater(m: Image, v: Inodes.Value, names: seq<bytes>, k: nat, next: Inodes.Value)
    requires m.blockSize > 0 && 0 < k < |names| && Child(m, v, names[0]) == Found(next)
    ensures StopsAt(m, v, names, k) <==> StopsAt(m, next, names[1..], k - 1)
  {
    assert names[..k][0] == names[0] && names[..k][1..] == names[1..][..k - 1];
  }

  predicate StopsAt(m: Image, v: Inodes.Value, names: seq<bytes>, k: nat)
    requires m.blockSize > 0 && k < |names|
  {
    Walk(m, v, names[..k]).Found? && !IsDirectory(Walk(m, v, names[..k]).inode)
  }

  // strtok_r with "/": the next token at or behind `from`, and where the search for another goes on.
  method NextToken(s: bytes, from: nat) returns (token: Option<bytes>, save: nat)
    requires from <= |s|
    ensures from <= save <= |s| && (token.Some? ==> from < save)
    ensures Components(s[from..]) == match token case None => [] case Some(t) => [t] + Components(s[save..])
  {
    var start := from;
    while start < |s| && s[start] == SLASH
      invariant from <= start <= |s| && Components(s[from..]) == Components(s[start..])
    {
      SlashSkipped(s, start);
      start := start + 1;
    }
    if start == |s| {
      return None, start;
    }
    var end := start + 1;
    while end < |s| && s[end] != SLASH
      invariant start < end <= |s| && forall i :: start <= i < end ==> s[i] != SLASH
    {
      end := end + 1;
    }
    TokenIsComponent(s, start, end);
    return Some(s[start..end]), if end < |s| then end + 1 else end;
  }

  lemma SlashSkipped(s: bytes, i: nat)
    requires i < |s| && s[i] == SLASH
    ensures Components(s[i..]) == Components(s[i + 1..])
  {
    assert s[i..][1..] == s[i + 1..];
  }

  lemma TokenIsComponent(s: bytes, start: nat, end: nat)
    requires start < end <= |s| && (end < |s| ==> s[end] == SLASH) && forall i :: start <= i < end ==> s[i] != SLASH
    ensures Components(s[start..]) == [s[start..end]] + Components(s[if end < |s| then end + 1 else end..])
  {
    var rest := s[start..];
    SegmentIs(rest, end - start);
    assert rest[..end - start] == s[start..end] && rest[end - start..] == s[end..];
    if end < |s| {
      assert s[end..][1..] == s[end + 1..];
    }
  }

  // The loop over a directory's entries.
  method FindEntry(entries: array<Dirent>, count: nat, name: bytes) returns (r: Option<Dirent>)
    requires count <= entries.Length
    ensures r == FirstNamed(entries[..count], name)
  {
    ghost var rest := entries[..count];
    for i := 0 to count
      invariant rest == entries[i..count] && FirstNamed(entries[..count], name) == FirstNamed(rest, name)
    {
      if CString(entries[i].name) == name {
        return Some(entries[i]);
      }
      rest := rest[1..];
    }
    return None;
  }

  // When allocations fail a walk may end with that, or, if the inode of the entry it looked for could
  // not be allocated, as if there were no such entry.
  predicate OutOfLuck(memory: bool, f: Fault) { !memory && (f == OutOfMemory || f == NoEntry) }

  // Reads a directory and searches it.
  method LookUp(m: Image, v: Inodes.Value, name: bytes, memory: bool) returns (r: Option<Dirent>, fault: Fault)
    requires v.body.Directory?
    ensures (r, fault) == Search(EntriesIn(m, v), name) || (r.None? && OutOfLuck(memory, fault))
  {
    var body := v.body;
    var listed, entries, count :=
      ReadDirectory(m.disk, true, m.directoryTable + body.block, body.offset, body.bytes, memory);
    if listed.Err? {
      return None, Errno(listed.error);
    }
    r := FindEntry(entries, count, name);
    fault := NoEntry;
  }

  method LoadInode(m: Image, ref: uint64, memory: bool) returns (r: Result<Inodes.Inode>)
    requires m.blockSize > 0
    ensures r.Ok? ==> fresh(r.value) && fresh(r.value.blockSizes) && InodeAt(m, ref) == Ok(r.value.Contents())
    ensures r.Err? ==> InodeAt(m, ref) == Err(r.error) || (!memory && r.error == NoMemory)
  {
    r := Inodes.GetByRef(m.disk, m.inodeTable + ref / 0x1_0000, ref % 0x1_0000, m.blockSize, memory);
  }

  // The body of the loop: from an inode to the child with the name.
  method Descend(m: Image, inode: Inodes.Inode, name: bytes, memory: bool)
    returns (r: Result<Inodes.Inode>, fault: Fault)
    requires m.blockSize > 0
    ensures r.Ok? ==>
      fresh(r.value) && fresh(r.value.blockSizes) && Child(m, inode.Contents(), name) == Found(r.value.Contents())
    ensures r.Err? ==> Child(m, inode.Contents(), name) == Failed(fault) || OutOfLuck(memory, fault)
  {
    if inode.header.kind != Inodes.DIRECTORY && inode.header.kind != Inodes.LONG_DIRECTORY {
      return Err(BadDir), NotDirectory;
    }
    if !inode.body.Directory? {
      return Err(BadInode), InputOutput;
    }
    var entry;
    entry, fault := LookUp(m, Inodes.Value(inode.header, inode.links, inode.body), name, memory);
    if entry.None? {
      return Err(NotFound), fault;
    }
    r := LoadInode(m, entry.value.inodeRef, memory);
  }

  // sqfs_vfs_resolve_path.
  method ResolvePath(m: Image, path: bytes, memory: bool) returns (r: Option<Inodes.Inode>, fault: Fault)
    requires m.blockSize > 0 && path != [] && 0 !in path
    ensures r.Some? ==> fresh(r.value) && Resolve(m, path) == Found(r.value.Contents())
    ensures r.None? ==> Resolve(m, path) == Failed(fault) || OutOfLuck(memory, fault)
  {
    fault := NoEntry;
    var root := LoadInode(m, m.root, memory);
    if root.Err? {
      return None, Errno(root.error);
    }
    var inode := root.value;
    if path == [SLASH] {
      assert path[1..] == [];
      return Some(inode), fault;
    }
    var available: bool := *;
    if !memory && !available {
      return None, OutOfMemory;
    }
    ghost var wanted := Resolve(m, path);
    var token, save := NextToken(path, 1);
    ghost var names := Components(path[1..]);
    while token.Some?
      invariant save <= |path| && fresh(inode) && wanted == Walk(m, inode.Contents(), names)
      invariant names == match token case None => [] case Some(t) => [t] + Components(path[save..])
      decreases |names|
    {
      var child, f := Descend(m, inode, token.value, memory);
      if child.Err? {
        return None, f;
      }
      inode := child.value;
      names := Components(path[save..]);
      token, save := NextToken(path, save);
    }
    return Some(inode), fault;
  }
}
