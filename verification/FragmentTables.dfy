/** Loading the fragment table: an array of records kept in metadata blocks, found through an index. */
module FragmentTables {
  import opened Words
  import opened Bytes
  import opened Buffers
  import opened Disk
  import opened FileContents
  import Metadata

  const RECORD_SIZE: nat := 16
  const RECORDS_PER_BLOCK: nat := 512

  // The number of blocks, as read_fragment_table_index computes it on 32 bits.
  function BlockCount(n: uint32): nat { Word32(n + 511) / 512 }

  // These blocks have room for all the records exactly when the addition does not wrap around;
  // when it does, there are none.
  lemma BlocksSuffice(n: uint32)
    requires n > 0
    ensures n <= RECORDS_PER_BLOCK * BlockCount(n) <==> n + 511 < 0x1_0000_0000
    ensures n + 511 < 0x1_0000_0000 ==> RECORDS_PER_BLOCK * (BlockCount(n) - 1) < n
    ensures n + 511 >= 0x1_0000_0000 ==> BlockCount(n) == 0
  {
  }

  function Record(data: bytes, i: nat): FragmentEntry
    requires RECORD_SIZE * i + RECORD_SIZE <= |data|
  {
    FragmentEntry(Le64(data, RECORD_SIZE * i), Le32(data, RECORD_SIZE * i + 8))
  }

  function Records(data: bytes, n: nat): (s: seq<FragmentEntry>)
    requires RECORD_SIZE * n <= |data|
    ensures |s| == n && forall i :: 0 <= i < n ==> s[i] == Record(data, i)
  {
    seq(n, i requires 0 <= i < n => Record(data, i))
  }

  function Prepend(a: seq<FragmentEntry>, r: Result<seq<FragmentEntry>>): Result<seq<FragmentEntry>> {
    match r
    case Ok(more) => Ok(a + more)
    case Err(e) => Err(e)
  }

  // The records of one block, of which `left` are still to come.
  function FromBlock(d: Disk, addr: uint64, left: nat): Result<seq<FragmentEntry>> {
    match Metadata.BlockAt(d, addr, Metadata.Strict)
    case Err(e) => Err(e)
    case Ok(b) =>
      var n := Least(left, RECORDS_PER_BLOCK);
      if RECORD_SIZE * n > |b.data| then Err(Corrupt) else Ok(Records(b.data, n))
  }

  // The records of the blocks at these addresses.
  function FromBlocks(d: Disk, addrs: seq<uint64>, left: nat): Result<seq<FragmentEntry>> {
    if addrs == [] then Ok([])
    else match FromBlock(d, addrs[0], left)
      case Err(e) => Err(e)
      case Ok(records) => Prepend(records, FromBlocks(d, addrs[1..], left - |records|))
  }

  function Addresses(index: bytes, n: nat): (s: seq<uint64>)
    requires 8 * n <= |index|
    ensures |s| == n && forall i :: 0 <= i < n ==> s[i] == Le64(index, 8 * i)
  {
    seq(n, i requires 0 <= i < n => Le64(index, 8 * i))
  }

  // What calloc leaves in a record.
  const NO_RECORD := FragmentEntry(0, 0)

  function Padded(s: seq<FragmentEntry>, n: nat): seq<FragmentEntry> {
    if |s| < n then s + seq(n - |s|, _ => NO_RECORD) else s
  }

  function FillTable(n: nat, r: Result<seq<FragmentEntry>>): Result<seq<FragmentEntry>> {
    match r
    case Err(e) => Err(e)
    case Ok(s) => Ok(Padded(s, n))
  }

  // The entries that sqfs_fragment_table_load leaves in the table; `count` is BlockCount(n).
  function EntriesOf(d: Disk, table: nat, n: nat, count: nat): Result<seq<FragmentEntry>> {
    match ReadAt(d, table, 8 * count)
    case None => Err(Corrupt)
    case Some(index) => FillTable(n, FromBlocks(d, Addresses(index, count), n))
  }

  function TableEntries(d: Disk, table: nat, n: uint32): Result<seq<FragmentEntry>> {
    EntriesOf(d, table, n, BlockCount(n))
  }

  lemma FirstBlock(d: Disk, addrs: seq<uint64>, left: nat)
    requires addrs != [] && FromBlocks(d, addrs, left).Ok?
    ensures FromBlock(d, addrs[0], left).Ok? && |FromBlock(d, addrs[0], left).value| == Least(left, 512)
    ensures FromBlocks(d, addrs[1..], left - Least(left, 512)).Ok?
    ensures FromBlocks(d, addrs, left).value ==
      FromBlock(d, addrs[0], left).value + FromBlocks(d, addrs[1..], left - Least(left, 512)).value
  {
  }

  lemma {:induction false} RecordCount(d: Disk, addrs: seq<uint64>, left: nat)
    requires FromBlocks(d, addrs, left).Ok? && left <= 512 * |addrs|
    ensures |FromBlocks(d, addrs, left).value| == left
    decreases |addrs|
  {
    if addrs != [] {
      FirstBlock(d, addrs, left);
      RecordCount(d, addrs[1..], left - Least(left, 512));
    }
  }

  // e is record i of the block at `addr`.
  predicate IsRecord(d: Disk, addr: uint64, i: nat, e: FragmentEntry) {
    var b := Metadata.BlockAt(d, addr, Metadata.Strict);
    b.Ok? && 16 * i + 16 <= |b.value.data| && e == Record(b.value.data, i)
  }

  lemma RecordOfFirst(d: Disk, addr: uint64, left: nat, i: nat)
    requires FromBlock(d, addr, left).Ok? && i < Least(left, 512)
    ensures |FromBlock(d, addr, left).value| == Least(left, 512)
      && IsRecord(d, addr, i, FromBlock(d, addr, left).value[i])
  {
  }

  // With blocks enough, entry k is record k mod 512 of block k div 512.
  lemma {:induction false} RecordOfBlock(d: Disk, addrs: seq<uint64>, left: nat, k: nat, q: nat, i: nat)
    requires FromBlocks(d, addrs, left).Ok? && left <= 512 * |addrs|
    requires k < left && k == 512 * q + i && i < 512
    ensures q < |addrs| && |FromBlocks(d, addrs, left).value| == left
    ensures IsRecord(d, addrs[q], i, FromBlocks(d, addrs, left).value[k])
    decreases |addrs|
  {
    FirstBlock(d, addrs, left);
    RecordCount(d, addrs, left);
    var first, rest := FromBlock(d, addrs[0], left).value, addrs[1..];
    if q > 0 {
      var more := FromBlocks(d, rest, left - 512).value;
      RecordOfBlock(d, rest, left - 512, k - 512, q - 1, i);
      assert (first + more)[k] == more[k - 512] && addrs[q] == rest[q - 1];
    } else {
      RecordOfFirst(d, addrs[0], left, i);
    }
  }

  lemma AddressInIndex(d: Disk, table: nat, count: nat, q: nat)
    requires ReadAt(d, table, 8 * count).Some? && q < count
    ensures table + 8 * q + 8 <= |d.image|
    ensures Addresses(ReadAt(d, table, 8 * count).value, count)[q] == Le64(d.image, table + 8 * q)
  {
  }

  // The loaded table is the flat array: element k is record k mod 512 of the block at index k div 512.
  lemma TableIsFlat(d: Disk, table: nat, n: uint32, k: nat, q: nat, i: nat)
    requires TableEntries(d, table, n).Ok? && n + 511 < WORD_32
    requires k < n && k == 512 * q + i && i < 512
    ensures |TableEntries(d, table, n).value| == n && table + 8 * q + 8 <= |d.image|
    ensures IsRecord(d, Le64(d.image, table + 8 * q), i, TableEntries(d, table, n).value[k])
  {
    var count := BlockCount(n);
    BlocksSuffice(n);
    var addrs := Addresses(ReadAt(d, table, 8 * count).value, count);
    RecordOfBlock(d, addrs, n, k, q, i);
    AddressInIndex(d, table, count, q);
    assert TableEntries(d, table, n).value == FromBlocks(d, addrs, n).value;
  }

  // A record count whose rounding wraps around: the table counts as loaded, but nothing was read.
  lemma TableWraps(d: Disk, table: nat, n: uint32)
    requires n + 511 >= WORD_32
    ensures TableEntries(d, table, n) == Ok(seq(n, _ => NO_RECORD))
  {
    BlocksSuffice(n);
    assert Addresses([], 0) == [];
    assert Padded([], n) == seq(n, _ => NO_RECORD);
  }

  // The table as an image holds it; the last word of a record is reserved.
  function StoreRecords(records: seq<FragmentEntry>): (b: bytes)
    ensures |b| == RECORD_SIZE * |records|
  {
    if records == [] then []
    else ToLe64(records[0].start) + ToLe32(records[0].size) + ToLe32(0) + StoreRecords(records[1..])
  }

  lemma {:induction false} StoredRecord(records: seq<FragmentEntry>, k: nat)
    requires k < |records|
    ensures Record(StoreRecords(records), k) == records[k]
    decreases k
  {
    var first := ToLe64(records[0].start) + ToLe32(records[0].size) + ToLe32(0);
    var rest := StoreRecords(records[1..]);
    if k == 0 {
      assert (first + rest)[0..8] == ToLe64(records[0].start) && (first + rest)[8..12] == ToLe32(records[0].size);
      LongFieldIs(first + rest, 0, ToLe64(records[0].start));
      WideFieldIs(first + rest, 8, ToLe32(records[0].size));
    } else {
      StoredRecord(records[1..], k - 1);
      RecordBehind(first, rest, k - 1);
    }
  }

  lemma RecordBehind(first: bytes, rest: bytes, i: nat)
    requires |first| == 16 && 16 * i + 16 <= |rest|
    ensures Record(first + rest, i + 1) == Record(rest, i)
  {
    FieldsBehind(first, rest, 16 * i);
  }

  lemma FieldsBehind(first: bytes, rest: bytes, p: nat)
    requires p + 16 <= |rest|
    ensures Le64(first + rest, |first| + p) == Le64(rest, p) && Le32(first + rest, |first| + p + 8) == Le32(rest, p + 8)
  {
  }

  lemma {:induction false} RecordsRestored(records: seq<FragmentEntry>)
    ensures Records(StoreRecords(records), |records|) == records
  {
    forall k | 0 <= k < |records|
      ensures Record(StoreRecords(records), k) == records[k]
    {
      StoredRecord(records, k);
    }
  }

  // The contents of the table's metadata blocks, 512 records in each but the last.
  function RecordChunks(records: seq<FragmentEntry>): (chunks: seq<bytes>)
    ensures Metadata.Chunks(chunks)
    ensures 512 * |chunks| < |records| + 512 && |records| <= 512 * |chunks|
    decreases |records|
  {
    if records == [] then []
    else
      var n := Least(|records|, 512);
      [StoreRecords(records[..n])] + RecordChunks(records[n..])
  }

  // These are the addresses of chunks laid out from `start` on.
  ghost predicate Addressed(addrs: seq<uint64>, deflate: bytes -> bytes, start: nat, chunks: seq<bytes>)
    requires Metadata.Chunks(chunks)
    decreases |chunks|
  {
    && |addrs| == |chunks|
    && (chunks != [] ==>
          && addrs[0] == start
          && Addressed(addrs[1..], deflate, start + |Metadata.Store(deflate, chunks[0])|, chunks[1..]))
  }

  lemma FirstRecords(d: Disk, deflate: bytes -> bytes, addr: uint64, records: seq<FragmentEntry>, left: nat)
    requires 0 < |records| <= 512 && |records| == Least(left, 512)
    requires Metadata.StoredAt(d, deflate, addr, StoreRecords(records))
    ensures FromBlock(d, addr, left) == Ok(records)
  {
    Metadata.StoredBlock(d, deflate, addr, StoreRecords(records), Metadata.Strict);
    RecordsRestored(records);
  }

  lemma FirstAndRest(d: Disk, addrs: seq<uint64>, left: nat, first: seq<FragmentEntry>, rest: seq<FragmentEntry>)
    requires addrs != [] && |first| == Least(left, 512)
    requires FromBlock(d, addrs[0], left) == Ok(first) && FromBlocks(d, addrs[1..], left - |first|) == Ok(rest)
    ensures FromBlocks(d, addrs, left) == Ok(first + rest)
  {
  }

  // The chunks are laid out at their addresses.
  ghost predicate Placed(d: Disk, deflate: bytes -> bytes, start: nat, chunks: seq<bytes>, addrs: seq<uint64>) {
    Metadata.Chunks(chunks) && Metadata.LaidOut(d, deflate, start, chunks) && Addressed(addrs, deflate, start, chunks)
  }

  lemma FirstChunk(d: Disk, deflate: bytes -> bytes, start: nat, chunks: seq<bytes>, addrs: seq<uint64>)
    requires Placed(d, deflate, start, chunks, addrs) && chunks != []
    ensures |addrs| == |chunks| && addrs[0] == start && Metadata.StoredAt(d, deflate, start, chunks[0])
    ensures Placed(d, deflate, start + |Metadata.Store(deflate, chunks[0])|, chunks[1..], addrs[1..])
  {
  }

  lemma {:induction false} BlocksRoundTrip(d: Disk, deflate: bytes -> bytes, start: nat,
      records: seq<FragmentEntry>, chunks: seq<bytes>, addrs: seq<uint64>)
    requires chunks == RecordChunks(records)
    requires Placed(d, deflate, start, chunks, addrs)
    ensures FromBlocks(d, addrs, |records|) == Ok(records)
    decreases |records|
  {
    if records != [] {
      var n := Least(|records|, 512);
      var first, rest := records[..n], records[n..];
      assert first + rest == records;
      assert chunks[0] == StoreRecords(first) && chunks[1..] == RecordChunks(rest);
      FirstChunk(d, deflate, start, chunks, addrs);
      FirstRecords(d, deflate, start, first, |records|);
      BlocksRoundTrip(d, deflate, start + |Metadata.Store(deflate, chunks[0])|, rest, chunks[1..], addrs[1..]);
      FirstAndRest(d, addrs, |records|, first, rest);
    }
  }

  // A table stored in metadata blocks, with an index of their addresses, is loaded as it was.
  lemma TableRoundTrip(
      d: Disk, deflate: bytes -> bytes, table: nat, start: nat, records: seq<FragmentEntry>, index: bytes)
    requires |records| + 511 < WORD_32 && Metadata.LaidOut(d, deflate, start, RecordChunks(records))
    requires |index| == 8 * |RecordChunks(records)| && PartAt(d.image, table, index)
    requires Addressed(Addresses(index, |RecordChunks(records)|), deflate, start, RecordChunks(records))
    ensures TableEntries(d, table, |records|) == Ok(records)
  {
    var count := |RecordChunks(records)|;
    CountOfChunks(|records|, count);
    BlocksRoundTrip(d, deflate, start, records, RecordChunks(records), Addresses(index, count));
    IndexRead(d, table, index, 8 * count);
    EntriesFound(d, table, index, count, records);
  }

  lemma CountOfChunks(n: uint32, count: nat)
    requires n + 511 < WORD_32 && 512 * count < n + 512 && n <= 512 * count
    ensures BlockCount(n) == count
  {
  }

  lemma IndexRead(d: Disk, table: nat, index: bytes, n: nat)
    requires |index| == n && PartAt(d.image, table, index)
    ensures ReadAt(d, table, n) == Some(index)
  {
  }

  lemma EntriesFound(d: Disk, table: nat, index: bytes, count: nat, records: seq<FragmentEntry>)
    requires ReadAt(d, table, 8 * count) == Some(index)
    requires FromBlocks(d, Addresses(index, count), |records|) == Ok(records)
    ensures EntriesOf(d, table, |records|, count) == Ok(records)
  {
    assert Padded(records, |records|) == records;
  }

  lemma PrependTwice(a: seq<FragmentEntry>, b: seq<FragmentEntry>, r: Result<seq<FragmentEntry>>)
    ensures Prepend(a, Prepend(b, r)) == Prepend(a + b, r) && Prepend([], r) == r
  {
    if r.Ok? {
      assert a + (b + r.value) == a + b + r.value;
      assert [] + r.value == r.value;
    }
  }

  lemma AllFilled(d: Disk, addrs: seq<uint64>, all: seq<FragmentEntry>, read: nat, got: seq<FragmentEntry>,
      wanted: Result<seq<FragmentEntry>>)
    requires addrs == [] && read <= |all| && wanted == Prepend(got, FromBlocks(d, addrs, |all| - read))
    requires all[..read] == got && forall k :: read <= k < |all| ==> all[k] == NO_RECORD
    ensures FillTable(|all|, wanted) == Ok(all)
  {
    assert got + [] == got;
    assert Padded(got, |all|) == all;
  }

  // sqfs_fragment_table_t.
  class Table {
    var entries: array<FragmentEntry>
    var count: uint32
    var loaded: bool

    constructor ()
      ensures fresh(entries) && entries.Length == 0 && count == 0 && !loaded
    {
      entries, count, loaded := new FragmentEntry[0], 0, false;
    }

    // The table as FragmentContents knows it.
    ghost function Contents(): FragmentTable
      reads this, entries
    {
      FragmentTable(loaded, entries[..])
    }

    // The table after loading: `wanted` are its entries, or the error.
    ghost predicate Loads(r: Result<()>, wanted: Result<seq<FragmentEntry>>, memory: bool)
      reads this, entries
    {
      if r.Ok? then wanted.Ok? && Contents() == FragmentTable(true, wanted.value) && count == |wanted.value|
      else Contents() == FragmentTable(false, []) && (wanted == Err(r.error) || (!memory && r.error == NoMemory))
    }

    // The first entries are `got`, the others what calloc left.
    ghost predicate Filled(read: nat, got: seq<FragmentEntry>)
      reads this`entries, entries
    {
      read <= entries.Length && entries[..read] == got &&
      forall k :: read <= k < entries.Length ==> entries[k] == NO_RECORD
    }

    // Copies the records of one block behind those already read.
    method CopyBlock(d: Disk, addr: uint64, read: nat, left: nat, memory: bool, ghost got: seq<FragmentEntry>)
      returns (r: Result<nat>)
      requires read + left == entries.Length && Filled(read, got)
      modifies entries
      ensures r.Err? ==> FromBlock(d, addr, left) == Err(r.error) || (!memory && r.error == NoMemory)
      ensures r.Ok? ==> FromBlock(d, addr, left).Ok? && r.value == |FromBlock(d, addr, left).value| <= left
      ensures r.Ok? ==> Filled(read + r.value, got + FromBlock(d, addr, left).value)
    {
      var block := Metadata.ReadStrict(d, addr, memory);
      if block.Err? {
        return Err(block.error);
      }
      var n := Least(left, RECORDS_PER_BLOCK);
      if RECORD_SIZE * n > |block.value| {
        return Err(Corrupt);
      }
      forall i | 0 <= i < n {
        entries[read + i] := Record(block.value, i);
      }
      assert entries[..read] == got;
      return Ok(n);
    }

    // One round of load_fragment_entries. `wanted` are the records of all blocks.
    method LoadBlock(d: Disk, addr: uint64, read: nat, left: nat, memory: bool,
        ghost wanted: Result<seq<FragmentEntry>>, ghost got: seq<FragmentEntry>, ghost rest: seq<uint64>)
      returns (r: Result<nat>, ghost got': seq<FragmentEntry>)
      requires rest != [] && addr == rest[0] && read + left == entries.Length && Filled(read, got)
      requires wanted == Prepend(got, FromBlocks(d, rest, left))
      modifies entries
      ensures r.Err? ==> wanted == Err(r.error) || (!memory && r.error == NoMemory)
      ensures r.Ok? ==> r.value <= left && Filled(read + r.value, got')
      ensures r.Ok? ==> wanted == Prepend(got', FromBlocks(d, rest[1..], left - r.value))
    {
      got' := got;
      r := CopyBlock(d, addr, read, left, memory, got);
      if r.Ok? {
        ghost var records := FromBlock(d, addr, left).value;
        PrependTwice(got, records, FromBlocks(d, rest[1..], left - |records|));
        got' := got + records;
      }
    }

    // load_fragment_entries.
    method LoadEntries(d: Disk, addrs: seq<uint64>, memory: bool) returns (r: Result<nat>)
      requires Filled(0, [])
      modifies entries
      ensures r.Err? ==> FromBlocks(d, addrs, entries.Length) == Err(r.error) || (!memory && r.error == NoMemory)
      ensures r.Ok? ==> FillTable(entries.Length, FromBlocks(d, addrs, entries.Length)) == Ok(entries[..])
    {
      var available: bool := *;
      if !memory && !available {
        return Err(NoMemory);
      }
      ghost var wanted, got, rest := FromBlocks(d, addrs, entries.Length), [], addrs;
      PrependTwice([], [], wanted);
      var read: nat, i: nat, left: nat := 0, 0, entries.Length;
      while i < |addrs|
        invariant i <= |addrs| && rest == addrs[i..] && read + left == entries.Length && Filled(read, got)
        invariant wanted == Prepend(got, FromBlocks(d, rest, left))
      {
        var n;
        n, got := LoadBlock(d, addrs[i], read, left, memory, wanted, got, rest);
        if n.Err? {
          return n;
        }
        rest := rest[1..];
        read, i, left := read + n.value, i + 1, left - n.value;
      }
      AllFilled(d, rest, entries[..], read, got, wanted);
      return Ok(read);
    }

    // sqfs_fragment_table_load.
    method Load(d: Disk, hasFragments: bool, n: uint32, table: nat, memory: bool) returns (r: Result<()>)
      requires !loaded ==> entries.Length == 0
      modifies this
      ensures old(loaded) ==> r.Ok? && Contents() == old(Contents()) && count == old(count)
      ensures !old(loaded) ==> Loads(r, if hasFragments then TableEntries(d, table, n) else Ok([]), memory)
    {
      if loaded {
        return Ok(());
      }
      if !hasFragments || n == 0 {
        EmptyTable(d, table);
        count, loaded := 0, true;
        return Ok(());
      }
      var none := entries;
      var available: bool, indexAvailable: bool := *, *;
      if !memory && !available {
        return Err(NoMemory);
      }
      entries := new FragmentEntry[n](_ => NO_RECORD);
      if !memory && !indexAvailable {
        entries := none;
        return Err(NoMemory);
      }
      var index := ReadAt(d, table, 8 * BlockCount(n));
      if index.None? {
        entries := none;
        return Err(Corrupt);
      }
      var done := LoadEntries(d, Addresses(index.value, BlockCount(n)), memory);
      if done.Err? {
        entries := none;
        return Err(done.error);
      }
      count, loaded := n, true;
      r := Ok(());
    }

    // sqfs_fragment_get_entry.
    method GetEntry(index: uint32) returns (r: Result<FragmentEntry>)
      requires loaded ==> entries.Length == count
      ensures r ==
        if !loaded then Err(Corrupt)
        else if index < |Contents().entries| then Ok(Contents().entries[index])
        else Err(NotFound)
    {
      if !loaded {
        return Err(Corrupt);
      }
      if index >= count {
        return Err(NotFound);
      }
      return Ok(entries[index]);
    }
  }

  lemma EmptyTable(d: Disk, table: nat)
    ensures TableEntries(d, table, 0) == Ok([])
  {
    assert Addresses([], 0) == [];
  }
}
