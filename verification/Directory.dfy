/** The directory table: its grammar, a serializer, and the parser that turns listings into entries. */
module Directory {
  import opened Words
  import opened Bytes
  import opened Buffers
  import opened Disk
  import Metadata

  const HEADER_SIZE: nat := 12
  const ENTRY_SIZE: nat := 8

  // An entry and a run of entries as they are stored.
  datatype Record = Record(offset: uint16, delta: uint16, kind: uint16, name: bytes)
  datatype Run = Run(start: uint32, inodeNumber: uint32, records: seq<Record>)

  // sqfs_dirent_t.
  datatype Dirent = Dirent(name: bytes, inodeNumber: uint64, inodeRef: uint64, kind: uint16)

  // What the casts (int16_t) and (int32_t) read.
  function Int16(n: uint16): int { if n < 0x8000 then n else n - 0x1_0000 }
  function Int32(n: uint32): int { if n < 0x8000_0000 then n else n - 0x1_0000_0000 }

  function InodeNumber(base: uint32, delta: uint16): uint64 { Word64(Int32(base) + Int16(delta)) }
  function InodeRef(start: uint32, offset: uint16): uint64 { start * 0x1_0000 + offset }

  // The inode number is the header's plus the entry's signed offset exactly when the former is below 2^31.
  lemma InodeNumberIsSum(base: uint32, delta: uint16)
    ensures InodeNumber(base, delta) == Word64(base + Int16(delta)) <==> base < 0x8000_0000
  {
    if base >= 0x8000_0000 {
      var n := base + Int16(delta);
      assert (n - 0x1_0000_0000) % 0x1_0000_0000_0000_0000 != n % 0x1_0000_0000_0000_0000;
    }
  }

  function Entry(start: uint32, base: uint32, r: Record): Dirent {
    Dirent(r.name, InodeNumber(base, r.delta), InodeRef(start, r.offset), r.kind)
  }

  function Entries(start: uint32, base: uint32, records: seq<Record>): (es: seq<Dirent>)
    ensures |es| == |records|
  {
    if records == [] then [] else [Entry(start, base, records[0])] + Entries(start, base, records[1..])
  }

  function Flatten(runs: seq<Run>): seq<Dirent> {
    if runs == [] then [] else Entries(runs[0].start, runs[0].inodeNumber, runs[0].records) + Flatten(runs[1..])
  }

  // The stored form. Counts and name lengths are stored less one, modulo the width of the field, so
  // that a run without entries and an empty name have a stored form as well.
  predicate ValidRecord(r: Record) { 1 <= r.kind <= 7 && |r.name| < 0x1_0000 }

  predicate ValidRun(run: Run) {
    |run.records| < 0x1_0000_0000 && forall i :: 0 <= i < |run.records| ==> ValidRecord(run.records[i])
  }

  predicate ValidRuns(runs: seq<Run>) {
    forall i :: 0 <= i < |runs| ==> ValidRun(runs[i])
  }

  function StoreRecord(r: Record): (b: bytes)
    requires ValidRecord(r)
    ensures |b| == ENTRY_SIZE + |r.name|
  {
    ToLe16(r.offset) + ToLe16(r.delta) + ToLe16(r.kind) + ToLe16(Word16(|r.name| - 1)) + r.name
  }

  function StoreRecords(records: seq<Record>): bytes
    requires forall i :: 0 <= i < |records| ==> ValidRecord(records[i])
  {
    if records == [] then [] else StoreRecord(records[0]) + StoreRecords(records[1..])
  }

  function StoreHeader(h: Header): (b: bytes)
    ensures |b| == HEADER_SIZE
  {
    ToLe32(Word32(h.count - 1)) + ToLe32(h.start) + ToLe32(h.inodeNumber)
  }

  function HeaderOf(run: Run): Header
    requires ValidRun(run)
  {
    Header(|run.records|, run.start, run.inodeNumber)
  }

  function StoreRun(run: Run): bytes
    requires ValidRun(run)
  {
    StoreHeader(HeaderOf(run)) + StoreRecords(run.records)
  }

  function StoreRuns(runs: seq<Run>): bytes
    requires ValidRuns(runs)
  {
    if runs == [] then [] else StoreRun(runs[0]) + StoreRuns(runs[1..])
  }

  // What the parser recognizes at the front of b.
  function TakeRecord(b: bytes): (r: Option<Record>)
    ensures r.Some? ==> ValidRecord(r.value) && ENTRY_SIZE + |r.value.name| <= |b|
  {
    if |b| < ENTRY_SIZE then None
    else
      var length := Word16(Le16(b, 6) + 1);
      if |b| < ENTRY_SIZE + length then None
      else if Le16(b, 4) < 1 || Le16(b, 4) > 7 then None
      else Some(Record(Le16(b, 0), Le16(b, 2), Le16(b, 4), b[ENTRY_SIZE..ENTRY_SIZE + length]))
  }

  // n records, and what follows them.
  function TakeRecords(b: bytes, n: nat): (r: Option<(seq<Record>, bytes)>)
    ensures r.Some? ==> |r.value.0| == n && |r.value.1| <= |b|
    ensures r.Some? ==> forall i :: 0 <= i < n ==> ValidRecord(r.value.0[i])
    decreases n
  {
    if n == 0 then Some(([], b))
    else match TakeRecord(b)
      case None => None
      case Some(first) =>
        match TakeRecords(b[ENTRY_SIZE + |first.name|..], n - 1)
        case None => None
        case Some((more, rest)) => Some(([first] + more, rest))
  }

  datatype Header = Header(count: uint32, start: uint32, inodeNumber: uint32)

  function TakeHeader(b: bytes): Header
    requires |b| >= HEADER_SIZE
  {
    Header(Word32(Le32(b, 0) + 1), Le32(b, 4), Le32(b, 8))
  }

  function TakeRuns(b: bytes): (r: Option<seq<Run>>)
    ensures r.Some? ==> ValidRuns(r.value)
    decreases |b|
  {
    if b == [] then Some([])
    else if |b| < HEADER_SIZE then None
    else match TakeRecords(b[HEADER_SIZE..], TakeHeader(b).count)
      case None => None
      case Some((records, rest)) =>
        match TakeRuns(rest)
        case None => None
        case Some(more) => Some([Run(TakeHeader(b).start, TakeHeader(b).inodeNumber, records)] + more)
  }

  // What parse_directory_entries delivers.
  function Parse(b: bytes): Result<seq<Dirent>> {
    match TakeRuns(b)
    case None => Err(BadDir)
    case Some(runs) => Ok(Flatten(runs))
  }

  lemma FieldsOf(r: Record, rest: bytes)
    requires ValidRecord(r)
    ensures TakeRecord(StoreRecord(r) + rest) == Some(r)
    ensures (StoreRecord(r) + rest)[ENTRY_SIZE + |r.name|..] == rest
  {
    var b := StoreRecord(r) + rest;
    assert b[0..2] == ToLe16(r.offset) && b[2..4] == ToLe16(r.delta);
    assert b[4..6] == ToLe16(r.kind) && b[6..8] == ToLe16(Word16(|r.name| - 1));
    assert b[8..8 + |r.name|] == r.name;
  }

  lemma RecordOf(b: bytes)
    requires TakeRecord(b).Some?
    ensures b == StoreRecord(TakeRecord(b).value) + b[ENTRY_SIZE + |TakeRecord(b).value.name|..]
  {
    var r := TakeRecord(b).value;
    FieldOf(b, 0);
    FieldOf(b, 2);
    FieldOf(b, 4);
    FieldOf(b, 6);
    assert Word16(|r.name| - 1) == Le16(b, 6);
    assert b == b[0..2] + b[2..4] + b[4..6] + b[6..8] + b[8..8 + |r.name|] + b[8 + |r.name|..];
  }

  lemma TakeMore(b: bytes, first: Record, tail: bytes, more: seq<Record>, rest: bytes)
    requires TakeRecord(b) == Some(first) && b[ENTRY_SIZE + |first.name|..] == tail
    requires TakeRecords(tail, |more|) == Some((more, rest))
    ensures TakeRecords(b, |more| + 1) == Some(([first] + more, rest))
  {
  }

  lemma {:induction false} RecordsRoundTrip(records: seq<Record>, rest: bytes)
    requires forall i :: 0 <= i < |records| ==> ValidRecord(records[i])
    ensures TakeRecords(StoreRecords(records) + rest, |records|) == Some((records, rest))
  {
    if records == [] {
      assert StoreRecords(records) + rest == rest;
    } else {
      var first, more := StoreRecord(records[0]), StoreRecords(records[1..]);
      Associative(first, more, rest);
      var tail := more + rest;
      FieldsOf(records[0], tail);
      RecordsRoundTrip(records[1..], rest);
      TakeMore(first + tail, records[0], tail, records[1..], rest);
      assert [records[0]] + records[1..] == records;
    }
  }

  lemma {:induction false} RecordsOf(b: bytes, n: nat)
    requires TakeRecords(b, n).Some?
    ensures b == StoreRecords(TakeRecords(b, n).value.0) + TakeRecords(b, n).value.1
    decreases n
  {
    if n > 0 {
      RecordOf(b);
      var first := TakeRecord(b).value;
      var more := b[ENTRY_SIZE + |first.name|..];
      RecordsOf(more, n - 1);
      var (records, rest) := TakeRecords(more, n - 1).value;
      assert StoreRecord(first) + (StoreRecords(records) + rest) == (StoreRecord(first) + StoreRecords(records)) + rest;
      assert ([first] + records)[1..] == records;
    }
  }

  lemma HeaderFields(h: Header, rest: bytes)
    ensures TakeHeader(StoreHeader(h) + rest) == h && (StoreHeader(h) + rest)[HEADER_SIZE..] == rest
  {
    var b := StoreHeader(h) + rest;
    WideFieldIs(b, 0, ToLe32(Word32(h.count - 1)));
    WideFieldIs(b, 4, ToLe32(h.start));
    WideFieldIs(b, 8, ToLe32(h.inodeNumber));
  }

  lemma HeaderRestored(b: bytes)
    requires |b| >= HEADER_SIZE
    ensures b == StoreHeader(TakeHeader(b)) + b[HEADER_SIZE..]
  {
    WideFieldOf(b, 0);
    WideFieldOf(b, 4);
    WideFieldOf(b, 8);
    assert Word32(Word32(Le32(b, 0) + 1) - 1) == Le32(b, 0);
    assert b == b[0..4] + b[4..8] + b[8..12] + b[12..];
  }

  lemma TakeRun(b: bytes, run: Run, tail: bytes, rest: bytes, more: seq<Run>)
    requires ValidRun(run) && |b| >= HEADER_SIZE && TakeHeader(b) == HeaderOf(run) && b[HEADER_SIZE..] == tail
    requires TakeRecords(tail, |run.records|) == Some((run.records, rest)) && TakeRuns(rest) == Some(more)
    ensures TakeRuns(b) == Some([run] + more)
  {
  }

  lemma RunRoundTrip(run: Run, rest: bytes, more: seq<Run>)
    requires ValidRun(run) && TakeRuns(rest) == Some(more)
    ensures TakeRuns(StoreRun(run) + rest) == Some([run] + more)
  {
    var header, records := StoreHeader(HeaderOf(run)), StoreRecords(run.records);
    var tail := records + rest;
    Associative(header, records, rest);
    HeaderFields(HeaderOf(run), tail);
    RecordsRoundTrip(run.records, rest);
    TakeRun(header + tail, run, tail, rest, more);
  }

  // A serialized listing parses to its runs.
  lemma {:induction false} RunsRoundTrip(runs: seq<Run>)
    requires ValidRuns(runs)
    ensures TakeRuns(StoreRuns(runs)) == Some(runs)
  {
    if runs != [] {
      var rest := StoreRuns(runs[1..]);
      RunsRoundTrip(runs[1..]);
      RunRoundTrip(runs[0], rest, runs[1..]);
      assert StoreRuns(runs) == StoreRun(runs[0]) + rest && [runs[0]] + runs[1..] == runs;
    }
  }

  lemma {:induction false} RunsOf(b: bytes)
    requires TakeRuns(b).Some?
    ensures StoreRuns(TakeRuns(b).value) == b
    decreases |b|
  {
    if b != [] {
      HeaderRestored(b);
      var h := TakeHeader(b);
      RecordsOf(b[HEADER_SIZE..], h.count);
      var (records, rest) := TakeRecords(b[HEADER_SIZE..], h.count).value;
      RunsOf(rest);
      var more := TakeRuns(rest).value;
      assert ([Run(h.start, h.inodeNumber, records)] + more)[1..] == more;
      Associative(StoreHeader(h), StoreRecords(records), rest);
    }
  }

  // The parser accepts exactly the concatenations of runs, and each of these has one reading.
  lemma ParserIsInverse(b: bytes)
    ensures Parse(b).Ok? <==> exists runs :: ValidRuns(runs) && StoreRuns(runs) == b
    ensures forall runs :: ValidRuns(runs) && StoreRuns(runs) == b ==> Parse(b) == Ok(Flatten(runs))
    ensures Parse(b).Err? ==> Parse(b) == Err(BadDir)
  {
    if Parse(b).Ok? {
      RunsOf(b);
    }
    forall runs | ValidRuns(runs) && StoreRuns(runs) == b
      ensures Parse(b) == Ok(Flatten(runs))
    {
      RunsRoundTrip(runs);
    }
  }

  // A stored entry: its record, and what the header of its run says.
  datatype Slot = Slot(start: uint32, base: uint32, record: Record)

  function RunSlots(run: Run): (slots: seq<Slot>)
    ensures |slots| == |run.records|
    ensures forall i :: 0 <= i < |slots| ==> slots[i] == Slot(run.start, run.inodeNumber, run.records[i])
  {
    seq(|run.records|, i requires 0 <= i < |run.records| => Slot(run.start, run.inodeNumber, run.records[i]))
  }

  // The stored entries of a listing, in order.
  function Slots(runs: seq<Run>): seq<Slot> {
    if runs == [] then [] else RunSlots(runs[0]) + Slots(runs[1..])
  }

  // The entry has the record's name and type. Its reference is made of the position of the inode's block
  // and the inode's offset in it. Its number is the header's, below 2^31, and the record's difference,
  // negative from 2^15 on.
  predicate Describes(e: Dirent, s: Slot) {
    var r := s.record;
    && e.name == r.name && e.kind == r.kind
    && e.inodeRef == 65536 * s.start + r.offset
    && (s.base < 0x8000_0000 && r.delta < 0x8000 ==> e.inodeNumber == s.base + r.delta)
    && (s.base < 0x8000_0000 && r.delta >= 0x8000 && s.base + r.delta >= 65536 ==>
          e.inodeNumber == s.base + r.delta - 65536)
  }

  lemma EntryDescribes(start: uint32, base: uint32, r: Record)
    ensures Describes(Entry(start, base, r), Slot(start, base, r))
  {
  }

  // The reference is taken apart into the same two parts.
  lemma RefParts(start: uint32, offset: uint16)
    ensures InodeRef(start, offset) / 0x1_0000 == start && InodeRef(start, offset) % 0x1_0000 == offset
  {
  }

  lemma {:induction false} EntriesDescribe(start: uint32, base: uint32, records: seq<Record>, i: nat)
    requires i < |records|
    ensures Describes(Entries(start, base, records)[i], Slot(start, base, records[i]))
    decreases i
  {
    if i == 0 {
      EntryDescribes(start, base, records[0]);
    } else {
      EntriesDescribe(start, base, records[1..], i - 1);
    }
  }

  // The entries are, one by one, those that the runs store.
  ghost predicate DescribeAll(es: seq<Dirent>, slots: seq<Slot>) {
    |es| == |slots| && forall i :: 0 <= i < |es| ==> Describes(es[i], slots[i])
  }

  lemma {:induction false} FlattenDescribes(runs: seq<Run>)
    ensures DescribeAll(Flatten(runs), Slots(runs))
  {
    if runs != [] {
      FlattenDescribes(runs[1..]);
      var run := runs[0];
      forall i | 0 <= i < |run.records|
        ensures Describes(Entries(run.start, run.inodeNumber, run.records)[i], RunSlots(run)[i])
      {
        EntriesDescribe(run.start, run.inodeNumber, run.records, i);
      }
    }
  }

  // What the parser delivers for a serialized listing.
  lemma ParsedEntries(runs: seq<Run>)
    requires ValidRuns(runs)
    ensures Parse(StoreRuns(runs)).Ok? && DescribeAll(Parse(StoreRuns(runs)).value, Slots(runs))
  {
    RunsRoundTrip(runs);
    FlattenDescribes(runs);
  }

  function Add(es: seq<Dirent>, r: Result<seq<Dirent>>): Result<seq<Dirent>> {
    match r
    case Ok(more) => Ok(es + more)
    case Err(e) => Err(e)
  }

  // What the parser still delivers inside a run, with `left` of its records to come.
  function ParseRun(h: Header, b: bytes, left: nat): Result<seq<Dirent>> {
    match TakeRecords(b, left)
    case None => Err(BadDir)
    case Some((records, rest)) => Add(Entries(h.start, h.inodeNumber, records), Parse(rest))
  }

  lemma AddTwice(a: seq<Dirent>, b: seq<Dirent>, r: Result<seq<Dirent>>)
    ensures Add(a, Add(b, r)) == Add(a + b, r) && Add([], r) == r
  {
    if r.Ok? {
      assert a + (b + r.value) == a + b + r.value;
      assert [] + r.value == r.value;
    }
  }

  lemma HeaderStep(b: bytes)
    requires b != []
    ensures Parse(b) ==
      if |b| < HEADER_SIZE then Err(BadDir) else ParseRun(TakeHeader(b), b[HEADER_SIZE..], TakeHeader(b).count)
  {
  }

  lemma RunEnd(h: Header, b: bytes)
    ensures ParseRun(h, b, 0) == Parse(b)
  {
    AddTwice([], [], Parse(b));
  }

  lemma RecordStep(h: Header, b: bytes, left: nat)
    requires left > 0
    ensures ParseRun(h, b, left) ==
      match TakeRecord(b)
      case None => Err(BadDir)
      case Some(r) => Add([Entry(h.start, h.inodeNumber, r)], ParseRun(h, b[ENTRY_SIZE + |r.name|..], left - 1))
  {
    if TakeRecord(b).Some? {
      var r := TakeRecord(b).value;
      var more := TakeRecords(b[ENTRY_SIZE + |r.name|..], left - 1);
      if more.Some? {
        OneMore(h, r, more.value.0, Parse(more.value.1));
      }
    }
  }

  lemma OneMore(h: Header, r: Record, records: seq<Record>, rest: Result<seq<Dirent>>)
    ensures Add(Entries(h.start, h.inodeNumber, [r] + records), rest) ==
      Add([Entry(h.start, h.inodeNumber, r)], Add(Entries(h.start, h.inodeNumber, records), rest))
  {
    var one := [Entry(h.start, h.inodeNumber, r)];
    assert ([r] + records)[1..] == records;
    AddTwice(one, Entries(h.start, h.inodeNumber, records), rest);
  }

  // realloc to 16 entries, or to twice as many as before.
  method Grow(entries: array<Dirent>) returns (bigger: array<Dirent>)
    ensures fresh(bigger) && bigger.Length == if entries.Length == 0 then 16 else 2 * entries.Length
    ensures bigger[..entries.Length] == entries[..]
  {
    bigger := new Dirent[if entries.Length == 0 then 16 else 2 * entries.Length];
    forall i | 0 <= i < entries.Length {
      bigger[i] := entries[i];
    }
  }

  // One entry: its checks, in the order the program makes them.
  method ReadRecord(data: bytes, pos: nat) returns (r: Option<Record>)
    requires pos <= |data|
    ensures r == TakeRecord(data[pos..])
  {
    if |data| - pos < ENTRY_SIZE {
      return None;
    }
    var offset, delta, kind := Le16(data, pos), Le16(data, pos + 2), Le16(data, pos + 4);
    var length := Word16(Le16(data, pos + 6) + 1);
    if |data| - pos < ENTRY_SIZE + length {
      return None;
    }
    if kind < 1 || kind > 7 {
      return None;
    }
    assert data[pos..][ENTRY_SIZE..ENTRY_SIZE + length] == data[pos + ENTRY_SIZE..pos + ENTRY_SIZE + length];
    return Some(Record(offset, delta, kind, data[pos + ENTRY_SIZE..pos + ENTRY_SIZE + length]));
  }

  // How parse_directory_entries ends when it should deliver `wanted`.
  predicate Delivers(r: Result<()>, entries: seq<Dirent>, wanted: Result<seq<Dirent>>, memory: bool) {
    || (!memory && r == Err(NoMemory))
    || if wanted.Ok? then r == Ok(()) && entries == wanted.value else r == Err(wanted.error)
  }

  // The array of entries, which is enlarged when it is full.
  method Append(entries: array<Dirent>, count: nat, e: Dirent) returns (entries': array<Dirent>)
    requires count <= entries.Length
    modifies entries
    ensures entries' == entries || fresh(entries')
    ensures count < entries'.Length && entries'[..count + 1] == old(entries[..count]) + [e]
  {
    entries' := entries;
    if count >= entries.Length {
      entries' := Grow(entries);
    }
    entries'[count] := e;
  }

  // The entries parsed so far, and the bytes that are left.
  ghost predicate Parsed(entries: array<Dirent>, count: nat, got: seq<Dirent>, data: bytes, pos: nat, rest: bytes)
    reads entries
  {
    count <= entries.Length && entries[..count] == got && pos <= |data| && data[pos..] == rest
  }

  // The parser should deliver what it has got, and then what the rest is from inside a run.
  predicate InRun(wanted: Result<seq<Dirent>>, got: seq<Dirent>, h: Header, rest: bytes, left: nat) {
    wanted == Add(got, ParseRun(h, rest, left))
  }

  // The body of the inner loop. `wanted` is what the parser should deliver in the end.
  method ParseEntry(data: bytes, pos: nat, h: Header, ghost left: nat, entries: array<Dirent>, count: nat, memory: bool,
      ghost wanted: Result<seq<Dirent>>, ghost got: seq<Dirent>, ghost rest: bytes)
    returns (next: Result<nat>, entries': array<Dirent>, ghost got': seq<Dirent>, ghost rest': bytes)
    requires left > 0 && Parsed(entries, count, got, data, pos, rest)
    requires InRun(wanted, got, h, rest, left)
    modifies entries
    ensures entries' == entries || fresh(entries')
    ensures next.Ok? ==> pos < next.value && Parsed(entries', count + 1, got', data, next.value, rest')
    ensures next.Ok? ==> InRun(wanted, got', h, rest', left - 1)
    ensures next.Err? ==> count <= entries'.Length && (wanted == Err(next.error) || (!memory && next.error == NoMemory))
  {
    got', rest' := got, rest;
    RecordStep(h, rest, left);
    var record := ReadRecord(data, pos);
    if record.None? {
      return Err(BadDir), entries, got, rest;
    }
    var available: bool := *;
    if !memory && !available {
      return Err(NoMemory), entries, got, rest;
    }
    var e := Entry(h.start, h.inodeNumber, record.value);
    var end := pos + ENTRY_SIZE + |record.value.name|;
    rest' := rest[ENTRY_SIZE + |record.value.name|..];
    got' := got + [e];
    AddTwice(got, [e], ParseRun(h, rest', left - 1));
    entries' := Append(entries, count, e);
    next := Ok(end);
  }

  // parse_directory_entries: the entries are entries[..count].
  method ParseEntries(data: bytes, memory: bool) returns (r: Result<()>, entries: array<Dirent>, count: nat)
    ensures count <= entries.Length && Delivers(r, entries[..count], Parse(data), memory)
  {
    entries, count := new Dirent[0], 0;
    var pos: nat := 0;
    ghost var wanted, got, rest := Parse(data), [], data;
    AddTwice([], [], wanted);
    while pos < |data|
      invariant Parsed(entries, count, got, data, pos, rest) && fresh(entries)
      invariant wanted == Add(got, Parse(rest))
      decreases |data| - pos
    {
      HeaderStep(rest);
      if |data| - pos < HEADER_SIZE {
        return Err(BadDir), entries, count;
      }
      var h := TakeHeader(data[pos..]);
      assert InRun(wanted, got, h, rest[HEADER_SIZE..], h.count);
      ghost var start := pos;
      pos, rest := pos + HEADER_SIZE, rest[HEADER_SIZE..];
      var i: nat := 0;
      while i < h.count
        invariant i <= h.count && start < pos && Parsed(entries, count, got, data, pos, rest) && fresh(entries)
        invariant InRun(wanted, got, h, rest, h.count - i)
      {
        var next;
        next, entries, got, rest := ParseEntry(data, pos, h, h.count - i, entries, count, memory, wanted, got, rest);
        if next.Err? {
          return Err(next.error), entries, count;
        }
        count, pos, i := count + 1, next.value, i + 1;
      }
      RunEnd(h, rest);
    }
    AddTwice(got, [], Ok([]));
    return Ok(()), entries, count;
  }

  // What sqfs_dir_read delivers for a directory of `size` bytes that begins `offset` bytes into the
  // block at `pos`.
  function Listing(d: Disk, pos: nat, offset: uint16, size: uint32): Result<seq<Dirent>> {
    if size == 0 then Ok([])
    else match Metadata.DirectorySlice(d, pos, offset, size)
      case Err(e) => Err(e)
      case Ok(b) => Parse(b)
  }

  // The buffer for the listing, and what is read into it.
  method FetchListing(d: Disk, pos: nat, offset: uint16, size: uint32, memory: bool) returns (r: Result<bytes>)
    ensures r == Metadata.DirectorySlice(d, pos, offset, size) || (!memory && r == Err(NoMemory))
  {
    var available: bool := *;
    if !memory && !available {
      return Err(NoMemory);
    }
    var buffer := new byte[size](_ => 0);
    ghost var before := buffer[..];
    assert before[size..] == [];
    var done := Metadata.ReadDirectoryData(d, pos, offset, size, buffer, memory);
    if done.Ok? {
      ghost var wanted := Metadata.DirectorySlice(d, pos, offset, size).value;
      assert buffer[..] == wanted + before[size..] == wanted;
    }
    return if done.Ok? then Ok(buffer[..]) else Err(done.error);
  }

  // sqfs_dir_read.
  method ReadDirectory(d: Disk, isDirectory: bool, pos: nat, offset: uint16, size: uint32, memory: bool)
    returns (r: Result<()>, entries: array<Dirent>, count: nat)
    ensures count <= entries.Length
    ensures Delivers(r, entries[..count], if isDirectory then Listing(d, pos, offset, size) else Err(BadInode), memory)
  {
    entries, count := new Dirent[0], 0;
    if !isDirectory {
      return Err(BadInode), entries, 0;
    }
    if size == 0 {
      return Ok(()), entries, 0;
    }
    var data := FetchListing(d, pos, offset, size, memory);
    if data.Err? {
      return Err(data.error), entries, 0;
    }
    r, entries, count := ParseEntries(data.value, memory);
  }

  lemma ListingOf(d: Disk, pos: nat, offset: uint16, b: bytes)
    requires Metadata.DirectorySlice(d, pos, offset, |b|) == Ok(b) && |b| < 0x1_0000_0000
    ensures Listing(d, pos, offset, |b|) == Parse(b)
  {
  }

  // A listing serialized into the directory table, which is cut into metadata blocks, is read back
  // entry by entry.
  lemma ListingRoundTrip(d: Disk, deflate: bytes -> bytes, table: nat, stream: bytes, at: nat, runs: seq<Run>,
      listing: bytes)
    requires Metadata.LaidOut(d, deflate, table, Metadata.Chop(stream))
    requires ValidRuns(runs) && listing == StoreRuns(runs)
    requires |listing| < 0x1_0000_0000 && PartAt(stream, at, listing) && at < |stream|
    ensures at / Metadata.META_BLOCK < |Metadata.Chop(stream)|
    ensures
      var block := table + Metadata.StoredBefore(deflate, Metadata.Chop(stream), at / Metadata.META_BLOCK);
      Listing(d, block, at % Metadata.META_BLOCK, |listing|) == Ok(Flatten(runs))
  {
    ParserIsInverse(listing);
    Metadata.StreamRoundTrip(d, deflate, table, stream, at, listing);
    ListingOf(d, table + Metadata.StoredBefore(deflate, Metadata.Chop(stream), at / Metadata.META_BLOCK),
      at % Metadata.META_BLOCK, listing);
  }
}
