/** Extended attributes: the two passes over a block of key-value pairs, and the list and get calls. */
module Xattr {
  import opened Words
  import opened Bytes
  import opened Buffers
  import opened Disk
  import opened Strings
  import Metadata

  const KEY_SIZE: nat := 4
  const VALUE_SIZE: nat := 4
  const NO_INDEX: uint32 := 0xFFFF_FFFF

  // A pair as it is stored. The low byte of the type names a prefix of the key.
  datatype Attribute = Attribute(kind: uint16, name: bytes, value: bytes)

  // sqfs_xattr_t; the key is followed by a NUL in memory.
  datatype Pair = Pair(key: bytes, value: bytes)

  function Prefix(kind: uint16): nat { kind % 0x100 }

  function Ascii(s: string): (b: bytes)
    requires forall i :: 0 <= i < |s| ==> s[i] < 128 as char
    ensures |b| == |s|
  {
    seq(|s|, i requires 0 <= i < |s| => s[i] as int)
  }

  function PrefixString(prefix: nat): bytes {
    if prefix == 0 then Ascii("user.") else if prefix == 1 then Ascii("trusted.") else Ascii("security.")
  }

  function PairOf(a: Attribute): Pair { Pair(PrefixString(Prefix(a.kind)) + a.name, a.value) }

  function Pairs(attributes: seq<Attribute>): (pairs: seq<Pair>)
    ensures |pairs| == |attributes| && forall i :: 0 <= i < |pairs| ==> pairs[i] == PairOf(attributes[i])
  {
    seq(|attributes|, i requires 0 <= i < |attributes| => PairOf(attributes[i]))
  }

  predicate ValidAttribute(a: Attribute) { Prefix(a.kind) <= 2 && |a.name| < WORD_16 && |a.value| < WORD_32 }

  predicate ValidAttributes(attributes: seq<Attribute>) {
    forall i :: 0 <= i < |attributes| ==> ValidAttribute(attributes[i])
  }

  function StoreAttribute(a: Attribute): (b: bytes)
    requires ValidAttribute(a)
    ensures |b| == Length(a)
  {
    ToLe16(a.kind) + ToLe16(|a.name|) + a.name + ToLe32(|a.value|) + a.value
  }

  function Length(a: Attribute): nat { KEY_SIZE + |a.name| + VALUE_SIZE + |a.value| }

  function StoreAttributes(attributes: seq<Attribute>): bytes
    requires ValidAttributes(attributes)
  {
    if attributes == [] then [] else StoreAttribute(attributes[0]) + StoreAttributes(attributes[1..])
  }

  // The pair at the front of b.
  function TakeAttribute(b: bytes): (r: Option<Attribute>)
    requires |b| >= KEY_SIZE
    ensures r.Some? ==> ValidAttribute(r.value) && Length(r.value) <= |b|
  {
    var name := Le16(b, 2) as nat;
    if Prefix(Le16(b, 0)) > 2 then None
    else if KEY_SIZE + name + VALUE_SIZE > |b| then None
    else
      var from, size := KEY_SIZE + name + VALUE_SIZE, Le32(b, KEY_SIZE + name) as nat;
      if from + size > |b| then None
      else Some(Attribute(Le16(b, 0), b[KEY_SIZE..KEY_SIZE + name], b[from..from + size]))
  }

  // All pairs of b; fewer than four bytes at the end are ignored.
  function TakeAttributes(b: bytes): (r: Option<seq<Attribute>>)
    ensures r.Some? ==> ValidAttributes(r.value)
    decreases |b|
  {
    if |b| < KEY_SIZE then Some([])
    else match TakeAttribute(b)
      case None => None
      case Some(a) =>
        match TakeAttributes(b[Length(a)..])
        case None => None
        case Some(more) => Some([a] + more)
  }

  // What read_xattr_pairs makes of the bytes from the reference's offset to the end of the block.
  function Parse(b: bytes): Result<seq<Pair>> {
    match TakeAttributes(b)
    case None => Err(BadXattr)
    case Some(attributes) => Ok(Pairs(attributes))
  }

  lemma AttributeFields(a: Attribute, rest: bytes)
    requires ValidAttribute(a)
    ensures TakeAttribute(StoreAttribute(a) + rest) == Some(a) && (StoreAttribute(a) + rest)[Length(a)..] == rest
  {
    var b, n := StoreAttribute(a) + rest, KEY_SIZE + |a.name|;
    assert b[0..2] == ToLe16(a.kind) && b[2..4] == ToLe16(|a.name|);
    FieldIs(b, 0, ToLe16(a.kind));
    FieldIs(b, 2, ToLe16(|a.name|));
    assert b[4..n] == a.name && b[n..n + 4] == ToLe32(|a.value|) && b[n + 4..n + 4 + |a.value|] == a.value;
    WideFieldIs(b, n, ToLe32(|a.value|));
  }

  lemma AttributeRestored(b: bytes)
    requires |b| >= KEY_SIZE && TakeAttribute(b).Some?
    ensures b == StoreAttribute(TakeAttribute(b).value) + b[Length(TakeAttribute(b).value)..]
  {
    var a := TakeAttribute(b).value;
    var n := KEY_SIZE + |a.name|;
    FieldOf(b, 0);
    FieldOf(b, 2);
    WideFieldOf(b, n);
    assert b == b[0..2] + b[2..4] + b[4..n] + b[n..n + 4] + b[n + 4..n + 4 + |a.value|] + b[n + 4 + |a.value|..];
  }

  lemma {:induction false} AttributesRoundTrip(attributes: seq<Attribute>, tail: bytes)
    requires ValidAttributes(attributes) && |tail| < KEY_SIZE
    ensures TakeAttributes(StoreAttributes(attributes) + tail) == Some(attributes)
  {
    if attributes != [] {
      var first, rest := StoreAttribute(attributes[0]), StoreAttributes(attributes[1..]);
      Associative(first, rest, tail);
      var more := rest + tail;
      AttributeFields(attributes[0], more);
      AttributesRoundTrip(attributes[1..], tail);
      TakeMore(first + more, attributes[0], more, attributes[1..]);
      assert [attributes[0]] + attributes[1..] == attributes;
    }
  }

  lemma TakeMore(b: bytes, first: Attribute, rest: bytes, more: seq<Attribute>)
    requires |b| >= KEY_SIZE && TakeAttribute(b) == Some(first) && b[Length(first)..] == rest
    requires TakeAttributes(rest) == Some(more)
    ensures TakeAttributes(b) == Some([first] + more)
  {
  }

  lemma {:induction false} AttributesRestored(b: bytes)
    requires TakeAttributes(b).Some?
    ensures var s := StoreAttributes(TakeAttributes(b).value); s <= b && |b| - |s| < KEY_SIZE
    decreases |b|
  {
    if |b| >= KEY_SIZE {
      AttributeRestored(b);
      var a := TakeAttribute(b).value;
      var rest := b[Length(a)..];
      AttributesRestored(rest);
      var more := TakeAttributes(rest).value;
      assert ([a] + more)[1..] == more;
      PrefixAfter(StoreAttribute(a), StoreAttributes(more), rest);
    }
  }

  // The parser accepts exactly the serialized lists of pairs with a known prefix, with less than a
  // key's header behind them.
  lemma ParserIsInverse(b: bytes)
    ensures Parse(b).Ok? <==> exists attributes :: ValidAttributes(attributes) && IsStored(attributes, b)
    ensures forall attributes ::
      ValidAttributes(attributes) && IsStored(attributes, b) ==> Parse(b) == Ok(Pairs(attributes))
    ensures Parse(b).Err? ==> Parse(b) == Err(BadXattr)
  {
    if Parse(b).Ok? {
      AttributesRestored(b);
      assert IsStored(TakeAttributes(b).value, b);
    }
    forall attributes | ValidAttributes(attributes) && IsStored(attributes, b)
      ensures Parse(b) == Ok(Pairs(attributes))
    {
      var n := |StoreAttributes(attributes)|;
      assert b == StoreAttributes(attributes) + b[n..];
      AttributesRoundTrip(attributes, b[n..]);
    }
  }

  predicate IsStored(attributes: seq<Attribute>, b: bytes)
    requires ValidAttributes(attributes)
  {
    StoreAttributes(attributes) <= b && |b| - |StoreAttributes(attributes)| < KEY_SIZE
  }

  function Ahead(got: seq<Attribute>, r: Option<seq<Attribute>>): Option<seq<Attribute>> {
    match r
    case None => None
    case Some(more) => Some(got + more)
  }

  lemma AheadTwice(got: seq<Attribute>, a: Attribute, r: Option<seq<Attribute>>)
    ensures Ahead(got, Ahead([a], r)) == Ahead(got + [a], r)
  {
    if r.Some? {
      assert got + ([a] + r.value) == got + [a] + r.value;
    }
  }

  lemma AheadStep(wanted: Option<seq<Attribute>>, got: seq<Attribute>, rest: bytes)
    requires wanted == Ahead(got, TakeAttributes(rest)) && |rest| >= KEY_SIZE
    ensures match TakeAttribute(rest)
            case None => wanted == None
            case Some(a) => wanted == Ahead(got + [a], TakeAttributes(rest[Length(a)..]))
  {
    var first := TakeAttribute(rest);
    if first.Some? {
      var more := TakeAttributes(rest[Length(first.value)..]);
      assert TakeAttributes(rest) == Ahead([first.value], more);
      AheadTwice(got, first.value, more);
    }
  }

  // The body of the first loop: the checks of one pair, and the position of the next.
  method CheckPair(data: bytes, start: nat) returns (next: Option<nat>)
    requires start + KEY_SIZE <= |data|
    ensures next == match TakeAttribute(data[start..]) case None => None case Some(a) => Some(start + Length(a))
  {
    var kind, nameSize := Le16(data, start), Le16(data, start + 2) as nat;
    if Prefix(kind) > 2 {
      return None;
    }
    var pos := start + KEY_SIZE + nameSize;
    if pos + VALUE_SIZE > |data| {
      return None;
    }
    var valueSize := Le32(data, pos) as nat;
    pos := pos + VALUE_SIZE + valueSize;
    if pos > |data| {
      return None;
    }
    return Some(pos);
  }

  // The first pass: counts the pairs and makes every check.
  method CountPairs(data: bytes) returns (r: Result<nat>)
    ensures r == match TakeAttributes(data) case None => Err(BadXattr) case Some(attributes) => Ok(|attributes|)
  {
    var count: nat, pos: nat := 0, 0;
    ghost var wanted, got, rest := TakeAttributes(data), [], data;
    assert Ahead([], wanted) == wanted by {
      if wanted.Some? {
        assert [] + wanted.value == wanted.value;
      }
    }
    while pos + KEY_SIZE <= |data|
      invariant pos <= |data| && rest == data[pos..] && |got| == count
      invariant wanted == Ahead(got, TakeAttributes(rest))
      decreases |data| - pos
    {
      AheadStep(wanted, got, rest);
      var next := CheckPair(data, pos);
      if next.None? {
        return Err(BadXattr);
      }
      ghost var a := TakeAttribute(rest).value;
      got, rest := got + [a], rest[Length(a)..];
      pos, count := next.value, count + 1;
    }
    return Ok(count);
  }

  lemma PairFields(data: bytes, pos: nat, a: Attribute)
    requires pos + KEY_SIZE <= |data| && TakeAttribute(data[pos..]) == Some(a)
    ensures a.kind == Le16(data, pos) && |a.name| == Le16(data, pos + 2)
    ensures pos + Length(a) <= |data| && |a.value| == Le32(data, pos + KEY_SIZE + |a.name|)
  {
  }

  lemma PairSlices(data: bytes, pos: nat, a: Attribute)
    requires pos + Length(a) <= |data| && TakeAttribute(data[pos..]) == Some(a)
    ensures var at := pos + KEY_SIZE + |a.name|;
      data[pos + KEY_SIZE..at] == a.name && data[at + VALUE_SIZE..pos + Length(a)] == a.value
  {
    SliceBehind(data, pos, KEY_SIZE, KEY_SIZE + |a.name|);
    SliceBehind(data, pos, KEY_SIZE + |a.name| + VALUE_SIZE, Length(a));
  }

  // The body of the second loop, which checks nothing.
  method ReadPair(data: bytes, pos: nat, ghost a: Attribute) returns (pair: Pair, next: nat)
    requires pos + KEY_SIZE <= |data| && TakeAttribute(data[pos..]) == Some(a)
    ensures pair == PairOf(a) && next == pos + Length(a) <= |data|
  {
    PairFields(data, pos, a);
    PairSlices(data, pos, a);
    var kind, nameSize := Le16(data, pos), Le16(data, pos + 2) as nat;
    var at := pos + KEY_SIZE + nameSize;
    var valueSize := Le32(data, at) as nat;
    next := at + VALUE_SIZE + valueSize;
    assert next == pos + Length(a) && data[pos + KEY_SIZE..at] == a.name && data[at + VALUE_SIZE..next] == a.value;
    pair := Pair(PrefixString(Prefix(kind)) + data[pos + KEY_SIZE..at], data[at + VALUE_SIZE..next]);
  }

  lemma NextPair(rest: bytes, more: seq<Attribute>)
    requires TakeAttributes(rest) == Some(more) && more != []
    ensures |rest| >= KEY_SIZE && TakeAttribute(rest) == Some(more[0])
    ensures TakeAttributes(rest[Length(more[0])..]) == Some(more[1..])
  {
  }

  // The second pass: after a successful first pass it visits the same pairs, stays in the block, and
  // fills the array it is given.
  method FillPairs(data: bytes, result: array<Pair>, memory: bool, ghost attributes: seq<Attribute>)
    returns (filled: bool)
    requires TakeAttributes(data) == Some(attributes) && result.Length == |attributes|
    modifies result
    ensures filled ==> result[..] == Pairs(attributes)
    ensures memory ==> filled
  {
    var idx: nat, pos: nat := 0, 0;
    ghost var rest, more := data, attributes;
    while idx < result.Length && pos + KEY_SIZE <= |data|
      invariant idx <= result.Length && more == attributes[idx..]
      invariant pos <= |data| && rest == data[pos..] && TakeAttributes(rest) == Some(more)
      invariant forall i :: 0 <= i < idx ==> result[i] == PairOf(attributes[i])
      decreases result.Length - idx
    {
      NextPair(rest, more);
      var available: bool := *;
      if !memory && !available {
        return false;
      }
      var pair, next := ReadPair(data, pos, more[0]);
      result[idx] := pair;
      rest, more := rest[Length(more[0])..], more[1..];
      idx, pos := idx + 1, next;
    }
    return true;
  }

  // The part of read_xattr_pairs behind the reading of the block.
  method ParsePairs(data: bytes, memory: bool) returns (r: Result<seq<Pair>>)
    ensures r == Parse(data) || (!memory && r == Err(NoMemory))
  {
    var count := CountPairs(data);
    if count.Err? {
      return Err(count.error);
    }
    if count.value == 0 {
      return Ok([]);
    }
    var available: bool := *;
    if !memory && !available {
      return Err(NoMemory);
    }
    var result := new Pair[count.value];
    var filled := FillPairs(data, result, memory, TakeAttributes(data).value);
    return if filled then Ok(result[..]) else Err(NoMemory);
  }

  // read_xattr_pairs, for a block at `pos` and an offset inside it.
  function PairsAt(d: Disk, pos: nat, offset: uint16): Result<seq<Pair>> {
    match Metadata.BlockAt(d, pos, Metadata.Lenient)
    case Err(e) => Err(e)
    case Ok(b) => if offset <= |b.data| then Parse(b.data[offset..]) else Ok([])
  }

  method ReadPairs(d: Disk, pos: nat, offset: uint16, memory: bool) returns (r: Result<seq<Pair>>)
    requires Metadata.BlockAt(d, pos, Metadata.Lenient).Ok? ==>
      offset <= |Metadata.BlockAt(d, pos, Metadata.Lenient).value.data|
    ensures r == PairsAt(d, pos, offset) || (!memory && r == Err(NoMemory))
  {
    var block := Metadata.ReadLenient(d, pos, memory);
    if block.Err? {
      return Err(block.error);
    }
    r := ParsePairs(block.value.data[offset..], memory);
  }

  function CStrings(pairs: seq<Pair>): (s: seq<bytes>)
    ensures |s| == |pairs| && forall i :: 0 <= i < |s| ==> s[i] == CString(pairs[i].key)
  {
    seq(|pairs|, i requires 0 <= i < |pairs| => CString(pairs[i].key))
  }

  // Strings one after the other, each with a NUL behind it.
  function Terminated(strings: seq<bytes>): bytes {
    if strings == [] then [] else strings[0] + [0] + Terminated(strings[1..])
  }

  // What is between the NULs, as a reader of the list takes it apart.
  function Split(b: bytes): seq<bytes>
    decreases |b|
  {
    if b == [] then []
    else
      var n := StringLength(b);
      [b[..n]] + if n == |b| then [] else Split(b[n + 1..])
  }

  lemma {:induction false} SplitTerminated(strings: seq<bytes>)
    requires forall i :: 0 <= i < |strings| ==> 0 !in strings[i]
    ensures Split(Terminated(strings)) == strings
  {
    if strings != [] {
      var b, n := Terminated(strings), |strings[0]|;
      SplitTerminated(strings[1..]);
      assert b[..n] == strings[0] && b[n] == 0 && b[n + 1..] == Terminated(strings[1..]);
      StringLengthIs(b, n);
    }
  }

  function ListOf(pairs: seq<Pair>): bytes { Terminated(CStrings(pairs)) }

  // Taking the list apart gives back the keys exactly when no key has a NUL in it.
  lemma ListGivesKeys(pairs: seq<Pair>)
    ensures Split(ListOf(pairs)) == CStrings(pairs)
    ensures CStrings(pairs) == Keys(pairs) <==> forall i :: 0 <= i < |pairs| ==> 0 !in pairs[i].key
  {
    SplitTerminated(CStrings(pairs));
    forall i | 0 <= i < |pairs| && 0 !in pairs[i].key
      ensures CString(pairs[i].key) == pairs[i].key
    {
      StringLengthIs(pairs[i].key, |pairs[i].key|);
    }
    if CStrings(pairs) == Keys(pairs) {
      forall i | 0 <= i < |pairs|
        ensures 0 !in pairs[i].key
      {
        assert CStrings(pairs)[i] == Keys(pairs)[i];
      }
    }
  }

  function Keys(pairs: seq<Pair>): (s: seq<bytes>)
    ensures |s| == |pairs| && forall i :: 0 <= i < |s| ==> s[i] == pairs[i].key
  {
    seq(|pairs|, i requires 0 <= i < |pairs| => pairs[i].key)
  }

  lemma ListStep(done: bytes, pairs: seq<Pair>)
    requires pairs != []
    ensures done + ListOf(pairs) == done + (CString(pairs[0].key) + [0]) + ListOf(pairs[1..])
  {
    assert CStrings(pairs)[0] == CString(pairs[0].key) && CStrings(pairs)[1..] == CStrings(pairs[1..]);
    Associative(done, CString(pairs[0].key) + [0], ListOf(pairs[1..]));
  }

  // The sum of strlen(key) + 1.
  method ListSize(pairs: seq<Pair>) returns (n: nat)
    ensures n == |ListOf(pairs)|
  {
    n := 0;
    ghost var done, rest := [], pairs;
    assert [] + ListOf(pairs) == ListOf(pairs);
    for i := 0 to |pairs|
      invariant rest == pairs[i..] && |done| == n && done + ListOf(rest) == ListOf(pairs)
    {
      ListStep(done, rest);
      done, rest := done + (CString(pairs[i].key) + [0]), rest[1..];
      n := n + StringLength(pairs[i].key) + 1;
    }
    assert done + [] == done;
  }

  // Copies the keys with their NULs.
  method FillList(pairs: seq<Pair>, list: array<byte>)
    requires |ListOf(pairs)| <= list.Length
    modifies list
    ensures list[..] == ListOf(pairs) + old(list[|ListOf(pairs)|..])
  {
    var pos: nat := 0;
    ghost var done, rest, before := [], pairs, list[..];
    assert [] + ListOf(pairs) == ListOf(pairs);
    for i := 0 to |pairs|
      invariant rest == pairs[i..] && done + ListOf(rest) == ListOf(pairs)
      invariant |done| == pos <= list.Length && list[..pos] == done && list[pos..] == before[pos..]
    {
      ListStep(done, rest);
      var key := CString(pairs[i].key) + [0];
      Fill(list, pos, key);
      done, rest := done + key, rest[1..];
      pos := pos + |key|;
    }
    assert done + [] == done;
  }

  // ctx->xattr_table, with the reference of every index.
  datatype IdTable = IdTable(loaded: bool, start: nat, refs: seq<uint64>)

  function PairsOf(d: Disk, t: IdTable, index: uint32): Result<seq<Pair>>
    requires index < |t.refs|
  {
    PairsAt(d, t.start + t.refs[index] / 0x1_0000, t.refs[index] % 0x1_0000)
  }

  // What sqfs_xattr_list lists.
  function Listed(d: Disk, t: IdTable, index: uint32): Result<seq<Pair>> {
    if !t.loaded then Err(NotFound)
    else if index == NO_INDEX then Ok([])
    else if index >= |t.refs| then Err(BadXattr)
    else PairsOf(d, t, index)
  }

  predicate OffsetInside(d: Disk, t: IdTable, index: uint32) {
    t.loaded && index < |t.refs| ==>
      var b := Metadata.BlockAt(d, t.start + t.refs[index] / 0x1_0000, Metadata.Lenient);
      b.Ok? ==> t.refs[index] % 0x1_0000 <= |b.value.data|
  }

  // sqfs_xattr_list; without a buffer it only tells the size.
  method List(d: Disk, t: IdTable, index: uint32, list: array?<byte>, memory: bool)
    returns (r: Result<()>, outSize: nat)
    requires OffsetInside(d, t, index)
    modifies list
    ensures Listed(d, t, index).Err? ==>
      (r == Err(Listed(d, t, index).error) || (!memory && r == Err(NoMemory))) && outSize == 0
    ensures Listed(d, t, index).Ok? ==>
      var wanted := ListOf(Listed(d, t, index).value);
      if !memory && r == Err(NoMemory) then outSize == 0
      else outSize == |wanted| &&
           (if list != null && list.Length < |wanted| && wanted != [] then r == Err(Overflow) else r.Ok?)
    ensures r.Ok? && list != null && outSize <= list.Length ==>
      list[..] == ListOf(Listed(d, t, index).value) + old(list[outSize..])
    ensures r.Err? && list != null ==> list[..] == old(list[..])
  {
    outSize := 0;
    if !t.loaded {
      return Err(NotFound), 0;
    }
    if index == NO_INDEX {
      return Ok(()), 0;
    }
    if index >= |t.refs| {
      return Err(BadXattr), 0;
    }
    var pairs := ReadPairs(d, t.start + t.refs[index] / 0x1_0000, t.refs[index] % 0x1_0000, memory);
    if pairs.Err? {
      return Err(pairs.error), 0;
    }
    outSize := ListSize(pairs.value);
    if list == null {
      return Ok(()), outSize;
    }
    if list.Length < outSize {
      return Err(Overflow), outSize;
    }
    FillList(pairs.value, list);
    return Ok(()), outSize;
  }

  // The first pair with the name, by strcmp.
  function FirstMatch(pairs: seq<Pair>, name: bytes): (r: Option<Pair>)
    ensures r.Some? ==> r.value in pairs && CString(r.value.key) == name
  {
    if pairs == [] then None
    else if CString(pairs[0].key) == name then Some(pairs[0])
    else FirstMatch(pairs[1..], name)
  }

  // The search of sqfs_xattr_get.
  method FindPair(pairs: seq<Pair>, name: bytes) returns (r: Option<Pair>)
    ensures r == FirstMatch(pairs, name)
  {
    ghost var rest := pairs;
    for i := 0 to |pairs|
      invariant rest == pairs[i..] && FirstMatch(pairs, name) == FirstMatch(rest, name)
    {
      if CString(pairs[i].key) == name {
        return Some(pairs[i]);
      }
      rest := rest[1..];
    }
    return None;
  }

  // The names that a lookup finds are exactly those that taking the list apart yields.
  lemma {:induction false} FoundAreListed(pairs: seq<Pair>, name: bytes)
    ensures FirstMatch(pairs, name).Some? <==> name in Split(ListOf(pairs))
  {
    ListGivesKeys(pairs);
    if pairs != [] {
      FoundAreListed(pairs[1..], name);
      ListGivesKeys(pairs[1..]);
      assert CStrings(pairs) == [CString(pairs[0].key)] + CStrings(pairs[1..]);
    }
  }

  function Found(d: Disk, t: IdTable, index: uint32, name: bytes): Result<Pair> {
    if !t.loaded || index == NO_INDEX then Err(NotFound)
    else if index >= |t.refs| then Err(BadXattr)
    else match PairsOf(d, t, index)
      case Err(e) => Err(e)
      case Ok(pairs) => match FirstMatch(pairs, name) case None => Err(NotFound) case Some(p) => Ok(p)
  }

  // sqfs_xattr_get; without a buffer it only tells the size.
  method Get(d: Disk, t: IdTable, index: uint32, name: bytes, buffer: array?<byte>, memory: bool)
    returns (r: Result<()>, outSize: nat)
    requires OffsetInside(d, t, index) && 0 !in name
    modifies buffer
    ensures Found(d, t, index, name).Err? ==>
      (r == Err(Found(d, t, index, name).error) || (!memory && r == Err(NoMemory))) && outSize == 0
    ensures Found(d, t, index, name).Ok? ==>
      var value := Found(d, t, index, name).value.value;
      if !memory && r == Err(NoMemory) then outSize == 0
      else outSize == |value| && (if buffer != null && buffer.Length < |value| then r == Err(Overflow) else r.Ok?)
    ensures r.Ok? && buffer != null ==>
      outSize <= buffer.Length && buffer[..] == Found(d, t, index, name).value.value + old(buffer[outSize..])
    ensures r.Err? && buffer != null ==> buffer[..] == old(buffer[..])
  {
    if !t.loaded || index == NO_INDEX {
      return Err(NotFound), 0;
    }
    if index >= |t.refs| {
      return Err(BadXattr), 0;
    }
    var pairs := ReadPairs(d, t.start + t.refs[index] / 0x1_0000, t.refs[index] % 0x1_0000, memory);
    if pairs.Err? {
      return Err(pairs.error), 0;
    }
    var pair := FindPair(pairs.value, name);
    if pair.None? {
      return Err(NotFound), 0;
    }
    r, outSize := GiveValue(pair.value.value, buffer);
  }

  // The size of the value, and the value if there is a buffer with room for it.
  method GiveValue(value: bytes, buffer: array?<byte>) returns (r: Result<()>, outSize: nat)
    modifies buffer
    ensures outSize == |value|
    ensures if buffer != null && buffer.Length < |value| then r == Err(Overflow) else r.Ok?
    ensures r.Ok? && buffer != null ==> buffer[..] == value + old(buffer[|value|..])
    ensures r.Err? && buffer != null ==> buffer[..] == old(buffer[..])
  {
    outSize := |value|;
    if buffer == null {
      return Ok(()), outSize;
    }
    if buffer.Length < outSize {
      return Err(Overflow), outSize;
    }
    Fill(buffer, 0, value);
    return Ok(()), outSize;
  }

  // The key and value that a stored pair stands for: the name behind "user.", "trusted." or "security.",
  // which have the numbers 0, 1 and 2 in the low byte of the type.
  predicate StandsFor(a: Attribute, p: Pair) {
    && a.value == p.value
    && (|| (a.kind % 256 == 0 && p.key == [117, 115, 101, 114, 46] + a.name)
        || (a.kind % 256 == 1 && p.key == [116, 114, 117, 115, 116, 101, 100, 46] + a.name)
        || (a.kind % 256 == 2 && p.key == [115, 101, 99, 117, 114, 105, 116, 121, 46] + a.name))
  }

  lemma PairStoodFor(a: Attribute, p: Pair)
    requires StandsFor(a, p)
    ensures PairOf(a) == p
  {
    assert Ascii("user.") == [117, 115, 101, 114, 46];
    assert Ascii("trusted.") == [116, 114, 117, 115, 116, 101, 100, 46];
    assert Ascii("security.") == [115, 101, 99, 117, 114, 105, 116, 121, 46];
  }

  ghost predicate AllStandFor(attributes: seq<Attribute>, pairs: seq<Pair>) {
    |attributes| == |pairs| && forall i :: 0 <= i < |pairs| ==> StandsFor(attributes[i], pairs[i])
  }

  // A metadata block has the stored form of the pairs at the reference of the index: the reference is the
  // position of the block, times 65536, and the offset in it. Less than four bytes follow.
  ghost predicate StoresPairs(d: Disk, deflate: bytes -> bytes, t: IdTable, index: uint32, chunk: bytes, pos: nat,
      offset: uint16, attributes: seq<Attribute>) {
    && t.loaded && index < |t.refs| && index != 0xFFFF_FFFF && t.refs[index] == 65536 * pos + offset
    && 1 <= |chunk| <= Metadata.META_BLOCK && Metadata.StoredAt(d, deflate, t.start + pos, chunk)
    && ValidAttributes(attributes) && PartAt(chunk, offset, StoreAttributes(attributes))
    && |chunk| < offset + |StoreAttributes(attributes)| + 4
  }

  lemma StoredIsParsed(chunk: bytes, offset: nat, attributes: seq<Attribute>)
    requires ValidAttributes(attributes) && PartAt(chunk, offset, StoreAttributes(attributes))
    requires |chunk| < offset + |StoreAttributes(attributes)| + 4
    ensures Parse(chunk[offset..]) == Ok(Pairs(attributes))
  {
    assert IsStored(attributes, chunk[offset..]);
    ParserIsInverse(chunk[offset..]);
  }

  lemma PairsStoodFor(attributes: seq<Attribute>, pairs: seq<Pair>)
    requires AllStandFor(attributes, pairs)
    ensures Pairs(attributes) == pairs
  {
    forall i | 0 <= i < |pairs|
      ensures PairOf(attributes[i]) == pairs[i]
    {
      PairStoodFor(attributes[i], pairs[i]);
    }
  }

  predicate BlockIs(d: Disk, pos: nat, chunk: bytes) {
    var b := Metadata.BlockAt(d, pos, Metadata.Lenient);
    b.Ok? && b.value.data == chunk
  }

  lemma StoredBlockIs(d: Disk, deflate: bytes -> bytes, pos: nat, chunk: bytes)
    requires 1 <= |chunk| <= Metadata.META_BLOCK && Metadata.StoredAt(d, deflate, pos, chunk)
    ensures BlockIs(d, pos, chunk)
  {
    Metadata.StoredBlock(d, deflate, pos, chunk, Metadata.Lenient);
  }

  lemma PairsInBlock(d: Disk, t: IdTable, index: uint32, chunk: bytes, pos: nat, offset: uint16)
    requires t.loaded && index < |t.refs| && index != 0xFFFF_FFFF && t.refs[index] == 65536 * pos + offset
    requires BlockIs(d, t.start + pos, chunk) && offset <= |chunk|
    ensures Listed(d, t, index) == Parse(chunk[offset..]) && OffsetInside(d, t, index)
  {
    SplitXattrRef(t.refs[index], pos, offset);
  }

  // The list call lists the full keys of what is stored.
  lemma {:induction false} StoredAreListed(d: Disk, deflate: bytes -> bytes, t: IdTable, index: uint32, chunk: bytes,
      pos: nat, offset: uint16, attributes: seq<Attribute>, pairs: seq<Pair>)
    requires StoresPairs(d, deflate, t, index, chunk, pos, offset, attributes) && AllStandFor(attributes, pairs)
    ensures Listed(d, t, index) == Ok(pairs) && OffsetInside(d, t, index)
  {
    StoredBlockIs(d, deflate, t.start + pos, chunk);
    PairsInBlock(d, t, index, chunk, pos, offset);
    StoredIsParsed(chunk, offset, attributes);
    PairsStoodFor(attributes, pairs);
  }

  // Where no key has a NUL in it, the bytes it writes are the keys, each with a NUL behind it.
  lemma KeysAreWritten(pairs: seq<Pair>)
    requires forall i :: 0 <= i < |pairs| ==> 0 !in pairs[i].key
    ensures ListOf(pairs) == Terminated(Keys(pairs))
  {
    ListGivesKeys(pairs);
  }

  lemma SplitXattrRef(ref: uint64, pos: nat, offset: uint16)
    requires ref == 65536 * pos + offset
    ensures ref / 0x1_0000 == pos && ref % 0x1_0000 == offset
  {
  }

  lemma {:induction false} FirstMatchIs(pairs: seq<Pair>, name: bytes, i: nat)
    requires i < |pairs| && pairs[i].key == name && 0 !in name
    requires forall j :: 0 <= j < i ==> 0 !in pairs[j].key && pairs[j].key != name
    ensures FirstMatch(pairs, name) == Some(pairs[i])
    decreases i
  {
    StringLengthIs(pairs[0].key, |pairs[0].key|);
    if i > 0 {
      FirstMatchIs(pairs[1..], name, i - 1);
    }
  }

  lemma {:induction false} NoMatch(pairs: seq<Pair>, name: bytes)
    requires forall j :: 0 <= j < |pairs| ==> 0 !in pairs[j].key && pairs[j].key != name
    ensures FirstMatch(pairs, name) == None
  {
    if pairs != [] {
      StringLengthIs(pairs[0].key, |pairs[0].key|);
      NoMatch(pairs[1..], name);
    }
  }

  // The get call finds the value stored under a full key, that of the first pair if there are several.
  lemma {:induction false} StoredIsFound(d: Disk, deflate: bytes -> bytes, t: IdTable, index: uint32, chunk: bytes,
      pos: nat, offset: uint16, attributes: seq<Attribute>, pairs: seq<Pair>, i: nat)
    requires StoresPairs(d, deflate, t, index, chunk, pos, offset, attributes) && AllStandFor(attributes, pairs)
    requires i < |pairs| && forall j :: 0 <= j <= i ==> 0 !in pairs[j].key
    requires forall j :: 0 <= j < i ==> pairs[j].key != pairs[i].key
    ensures Found(d, t, index, pairs[i].key) == Ok(pairs[i])
  {
    StoredAreListed(d, deflate, t, index, chunk, pos, offset, attributes, pairs);
    FirstMatchIs(pairs, pairs[i].key, i);
  }

  // What is not stored is not found.
  lemma {:induction false} OthersAreNotFound(d: Disk, deflate: bytes -> bytes, t: IdTable, index: uint32, chunk: bytes,
      pos: nat, offset: uint16, attributes: seq<Attribute>, pairs: seq<Pair>, name: bytes)
    requires StoresPairs(d, deflate, t, index, chunk, pos, offset, attributes) && AllStandFor(attributes, pairs)
    requires forall j :: 0 <= j < |pairs| ==> 0 !in pairs[j].key && pairs[j].key != name
    ensures Found(d, t, index, name) == Err(NotFound)
  {
    StoredAreListed(d, deflate, t, index, chunk, pos, offset, attributes, pairs);
    NoMatch(pairs, name);
  }
}
