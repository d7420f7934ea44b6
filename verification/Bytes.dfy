/** Bytes and the little-endian fields of the disk format. */
module Bytes {
  import opened Words

  type byte = n: int | 0 <= n < 256
  type bytes = seq<byte>

  function Le16(b: bytes, p: nat): uint16
    requires p + 2 <= |b|
  {
    b[p] as int + 0x100 * b[p + 1] as int
  }

  function Le32(b: bytes, p: nat): uint32
    requires p + 4 <= |b|
  {
    Le16(b, p) + 0x1_0000 * Le16(b, p + 2)
  }

  function Le64(b: bytes, p: nat): uint64
    requires p + 8 <= |b|
  {
    Le32(b, p) + 0x1_0000_0000 * Le32(b, p + 4)
  }

  function ToLe16(n: uint16): (b: bytes)
    ensures |b| == 2 && Le16(b, 0) == n
  {
    [n % 0x100, n / 0x100]
  }

  function ToLe32(n: uint32): (b: bytes)
    ensures |b| == 4 && Le32(b, 0) == n
  {
    ToLe16(n % 0x1_0000) + ToLe16(n / 0x1_0000)
  }

  function ToLe64(n: uint64): (b: bytes)
    ensures |b| == 8 && Le64(b, 0) == n
  {
    ToLe32(n % 0x1_0000_0000) + ToLe32(n / 0x1_0000_0000)
  }

  function Zeros(n: nat): (b: bytes)
    ensures |b| == n && forall i :: 0 <= i < n ==> b[i] == 0
  {
    seq(n, _ => 0)
  }

  // Fields found at a position, and fields read from one.
  lemma FieldIs(b: bytes, p: nat, field: bytes)
    requires p + 2 <= |b| && |field| == 2 && b[p..p + 2] == field
    ensures Le16(b, p) == Le16(field, 0)
  {
    assert forall i :: 0 <= i < 2 ==> field[i] == b[p + i];
  }

  lemma WideFieldIs(b: bytes, p: nat, field: bytes)
    requires p + 4 <= |b| && |field| == 4 && b[p..p + 4] == field
    ensures Le32(b, p) == Le32(field, 0)
  {
    assert forall i :: 0 <= i < 4 ==> field[i] == b[p + i];
  }

  lemma LongFieldIs(b: bytes, p: nat, field: bytes)
    requires p + 8 <= |b| && |field| == 8 && b[p..p + 8] == field
    ensures Le64(b, p) == Le64(field, 0)
  {
    assert forall i :: 0 <= i < 8 ==> field[i] == b[p + i];
  }

  lemma FieldOf(b: bytes, p: nat)
    requires p + 2 <= |b|
    ensures ToLe16(Le16(b, p)) == b[p..p + 2]
  {
  }

  lemma WideFieldOf(b: bytes, p: nat)
    requires p + 4 <= |b|
    ensures ToLe32(Le32(b, p)) == b[p..p + 4]
  {
    FieldOf(b, p);
    FieldOf(b, p + 2);
  }
}
