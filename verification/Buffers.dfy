/** Copying into a caller's buffer, and the slices such copies build up. */
module Buffers {
  import opened Bytes

  function Least(a: nat, b: nat): nat { if a < b then a else b }

  // b is found in c at position pos.
  ghost predicate PartAt<T>(c: seq<T>, pos: nat, b: seq<T>) {
    pos + |b| <= |c| && b == c[pos..pos + |b|]
  }

  lemma PartsOf<T>(c: seq<T>, pos: nat, a: seq<T>, b: seq<T>)
    requires PartAt(c, pos, a + b)
    ensures PartAt(c, pos, a) && PartAt(c, pos + |a|, b)
  {
    assert a == (a + b)[..|a|] && b == (a + b)[|a|..];
  }

  lemma Associative<T>(a: seq<T>, b: seq<T>, c: seq<T>)
    ensures a + b + c == a + (b + c)
  {
  }

  lemma SliceBehind<T>(a: seq<T>, pos: nat, from: nat, to: nat)
    requires from <= to && pos + to <= |a|
    ensures a[pos..][from..to] == a[pos + from..pos + to]
  {
  }

  lemma PrefixAfter<T>(a: seq<T>, b: seq<T>, c: seq<T>)
    requires b <= c
    ensures a + b <= a + c
  {
  }

  lemma PartBehind<T>(a: seq<T>, c: seq<T>, pos: nat, b: seq<T>)
    requires PartAt(a + c, |a| + pos, b)
    ensures PartAt(c, pos, b)
  {
    assert (a + c)[|a| + pos..|a| + pos + |b|] == c[pos..pos + |b|];
  }

  lemma JoinSlices<T>(c: seq<T>, pos: nat, a: seq<T>, b: seq<T>)
    requires pos + |a| + |b| <= |c| && a == c[pos..pos + |a|] && b == c[pos + |a|..pos + |a| + |b|]
    ensures a + b == c[pos..pos + |a + b|]
  {
  }

  // memcpy into the caller's buffer.
  method Fill(buffer: array<byte>, at: nat, data: bytes)
    requires at + |data| <= buffer.Length
    modifies buffer
    ensures buffer[..at] == old(buffer[..at]) && buffer[at..at + |data|] == data
    ensures buffer[at + |data|..] == old(buffer[at + |data|..])
    ensures buffer[..at + |data|] == old(buffer[..at]) + data
  {
    forall i | 0 <= i < |data| {
      buffer[at + i] := data[i];
    }
  }
}
