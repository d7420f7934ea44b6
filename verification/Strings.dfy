/** Strings that end at their first NUL. */
module Strings {
  import opened Bytes

  // strlen.
  function StringLength(b: bytes): (n: nat)
    ensures n <= |b| && (n < |b| ==> b[n] == 0) && forall i :: 0 <= i < n ==> b[i] != 0
  {
    if b == [] || b[0] == 0 then 0 else 1 + StringLength(b[1..])
  }

  function CString(b: bytes): (s: bytes)
    ensures |s| <= |b| && 0 !in s
  {
    b[..StringLength(b)]
  }

  lemma {:induction false} StringLengthIs(b: bytes, n: nat)
    requires n <= |b| && (n < |b| ==> b[n] == 0) && forall i :: 0 <= i < n ==> b[i] != 0
    ensures StringLength(b) == n
    decreases n
  {
    if n > 0 {
      StringLengthIs(b[1..], n - 1);
    }
  }
}
