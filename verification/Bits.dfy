/** Bitwise AND on naturals and its relation to remainders, as used for `hash & bucket_mask`. */
module Bits {
  import Division

  function And(a: nat, b: nat): (r: nat)
    ensures r <= a && r <= b
    decreases b
  {
    if b == 0 then 0 else a % 2 * (b % 2) + 2 * And(a / 2, b / 2)
  }

  function Power2(k: nat): (n: nat)
    ensures n > 0
  {
    if k == 0 then 1 else 2 * Power2(k - 1)
  }

  lemma {:induction false} Power2Increases(i: nat, j: nat)
    requires i < j
    ensures Power2(i) < Power2(j)
  {
    if i + 1 < j {
      Power2Increases(i, j - 1);
    }
  }

  // A mask of n-1 selects the remainder by n when n is a power of two.
  lemma {:induction false} MaskIsRemainder(a: nat, k: nat)
    ensures And(a, Power2(k) - 1) == a % Power2(k)
  {
    if k > 0 {
      var m := Power2(k - 1);
      MaskIsRemainder(a / 2, k - 1);
      AndOdd(a, m - 1);
      HalfRemainder(a, m);
      assert Power2(k) == 2 * m;
    }
  }

  lemma AndOdd(a: nat, b: nat)
    ensures And(a, 2 * b + 1) == a % 2 + 2 * And(a / 2, b)
  {
    assert (2 * b + 1) % 2 == 1 && (2 * b + 1) / 2 == b;
  }

  lemma HalfRemainder(a: nat, m: nat)
    requires m > 0
    ensures a % (2 * m) == a % 2 + 2 * (a / 2 % m)
  {
    var q := a / 2 / m;
    var r := a / 2 % m;
    assert a == 2 * (q * m + r) + a % 2;
    Division.Unique(a, 2 * m, q, 2 * r + a % 2);
  }
}
