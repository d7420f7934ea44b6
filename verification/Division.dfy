/** Division by repeated subtraction, and its agreement with the operators `/` and `%`. */
module Division {
  // The offset at which the i-th of consecutive pieces of m bytes begins.
  function Begin(m: nat, i: nat): nat {
    if i == 0 then 0 else Begin(m, i - 1) + m
  }

  function Quotient(a: nat, m: nat): (q: nat)
    requires m > 0
  {
    if a < m then 0 else 1 + Quotient(a - m, m)
  }

  function Remainder(a: nat, m: nat): (r: nat)
    requires m > 0
    ensures r < m
  {
    if a < m then a else Remainder(a - m, m)
  }

  lemma {:induction false} BeginIsProduct(m: nat, i: nat)
    ensures Begin(m, i) == i * m
  {
    if i > 0 {
      BeginIsProduct(m, i - 1);
      assert i * m == (i - 1) * m + m;
    }
  }

  lemma {:induction false} BeginIncreases(m: nat, i: nat, j: nat)
    requires i < j
    ensures Begin(m, i) + m <= Begin(m, j)
    decreases j
  {
    if i < j - 1 {
      BeginIncreases(m, i, j - 1);
    }
  }

  lemma {:induction false} Recompose(a: nat, m: nat)
    requires m > 0
    ensures a == Begin(m, Quotient(a, m)) + Remainder(a, m)
  {
    if a >= m {
      Recompose(a - m, m);
    }
  }

  lemma Unique(a: nat, m: nat, q: int, r: nat)
    requires m > 0 && r < m && a == q * m + r
    ensures a / m == q && a % m == r
  {
    var d := a / m - q;
    assert d * m == r - a % m;
    if d > 0 {
      Scale(d, m);
    } else if d < 0 {
      Scale(-d, m);
    }
  }

  lemma Scale(d: int, m: nat)
    requires d > 0
    ensures d * m >= m
  {
  }

  lemma IsDivision(a: nat, m: nat)
    requires m > 0
    ensures a / m == Quotient(a, m) && a % m == Remainder(a, m)
  {
    Recompose(a, m);
    BeginIsProduct(m, Quotient(a, m));
    Unique(a, m, Quotient(a, m), Remainder(a, m));
  }
}
