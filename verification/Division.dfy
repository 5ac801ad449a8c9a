/** The few facts about division with remainder that the solver needs spelled out. */
module Division {

  lemma Multiple(d: int, m: nat)
    ensures d >= 1 ==> d * m >= m
    ensures d <= -1 ==> d * m + m <= 0
  {
    if d >= 1 {
      assert d * m == (d - 1) * m + m;
    } else if d <= -1 {
      assert d * m + m == (d + 1) * m;
    }
  }

  /** Quotient and remainder are unique. */
  lemma DivisionIs(x: nat, m: nat, q: nat, r: nat)
    requires m > 0 && r < m && x == q * m + r
    ensures x / m == q && x % m == r
  {
    var d := x / m - q;
    assert d * m == r - x % m by {
      assert x == (x / m) * m + x % m;
      assert d * m == (x / m) * m - q * m;
    }
    Multiple(d, m);
  }

  /** Quotient and remainder by repeated subtraction: the same numbers as `/` and `%` give, in a form
      that proofs about whole runs can carry along cheaply. */
  function Quotient(t: nat, m: int): (q: nat)
    requires m > 0
    ensures q <= t && (m > 1 && t > 0 ==> q < t)
  {
    if t < m then 0 else Quotient(t - m, m) + 1
  }

  function Remainder(t: nat, m: int): (r: nat)
    requires m > 0
    ensures r < m
  {
    if t < m then t else Remainder(t - m, m)
  }

  lemma NextMultiple(q: int, m: int)
    ensures (q + 1) * m == q * m + m
  {
  }

  lemma {:induction false} DivisionParts(t: nat, m: int)
    requires m > 0
    ensures t == Quotient(t, m) * m + Remainder(t, m)
  {
    if t >= m {
      DivisionParts(t - m, m);
      NextMultiple(Quotient(t - m, m), m);
    }
  }

  /** They are the quotient and the remainder. */
  lemma DivisionAgrees(t: nat, m: int)
    requires m > 0
    ensures Quotient(t, m) == t / m && Remainder(t, m) == t % m
  {
    DivisionParts(t, m);
    DivisionIs(t, m, Quotient(t, m), Remainder(t, m));
  }

  lemma DivisionOf(q: nat, r: nat, m: int)
    requires m > 0 && r < m
    ensures q * m + r >= 0 && Quotient(q * m + r, m) == q && Remainder(q * m + r, m) == r
  {
    Multiple(q, m);
    DivisionAgrees(q * m + r, m);
    DivisionIs(q * m + r, m, q, r);
  }

  lemma {:induction false} RemainderStep(t: nat, m: int)
    requires m > 0
    ensures Remainder(t + 1, m) == if Remainder(t, m) + 1 == m then 0 else Remainder(t, m) + 1
  {
    if t >= m { RemainderStep(t - m, m); }
  }
}
