/** What several components use. */
module Common {
  datatype Option<T> = None | Some(value: T)

  /** A 64-bit word of memory. */
  type Word = w: int | 0 <= w < 0x1_0000_0000_0000_0000

  lemma {:induction false} ProductAtLeast(m: nat, g: int)
    requires g >= 1
    ensures m * g >= m
  {
  }

  /** Quotient and remainder are settled by one equation. */
  lemma {:induction false} QuotientIs(x: nat, m: nat, q: int, r: nat)
    requires r < m && x == m * q + r
    ensures x / m == q && x % m == r
  {
    var gap := x / m - q;
    assert m * (x / m) - m * q == m * gap;
    assert m * -gap == -(m * gap);
    assert gap < 1 by { if gap >= 1 { ProductAtLeast(m, gap); } }
    assert gap > -1 by { if gap <= -1 { ProductAtLeast(m, -gap); } }
  }

  /** align_val: val rounded up to a multiple of m (a power of two in every use). */
  function AlignUp(val: nat, m: nat): (r: nat)
    requires m > 0
    ensures r % m == 0 && val <= r < val + m
  {
    assert val + (m - 1) == m * ((val + (m - 1)) / m) + (val + (m - 1)) % m;
    MultipleOf((val + (m - 1)) / m, m);
    (val + (m - 1)) / m * m
  }

  lemma {:induction false} MultipleOf(k: nat, m: nat)
    requires m > 0
    ensures k * m % m == 0
  {
    if k > 0 {
      MultipleOf(k - 1, m);
      assert k * m == (k - 1) * m + m;
      assert ((k - 1) * m + m) % m == (k - 1) * m % m by { AddMultiple((k - 1) * m, m); }
    }
  }

  lemma {:induction false} AddMultiple(x: nat, m: nat)
    requires m > 0
    ensures (x + m) % m == x % m
  {
    var q, r := x / m, x % m;
    assert x + m == m * (q + 1) + r;
    QuotientIs(x + m, m, q + 1, r);
  }
}
