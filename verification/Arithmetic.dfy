// Division facts used by the address code. All operands are naturals, where
// C++ unsigned `/` and `%` agree with Dafny's.
module Arithmetic {

  lemma DivMod(x: nat, m: nat)
    requires m > 0
    ensures x == (x / m) * m + x % m
  {}

  lemma MulPositive(a: nat, b: nat)
    requires a > 0 && b > 0
    ensures a * b > 0
  {}

  lemma MulAssociative(a: int, b: int, c: int)
    ensures (a * b) * c == a * (b * c)
  {}

  lemma MulDistributes(a: int, b: int, c: int)
    ensures (a + b) * c == a * c + b * c
  {}

  // Uniqueness of quotient and remainder.
  lemma DivModUnique(q: nat, m: nat, r: nat)
    requires r < m
    ensures (q * m + r) / m == q && (q * m + r) % m == r
  {
    var x := q * m + r;
    DivMod(x, m);
    var q', r' := x / m, x % m;
    assert (q' - q) * m == r - r';
    if q' > q {
      MulMonotone(1, q' - q, m);
    } else if q' < q {
      MulMonotone(1, q - q', m);
    }
  }

  lemma MulMonotone(a: nat, b: nat, m: nat)
    requires a <= b
    ensures a * m <= b * m
  {}

  lemma DivBound(x: nat, n: nat, m: nat)
    requires m > 0 && x < n * m
    ensures x / m < n
  {
    DivMod(x, m);
    if x / m >= n { MulMonotone(n, x / m, m); }
  }

  lemma IndexBound(i: nat, n: nat, j: nat, m: nat)
    requires i < n && j < m
    ensures i * m + j < n * m
  {
    MulMonotone(i + 1, n, m);
    assert (i + 1) * m == i * m + m;
  }

  // Address of block k in a row that continues n rows of `width` blocks.
  lemma RowOffset(k: nat, n: nat, width: nat, size: nat)
    requires k >= n * width
    ensures width * size * n + (k - n * width) * size == k * size
  {
    calc {
      width * size * n + (k - n * width) * size;
      n * width * size + (k - n * width) * size;
      (n * width + (k - n * width)) * size;
    }
  }
}
