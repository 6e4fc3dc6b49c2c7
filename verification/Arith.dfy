/** Facts about products and quotients used by the programs that split work evenly. */
module Arith {

  lemma MulOrder(a: int, b: int, n: nat)
    ensures a <= b ==> a * n <= b * n
  {
  }

  lemma MulPred(a: int, n: nat)
    ensures (a - 1) * n == a * n - n && (a + 1) * n == a * n + n
  {
  }

  lemma DivMod(x: nat, n: nat)
    requires n >= 1
    ensures x == n * (x / n) + x % n
  {
  }

  lemma MulLess(i: nat, n: nat, len: nat, p: nat)
    requires len > 0 && i == p / len && p < n * len
    ensures i < n && i * len <= p < i * len + len
  {
    assert p == i * len + p % len;
    MulOrder(n, i, len);
  }

  lemma SameBlock(i: nat, j: nat, len: nat, p: nat)
    requires i * len <= p < i * len + len && j * len <= p < j * len + len
    ensures i == j
  {
    MulOrder(i + 1, j, len);
    MulOrder(j + 1, i, len);
  }

  lemma DivShift(a: nat, b: nat, n: nat)
    requires n >= 1
    ensures (a * n + b) / n == a + b / n
  {
    var q, r := b / n, b % n;
    assert a * n + b == (a + q) * n + r;
    DivUnique(a * n + b, a + q, r, n);
  }

  lemma DivUnique(x: nat, q: nat, r: nat, n: nat)
    requires n >= 1 && x == q * n + r && r < n
    ensures x / n == q
  {
    var q' := x / n;
    MulOrder(q + 1, q', n);
    MulOrder(q' + 1, q, n);
  }

  lemma ModSmall(i: nat, n: nat)
    requires i < n
    ensures i % n == i
  {
  }

  lemma MulSplit(i: nat, q: nat, n: nat, r: nat)
    ensures i * (q * n + r) == (i * q) * n + i * r
  {
  }
}
