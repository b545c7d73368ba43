/** Sums over the entries of gradient buffers. */
module Matrices {
  import opened Sums

  /** The sum of the first n entries of row t. */
  function RowTotal(m: array2<real>, t: nat, n: nat): real
    requires t < m.Length0 && n <= m.Length1
    reads m
  {
    if n == 0 then 0.0 else RowTotal(m, t, n - 1) + m[t, n - 1]
  }

  /** The sum of the first k rows. */
  function MatrixTotal(m: array2<real>, k: nat): real
    requires k <= m.Length0
    reads m
  {
    if k == 0 then 0.0 else MatrixTotal(m, k - 1) + RowTotal(m, k - 1, m.Length1)
  }

  lemma ScaleAdd(x: real, y: real, Z: real, scale: real, a: real, b: real)
    requires x * Z == scale * a && y * Z == scale * b
    ensures (x + y) * Z == scale * (a + b)
  {
    assert (x + y) * Z == x * Z + y * Z;
    assert scale * (a + b) == scale * a + scale * b;
  }

  lemma RowTotalNext(m: array2<real>, t: nat, n: nat)
    requires t < m.Length0 && 1 <= n <= m.Length1
    ensures RowTotal(m, t, n) == RowTotal(m, t, n - 1) + m[t, n - 1]
  {
  }

  lemma {:induction false} RowTotalIs(m: array2<real>, t: nat, n: nat, Z: real, scale: real, f: int -> real)
    requires t < m.Length0 && n <= m.Length1
    requires forall c :: 0 <= c < n ==> m[t, c] * Z == scale * f(c)
    ensures RowTotal(m, t, n) * Z == scale * Sum(n, f)
  {
    if n > 0 {
      hide RowTotal;
      RowTotalIs(m, t, n - 1, Z, scale, f);
      RowTotalNext(m, t, n);
      ScaleAdd(RowTotal(m, t, n - 1), m[t, n - 1], Z, scale, Sum(n - 1, f), f(n - 1));
    }
  }

  lemma MatrixTotalNext(m: array2<real>, k: nat)
    requires 1 <= k <= m.Length0
    ensures MatrixTotal(m, k) == MatrixTotal(m, k - 1) + RowTotal(m, k - 1, m.Length1)
  {
  }

  lemma {:induction false} MatrixTotalIs(m: array2<real>, k: nat, Z: real, scale: real, f: int -> real)
    requires k <= m.Length0
    requires forall t :: 0 <= t < k ==> RowTotal(m, t, m.Length1) * Z == scale * f(t)
    ensures MatrixTotal(m, k) * Z == scale * Sum(k, f)
  {
    if k > 0 {
      hide RowTotal, MatrixTotal;
      MatrixTotalIs(m, k - 1, Z, scale, f);
      MatrixTotalNext(m, k);
      ScaleAdd(MatrixTotal(m, k - 1), RowTotal(m, k - 1, m.Length1), Z, scale, Sum(k - 1, f), f(k - 1));
    }
  }

  lemma CancelFactor(x: real, y: real, Z: real)
    requires Z > 0.0 && x * Z == y * Z
    ensures x == y
  {
    assert (x - y) * Z == 0.0;
  }

  function Times(x: real, Z: real): real {
    x * Z
  }

  lemma TimesAdd(x: real, y: real, Z: real)
    ensures Times(x + y, Z) == Times(x, Z) + Times(y, Z)
  {
  }

  lemma TimesZero(Z: real) ensures Times(0.0, Z) == 0.0 {}

  /** Every entry multiplied by scale. */
  method ScaleBy(m: array2<real>, scale: real)
    modifies m
    ensures forall i, j :: 0 <= i < m.Length0 && 0 <= j < m.Length1 ==> m[i, j] == Times(old(m[i, j]), scale)
  {
    hide Times;
    for i := 0 to m.Length0
      invariant forall a, b :: 0 <= a < i && 0 <= b < m.Length1 ==> m[a, b] == Times(old(m[a, b]), scale)
      invariant forall a, b :: i <= a < m.Length0 && 0 <= b < m.Length1 ==> m[a, b] == old(m[a, b])
    {
      for j := 0 to m.Length1
        invariant forall a, b :: 0 <= a < i && 0 <= b < m.Length1 ==> m[a, b] == Times(old(m[a, b]), scale)
        invariant forall b :: 0 <= b < j ==> m[i, b] == Times(old(m[i, b]), scale)
        invariant forall b :: j <= b < m.Length1 ==> m[i, b] == old(m[i, b])
        invariant forall a, b :: i < a < m.Length0 && 0 <= b < m.Length1 ==> m[a, b] == old(m[a, b])
      {
        m[i, j] := Times(m[i, j], scale);
      }
    }
  }

  lemma Scaled(x: real, scale: real, Z: real, a: real)
    requires Times(x, Z) == a
    ensures Times(x, scale) * Z == scale * a
  {
    assert (x * scale) * Z == scale * (x * Z);
  }
}
