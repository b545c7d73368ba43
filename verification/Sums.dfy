/** Finite sums of reals: over an index range, and over every sequence of a
    given length. The second is the brute-force reference against which the
    dynamic programs of the sequence criteria are proved. */
module Sums {

  /** f(0) + ... + f(n - 1). */
  function Sum(n: nat, f: int -> real): real {
    if n == 0 then 0.0 else Sum(n - 1, f) + f(n - 1)
  }

  lemma {:induction false} SumExt(n: nat, f: int -> real, g: int -> real)
    requires forall i :: 0 <= i < n ==> f(i) == g(i)
    ensures Sum(n, f) == Sum(n, g)
  {
    if n > 0 { SumExt(n - 1, f, g); }
  }

  lemma {:induction false} SumZero(n: nat, f: int -> real)
    requires forall i :: 0 <= i < n ==> f(i) == 0.0
    ensures Sum(n, f) == 0.0
  {
    if n > 0 { SumZero(n - 1, f); }
  }

  lemma {:induction false} SumNonneg(n: nat, f: int -> real)
    requires forall i :: 0 <= i < n ==> f(i) >= 0.0
    ensures Sum(n, f) >= 0.0
  {
    if n > 0 { SumNonneg(n - 1, f); }
  }

  /** A sum of non-negative terms is at least any one of them. */
  lemma {:induction false} SumTerm(n: nat, f: int -> real, k: int)
    requires 0 <= k < n
    requires forall i :: 0 <= i < n ==> f(i) >= 0.0
    ensures Sum(n, f) >= f(k)
  {
    if k == n - 1 { SumNonneg(n - 1, f); } else { SumTerm(n - 1, f, k); }
  }

  lemma {:induction false} SumMono(n: nat, f: int -> real, g: int -> real)
    requires forall i :: 0 <= i < n ==> f(i) <= g(i)
    ensures Sum(n, f) <= Sum(n, g)
  {
    if n > 0 { SumMono(n - 1, f, g); }
  }

  lemma {:induction false} SumAdd(n: nat, f: int -> real, g: int -> real, h: int -> real)
    requires forall i :: 0 <= i < n ==> h(i) == f(i) + g(i)
    ensures Sum(n, h) == Sum(n, f) + Sum(n, g)
  {
    if n > 0 { SumAdd(n - 1, f, g, h); }
  }

  lemma {:induction false} SumScale(n: nat, a: real, f: int -> real, g: int -> real)
    requires forall i :: 0 <= i < n ==> g(i) == a * f(i)
    ensures Sum(n, g) == a * Sum(n, f)
  {
    if n > 0 { SumScale(n - 1, a, f, g); }
  }

  /** Terms beyond m that are zero may be dropped. */
  lemma {:induction false} SumTrim(m: nat, n: nat, f: int -> real)
    requires m <= n
    requires forall i :: m <= i < n ==> f(i) == 0.0
    ensures Sum(n, f) == Sum(m, f)
  {
    if m < n { SumTrim(m, n - 1, f); }
  }

  /** A sum whose terms vanish outside k, k + 1, k + 2. */
  lemma {:induction false} SumThree(n: nat, f: int -> real, k: int)
    requires forall i :: 0 <= i < n && !(k <= i <= k + 2) ==> f(i) == 0.0
    ensures Sum(n, f) == (if 0 <= k < n then f(k) else 0.0) + (if 0 <= k + 1 < n then f(k + 1) else 0.0)
                         + (if 0 <= k + 2 < n then f(k + 2) else 0.0)
  {
    if n > 0 { SumThree(n - 1, f, k); }
  }

  /** One term taken out of a sum. */
  lemma {:induction false} SumExtract(n: nat, f: int -> real, k: int)
    requires 0 <= k < n
    ensures Sum(n, f) == f(k) + Sum(n, Without(f, k))
  {
    var g := Without(f, k);
    if k == n - 1 {
      SumExt(n - 1, f, g);
      assert Sum(n, g) == Sum(n - 1, g) + g(n - 1);
    } else {
      SumExtract(n - 1, f, k);
      assert Sum(n, g) == Sum(n - 1, g) + g(n - 1);
    }
  }

  function Without(f: int -> real, k: int): int -> real {
    i => if i == k then 0.0 else f(i)
  }

  /** A sum with one term that is not zero. */
  lemma SumPick(n: nat, k: int, f: int -> real)
    requires 0 <= k < n && forall i :: 0 <= i < n && i != k ==> f(i) == 0.0
    ensures Sum(n, f) == f(k)
  {
    hide Sum;
    SumExtract(n, f, k);
    SumZero(n, Without(f, k));
  }

  lemma SumSwap(n: nat, m: nat, f: (int, int) -> real)
    ensures Sum(n, i => Sum(m, j => f(i, j))) == Sum(m, j => Sum(n, i => f(i, j)))
  {
    var rows: int -> real := i => Sum(m, j => f(i, j));
    var cols: int -> real := j => Sum(n, i => f(i, j));
    SumSwapRows(n, m, f, rows, cols);
  }

  lemma {:induction false} SumSwapRows(n: nat, m: nat, f: (int, int) -> real, rows: int -> real, cols: int -> real)
    requires forall i :: rows(i) == Sum(m, j => f(i, j))
    requires forall j :: 0 <= j < m ==> cols(j) == Sum(n, i => f(i, j))
    ensures Sum(n, rows) == Sum(m, cols)
  {
    if n == 0 {
      SumZero(m, cols);
    } else {
      var last: int -> real := j => f(n - 1, j);
      var cols': int -> real := j => Sum(n - 1, i => f(i, j));
      SumSwapRows(n - 1, m, f, rows, cols');
      forall j | 0 <= j < m ensures cols(j) == cols'(j) + last(j) {
        var col: int -> real := i => f(i, j);
        assert Sum(n, col) == Sum(n - 1, col) + col(n - 1);
        SumExt(n, col, i => f(i, j));
        SumExt(n - 1, col, i => f(i, j));
      }
      SumAdd(m, cols', last, cols);
      SumExt(m, last, j => f(n - 1, j));
    }
  }

  // ---- Sums over sequences

  /** The sum of f over every extension of prefix by k symbols below n. */
  function SumExtensions(n: nat, prefix: seq<int>, k: nat, f: seq<int> -> real): real
    decreases k
  {
    if k == 0 then f(prefix) else Sum(n, c => SumExtensions(n, prefix + [c], k - 1, f))
  }

  /** The sum of f over all n^k sequences of length k with symbols below n. */
  function SumSequences(n: nat, k: nat, f: seq<int> -> real): real {
    SumExtensions(n, [], k, f)
  }

  predicate Below(s: seq<int>, n: nat) {
    forall i :: 0 <= i < |s| ==> 0 <= s[i] < n
  }

  lemma {:induction false} SumExtensionsExt(n: nat, prefix: seq<int>, k: nat, f: seq<int> -> real, g: seq<int> -> real)
    requires Below(prefix, n)
    requires forall s: seq<int> :: Below(s, n) && |s| == |prefix| + k ==> f(s) == g(s)
    ensures SumExtensions(n, prefix, k, f) == SumExtensions(n, prefix, k, g)
    decreases k
  {
    if k > 0 {
      var fc: int -> real := c => SumExtensions(n, prefix + [c], k - 1, f);
      var gc: int -> real := c => SumExtensions(n, prefix + [c], k - 1, g);
      forall c | 0 <= c < n ensures fc(c) == gc(c) {
        SumExtensionsExt(n, prefix + [c], k - 1, f, g);
      }
      SumExt(n, fc, gc);
    }
  }

  /** Two different terms of a sum of non-negative ones. */
  lemma SumTwoTerms(n: nat, f: int -> real, j: int, k: int)
    requires 0 <= j < n && 0 <= k < n && j != k
    requires forall i :: 0 <= i < n ==> f(i) >= 0.0
    ensures Sum(n, f) >= f(j) + f(k)
  {
    hide Sum;
    SumExtract(n, f, j);
    SumTerm(n, Without(f, j), k);
  }

  lemma {:induction false} SumExtensionsNonneg(n: nat, prefix: seq<int>, k: nat, f: seq<int> -> real)
    requires forall s :: f(s) >= 0.0
    ensures SumExtensions(n, prefix, k, f) >= 0.0
    decreases k
  {
    if k > 0 {
      var ext: int -> real := c => SumExtensions(n, prefix + [c], k - 1, f);
      forall c ensures ext(c) >= 0.0 { SumExtensionsNonneg(n, prefix + [c], k - 1, f); }
      SumNonneg(n, ext);
    }
  }

  /** A sum of non-negative terms over sequences is at least any one of them... */
  lemma {:induction false} SumExtensionsTerm(n: nat, prefix: seq<int>, k: nat, f: seq<int> -> real, a: seq<int>)
    requires Below(a, n) && |a| == |prefix| + k && a[..|prefix|] == prefix
    requires forall s :: f(s) >= 0.0
    ensures SumExtensions(n, prefix, k, f) >= f(a)
    decreases k
  {
    assert k == 0 ==> a[..|prefix|] == a;
    if k > 0 {
      var ext: int -> real := c => SumExtensions(n, prefix + [c], k - 1, f);
      forall c ensures ext(c) >= 0.0 { SumExtensionsNonneg(n, prefix + [c], k - 1, f); }
      var c := a[|prefix|];
      assert a[..|prefix| + 1] == prefix + [c];
      SumExtensionsTerm(n, prefix + [c], k - 1, f, a);
      SumTerm(n, ext, c);
    }
  }

  /** ... and any two. */
  lemma {:induction false} SumExtensionsTwo(n: nat, prefix: seq<int>, k: nat, f: seq<int> -> real, a: seq<int>,
                                            b: seq<int>)
    requires Below(a, n) && |a| == |prefix| + k && a[..|prefix|] == prefix
    requires Below(b, n) && |b| == |prefix| + k && b[..|prefix|] == prefix && a != b
    requires forall s :: f(s) >= 0.0
    ensures SumExtensions(n, prefix, k, f) >= f(a) + f(b)
    decreases k
  {
    if k > 0 {
      var ext: int -> real := c => SumExtensions(n, prefix + [c], k - 1, f);
      forall c ensures ext(c) >= 0.0 { SumExtensionsNonneg(n, prefix + [c], k - 1, f); }
      var c, d := a[|prefix|], b[|prefix|];
      assert a[..|prefix| + 1] == prefix + [c] && b[..|prefix| + 1] == prefix + [d];
      if c == d {
        SumExtensionsTwo(n, prefix + [c], k - 1, f, a, b);
        SumTerm(n, ext, c);
      } else {
        SumExtensionsTerm(n, prefix + [c], k - 1, f, a);
        SumExtensionsTerm(n, prefix + [d], k - 1, f, b);
        SumTwoTerms(n, ext, c, d);
      }
    }
  }

  /** A sum over sequences of which only a counts. */
  lemma {:induction false} SumExtensionsOne(n: nat, prefix: seq<int>, k: nat, f: seq<int> -> real, a: seq<int>)
    requires Below(a, n) && |a| == |prefix| + k && Below(prefix, n)
    requires forall s: seq<int> :: Below(s, n) && |s| == |a| && s != a ==> f(s) == 0.0
    ensures SumExtensions(n, prefix, k, f) == if a[..|prefix|] == prefix then f(a) else 0.0
    decreases k
  {
    if k == 0 {
      assert a[..|prefix|] == a;
    } else {
      var ext: int -> real := c => SumExtensions(n, prefix + [c], k - 1, f);
      var c := a[|prefix|];
      assert a[..|prefix| + 1] == a[..|prefix|] + [c];
      forall d | 0 <= d < n ensures ext(d) == if d == c && a[..|prefix|] == prefix then f(a) else 0.0 {
        SumExtensionsOne(n, prefix + [d], k - 1, f, a);
      }
      SumPick(n, c, ext);
    }
  }

  lemma {:induction false} SumExtensionsMono(n: nat, prefix: seq<int>, k: nat, f: seq<int> -> real,
                                             g: seq<int> -> real)
    requires Below(prefix, n)
    requires forall s: seq<int> :: Below(s, n) && |s| == |prefix| + k ==> f(s) <= g(s)
    ensures SumExtensions(n, prefix, k, f) <= SumExtensions(n, prefix, k, g)
    decreases k
  {
    if k > 0 {
      var fc: int -> real := c => SumExtensions(n, prefix + [c], k - 1, f);
      var gc: int -> real := c => SumExtensions(n, prefix + [c], k - 1, g);
      forall c | 0 <= c < n ensures fc(c) <= gc(c) {
        SumExtensionsMono(n, prefix + [c], k - 1, f, g);
      }
      SumMono(n, fc, gc);
    }
  }

  lemma {:induction false} SumExtensionsScale(n: nat, prefix: seq<int>, k: nat, a: real, f: seq<int> -> real,
                                              g: seq<int> -> real)
    requires forall s :: g(s) == a * f(s)
    ensures SumExtensions(n, prefix, k, g) == a * SumExtensions(n, prefix, k, f)
    decreases k
  {
    if k > 0 {
      var fc: int -> real := c => SumExtensions(n, prefix + [c], k - 1, f);
      var gc: int -> real := c => SumExtensions(n, prefix + [c], k - 1, g);
      forall c | 0 <= c < n ensures gc(c) == a * fc(c) {
        SumExtensionsScale(n, prefix + [c], k - 1, a, f, g);
      }
      SumScale(n, a, fc, gc);
    }
  }

  lemma {:induction false} SumExtensionsAdd(n: nat, prefix: seq<int>, k: nat, f: seq<int> -> real, g: seq<int> -> real,
                                            h: seq<int> -> real)
    requires forall s :: h(s) == f(s) + g(s)
    ensures SumExtensions(n, prefix, k, h) == SumExtensions(n, prefix, k, f) + SumExtensions(n, prefix, k, g)
    decreases k
  {
    if k > 0 {
      var fc: int -> real := c => SumExtensions(n, prefix + [c], k - 1, f);
      var gc: int -> real := c => SumExtensions(n, prefix + [c], k - 1, g);
      var hc: int -> real := c => SumExtensions(n, prefix + [c], k - 1, h);
      forall c | 0 <= c < n ensures hc(c) == fc(c) + gc(c) {
        SumExtensionsAdd(n, prefix + [c], k - 1, f, g, h);
      }
      SumAdd(n, fc, gc, hc);
    }
  }

  lemma {:induction false} SumExtensionsZero(n: nat, prefix: seq<int>, k: nat, f: seq<int> -> real)
    requires forall s :: f(s) == 0.0
    ensures SumExtensions(n, prefix, k, f) == 0.0
    decreases k
  {
    if k > 0 {
      var fc: int -> real := c => SumExtensions(n, prefix + [c], k - 1, f);
      forall c | 0 <= c < n ensures fc(c) == 0.0 { SumExtensionsZero(n, prefix + [c], k - 1, f); }
      SumZero(n, fc);
    }
  }

  function Row(F: (int, seq<int>) -> real, j: int): seq<int> -> real {
    s => F(j, s)
  }

  function ColumnSum(m: nat, F: (int, seq<int>) -> real): seq<int> -> real {
    s => Sum(m, j => F(j, s))
  }

  lemma ColumnNext(m: nat, F: (int, seq<int>) -> real, s: seq<int>)
    requires m > 0
    ensures ColumnSum(m, F)(s) == ColumnSum(m - 1, F)(s) + F(m - 1, s)
  {
    var f: int -> real := j => F(j, s);
    SumExt(m, f, j => F(j, s));
    SumExt(m - 1, f, j => F(j, s));
  }

  /** Summing over sequences and over finitely many cases in either order. */
  lemma {:induction false} SumExtensionsCases(m: nat, n: nat, k: nat, F: (int, seq<int>) -> real, parts: int -> real)
    requires forall j :: 0 <= j < m ==> parts(j) == SumSequences(n, k, Row(F, j))
    ensures Sum(m, parts) == SumSequences(n, k, ColumnSum(m, F))
  {
    if m == 0 {
      SumExtensionsZero(n, [], k, ColumnSum(0, F));
    } else {
      SumExtensionsCases(m - 1, n, k, F, parts);
      forall s ensures ColumnSum(m, F)(s) == ColumnSum(m - 1, F)(s) + Row(F, m - 1)(s) { ColumnNext(m, F, s); }
      SumExtensionsAdd(n, [], k, ColumnSum(m - 1, F), Row(F, m - 1), ColumnSum(m, F));
    }
  }

  function LastSum(n: nat, f: seq<int> -> real): seq<int> -> real {
    s => Sum(n, c => f(s + [c]))
  }

  /** The last symbol may be summed first. */
  lemma {:induction false} SumExtensionsLast(n: nat, prefix: seq<int>, k: nat, f: seq<int> -> real)
    ensures SumExtensions(n, prefix, k + 1, f) == SumExtensions(n, prefix, k, LastSum(n, f))
    decreases k
  {
    var fc: int -> real := c => SumExtensions(n, prefix + [c], k, f);
    if k == 0 {
      SumExt(n, fc, c => f(prefix + [c]));
    } else {
      var gc: int -> real := c => SumExtensions(n, prefix + [c], k - 1, LastSum(n, f));
      forall c | 0 <= c < n ensures fc(c) == gc(c) { SumExtensionsLast(n, prefix + [c], k - 1, f); }
      SumExt(n, fc, gc);
    }
  }
}
