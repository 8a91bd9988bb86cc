/** The flat transition table: the offset of an (environment, node, action,
    link) cell, row sums, and the row normalisation that follows loading. */
module Table {
  import opened Arith

  /** index: the offset of cell (env, s, a, link) in a table of n nodes and
      k actions; the k links of one (env, s, a) row are contiguous. */
  function Index(n: nat, k: nat, env: nat, s: nat, a: nat, link: nat): (j: nat)
    ensures link < k ==> j / k == RowIndex(n, k, env, s, a) && j % k == link
  {
    var j := link + k * (a + k * (s + n * env));
    if link < k then
      DivModUnique(j, k, RowIndex(n, k, env, s, a), link);
      j
    else
      j
  }

  /** The row holding cell (env, s, a, ·). */
  function RowIndex(n: nat, k: nat, env: nat, s: nat, a: nat): nat
  {
    a + k * (s + n * env)
  }

  /** Mixed-radix bounds: in-range coordinates give an in-range row, and the
      cell is that row's link-th entry. */
  lemma IndexBounds(n: nat, k: nat, envs: nat, env: nat, s: nat, a: nat, link: nat)
    requires env < envs && s < n && a < k && link < k
    ensures RowIndex(n, k, env, s, a) < envs * n * k
    ensures Index(n, k, env, s, a, link) == RowIndex(n, k, env, s, a) * k + link
    ensures Index(n, k, env, s, a, link) < envs * n * k * k
    ensures Index(n, k, env, s, a, link) / k == RowIndex(n, k, env, s, a)
    ensures Index(n, k, env, s, a, link) % k == link
  {
    var x := s + n * env;
    MulMonotone(env, envs - 1, n);
    assert x < envs * n by {
      assert (envs - 1) * n + n == envs * n;
    }
    var row := a + k * x;
    MulMonotone(x, envs * n - 1, k);
    assert row < envs * n * k by {
      assert (envs * n - 1) * k + k == envs * n * k;
    }
    MulMonotone(row, envs * n * k - 1, k);
    assert row * k + link < envs * n * k * k by {
      assert (envs * n * k - 1) * k + k == envs * n * k * k;
    }
    assert Index(n, k, env, s, a, link) == row * k + link;
    DivModUnique(row * k + link, k, row, link);
  }

  /** Distinct in-range coordinates never share a cell. */
  lemma IndexInjective(n: nat, k: nat, e1: nat, s1: nat, a1: nat, l1: nat, e2: nat, s2: nat, a2: nat, l2: nat)
    requires s1 < n && a1 < k && l1 < k && s2 < n && a2 < k && l2 < k
    requires Index(n, k, e1, s1, a1, l1) == Index(n, k, e2, s2, a2, l2)
    ensures e1 == e2 && s1 == s2 && a1 == a2 && l1 == l2
  {
    var x1, x2 := s1 + n * e1, s2 + n * e2;
    PeelDigit(k, a1 + k * x1, l1, a2 + k * x2, l2);
    PeelDigit(k, x1, a1, x2, a2);
    PeelDigit(n, e1, s1, e2, s2);
  }

  /** Sum of a row, accumulated from the left as the normalisation loop does. */
  function Sum(s: seq<real>): real
  {
    if |s| == 0 then 0.0 else Sum(s[..|s| - 1]) + s[|s| - 1]
  }

  predicate NonNegative(s: seq<real>)
  {
    forall i :: 0 <= i < |s| ==> 0.0 <= s[i]
  }

  lemma {:induction false} SumNonNegative(s: seq<real>)
    requires NonNegative(s)
    ensures Sum(s) >= 0.0
  {
    if |s| > 0 {
      SumNonNegative(s[..|s| - 1]);
    }
  }

  lemma SignOfSum(s: seq<real>)
    ensures NonNegative(s) ==> Sum(s) >= 0.0
  {
    if NonNegative(s) {
      SumNonNegative(s);
    }
  }

  /** The sum of the first n entries of a sequence that is zero before
      position c0 and equals row from c0 on. */
  lemma {:induction false} SumOfWindowPrefix(s: seq<real>, c0: nat, row: seq<real>, n: nat)
    requires c0 + |row| <= |s| && n <= |s|
    requires forall x :: 0 <= x < |s| && (x < c0 || c0 + |row| <= x) ==> s[x] == 0.0
    requires forall l :: 0 <= l < |row| ==> s[c0 + l] == row[l]
    ensures n <= c0 ==> Sum(s[..n]) == 0.0
    ensures c0 <= n <= c0 + |row| ==> Sum(s[..n]) == Sum(row[..n - c0])
    ensures c0 + |row| <= n ==> Sum(s[..n]) == Sum(row)
  {
    if n > 0 {
      SumOfWindowPrefix(s, c0, row, n - 1);
      assert s[..n][..n - 1] == s[..n - 1];
      if c0 < n <= c0 + |row| {
        assert row[..n - c0][..n - 1 - c0] == row[..n - 1 - c0];
      }
    }
    assert row[..|row|] == row;
  }

  /** A sequence that vanishes outside a window sums to the window's sum. */
  lemma SumOfWindow(s: seq<real>, c0: nat, row: seq<real>)
    requires c0 + |row| <= |s|
    requires forall x :: 0 <= x < |s| && (x < c0 || c0 + |row| <= x) ==> s[x] == 0.0
    requires forall l :: 0 <= l < |row| ==> s[c0 + l] == row[l]
    ensures Sum(s) == Sum(row)
  {
    SumOfWindowPrefix(s, c0, row, |s|);
    assert s[..|s|] == s;
  }

  /** Every entry of s divided by c. */
  function Divided(s: seq<real>, c: real): (r: seq<real>)
    requires c != 0.0
    ensures |r| == |s|
  {
    seq(|s|, i requires 0 <= i < |s| => s[i] / c)
  }

  /** Each entry of the divided row times c gives the entry back, and a
      positive divisor keeps the sign. */
  lemma DividedEntries(s: seq<real>, c: real)
    requires c != 0.0
    ensures forall i :: 0 <= i < |s| ==> Divided(s, c)[i] * c == s[i]
    ensures c > 0.0 && NonNegative(s) ==> NonNegative(Divided(s, c))
  {
    forall i | 0 <= i < |s|
      ensures Divided(s, c)[i] * c == s[i]
    {
      Quotient(s[i], c);
    }
    if c > 0.0 && NonNegative(s) {
      forall i | 0 <= i < |s|
        ensures Divided(s, c)[i] >= 0.0
      {
        Quotient(s[i], c);
      }
    }
  }

  lemma Quotient(x: real, c: real)
    requires c != 0.0
    ensures (x / c) * c == x
    ensures c > 0.0 && x >= 0.0 ==> x / c >= 0.0
  {
  }

  lemma AddQuotient(x: real, y: real, c: real)
    requires c != 0.0
    ensures (x + y) / c == x / c + y / c
  {
  }

  /** A row divided by its sum; a row summing to zero is left as it is. */
  function Normalised(row: seq<real>): (r: seq<real>)
    ensures |r| == |row|
    ensures Sum(row) == 0.0 ==> r == row
    ensures Sum(row) != 0.0 ==> Sum(r) == 1.0
    ensures Sum(row) != 0.0 ==> forall i :: 0 <= i < |row| ==> r[i] * Sum(row) == row[i]
    ensures NonNegative(row) ==> NonNegative(r)
  {
    var total := Sum(row);
    if total == 0.0 then
      row
    else
      DividedByTotal(row, total);
      DividedEntries(row, total);
      SignOfSum(row);
      Divided(row, total)
  }

  /** A row divided by its nonzero sum sums to 1. */
  lemma DividedByTotal(row: seq<real>, total: real)
    requires total == Sum(row) && total != 0.0
    ensures Sum(Divided(row, total)) == 1.0
  {
    SumQuotient(row, total);
  }

  lemma {:induction false} SumQuotient(s: seq<real>, c: real)
    requires c != 0.0
    ensures Sum(Divided(s, c)) == Sum(s) / c
  {
    if |s| > 0 {
      var init := s[..|s| - 1];
      SumQuotient(init, c);
      assert Divided(s, c)[..|s| - 1] == Divided(init, c);
      AddQuotient(Sum(init), s[|s| - 1], c);
    }
  }

  /** Row q of a table with rows of length k. */
  function Row(t: seq<real>, q: nat, k: nat): seq<real>
    requires q * k + k <= |t|
  {
    t[q * k..q * k + k]
  }

  /** Rows before q end where row q starts; rows after it start past its end. */
  lemma RowsApart(p: nat, q: nat, k: nat)
    ensures p < q ==> p * k + k <= q * k
    ensures q < p ==> q * k + k <= p * k
  {
    if p < q {
      MulMonotone(p + 1, q, k);
    } else if q < p {
      MulMonotone(q + 1, p, k);
    }
  }

  /** The table with row q replaced, every other cell kept. */
  function SetRow(t: seq<real>, q: nat, k: nat, row: seq<real>): (r: seq<real>)
    requires q * k + k <= |t| && |row| == k
    ensures |r| == |t| && Row(r, q, k) == row
    ensures forall j :: 0 <= j < |t| && (j < q * k || q * k + k <= j) ==> r[j] == t[j]
  {
    t[..q * k] + row + t[q * k + k..]
  }

  /** Row p of a table is untouched by replacing a different row. */
  lemma OtherRow(t: seq<real>, q: nat, p: nat, k: nat, row: seq<real>)
    requires q * k + k <= |t| && p * k + k <= |t| && |row| == k && p != q
    ensures Row(SetRow(t, q, k, row), p, k) == Row(t, p, k)
  {
    RowsApart(p, q, k);
    var r := SetRow(t, q, k, row);
    assert forall j :: 0 <= j < k ==> Row(r, p, k)[j] == r[p * k + j];
  }

  /** The normalisation loop over the first q rows. */
  function NormalizeRows(t: seq<real>, k: nat, q: nat): (r: seq<real>)
    requires q * k <= |t|
    ensures |r| == |t|
    ensures forall p: nat :: p < q ==> p * k + k <= |t| && Row(r, p, k) == Normalised(Row(t, p, k))
    ensures forall j :: q * k <= j < |t| ==> r[j] == t[j]
  {
    if q == 0 then
      t
    else
      var p := q - 1;
      assert p * k + k == q * k;
      NormalizeStep(t, NormalizeRows(t, k, p), k, p)
  }

  /** One iteration of the normalisation loop: row q is normalised, rows
      before it stay normalised, cells after it are untouched. */
  function NormalizeStep(t: seq<real>, r0: seq<real>, k: nat, q: nat): (r: seq<real>)
    requires q * k + k <= |t| == |r0|
    requires forall p: nat :: p < q ==> p * k + k <= |t| && Row(r0, p, k) == Normalised(Row(t, p, k))
    requires forall j :: q * k <= j < |t| ==> r0[j] == t[j]
    ensures |r| == |t|
    ensures forall p: nat :: p < q + 1 ==> p * k + k <= |t| && Row(r, p, k) == Normalised(Row(t, p, k))
    ensures forall j :: q * k + k <= j < |t| ==> r[j] == t[j]
  {
    StepRows(t, r0, k, q);
    SetRow(r0, q, k, Normalised(Row(r0, q, k)))
  }

  /** Row q of the unchanged tail is still the original row. */
  lemma TailRow(t: seq<real>, r0: seq<real>, k: nat, q: nat)
    requires q * k + k <= |t| == |r0|
    requires forall j :: q * k <= j < |t| ==> r0[j] == t[j]
    ensures Row(r0, q, k) == Row(t, q, k)
  {
    assert forall l :: 0 <= l < k ==> Row(r0, q, k)[l] == r0[q * k + l];
  }

  /** Replacing row q by its normalisation completes the first q + 1 rows. */
  lemma StepRows(t: seq<real>, r0: seq<real>, k: nat, q: nat)
    requires q * k + k <= |t| == |r0|
    requires forall p: nat :: p < q ==> p * k + k <= |t| && Row(r0, p, k) == Normalised(Row(t, p, k))
    requires forall j :: q * k <= j < |t| ==> r0[j] == t[j]
    ensures forall p: nat :: p < q + 1 ==>
      p * k + k <= |t| && Row(SetRow(r0, q, k, Normalised(Row(r0, q, k))), p, k) == Normalised(Row(t, p, k))
  {
    var row := Normalised(Row(r0, q, k));
    TailRow(t, r0, k, q);
    forall p: nat | p < q + 1
      ensures p * k + k <= |t| && Row(SetRow(r0, q, k, row), p, k) == Normalised(Row(t, p, k))
    {
      if p < q {
        OtherRow(r0, q, p, k, row);
      }
    }
  }
}
