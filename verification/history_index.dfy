/** The recency-window encoding of the recommender model: a window of at most
    h recently accepted items (out of k) is a length-h digit vector whose
    entries lie in [0, k], zeros appearing only as leading padding and item i
    being stored as digit i + 1.  Read as a bijective base-k numeral, such a
    vector is a dense node id in [0, N) with N = 1 + k + ... + k^h. */
module HistoryIndex {
  import opened Arith

  /** Shape of the window tree: k items (actions), windows of at most h items. */
  datatype Tree = Tree(k: nat, h: nat) {

    /** k >= 2 because the summary's node-count formula divides by k - 1. */
    predicate Valid()
    {
      k >= 2 && h >= 1
    }

    /** pows[i] = k^(h-1-i), the weight of digit position i. */
    function Weight(i: nat): (w: nat)
      requires Valid() && i < h
      ensures w >= 1
    {
      PowPositive(k, h - 1 - i);
      Pow(k, h - 1 - i)
    }

    /** acpows[i] = 1 + k + ... + k^(h-1-i); acpows[h] is the empty sum. */
    function AccWeight(i: nat): nat
      requires i <= h
    {
      Geo(k, h - i)
    }

    /** N, the number of windows of length at most h. */
    function Nodes(): nat
    {
      Geo(k, h + 1)
    }
  }

  /** The two weights that tree navigation uses: P = pows[0], A = acpows[1]. */
  lemma Shape(t: Tree)
    requires t.Valid()
    ensures t.Weight(0) == (t.k - 1) * t.AccWeight(1) + 1
    ensures t.AccWeight(1) < t.Weight(0)
    ensures t.Nodes() == 1 + t.k * (t.Weight(0) + t.AccWeight(1))
  {
    var P, A := t.Weight(0), t.AccWeight(1);
    PowGeo(t.k, t.h - 1);
    MulMonotone(1, t.k - 1, A);
    GeoStep(t.k, t.h - 1);
  }

  /** The constructor's precomputation of pows and acpows, from the last
      position backwards. */
  method PrecomputeWeights(t: Tree) returns (pows: seq<nat>, acpows: seq<nat>)
    requires t.Valid()
    ensures |pows| == t.h && |acpows| == t.h
    ensures forall i :: 0 <= i < t.h ==> pows[i] == Pow(t.k, t.h - 1 - i)
    ensures forall i :: 0 <= i < t.h ==> acpows[i] == Geo(t.k, t.h - i)
  {
    pows := [1];
    acpows := [1];
    var i := t.h - 1;
    while i > 0
      invariant 0 <= i < t.h
      invariant |pows| == t.h - i && |acpows| == t.h - i
      invariant forall j :: 0 <= j < |pows| ==> pows[j] == Pow(t.k, t.h - 1 - (i + j))
      invariant forall j :: 0 <= j < |acpows| ==> acpows[j] == Geo(t.k, t.h - (i + j))
    {
      GeoStep(t.k, t.h - i);
      i := i - 1;
      pows := [pows[0] * t.k] + pows;
      acpows := [acpows[0] + pows[0]] + acpows;
    }
  }

  /** The positional value of a digit vector: the sum of d[i] * k^(|d|-1-i). */
  function Numeral(k: nat, d: seq<nat>): nat
  {
    if |d| == 0 then 0 else d[0] * Pow(k, |d| - 1) + Numeral(k, d[1..])
  }

  /** Every digit lies in [0, k], and a zero is never preceded by a non-zero digit. */
  predicate WellPadded(k: nat, d: seq<nat>)
  {
    && (forall i :: 0 <= i < |d| ==> d[i] <= k)
    && (forall i, j :: 0 <= i < j < |d| && d[i] > 0 ==> d[j] > 0)
  }

  /** A window of the tree t: a well-padded digit vector of length h. */
  predicate ValidWindow(t: Tree, d: seq<nat>)
  {
    |d| == t.h && WellPadded(t.k, d)
  }

  function Zeros(n: nat): (z: seq<nat>)
  {
    seq(n, _ => 0)
  }

  lemma NumeralCons(k: nat, x: nat, d: seq<nat>)
    ensures Numeral(k, [x] + d) == x * Pow(k, |d|) + Numeral(k, d)
  {
    assert ([x] + d)[1..] == d;
  }

  /** Appending a digit shifts the numeral one place. */
  lemma {:induction false} NumeralSnoc(k: nat, d: seq<nat>, x: nat)
    ensures Numeral(k, d + [x]) == Numeral(k, d) * k + x
  {
    if |d| == 0 {
      assert d + [x] == [x];
      assert [x][1..] == [];
    } else {
      assert (d + [x])[1..] == d[1..] + [x];
      NumeralSnoc(k, d[1..], x);
      var p := Pow(k, |d| - 1);
      assert Pow(k, |d|) == k * p;
      assert d[0] * (k * p) == (d[0] * p) * k;
    }
  }

  lemma WellPaddedCons(k: nat, x: nat, d: seq<nat>)
    requires x <= k && WellPadded(k, d)
    requires x > 0 && |d| > 0 ==> d[0] > 0
    ensures WellPadded(k, [x] + d)
  {
    var e := [x] + d;
    forall i, j | 0 <= i < j < |e| && e[i] > 0
      ensures e[j] > 0
    {
      if i > 0 {
        assert e[i] == d[i - 1] && e[j] == d[j - 1];
      } else if j > 1 {
        assert d[0] > 0 && e[j] == d[j - 1];
      }
    }
  }

  /** A window with no item but the newest one. */
  lemma {:induction false} ZerosThen(k: nat, n: nat, x: nat)
    requires x <= k
    ensures Numeral(k, Zeros(n) + [x]) == x
    ensures WellPadded(k, Zeros(n) + [x])
  {
    if n == 0 {
      assert Zeros(0) + [x] == [x];
      assert [x][1..] == [];
    } else {
      ZerosThen(k, n - 1, x);
      assert Zeros(n) + [x] == [0] + (Zeros(n - 1) + [x]);
      NumeralCons(k, 0, Zeros(n - 1) + [x]);
      WellPaddedCons(k, 0, Zeros(n - 1) + [x]);
    }
  }

  lemma GeoTwo(k: nat)
    ensures Geo(k, 2) == 1 + k
  {
    assert Geo(k, 1) == 1;
  }

  lemma GeoAtLeast(k: nat, m: nat)
    ensures m >= 2 ==> Geo(k, m) >= 1 + k
  {
    if m >= 2 {
      MulMonotone(1, Geo(k, m - 1), k);
    }
  }

  /** A well-padded numeral of length L is below Geo(k, L+1), and it reaches
      Geo(k, L) exactly when its leading digit is non-zero (the window is full). */
  lemma {:induction false} NumeralBounds(k: nat, d: seq<nat>)
    requires k >= 2 && WellPadded(k, d)
    ensures Numeral(k, d) < Geo(k, |d| + 1)
    ensures |d| > 0 ==> (d[0] > 0 <==> Numeral(k, d) >= Geo(k, |d|))
  {
    if |d| > 0 {
      var L, rest := |d|, d[1..];
      assert WellPadded(k, rest);
      NumeralBounds(k, rest);
      var P, A, R := Pow(k, L - 1), Geo(k, L - 1), Numeral(k, rest);
      GeoStep(k, L - 1);
      GeoStep(k, L);
      assert Pow(k, L) == k * P;
      assert Numeral(k, d) == d[0] * P + R;
      if d[0] > 0 {
        if L > 1 {
          assert rest[0] == d[1];
        }
        MulMonotone(1, d[0], P);
        MulMonotone(d[0], k, P);
      }
    }
  }

  /** A well-padded numeral not above k has no item but the newest. */
  lemma {:induction false} SmallNumeral(k: nat, d: seq<nat>)
    requires k >= 2 && WellPadded(k, d) && |d| >= 1 && Numeral(k, d) <= k
    ensures d == Zeros(|d| - 1) + [Numeral(k, d)]
  {
    if |d| == 1 {
      assert d[1..] == [];
    } else {
      NumeralBounds(k, d);
      GeoAtLeast(k, |d|);
      assert d[0] == 0;
      var rest := d[1..];
      assert WellPadded(k, rest);
      SmallNumeral(k, rest);
      assert d == [0] + rest;
      assert Zeros(|d| - 1) == [0] + Zeros(|d| - 2);
    }
  }

  /** The weights of one layer of the tree: with P = k^(L-1) and
      A = Geo(k, L-1), windows of length L have ids below A + P + k*P, and
      the full ones (leading digit non-zero) start at A + P. */
  lemma Layer(k: nat, L: nat)
    requires k >= 2 && L >= 1
    ensures Pow(k, L - 1) >= 1 && Geo(k, L - 1) < Pow(k, L - 1)
    ensures k * Geo(k, L - 1) == Pow(k, L - 1) + Geo(k, L - 1) - 1
    ensures Geo(k, L) == Geo(k, L - 1) + Pow(k, L - 1)
    ensures Geo(k, L + 1) == Geo(k, L) + k * Pow(k, L - 1)
  {
    PowPositive(k, L - 1);
    PowGeo(k, L - 1);
    MulMonotone(1, k - 1, Geo(k, L - 1));
    GeoStep(k, L - 1);
    GeoStep(k, L);
  }

  /** One digit of the left-to-right decoding of id = q*P + r, an id of a
      window of length L (P and A as in Layer): either branch of id_to_state's
      test yields a digit in [0, k] that is non-zero exactly for full windows. */
  lemma DigitSplit(k: int, P: int, A: int, id: int, q: int, r: int)
    requires k >= 2 && 0 <= A < P && k * A == P + A - 1
    requires id == q * P + r && 0 <= r < P && 0 <= q
    requires id < A + P + k * P
    ensures q > 0 && r < A ==> q - 1 <= k && (q - 1 > 0 <==> id >= A + P)
    ensures !(q > 0 && r < A) ==> q <= k && (q > 0 <==> id >= A + P)
  {
    if q > 0 && r < A {
      if q > k + 1 {
        MulMonotone(k + 2, q, P);
      }
      if q >= 2 {
        MulMonotone(2, q, P);
      }
    } else {
      if q > k {
        MulMonotone(k + 1, q, P);
      }
      if q > 0 {
        MulMonotone(1, q, P);
      }
    }
  }

  /** A window id has only one split into a leading digit and the id of the
      remaining digits (P and A as in Layer). */
  lemma SplitUnique(k: int, P: int, A: int, x1: int, r1: int, x2: int, r2: int)
    requires 0 <= A < P
    requires 0 <= x1 && 0 <= r1 < A + P && (x1 > 0 ==> r1 >= A)
    requires 0 <= x2 && 0 <= r2 < A + P && (x2 > 0 ==> r2 >= A)
    requires x1 * P + r1 == x2 * P + r2
    ensures x1 == x2 && r1 == r2
  {
    if x1 < x2 {
      MulMonotone(x1 + 1, x2, P);
    } else if x2 < x1 {
      MulMonotone(x2 + 1, x1, P);
    }
  }

  /** Prefixing a digit to the decoded rest of a window of length L. */
  lemma ConsDigit(k: nat, L: nat, x: nat, rest: seq<nat>, id: nat)
    requires k >= 2 && L >= 2 && |rest| == L - 1 && WellPadded(k, rest)
    requires rest[0] > 0 <==> Numeral(k, rest) >= Geo(k, L - 1)
    requires x <= k && id == x * Pow(k, L - 1) + Numeral(k, rest)
    requires x > 0 ==> Numeral(k, rest) >= Geo(k, L - 1)
    requires x > 0 <==> id >= Geo(k, L)
    ensures |[x] + rest| == L && WellPadded(k, [x] + rest) && Numeral(k, [x] + rest) == id
    ensures ([x] + rest)[0] > 0 <==> id >= Geo(k, L)
  {
    NumeralCons(k, x, rest);
    WellPaddedCons(k, x, rest);
  }

  /** One iteration of id_to_state's loop at position indx: the digit stored
      there and the id of the remaining positions.  id_to_state's test is
      `rem < acpows[indx + 1]`; the guard `quot > 0` is the correction that
      keeps a leading zero from becoming quot - 1 = -1. */
  function DigitAt(t: Tree, id: nat, indx: nat): (r: (nat, nat))
    requires t.Valid() && indx < t.h && t.k < id < Geo(t.k, t.h - indx + 1)
    ensures indx + 1 < t.h
    ensures r.0 <= t.k && r.1 < Geo(t.k, t.h - indx)
    ensures r.0 > 0 ==> r.1 >= Geo(t.k, t.h - indx - 1)
    ensures r.0 > 0 <==> id >= Geo(t.k, t.h - indx)
    ensures id == r.0 * Pow(t.k, t.h - indx - 1) + r.1
  {
    var L := t.h - indx;
    GeoTwo(t.k);
    Layer(t.k, L);
    var P, A := Pow(t.k, L - 1), Geo(t.k, L - 1);
    assert t.Weight(indx) == P && t.AccWeight(indx + 1) == A;
    var q, rem := id / P, id % P;
    DivModNat(id, P);
    DigitSplit(t.k, P, A, id, q, rem);
    if q > 0 && rem < t.AccWeight(indx + 1) then
      assert (q - 1) * P + (P + rem) == id;
      (q - 1, t.Weight(indx) + rem)
    else
      (q, rem)
  }

  /** id_to_state from position indx on: digits are produced left to right
      until the remaining id fits in the last position. */
  function IdToStateFrom(t: Tree, id: nat, indx: nat): (d: seq<nat>)
    requires t.Valid() && indx < t.h && id < Geo(t.k, t.h - indx + 1)
    ensures |d| == t.h - indx && WellPadded(t.k, d) && Numeral(t.k, d) == id
    ensures d[0] > 0 <==> id >= Geo(t.k, t.h - indx)
    decreases t.h - indx
  {
    if id <= t.k then
      ZerosThen(t.k, t.h - 1 - indx, id);
      GeoAtLeast(t.k, t.h - indx);
      Zeros(t.h - 1 - indx) + [id]
    else
      var step := DigitAt(t, id, indx);
      var rest := IdToStateFrom(t, step.1, indx + 1);
      ConsDigit(t.k, t.h - indx, step.0, rest, id);
      [step.0] + rest
  }

  /** id_to_state: the window whose id is the given one. */
  function IdToState(t: Tree, id: nat): (d: seq<nat>)
    requires t.Valid() && id < t.Nodes()
    ensures ValidWindow(t, d) && Numeral(t.k, d) == id
  {
    IdToStateFrom(t, id, 0)
  }

  /** Decoding the numeral of a well-padded suffix gives the suffix back. */
  lemma {:induction false} DecodeNumeral(t: Tree, d: seq<nat>, indx: nat)
    requires t.Valid() && indx < t.h && |d| == t.h - indx && WellPadded(t.k, d)
    ensures Numeral(t.k, d) < Geo(t.k, t.h - indx + 1)
    ensures IdToStateFrom(t, Numeral(t.k, d), indx) == d
    decreases t.h - indx
  {
    var k, L, id := t.k, t.h - indx, Numeral(t.k, d);
    NumeralBounds(k, d);
    if id <= k {
      SmallNumeral(k, d);
    } else {
      var step := DigitAt(t, id, indx);
      var rest := d[1..];
      var P, A, R := Pow(k, L - 1), Geo(k, L - 1), Numeral(k, rest);
      Layer(k, L);
      assert WellPadded(k, rest);
      NumeralBounds(k, rest);
      assert id == d[0] * P + R;
      if d[0] > 0 {
        assert rest[0] == d[1];
      }
      SplitUnique(k, P, A, step.0, step.1, d[0], R);
      DecodeNumeral(t, rest, indx + 1);
      assert d == [d[0]] + rest;
    }
  }

  /** state_to_id: the weighted digit sum, as state_to_id's loop computes it.
      A valid window lands in [0, N) and decodes back to itself. */
  method StateToId(t: Tree, state: seq<nat>) returns (id: nat)
    requires t.Valid() && |state| == t.h
    ensures id == Numeral(t.k, state)
    ensures ValidWindow(t, state) ==> id < t.Nodes() && IdToState(t, id) == state
  {
    id := 0;
    for i := 0 to t.h
      invariant id + Numeral(t.k, state[i..]) == Numeral(t.k, state)
    {
      assert state[i..][1..] == state[i + 1..];
      id := id + state[i] * t.Weight(i);
    }
    assert state[t.h..] == [];
    if ValidWindow(t, state) {
      DecodeNumeral(t, state, 0);
    }
  }

  /** state_to_id is a bijection from valid windows onto [0, N), with
      id_to_state as its inverse in both directions. */
  lemma WindowBijection(t: Tree)
    requires t.Valid()
    ensures forall d :: ValidWindow(t, d) ==> Numeral(t.k, d) < t.Nodes() && IdToState(t, Numeral(t.k, d)) == d
    ensures forall d1, d2 :: ValidWindow(t, d1) && ValidWindow(t, d2) && Numeral(t.k, d1) == Numeral(t.k, d2) ==> d1 == d2
    ensures forall id :: 0 <= id < t.Nodes() ==> ValidWindow(t, IdToState(t, id)) && Numeral(t.k, IdToState(t, id)) == id
  {
    forall d | ValidWindow(t, d)
      ensures Numeral(t.k, d) < t.Nodes() && IdToState(t, Numeral(t.k, d)) == d
    {
      DecodeNumeral(t, d, 0);
    }
  }
}
