/** Tree navigation over node ids: the child reached by appending an item
    (sliding the window once it is full), the edge label between two nodes,
    and the candidate parents of a node.  Everything is integer arithmetic on
    the weights P = pows[0] = k^(h-1) and A = acpows[1] = 1 + k + ... + k^(h-2). */
module Navigation {
  import opened Arith
  import opened HistoryIndex

  /** The shape of the weights of a valid tree, as linear facts over plain
      integers: P = pows[0], A = acpows[1], and the node count. */
  predicate Dim(k: int, P: int, A: int)
  {
    k >= 2 && 1 <= P && 0 <= A < P && k * A == P + A - 1
  }

  lemma Dims(t: Tree)
    requires t.Valid()
    ensures Dim(t.k, t.Weight(0), t.AccWeight(1))
    ensures t.Nodes() == t.k * t.Weight(0) + t.Weight(0) + t.AccWeight(1)
  {
    var P, A, k := t.Weight(0), t.AccWeight(1), t.k;
    Shape(t);
    assert k * A == P + A - 1 by {
      assert P == (k - 1) * A + 1;
    }
    assert k * (P + A) == k * P + k * A;
  }

  /** Dropping the oldest digit of a node id, given the weights: the suffix
      that next_state multiplies by K, which is `aux` = s % pows[0] on one
      branch and pows[0] + aux on the other.  is_connected computes the same
      value less acpows[1]. */
  function Slide(P: nat, A: nat, s: nat): (r: nat)
    requires P > 0
    ensures r < P + A
  {
    var aux := s % P;
    if aux >= A || s < P then aux else P + aux
  }

  /** The id of the window of s without its oldest digit. */
  function Suffix(t: Tree, s: nat): (r: nat)
    requires t.Valid()
    ensures r < t.Weight(0) + t.AccWeight(1)
  {
    Slide(t.Weight(0), t.AccWeight(1), s)
  }

  lemma ChildArith(k: int, P: int, A: int, aux: int, item: int)
    requires Dim(k, P, A) && 0 <= aux < P + A && 0 <= item < k
    ensures aux * k + item + 1 < k * P + P + A
    ensures (aux * k + item) / k == aux && (aux * k + item) % k == item
  {
    MulMonotone(aux, P + A - 1, k);
    assert (P + A - 1) * k == k * P + k * A - k;
    DivModUnique(aux * k + item, k, aux, item);
  }

  /** next_state: the node reached from s when item is accepted. */
  function NextState(t: Tree, s: nat, item: nat): (r: nat)
    requires t.Valid() && s < t.Nodes() && item < t.k
    ensures 0 < r < t.Nodes()
    ensures (r - 1) / t.k == Suffix(t, s) && (r - 1) % t.k == item
  {
    var aux := Suffix(t, s);
    Dims(t);
    ChildArith(t.k, t.Weight(0), t.AccWeight(1), aux, item);
    aux * t.k + item + 1
  }

  /** Quotient and remainder of x - 1 from those of x: the
      `rem == 0` fix-up of previous_states and is_connected. */
  lemma PrefixFixup(k: nat, x: nat)
    requires k >= 1
    ensures (if x % k == 0 then x / k - 1 else x / k) == (x - 1) / k
    ensures (if x % k == 0 then k - 1 else x % k - 1) == (x - 1) % k
  {
    var q, rem := x / k, x % k;
    DivModNat(x, k);
    if rem == 0 {
      assert x - 1 == (q - 1) * k + (k - 1);
      DivModUnique(x - 1, k, q - 1, k - 1);
    } else {
      DivModUnique(x - 1, k, q, rem - 1);
    }
  }

  /** Two nodes whose ids have the same quotient and remainder are one node. */
  lemma SameChild(k: nat, x: int, y: int)
    requires k >= 1 && x / k == y / k && x % k == y % k
    ensures x == y
  {
  }

  /** is_connected on node ids: the label of the edge from s1 to s2, or k
      when s2 is not a child of s1. */
  function Link(t: Tree, s1: nat, s2: nat): (l: nat)
    requires t.Valid() && s1 < t.Nodes()
    ensures l <= t.k
    ensures l < t.k ==> NextState(t, s1, l) == s2
    ensures l == t.k <==> forall i :: 0 <= i < t.k ==> NextState(t, s1, i) != s2
  {
    var a := t.AccWeight(1);
    var suffix: int := Suffix(t, s1) - a;
    var q, rem := s2 / t.k, s2 % t.k;
    var prefix: int := if rem == 0 then q - a - 1 else q - a;
    var last: nat := if rem == 0 then t.k - 1 else rem - 1;
    PrefixFixup(t.k, s2);
    if prefix == suffix then
      SameChild(t.k, NextState(t, s1, last) - 1, s2 - 1);
      last
    else
      t.k
  }

  /** Node p is a parent of node s: some item leads from p to s. */
  predicate IsParent(t: Tree, p: nat, s: nat)
    requires t.Valid()
  {
    p < t.Nodes() && exists i :: 0 <= i < t.k && NextState(t, p, i) == s
  }

  /** The a-th parent candidate of a node whose parents share the suffix R:
      the window R with leading digit a, which is the shorter window R itself
      for a = 0 and a full window for a > 0. */
  function Candidate(t: Tree, R: nat, a: nat): nat
    requires t.Valid()
  {
    R + a * t.Weight(0)
  }

  lemma SlideSplit(k: int, P: nat, A: nat, x: int, R: int)
    requires Dim(k, P, A) && 0 <= x <= k && 0 <= R < P + A
    requires x > 0 ==> R >= A
    ensures 0 <= x * P + R < k * P + P + A
    ensures Slide(P, A, x * P + R) == R
  {
    var s := x * P + R;
    MulMonotone(0, x, P);
    MulMonotone(x, k, P);
    if R < P {
      DivModUnique(s, P, x, R);
    } else {
      assert s == (x + 1) * P + (R - P);
      DivModUnique(s, P, x + 1, R - P);
    }
  }

  lemma SlidePreimage(k: int, P: nat, A: nat, p: nat) returns (a: nat)
    requires Dim(k, P, A) && p < k * P + P + A
    ensures Slide(P, A, p) < A ==> p == Slide(P, A, p)
    ensures Slide(P, A, p) >= A ==> a <= k && p == Slide(P, A, p) + a * P
  {
    var q, aux := p / P, p % P;
    DivModNat(p, P);
    if aux >= A || p < P {
      a := q;
      if q > 0 && p < P {
        MulMonotone(1, q, P);
      }
      if q > k {
        MulMonotone(k + 1, q, P);
      }
    } else {
      a := q - 1;
      assert p == (q - 1) * P + (P + aux);
      if q - 1 > k {
        MulMonotone(k + 1, q - 1, P);
      }
    }
  }

  /** Prefixing a leading digit x to the window with id R (full when x > 0)
      gives a node whose suffix is R. */
  lemma SuffixOfSplit(t: Tree, x: nat, R: nat)
    requires t.Valid() && x <= t.k && R < t.Weight(0) + t.AccWeight(1)
    requires x > 0 ==> R >= t.AccWeight(1)
    ensures x * t.Weight(0) + R < t.Nodes()
    ensures Suffix(t, x * t.Weight(0) + R) == R
  {
    Dims(t);
    SlideSplit(t.k, t.Weight(0), t.AccWeight(1), x, R);
  }

  /** Every node is one of the nodes that SuffixOfSplit builds. */
  lemma SuffixPreimage(t: Tree, p: nat) returns (a: nat)
    requires t.Valid() && p < t.Nodes()
    ensures Suffix(t, p) < t.AccWeight(1) ==> p == Suffix(t, p)
    ensures Suffix(t, p) >= t.AccWeight(1) ==> a <= t.k && p == Candidate(t, Suffix(t, p), a)
  {
    Dims(t);
    a := SlidePreimage(t.k, t.Weight(0), t.AccWeight(1), p);
  }

  /** The K+1 parent candidates of nodes whose suffix is R: the shorter
      window R and the K full windows that extend it. */
  function Candidates(t: Tree, R: nat): (c: seq<nat>)
    requires t.Valid()
    ensures |c| == t.k + 1
    ensures forall a :: 0 <= a <= t.k ==> c[a] == Candidate(t, R, a)
  {
    seq(t.k + 1, a requires 0 <= a => Candidate(t, R, a))
  }

  lemma CandidatesMembers(t: Tree, R: nat)
    requires t.Valid()
    ensures forall p :: p in Candidates(t, R) <==> exists a :: 0 <= a <= t.k && p == Candidate(t, R, a)
  {
    var c := Candidates(t, R);
    forall p | (exists a :: 0 <= a <= t.k && p == Candidate(t, R, a))
      ensures p in c
    {
      var a :| 0 <= a <= t.k && p == Candidate(t, R, a);
      assert c[a] == p;
    }
  }

  lemma ParentRange(k: int, P: int, A: int, s: int)
    requires Dim(k, P, A) && 0 < s < k * P + P + A
    ensures 0 <= (s - 1) / k < P + A
  {
    DivModNat(s - 1, k);
    assert (P + A) * k == k * P + k * A;
    if (s - 1) / k >= P + A {
      MulMonotone(P + A, (s - 1) / k, k);
    }
  }

  /** The parents of a non-root node s are exactly the nodes whose suffix is
      the id of s without its newest digit. */
  lemma ParentsBySuffix(t: Tree, s: nat)
    requires t.Valid() && 0 < s < t.Nodes()
    ensures 0 <= (s - 1) / t.k < t.Weight(0) + t.AccWeight(1)
    ensures forall p: nat :: IsParent(t, p, s) <==> p < t.Nodes() && Suffix(t, p) == (s - 1) / t.k
  {
    var k := t.k;
    Dims(t);
    ParentRange(k, t.Weight(0), t.AccWeight(1), s);
    forall p: nat | p < t.Nodes() && Suffix(t, p) == (s - 1) / k
      ensures IsParent(t, p, s)
    {
      var i := (s - 1) % k;
      SameChild(k, NextState(t, p, i) - 1, s - 1);
    }
  }

  /** previous_states: every node from which one item leads to s. */
  function PreviousStates(t: Tree, s: nat): (r: seq<nat>)
    requires t.Valid() && s < t.Nodes()
    ensures forall p :: p in r <==> IsParent(t, p, s)
    ensures s == 0 ==> |r| == 0
    ensures s > 0 && (s - 1) / t.k < t.AccWeight(1) ==> |r| == 1
    ensures s > 0 && (s - 1) / t.k >= t.AccWeight(1) ==> |r| == t.k + 1
    ensures forall i, j :: 0 <= i < j < |r| ==> r[i] != r[j]
  {
    var q, rem := s / t.k, s % t.k;
    var prefix: int := if rem == 0 then q - 1 else q;
    PrefixFixup(t.k, s);
    if s == 0 then
      []
    else
      ParentsBySuffix(t, s);
      if prefix < t.AccWeight(1) then
        ParentsSingle(t, prefix);
        [prefix]
      else
        ParentsFull(t, prefix);
        Candidates(t, prefix)
  }

  /** A suffix below A (a window that is not full once its oldest digit is
      dropped) has a single node with that suffix: itself. */
  lemma ParentsSingle(t: Tree, R: nat)
    requires t.Valid() && R < t.AccWeight(1)
    ensures forall p: nat :: p < t.Nodes() && Suffix(t, p) == R <==> p == R
  {
    Shape(t);
    SuffixOfSplit(t, 0, R);
    forall p: nat | p < t.Nodes() && Suffix(t, p) == R
      ensures p == R
    {
      var _ := SuffixPreimage(t, p);
    }
  }

  /** A suffix of at least A is shared by the K+1 candidates and nothing else;
      the candidates are pairwise distinct. */
  lemma ParentsFull(t: Tree, R: nat)
    requires t.Valid() && t.AccWeight(1) <= R < t.Weight(0) + t.AccWeight(1)
    ensures forall p: nat :: p < t.Nodes() && Suffix(t, p) == R <==> p in Candidates(t, R)
    ensures forall i, j :: 0 <= i < j < |Candidates(t, R)| ==> Candidates(t, R)[i] != Candidates(t, R)[j]
  {
    var c := Candidates(t, R);
    CandidatesMembers(t, R);
    forall p: nat | p < t.Nodes() && Suffix(t, p) == R
      ensures p in c
    {
      var a := SuffixPreimage(t, p);
      assert c[a] == p;
    }
    forall a | 0 <= a <= t.k
      ensures c[a] < t.Nodes() && Suffix(t, c[a]) == R
    {
      SuffixOfSplit(t, a, R);
    }
    forall i, j | 0 <= i < j < |c|
      ensures c[i] != c[j]
    {
      MulMonotone(i + 1, j, t.Weight(0));
    }
  }

  /** The suffix of a node is the id of its window without the oldest digit. */
  lemma SuffixIsTail(t: Tree, s: nat)
    requires t.Valid() && s < t.Nodes()
    ensures Suffix(t, s) == Numeral(t.k, IdToState(t, s)[1..])
  {
    var d := IdToState(t, s);
    var rest := d[1..];
    var P, A := t.Weight(0), t.AccWeight(1);
    assert WellPadded(t.k, rest);
    NumeralBounds(t.k, rest);
    Layer(t.k, t.h);
    if d[0] > 0 && t.h > 1 {
      assert rest[0] == d[1];
    }
    assert s == d[0] * P + Numeral(t.k, rest);
    SuffixOfSplit(t, d[0], Numeral(t.k, rest));
  }

  /** next_state appends digit item + 1 to the window, dropping the oldest
      digit (a padding zero unless the window is full). */
  lemma NextStateAppends(t: Tree, s: nat, item: nat)
    requires t.Valid() && s < t.Nodes() && item < t.k
    ensures IdToState(t, NextState(t, s, item)) == IdToState(t, s)[1..] + [item + 1]
  {
    var d := IdToState(t, s);
    var w := d[1..] + [item + 1];
    SuffixIsTail(t, s);
    NumeralSnoc(t.k, d[1..], item + 1);
    var r := NextState(t, s, item);
    SameChild(t.k, r - 1, Numeral(t.k, d[1..]) * t.k + item);
    forall i, j | 0 <= i < j < |w| && w[i] > 0
      ensures w[j] > 0
    {
      if j < |w| - 1 {
        assert w[i] == d[i + 1] && w[j] == d[j + 1];
      }
    }
    assert ValidWindow(t, w);
    WindowBijection(t);
  }
}
