/** MEMDP states: a state id is env * N + node, where N is the number of tree
    nodes.  get_env and get_rep recover the two parts; is_connected works on
    state ids and never links two environments. */
module States {
  import opened Arith
  import opened HistoryIndex
  import opened Navigation

  lemma NodesPositive(t: Tree)
    requires t.Valid()
    ensures t.Nodes() >= 1
  {
    Dims(t);
  }

  /** get_env: the environment a state belongs to. */
  function Env(t: Tree, s: nat): nat
    requires t.Valid()
  {
    NodesPositive(t);
    s / t.Nodes()
  }

  /** get_rep: the tree node (observation) of a state. */
  function Rep(t: Tree, s: nat): (r: nat)
    requires t.Valid()
    ensures r < t.Nodes()
  {
    NodesPositive(t);
    s % t.Nodes()
  }

  /** The state id of node x in environment e. */
  function StateOf(t: Tree, e: nat, x: nat): (s: nat)
    requires t.Valid() && x < t.Nodes()
    ensures Env(t, s) == e && Rep(t, s) == x
  {
    NodesPositive(t);
    DivModUnique(e * t.Nodes() + x, t.Nodes(), e, x);
    e * t.Nodes() + x
  }

  /** A state is determined by its environment and its node. */
  lemma StateParts(t: Tree, s: nat)
    requires t.Valid()
    ensures s == StateOf(t, Env(t, s), Rep(t, s))
  {
    NodesPositive(t);
    DivModNat(s, t.Nodes());
  }

  /** The state reached from s when item i is accepted: same environment,
      next node. */
  function Child(t: Tree, s: nat, i: nat): (c: nat)
    requires t.Valid() && i < t.k
    ensures Env(t, c) == Env(t, s) && Rep(t, c) == NextState(t, Rep(t, s), i)
  {
    StateOf(t, Env(t, s), NextState(t, Rep(t, s), i))
  }

  /** is_connected on state ids: k across environments, otherwise the label
      of the edge between the two nodes, or k when there is none. */
  function IsConnected(t: Tree, s1: nat, s2: nat): (l: nat)
    requires t.Valid()
    ensures l <= t.k
    ensures Env(t, s1) != Env(t, s2) ==> l == t.k
    ensures l < t.k ==> Child(t, s1, l) == s2
    ensures l == t.k <==> forall i :: 0 <= i < t.k ==> Child(t, s1, i) != s2
  {
    if Env(t, s1) != Env(t, s2) then
      t.k
    else
      StateParts(t, s2);
      Link(t, Rep(t, s1), Rep(t, s2))
  }
}
