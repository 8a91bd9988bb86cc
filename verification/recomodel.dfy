/** The recommender MEMDP: a loaded model and the queries a planner asks of
    it — transition probability, expected reward, observation probability,
    a sampled step, terminal states. */
module Recomodel {
  import opened Arith
  import opened HistoryIndex
  import opened Navigation
  import opened States
  import opened Table
  import opened Loader

  datatype Model = Model(summary: Summary, mdp: bool, rewards: seq<real>, table: seq<real>)
  {
    predicate Valid()
    {
      summary.Valid() && |rewards| == summary.actions && |table| == TableSize(summary, mdp)
    }

    function TreeOf(): Tree
    {
      summary.TreeOf()
    }

    /** n_states: one copy of the tree per environment, a single one in MDP
        mode. */
    function States(): nat
    {
      Profiles(summary, mdp) * summary.nodes
    }
  }

  /** Builds a model from the summary numbers and the two files. */
  function LoadModel(n: nat, k: nat, e: nat, h: nat, mdp: bool, rewardLines: seq<RewardLine>, lines: seq<Line>)
    : (r: Result<Model>)
    ensures r.Ok? <==>
      && CheckSummary(n, k, e, h).Ok?
      && LoadRewards(k, rewardLines).Ok?
      && LoadTransitions(CheckSummary(n, k, e, h).value, mdp, lines).Ok?
    ensures r.Ok? ==> r.value.Valid() && r.value.summary == Summary(n, k, e, h) && r.value.mdp == mdp
    ensures r.Ok? ==> r.value.rewards == LoadRewards(k, rewardLines).value
    ensures r.Ok? ==> r.value.table == LoadTransitions(r.value.summary, mdp, lines).value
  {
    match CheckSummary(n, k, e, h)
    case Err(err) => Err(err)
    case Ok(sm) =>
      match LoadRewards(k, rewardLines)
      case Err(err) => Err(err)
      case Ok(rewards) =>
        match LoadTransitions(sm, mdp, lines)
        case Err(err) => Err(err)
        case Ok(table) => Ok(Model(sm, mdp, rewards, table))
  }

  /** A state of the model lies in an existing environment; in MDP mode it is
      a node of environment 0. */
  lemma StateRange(m: Model, s: nat)
    requires m.Valid() && s < m.States()
    ensures Env(m.TreeOf(), s) < Profiles(m.summary, m.mdp)
    ensures m.mdp ==> Env(m.TreeOf(), s) == 0 && Rep(m.TreeOf(), s) == s
  {
    var t := m.TreeOf();
    NodesPositive(t);
    StateParts(t, s);
    if m.mdp {
      DivModUnique(s, t.Nodes(), 0, s);
    } else if Env(t, s) >= m.summary.envs {
      MulMonotone(m.summary.envs, Env(t, s), t.Nodes());
    }
  }

  /** The cell holding the probability of link l for action a in state s. */
  function CellOf(m: Model, s: nat, a: nat, l: nat): (j: nat)
    requires m.Valid() && s < m.States() && a < m.summary.actions && l < m.summary.actions
    ensures j < |m.table|
  {
    var t := m.TreeOf();
    StateRange(m, s);
    var env := if m.mdp then 0 else Env(t, s);
    IndexBounds(m.summary.nodes, m.summary.actions, Profiles(m.summary, m.mdp), env, Rep(t, s), a, l);
    Index(m.summary.nodes, m.summary.actions, env, Rep(t, s), a, l)
  }

  /** The row of transition weights for action a in state s. */
  function RowOf(m: Model, s: nat, a: nat): (q: nat)
    requires m.Valid() && s < m.States() && a < m.summary.actions
    ensures q < RowCount(m.summary, m.mdp)
    ensures forall l :: 0 <= l < m.summary.actions ==> CellOf(m, s, a, l) == q * m.summary.actions + l
  {
    var t := m.TreeOf();
    StateRange(m, s);
    var env := if m.mdp then 0 else Env(t, s);
    IndexBounds(m.summary.nodes, m.summary.actions, Profiles(m.summary, m.mdp), env, Rep(t, s), a, 0);
    forall l | 0 <= l < m.summary.actions
      ensures CellOf(m, s, a, l) == RowIndex(m.summary.nodes, m.summary.actions, env, Rep(t, s), a) * m.summary.actions + l
    {
      IndexBounds(m.summary.nodes, m.summary.actions, Profiles(m.summary, m.mdp), env, Rep(t, s), a, l);
    }
    RowIndex(m.summary.nodes, m.summary.actions, env, Rep(t, s), a)
  }

  /** getTransitionProbability: the weight of the link leading from s1 to s2,
      0 when s2 is not a child of s1. */
  function TransitionProbability(m: Model, s1: nat, a: nat, s2: nat): (p: real)
    requires m.Valid() && s1 < m.States() && a < m.summary.actions
    ensures forall l :: 0 <= l < m.summary.actions && Child(m.TreeOf(), s1, l) == s2 ==> p == m.table[CellOf(m, s1, a, l)]
    ensures (forall l :: 0 <= l < m.summary.actions ==> Child(m.TreeOf(), s1, l) != s2) ==> p == 0.0
  {
    var link := IsConnected(m.TreeOf(), s1, s2);
    if link >= m.summary.actions then
      0.0
    else
      m.table[CellOf(m, s1, a, link)]
  }

  /** getExpectedReward: the item's reward when s2 is reached by accepting
      the recommended item a, and 0 otherwise. */
  function ExpectedReward(m: Model, s1: nat, a: nat, s2: nat): (r: real)
    requires m.Valid() && s1 < m.States() && a < m.summary.actions
    ensures r == (if Child(m.TreeOf(), s1, a) == s2 then m.rewards[a] else 0.0)
  {
    var link := IsConnected(m.TreeOf(), s1, s2);
    if link != a then 0.0 else m.rewards[link]
  }

  /** getObservationProbability: the observation is the state's node, with
      certainty. */
  function ObservationProbability(m: Model, s1: nat, a: nat, o: nat): (p: real)
    requires m.Valid()
    ensures p == 1.0 <==> o == Rep(m.TreeOf(), s1)
    ensures p == 0.0 || p == 1.0
  {
    if Rep(m.TreeOf(), s1) == o then 1.0 else 0.0
  }

  /** isTerminal: no state ends an episode. */
  function IsTerminal(m: Model, s: nat): (r: bool)
    ensures !r
  {
    false
  }

  /** sampleSR for the drawn link: the reached state and its reward. */
  function SampleSR(m: Model, s: nat, a: nat, link: nat): (r: (nat, real))
    requires m.Valid() && s < m.States() && a < m.summary.actions && link < m.summary.actions
    ensures Env(m.TreeOf(), r.0) == Env(m.TreeOf(), s) && r.0 < m.States()
    ensures IsConnected(m.TreeOf(), s, r.0) == link
    ensures TransitionProbability(m, s, a, r.0) == m.table[CellOf(m, s, a, link)]
    ensures r.1 == ExpectedReward(m, s, a, r.0)
  {
    var t := m.TreeOf();
    var s2 := Child(t, s, link);
    ChildInState(m, s, link);
    (s2, if a == link then m.rewards[link] else 0.0)
  }

  /** sampleSOR for the drawn link: the reached state, its observation and
      its reward. */
  function SampleSOR(m: Model, s: nat, a: nat, link: nat): (r: (nat, nat, real))
    requires m.Valid() && s < m.States() && a < m.summary.actions && link < m.summary.actions
    ensures Env(m.TreeOf(), r.0) == Env(m.TreeOf(), s) && r.0 < m.States()
    ensures IsConnected(m.TreeOf(), s, r.0) == link
    ensures TransitionProbability(m, s, a, r.0) == m.table[CellOf(m, s, a, link)]
    ensures r.1 == Rep(m.TreeOf(), r.0) && ObservationProbability(m, r.0, a, r.1) == 1.0
    ensures r.2 == ExpectedReward(m, s, a, r.0)
  {
    var t := m.TreeOf();
    var o2 := NextState(t, Rep(t, s), link);
    var s2 := StateOf(t, Env(t, s), o2);
    ChildInState(m, s, link);
    (s2, o2, if a == link then m.rewards[link] else 0.0)
  }

  /** A child of a state is a state of the model. */
  lemma ChildInState(m: Model, s: nat, i: nat)
    requires m.Valid() && s < m.States() && i < m.summary.actions
    ensures Child(m.TreeOf(), s, i) < m.States()
  {
    var t := m.TreeOf();
    var c := Child(t, s, i);
    StateRange(m, s);
    StateParts(t, c);
    var e := Env(t, c);
    MulMonotone(e, Profiles(m.summary, m.mdp) - 1, t.Nodes());
    assert (Profiles(m.summary, m.mdp) - 1) * t.Nodes() + t.Nodes() == Profiles(m.summary, m.mdp) * t.Nodes();
  }

  /** The children of a state are K consecutive state ids. */
  lemma ChildrenContiguous(t: Tree, s: nat, l: nat)
    requires t.Valid() && l < t.k
    ensures Child(t, s, l) == Child(t, s, 0) + l
  {
  }

  /** getTransitionProbability from s1 under a, for every state of the
      model in increasing order. */
  function TransitionProbabilities(m: Model, s1: nat, a: nat): (p: seq<real>)
    requires m.Valid() && s1 < m.States() && a < m.summary.actions
    ensures |p| == m.States()
    ensures forall s2 :: 0 <= s2 < m.States() ==> p[s2] == TransitionProbability(m, s1, a, s2)
  {
    seq(m.States(), s2 requires 0 <= s2 => TransitionProbability(m, s1, a, s2))
  }

  /** The transition weights of state s1 under action a, one per link. */
  function Distribution(m: Model, s1: nat, a: nat): (row: seq<real>)
    requires m.Valid() && s1 < m.States() && a < m.summary.actions
    ensures |row| == m.summary.actions
    ensures forall l :: 0 <= l < m.summary.actions ==> row[l] == m.table[CellOf(m, s1, a, l)]
  {
    seq(m.summary.actions, l requires 0 <= l < m.summary.actions => m.table[CellOf(m, s1, a, l)])
  }

  /** The weights of a state and action are one row of the table. */
  lemma DistributionIsRow(m: Model, s1: nat, a: nat)
    requires m.Valid() && s1 < m.States() && a < m.summary.actions
    ensures var q, k := RowOf(m, s1, a), m.summary.actions;
      q * k + k <= |m.table| && Distribution(m, s1, a) == Row(m.table, q, k)
  {
    var q, k := RowOf(m, s1, a), m.summary.actions;
    RowsApart(q, RowCount(m.summary, m.mdp), k);
    var d, row := Distribution(m, s1, a), Row(m.table, q, k);
    forall l | 0 <= l < k
      ensures d[l] == row[l]
    {
      assert row[l] == m.table[q * k + l];
    }
  }

  /** A state outside the K consecutive children of s1 has probability 0. */
  lemma ProbabilityOutside(m: Model, s1: nat, a: nat, x: nat)
    requires m.Valid() && s1 < m.States() && a < m.summary.actions
    ensures x < Child(m.TreeOf(), s1, 0) || Child(m.TreeOf(), s1, 0) + m.summary.actions <= x ==>
      TransitionProbability(m, s1, a, x) == 0.0
  {
    forall l | 0 <= l < m.summary.actions
      ensures Child(m.TreeOf(), s1, l) == Child(m.TreeOf(), s1, 0) + l
    {
      ChildrenContiguous(m.TreeOf(), s1, l);
    }
  }

  /** The l-th child of s1 has the weight of link l. */
  lemma ProbabilityAt(m: Model, s1: nat, a: nat, l: nat)
    requires m.Valid() && s1 < m.States() && a < m.summary.actions && l < m.summary.actions
    ensures TransitionProbability(m, s1, a, Child(m.TreeOf(), s1, 0) + l) == m.table[CellOf(m, s1, a, l)]
  {
    ChildrenContiguous(m.TreeOf(), s1, l);
  }

  /** The K children of s1 are states of the model. */
  lemma ChildrenFit(m: Model, s1: nat)
    requires m.Valid() && s1 < m.States()
    ensures Child(m.TreeOf(), s1, 0) + m.summary.actions <= m.States()
  {
    ChildInState(m, s1, m.summary.actions - 1);
    ChildrenContiguous(m.TreeOf(), s1, m.summary.actions - 1);
  }

  /** Only the K consecutive children of s1 can have a positive
      probability, and child l has the weight of link l. */
  lemma ProbabilitiesWindow(m: Model, s1: nat, a: nat)
    requires m.Valid() && s1 < m.States() && a < m.summary.actions
    ensures var c0, p, row := Child(m.TreeOf(), s1, 0), TransitionProbabilities(m, s1, a), Distribution(m, s1, a);
      && c0 + |row| <= |p|
      && (forall x :: 0 <= x < |p| && (x < c0 || c0 + |row| <= x) ==> p[x] == 0.0)
      && (forall l :: 0 <= l < |row| ==> p[c0 + l] == row[l])
  {
    var k := m.summary.actions;
    var c0, p, row := Child(m.TreeOf(), s1, 0), TransitionProbabilities(m, s1, a), Distribution(m, s1, a);
    ChildrenFit(m, s1);
    forall x | 0 <= x < |p| && (x < c0 || c0 + k <= x)
      ensures p[x] == 0.0
    {
      ProbabilityOutside(m, s1, a, x);
    }
    forall l | 0 <= l < k
      ensures p[c0 + l] == row[l]
    {
      ProbabilityAt(m, s1, a, l);
    }
  }

  /** getTransitionProbability summed over every state of the model is the
      sum of the (state, action) row of the table. */
  lemma TransitionRowSum(m: Model, s1: nat, a: nat)
    requires m.Valid() && s1 < m.States() && a < m.summary.actions
    ensures var q, k := RowOf(m, s1, a), m.summary.actions;
      q * k + k <= |m.table| && Sum(TransitionProbabilities(m, s1, a)) == Sum(Row(m.table, q, k))
  {
    ProbabilitiesWindow(m, s1, a);
    SumOfWindow(TransitionProbabilities(m, s1, a), Child(m.TreeOf(), s1, 0), Distribution(m, s1, a));
    DistributionIsRow(m, s1, a);
  }

  /** Observation probabilities of s1, summed over the observations below
      hi. */
  function ObservationMass(m: Model, s1: nat, a: nat, hi: nat): real
    requires m.Valid()
  {
    if hi == 0 then 0.0 else ObservationMass(m, s1, a, hi - 1) + ObservationProbability(m, s1, a, hi - 1)
  }

  lemma {:induction false} ObservationMassPrefix(m: Model, s1: nat, a: nat, hi: nat)
    requires m.Valid()
    ensures ObservationMass(m, s1, a, hi) == if Rep(m.TreeOf(), s1) < hi then 1.0 else 0.0
  {
    if hi > 0 {
      ObservationMassPrefix(m, s1, a, hi - 1);
    }
  }

  /** getObservationProbability is a distribution over the N observations. */
  lemma ObservationSumsToOne(m: Model, s1: nat, a: nat)
    requires m.Valid()
    ensures ObservationMass(m, s1, a, m.summary.nodes) == 1.0
  {
    ObservationMassPrefix(m, s1, a, m.summary.nodes);
  }

  /** In a model whose table was loaded from non-negative weights, the
      transition probabilities out of a state under an action are
      non-negative and sum to 1 over the states, unless no weight reached
      that state and action. */
  lemma LoadedTransitionsAreDistributions(m: Model, lines: seq<Line>, s1: nat, a: nat)
    requires m.Valid() && s1 < m.States() && a < m.summary.actions
    requires NonNegativeRecords(lines)
    ensures LoadTransitions(m.summary, m.mdp, lines) == Ok(m.table) ==>
      && (Sum(RawRow(m.summary, m.mdp, lines, RowOf(m, s1, a))) != 0.0 ==> Sum(TransitionProbabilities(m, s1, a)) == 1.0)
      && forall s2 :: 0 <= s2 < m.States() ==> TransitionProbability(m, s1, a, s2) >= 0.0
  {
    if LoadTransitions(m.summary, m.mdp, lines) == Ok(m.table) {
      var k, q := m.summary.actions, RowOf(m, s1, a);
      LoadedRowsStochastic(m.summary, m.mdp, lines, q);
      TransitionRowSum(m, s1, a);
      DistributionIsRow(m, s1, a);
      forall s2 | 0 <= s2 < m.States()
        ensures TransitionProbability(m, s1, a, s2) >= 0.0
      {
        var l := IsConnected(m.TreeOf(), s1, s2);
        if l < k {
          assert Distribution(m, s1, a)[l] == m.table[CellOf(m, s1, a, l)];
        }
      }
    }
  }
}
