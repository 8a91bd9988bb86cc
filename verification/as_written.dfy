/** Three faulty checks of recomodel.cpp as they are written, with the rest
    of each function as intended, each beside the corrected member the rest
    of the model uses and an input on which the two differ. */
module AsWritten {
  import opened Arith
  import opened HistoryIndex
  import opened Loader

  /** id_to_state as written, from position indx on: when the remainder is
      below acpows[indx + 1] the digit is taken as quot - 1 even when quot is
      0.  Digits are signed so that the wrapped value shows; the model stops
      where id_to_state would read acpows[H]. */
  function IdToStateAsWritten(t: Tree, id: int, indx: nat): (d: seq<int>)
    requires t.Valid() && indx < t.h
    ensures |d| == t.h - indx
    decreases t.h - indx
  {
    if id <= t.k then
      seq(t.h - 1 - indx, _ => 0) + [id]
    else if indx + 1 == t.h then
      [id]
    else
      var p := t.Weight(indx);
      var quot, rem := id / p, id % p;
      if rem < t.AccWeight(indx + 1) then
        [quot - 1] + IdToStateAsWritten(t, p + rem, indx + 1)
      else
        [quot] + IdToStateAsWritten(t, rem, indx + 1)
  }

  /** The weights of the tree of windows of 2 items and length 4. */
  lemma SmallTree()
    ensures var t := Tree(2, 4);
      && t.Weight(0) == 8 && t.Weight(1) == 4 && t.Weight(2) == 2
      && t.AccWeight(1) == 7 && t.AccWeight(2) == 3 && t.AccWeight(3) == 1
      && t.Nodes() == 31
  {
    assert Pow(2, 1) == 2 && Pow(2, 2) == 4 && Pow(2, 3) == 8;
    assert Geo(2, 1) == 1 && Geo(2, 2) == 3 && Geo(2, 3) == 7 && Geo(2, 4) == 15;
  }

  lemma AsWrittenOnFive()
    ensures IdToStateAsWritten(Tree(2, 4), 5, 0) == [-1, 2, 2, 1]
  {
    var t := Tree(2, 4);
    SmallTree();
    assert IdToStateAsWritten(t, 1, 3) == [1];
    assert IdToStateAsWritten(t, 5, 2) == [2] + IdToStateAsWritten(t, 1, 3);
    assert IdToStateAsWritten(t, 13, 1) == [2] + IdToStateAsWritten(t, 5, 2);
    assert IdToStateAsWritten(t, 5, 0) == [-1] + IdToStateAsWritten(t, 13, 1);
  }

  lemma DecodedFive()
    ensures 5 < Tree(2, 4).Nodes()
    ensures IdToState(Tree(2, 4), 5) == [0, 0, 2, 1]
  {
    var t := Tree(2, 4);
    SmallTree();
    var w: seq<nat> := [0, 0, 2, 1];
    assert ValidWindow(t, w);
    assert Numeral(2, w) == 5 by {
      assert Numeral(2, w[3..]) == 1;
      assert Numeral(2, w[2..]) == 5;
      assert Numeral(2, w[1..]) == 5;
    }
    WindowBijection(t);
  }

  /** With K = 2 and H = 4, node 5 is the window [0, 0, 2, 1]; the loop as
      written gives a leading digit of -1 (a wrapped size_t) instead. */
  lemma IdToStateCounterexample()
    ensures 5 < Tree(2, 4).Nodes()
    ensures IdToStateAsWritten(Tree(2, 4), 5, 0) == [-1, 2, 2, 1]
    ensures IdToState(Tree(2, 4), 5) == [0, 0, 2, 1]
  {
    AsWrittenOnFive();
    DecodedFive();
  }

  /** load_rewards with the guard as written accepts a file when it holds
      exactly K entries parsed as `a v`, each with a <= K; an entry with a = 0 then writes
      rewards[a - 1], before the start of the table. */
  predicate AcceptsRewardsAsWritten(k: nat, lines: seq<RewardLine>)
  {
    var p := ParsedRewards(lines);
    |p| == k && forall i :: 0 <= i < |p| ==> p[i].item <= k
  }

  /** A one-item rewards file naming item 0 passes the guard as written, and
      the corrected guard rejects it. */
  lemma RewardGuardCounterexample()
    ensures AcceptsRewardsAsWritten(1, [RewardEntry(0, 1.0)])
    ensures LoadRewards(1, [RewardEntry(0, 1.0)]) == Err(RewardOutOfRange)
  {
    var lines := [RewardEntry(0, 1.0)];
    assert ParsedRewards(lines[1..]) == [];
    assert ParsedRewards(lines) == lines;
  }

  /** The summary check as written: the condition handed to assert is a
      comma expression whose value is the message string, so no summary is
      ever refused. */
  predicate SummaryCheckAsWritten(n: nat, k: nat, e: nat, h: nat)
  {
    var message := "number of observations and actions do not match";
    |message| > 0
  }

  /** N = 5 observations for K = 2 items and windows of length 2 passes the
      check as written, although the tree of such windows has 7 nodes. */
  lemma SummaryCheckCounterexample()
    ensures SummaryCheckAsWritten(5, 2, 1, 2)
    ensures Tree(2, 2).Nodes() == 7
    ensures CheckSummary(5, 2, 1, 2) == Err(InconsistentSummary)
  {
    assert Pow(2, 3) == 8;
  }
}
