/** Loading a model: the .summary numbers, the .rewards file and the
    .transitions file, each over lines that have already been tokenised.
    Every assertion of the loaders becomes an error of the result. */
module Loader {
  import opened Arith
  import opened HistoryIndex
  import opened Navigation
  import opened States
  import opened Table

  datatype LoadError =
    | InconsistentSummary
    | RewardOutOfRange
    | MissingReward
    | UnfeasibleTransition
    | StateOutOfRange
    | ActionOutOfRange
    | IncompleteProfile
    | TooManyProfiles
    | MissingProfiles

  datatype Result<T> = Ok(value: T) | Err(error: LoadError)

  /** The four numbers of a .summary file: observations (tree nodes), actions
      (items), environments (profiles) and the history length. */
  datatype Summary = Summary(nodes: nat, actions: nat, envs: nat, hlength: nat)
  {
    function TreeOf(): Tree
    {
      Tree(actions, hlength)
    }

    predicate Valid()
    {
      TreeOf().Valid() && nodes == TreeOf().Nodes()
    }
  }

  // ----------------------------------------------------------------------
  // Summary

  lemma CancelFactor(a: int, b: int, c: int)
    requires c > 0 && a * c == b * c
    ensures a == b
  {
    if a < b {
      MulMonotone(a + 1, b, c);
    } else if b < a {
      MulMonotone(b + 1, a, c);
    }
  }

  /** The summary equation N = (K^(H+1) - 1) / (K - 1), without division. */
  lemma SummaryEquation(n: nat, k: nat, h: nat)
    requires k >= 2
    ensures n * (k - 1) + 1 == Pow(k, h + 1) <==> n == Geo(k, h + 1)
  {
    PowGeo(k, h + 1);
    if n * (k - 1) + 1 == Pow(k, h + 1) {
      CancelFactor(n, Geo(k, h + 1), k - 1);
    }
  }

  /** The consistency check on the summary: the node count must be the size
      of the tree of windows of K items and length H. */
  function CheckSummary(n: nat, k: nat, e: nat, h: nat): (r: Result<Summary>)
    ensures r.Ok? <==> k >= 2 && h >= 1 && n * (k - 1) + 1 == Pow(k, h + 1)
    ensures r.Ok? ==> r.value == Summary(n, k, e, h) && r.value.Valid()
    ensures r.Err? ==> r.error == InconsistentSummary
  {
    if k >= 2 && h >= 1 then
      SummaryEquation(n, k, h);
      if n == Geo(k, h + 1) then Ok(Summary(n, k, e, h)) else Err(InconsistentSummary)
    else
      Err(InconsistentSummary)
  }

  // ----------------------------------------------------------------------
  // Rewards

  /** A line of the .rewards file: `a v` (item a, 1-based, earns v), or a
      line that does not parse. */
  datatype RewardLine = RewardEntry(item: nat, value: real) | MalformedReward

  /** The lines read before the first one that does not parse. */
  function ParsedRewards(lines: seq<RewardLine>): (p: seq<RewardLine>)
    ensures |p| <= |lines| && p == lines[..|p|]
    ensures forall i :: 0 <= i < |p| ==> p[i].RewardEntry?
    ensures |p| < |lines| ==> lines[|p|].MalformedReward?
  {
    if |lines| == 0 || lines[0].MalformedReward? then
      []
    else
      [lines[0]] + ParsedRewards(lines[1..])
  }

  /** The rewards table r holds what the entries p stored: the value of the
      last entry naming each item, and 0 for an item no entry names. */
  predicate StoredRewards(k: nat, p: seq<RewardLine>, r: seq<real>)
    requires forall i :: 0 <= i < |p| ==> p[i].RewardEntry? && 1 <= p[i].item <= k
  {
    && |r| == k
    && (forall x :: 0 <= x < k && (forall i :: 0 <= i < |p| ==> p[i].item != x + 1) ==> r[x] == 0.0)
    && (forall i :: 0 <= i < |p| && (forall j :: i < j < |p| ==> p[j].item != p[i].item) ==>
          r[p[i].item - 1] == p[i].value)
  }

  /** Stores the entries one after the other: rewards[a - 1] = v. */
  function StoreRewards(k: nat, p: seq<RewardLine>): (r: Result<seq<real>>)
    requires forall i :: 0 <= i < |p| ==> p[i].RewardEntry?
    ensures r.Ok? <==> forall i :: 0 <= i < |p| ==> 1 <= p[i].item <= k
    ensures r.Err? ==> r.error == RewardOutOfRange
    ensures r.Ok? ==> StoredRewards(k, p, r.value)
  {
    if |p| == 0 then
      Ok(seq(k, _ => 0.0))
    else
      var init, last := p[..|p| - 1], p[|p| - 1];
      match StoreRewards(k, init)
      case Err(e) => Err(e)
      case Ok(r) =>
        if last.item < 1 || last.item > k then
          Err(RewardOutOfRange)
        else
          var r' := r[last.item - 1 := last.value];
          assert forall i :: 0 <= i < |init| ==> init[i] == p[i];
          Ok(r')
  }

  /** load_rewards: every parsed entry names an item in 1..K, and there are
      exactly K of them. */
  function LoadRewards(k: nat, lines: seq<RewardLine>): (r: Result<seq<real>>)
    ensures r.Ok? <==>
      |ParsedRewards(lines)| == k && forall i :: 0 <= i < k ==> 1 <= ParsedRewards(lines)[i].item <= k
    ensures r.Ok? ==> StoredRewards(k, ParsedRewards(lines), r.value)
  {
    var p := ParsedRewards(lines);
    match StoreRewards(k, p)
    case Err(e) => Err(e)
    case Ok(r) => if |p| == k then Ok(r) else Err(MissingReward)
  }

  // ----------------------------------------------------------------------
  // Transitions

  /** A line of the .transitions file: a record `s1 a s2 v` (from node s1,
      recommending item a, 1-based, the user moves to node s2 with weight v),
      or any other line, which closes the current profile. */
  datatype Line = Record(s1: nat, a: nat, s2: nat, v: real) | Separator

  /** Number of profiles the table holds: every profile is summed into one in
      MDP mode. */
  function Profiles(sm: Summary, mdp: bool): nat
  {
    if mdp then 1 else sm.envs
  }

  /** Number of (profile, node, action) rows of the table. */
  function RowCount(sm: Summary, mdp: bool): nat
  {
    Profiles(sm, mdp) * sm.nodes * sm.actions
  }

  function TableSize(sm: Summary, mdp: bool): nat
  {
    RowCount(sm, mdp) * sm.actions
  }

  /** Number of profile-closing lines. */
  function Seps(lines: seq<Line>): nat
  {
    if |lines| == 0 then 0
    else Seps(lines[..|lines| - 1]) + (if lines[|lines| - 1].Separator? then 1 else 0)
  }

  /** Number of records after the last profile-closing line. */
  function Trailing(lines: seq<Line>): nat
  {
    if |lines| == 0 then 0
    else if lines[|lines| - 1].Separator? then 0
    else Trailing(lines[..|lines| - 1]) + 1
  }

  /** A record is accepted after the lines before it: its nodes are linked, its
      source node and its item are in range, and in MEMDP mode its profile
      exists. */
  predicate RecordOk(sm: Summary, mdp: bool, before: seq<Line>, r: Line)
    requires sm.Valid() && r.Record?
  {
    && IsConnected(sm.TreeOf(), r.s1, r.s2) < sm.actions
    && r.s1 < sm.nodes
    && 1 <= r.a <= sm.actions
    && (mdp || Seps(before) < sm.envs)
  }

  /** A profile-closing line is accepted when the profile it closes holds
      N * K * K records and it is not beyond the E-th. */
  predicate SeparatorOk(sm: Summary, before: seq<Line>)
  {
    Trailing(before) == sm.nodes * sm.actions * sm.actions && Seps(before) < sm.envs
  }

  predicate LineOk(sm: Summary, mdp: bool, lines: seq<Line>, i: nat)
    requires sm.Valid() && i < |lines|
  {
    match lines[i]
    case Record(_, _, _, _) => RecordOk(sm, mdp, lines[..i], lines[i])
    case Separator => SeparatorOk(sm, lines[..i])
  }

  /** The cell an accepted record writes: (profile, s1, a - 1, link), with
      profile 0 in MDP mode. */
  function Slot(sm: Summary, mdp: bool, before: seq<Line>, r: Line): (j: nat)
    requires sm.Valid() && r.Record? && RecordOk(sm, mdp, before, r)
    ensures j < TableSize(sm, mdp)
  {
    var env := if mdp then 0 else Seps(before);
    var link := IsConnected(sm.TreeOf(), r.s1, r.s2);
    IndexBounds(sm.nodes, sm.actions, Profiles(sm, mdp), env, r.s1, r.a - 1, link);
    Index(sm.nodes, sm.actions, env, r.s1, r.a - 1, link)
  }

  /** The loader's state between lines: the table, the profiles closed so far
      and the records read in the current profile. */
  datatype Progress = Progress(table: seq<real>, profiles: nat, found: nat)

  /** One iteration of the reading loop. */
  function Step(sm: Summary, mdp: bool, pr: Progress, line: Line): (r: Result<Progress>)
    requires sm.Valid() && |pr.table| == TableSize(sm, mdp)
    ensures r.Ok? ==> |r.value.table| == TableSize(sm, mdp)
    ensures line.Separator? ==>
      (r.Ok? <==> pr.found == sm.nodes * sm.actions * sm.actions && pr.profiles < sm.envs)
    ensures line.Separator? && r.Ok? ==> r.value == Progress(pr.table, pr.profiles + 1, 0)
    ensures line.Record? ==>
      (r.Ok? <==>
        && IsConnected(sm.TreeOf(), line.s1, line.s2) < sm.actions
        && line.s1 < sm.nodes && 1 <= line.a <= sm.actions
        && (mdp || pr.profiles < sm.envs))
    ensures line.Record? && r.Ok? ==>
      && 1 <= line.a
      && r.value.profiles == pr.profiles && r.value.found == pr.found + 1
      && var j := Index(sm.nodes, sm.actions, if mdp then 0 else pr.profiles, line.s1, line.a - 1,
                        IsConnected(sm.TreeOf(), line.s1, line.s2));
         && j < |pr.table|
         && r.value.table[j] == (if mdp then pr.table[j] + line.v else line.v)
         && forall i :: 0 <= i < |pr.table| && i != j ==> r.value.table[i] == pr.table[i]
  {
    match line
    case Separator =>
      if pr.found != sm.nodes * sm.actions * sm.actions then Err(IncompleteProfile)
      else if pr.profiles + 1 > sm.envs then Err(TooManyProfiles)
      else Ok(Progress(pr.table, pr.profiles + 1, 0))
    case Record(s1, a, s2, v) =>
      var k := sm.actions;
      var link := IsConnected(sm.TreeOf(), s1, s2);
      if link >= k then Err(UnfeasibleTransition)
      else if s1 >= sm.nodes then Err(StateOutOfRange)
      else if a < 1 || a > k then Err(ActionOutOfRange)
      else if !mdp && pr.profiles >= sm.envs then Err(TooManyProfiles)
      else
        var env := if mdp then 0 else pr.profiles;
        IndexBounds(sm.nodes, k, Profiles(sm, mdp), env, s1, a - 1, link);
        var j := Index(sm.nodes, k, env, s1, a - 1, link);
        Ok(Progress(pr.table[j := if mdp then pr.table[j] + v else v], pr.profiles, pr.found + 1))
  }

  /** The reading loop over a file, stopping at the first rejected line. */
  function Run(sm: Summary, mdp: bool, lines: seq<Line>): (r: Result<Progress>)
    requires sm.Valid()
    ensures r.Ok? ==> |r.value.table| == TableSize(sm, mdp)
    ensures r.Ok? ==> r.value.profiles == Seps(lines) && r.value.found == Trailing(lines)
  {
    if |lines| == 0 then
      Ok(Progress(seq(TableSize(sm, mdp), _ => 0.0), 0, 0))
    else
      match Run(sm, mdp, lines[..|lines| - 1])
      case Err(e) => Err(e)
      case Ok(pr) => Step(sm, mdp, pr, lines[|lines| - 1])
  }

  lemma PrefixLine(sm: Summary, mdp: bool, lines: seq<Line>, n: nat)
    requires sm.Valid() && n <= |lines|
    ensures forall i :: 0 <= i < n ==> LineOk(sm, mdp, lines, i) == LineOk(sm, mdp, lines[..n], i)
  {
    forall i | 0 <= i < n
      ensures LineOk(sm, mdp, lines, i) == LineOk(sm, mdp, lines[..n], i)
    {
      assert lines[..n][..i] == lines[..i];
    }
  }

  /** One iteration of the loop accepts a line exactly when LineOk does,
      given the counters the earlier lines left. */
  lemma StepAccepts(sm: Summary, mdp: bool, pr: Progress, before: seq<Line>, line: Line)
    requires sm.Valid() && |pr.table| == TableSize(sm, mdp)
    requires pr.profiles == Seps(before) && pr.found == Trailing(before)
    ensures Step(sm, mdp, pr, line).Ok? <==> LineOk(sm, mdp, before + [line], |before|)
  {
    assert (before + [line])[..|before|] == before;
  }

  /** The reading loop gets through a file exactly when every line of it is
      accepted. */
  lemma {:induction false} RunAccepts(sm: Summary, mdp: bool, lines: seq<Line>)
    requires sm.Valid()
    ensures Run(sm, mdp, lines).Ok? <==> forall i :: 0 <= i < |lines| ==> LineOk(sm, mdp, lines, i)
  {
    if |lines| > 0 {
      var init := lines[..|lines| - 1];
      RunAccepts(sm, mdp, init);
      PrefixLine(sm, mdp, lines, |lines| - 1);
      assert init + [lines[|lines| - 1]] == lines;
      match Run(sm, mdp, init)
      case Err(_) =>
      case Ok(pr) =>
        StepAccepts(sm, mdp, pr, init, lines[|lines| - 1]);
    }
  }

  /** Record i of the file writes cell j. */
  predicate Writes(sm: Summary, mdp: bool, lines: seq<Line>, i: nat, j: nat)
    requires sm.Valid() && i < |lines|
  {
    lines[i].Record? && RecordOk(sm, mdp, lines[..i], lines[i]) && Slot(sm, mdp, lines[..i], lines[i]) == j
  }

  lemma PrefixWrites(sm: Summary, mdp: bool, lines: seq<Line>, n: nat, j: nat)
    requires sm.Valid() && n <= |lines|
    ensures forall i :: 0 <= i < n ==> Writes(sm, mdp, lines, i, j) == Writes(sm, mdp, lines[..n], i, j)
  {
    forall i | 0 <= i < n
      ensures Writes(sm, mdp, lines, i, j) == Writes(sm, mdp, lines[..n], i, j)
    {
      assert lines[..n][..i] == lines[..i];
    }
  }

  /** MDP mode: cell j accumulates the values of all records writing it. */
  function SlotTotal(sm: Summary, mdp: bool, lines: seq<Line>, j: nat): real
    requires sm.Valid()
  {
    if |lines| == 0 then 0.0
    else
      SlotTotal(sm, mdp, lines[..|lines| - 1], j)
        + (if Writes(sm, mdp, lines, |lines| - 1, j) then lines[|lines| - 1].v else 0.0)
  }

  /** MEMDP mode: cell j holds the value of the last record writing it. */
  function LastWrite(sm: Summary, mdp: bool, lines: seq<Line>, j: nat): real
    requires sm.Valid()
  {
    if |lines| == 0 then 0.0
    else if Writes(sm, mdp, lines, |lines| - 1, j) then lines[|lines| - 1].v
    else LastWrite(sm, mdp, lines[..|lines| - 1], j)
  }

  /** LastWrite is 0 for a cell no record writes. */
  lemma {:induction false} LastWriteUnwritten(sm: Summary, mdp: bool, lines: seq<Line>, j: nat)
    requires sm.Valid()
    requires forall i :: 0 <= i < |lines| ==> !Writes(sm, mdp, lines, i, j)
    ensures LastWrite(sm, mdp, lines, j) == 0.0
  {
    if |lines| > 0 {
      PrefixWrites(sm, mdp, lines, |lines| - 1, j);
      LastWriteUnwritten(sm, mdp, lines[..|lines| - 1], j);
    }
  }

  /** LastWrite is the value of the last record that writes the cell. */
  lemma {:induction false} LastWriteWritten(sm: Summary, mdp: bool, lines: seq<Line>, j: nat, i: nat)
    requires sm.Valid() && i < |lines| && Writes(sm, mdp, lines, i, j)
    requires forall i2 :: i < i2 < |lines| ==> !Writes(sm, mdp, lines, i2, j)
    ensures LastWrite(sm, mdp, lines, j) == lines[i].v
  {
    if i < |lines| - 1 {
      PrefixWrites(sm, mdp, lines, |lines| - 1, j);
      LastWriteWritten(sm, mdp, lines[..|lines| - 1], j, i);
    }
  }

  /** The value the loading loop leaves in cell j, before normalisation. */
  function Cell(sm: Summary, mdp: bool, lines: seq<Line>, j: nat): real
    requires sm.Valid()
  {
    if mdp then SlotTotal(sm, mdp, lines, j) else LastWrite(sm, mdp, lines, j)
  }

  /** The reading loop leaves every cell at its Cell value. */
  lemma {:induction false} RunContents(sm: Summary, mdp: bool, lines: seq<Line>)
    requires sm.Valid() && Run(sm, mdp, lines).Ok?
    ensures forall j :: 0 <= j < TableSize(sm, mdp) ==> Run(sm, mdp, lines).value.table[j] == Cell(sm, mdp, lines, j)
  {
    if |lines| > 0 {
      var init := lines[..|lines| - 1];
      RunContents(sm, mdp, init);
      RunAccepts(sm, mdp, lines);
      assert LineOk(sm, mdp, lines, |lines| - 1);
    }
  }

  /** Row q of the table before normalisation. */
  function RawRow(sm: Summary, mdp: bool, lines: seq<Line>, q: nat): (row: seq<real>)
    requires sm.Valid()
    ensures |row| == sm.actions
  {
    seq(sm.actions, l requires 0 <= l < sm.actions => Cell(sm, mdp, lines, q * sm.actions + l))
  }

  /** A table holding the Cell values has RawRow as its rows. */
  lemma RawRows(sm: Summary, mdp: bool, lines: seq<Line>, t: seq<real>)
    requires sm.Valid() && |t| == TableSize(sm, mdp)
    requires forall j :: 0 <= j < |t| ==> t[j] == Cell(sm, mdp, lines, j)
    ensures forall q: nat :: q < RowCount(sm, mdp) ==>
      q * sm.actions + sm.actions <= |t| && Row(t, q, sm.actions) == RawRow(sm, mdp, lines, q)
  {
    var k := sm.actions;
    forall q: nat | q < RowCount(sm, mdp)
      ensures q * k + k <= |t| && Row(t, q, k) == RawRow(sm, mdp, lines, q)
    {
      RowsApart(q, RowCount(sm, mdp), k);
      assert forall l :: 0 <= l < k ==> Row(t, q, k)[l] == t[q * k + l];
    }
  }

  /** load_transitions: the file is accepted exactly when every line is and
      it closes E profiles; every row of the result is the normalised row of
      cell values. */
  function LoadTransitions(sm: Summary, mdp: bool, lines: seq<Line>): (r: Result<seq<real>>)
    requires sm.Valid()
    ensures r.Ok? <==> (forall i :: 0 <= i < |lines| ==> LineOk(sm, mdp, lines, i)) && Seps(lines) == sm.envs
    ensures r.Ok? ==> |r.value| == TableSize(sm, mdp)
    ensures r.Ok? ==> forall q: nat :: q < RowCount(sm, mdp) ==>
      q * sm.actions + sm.actions <= |r.value| && Row(r.value, q, sm.actions) == Normalised(RawRow(sm, mdp, lines, q))
  {
    RunAccepts(sm, mdp, lines);
    match Run(sm, mdp, lines)
    case Err(e) => Err(e)
    case Ok(pr) =>
      if pr.profiles != sm.envs then
        Err(MissingProfiles)
      else
        RunContents(sm, mdp, lines);
        RawRows(sm, mdp, lines, pr.table);
        Ok(NormalizeRows(pr.table, sm.actions, RowCount(sm, mdp)))
  }

  predicate NonNegativeRecords(lines: seq<Line>)
  {
    forall i :: 0 <= i < |lines| && lines[i].Record? ==> lines[i].v >= 0.0
  }

  lemma {:induction false} CellNonNegative(sm: Summary, mdp: bool, lines: seq<Line>, j: nat)
    requires sm.Valid() && NonNegativeRecords(lines)
    ensures SlotTotal(sm, mdp, lines, j) >= 0.0 && LastWrite(sm, mdp, lines, j) >= 0.0
  {
    if |lines| > 0 {
      var init := lines[..|lines| - 1];
      assert NonNegativeRecords(init) by {
        assert forall i :: 0 <= i < |init| ==> init[i] == lines[i];
      }
      CellNonNegative(sm, mdp, init, j);
    }
  }

  lemma RawRowNonNegative(sm: Summary, mdp: bool, lines: seq<Line>, q: nat)
    requires sm.Valid() && NonNegativeRecords(lines)
    ensures NonNegative(RawRow(sm, mdp, lines, q))
  {
    var raw := RawRow(sm, mdp, lines, q);
    forall l | 0 <= l < sm.actions
      ensures raw[l] >= 0.0
    {
      var j := q * sm.actions + l;
      CellNonNegative(sm, mdp, lines, j);
      assert raw[l] == Cell(sm, mdp, lines, j);
    }
  }

  /** After loading a file of non-negative weights, every row is a
      probability distribution over the K links, unless no weight reached
      it. */
  lemma LoadedRowsStochastic(sm: Summary, mdp: bool, lines: seq<Line>, q: nat)
    requires sm.Valid() && q < RowCount(sm, mdp) && NonNegativeRecords(lines)
    ensures LoadTransitions(sm, mdp, lines).Ok? ==>
      var t := LoadTransitions(sm, mdp, lines).value;
      && q * sm.actions + sm.actions <= |t|
      && NonNegative(Row(t, q, sm.actions))
      && (Sum(RawRow(sm, mdp, lines, q)) != 0.0 ==> Sum(Row(t, q, sm.actions)) == 1.0)
  {
    if LoadTransitions(sm, mdp, lines).Ok? {
      var raw := RawRow(sm, mdp, lines, q);
      RawRowNonNegative(sm, mdp, lines, q);
      var t := LoadTransitions(sm, mdp, lines).value;
      assert q * sm.actions + sm.actions <= |t| && Row(t, q, sm.actions) == Normalised(raw);
    }
  }
}
