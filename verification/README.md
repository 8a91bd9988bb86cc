# Recommender MEMDP state model

This project is a Dafny model of `Code/recomodel.cpp`, the recommender MEMDP (multi-environment MDP) of MEMCP.

**Windows and nodes.** A user's recent history is a window of at most H items taken from K items.
- A window is stored as a length-H digit vector. Item i is stored as digit i + 1, and 0 is a leading pad.
- The windows are the nodes of a tree with N = 1 + K + … + K^H nodes.
- `state_to_id` and `id_to_state` convert between a window and its node id. They do so in bijective base K, with the weights `pows[i] = K^(H-1-i)` and `acpows[i] = 1 + K + … + K^(H-1-i)`.
- `next_state` appends an accepted item to the window. Once the window is full, the oldest item slides out.
- `is_connected` recovers the item that leads from one node to another, or returns K when there is none.
- `previous_states` lists the parents of a node.

**States and the table.** A state of the MEMDP is `env * N + node`, with one copy of the tree per environment (user profile). In MDP mode there is a single copy.
- A flat table holds one weight per (profile, node, action, link). `index` gives its offset.
- `load_transitions` reads a list of `s1 a s2 v` records grouped into profiles by non-record lines. It validates them, stores them, and normalises every row.
- `load_rewards` reads one reward per item.
- The planner's queries are `getTransitionProbability`, `getExpectedReward` and `getObservationProbability`.
- A sampled step is `sampleSR`/`sampleSOR`, and `isTerminal` is always false.

**Modules.**
- `Arith` (arith.dfy): powers, geometric sums and Euclidean division facts.
- `HistoryIndex` (history_index.dfy): the window encoding.
- `Navigation` (navigation.dfy): `next_state`, `is_connected` on nodes, and `previous_states`.
- `States` (states.dfy): `get_env`, `get_rep`, and `is_connected` on state ids.
- `Table` (table.dfy): `index` and row normalisation.
- `Loader` (loader.dfy): the summary, rewards and transitions loaders.
- `Recomodel` (recomodel.dfy): the loaded model and its queries.
- `AsWritten` (as_written.dfy): for each finding, the faulty check as written, with the rest of its function as intended. The differences are listed under "Left out".

**Modelling choices.**
- Files are modelled as lists of already tokenised lines. Each failed `assert` of a loader becomes an `Err` of a `Result`.
- Weights are exact reals.
- `get_env` and `get_rep` are declared in `recomodel.hpp`, which is not part of this model. Following their use at lines 268 and 285-286, they are modelled as `s / N` and `s % N`.
- The tree is modelled for K ≥ 2 and H ≥ 1. The consistency check on the summary rejects anything else. For H = 1, `acpows[1]` is taken to be the empty sum 0.

## Model

| member | source | states |
|---|---|---|
| HistoryIndex.PrecomputeWeights | Code/recomodel.cpp:111-117 | pows[i] is K^(H-1-i) and acpows[i] is 1 + K + … + K^(H-1-i), for every position i < H |
| HistoryIndex.Shape | Code/recomodel.cpp:111-117 | the two weights the navigation uses are linked: pows[0] = (K-1)·acpows[1] + 1, acpows[1] < pows[0], and N = 1 + K·(pows[0] + acpows[1]) |
| HistoryIndex.StateToId | Code/recomodel.cpp:22-28 | the loop computes the weighted digit sum; a valid window gets an id below N from which id_to_state gives the window back |
| HistoryIndex.DigitAt | Code/recomodel.cpp:38-45 | one iteration of the id_to_state loop: the digit is at most K and nonzero exactly when the id reaches acpows[indx]; the rest is below acpows[indx], and at least acpows[indx+1] when the digit is nonzero; digit·pows[indx] + rest is the id; and the loop reads acpows[indx+1] only with indx + 1 < H |
| HistoryIndex.IdToStateFrom | Code/recomodel.cpp:37-48 | from position indx on, the digits form a padded window whose value is the id, with a nonzero first digit exactly when the id reaches acpows[indx] |
| HistoryIndex.IdToState | Code/recomodel.cpp:34-50 | every id below N decodes to a valid window (digits at most K, zeros only as leading padding) whose value is the id |
| HistoryIndex.DecodeNumeral | Code/recomodel.cpp:34-50 | id_to_state undoes state_to_id on every valid window |
| HistoryIndex.WindowBijection | Code/recomodel.cpp:22-50 | state_to_id maps valid windows one-to-one onto [0, N) and id_to_state is its inverse in both directions |
| HistoryIndex.NumeralBounds | Code/recomodel.cpp:22-28 | the id of a padded window of length L is below 1 + K + … + K^L, and its first digit is nonzero exactly when the id reaches 1 + K + … + K^(L-1) |
| Navigation.Suffix | Code/recomodel.cpp:331-336 | the suffix of a node, the factor next_state multiplies by K (`aux` on the branch of line 333, `pows[0] + aux` on the branch of line 335, where `aux` = state mod pows[0]), is below pows[0] + acpows[1] |
| Navigation.SuffixIsTail | Code/recomodel.cpp:331-336 | the suffix is the id of the window with its oldest digit dropped |
| Navigation.SuffixOfSplit | Code/recomodel.cpp:331-335 | putting digit x ≤ K in front of a window R, which must be full when x > 0, gives a node below N whose suffix is R |
| Navigation.SuffixPreimage | Code/recomodel.cpp:331-335 | every node is either its own suffix R (when that is below acpows[1]) or R + a·pows[0] for some a ≤ K |
| Navigation.NextState | Code/recomodel.cpp:330-337 | the child is in [1, N), never the root; (child − 1) mod K is the item and (child − 1) div K is the parent's suffix |
| Navigation.NextStateAppends | Code/recomodel.cpp:330-337 | the child's window is the parent's window without its oldest digit, followed by digit item + 1 |
| Navigation.PrefixFixup | Code/recomodel.cpp:357-363 | the `rem == 0` correction gives exactly the quotient and remainder of s2 − 1 by K |
| Navigation.Link | Code/recomodel.cpp:352-368 | a result l < K means next_state(s1, l) = s2, and the result is K exactly when no item leads from s1 to s2 |
| Navigation.ParentsBySuffix | Code/recomodel.cpp:307-308 | the parents of a node s > 0 are exactly the nodes whose suffix is (s − 1) div K (`prefix_s2`), a value below pows[0] + acpows[1] |
| Navigation.ParentsSingle | Code/recomodel.cpp:313-316 | a prefix below acpows[1] is the suffix of exactly one node, itself |
| Navigation.ParentsFull | Code/recomodel.cpp:317-322 | a prefix of at least acpows[1] is the suffix of exactly the K + 1 nodes prefix + a·pows[0], a ≤ K, and these are distinct |
| Navigation.PreviousStates | Code/recomodel.cpp:306-324 | p is listed exactly when next_state(p, i) = s for some item i < K; the root has no parent, a node with a short prefix one, every other K + 1, all distinct |
| States.StateOf | Code/recomodel.cpp:268 | env·N + node is a state whose get_env is env and whose get_rep is node |
| States.StateParts | Code/recomodel.cpp:268 | every state id is env·N + node for its own get_env and get_rep |
| States.Child | Code/recomodel.cpp:268 | the successor state keeps the environment and moves the node by next_state |
| States.IsConnected | Code/recomodel.cpp:343-369 | states of different environments are never connected; within one, a result l < K means s2 is the child of s1 along l, and the result is K exactly when s2 is no child of s1 |
| Table.Index | Code/recomodel.cpp:14-16 | for a link below K, the cell lies in row (env, node, action) of the K·K-per-node layout, at position link within that row |
| Table.IndexBounds | Code/recomodel.cpp:14-16 | in-range coordinates give a cell inside the E·N·K·K table, and the K links of one (env, node, action) row are contiguous |
| Table.IndexInjective | Code/recomodel.cpp:14-16 | distinct in-range coordinates never share a cell |
| Table.SumNonNegative | Code/recomodel.cpp:207-211 | a row of non-negative weights has a non-negative sum |
| Table.SumQuotient | Code/recomodel.cpp:213-215 | dividing every entry by c divides the sum by c |
| Table.Normalised | Code/recomodel.cpp:195-215 | a row with a nonzero sum becomes proportional to the original and sums to 1; a non-negative row stays non-negative; a zero-sum row is left as it is |
| Table.SetRow | Code/recomodel.cpp:213-215 | writing one row changes no cell outside it |
| Table.NormalizeRows | Code/recomodel.cpp:191-218 | after the loop over the first q rows, each of them is the normalised original row and every later cell is untouched |
| Loader.SummaryEquation | Code/recomodel.cpp:85-86 | N·(K − 1) + 1 = K^(H+1) holds exactly when N = 1 + K + … + K^H |
| Loader.CheckSummary | Code/recomodel.cpp:65-86 | the summary is accepted exactly when K ≥ 2, H ≥ 1 and N = (K^(H+1) − 1)/(K − 1), and then it describes a valid tree of N nodes |
| Loader.ParsedRewards | Code/recomodel.cpp:141-144 | reading stops at the first line that does not parse; every line before it is an entry |
| Loader.StoreRewards | Code/recomodel.cpp:141-148 | storing succeeds exactly when every item is in 1..K; then each item holds the value of its last entry and an item with no entry holds 0 |
| Loader.LoadRewards | Code/recomodel.cpp:133-152 | accepted exactly when the parsed entries number K and all name items in 1..K; the table holds what they stored |
| Loader.Step | Code/recomodel.cpp:166-185 | a separator goes through exactly when the current profile holds N·K·K records and fewer than E profiles are closed, and then starts a new profile; a record goes through exactly when it is connected and in range (and, in MEMDP mode, fewer than E profiles are closed), and then changes only its own cell, by adding its value (MDP) or storing it (MEMDP), and counts one more record |
| Loader.Run | Code/recomodel.cpp:165-186 | after the reading loop, the profile counter is the number of separators and the record counter the number of records after the last one |
| Loader.StepAccepts | Code/recomodel.cpp:166-185 | one loop iteration goes through exactly when its line is acceptable after the lines before it |
| Loader.RunAccepts | Code/recomodel.cpp:165-186 | the reading loop gets through a file exactly when every line is acceptable: records connected and in range (and within the E profiles in MEMDP mode), separators closing a profile of N·K·K records and not beyond the E-th |
| Loader.Slot | Code/recomodel.cpp:178-184 | the cell an accepted record writes lies inside the table |
| Loader.LastWriteUnwritten | Code/recomodel.cpp:183 | in MEMDP mode a cell no record writes holds 0 |
| Loader.LastWriteWritten | Code/recomodel.cpp:183 | in MEMDP mode a cell holds the value of the last record that writes it |
| Loader.CellNonNegative | Code/recomodel.cpp:181-183 | records with non-negative weights leave non-negative cells in both modes |
| Loader.RunContents | Code/recomodel.cpp:180-184 | after the loop every cell holds the sum of its records' values (MDP) or the last one (MEMDP) |
| Loader.LoadTransitions | Code/recomodel.cpp:158-218 | accepted exactly when every line is acceptable and E profiles were closed; each row of the result is the normalised row of cell values |
| Loader.LoadedRowsStochastic | Code/recomodel.cpp:190-218 | after loading non-negative weights, each row is non-negative and sums to 1 unless no weight reached it |
| Recomodel.LoadModel | Code/recomodel.cpp:56-218 | a model is built exactly when the summary (the constructor, lines 56-98), the rewards (`load_rewards`, lines 133-152) and the transitions (`load_transitions`, lines 158-218) are all accepted; it is consistent and holds the loaded rewards and transition table. The order summary → rewards → transitions is the model's own lifecycle: recomodel.cpp has no function that calls the three in turn |
| Recomodel.StateRange | Code/recomodel.cpp:92 | each of the n_states states lies in an existing profile; in MDP mode it is a node of profile 0 |
| Recomodel.CellOf | Code/recomodel.cpp:230 | the cell read for a state, action and link lies inside the table |
| Recomodel.RowOf | Code/recomodel.cpp:230 | the cells of the K links of a state and action form one row of the table |
| Recomodel.TransitionProbability | Code/recomodel.cpp:225-232 | 0 when s2 is no child of s1, otherwise the table's weight for the link that leads to s2 |
| Recomodel.ProbabilityOutside | Code/recomodel.cpp:225-232 | a state outside the K consecutive children of s1 has probability 0 |
| Recomodel.ProbabilityAt | Code/recomodel.cpp:225-232 | the l-th child of s1 has the weight of link l |
| Recomodel.TransitionRowSum | Code/recomodel.cpp:225-232 | summed over all states, the transition probabilities give the sum of the table row |
| Recomodel.LoadedTransitionsAreDistributions | Code/recomodel.cpp:225-232 | when the table was loaded from non-negative weights, the probabilities out of a state under an action are non-negative and sum to 1 over the states, unless no weight reached that row |
| Recomodel.ExpectedReward | Code/recomodel.cpp:250-257 | the item's reward when s2 is the child of s1 along the recommended item, 0 otherwise |
| Recomodel.ObservationProbability | Code/recomodel.cpp:238-244 | 1 exactly when the observation is the state's node, and 0 otherwise |
| Recomodel.ObservationSumsToOne | Code/recomodel.cpp:238-244 | summed over the N observations, the probabilities give 1 |
| Recomodel.IsTerminal | Code/recomodel.cpp:298-300 | no state is terminal |
| Recomodel.ChildInState | Code/recomodel.cpp:268 | the successor of a state is a state of the model |
| Recomodel.SampleSR | Code/recomodel.cpp:263-274 | for the drawn link: s2 is a state of the same environment, is_connected(s, s2) gives the link back, getTransitionProbability(s, a, s2) is the weight the link was drawn with, and the reward is getExpectedReward(s, a, s2) |
| Recomodel.SampleSOR | Code/recomodel.cpp:280-292 | as SampleSR, and the returned observation is the node of s2, which getObservationProbability gives probability 1 |
| AsWritten.IdToStateCounterexample | Code/recomodel.cpp:37-47 | for K = 2, H = 4 and id 5, the loop as written gives [-1, 2, 2, 1]; the decoded window is [0, 0, 2, 1] |
| AsWritten.RewardGuardCounterexample | Code/recomodel.cpp:145-146 | the guard `a <= K` as written lets item 0 through, which then writes rewards[-1]; the corrected loader rejects it |
| AsWritten.SummaryCheckCounterexample | Code/recomodel.cpp:85-86 | the check as written accepts N = 5 for K = 2, H = 2, where the tree has 7 nodes; the corrected check rejects it |

## Left out

- File and stream reading (`ifstream`, `getline`, `istringstream`): the loaders work on lines that are already tokenised.
  - A `.rewards` line is an entry or a line that does not parse.
  - A `.transitions` line is a record or a separator.
- The random generator and `std::discrete_distribution` in `sampleSR`/`sampleSOR`. The drawn link is a parameter. The contract ties the reached state to that link's weight instead of stating the distribution of draws.
- Floating point. Weights and rewards are exact reals, so the Kahan summation branch (lines 196-205) and the plain sum (lines 207-211) coincide. One sum models both, and the `precision` flag is not modelled.
- Console output of the model sizes (lines 101-109), and `new`/`delete` memory management. The destructor (line 124) is also missing its parentheses.
- Integer width. Node ids, `index` offsets and the `int`/`size_t` mixes in `is_connected` and `previous_states` are unbounded integers here; the model assumes no overflow.
- `Code/utils.hpp`: the evaluation driver (session loops, scores, `Stats`, policies) is not part of this model.
- `recomodel.hpp` is not part of this model. `get_env`/`get_rep` are taken as `s / N` and `s % N`.
- `Table.Normalised`: a row whose weights sum to 0 is left unchanged. The source divides by 0 (line 214) and fills the row with NaN.
- `Loader.StepAccepts`: the model adds three range checks that `load_transitions` does not make:
  - `s1 < N` (StateOutOfRange);
  - `1 <= a <= K` (ActionOutOfRange);
  - in MEMDP mode, a profile below E for a record after the E-th separator (TooManyProfiles).

  `load_transitions` in recomodel.cpp refuses none of these records. It writes each one through `index`, which usually lands on a cell of another row, and then silently adds to that cell (MDP) or overwrites it (MEMDP):
  - `s1 = N` in MEMDP mode addresses `index(p + 1, 0, a - 1, link)`, a cell of the next profile;
  - `a = K + 1` addresses the row of node `s1 + 1`;
  - `a = 0` makes `a - 1` wrap, which lands in the previous row.

  Only some of these writes fall outside the table, for example every record after the E-th separator in MEMDP mode. The model treats all of them as out-of-range errors, which is what the file format intends. Connectivity is checked on every record, whatever its weight, as the code does.
- `Loader.Step`: refuses the same three kinds of record as `Loader.StepAccepts`, for the same reason.
- `States.IsConnected`: in MDP mode the source compares the two raw state ids rather than their nodes. The two agree for every state of an MDP (ids below N). They differ only for ids outside the state space, which a loaded record then rejects with another error.
- `Loader.StoreRewards`: a repeated item is not detected, as in the source. The K entries may then leave some item at 0. Whether duplicates should be refused is left open.
- `Loader.ParsedRewards`: line 144 reads into the wrong variables. The model follows the commented-out intended line 143: read `a v`, and stop at the first line that does not parse.
- Line 192 tests an undeclared `i`, and line 209 lacks a semicolon. The model reads the loop as running p over the profiles and summing each row.
- Lines 265 and 282 index the flat table as if it were three-dimensional. The model reads them as the K weights of row (env, node, action), at `index(env, node, a, 0)`.
- `Recomodel.ExpectedReward` and `Recomodel.TransitionProbability` require the action to be below K and the source state s1 to be a state of the model (`s1 < m.States()`). With a = K and an unconnected pair, the source's `getExpectedReward` reads `rewards[K]`, one past the table (line 255). With an out-of-range state, `getTransitionProbability` reads outside the table.
- `AsWritten.AcceptsRewardsAsWritten`: only the guard of line 145 is as written. Each line is parsed as `a v`, as the commented-out line 143 intends. Line 144 as written (`temp1 >> a >> temp2`) never reads the line at all.
- `AsWritten.IdToStateAsWritten`: only the borrow of lines 39-41 is as written. The model returns `[id]` once indx + 1 = H. At that point the loop of lines 37-46 would read `acpows[H]`, one past the array, and `state.at(H)` could throw.
- `AsWritten.SummaryCheckAsWritten`: lines 85-86 pass two arguments to the one-argument `assert` macro, which the standard `<cassert>` rejects. The model takes the comma reading: the condition's value is the message string, so the check never fails.
- `HistoryIndex.IdToStateFrom`: never reads `acpows[H]` for an id below N, because `HistoryIndex.DigitAt` proves indx + 1 < H at every iteration. The loop of lines 37-46 is therefore modelled without a stop at indx + 1 = H.

## Findings

| source | as written | input that shows it | evidently intended | confidence | as-written member | corrected member |
|---|---|---|---|---|---|---|
| Code/recomodel.cpp:39-41 | when `rem < acpows[indx+1]` the digit is `quot - 1`, even when `quot` is 0 | K = 2, H = 4, id = 5: the result is [-1, 2, 2, 1], with −1 wrapping in `size_t`; the window is [0, 0, 2, 1] | borrow from the quotient only when `quot > 0` | high, not executed | AsWritten.IdToStateAsWritten | HistoryIndex.IdToState |
| Code/recomodel.cpp:145-146 | the guard is `a <= n_actions`, and then `rewards[a - 1]` is written | a one-line rewards file `0 1.0` with K = 1: it is accepted and writes `rewards[-1]` | items are 1-based: require `1 <= a <= K` | medium, not executed | AsWritten.AcceptsRewardsAsWritten | Loader.LoadRewards |
| Code/recomodel.cpp:85-86 | the comma expression passed to `assert` never compares `n_observations` with anything | N = 5, K = 2, E = 1, H = 2 is accepted, but the tree has 7 nodes | reject unless N = (K^(H+1) − 1)/(K − 1) | high, not executed | AsWritten.SummaryCheckAsWritten | Loader.CheckSummary |

The three counterexamples are proved by `AsWritten.IdToStateCounterexample`, `AsWritten.RewardGuardCounterexample` and `AsWritten.SummaryCheckCounterexample`. For each corrected member, the intended property is part of its contract, together with `HistoryIndex.WindowBijection` for the first.
