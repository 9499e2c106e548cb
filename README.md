# Action-selection policies for a Monte-Carlo Blackjack agent

This project models `ex4_monte_carlo/policy.py`, the action-selection rules of a
tabular Monte-Carlo control agent, and proves what they promise:

- `argmax`, the tie-breaking argmax: one scan keeps the running maximum and the
  list of indices that reach it (reset on a strictly larger value, appended on an
  equal one), then one index of that list is drawn at random;
- `default_blackjack_policy`: stick (action 0) on a player sum of 20 or 21, hit
  (action 1) otherwise;
- `create_blackjack_policy`: a greedy policy over the Q-table that falls back on the
  default rule for a state that is not a key of Q, and otherwise takes numpy's
  first-match argmax;
- `create_epsilon_policy`: an epsilon-soft policy that fixes the number of actions
  once, from the entry of key 0, and on each call either draws a uniform action
  (when the uniform draw is below epsilon) or takes the tie-breaking argmax of
  `Q[state]`.

Layout:

- `maxima.dfy` (module `Maxima`): the reference definitions, the maximum `MaxOf`,
  the tie set `TieSet` (every maximal index, increasing) and numpy's first-match
  `FirstMaxIndex`, with the lemmas that characterise them.
- `argmax.dfy` (module `TieBreaking`): the scan `Candidates`, a method with a loop
  proved to produce exactly `TieSet`, and `Argmax`, which draws from it. The
  `float('-inf')` start value is the datatype value `NegInf`.
- `policy.dfy` (module `Policies`): the Q-table as a class `QTable` whose `entries`
  map the learning loop reassigns, the default rule, and the two policies as
  classes `GreedyPolicy` and `EpsilonPolicy` that hold a reference to the table.
  Every call reads the table as it is at that moment, so updates made by the loop
  between calls are seen; `EpsilonScenario` and `GreedyScenario` show this on
  concrete tables.

Randomness is lifted out of the model. The uniform draw of
`np.random.random()` is a parameter `draw` with `0 <= draw < 1`. The picks made
by `np.random.choice` and `np.random.randint` are nondeterministic choices, so the
contracts state membership in the candidate list or the action range, which is
everything that holds for every outcome.

The Q-table is a `defaultdict` in the source, so reading a missing key inserts the
entry its factory makes. The model keeps that side effect: `QTable.Get` inserts
`fill` for a missing key, and both reads of the epsilon-soft policy (`Q[0]` when
it is made, `Q[state]` when it exploits) go through it. The greedy policy tests
membership first and reads only present keys, so it never inserts.

Errors raised by numpy are modelled as results, not excluded by preconditions:
`np.random.choice` of the empty candidate list (empty input to `argmax`) is
`EmptyChoice`, `np.argmax` of an empty entry is `EmptyArgmax`, and
`np.random.randint(0, 0)` (an action count of 0) is `EmptyActionRange`.

Two consequences of the code are kept as written. The exploitation path of the
epsilon-soft policy never fails with a missing key: the `defaultdict` inserts a
default entry and the argmax runs on it. And the greedy policy does not break
ties at random: `np.argmax` returns the first maximal index, so on a seen state
it is deterministic.

## Model

| member | source | states |
|---|---|---|
| Maxima.MaxOf | ex4_monte_carlo/policy.py:20-22 | the maximum the scan ends with occurs in the sequence and is at least every element |
| Maxima.TiesUpToMembers | ex4_monte_carlo/policy.py:20-25 | the indices collected for a value m up to n are exactly those i < n with arr[i] == m |
| Maxima.TiesUpToIncreasing | ex4_monte_carlo/policy.py:20-25 | indices collected in scan order are strictly increasing |
| Maxima.TieSetSpec | ex4_monte_carlo/policy.py:7-25 | the tie set is empty exactly for empty input, strictly increasing, and holds exactly the indices whose value equals the maximum (ties all kept, not first-wins) |
| Maxima.IncreasingDeterminedByMembers | ex4_monte_carlo/policy.py:20-25 | two strictly increasing index lists with the same members are equal |
| Maxima.TieSetUnique | ex4_monte_carlo/policy.py:20-25 | any strictly increasing list holding exactly the maximal indices is the tie set, so the candidate list is fully determined by the input |
| Maxima.TieSetOfUniqueMax | ex4_monte_carlo/policy.py:20-28 | with a unique strict maximum at k the candidate list is [k], so the random pick always returns k |
| Maxima.FirstMaxIndex | ex4_monte_carlo/policy.py:64 | np.argmax: an index in range whose value is at least every element and strictly above every element before it |
| Maxima.FirstMaxIsFirstTie | ex4_monte_carlo/policy.py:64 | the first-match argmax is the lowest element of the tie set |
| TieBreaking.Candidates | ex4_monte_carlo/policy.py:15-25 | the scan ends with max_value -inf and no indices on empty input, otherwise with the maximum of arr and exactly the tie set (whose contents and order TieSetSpec and TieSetUnique pin down) |
| TieBreaking.Argmax | ex4_monte_carlo/policy.py:6-30 | fails exactly on empty input; otherwise returns a member of the tie set, in range and at least every element; a unique maximum is returned whatever the draw |
| Policies.DefaultPolicy | ex4_monte_carlo/policy.py:33-44 | returns 0 (stick) exactly when the player sum is 20 or 21, else 1 (hit); always 0 or 1 |
| Policies.Vivified | ex4_monte_carlo/policy.py:90 | reading a defaultdict key leaves the key present with its old entry or the default one, adds no other key and changes no other entry |
| Policies.QTable.Get | ex4_monte_carlo/policy.py:90 | Q[key] returns the stored entry, inserting the default entry first when the key is missing |
| Policies.GreedyPolicy.constructor | ex4_monte_carlo/policy.py:47-67 | the policy holds the caller's table itself, not a copy |
| Policies.GreedyPolicy.GetAction | ex4_monte_carlo/policy.py:58-65 | an unseen state gets the default rule; a seen state gets the lowest index attaining the maximum of Q[state] (no randomness), and an empty entry fails |
| Policies.Explores | ex4_monte_carlo/policy.py:87 | with a draw in [0, 1), epsilon <= 0 never explores and epsilon >= 1 always explores |
| Policies.EpsilonPolicy.constructor | ex4_monte_carlo/policy.py:81-82 | the action count is fixed once as the length of Q[0], read through the defaultdict; the policy holds the caller's table |
| Policies.EpsilonPolicy.GetAction | ex4_monte_carlo/policy.py:84-92 | below epsilon: an action in [0, num_actions) and the table untouched (Q[state] is not read); otherwise Q[state] is read through the defaultdict and the result is a maximal index of it from the tie set |

## Left out

- The random number generator: the uniform draw is a parameter and the picks of `np.random.choice` and `np.random.randint` are nondeterministic choices. Uniformity over the candidates (for example about 1/3 each on a three-way tie) is a statistical claim and is not stated.
- Floating point: Q-values are real numbers compared with `>` and `==`; NaN and infinite Q-values are not modelled. The `float('-inf')` start of the scan is the value `NegInf`.
- The key type of the epsilon-soft policy: the source reads the integer key 0 to size the action space; the model passes that probe key to the constructor, since its key type is generic.
- The `defaultdict` factory is a constant entry `fill` of the table, not a function.
- Python closures: each `create_*` function becomes the constructor of a class, and the returned `get_action` its `GetAction` method.
- The Blackjack environment, the Monte-Carlo learning loop that updates Q, and any experiment harness are not part of this model; `QTable.Assign` stands for the loop's updates.
- Concurrent use of a table by several policies is not modelled; every call is sequential.
