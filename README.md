# HENS: stream duty and the minimum-matches constraint system, in Dafny

This project models two pieces of a heat-exchanger-network synthesis tool
based on pinch analysis.

- **Stream** (`stream.dfy`, module `Streams`). A process stream has an inlet
  temperature `Tin`, an outlet temperature `Tout` and a flow-rate × heat-capacity
  product `FCp`. Its duty `heat` is computed once, when the stream is built, as
  the absolute value of `(Tout - Tin) * FCp`. The stream is an immutable
  datatype. `NewStream` plays the role of the constructor.
- **Minimum-number-of-matches transshipment model** (`min_matches.dfy`, module
  `MinMatches`). Hot streams `H` give up heat `sigma[h, s]` in temperature
  interval `s`. Cold streams `C` take up heat `delta[c, t]` in interval `t`.
  `U[h, c]` is the Big-M bound of a pair. The model's variables are the binary match indicators
  `y[h, c]` and the non-negative flows `q[h, s, c, t]`. Each rule of the model
  (objective, supply balance, demand balance, Big-M link, triangular zero-heat
  rule) is a function that builds the constraint for one index tuple. A
  `Constraint` datatype with a `Skip` case stands for "no constraint posted".
  `Feasible` holds when every constraint instance is satisfied and the variables
  lie in their domains. Solving is not modelled. The lemmas state what every
  feasible assignment must satisfy. The triangular rule (test_file.py:58-65)
  forbids flow from a later position of `T` to an earlier one; if `T` lists the
  intervals hottest first, as the rule's purpose suggests, it forbids heat
  moving up the temperature scale. The rule's consequences are
  `InflowFromPrefix` and `CascadeNonNegative`: read with that order, a prefix
  of `T` is a set of hottest intervals, and their demand never exceeds their
  supply.
- **Finite sums** (`sums.dfy`, module `Sums`). `Sum(xs, f)` is the source's
  `sum(f(x) for x in xs)`. The module proves the algebra the constraint lemmas
  rely on: splitting, congruence, monotonicity, bounds, and exchanging the order
  of a four-fold sum.

Three facts about the stream constructor (lib/classes/stream.py:11-14) shape the model:

- `Stream.__init__` itself checks nothing. It passes `Tin` and `Tout` to
  `Process_Stream.__init__`, whose code is not available. Whatever that
  initialiser checks or derives is not modelled, and `NewStream` stores the
  temperatures as given, so a stream with `Tin == Tout` or `FCp <= 0` is
  accepted.
- The duty is the absolute value of the whole product `(Tout - Tin) * FCp`, so
  a negative `FCp` still gives a non-negative duty. `NewStream` states
  `heat == |Tout - Tin| * |FCp|`, and `HeatWithNonNegativeRate` gives
  `|Tout - Tin| * FCp` for `FCp >= 0`.
- Every stream the model handles has type `BuiltStream`, whose `heat` is the
  derived duty; a record with any other `heat` is not a `BuiltStream`.

The definitions of the minimum-matches model carry no contract of their own;
each matches its source rule term for term, and the lemmas in the table below
carry its properties:

- `MinMatches.YBinary` and `MinMatches.QNonNegative` (test_file.py:34-35): the
  variable domains, `y[h, c]` in {0, 1} and `q[h, s, c, t] >= 0`.
- `MinMatches.MatchesMinRule` (test_file.py:38-40): the objective
  `Σ_h Σ_c y[h, c]`; properties in `ObjectiveBounds` and
  `ObjectiveCountsMatches`.
- `MinMatches.SupplyBalanceRule` and `MinMatches.SupplyBalanced`
  (test_file.py:43-45): `Σ_c Σ_t q[h, s, c, t] == sigma[h, s]` for every `h`
  in `H` and `s` in `T`; properties in `SupplyBoundsFlows` and
  `TotalSupplyEqualsTotalDemand`.
- `MinMatches.DemandBalanceRule` and `MinMatches.DemandBalanced`
  (test_file.py:48-50): `Σ_h Σ_s q[h, s, c, t] == delta[c, t]` for every `c`
  in `C` and `t` in `T`; properties in `DemandBoundsFlows` and
  `TotalSupplyEqualsTotalDemand`.
- `MinMatches.BigMRule` and `MinMatches.BigMHolds` (test_file.py:53-55):
  `Σ_s Σ_t q[h, s, c, t] <= U[h, c] * y[h, c]` for every pair; properties in
  `BigMBoundsFlows` and `FlowForcesMatch`.
- `MinMatches.ZeroHeatRule` and `MinMatches.ZeroHeatHolds`
  (test_file.py:58-65): `q[h, s, c, t] == 0` when `T.index(s) > T.index(t)`,
  and `Skip` (`Constraint.Skip`) otherwise; properties in
  `ZeroHeatRuleByPosition`, `InflowFromPrefix` and `CascadeNonNegative`.
- `MinMatches.Feasible` (test_file.py:34-65): the conjunction of the two
  domains and the four constraint families; properties in `FlowForcesMatch`,
  `UnbalancedIsInfeasible` and `CascadeNonNegative`.

## Model

| member | source | states |
|---|---|---|
| `Streams.NewStream` | lib/classes/stream.py:11-14 | `Tin`, `Tout` and `FCp` are stored as given; the duty is non-negative and equals `|Tout - Tin| * |FCp|` |
| `Streams.HeatWithNonNegativeRate` | lib/classes/stream.py:14 | for `FCp >= 0` the duty is `|Tout - Tin| * FCp` |
| `Streams.HeatSwapSymmetric` | lib/classes/stream.py:14 | swapping inlet and outlet leaves the duty unchanged, so a hot and a cold stream over the same range and rate carry equal duty |
| `Streams.HeatZeroIff` | lib/classes/stream.py:14 | the duty is zero exactly when `Tin == Tout` or `FCp == 0` |
| `MinMatches.IndexOf` | test_file.py:59-60 | the position `T.index(x)` is a valid index holding `x`, and no earlier position holds `x` |
| `MinMatches.IndexOfDistinct` | test_file.py:59-60 | in a duplicate-free interval list, the interval at position `i` has index `i` |
| `MinMatches.ObjectiveBounds` | test_file.py:34-40 | with binary `y`, the objective lies between 0 and `|H| * |C|` |
| `MinMatches.ObjectiveCountsMatches` | test_file.py:38-40 | with binary `y` and duplicate-free `H` and `C`, the objective equals the number of pairs `(h, c)` with `y[h, c] = 1` |
| `MinMatches.SupplyBoundsFlows` | test_file.py:43-45 | when a supply balance holds and flows are non-negative, `sigma[h, s]` is non-negative and bounds every flow out of `(h, s)` |
| `MinMatches.DemandBoundsFlows` | test_file.py:48-50 | when a demand balance holds and flows are non-negative, `delta[c, t]` is non-negative and bounds every flow into `(c, t)` |
| `MinMatches.BigMBoundsFlows` | test_file.py:53-55 | when the Big-M constraint holds and flows are non-negative, every flow of the pair is at most `U[h, c] * y[h, c]`; with `y[h, c] = 0` all of them are zero |
| `MinMatches.FlowForcesMatch` | test_file.py:53-55 | in a feasible assignment, any non-zero flow between `h` and `c` forces `y[h, c] = 1` |
| `MinMatches.ZeroHeatRuleByPosition` | test_file.py:58-65 | characterises the rule in positions: for intervals at positions `i` and `j` of a duplicate-free `T`, the rule is skipped exactly when `i <= j`, and otherwise holds exactly when the flow is zero (its consequences are `InflowFromPrefix` and `CascadeNonNegative`) |
| `MinMatches.TotalSupplyEqualsTotalDemand` | test_file.py:43-50 | when all supply and demand balances hold, the sum of all `sigma` equals the sum of all `delta` |
| `MinMatches.UnbalancedIsInfeasible` | test_file.py:43-50 | an instance whose total supply differs from its total demand has no feasible assignment |
| `MinMatches.InflowFromPrefix` | test_file.py:57-65 | under the triangular rule, all heat reaching one of the first `k` intervals comes from the first `k` intervals |
| `MinMatches.CascadeNonNegative` | test_file.py:43-65 | in a feasible assignment, the cold demand in the first `k` intervals of `T` never exceeds the hot supply in those intervals |

## Left out

- `Process_Stream` is not part of this model: its code is not available. `Stream.__init__` passes `Tin` and `Tout` to `Process_Stream.__init__`; whatever that initialiser checks or derives is not modelled, and `NewStream` stores the temperatures as given.
- `Utility`, `Min_Utility_Problem.generate_from_data`, `solve_min_utility_instace` and `Network` are not part of this model. `H`, `C`, `T`, `sigma`, `delta` and `U` are inputs. How the interval grid, the supply and demand tables and `U` are built is not modelled.
- The Pyomo model assembly, the GLPK solver call and the printing of results are not modelled. They are library plumbing and output. The model checks a given assignment; it does not search for one, and it does not state that the objective is minimal. When `C` is empty the supply sum at test_file.py:44 is the integer 0, and when `H` is empty so is the demand sum at test_file.py:49; the rule then returns a plain boolean, which Pyomo refuses, so the program stops with an error. The model instead posts `Equal(0.0, sigma(h, s))` (or `Equal(0.0, delta(c, t))`), which holds exactly when that supply (or demand) is zero.
- Floating-point arithmetic is not modelled. Temperatures, duties and flows are Dafny `real`. `y` is a real restricted to 0 or 1, as the solver reports binary values.
- Pyomo index sets hold no repeated members. The model takes `H`, `C` and `T` as sequences and asks for them to be duplicate-free only where a lemma needs it (`T` for positions, `H` and `C` for counting matches).
