/**
 The minimum-number-of-matches transshipment model of heat-exchanger network
 synthesis. Hot streams `H` ship heat out of temperature intervals, cold
 streams `C` receive it in intervals `T`. The triangular rule forbids flow
 from a later position of `T` to an earlier one; if `T` lists the intervals
 hottest first, it forbids heat moving up the temperature scale. The model's variables are the match indicators
 `y[h, c]` and the flows `q[h, s, c, t]` (heat from hot stream `h` in interval
 `s` to cold stream `c` in interval `t`).

 The model is stated as a feasibility checker: the rule functions build the
 objective and each constraint for one index tuple, `Feasible` holds when
 every constraint instance is satisfied and the variables lie in their
 domains, and the lemmas state what any feasible assignment must satisfy.
 */
module MinMatches {
  import opened Sums

  /**
   The data the network builder provides: hot streams (utilities included),
   cold streams (utilities included), the ordered interval identifiers, the
   heat `sigma[h, t]` hot stream `h` gives up in interval `t`, the heat
   `delta[c, t]` cold stream `c` takes up in interval `t`, and the Big-M bound
   `U[h, c]` of each pair.
   */
  datatype Network<!Hot, !Cold, !Ivl> = Network(
    H: seq<Hot>,
    C: seq<Cold>,
    T: seq<Ivl>,
    sigma: (Hot, Ivl) -> real,
    delta: (Cold, Ivl) -> real,
    U: (Hot, Cold) -> real)

  /** A candidate value for the variables `y[h, c]` and `q[h, s, c, t]`. */
  datatype Assignment<!Hot, !Cold, !Ivl> = Assignment(
    y: (Hot, Cold) -> real,
    q: (Hot, Ivl, Cold, Ivl) -> real)

  /** A constraint as a rule returns it; `Skip` means no constraint is posted. */
  datatype Constraint = Equal(lhs: real, rhs: real) | AtMost(lhs: real, rhs: real) | Skip

  predicate Satisfied(k: Constraint) {
    match k
    case Equal(l, r) => l == r
    case AtMost(l, r) => l <= r
    case Skip => true
  }

  predicate Distinct<X(==)>(xs: seq<X>) {
    forall i, j :: 0 <= i < j < |xs| ==> xs[i] != xs[j]
  }

  /** The position of the first occurrence of `x`, as a list's `index` gives it. */
  function IndexOf<X(==)>(xs: seq<X>, x: X): (i: nat)
    requires x in xs
    ensures i < |xs| && xs[i] == x
    ensures forall j :: 0 <= j < i ==> xs[j] != x
  {
    if xs[0] == x then 0 else 1 + IndexOf(xs[1..], x)
  }

  /** In a sequence without repetitions, the element at `i` is found at `i`. */
  lemma IndexOfDistinct<X>(xs: seq<X>, i: nat)
    requires Distinct(xs) && i < |xs|
    ensures IndexOf(xs, xs[i]) == i
  {
  }

  // ---------------------------------------------------------------------
  // Variable domains

  /** Every `y[h, c]` is binary. */
  predicate YBinary<Hot(==), Cold(==), Ivl>(n: Network<Hot, Cold, Ivl>, a: Assignment<Hot, Cold, Ivl>) {
    forall h, c :: h in n.H && c in n.C ==> a.y(h, c) == 0.0 || a.y(h, c) == 1.0
  }

  /** Every `q[h, s, c, t]` is a non-negative real. */
  predicate QNonNegative<Hot(==), Cold(==), Ivl(==)>(n: Network<Hot, Cold, Ivl>, a: Assignment<Hot, Cold, Ivl>) {
    forall h, s, c, t :: h in n.H && s in n.T && c in n.C && t in n.T ==> 0.0 <= a.q(h, s, c, t)
  }

  // ---------------------------------------------------------------------
  // Rules: the objective and one constraint per index tuple

  /** The objective: the sum of `y[h, c]` over every hot and cold pair. */
  function MatchesMinRule<Hot, Cold, Ivl>(n: Network<Hot, Cold, Ivl>, a: Assignment<Hot, Cold, Ivl>): real {
    Sum(n.H, h => Sum(n.C, c => a.y(h, c)))
  }

  /** All heat leaving hot stream `h` in interval `s` equals its supply there. */
  function SupplyBalanceRule<Hot, Cold, Ivl>(n: Network<Hot, Cold, Ivl>, a: Assignment<Hot, Cold, Ivl>, h: Hot, s: Ivl): Constraint {
    Equal(Sum(n.C, c => Sum(n.T, t => a.q(h, s, c, t))), n.sigma(h, s))
  }

  /** All heat reaching cold stream `c` in interval `t` equals its demand there. */
  function DemandBalanceRule<Hot, Cold, Ivl>(n: Network<Hot, Cold, Ivl>, a: Assignment<Hot, Cold, Ivl>, c: Cold, t: Ivl): Constraint {
    Equal(Sum(n.H, h => Sum(n.T, s => a.q(h, s, c, t))), n.delta(c, t))
  }

  /** The heat exchanged by a pair is at most `U[h, c] * y[h, c]`. */
  function BigMRule<Hot, Cold, Ivl>(n: Network<Hot, Cold, Ivl>, a: Assignment<Hot, Cold, Ivl>, h: Hot, c: Cold): Constraint {
    AtMost(Sum(n.T, s => Sum(n.T, t => a.q(h, s, c, t))), n.U(h, c) * a.y(h, c))
  }

  /**
   No heat flows from an interval positioned after `t` in `T` to `t`;
   for every other pair of intervals the rule posts nothing.
   */
  function ZeroHeatRule<Hot, Cold, Ivl(==)>(n: Network<Hot, Cold, Ivl>, a: Assignment<Hot, Cold, Ivl>, h: Hot, c: Cold, s: Ivl, t: Ivl): Constraint
    requires s in n.T && t in n.T
  {
    if IndexOf(n.T, s) > IndexOf(n.T, t) then Equal(a.q(h, s, c, t), 0.0) else Skip
  }

  // ---------------------------------------------------------------------
  // Constraint families and feasibility

  predicate SupplyBalanced<Hot(==), Cold, Ivl(==)>(n: Network<Hot, Cold, Ivl>, a: Assignment<Hot, Cold, Ivl>) {
    forall h, s :: h in n.H && s in n.T ==> Satisfied(SupplyBalanceRule(n, a, h, s))
  }

  predicate DemandBalanced<Hot, Cold(==), Ivl(==)>(n: Network<Hot, Cold, Ivl>, a: Assignment<Hot, Cold, Ivl>) {
    forall c, t :: c in n.C && t in n.T ==> Satisfied(DemandBalanceRule(n, a, c, t))
  }

  predicate BigMHolds<Hot(==), Cold(==), Ivl>(n: Network<Hot, Cold, Ivl>, a: Assignment<Hot, Cold, Ivl>) {
    forall h, c :: h in n.H && c in n.C ==> Satisfied(BigMRule(n, a, h, c))
  }

  predicate ZeroHeatHolds<Hot(==), Cold(==), Ivl(==)>(n: Network<Hot, Cold, Ivl>, a: Assignment<Hot, Cold, Ivl>) {
    forall h, c, s, t :: h in n.H && c in n.C && s in n.T && t in n.T ==> Satisfied(ZeroHeatRule(n, a, h, c, s, t))
  }

  /** The assignment lies in the variable domains and meets every constraint. */
  predicate Feasible<Hot(==), Cold(==), Ivl(==)>(n: Network<Hot, Cold, Ivl>, a: Assignment<Hot, Cold, Ivl>) {
    && YBinary(n, a)
    && QNonNegative(n, a)
    && SupplyBalanced(n, a)
    && DemandBalanced(n, a)
    && BigMHolds(n, a)
    && ZeroHeatHolds(n, a)
  }

  /** The pairs `(h, c)` drawn from `hs` and `cs` that the assignment matches. */
  function Matches<Hot(==), Cold(==)>(hs: seq<Hot>, cs: seq<Cold>, y: (Hot, Cold) -> real): set<(Hot, Cold)> {
    set h, c | h in hs && c in cs && y(h, c) == 1.0 :: (h, c)
  }

  // ---------------------------------------------------------------------
  // The objective

  /** With binary `y`, the objective lies between 0 and `|H| * |C|`. */
  lemma ObjectiveBounds<Hot, Cold, Ivl>(n: Network<Hot, Cold, Ivl>, a: Assignment<Hot, Cold, Ivl>)
    requires YBinary(n, a)
    ensures 0.0 <= MatchesMinRule(n, a) <= |n.H| as real * |n.C| as real
  {
    forall h | h in n.H
      ensures 0.0 <= Sum(n.C, c => a.y(h, c)) <= |n.C| as real
    {
      SumNonNegative(n.C, c => a.y(h, c));
      SumAtMost(n.C, c => a.y(h, c), 1.0);
    }
    SumNonNegative(n.H, h => Sum(n.C, c => a.y(h, c)));
    SumAtMost(n.H, h => Sum(n.C, c => a.y(h, c)), |n.C| as real);
  }

  lemma {:induction false} RowCount<Hot, Cold>(h: Hot, cs: seq<Cold>, y: (Hot, Cold) -> real)
    requires Distinct(cs)
    requires forall c :: c in cs ==> y(h, c) == 0.0 || y(h, c) == 1.0
    ensures Sum(cs, c => y(h, c)) == |Matches([h], cs, y)| as real
    decreases |cs|
  {
    if cs == [] {
      assert Matches([h], cs, y) == {};
    } else {
      var rest := Matches([h], cs[1..], y);
      var head: set<(Hot, Cold)> := if y(h, cs[0]) == 1.0 then {(h, cs[0])} else {};
      assert Distinct(cs[1..]) by {
        forall i, j | 0 <= i < j < |cs[1..]| ensures cs[1..][i] != cs[1..][j] {
          assert cs[1..][i] == cs[i + 1] && cs[1..][j] == cs[j + 1];
        }
      }
      RowCount(h, cs[1..], y);
      assert Matches([h], cs, y) == head + rest;
      forall p | p in rest ensures p.1 != cs[0] {
        var j :| 0 <= j < |cs[1..]| && cs[1..][j] == p.1;
        assert cs[j + 1] == p.1;
      }
      assert head * rest == {};
    }
  }

  lemma {:induction false} GridCount<Hot, Cold>(hs: seq<Hot>, cs: seq<Cold>, y: (Hot, Cold) -> real)
    requires Distinct(hs) && Distinct(cs)
    requires forall h, c :: h in hs && c in cs ==> y(h, c) == 0.0 || y(h, c) == 1.0
    ensures Sum(hs, h => Sum(cs, c => y(h, c))) == |Matches(hs, cs, y)| as real
    decreases |hs|
  {
    if hs == [] {
      assert Matches(hs, cs, y) == {};
    } else {
      var row := Matches([hs[0]], cs, y);
      var rest := Matches(hs[1..], cs, y);
      assert Distinct(hs[1..]) by {
        forall i, j | 0 <= i < j < |hs[1..]| ensures hs[1..][i] != hs[1..][j] {
          assert hs[1..][i] == hs[i + 1] && hs[1..][j] == hs[j + 1];
        }
      }
      RowCount(hs[0], cs, y);
      GridCount(hs[1..], cs, y);
      assert Matches(hs, cs, y) == row + rest;
      forall p | p in rest ensures p.0 != hs[0] {
        var j :| 0 <= j < |hs[1..]| && hs[1..][j] == p.0;
        assert hs[j + 1] == p.0;
      }
      assert row * rest == {};
    }
  }

  /**
   With duplicate-free stream lists and binary `y`, the objective is the number
   of matched pairs `(h, c)`.
   */
  lemma ObjectiveCountsMatches<Hot, Cold, Ivl>(n: Network<Hot, Cold, Ivl>, a: Assignment<Hot, Cold, Ivl>)
    requires Distinct(n.H) && Distinct(n.C)
    requires YBinary(n, a)
    ensures MatchesMinRule(n, a) == |Matches(n.H, n.C, a.y)| as real
  {
    GridCount(n.H, n.C, a.y);
  }

  // ---------------------------------------------------------------------
  // Single constraints

  /**
   A satisfied supply balance with non-negative flows makes the supply
   non-negative and bounds every flow out of `(h, s)` by it.
   */
  lemma SupplyBoundsFlows<Hot, Cold, Ivl>(n: Network<Hot, Cold, Ivl>, a: Assignment<Hot, Cold, Ivl>, h: Hot, s: Ivl)
    requires QNonNegative(n, a) && h in n.H && s in n.T
    requires Satisfied(SupplyBalanceRule(n, a, h, s))
    ensures 0.0 <= n.sigma(h, s)
    ensures forall c, t :: c in n.C && t in n.T ==> a.q(h, s, c, t) <= n.sigma(h, s)
  {
    forall c | c in n.C ensures 0.0 <= Sum(n.T, t => a.q(h, s, c, t)) {
      SumNonNegative(n.T, t => a.q(h, s, c, t));
    }
    SumNonNegative(n.C, c => Sum(n.T, t => a.q(h, s, c, t)));
    forall c, t | c in n.C && t in n.T ensures a.q(h, s, c, t) <= n.sigma(h, s) {
      TermAtMostSum(n.T, t => a.q(h, s, c, t), t);
      TermAtMostSum(n.C, c => Sum(n.T, t => a.q(h, s, c, t)), c);
    }
  }

  /**
   A satisfied demand balance with non-negative flows makes the demand
   non-negative and bounds every flow into `(c, t)` by it.
   */
  lemma DemandBoundsFlows<Hot, Cold, Ivl>(n: Network<Hot, Cold, Ivl>, a: Assignment<Hot, Cold, Ivl>, c: Cold, t: Ivl)
    requires QNonNegative(n, a) && c in n.C && t in n.T
    requires Satisfied(DemandBalanceRule(n, a, c, t))
    ensures 0.0 <= n.delta(c, t)
    ensures forall h, s :: h in n.H && s in n.T ==> a.q(h, s, c, t) <= n.delta(c, t)
  {
    forall h | h in n.H ensures 0.0 <= Sum(n.T, s => a.q(h, s, c, t)) {
      SumNonNegative(n.T, s => a.q(h, s, c, t));
    }
    SumNonNegative(n.H, h => Sum(n.T, s => a.q(h, s, c, t)));
    forall h, s | h in n.H && s in n.T ensures a.q(h, s, c, t) <= n.delta(c, t) {
      TermAtMostSum(n.T, s => a.q(h, s, c, t), s);
      TermAtMostSum(n.H, h => Sum(n.T, s => a.q(h, s, c, t)), h);
    }
  }

  /**
   A satisfied Big-M constraint with non-negative flows bounds every flow of
   the pair by `U[h, c] * y[h, c]`; with `y[h, c] = 0` every such flow is zero.
   */
  lemma BigMBoundsFlows<Hot, Cold, Ivl>(n: Network<Hot, Cold, Ivl>, a: Assignment<Hot, Cold, Ivl>, h: Hot, c: Cold)
    requires QNonNegative(n, a) && h in n.H && c in n.C
    requires Satisfied(BigMRule(n, a, h, c))
    ensures forall s, t :: s in n.T && t in n.T ==> a.q(h, s, c, t) <= n.U(h, c) * a.y(h, c)
    ensures a.y(h, c) == 0.0 ==> forall s, t :: s in n.T && t in n.T ==> a.q(h, s, c, t) == 0.0
  {
    var bound := n.U(h, c) * a.y(h, c);
    var total := Sum(n.T, s => Sum(n.T, t => a.q(h, s, c, t)));
    assert total <= bound;
    forall s | s in n.T ensures 0.0 <= Sum(n.T, t => a.q(h, s, c, t)) {
      SumNonNegative(n.T, t => a.q(h, s, c, t));
    }
    forall s, t | s in n.T && t in n.T ensures a.q(h, s, c, t) <= total {
      TermAtMostSum(n.T, t => a.q(h, s, c, t), t);
      TermAtMostSum(n.T, s => Sum(n.T, t => a.q(h, s, c, t)), s);
    }
    assert a.y(h, c) == 0.0 ==> bound == 0.0;
  }


  /**
   In a feasible assignment, any heat flowing between a pair forces the pair
   to be matched.
   */
  lemma FlowForcesMatch<Hot, Cold, Ivl>(n: Network<Hot, Cold, Ivl>, a: Assignment<Hot, Cold, Ivl>, h: Hot, s: Ivl, c: Cold, t: Ivl)
    requires Feasible(n, a)
    requires h in n.H && s in n.T && c in n.C && t in n.T
    requires a.q(h, s, c, t) != 0.0
    ensures a.y(h, c) == 1.0
  {
    assert Satisfied(BigMRule(n, a, h, c));
    BigMBoundsFlows(n, a, h, c);
  }

  /**
   With duplicate-free intervals, the triangular rule for the intervals at
   positions `i` and `j` posts a constraint exactly when `i > j`, and that
   constraint fixes the flow to zero.
   */
  lemma ZeroHeatRuleByPosition<Hot, Cold, Ivl>(n: Network<Hot, Cold, Ivl>, a: Assignment<Hot, Cold, Ivl>, h: Hot, c: Cold, i: nat, j: nat)
    requires Distinct(n.T) && i < |n.T| && j < |n.T|
    ensures ZeroHeatRule(n, a, h, c, n.T[i], n.T[j]).Skip? <==> i <= j
    ensures i > j ==> (Satisfied(ZeroHeatRule(n, a, h, c, n.T[i], n.T[j])) <==> a.q(h, n.T[i], c, n.T[j]) == 0.0)
  {
  }

  // ---------------------------------------------------------------------
  // Consequences of feasibility

  /**
   Summing the supply balances and the demand balances counts every flow once
   each way, so total supply must equal total demand.
   */
  lemma TotalSupplyEqualsTotalDemand<Hot, Cold, Ivl>(n: Network<Hot, Cold, Ivl>, a: Assignment<Hot, Cold, Ivl>)
    requires SupplyBalanced(n, a) && DemandBalanced(n, a)
    ensures Sum(n.H, h => Sum(n.T, s => n.sigma(h, s))) == Sum(n.C, c => Sum(n.T, t => n.delta(c, t)))
  {
    forall h | h in n.H
      ensures Sum(n.T, s => n.sigma(h, s)) == Sum(n.T, s => Sum(n.C, c => Sum(n.T, t => a.q(h, s, c, t))))
    {
      assert forall s :: s in n.T ==> Satisfied(SupplyBalanceRule(n, a, h, s));
      SumCongruence(n.T, s => n.sigma(h, s), s => Sum(n.C, c => Sum(n.T, t => a.q(h, s, c, t))));
    }
    SumCongruence(n.H, h => Sum(n.T, s => n.sigma(h, s)),
                       h => Sum(n.T, s => Sum(n.C, c => Sum(n.T, t => a.q(h, s, c, t)))));
    Exchange(n.H, n.T, n.C, n.T, a.q);
    forall c | c in n.C
      ensures Sum(n.T, t => n.delta(c, t)) == Sum(n.T, t => Sum(n.H, h => Sum(n.T, s => a.q(h, s, c, t))))
    {
      assert forall t :: t in n.T ==> Satisfied(DemandBalanceRule(n, a, c, t));
      SumCongruence(n.T, t => n.delta(c, t), t => Sum(n.H, h => Sum(n.T, s => a.q(h, s, c, t))));
    }
    SumCongruence(n.C, c => Sum(n.T, t => n.delta(c, t)),
                       c => Sum(n.T, t => Sum(n.H, h => Sum(n.T, s => a.q(h, s, c, t)))));
  }

  /** An instance whose total supply differs from its total demand has no feasible assignment. */
  lemma UnbalancedIsInfeasible<Hot, Cold, Ivl>(n: Network<Hot, Cold, Ivl>, a: Assignment<Hot, Cold, Ivl>)
    requires Sum(n.H, h => Sum(n.T, s => n.sigma(h, s))) != Sum(n.C, c => Sum(n.T, t => n.delta(c, t)))
    ensures !Feasible(n, a)
  {
    if Feasible(n, a) {
      TotalSupplyEqualsTotalDemand(n, a);
    }
  }

  /**
   Under the triangular rule, the heat cold stream `c` receives from hot
   stream `h` in one of the first `k` intervals comes from the first `k`
   intervals only.
   */
  lemma InflowFromPrefix<Hot, Cold, Ivl>(n: Network<Hot, Cold, Ivl>, a: Assignment<Hot, Cold, Ivl>, k: nat, h: Hot, c: Cold, t: Ivl)
    requires ZeroHeatHolds(n, a) && Distinct(n.T)
    requires k <= |n.T| && h in n.H && c in n.C && t in n.T[..k]
    ensures Sum(n.T, s => a.q(h, s, c, t)) == Sum(n.T[..k], s => a.q(h, s, c, t))
  {
    var j :| 0 <= j < k && n.T[..k][j] == t;
    IndexOfDistinct(n.T, j);
    assert n.T == n.T[..k] + n.T[k..];
    SumAppend(n.T[..k], n.T[k..], s => a.q(h, s, c, t));
    forall s | s in n.T[k..] ensures a.q(h, s, c, t) == 0.0 {
      var m :| 0 <= m < |n.T[k..]| && n.T[k..][m] == s;
      IndexOfDistinct(n.T, k + m);
      assert Satisfied(ZeroHeatRule(n, a, h, c, s, t));
    }
    SumOfZeros(n.T[k..], s => a.q(h, s, c, t));
  }

  /**
   The heat-cascade condition: in a feasible assignment, the demand of all
   cold streams in the first `k` intervals of `T` (the hottest ones, when `T`
   lists intervals hottest first) never exceeds the supply of all
   hot streams in those intervals.
   */
  lemma CascadeNonNegative<Hot, Cold, Ivl>(n: Network<Hot, Cold, Ivl>, a: Assignment<Hot, Cold, Ivl>, k: nat)
    requires Feasible(n, a) && Distinct(n.T) && k <= |n.T|
    ensures Sum(n.C, c => Sum(n.T[..k], t => n.delta(c, t))) <= Sum(n.H, h => Sum(n.T[..k], s => n.sigma(h, s)))
  {
    var P := n.T[..k];
    // demand in the prefix is the inflow from the prefix
    forall c | c in n.C
      ensures Sum(P, t => n.delta(c, t)) == Sum(P, t => Sum(n.H, h => Sum(P, s => a.q(h, s, c, t))))
    {
      forall t | t in P
        ensures n.delta(c, t) == Sum(n.H, h => Sum(P, s => a.q(h, s, c, t)))
      {
        assert Satisfied(DemandBalanceRule(n, a, c, t));
        forall h | h in n.H ensures Sum(n.T, s => a.q(h, s, c, t)) == Sum(P, s => a.q(h, s, c, t)) {
          InflowFromPrefix(n, a, k, h, c, t);
        }
        SumCongruence(n.H, h => Sum(n.T, s => a.q(h, s, c, t)), h => Sum(P, s => a.q(h, s, c, t)));
      }
      SumCongruence(P, t => n.delta(c, t), t => Sum(n.H, h => Sum(P, s => a.q(h, s, c, t))));
    }
    SumCongruence(n.C, c => Sum(P, t => n.delta(c, t)),
                       c => Sum(P, t => Sum(n.H, h => Sum(P, s => a.q(h, s, c, t)))));
    Exchange(n.H, P, n.C, P, a.q);
    // outflow towards the prefix is at most the supply of the prefix
    forall h | h in n.H
      ensures Sum(P, s => Sum(n.C, c => Sum(P, t => a.q(h, s, c, t)))) <= Sum(P, s => n.sigma(h, s))
    {
      forall s | s in P
        ensures Sum(n.C, c => Sum(P, t => a.q(h, s, c, t))) <= n.sigma(h, s)
      {
        assert Satisfied(SupplyBalanceRule(n, a, h, s));
        forall c | c in n.C ensures Sum(P, t => a.q(h, s, c, t)) <= Sum(n.T, t => a.q(h, s, c, t)) {
          PrefixAtMostSum(n.T, t => a.q(h, s, c, t), k);
        }
        SumMonotone(n.C, c => Sum(P, t => a.q(h, s, c, t)), c => Sum(n.T, t => a.q(h, s, c, t)));
      }
      SumMonotone(P, s => Sum(n.C, c => Sum(P, t => a.q(h, s, c, t))), s => n.sigma(h, s));
    }
    SumMonotone(n.H, h => Sum(P, s => Sum(n.C, c => Sum(P, t => a.q(h, s, c, t)))),
                     h => Sum(P, s => n.sigma(h, s)));
  }
}
