/** The lattice value is the value of the best exercise strategy: an independent
    definition over whole price paths, and the proof that backward induction meets it. */
module Stopping {
  import opened Lattice

  /** The moves so far, oldest first; `true` is an up move. */
  type Path = seq<bool>

  /** An exercise rule may look at the whole path, not only at the current spot. */
  type Rule = Path -> bool

  function SpotAfter(tree: Tree, x0: real, path: Path): real
    requires tree.Valid()
  {
    if path == [] then x0
    else
      var before := SpotAfter(tree, x0, path[..|path| - 1]);
      if path[|path| - 1] then tree.Up(before) else tree.Dn(before)
  }

  /** Amount received on exercising at the end of `path`, in today's money. */
  function Discounted(tree: Tree, k: nat, amount: real): real
    requires tree.Valid()
  {
    Pow(tree.disc, k) * amount
  }

  /** What `rule` collects on a complete path: it exercises at the first prefix (of
      length `k` or more) it accepts, and gets nothing when it accepts none. */
  function CashFlow(tree: Tree, c: Contract, x0: real, rule: Rule, path: Path, k: nat): real
    requires tree.Valid() && k <= |path|
    decreases |path| - k
  {
    if rule(path[..k]) then Discounted(tree, k, Payoff(c, SpotAfter(tree, x0, path[..k])))
    else if k == |path| then 0.0
    else CashFlow(tree, c, x0, rule, path, k + 1)
  }

  /** Expectation of the cash flow over the 2^m complete paths that extend `prefix` by `m` moves. */
  function Expected(tree: Tree, c: Contract, x0: real, rule: Rule, prefix: Path, m: nat): real
    requires tree.Valid()
    decreases m
  {
    if m == 0 then CashFlow(tree, c, x0, rule, prefix, 0)
    else Mean(tree, Expected(tree, c, x0, rule, prefix + [false], m - 1),
                    Expected(tree, c, x0, rule, prefix + [true], m - 1))
  }

  ghost predicate Alive(rule: Rule, path: Path) {
    forall j :: 0 <= j < |path| ==> !rule(path[..j])
  }

  /** Exercise as soon as the payoff is at least the value of waiting, and at expiry. */
  function Greedy(tree: Tree, c: Contract, x0: real, n: nat): Rule
    requires tree.Valid()
  {
    (path: Path) =>
      n <= |path| ||
      var x := SpotAfter(tree, x0, path);
      Payoff(c, x) >= Continuation(tree, Value(tree, c, n - |path| - 1, tree.Dn(x)), Value(tree, c, n - |path| - 1, tree.Up(x)))
  }

  // ----- arithmetic of discounting and averaging -----

  lemma DiscountedMonotone(tree: Tree, k: nat, a: real, b: real)
    requires tree.Valid() && a <= b
    ensures Discounted(tree, k, a) <= Discounted(tree, k, b)
  {
    assert Pow(tree.disc, k) * (b - a) >= 0.0;
  }

  /** Discounting one more step and averaging is discounting the continuation value. */
  lemma DiscountedMean(tree: Tree, k: nat, lo: real, hi: real)
    requires tree.Valid()
    ensures Mean(tree, Discounted(tree, k + 1, lo), Discounted(tree, k + 1, hi))
         == Discounted(tree, k, Continuation(tree, lo, hi))
  {
    PowNext(tree.disc, k);
    var w, p, disc := Pow(tree.disc, k), tree.p, tree.disc;
    calc {
      (1.0 - p) * ((w * disc) * lo) + p * ((w * disc) * hi);
      (w * disc) * ((1.0 - p) * lo + p * hi);
      w * (disc * ((1.0 - p) * lo + p * hi));
    }
  }

  // ----- one path prefix -----

  lemma {:induction false} CashFlowFrom(tree: Tree, c: Contract, x0: real, rule: Rule, path: Path, j: nat, k: nat)
    requires tree.Valid() && j <= k <= |path|
    requires forall i :: j <= i < k ==> !rule(path[..i])
    ensures CashFlow(tree, c, x0, rule, path, j) == CashFlow(tree, c, x0, rule, path, k)
    decreases k - j
  {
    if j < k {
      CashFlowFrom(tree, c, x0, rule, path, j + 1, k);
    }
  }

  lemma MeanOfSame(tree: Tree, a: real)
    ensures Mean(tree, a, a) == a
  {
    assert (1.0 - tree.p) * a + tree.p * a == a;
  }

  /** Once a prefix is accepted for the first time, what follows no longer matters. */
  lemma {:induction false} ExercisedNow(tree: Tree, c: Contract, x0: real, rule: Rule, prefix: Path, path: Path, m: nat)
    requires tree.Valid() && prefix <= path && Alive(rule, prefix) && rule(prefix)
    ensures Expected(tree, c, x0, rule, path, m)
         == Discounted(tree, |prefix|, Payoff(c, SpotAfter(tree, x0, prefix)))
    decreases m
  {
    hide Discounted, SpotAfter, Payoff, Mean;
    if m == 0 {
      assert path[..|prefix|] == prefix;
      assert forall i :: 0 <= i < |prefix| ==> path[..i] == prefix[..i];
      CashFlowFrom(tree, c, x0, rule, path, 0, |prefix|);
    } else {
      ExercisedNow(tree, c, x0, rule, prefix, path + [false], m - 1);
      ExercisedNow(tree, c, x0, rule, prefix, path + [true], m - 1);
      MeanOfSame(tree, Discounted(tree, |prefix|, Payoff(c, SpotAfter(tree, x0, prefix))));
    }
  }

  lemma AliveStep(rule: Rule, prefix: Path, move: bool)
    requires Alive(rule, prefix) && !rule(prefix)
    ensures Alive(rule, prefix + [move])
  {
    assert forall j :: 0 <= j < |prefix| ==> (prefix + [move])[..j] == prefix[..j];
    assert (prefix + [move])[..|prefix|] == prefix;
  }

  lemma SpotStep(tree: Tree, x0: real, prefix: Path)
    requires tree.Valid()
    ensures SpotAfter(tree, x0, prefix + [false]) == tree.Dn(SpotAfter(tree, x0, prefix))
    ensures SpotAfter(tree, x0, prefix + [true]) == tree.Up(SpotAfter(tree, x0, prefix))
  {
    assert forall b :: (prefix + [b])[..|prefix|] == prefix;
  }

  /** What waiting one step at an unexercised prefix is worth, for values `lo` and `hi` of the two branches. */
  lemma Waiting(tree: Tree, c: Contract, x0: real, rule: Rule, prefix: Path, m: nat, lo: real, hi: real)
    requires tree.Valid() && m > 0
    requires Expected(tree, c, x0, rule, prefix + [false], m - 1) <= Discounted(tree, |prefix| + 1, lo)
    requires Expected(tree, c, x0, rule, prefix + [true], m - 1) <= Discounted(tree, |prefix| + 1, hi)
    ensures Expected(tree, c, x0, rule, prefix, m) <= Discounted(tree, |prefix|, Continuation(tree, lo, hi))
  {
    MeanMonotone(tree, Expected(tree, c, x0, rule, prefix + [false], m - 1),
                       Expected(tree, c, x0, rule, prefix + [true], m - 1),
                       Discounted(tree, |prefix| + 1, lo), Discounted(tree, |prefix| + 1, hi));
    DiscountedMean(tree, |prefix|, lo, hi);
  }

  /** At a prefix that has not been exercised, no rule is worth more than the lattice value there. */
  lemma {:induction false} RuleAtPrefix(tree: Tree, c: Contract, x0: real, rule: Rule, prefix: Path, m: nat)
    requires tree.Valid() && Alive(rule, prefix)
    ensures Expected(tree, c, x0, rule, prefix, m)
         <= Discounted(tree, |prefix|, Value(tree, c, m, SpotAfter(tree, x0, prefix)))
    decreases m
  {
    var x, k := SpotAfter(tree, x0, prefix), |prefix|;
    if rule(prefix) {
      ExercisedNow(tree, c, x0, rule, prefix, prefix, m);
      DiscountedMonotone(tree, k, Payoff(c, x), Value(tree, c, m, x));
    } else if m == 0 {
      CashFlowFrom(tree, c, x0, rule, prefix, 0, k);
      assert prefix[..k] == prefix;
      DiscountedMonotone(tree, k, 0.0, Payoff(c, x));
    } else {
      AliveStep(rule, prefix, false);
      AliveStep(rule, prefix, true);
      SpotStep(tree, x0, prefix);
      RuleAtPrefix(tree, c, x0, rule, prefix + [false], m - 1);
      RuleAtPrefix(tree, c, x0, rule, prefix + [true], m - 1);
      var lo, hi := Value(tree, c, m - 1, tree.Dn(x)), Value(tree, c, m - 1, tree.Up(x));
      Waiting(tree, c, x0, rule, prefix, m, lo, hi);
      DiscountedMonotone(tree, k, Continuation(tree, lo, hi), Value(tree, c, m, x));
    }
  }

  /** The greedy rule accepts a prefix exactly when exercising attains the node's value;
      otherwise waiting does. */
  lemma GreedyDecision(tree: Tree, c: Contract, x0: real, prefix: Path, m: nat)
    requires tree.Valid()
    ensures var x := SpotAfter(tree, x0, prefix);
            var accepted := Greedy(tree, c, x0, |prefix| + m)(prefix);
            if accepted then Value(tree, c, m, x) == Payoff(c, x)
            else m > 0 && Value(tree, c, m, x) == Continuation(tree, Value(tree, c, m - 1, tree.Dn(x)), Value(tree, c, m - 1, tree.Up(x)))
  {
  }

  /** At an unexercised prefix the greedy rule is worth exactly the lattice value. */
  lemma {:induction false} GreedyAtPrefix(tree: Tree, c: Contract, x0: real, rule: Rule, prefix: Path, m: nat)
    requires tree.Valid() && rule == Greedy(tree, c, x0, |prefix| + m) && Alive(rule, prefix)
    ensures Expected(tree, c, x0, rule, prefix, m)
         == Discounted(tree, |prefix|, Value(tree, c, m, SpotAfter(tree, x0, prefix)))
    decreases m
  {
    GreedyDecision(tree, c, x0, prefix, m);
    if rule(prefix) {
      ExercisedNow(tree, c, x0, rule, prefix, prefix, m);
    } else {
      AliveStep(rule, prefix, false);
      AliveStep(rule, prefix, true);
      SpotStep(tree, x0, prefix);
      GreedyAtPrefix(tree, c, x0, rule, prefix + [false], m - 1);
      GreedyAtPrefix(tree, c, x0, rule, prefix + [true], m - 1);
      var x := SpotAfter(tree, x0, prefix);
      DiscountedMean(tree, |prefix|, Value(tree, c, m - 1, tree.Dn(x)), Value(tree, c, m - 1, tree.Up(x)));
    }
  }

  // ----- main results -----

  /** No exercise rule, however it uses the path, beats the lattice. */
  lemma NoRuleBeatsTheLattice(tree: Tree, c: Contract, n: nat, spot: real, rule: Rule)
    requires tree.Valid()
    ensures Expected(tree, c, spot, rule, [], n) <= Value(tree, c, n, spot)
  {
    RuleAtPrefix(tree, c, spot, rule, [], n);
  }

  /** The greedy rule collects the lattice value. */
  lemma GreedyAttainsTheLattice(tree: Tree, c: Contract, n: nat, spot: real)
    requires tree.Valid()
    ensures Expected(tree, c, spot, Greedy(tree, c, spot, n), [], n) == Value(tree, c, n, spot)
  {
    GreedyAtPrefix(tree, c, spot, Greedy(tree, c, spot, n), [], n);
  }
}
