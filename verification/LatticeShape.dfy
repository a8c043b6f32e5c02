/** How the lattice value depends on spot: monotone, convex, never steeper than the
    stock, and when early exercise is worth nothing. */
module LatticeShape {
  import opened Reals
  import opened Lattice

  // ----- the tree's own growth -----

  /** Expected factor of one step under the tree's probability. */
  function Growth(tree: Tree): real
    requires tree.Valid()
  {
    Mean(tree, tree.Dn(1.0), tree.Up(1.0))
  }

  /** Growth net of discounting: the discounted stock grows by this factor each step.
      It is at most one exactly when the dividend yield is not negative. */
  function Carry(tree: Tree): (r: real)
    requires tree.Valid()
    ensures 0.0 < r
  {
    GrowthPositive(tree);
    tree.disc * Growth(tree)
  }

  lemma GrowthPositive(tree: Tree)
    requires tree.Valid()
    ensures 0.0 < Growth(tree)
  {
    var d := tree.Dn(1.0);
    assert d * tree.u == 1.0;
    assert 0.0 < d;
    MulNonNegative(1.0 - tree.p, d);
    assert Growth(tree) == (1.0 - tree.p) * d + tree.p * tree.u;
    if tree.p == 0.0 {
      assert Growth(tree) == d;
    } else {
      assert tree.p * tree.u > 0.0;
    }
  }

  /** The probability the code derives reproduces the growth it was derived from. */
  lemma ImpliedProbabilityIsRiskNeutral(mk: Market)
    requires mk.Valid() && mk.ToTree().Valid()
    ensures Growth(mk.ToTree()) == mk.growth
  {
    var d, u, g := 1.0 / mk.u, mk.u, mk.growth;
    var p := (g - d) / (u - d);
    assert p * (u - d) == g - d;
    calc {
      (1.0 - p) * d + p * u;
      d + p * (u - d);
      g;
    }
  }

  lemma MeanOfMoves(tree: Tree, x: real)
    requires tree.Valid()
    ensures Continuation(tree, tree.Dn(x), tree.Up(x)) == Carry(tree) * x
  {
    var p, u, d := tree.p, tree.u, 1.0 / tree.u;
    assert x / u == x * d;
    calc {
      (1.0 - p) * (x * d) + p * (x * u);
      ((1.0 - p) * d + p * u) * x;
    }
    assert tree.disc * (Growth(tree) * x) == (tree.disc * Growth(tree)) * x;
  }

  lemma MovesMonotone(tree: Tree, x: real, y: real)
    requires tree.Valid() && x <= y
    ensures tree.Up(x) <= tree.Up(y) && tree.Dn(x) <= tree.Dn(y)
    ensures tree.Up(y) - tree.Up(x) == tree.Up(y - x) && tree.Dn(y) - tree.Dn(x) == tree.Dn(y - x)
  {
    var d := 1.0 / tree.u;
    assert (y - x) * tree.u >= 0.0;
    assert (y - x) * d >= 0.0;
    assert x / tree.u == x * d && y / tree.u == y * d && (y - x) / tree.u == (y - x) * d;
  }

  lemma ContinuationDifference(tree: Tree, a: real, b: real, a': real, b': real)
    requires tree.Valid()
    ensures Continuation(tree, a', b') - Continuation(tree, a, b) == Continuation(tree, a' - a, b' - b)
  {
    var p := tree.p;
    assert (1.0 - p) * (a' - a) + p * (b' - b) == ((1.0 - p) * a' + p * b') - ((1.0 - p) * a + p * b);
    assert tree.disc * (Mean(tree, a', b') - Mean(tree, a, b)) == tree.disc * Mean(tree, a', b') - tree.disc * Mean(tree, a, b);
  }

  // ----- slope in spot -----

  /** A call never loses and a put never gains when the spot rises. */
  lemma {:induction false} MonotoneInSpot(tree: Tree, c: Contract, n: nat, x: real, y: real)
    requires tree.Valid() && x <= y
    ensures c.kind.Call? ==> Value(tree, c, n, x) <= Value(tree, c, n, y)
    ensures c.kind.Put? ==> Value(tree, c, n, y) <= Value(tree, c, n, x)
  {
    if n > 0 {
      MovesMonotone(tree, x, y);
      MonotoneInSpot(tree, c, n - 1, tree.Dn(x), tree.Dn(y));
      MonotoneInSpot(tree, c, n - 1, tree.Up(x), tree.Up(y));
      var a, b := Value(tree, c, n - 1, tree.Dn(x)), Value(tree, c, n - 1, tree.Up(x));
      var a', b' := Value(tree, c, n - 1, tree.Dn(y)), Value(tree, c, n - 1, tree.Up(y));
      if c.kind.Call? {
        ContinuationMonotone(tree, a, b, a', b');
      } else {
        ContinuationMonotone(tree, a', b', a, b);
      }
    }
  }

  lemma ContinuationRise(tree: Tree, a: real, b: real, a': real, b': real, h: real)
    requires tree.Valid() && Carry(tree) <= 1.0 && 0.0 <= h
    requires a' - a <= tree.Dn(h) && b' - b <= tree.Up(h)
    ensures Continuation(tree, a', b') - Continuation(tree, a, b) <= h
  {
    hide Continuation, Carry;
    ContinuationDifference(tree, a, b, a', b');
    ContinuationMonotone(tree, a' - a, b' - b, tree.Dn(h), tree.Up(h));
    MeanOfMoves(tree, h);
    MulNonNegative(1.0 - Carry(tree), h);
  }

  /** With a non-negative dividend yield the option never moves more than the stock. */
  lemma {:induction false} NeverSteeperThanStock(tree: Tree, c: Contract, n: nat, x: real, y: real)
    requires tree.Valid() && Carry(tree) <= 1.0 && x <= y
    ensures -(y - x) <= Value(tree, c, n, y) - Value(tree, c, n, x) <= y - x
  {
    if n > 0 {
      MovesMonotone(tree, x, y);
      NeverSteeperThanStock(tree, c, n - 1, tree.Dn(x), tree.Dn(y));
      NeverSteeperThanStock(tree, c, n - 1, tree.Up(x), tree.Up(y));
      var a, b := Value(tree, c, n - 1, tree.Dn(x)), Value(tree, c, n - 1, tree.Up(x));
      var a', b' := Value(tree, c, n - 1, tree.Dn(y)), Value(tree, c, n - 1, tree.Up(y));
      hide *;
      ContinuationRise(tree, a, b, a', b', y - x);
      ContinuationRise(tree, a', b', a, b, y - x);
      ValueRise(tree, c, n, x, y);
    }
  }

  /** The exercise maximum moves no more than continuation and payoff do. */
  lemma ValueRise(tree: Tree, c: Contract, n: nat, x: real, y: real)
    requires tree.Valid() && n > 0 && x <= y
    requires var up, dn := Continuation(tree, Value(tree, c, n - 1, tree.Dn(y)), Value(tree, c, n - 1, tree.Up(y))),
                           Continuation(tree, Value(tree, c, n - 1, tree.Dn(x)), Value(tree, c, n - 1, tree.Up(x)));
             -(y - x) <= up - dn <= y - x
    ensures -(y - x) <= Value(tree, c, n, y) - Value(tree, c, n, x) <= y - x
  {
    hide Continuation;
  }

  // ----- convexity -----

  function Blend(t: real, a: real, b: real): real {
    t * a + (1.0 - t) * b
  }

  lemma BlendMonotone(t: real, a: real, b: real, a': real, b': real)
    requires 0.0 <= t <= 1.0 && a <= a' && b <= b'
    ensures Blend(t, a, b) <= Blend(t, a', b')
  {
    assert t * (a' - a) >= 0.0;
    assert (1.0 - t) * (b' - b) >= 0.0;
  }

  lemma MovesOfBlend(tree: Tree, t: real, x: real, y: real)
    requires tree.Valid()
    ensures tree.Up(Blend(t, x, y)) == Blend(t, tree.Up(x), tree.Up(y))
    ensures tree.Dn(Blend(t, x, y)) == Blend(t, tree.Dn(x), tree.Dn(y))
  {
    var u, d := tree.u, 1.0 / tree.u;
    assert (t * x + (1.0 - t) * y) * u == t * (x * u) + (1.0 - t) * (y * u);
    assert (t * x + (1.0 - t) * y) * d == t * (x * d) + (1.0 - t) * (y * d);
    assert x / u == x * d && y / u == y * d && Blend(t, x, y) / u == Blend(t, x, y) * d;
  }

  lemma ContinuationOfBlend(tree: Tree, t: real, a: real, b: real, a': real, b': real)
    requires tree.Valid()
    ensures Continuation(tree, Blend(t, a, a'), Blend(t, b, b'))
         == Blend(t, Continuation(tree, a, b), Continuation(tree, a', b'))
  {
    var p, disc := tree.p, tree.disc;
    calc {
      (1.0 - p) * (t * a + (1.0 - t) * a') + p * (t * b + (1.0 - t) * b');
      t * ((1.0 - p) * a + p * b) + (1.0 - t) * ((1.0 - p) * a' + p * b');
    }
    var m, m' := Mean(tree, a, b), Mean(tree, a', b');
    assert disc * (t * m + (1.0 - t) * m') == t * (disc * m) + (1.0 - t) * (disc * m');
  }

  lemma PayoffConvex(c: Contract, t: real, x: real, y: real)
    requires 0.0 <= t <= 1.0
    ensures Payoff(c, Blend(t, x, y)) <= Blend(t, Payoff(c, x), Payoff(c, y))
  {
    var k := c.strike;
    BlendMonotone(t, 0.0, 0.0, Payoff(c, x), Payoff(c, y));
    assert Blend(t, 0.0, 0.0) == 0.0;
    if c.kind.Call? {
      BlendMonotone(t, x - k, y - k, Payoff(c, x), Payoff(c, y));
      assert t * (x - k) + (1.0 - t) * (y - k) == (t * x + (1.0 - t) * y) - k;
    } else {
      BlendMonotone(t, k - x, k - y, Payoff(c, x), Payoff(c, y));
      assert t * (k - x) == t * k - t * x;
      assert (1.0 - t) * (k - y) == (1.0 - t) * k - (1.0 - t) * y;
      assert Blend(t, k - x, k - y) == k - Blend(t, x, y);
    }
  }

  /** The lattice value is convex in spot. */
  lemma {:induction false} ConvexInSpot(tree: Tree, c: Contract, n: nat, t: real, x: real, y: real)
    requires tree.Valid() && 0.0 <= t <= 1.0
    ensures Value(tree, c, n, Blend(t, x, y)) <= Blend(t, Value(tree, c, n, x), Value(tree, c, n, y))
  {
    PayoffConvex(c, t, x, y);
    if n > 0 {
      MovesOfBlend(tree, t, x, y);
      ConvexInSpot(tree, c, n - 1, t, tree.Dn(x), tree.Dn(y));
      ConvexInSpot(tree, c, n - 1, t, tree.Up(x), tree.Up(y));
      var a, b := Value(tree, c, n - 1, tree.Dn(x)), Value(tree, c, n - 1, tree.Up(x));
      var a', b' := Value(tree, c, n - 1, tree.Dn(y)), Value(tree, c, n - 1, tree.Up(y));
      var z := Blend(t, x, y);
      ContinuationMonotone(tree, Value(tree, c, n - 1, tree.Dn(z)), Value(tree, c, n - 1, tree.Up(z)), Blend(t, a, a'), Blend(t, b, b'));
      ContinuationOfBlend(tree, t, a, b, a', b');
      BlendMonotone(t, Continuation(tree, a, b), Continuation(tree, a', b'), Value(tree, c, n, x), Value(tree, c, n, y));
      BlendMonotone(t, Payoff(c, x), Payoff(c, y), Value(tree, c, n, x), Value(tree, c, n, y));
    }
  }

  // ----- early exercise -----

  /** The same lattice without the right to exercise early. */
  function EuropeanValue(tree: Tree, c: Contract, n: nat, x: real): real
    requires tree.Valid()
  {
    if n == 0 then Payoff(c, x)
    else Continuation(tree, EuropeanValue(tree, c, n - 1, tree.Dn(x)), EuropeanValue(tree, c, n - 1, tree.Up(x)))
  }

  /** Early exercise never costs anything, and the holder can always exercise now. */
  lemma {:induction false} AmericanDominates(tree: Tree, c: Contract, n: nat, x: real)
    requires tree.Valid()
    ensures EuropeanValue(tree, c, n, x) <= Value(tree, c, n, x)
    ensures Payoff(c, x) <= Value(tree, c, n, x)
  {
    if n > 0 {
      AmericanDominates(tree, c, n - 1, tree.Dn(x));
      AmericanDominates(tree, c, n - 1, tree.Up(x));
      ContinuationMonotone(tree, EuropeanValue(tree, c, n - 1, tree.Dn(x)), EuropeanValue(tree, c, n - 1, tree.Up(x)),
                           Value(tree, c, n - 1, tree.Dn(x)), Value(tree, c, n - 1, tree.Up(x)));
    }
  }

  /** Value of receiving the stock and paying the strike `n` steps from now, for certain. */
  function Forward(tree: Tree, strike: real, n: nat, x: real): real
    requires tree.Valid()
  {
    Pow(Carry(tree), n) * x - Pow(tree.disc, n) * strike
  }

  lemma ForwardStep(tree: Tree, strike: real, n: nat, x: real)
    requires tree.Valid()
    ensures Continuation(tree, Forward(tree, strike, n, tree.Dn(x)), Forward(tree, strike, n, tree.Up(x)))
         == Forward(tree, strike, n + 1, x)
  {
    var cw, dw := Pow(Carry(tree), n), Pow(tree.disc, n);
    var lo, hi := tree.Dn(x), tree.Up(x);
    var m := Mean(tree, lo, hi);
    MeanOfScaled(tree.p, cw, dw * strike, lo, hi);
    MeanOfMoves(tree, x);
    Regroup(tree.disc, cw, m, dw, strike);
    assert cw * (Carry(tree) * x) == (Carry(tree) * cw) * x;
    assert Pow(Carry(tree), n + 1) == Carry(tree) * cw && Pow(tree.disc, n + 1) == tree.disc * dw;
  }

  lemma MeanOfScaled(p: real, scale: real, owed: real, lo: real, hi: real)
    ensures (1.0 - p) * (scale * lo - owed) + p * (scale * hi - owed) == scale * ((1.0 - p) * lo + p * hi) - owed
  {
    calc {
      (1.0 - p) * (scale * lo - owed) + p * (scale * hi - owed);
      (1.0 - p) * (scale * lo) + p * (scale * hi) - owed;
      scale * ((1.0 - p) * lo) + scale * (p * hi) - owed;
    }
  }

  lemma Regroup(disc: real, cw: real, m: real, dw: real, strike: real)
    ensures disc * (cw * m - dw * strike) == cw * (disc * m) - (disc * dw) * strike
  {
    assert disc * (cw * m) == cw * (disc * m);
  }

  lemma NegatedContinuation(tree: Tree, a: real, b: real)
    requires tree.Valid()
    ensures Continuation(tree, -a, -b) == -Continuation(tree, a, b)
  {
    assert Continuation(tree, 0.0, 0.0) == 0.0;
    ContinuationDifference(tree, a, b, 0.0, 0.0);
  }

  /** A European option is worth at least its forward. */
  lemma {:induction false} ForwardBound(tree: Tree, c: Contract, n: nat, x: real)
    requires tree.Valid()
    ensures c.kind.Call? ==> Forward(tree, c.strike, n, x) <= EuropeanValue(tree, c, n, x)
    ensures c.kind.Put? ==> -Forward(tree, c.strike, n, x) <= EuropeanValue(tree, c, n, x)
  {
    if n > 0 {
      var lo, hi := tree.Dn(x), tree.Up(x);
      ForwardBound(tree, c, n - 1, lo);
      ForwardBound(tree, c, n - 1, hi);
      ForwardStep(tree, c.strike, n - 1, x);
      var a, b := EuropeanValue(tree, c, n - 1, lo), EuropeanValue(tree, c, n - 1, hi);
      var f, g := Forward(tree, c.strike, n - 1, lo), Forward(tree, c.strike, n - 1, hi);
      if c.kind.Call? {
        ContinuationMonotone(tree, f, g, a, b);
      } else {
        NegatedContinuation(tree, f, g);
        ContinuationMonotone(tree, -f, -g, a, b);
      }
    }
  }

  lemma {:induction false} PowBelowOne(r: real, n: nat)
    requires 0.0 < r <= 1.0
    ensures Pow(r, n) <= 1.0
  {
    if n > 0 {
      PowBelowOne(r, n - 1);
      MulNonNegative(r, 1.0 - Pow(r, n - 1));
    }
  }

  lemma {:induction false} PowAboveOne(r: real, n: nat)
    requires 1.0 <= r
    ensures 1.0 <= Pow(r, n)
    ensures n > 0 ==> r <= Pow(r, n)
  {
    if n > 0 {
      PowAboveOne(r, n - 1);
      MulNonNegative(r, Pow(r, n - 1) - 1.0);
    }
  }

  /** Nothing is gained by exercising early: calls when the stock pays no dividend and
      rates are not negative, puts when carry and rates are both reversed. */
  lemma {:induction false} NoEarlyExercise(tree: Tree, c: Contract, n: nat, x: real)
    requires tree.Valid() && 0.0 <= x && 0.0 <= c.strike
    requires c.kind.Call? ==> Carry(tree) >= 1.0 && tree.disc <= 1.0
    requires c.kind.Put? ==> Carry(tree) <= 1.0 && tree.disc >= 1.0
    ensures Value(tree, c, n, x) == EuropeanValue(tree, c, n, x)
  {
    if n > 0 {
      MovesNonNegative(tree, x);
      NoEarlyExercise(tree, c, n - 1, tree.Dn(x));
      NoEarlyExercise(tree, c, n - 1, tree.Up(x));
      assert Payoff(c, x) <= EuropeanValue(tree, c, n, x) by { PayoffBelowEuropean(tree, c, n, x); }
    }
  }

  lemma PayoffBelowEuropean(tree: Tree, c: Contract, n: nat, x: real)
    requires tree.Valid() && 0.0 <= x && 0.0 <= c.strike
    requires c.kind.Call? ==> Carry(tree) >= 1.0 && tree.disc <= 1.0
    requires c.kind.Put? ==> Carry(tree) <= 1.0 && tree.disc >= 1.0
    ensures Payoff(c, x) <= EuropeanValue(tree, c, n, x)
  {
    hide Carry, Forward, EuropeanValue;
    EuropeanNonNegative(tree, c, n, x);
    ForwardBound(tree, c, n, x);
    ForwardAgainstPayoff(tree, c, n, x);
  }

  lemma ForwardAgainstPayoff(tree: Tree, c: Contract, n: nat, x: real)
    requires tree.Valid() && 0.0 <= x && 0.0 <= c.strike
    ensures Carry(tree) >= 1.0 && tree.disc <= 1.0 ==> x - c.strike <= Forward(tree, c.strike, n, x)
    ensures Carry(tree) <= 1.0 && tree.disc >= 1.0 ==> c.strike - x <= -Forward(tree, c.strike, n, x)
  {
    hide Carry, Pow;
    var cw, dw := Pow(Carry(tree), n), Pow(tree.disc, n);
    WeightedDifference(cw, dw, x, c.strike);
    if Carry(tree) >= 1.0 && tree.disc <= 1.0 {
      PowAboveOne(Carry(tree), n);
      PowBelowOne(tree.disc, n);
    }
    if Carry(tree) <= 1.0 && tree.disc >= 1.0 {
      PowBelowOne(Carry(tree), n);
      PowAboveOne(tree.disc, n);
    }
  }

  lemma WeightedDifference(v: real, w: real, x: real, k: real)
    requires 0.0 <= x && 0.0 <= k
    ensures v >= 1.0 && w <= 1.0 ==> x - k <= v * x - w * k
    ensures v <= 1.0 && w >= 1.0 ==> k - x <= -(v * x - w * k)
  {
    if v >= 1.0 && w <= 1.0 {
      MulNonNegative(v - 1.0, x);
      MulNonNegative(1.0 - w, k);
    }
    if v <= 1.0 && w >= 1.0 {
      MulNonNegative(1.0 - v, x);
      MulNonNegative(w - 1.0, k);
    }
  }

  lemma {:induction false} EuropeanNonNegative(tree: Tree, c: Contract, n: nat, x: real)
    requires tree.Valid()
    ensures 0.0 <= EuropeanValue(tree, c, n, x)
  {
    if n > 0 {
      EuropeanNonNegative(tree, c, n - 1, tree.Dn(x));
      EuropeanNonNegative(tree, c, n - 1, tree.Up(x));
      assert Continuation(tree, 0.0, 0.0) == 0.0;
      ContinuationMonotone(tree, 0.0, 0.0, EuropeanValue(tree, c, n - 1, tree.Dn(x)), EuropeanValue(tree, c, n - 1, tree.Up(x)));
    }
  }

  // ----- exact conditions -----

  /** In the money on all paths of `n` steps. */
  ghost predicate DeepIn(tree: Tree, c: Contract, n: nat, x: real)
    requires tree.Valid()
  {
    0.0 <= x && 0.0 <= c.strike &&
    match c.kind
    case Call => Times(c.strike, Pow(tree.u, n)) <= x
    case Put => Times(x, Pow(tree.u, n)) <= c.strike
  }

  lemma CallBoundStep(k: real, u: real, w: real, next: real, x: real)
    requires 1.0 < u && 0.0 <= x && next == w * u && Times(k, next) <= x
    ensures Times(k, w) <= x / u && Times(k, w) <= x * u
  {
    var b := k * w;
    assert b * u == k * next;
    Quotient(b, u, x);
    MulNonNegative(x, u - 1.0);
    Quotient(x, u, x);
  }

  lemma PutBoundStep(k: real, u: real, w: real, next: real, x: real, lo: real, hi: real)
    requires 1.0 < u && 0.0 < w && 0.0 <= x && next == w * u && Times(x, next) <= k
    requires lo == x / u && hi == x * u
    ensures Times(lo, w) <= k && Times(hi, w) <= k
  {
    assert hi * w == x * next;
    MulNonNegative(x, u - 1.0);
    Quotient(x, u, x);
    MulNonNegative(hi - lo, w);
  }

  lemma MovesNonNegative(tree: Tree, x: real)
    requires tree.Valid() && 0.0 <= x
    ensures 0.0 <= tree.Dn(x) && 0.0 <= tree.Up(x)
  {
    Quotient(0.0, tree.u, x);
    MulNonNegative(x, tree.u);
  }

  lemma DeepInStep(tree: Tree, c: Contract, n: nat, x: real)
    requires tree.Valid() && DeepIn(tree, c, n + 1, x)
    ensures DeepIn(tree, c, n, tree.Dn(x)) && DeepIn(tree, c, n, tree.Up(x))
  {
    hide Times, Pow;
    MovesNonNegative(tree, x);
    PowNext(tree.u, n);
    if c.kind.Call? {
      CallBoundStep(c.strike, tree.u, Pow(tree.u, n), Pow(tree.u, n + 1), x);
    } else {
      PutBoundStep(c.strike, tree.u, Pow(tree.u, n), Pow(tree.u, n + 1), x, tree.Dn(x), tree.Up(x));
    }
  }

  /** There the European value is exactly the forward (call) or minus the forward (put). */
  lemma {:induction false} DeepInTheMoney(tree: Tree, c: Contract, n: nat, x: real)
    requires tree.Valid() && DeepIn(tree, c, n, x)
    ensures EuropeanValue(tree, c, n, x)
         == if c.kind.Call? then Forward(tree, c.strike, n, x) else -Forward(tree, c.strike, n, x)
  {
    if n > 0 {
      var lo, hi := tree.Dn(x), tree.Up(x);
      DeepInStep(tree, c, n - 1, x);
      DeepInTheMoney(tree, c, n - 1, lo);
      DeepInTheMoney(tree, c, n - 1, hi);
      ForwardStep(tree, c.strike, n - 1, x);
      NegatedContinuation(tree, Forward(tree, c.strike, n - 1, lo), Forward(tree, c.strike, n - 1, hi));
    }
  }

  /** Without dividends, early exercise of a call is worthless for every strike and spot
      exactly when the rate is not negative. */
  lemma NoEarlyExerciseOfCallsExactly(tree: Tree, n: nat)
    requires tree.Valid() && n > 0 && Carry(tree) == 1.0
    ensures (forall strike: real, x: real | 0.0 < strike && 0.0 < x ::
               Value(tree, Contract(Call, strike), n, x) == EuropeanValue(tree, Contract(Call, strike), n, x))
        <==> tree.disc <= 1.0
  {
    if tree.disc <= 1.0 {
      forall strike: real, x: real | 0.0 < strike && 0.0 < x
        ensures Value(tree, Contract(Call, strike), n, x) == EuropeanValue(tree, Contract(Call, strike), n, x)
      {
        NoEarlyExercise(tree, Contract(Call, strike), n, x);
      }
    } else {
      var c, x := Contract(Call, 1.0), Pow(tree.u, n) + 1.0;
      PowAboveOne(tree.u, n);
      DeepInTheMoney(tree, c, n, x);
      PowAboveOne(tree.disc, n);
      PowOfOne(n);
      AmericanDominates(tree, c, n, x);
      assert Value(tree, Contract(Call, 1.0), n, x) > EuropeanValue(tree, Contract(Call, 1.0), n, x);
    }
  }

  lemma {:induction false} PowOfOne(n: nat)
    ensures Pow(1.0, n) == 1.0
  {
    if n > 0 {
      PowOfOne(n - 1);
    }
  }

  /** With more carry than one, the forward outgrows any fixed amount plus the stock. */
  lemma ForwardOutgrows(tree: Tree, n: nat, amount: real) returns (y: real)
    requires tree.Valid() && n > 0 && Carry(tree) > 1.0 && 0.0 <= amount
    ensures 1.0 <= y && Forward(tree, 1.0, n, y) - amount > y - 1.0
  {
    var slope, owed := Pow(Carry(tree), n), amount + Pow(tree.disc, n);
    PowAboveOne(Carry(tree), n);
    var rise := owed / (slope - 1.0);
    Quotient(0.0, slope - 1.0, owed);
    assert rise * (slope - 1.0) == owed;
    y := rise + 1.0;
    assert slope * y - owed > y - 1.0;
  }

  /** With a negative dividend yield some call outruns the stock. */
  lemma SteeperCall(tree: Tree, n: nat) returns (y: real)
    requires tree.Valid() && n > 0 && Carry(tree) > 1.0
    ensures 1.0 <= y
    ensures Value(tree, Contract(Call, 1.0), n, y) - Value(tree, Contract(Call, 1.0), n, 1.0) > y - 1.0
  {
    var c := Contract(Call, 1.0);
    AmericanDominates(tree, c, n, 1.0);
    y := ForwardOutgrows(tree, n, Value(tree, c, n, 1.0));
    ForwardBound(tree, c, n, y);
    AmericanDominates(tree, c, n, y);
  }

  /** A call is never steeper than the stock, for every strike and pair of spots, exactly
      when the dividend yield is not negative. */
  lemma CallNeverSteeperExactly(tree: Tree, n: nat)
    requires tree.Valid() && n > 0
    ensures (forall strike: real, x: real, y: real | 0.0 < strike && 0.0 < x <= y ::
               Value(tree, Contract(Call, strike), n, y) - Value(tree, Contract(Call, strike), n, x) <= y - x)
        <==> Carry(tree) <= 1.0
  {
    if Carry(tree) <= 1.0 {
      forall strike: real, x: real, y: real | 0.0 < strike && 0.0 < x <= y
        ensures Value(tree, Contract(Call, strike), n, y) - Value(tree, Contract(Call, strike), n, x) <= y - x
      {
        NeverSteeperThanStock(tree, Contract(Call, strike), n, x, y);
      }
    } else {
      var y := SteeperCall(tree, n);
    }
  }
}
