/** The American option lattice of the pricing core: payoff, the one-array
    backward induction, and the recursive node value it must compute.

    Doubles are modelled as reals. The results of `exp` reach the lattice only
    through the three numbers of a `Market`, so those are its inputs. */
module Lattice {
  import opened Reals

  datatype OptionType = Call | Put

  datatype Contract = Contract(kind: OptionType, strike: real)

  /** What the backward induction uses: the up factor, the up probability and the discount factor. */
  datatype Tree = Tree(u: real, p: real, disc: real)
  {
    predicate Valid() {
      1.0 < u && 0.0 <= p <= 1.0 && 0.0 < disc
    }

    /** Spot after an up move and after a down move. */
    function Up(x: real): real {
      x * u
    }

    function Dn(x: real): real
      requires Valid()
    {
      x / u
    }
  }

  /** What the market says about one time step; the lattice refuses to price unless
      the implied `Tree` is valid. */
  datatype Market = Market(u: real, growth: real, disc: real)
  {
    /** What `exp` promises for positive volatility, time and step count. */
    predicate Valid() {
      1.0 < u && 0.0 < growth && 0.0 < disc
    }

    function Down(): (d: real)
      requires Valid()
      ensures 0.0 < d < 1.0
    {
      1.0 / u
    }

    function ToTree(): Tree
      requires Valid()
    {
      Tree(u, (growth - Down()) / (u - Down()), disc)
    }
  }

  datatype Price = Ok(value: real) | InvalidProbability

  function Payoff(c: Contract, spot: real): (r: real)
    ensures 0.0 <= r
  {
    match c.kind
    case Call => Max(spot - c.strike, 0.0)
    case Put => Max(c.strike - spot, 0.0)
  }

  function Mean(tree: Tree, lo: real, hi: real): real {
    (1.0 - tree.p) * lo + tree.p * hi
  }

  function Continuation(tree: Tree, lo: real, hi: real): real
    requires tree.Valid()
  {
    tree.disc * Mean(tree, lo, hi)
  }

  lemma MeanMonotone(tree: Tree, lo: real, hi: real, lo': real, hi': real)
    requires tree.Valid() && lo <= lo' && hi <= hi'
    ensures Mean(tree, lo, hi) <= Mean(tree, lo', hi')
  {
    assert (1.0 - tree.p) * (lo' - lo) >= 0.0;
    assert tree.p * (hi' - hi) >= 0.0;
  }

  lemma ContinuationMonotone(tree: Tree, lo: real, hi: real, lo': real, hi': real)
    requires tree.Valid() && lo <= lo' && hi <= hi'
    ensures Continuation(tree, lo, hi) <= Continuation(tree, lo', hi')
  {
    MeanMonotone(tree, lo, hi, lo', hi');
    assert tree.disc * (Mean(tree, lo', hi') - Mean(tree, lo, hi)) >= 0.0;
  }

  /** Reference value of the option with `n` steps to go: a full binary tree over
      the spot, with no recombination and no array. */
  function Value(tree: Tree, c: Contract, n: nat, x: real): real
    requires tree.Valid()
  {
    if n == 0 then Payoff(c, x)
    else Max(Continuation(tree, Value(tree, c, n - 1, tree.Dn(x)), Value(tree, c, n - 1, tree.Up(x))), Payoff(c, x))
  }

  function Pow(u: real, k: int): (r: real)
    requires 0.0 < u
    ensures 0.0 < r
    decreases if k < 0 then -k else k
  {
    if k == 0 then 1.0
    else if k > 0 then u * Pow(u, k - 1)
    else Pow(u, k + 1) / u
  }

  lemma PowNext(u: real, k: int)
    requires 0.0 < u
    ensures Pow(u, k + 1) == Pow(u, k) * u
  {
  }

  /** Spot at node `i` of layer `step`. */
  function NodeSpot(spot: real, u: real, step: nat, i: nat): real
    requires 0.0 < u
  {
    spot * Pow(u, 2 * i - step)
  }

  /** The tree recombines: both children of a node are nodes of the next layer. */
  lemma Children(tree: Tree, spot: real, step: nat, i: nat)
    requires tree.Valid()
    ensures tree.Dn(NodeSpot(spot, tree.u, step, i)) == NodeSpot(spot, tree.u, step + 1, i)
    ensures tree.Up(NodeSpot(spot, tree.u, step, i)) == NodeSpot(spot, tree.u, step + 1, i + 1)
  {
    var k := 2 * i - step;
    PowNext(tree.u, k);
    PowNext(tree.u, k - 1);
    MoveScaled(tree, spot, Pow(tree.u, k));
    MoveScaled(tree, spot, Pow(tree.u, k - 1));
  }

  lemma MoveScaled(tree: Tree, spot: real, w: real)
    requires tree.Valid()
    ensures tree.Up(spot * w) == spot * (w * tree.u)
    ensures tree.Dn(spot * (w * tree.u)) == spot * w
  {
    var low := spot * w;
    assert spot * (w * tree.u) == low * tree.u;
    assert low * tree.u / tree.u == low;
  }

  const MIN_DENOMINATOR := 0.000000000000001

  /** What the pricing call returns, branch by branch. `european` is the closed-form
      price the code falls back to when the tree degenerates. */
  function LatticePrice(mk: Market, c: Contract, years: real, n: nat, spot: real, european: real): Price
    requires 0.0 < years ==> mk.Valid()
  {
    if years <= 0.0 then Ok(Payoff(c, spot))
    else if mk.u - mk.Down() < MIN_DENOMINATOR then Ok(european)
    else if !mk.ToTree().Valid() then InvalidProbability
    else Ok(Value(mk.ToTree(), c, n, spot))
  }

  /** The implied probability is the one under which the stock grows as it should, and it is a
      probability exactly when the growth lies between the two moves. */
  lemma ImpliedExactly(mk: Market, q: real)
    requires mk.Valid()
    ensures mk.ToTree().Valid() <==> mk.Down() <= mk.growth <= mk.u
    ensures q * mk.u + (1.0 - q) * mk.Down() == mk.growth ==> q == mk.ToTree().p
  {
    var d, w, p := mk.Down(), mk.u - mk.Down(), mk.ToTree().p;
    assert 0.0 < w;
    QuotientExactly(mk.growth - d, w, p);
    assert q * mk.u + (1.0 - q) * d == d + Times(q, w);
    QuotientExactly(mk.growth - d, w, q);
  }

  lemma QuotientExactly(x: real, w: real, p: real)
    requires 0.0 < w
    ensures p == x / w <==> Times(p, w) == x
    ensures 0.0 <= x / w <= 1.0 <==> 0.0 <= x <= w
  {
    var q := x / w;
    assert Times(q, w) == x;
    SignOfProduct(q, w);
    DifferenceOfProducts(p, q, w);
    SignOfProduct(p - q, w);
    DifferenceOfProducts(q, 1.0, w);
    SignOfProduct(q - 1.0, w);
    hide Times;
    assert Times(1.0, w) == w by { OneTimes(w); }
  }

  lemma OneTimes(w: real)
    ensures Times(1.0, w) == w
  {
  }

  lemma DifferenceOfProducts(p: real, q: real, w: real)
    ensures Times(p - q, w) == Times(p, w) - Times(q, w)
  {
  }

  lemma SignOfProduct(a: real, w: real)
    requires 0.0 < w
    ensures (Times(a, w) < 0.0 <==> a < 0.0) && (Times(a, w) > 0.0 <==> a > 0.0)
  {
  }

  /** The price branch by branch: intrinsic value when no time is left, the closed form when the
      moves coincide, refusal exactly when the growth lies outside them, and else the tree under
      the probability that makes it fair. */
  lemma PriceByBranch(mk: Market, c: Contract, years: real, n: nat, spot: real, european: real, q: real)
    requires 0.0 < years ==> mk.Valid()
    ensures var r := LatticePrice(mk, c, years, n, spot, european);
            && (years <= 0.0 ==> r == Ok(match c.kind
                  case Call => if c.strike < spot then spot - c.strike else 0.0
                  case Put => if spot < c.strike then c.strike - spot else 0.0))
            && (0.0 < years && mk.u - 1.0 / mk.u < 0.000000000000001 ==> r == Ok(european))
            && (0.0 < years && mk.u - 1.0 / mk.u >= 0.000000000000001 ==>
                  && (r.InvalidProbability? <==> mk.growth < 1.0 / mk.u || mk.u < mk.growth)
                  && (r.Ok? && q * mk.u + (1.0 - q) * (1.0 / mk.u) == mk.growth ==>
                        Tree(mk.u, q, mk.disc).Valid() && r == Ok(Value(Tree(mk.u, q, mk.disc), c, n, spot))))
  {
    hide Value;
    if 0.0 < years {
      ImpliedExactly(mk, q);
    }
  }

  /** Value at node `i` of layer `step` of an `n`-step lattice. */
  function NodeValue(tree: Tree, c: Contract, spot: real, n: nat, step: nat, i: nat): real
    requires tree.Valid() && step <= n
  {
    Value(tree, c, n - step, NodeSpot(spot, tree.u, step, i))
  }

  /** The relation between neighbouring layers that the inner loop relies on. */
  lemma {:induction false} NodeValueStep(tree: Tree, c: Contract, spot: real, n: nat, step: nat, i: nat)
    requires tree.Valid() && step < n
    ensures NodeValue(tree, c, spot, n, step, i)
         == Max(Continuation(tree, NodeValue(tree, c, spot, n, step + 1, i), NodeValue(tree, c, spot, n, step + 1, i + 1)),
                Payoff(c, NodeSpot(spot, tree.u, step, i)))
  {
    Children(tree, spot, step, i);
  }

  /** Backward induction over one array, each layer overwriting the one after it. */
  method BackwardInduction(tree: Tree, c: Contract, n: nat, spot: real) returns (price: real)
    requires tree.Valid()
    ensures price == Value(tree, c, n, spot)
  {
    var values := new real[n + 1];
    for i := 0 to n + 1
      invariant forall j :: 0 <= j < i ==> values[j] == NodeValue(tree, c, spot, n, n, j)
    {
      values[i] := Payoff(c, NodeSpot(spot, tree.u, n, i));
    }
    for step := n downto 0
      invariant forall j :: 0 <= j <= step ==> values[j] == NodeValue(tree, c, spot, n, step, j)
    {
      for i := 0 to step + 1
        invariant forall j :: 0 <= j < i ==> values[j] == NodeValue(tree, c, spot, n, step, j)
        invariant forall j :: i <= j <= step + 1 ==> values[j] == NodeValue(tree, c, spot, n, step + 1, j)
      {
        NodeValueStep(tree, c, spot, n, step, i);
        var continuation := Continuation(tree, values[i], values[i + 1]);
        var exercise := Payoff(c, NodeSpot(spot, tree.u, step, i));
        values[i] := Max(continuation, exercise);
      }
    }
    assert NodeSpot(spot, tree.u, 0, 0) == spot;
    return values[0];
  }

  method BinomialAmericanPrice(mk: Market, c: Contract, years: real, n: nat, spot: real, european: real)
    returns (r: Price)
    requires 0.0 < years ==> mk.Valid()
    ensures r == LatticePrice(mk, c, years, n, spot, european)
  {
    if years <= 0.0 {
      return Ok(Payoff(c, spot));
    }
    var d := 1.0 / mk.u;
    var denominator := mk.u - d;
    if denominator < MIN_DENOMINATOR {
      return Ok(european);
    }
    var p := (mk.growth - d) / denominator;
    if !(0.0 <= p <= 1.0) {
      return InvalidProbability;
    }
    var value := BackwardInduction(Tree(mk.u, p, mk.disc), c, n, spot);
    return Ok(value);
  }
}
