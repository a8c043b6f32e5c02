/** From price to hedge: finite-difference Greeks and the share target of the core. */
module Hedge {
  import opened Reals
  import opened Lattice
  import opened LatticeShape
  import Stopping

  datatype Style = European | American

  datatype Inputs = Inputs(
    spot: real, contract: Contract, volatility: real, daysToExpiry: real, style: Style,
    contracts: int, multiplier: real, currentShares: real, treeSteps: int, noTradeBand: real)
  {
    /** The argument checks made before anything is priced. */
    predicate Valid() {
      && 0.0 < spot && 0.0 < contract.strike
      && 0.0 < volatility < 10.0
      && 0.0 <= daysToExpiry <= 36500.0
      && 0.0 < multiplier
      && 10 <= treeSteps <= 20000
      && 0.0 <= noTradeBand
    }

    function Years(): real {
      daysToExpiry / 365.0
    }
  }

  datatype Error = InvalidArgument | InvalidProbability

  datatype Outcome<+T> = Success(value: T) | Failure(error: Error)

  datatype Greeks = Greeks(
    price: real, europeanPrice: real, earlyExercisePremium: real, delta: real, gamma: real,
    vegaPerVolPoint: real, thetaPerDay: real, rhoPerRatePoint: real)

  /** What one pricing needs besides the spot: the market of one time step and the closed form. */
  datatype Pricing = Pricing(market: Market, closedForm: real -> real)

  /** The pricings of one call: as asked, with the volatility bumped up and down, one day
      later, and with the rate bumped up and down. */
  datatype Pricings = Pricings(base: Pricing, volUp: Pricing, volDown: Pricing, shorter: Pricing, rateUp: Pricing, rateDown: Pricing)
  {
    /** What `exp` promises, whatever stands for a market with no time left: the up factor grows with volatility and does not depend on the rate;
        growth and discount do not depend on volatility, and their product not on the rate. */
    predicate Valid() {
      && base.market.Valid() && volUp.market.Valid() && volDown.market.Valid()
      && shorter.market.Valid() && rateUp.market.Valid() && rateDown.market.Valid()
      && volDown.market.u < base.market.u < volUp.market.u && shorter.market.u < base.market.u
      && volUp.market.growth == base.market.growth == volDown.market.growth
      && volUp.market.disc == base.market.disc == volDown.market.disc
      && rateUp.market.u == base.market.u == rateDown.market.u
      && rateDown.market.growth < base.market.growth < rateUp.market.growth
      && Times(rateUp.market.disc, rateUp.market.growth) == Times(base.market.disc, base.market.growth)
      && Times(rateDown.market.disc, rateDown.market.growth) == Times(base.market.disc, base.market.growth)
    }
  }

  datatype Result = Result(
    greeks: Greeks, optionPositionDeltaShares: real, targetStockShares: real, rawTradeShares: real,
    recommendedTradeShares: real, holdInsideBand: bool, stockNotional: real, gammaPnlForOnePercent: real)

  const MIN_SPOT := 0.00000001

  function Bump(spot: real): (h: real)
    ensures 0.01 <= h
  {
    Max(0.01, spot * 0.001)
  }

  function BumpedDown(spot: real): real {
    Max(MIN_SPOT, spot - Bump(spot))
  }

  /** The down-bump is floored at the smallest spot the code prices. */
  predicate Floored(spot: real) {
    spot - Bump(spot) < MIN_SPOT
  }

  function EuropeanPrice(inp: Inputs, pricing: Pricing, years: real, spot: real): real {
    if years <= 0.0 then Payoff(inp.contract, spot) else pricing.closedForm(spot)
  }

  function ModelPrice(inp: Inputs, pricing: Pricing, years: real, spot: real): Price
    requires inp.Valid() && (0.0 < years ==> pricing.market.Valid())
  {
    if inp.style.European? then Ok(EuropeanPrice(inp, pricing, years, spot))
    else LatticePrice(pricing.market, inp.contract, years, inp.treeSteps, spot, EuropeanPrice(inp, pricing, years, spot))
  }

  function ExpiryDelta(c: Contract, spot: real): real {
    match c.kind
    case Call => if spot > c.strike then 1.0 else if spot < c.strike then 0.0 else 0.5
    case Put => if spot < c.strike then -1.0 else if spot > c.strike then 0.0 else -0.5
  }

  function Delta(up: real, dn: real, h: real): real
    requires 0.0 < h
  {
    (up - dn) / (2.0 * h)
  }

  function Gamma(up: real, mid: real, dn: real, h: real): real
    requires 0.0 < h
  {
    (up - 2.0 * mid + dn) / Times(h, h)
  }

  function VolBump(volatility: real): (bump: real)
    ensures 0.0 < volatility ==> 0.0 < bump < volatility
  {
    if volatility * 0.25 < 0.01 then volatility * 0.25 else 0.01
  }

  /** One day less, and never less than nothing. */
  function ShorterYears(inp: Inputs): (years: real)
    ensures years == 0.0 || years < inp.Years()
  {
    Max(0.0, inp.Years() - 1.0 / 365.0)
  }

  function Vega(up: real, dn: real, volBump: real): real
    requires 0.0 < volBump
  {
    (up - dn) / (2.0 * volBump) * 0.01
  }

  /** The seven bumped pricings, in the order the code makes them. */
  function BumpedPrices(inp: Inputs, pr: Pricings): (prices: seq<Price>)
    requires inp.Valid() && pr.Valid()
    ensures |prices| == 7
  {
    [ ModelPrice(inp, pr.base, inp.Years(), inp.spot + Bump(inp.spot)),
      ModelPrice(inp, pr.base, inp.Years(), BumpedDown(inp.spot)),
      ModelPrice(inp, pr.volUp, inp.Years(), inp.spot),
      ModelPrice(inp, pr.volDown, inp.Years(), inp.spot),
      ModelPrice(inp, pr.shorter, ShorterYears(inp), inp.spot),
      ModelPrice(inp, pr.rateUp, inp.Years(), inp.spot),
      ModelPrice(inp, pr.rateDown, inp.Years(), inp.spot) ]
  }

  predicate AllPriced(prices: seq<Price>) {
    forall i :: 0 <= i < |prices| ==> prices[i].Ok?
  }

  /** The Greeks from the price and the seven bumped prices. */
  function GreeksFrom(inp: Inputs, out: Greeks, p: seq<Price>): Greeks
    requires inp.Valid() && |p| == 7 && AllPriced(p)
  {
    var h := Bump(inp.spot);
    out.(delta := Delta(p[0].value, p[1].value, h), gamma := Gamma(p[0].value, out.price, p[1].value, h),
         vegaPerVolPoint := Vega(p[2].value, p[3].value, VolBump(inp.volatility)),
         thetaPerDay := p[4].value - out.price,
         rhoPerRatePoint := 0.5 * (p[5].value - p[6].value))
  }

  /** Price and Greeks as the core reports them. One failing pricing fails the call. */
  function PriceGreeks(inp: Inputs, pr: Pricings): Outcome<Greeks>
    requires inp.Valid() && (0.0 < inp.Years() ==> pr.Valid())
  {
    var european := EuropeanPrice(inp, pr.base, inp.Years(), inp.spot);
    match ModelPrice(inp, pr.base, inp.Years(), inp.spot)
    case InvalidProbability => Failure(Error.InvalidProbability)
    case Ok(price) =>
      var out := Greeks(price, european, Max(0.0, price - european), 0.0, 0.0, 0.0, 0.0, 0.0);
      if inp.Years() <= 0.0 then Success(out.(delta := ExpiryDelta(inp.contract, inp.spot)))
      else
        var bumped := BumpedPrices(inp, pr);
        if AllPriced(bumped) then Success(GreeksFrom(inp, out, bumped)) else Failure(Error.InvalidProbability)
  }

  /** The lattice prices in this market: at expiry, by the fallback, or on a proper tree. */
  predicate Prices(mk: Market, years: real)
    requires 0.0 < years ==> mk.Valid()
  {
    years <= 0.0 || mk.u - mk.Down() < MIN_DENOMINATOR || mk.ToTree().Valid()
  }

  /** A call succeeds exactly when it prices a European option, an expired one, or every one
      of its six markets implies a probability. */
  lemma SucceedsExactly(inp: Inputs, pr: Pricings)
    requires inp.Valid() && (0.0 < inp.Years() ==> pr.Valid())
    ensures PriceGreeks(inp, pr).Success? <==>
      inp.style.European? || inp.Years() <= 0.0 ||
      (Prices(pr.base.market, inp.Years()) && Prices(pr.volUp.market, inp.Years()) && Prices(pr.volDown.market, inp.Years())
       && Prices(pr.shorter.market, ShorterYears(inp)) && Prices(pr.rateUp.market, inp.Years()) && Prices(pr.rateDown.market, inp.Years()))
  {
    var years := inp.Years();
    if 0.0 < years {
      BumpsValid(pr);
    } else {
      assert Prices(pr.base.market, years);
    }
    hide ModelPrice, GreeksFrom, Prices, Pricings.Valid;
    PricedExactly(inp, pr.base, years, inp.spot);
    if 0.0 < years {
      var p := BumpedPrices(inp, pr);
      PricedExactly(inp, pr.base, years, inp.spot + Bump(inp.spot));
      PricedExactly(inp, pr.base, years, BumpedDown(inp.spot));
      PricedExactly(inp, pr.volUp, years, inp.spot);
      PricedExactly(inp, pr.volDown, years, inp.spot);
      PricedExactly(inp, pr.shorter, ShorterYears(inp), inp.spot);
      PricedExactly(inp, pr.rateUp, years, inp.spot);
      PricedExactly(inp, pr.rateDown, years, inp.spot);
      assert AllPriced(p) <==> p[0].Ok? && p[1].Ok? && p[2].Ok? && p[3].Ok? && p[4].Ok? && p[5].Ok? && p[6].Ok?;
    }
  }

  lemma BumpsValid(pr: Pricings)
    requires pr.Valid()
    ensures pr.base.market.Valid() && pr.volUp.market.Valid() && pr.volDown.market.Valid() && pr.shorter.market.Valid()
    ensures pr.rateUp.market.Valid() && pr.rateDown.market.Valid()
  {
  }

  lemma PricedExactly(inp: Inputs, pricing: Pricing, years: real, spot: real)
    requires inp.Valid() && (0.0 < years ==> pricing.market.Valid())
    ensures ModelPrice(inp, pricing, years, spot).Ok? <==> inp.style.European? || Prices(pricing.market, years)
  {
    hide Value, Payoff;
  }

  /** A market in which an American option is priced on a proper tree. */
  predicate OnTree(inp: Inputs, mk: Market) {
    && inp.style.American? && mk.Valid() && mk.ToTree().Valid()
    && mk.u - mk.Down() >= MIN_DENOMINATOR
  }

  // ----- bounds on the Greeks -----

  lemma DeltaBounds(up: real, dn: real, h: real)
    requires 0.0 < h
    ensures dn <= up <= dn + 2.0 * h ==> 0.0 <= Delta(up, dn, h) <= 1.0
    ensures dn - 2.0 * h <= up <= dn ==> -1.0 <= Delta(up, dn, h) <= 0.0
  {
    Quotient(0.0, 2.0 * h, up - dn);
    Quotient(1.0, 2.0 * h, up - dn);
    Quotient(-1.0, 2.0 * h, up - dn);
  }

  lemma TreeDelta(tree: Tree, c: Contract, n: nat, spot: real)
    requires tree.Valid() && 0.0 < spot && Carry(tree) <= 1.0
    ensures var delta := Delta(Value(tree, c, n, spot + Bump(spot)), Value(tree, c, n, BumpedDown(spot)), Bump(spot));
            if c.kind.Call? then 0.0 <= delta <= 1.0 else -1.0 <= delta <= 0.0
  {
    var x, y := BumpedDown(spot), spot + Bump(spot);
    MonotoneInSpot(tree, c, n, x, y);
    NeverSteeperThanStock(tree, c, n, x, y);
    DeltaBounds(Value(tree, c, n, y), Value(tree, c, n, x), Bump(spot));
  }

  /** Whatever is reported: delta of an American option is that of a long stock position of at
      most one share for a call, short for a put, unless the dividend yield is negative. */
  lemma DeltaWithinOneShare(inp: Inputs, pr: Pricings)
    requires inp.Valid() && inp.style.American?
    requires 0.0 < inp.Years() ==> pr.Valid() && OnTree(inp, pr.base.market) && Times(pr.base.market.disc, pr.base.market.growth) <= 1.0
    ensures PriceGreeks(inp, pr).Success? ==>
      var delta := PriceGreeks(inp, pr).value.delta;
      if inp.contract.kind.Call? then 0.0 <= delta <= 1.0 else -1.0 <= delta <= 0.0
  {
    if 0.0 < inp.Years() {
      hide Value, Delta;
      var tree := pr.base.market.ToTree();
      ImpliedProbabilityIsRiskNeutral(pr.base.market);
      assert Carry(tree) == Times(pr.base.market.disc, pr.base.market.growth);
      TreeDelta(tree, inp.contract, inp.treeSteps, inp.spot);
    }
  }

  /** The second difference of the lattice value at `spot`. */
  function TreeGamma(tree: Tree, c: Contract, n: nat, spot: real): real
    requires tree.Valid()
  {
    Gamma(Value(tree, c, n, spot + Bump(spot)), Value(tree, c, n, spot), Value(tree, c, n, BumpedDown(spot)), Bump(spot))
  }

  lemma GammaSign(up: real, mid: real, dn: real, h: real)
    requires 0.0 < h
    ensures Gamma(up, mid, dn, h) >= 0.0 <==> up - 2.0 * mid + dn >= 0.0
  {
    Quotient(0.0, Times(h, h), up - 2.0 * mid + dn);
  }

  lemma GammaOfConvex(tree: Tree, c: Contract, n: nat, spot: real)
    requires tree.Valid() && !Floored(spot)
    ensures TreeGamma(tree, c, n, spot) >= 0.0
  {
    var h := Bump(spot);
    assert Blend(0.5, spot + h, spot - h) == spot;
    ConvexInSpot(tree, c, n, 0.5, spot + h, spot - h);
    GammaSign(Value(tree, c, n, spot + h), Value(tree, c, n, spot), Value(tree, c, n, spot - h), h);
  }

  /** A put deep in the money, in a market without interest or dividends, is a short stock position. */
  lemma DeepPutIsShortStock(tree: Tree, c: Contract, n: nat, x: real)
    requires tree.Valid() && tree.disc == 1.0 && Carry(tree) == 1.0 && c.kind.Put? && DeepIn(tree, c, n, x)
    ensures Value(tree, c, n, x) == c.strike - x
  {
    NoEarlyExercise(tree, c, n, x);
    DeepInTheMoney(tree, c, n, x);
    PowOfOne(n);
  }

  lemma DeepPutBelow(tree: Tree, c: Contract, n: nat, x: real, y: real)
    requires tree.Valid() && c.kind.Put? && DeepIn(tree, c, n, y) && 0.0 <= x <= y
    ensures DeepIn(tree, c, n, x)
  {
    MulNonNegative(y - x, Pow(tree.u, n));
  }

  lemma DeepPuts(tree: Tree, c: Contract, n: nat, x: real, spot: real, y: real)
    requires tree.Valid() && tree.disc == 1.0 && Carry(tree) == 1.0
    requires c == Contract(Put, Times(y, Pow(tree.u, n))) && 0.0 <= x <= y && 0.0 <= spot <= y
    requires 0.0 <= c.strike
    ensures Value(tree, c, n, x) == c.strike - x
    ensures Value(tree, c, n, spot) == c.strike - spot
    ensures Value(tree, c, n, y) == c.strike - y
  {
    DeepPutBelow(tree, c, n, spot, y);
    DeepPutBelow(tree, c, n, x, y);
    DeepPutIsShortStock(tree, c, n, x);
    DeepPutIsShortStock(tree, c, n, spot);
    DeepPutIsShortStock(tree, c, n, y);
  }

  /** The reported gamma is the lattice's. */
  lemma ReportedGamma(inp: Inputs, pr: Pricings)
    requires inp.Valid() && 0.0 < inp.Years() && pr.Valid() && OnTree(inp, pr.base.market) && PriceGreeks(inp, pr).Success?
    ensures PriceGreeks(inp, pr).value.gamma == TreeGamma(pr.base.market.ToTree(), inp.contract, inp.treeSteps, inp.spot)
  {
    hide Value, Gamma, Delta, Vega, VolBump;
  }

  /** A market without interest or dividends, in which one move doubles or halves the spot. */
  const FAIR_MARKET := Market(2.0, 1.0, 1.0)

  lemma Implies(mk: Market, d: real, p: real)
    requires 1.0 < mk.u && 0.0 < mk.growth && 0.0 < mk.disc
    requires d * mk.u == 1.0 && mk.growth - d == p * (mk.u - d)
    ensures mk.Valid() && mk.Down() == d && mk.ToTree() == Tree(mk.u, p, mk.disc)
  {
    assert mk.Down() == d;
    assert (mk.growth - d) / (mk.u - d) == p;
  }

  lemma PricesWhen(mk: Market, d: real, p: real, years: real)
    requires 1.0 < mk.u && 0.0 < mk.growth && 0.0 < mk.disc
    requires d * mk.u == 1.0 && mk.growth - d == p * (mk.u - d) && 0.0 <= p <= 1.0
    ensures mk.Valid() && Prices(mk, years)
  {
    hide Market.Down, Market.ToTree;
    Implies(mk, d, p);
  }

  lemma FairMarket()
    ensures FAIR_MARKET.Valid() && FAIR_MARKET.ToTree().Valid() && FAIR_MARKET.ToTree() == Tree(2.0, 1.0 / 3.0, 1.0)
    ensures FAIR_MARKET.u - FAIR_MARKET.Down() >= MIN_DENOMINATOR
    ensures Carry(FAIR_MARKET.ToTree()) == 1.0
  {
    hide Market.Down, Market.ToTree, Growth;
    Implies(FAIR_MARKET, 0.5, 1.0 / 3.0);
    ImpliedProbabilityIsRiskNeutral(FAIR_MARKET);
  }

  /** The bumps of that market: all of them imply probabilities. */
  function FairPricings(closedForm: real -> real): Pricings {
    Pricings(Pricing(FAIR_MARKET, closedForm), Pricing(Market(3.0, 1.0, 1.0), closedForm), Pricing(Market(1.5, 1.0, 1.0), closedForm),
             Pricing(Market(1.5, 1.0, 1.0), closedForm),
             Pricing(Market(2.0, 1.25, 0.8), closedForm), Pricing(Market(2.0, 0.8, 1.25), closedForm))
  }

  lemma FairPricingsValid(closedForm: real -> real)
    ensures FairPricings(closedForm).Valid()
  {
  }

  lemma FairPricingsPrice(closedForm: real -> real, years: real, shorter: real)
    requires FairPricings(closedForm).Valid()
    ensures var pr := FairPricings(closedForm);
            && Prices(pr.base.market, years) && Prices(pr.volUp.market, years) && Prices(pr.volDown.market, years)
            && Prices(pr.shorter.market, shorter) && Prices(pr.rateUp.market, years) && Prices(pr.rateDown.market, years)
  {
    hide Prices, Market.Down, Market.ToTree;
    PricesWhen(FAIR_MARKET, 0.5, 1.0 / 3.0, years);
    PricesWhen(Market(3.0, 1.0, 1.0), 1.0 / 3.0, 0.25, years);
    PricesWhen(Market(1.5, 1.0, 1.0), 2.0 / 3.0, 0.4, years);
    PricesWhen(Market(1.5, 1.0, 1.0), 2.0 / 3.0, 0.4, shorter);
    PricesWhen(Market(2.0, 1.25, 0.8), 0.5, 0.5, years);
    PricesWhen(Market(2.0, 0.8, 1.25), 0.5, 0.2, years);
  }

  lemma FairPricingsSucceed(inp: Inputs, closedForm: real -> real)
    requires inp.Valid()
    ensures FairPricings(closedForm).Valid() && PriceGreeks(inp, FairPricings(closedForm)).Success?
  {
    hide PriceGreeks, Prices, FairPricings, Pricings.Valid, Inputs.Years, ShorterYears;
    FairPricingsValid(closedForm);
    FairPricingsPrice(closedForm, inp.Years(), ShorterYears(inp));
    SucceedsExactly(inp, FairPricings(closedForm));
  }

  /** Ten years of an American put on one hundred shares. */
  function PutAt(spot: real, strike: real): (inp: Inputs)
    requires 0.0 < spot && 0.0 < strike
    ensures inp.Valid() && 0.0 < inp.Years() && inp.style.American?
  {
    Inputs(spot, Contract(Put, strike), 0.5, 3650.0, American, 1, 100.0, 0.0, 10, 0.0)
  }

  /** Struck so high that every path of ten steps stays in the money. */
  function DeepPut(spot: real): Inputs
    requires 0.0 < spot
  {
    PutAt(spot, Times(spot + Bump(spot), Pow(2.0, 10)))
  }

  /** When the floor cuts the down-bump short, that put is priced and its gamma is negative. */
  lemma FlooredGamma(spot: real, closedForm: real -> real)
    requires 0.0 < spot && Floored(spot)
    ensures DeepPut(spot).Valid() && 0.0 < DeepPut(spot).Years() && FairPricings(closedForm).Valid()
    ensures OnTree(DeepPut(spot), FAIR_MARKET) && PriceGreeks(DeepPut(spot), FairPricings(closedForm)).Success?
    ensures PriceGreeks(DeepPut(spot), FairPricings(closedForm)).value.gamma < 0.0
  {
    hide PriceGreeks, TreeGamma, OnTree, Pricings.Valid, Floored, Inputs.Valid, Inputs.Years, Carry, Market.ToTree, Tree.Valid, Times;
    var inp, pr := DeepPut(spot), FairPricings(closedForm);
    FairMarketIsTree(inp);
    FairPricingsSucceed(inp, closedForm);
    FairMarket();
    ReportedGamma(inp, pr);
    FlooredTreeGamma(FAIR_MARKET.ToTree(), spot, 10);
  }

  lemma FairMarketIsTree(inp: Inputs)
    requires inp.style.American?
    ensures OnTree(inp, FAIR_MARKET)
  {
    hide Market.Down, Market.ToTree;
    FairMarket();
  }

  lemma FlooredTreeGamma(tree: Tree, spot: real, n: nat)
    requires tree.Valid() && tree.disc == 1.0 && Carry(tree) == 1.0 && 0.0 < spot && Floored(spot)
    ensures TreeGamma(tree, Contract(Put, Times(spot + Bump(spot), Pow(tree.u, n))), n, spot) < 0.0
  {
    hide Carry, Value, Times;
    var h, x := Bump(spot), BumpedDown(spot);
    var y := spot + h;
    var c := Contract(Put, Times(y, Pow(tree.u, n)));
    DeepPuts(tree, c, n, x, spot, y);
    GammaSign(c.strike - y, c.strike - spot, c.strike - x, h);
  }

  /** The core prices the option on a proper tree and reports Greeks. */
  predicate Reports(inp: Inputs, pr: Pricings) {
    inp.Valid() && 0.0 < inp.Years() && pr.Valid() && OnTree(inp, pr.base.market) && PriceGreeks(inp, pr).Success?
  }

  /** At a given spot, every gamma the core reports from a tree is non-negative exactly when
      the down-bump is not floored. */
  lemma GammaNonNegativeExactly(spot: real)
    requires 0.0 < spot
    ensures (forall inp: Inputs, pr: Pricings | Reports(inp, pr) && inp.spot == spot :: PriceGreeks(inp, pr).value.gamma >= 0.0)
        <==> !Floored(spot)
  {
    hide PriceGreeks;
    if Floored(spot) {
      var inp, pr := DeepPut(spot), FairPricings((x: real) => 0.0);
      FlooredGamma(spot, (x: real) => 0.0);
      assert Reports(inp, pr);
    } else {
      forall inp: Inputs, pr: Pricings | Reports(inp, pr) && inp.spot == spot
        ensures PriceGreeks(inp, pr).value.gamma >= 0.0
      {
        ReportedGamma(inp, pr);
        GammaOfConvex(pr.base.market.ToTree(), inp.contract, inp.treeSteps, spot);
      }
    }
  }

  // ----- the hedge itself -----

  /** The finite differences, priced one after the other. */
  method CalculatePriceGreeks(inp: Inputs, pr: Pricings) returns (r: Outcome<Greeks>)
    requires inp.Valid() && (0.0 < inp.Years() ==> pr.Valid())
    ensures r == PriceGreeks(inp, pr)
  {
    hide ModelPrice, EuropeanPrice, Delta, Gamma, Vega, VolBump;
    var years := inp.Years();
    var price := ComputeModelPrice(inp, pr.base, years, inp.spot);
    if price.InvalidProbability? {
      return Failure(Error.InvalidProbability);
    }
    var european := EuropeanPrice(inp, pr.base, years, inp.spot);
    var out := Greeks(price.value, european, Max(0.0, price.value - european), 0.0, 0.0, 0.0, 0.0, 0.0);
    if years <= 0.0 {
      return Success(out.(delta := ExpiryDelta(inp.contract, inp.spot)));
    }
    ghost var bumped := BumpedPrices(inp, pr);
    var h, volBump, shorter := Bump(inp.spot), VolBump(inp.volatility), ShorterYears(inp);
    var sUp := ComputeModelPrice(inp, pr.base, years, inp.spot + h);
    assert sUp == bumped[0];
    if sUp.InvalidProbability? {
      return Failure(Error.InvalidProbability);
    }
    var sDn := ComputeModelPrice(inp, pr.base, years, BumpedDown(inp.spot));
    assert sDn == bumped[1];
    if sDn.InvalidProbability? {
      return Failure(Error.InvalidProbability);
    }
    out := out.(delta := Delta(sUp.value, sDn.value, h), gamma := Gamma(sUp.value, out.price, sDn.value, h));
    var vUp := ComputeModelPrice(inp, pr.volUp, years, inp.spot);
    assert vUp == bumped[2];
    if vUp.InvalidProbability? {
      return Failure(Error.InvalidProbability);
    }
    var vDn := ComputeModelPrice(inp, pr.volDown, years, inp.spot);
    assert vDn == bumped[3];
    if vDn.InvalidProbability? {
      return Failure(Error.InvalidProbability);
    }
    out := out.(vegaPerVolPoint := Vega(vUp.value, vDn.value, volBump));
    var later := ComputeModelPrice(inp, pr.shorter, shorter, inp.spot);
    assert later == bumped[4];
    if later.InvalidProbability? {
      return Failure(Error.InvalidProbability);
    }
    out := out.(thetaPerDay := later.value - out.price);
    var rUp := ComputeModelPrice(inp, pr.rateUp, years, inp.spot);
    assert rUp == bumped[5];
    if rUp.InvalidProbability? {
      return Failure(Error.InvalidProbability);
    }
    var rDn := ComputeModelPrice(inp, pr.rateDown, years, inp.spot);
    assert rDn == bumped[6];
    if rDn.InvalidProbability? {
      return Failure(Error.InvalidProbability);
    }
    out := out.(rhoPerRatePoint := 0.5 * (rUp.value - rDn.value));
    return Success(out);
  }

  method ComputeModelPrice(inp: Inputs, pricing: Pricing, years: real, spot: real) returns (price: Price)
    requires inp.Valid() && (0.0 < years ==> pricing.market.Valid())
    ensures price == ModelPrice(inp, pricing, years, spot)
  {
    var european := EuropeanPrice(inp, pricing, years, spot);
    if inp.style.European? {
      return Ok(european);
    }
    price := BinomialAmericanPrice(pricing.market, inp.contract, years, inp.treeSteps, spot, european);
  }

  /** Shares the option position is equivalent to. */
  function PositionDelta(inp: Inputs, delta: real): real {
    inp.contracts as real * inp.multiplier * delta
  }

  function GammaPnl(inp: Inputs, gamma: real, move: real): real {
    0.5 * gamma * move * move * inp.contracts as real * inp.multiplier
  }

  function HedgeFor(inp: Inputs, greeks: Greeks): Result {
    var position := PositionDelta(inp, greeks.delta);
    var raw := -position - inp.currentShares;
    var hold := Abs(raw) <= inp.noTradeBand;
    var recommended := if hold then 0.0 else raw;
    Result(greeks, position, -position, raw, recommended, hold, Notional(recommended, inp.spot),
           GammaPnl(inp, greeks.gamma, 0.01 * inp.spot))
  }

  /** The core's answer, filled in field by field after the argument checks. */
  method Calculate(inp: Inputs, pr: Pricings) returns (r: Outcome<Result>)
    requires inp.Valid() && 0.0 < inp.Years() ==> pr.Valid()
    ensures r == if !inp.Valid() then Failure(InvalidArgument)
                 else match PriceGreeks(inp, pr)
                      case Failure(e) => Failure(e)
                      case Success(greeks) => Success(HedgeFor(inp, greeks))
  {
    if !inp.Valid() {
      return Failure(InvalidArgument);
    }
    var priced := CalculatePriceGreeks(inp, pr);
    if priced.Failure? {
      return Failure(priced.error);
    }
    var result := Result(priced.value, 0.0, 0.0, 0.0, 0.0, false, 0.0, 0.0);
    result := result.(optionPositionDeltaShares := PositionDelta(inp, result.greeks.delta));
    result := result.(targetStockShares := -result.optionPositionDeltaShares);
    result := result.(rawTradeShares := result.targetStockShares - inp.currentShares);
    var insideBand := Abs(result.rawTradeShares) <= inp.noTradeBand;
    result := result.(recommendedTradeShares := if insideBand then 0.0 else result.rawTradeShares, holdInsideBand := insideBand);
    result := result.(stockNotional := Notional(result.recommendedTradeShares, inp.spot));
    result := result.(gammaPnlForOnePercent := GammaPnl(inp, result.greeks.gamma, 0.01 * inp.spot));
    return Success(result);
  }

  lemma PositionDeltaBound(inp: Inputs, delta: real)
    requires 0.0 < inp.multiplier && -1.0 <= delta <= 1.0
    ensures Abs(PositionDelta(inp, delta)) <= Abs(inp.contracts as real) * inp.multiplier
  {
    var signed := inp.contracts as real * inp.multiplier;
    if inp.contracts >= 0 {
      MulNonNegative(inp.contracts as real, inp.multiplier);
      MulNonNegative(signed, 1.0 - delta);
      MulNonNegative(signed, 1.0 + delta);
    } else {
      MulNonNegative(-inp.contracts as real, inp.multiplier);
      MulNonNegative(-signed, 1.0 - delta);
      MulNonNegative(-signed, 1.0 + delta);
    }
  }

  /** Whenever the core answers, it never asks for more shares than the options control, and
      after the recommended trade the position is within the no-trade band of the target. */
  lemma HedgeIsCovered(inp: Inputs, pr: Pricings)
    requires inp.Valid() && inp.style.American?
    requires 0.0 < inp.Years() ==> pr.Valid() && OnTree(inp, pr.base.market) && Times(pr.base.market.disc, pr.base.market.growth) <= 1.0
    ensures PriceGreeks(inp, pr).Success? ==>
      var v := HedgeFor(inp, PriceGreeks(inp, pr).value);
      && Abs(v.targetStockShares) <= Abs(inp.contracts as real) * inp.multiplier
      && Abs(inp.currentShares + v.recommendedTradeShares - v.targetStockShares) <= inp.noTradeBand
  {
    hide PriceGreeks;
    DeltaWithinOneShare(inp, pr);
    if PriceGreeks(inp, pr).Success? {
      var greeks := PriceGreeks(inp, pr).value;
      PositionDeltaBound(inp, greeks.delta);
      RecommendedTradeReachesBand(inp, greeks);
    }
  }

  lemma RecommendedTradeReachesBand(inp: Inputs, greeks: Greeks)
    requires 0.0 <= inp.noTradeBand
    ensures var v := HedgeFor(inp, greeks);
            && Abs(inp.currentShares + v.recommendedTradeShares - v.targetStockShares) <= inp.noTradeBand
            && v.targetStockShares == -PositionDelta(inp, greeks.delta)
  {
  }

  // ----- what the answer means -----

  /** The bump and the lower spot, in numbers: a tenth of a percent but at least a cent, and
      nothing below a hundred-millionth. */
  predicate IsBump(spot: real, h: real, low: real) {
    && 0.01 <= h && spot * 0.001 <= h && (h == 0.01 || h == spot * 0.001)
    && 0.00000001 <= low && spot - h <= low && (low == 0.00000001 || low == spot - h)
  }

  lemma BumpsAreTheCodes(spot: real, h: real, low: real)
    requires IsBump(spot, h, low)
    ensures h == Bump(spot) && low == BumpedDown(spot)
  {
  }

  /** What options of this size gain while their price rises by `rise` is what so much stock
      loses over the same move of the spot. */
  predicate Offsets(size: real, rise: real, stock: real, move: real) {
    size * rise + stock * move == 0.0
  }

  lemma TargetOffsets(inp: Inputs, greeks: Greeks, up: real, dn: real, h: real)
    requires 0.0 < h && greeks.delta == Delta(up, dn, h)
    ensures Offsets(inp.contracts as real * inp.multiplier, up - dn, HedgeFor(inp, greeks).targetStockShares, 2.0 * h)
  {
    hide Notional, GammaPnl;
    var size := inp.contracts as real * inp.multiplier;
    assert greeks.delta * (2.0 * h) == up - dn;
    assert size * (greeks.delta * (2.0 * h)) == (size * greeks.delta) * (2.0 * h);
  }

  /** The target offsets the options: when the spot goes from the lower to the upper bump, what
      the position gains in the lattice's prices, the target stock position loses. */
  lemma TargetNeutralises(inp: Inputs, pr: Pricings, h: real, low: real)
    requires Reports(inp, pr) && IsBump(inp.spot, h, low)
    ensures var tree, n := pr.base.market.ToTree(), inp.treeSteps;
            Offsets(inp.contracts as real * inp.multiplier,
                    Value(tree, inp.contract, n, inp.spot + h) - Value(tree, inp.contract, n, low),
                    HedgeFor(inp, PriceGreeks(inp, pr).value).targetStockShares, 2.0 * h)
  {
    BumpsAreTheCodes(inp.spot, h, low);
    ReportedDelta(inp, pr);
    hide *;
    var tree, n := pr.base.market.ToTree(), inp.treeSteps;
    TargetOffsets(inp, PriceGreeks(inp, pr).value, Value(tree, inp.contract, n, inp.spot + h), Value(tree, inp.contract, n, low), h);
  }

  lemma ReportedDelta(inp: Inputs, pr: Pricings)
    requires Reports(inp, pr)
    ensures var tree := pr.base.market.ToTree();
            PriceGreeks(inp, pr).value.delta == Delta(Value(tree, inp.contract, inp.treeSteps, inp.spot + Bump(inp.spot)),
              Value(tree, inp.contract, inp.treeSteps, BumpedDown(inp.spot)), Bump(inp.spot))
  {
    hide Value, Gamma, Delta, Vega, VolBump;
  }

  /** Long calls and short puts are hedged by selling stock, short calls and long puts by buying it. */
  lemma TargetHasTheRightSign(inp: Inputs, pr: Pricings)
    requires Reports(inp, pr)
    ensures var target := HedgeFor(inp, PriceGreeks(inp, pr).value).targetStockShares;
            if inp.contract.kind.Call? == (inp.contracts >= 0) then target <= 0.0 || inp.contracts == 0 else 0.0 <= target
  {
    ReportedDelta(inp, pr);
    hide PriceGreeks, Value;
    var tree, n, c := pr.base.market.ToTree(), inp.treeSteps, inp.contract;
    var h, low := Bump(inp.spot), BumpedDown(inp.spot);
    MonotoneInSpot(tree, c, n, low, inp.spot + h);
    DeltaSign(Value(tree, c, n, inp.spot + h), Value(tree, c, n, low), h);
    SizeSign(inp, PriceGreeks(inp, pr).value.delta);
  }

  lemma DeltaSign(up: real, dn: real, h: real)
    requires 0.0 < h
    ensures dn <= up ==> 0.0 <= Delta(up, dn, h)
    ensures up <= dn ==> Delta(up, dn, h) <= 0.0
  {
    Quotient(0.0, 2.0 * h, up - dn);
  }

  lemma SizeSign(inp: Inputs, delta: real)
    requires 0.0 < inp.multiplier
    ensures inp.contracts >= 0 && delta >= 0.0 ==> PositionDelta(inp, delta) >= 0.0
    ensures inp.contracts >= 0 && delta <= 0.0 ==> PositionDelta(inp, delta) <= 0.0
    ensures inp.contracts <= 0 && delta >= 0.0 ==> PositionDelta(inp, delta) <= 0.0
    ensures inp.contracts <= 0 && delta <= 0.0 ==> PositionDelta(inp, delta) >= 0.0
  {
    var size := inp.contracts as real * inp.multiplier;
    MulNonNegative(Abs(inp.contracts as real), inp.multiplier);
    assert if inp.contracts >= 0 then 0.0 <= size else size <= 0.0;
    MulNonNegative(Abs(size), Abs(delta));
  }

  /** At expiry an option is its payoff: a share for every option in the money, none out of the
      money, half of one exactly at the strike. */
  lemma TargetAtExpiry(inp: Inputs, pr: Pricings)
    requires inp.Valid() && inp.daysToExpiry == 0.0
    ensures PriceGreeks(inp, pr).Success?
    ensures var v := HedgeFor(inp, PriceGreeks(inp, pr).value);
            var size := inp.contracts as real * inp.multiplier;
            && (inp.spot > inp.contract.strike ==> v.targetStockShares == if inp.contract.kind.Call? then -size else 0.0)
            && (inp.spot < inp.contract.strike ==> v.targetStockShares == if inp.contract.kind.Call? then 0.0 else size)
            && (inp.spot == inp.contract.strike ==> 2.0 * v.targetStockShares == if inp.contract.kind.Call? then -size else size)
            && v.greeks.price == (if inp.contract.kind.Call? then Max(inp.spot - inp.contract.strike, 0.0) else Max(inp.contract.strike - inp.spot, 0.0))
  {
  }

  /** The rest of the answer, from the target: stand still within the band, else go all the way. */
  lemma AnswerFromTarget(inp: Inputs, greeks: Greeks)
    ensures var v := HedgeFor(inp, greeks);
            && v.optionPositionDeltaShares + v.targetStockShares == 0.0
            && inp.currentShares + v.rawTradeShares == v.targetStockShares
            && (v.holdInsideBand <==> -inp.noTradeBand <= v.targetStockShares - inp.currentShares <= inp.noTradeBand)
            && (if v.holdInsideBand then v.recommendedTradeShares == 0.0 else inp.currentShares + v.recommendedTradeShares == v.targetStockShares)
            && v.stockNotional == (if v.recommendedTradeShares < 0.0 then -(v.recommendedTradeShares * inp.spot) else v.recommendedTradeShares * inp.spot)
            && 2.0 * v.gammaPnlForOnePercent
               == greeks.gamma * (0.01 * inp.spot) * (0.01 * inp.spot) * (inp.contracts as real) * inp.multiplier
  {
    var g, m, c, k := greeks.gamma, 0.01 * inp.spot, inp.contracts as real, inp.multiplier;
    assert 0.5 * g * m * m * c * k == 0.5 * (g * m * m * c * k);
  }

  /** The reported price is what the best exercise strategy is worth: no strategy is worth more,
      and one is worth as much. */
  lemma PriceIsBestStrategy(inp: Inputs, pr: Pricings, rule: Stopping.Rule)
    requires Reports(inp, pr)
    ensures var tree, n, price := pr.base.market.ToTree(), inp.treeSteps, PriceGreeks(inp, pr).value.price;
            && Stopping.Expected(tree, inp.contract, inp.spot, rule, [], n) <= price
            && Stopping.Expected(tree, inp.contract, inp.spot, Stopping.Greedy(tree, inp.contract, inp.spot, n), [], n) == price
  {
    ReportedPrice(inp, pr);
    hide PriceGreeks, Value;
    Stopping.NoRuleBeatsTheLattice(pr.base.market.ToTree(), inp.contract, inp.treeSteps, inp.spot, rule);
    Stopping.GreedyAttainsTheLattice(pr.base.market.ToTree(), inp.contract, inp.treeSteps, inp.spot);
  }

  lemma ReportedPrice(inp: Inputs, pr: Pricings)
    requires Reports(inp, pr)
    ensures PriceGreeks(inp, pr).value.price == Value(pr.base.market.ToTree(), inp.contract, inp.treeSteps, inp.spot)
  {
    hide Value, Gamma, Delta, Vega, VolBump;
  }

  /** The value of the tree, or the closed form where the step is too small for one. */
  function TreePrice(inp: Inputs, pricing: Pricing): real
    requires inp.Valid() && pricing.market.Valid()
  {
    if pricing.market.u - 1.0 / pricing.market.u < 0.000000000000001 then pricing.closedForm(inp.spot)
    else if pricing.market.ToTree().Valid() then Value(pricing.market.ToTree(), inp.contract, inp.treeSteps, inp.spot)
    else 0.0
  }

  lemma PricedOnTree(inp: Inputs, pricing: Pricing, years: real)
    requires inp.Valid() && inp.style.American? && 0.0 < years && pricing.market.Valid() && ModelPrice(inp, pricing, years, inp.spot).Ok?
    ensures ModelPrice(inp, pricing, years, inp.spot).value == TreePrice(inp, pricing)
  {
    hide Value;
  }

  lemma ReportedOthers(inp: Inputs, pr: Pricings)
    requires Reports(inp, pr)
    ensures var p, g := BumpedPrices(inp, pr), PriceGreeks(inp, pr).value;
            && AllPriced(p) && g.vegaPerVolPoint == Vega(p[2].value, p[3].value, VolBump(inp.volatility))
            && g.thetaPerDay == p[4].value - g.price && g.rhoPerRatePoint == 0.5 * (p[5].value - p[6].value)
            && g.europeanPrice == pr.base.closedForm(inp.spot)
            && g.earlyExercisePremium == Max(0.0, g.price - g.europeanPrice)
  {
    hide ModelPrice, Gamma, Delta, Vega, VolBump;
  }

  /** The other Greeks, from the prices in the bumped markets: per volatility point for a bump of
      a quarter of the volatility but at most one point, per day, per rate point. On the last day
      the option decays to its payoff. */
  lemma OtherGreeks(inp: Inputs, pr: Pricings, volBump: real)
    requires Reports(inp, pr)
    requires volBump <= 0.01 && volBump <= inp.volatility * 0.25 && (volBump == 0.01 || volBump == inp.volatility * 0.25)
    ensures var g := PriceGreeks(inp, pr).value;
            && g.vegaPerVolPoint * (2.0 * volBump) == (TreePrice(inp, pr.volUp) - TreePrice(inp, pr.volDown)) * 0.01
            && g.price + g.thetaPerDay == (if inp.daysToExpiry > 1.0 then TreePrice(inp, pr.shorter) else Payoff(inp.contract, inp.spot))
            && g.rhoPerRatePoint * 2.0 == TreePrice(inp, pr.rateUp) - TreePrice(inp, pr.rateDown)
            && g.europeanPrice == pr.base.closedForm(inp.spot)
            && g.earlyExercisePremium == (if g.price > g.europeanPrice then g.price - g.europeanPrice else 0.0)
  {
    hide PriceGreeks, Value, Vega, ModelPrice, TreePrice, Pricings.Valid, OnTree;
    ReportedOthers(inp, pr);
    BumpsValid(pr);
    var p := BumpedPrices(inp, pr);
    assert p[2].Ok? && p[3].Ok? && p[4].Ok? && p[5].Ok? && p[6].Ok?;
    AmericanOnTree(inp, pr.base.market);
    PricedOnTree(inp, pr.volUp, inp.Years());
    PricedOnTree(inp, pr.volDown, inp.Years());
    PricedOnTree(inp, pr.rateUp, inp.Years());
    PricedOnTree(inp, pr.rateDown, inp.Years());
    PricedLater(inp, pr.shorter);
    VegaMeasures(TreePrice(inp, pr.volUp), TreePrice(inp, pr.volDown), volBump);
  }

  lemma AmericanOnTree(inp: Inputs, mk: Market)
    requires OnTree(inp, mk)
    ensures inp.style.American?
  {
  }

  lemma PricedLater(inp: Inputs, pricing: Pricing)
    requires inp.Valid() && inp.style.American? && 0.0 < inp.Years() && pricing.market.Valid() && ModelPrice(inp, pricing, ShorterYears(inp), inp.spot).Ok?
    ensures ModelPrice(inp, pricing, ShorterYears(inp), inp.spot).value ==
      if inp.daysToExpiry > 1.0 then TreePrice(inp, pricing) else Payoff(inp.contract, inp.spot)
  {
    hide TreePrice, Value;
    if inp.daysToExpiry > 1.0 {
      PricedOnTree(inp, pricing, ShorterYears(inp));
    }
  }

  lemma VegaMeasures(up: real, dn: real, volBump: real)
    requires 0.0 < volBump
    ensures Vega(up, dn, volBump) * (2.0 * volBump) == (up - dn) * 0.01
  {
    var q := (up - dn) / (2.0 * volBump);
    assert q * (2.0 * volBump) == up - dn;
    assert q * 0.01 * (2.0 * volBump) == q * (2.0 * volBump) * 0.01;
  }

  /** When a market is priced: at expiry, when the step is too small, or when the growth of one
      step lies between its two moves. */
  lemma PricesExactly(mk: Market, years: real)
    requires mk.Valid()
    ensures Prices(mk, years) <==> years <= 0.0 || mk.u - 1.0 / mk.u < 0.000000000000001 || 1.0 / mk.u <= mk.growth <= mk.u
  {
    var d := mk.Down();
    Quotient(0.0, mk.u - d, mk.growth - d);
    Quotient(1.0, mk.u - d, mk.growth - d);
  }

  /** The arguments that are priced at all. */
  lemma RejectedExactly(inp: Inputs)
    ensures !inp.Valid() <==>
      || inp.spot <= 0.0 || inp.contract.strike <= 0.0 || inp.volatility <= 0.0 || inp.volatility >= 10.0
      || inp.daysToExpiry < 0.0 || inp.daysToExpiry > 36500.0 || inp.multiplier <= 0.0
      || inp.treeSteps < 10 || inp.treeSteps > 20000 || inp.noTradeBand < 0.0
  {
  }
}
