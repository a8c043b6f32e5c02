/** The fail-closed policy gate between the deterministic core and a paper trade preview. */
module Policy {
  import opened Text
  import opened Reals
  import opened Rounding
  import opened Timestamp
  import Hedge

  /** A quantity the code may report as infinite. */
  datatype Extended = Finite(value: real) | Infinite

  predicate Exceeds(x: Extended, limit: real) {
    x.Infinite? || x.value > limit
  }

  datatype Quote = Quote(bid: real, ask: real, last: real, timestamp: string, marketState: string)
  {
    function Midpoint(): real {
      if bid > 0.0 && ask >= bid then 0.5 * (bid + ask) else last
    }

    function SpreadBps(): Extended {
      if Midpoint() <= 0.0 || ask < bid then Infinite else Finite((ask - bid) / Midpoint() * 10000.0)
    }
  }

  datatype PolicyConfig = PolicyConfig(
    modeIsPaper: bool, paperOnly: bool, maxQuoteAgeSeconds: real, maxSpreadBps: real, minDataQuality: real,
    minConfidence: real, minBandMultiplier: real, maxBandMultiplier: real, maxAbsTradeShares: real,
    maxPreviewNotional: real, allowFractionalShares: bool, requireMarketOpen: bool)

  datatype Warning = FromFeatures(text: string) | MissingFeatures(names: seq<string>) | ConfidenceTooLowForBandChange

  datatype Features = Features(warnings: seq<Warning>, missing: seq<string>, evidenceIds: set<string>, dataQuality: real)

  datatype Assessment = Assessment(evidenceIds: set<string>, confidence: real, bandMultiplier: real)

  datatype CoreResponse = CoreResponse(targetStockShares: real, currentShares: real, baseNoTradeBandShares: real)

  datatype Blocker =
    | LiveModeForbidden | InvalidQuote | StaleQuote | SpreadTooWide | DataQualityTooLow | ModelCitedUnknownEvidence
    | TradeShareLimit | PreviewNotionalLimit | MarketNotOpen

  datatype Action = ObserveBlocked | HoldInsideEffectiveBand | PaperRebalancePreview

  datatype Decision = Decision(
    action: Action, previewApproved: bool, liveExecutionAllowed: bool, effectiveBand: real, targetShares: real,
    currentShares: real, rawTrade: real, previewTrade: real, previewNotional: real, blockers: seq<Blocker>, multiplier: real)

  /** Everything the gate looks at besides the adviser. */
  datatype Inputs = Inputs(config: PolicyConfig, quote: Quote, features: Features, core: CoreResponse, now: Instant)

  function ClampLikePython(x: real, lo: real, hi: real): real {
    var raised := if x < lo then lo else x;
    if raised > hi then hi else raised
  }

  function SecondsBetween(from: Instant, to: Instant): real {
    (to.secs - from.secs) as real + (to.nanos - from.nanos) as real / 1000000000.0
  }

  /** Age in seconds, never negative; unreadable timestamps are infinitely old. */
  function QuoteAge(inp: Inputs): Extended {
    match Parse(inp.quote.timestamp)
    case None => Infinite
    case Some(t) => Finite(Max(SecondsBetween(t, inp.now), 0.0))
  }

  function Multiplier(config: PolicyConfig, a: Assessment): real {
    if a.confidence >= config.minConfidence then ClampLikePython(a.bandMultiplier, config.minBandMultiplier, config.maxBandMultiplier)
    else 1.0
  }

  function RawTrade(core: CoreResponse): real {
    core.targetStockShares - core.currentShares
  }

  function Band(base: real, multiplier: real): (r: real)
    ensures 0.0 <= r
  {
    Max(base * multiplier, 0.0)
  }

  function EffectiveBand(inp: Inputs, a: Assessment): real {
    Band(inp.core.baseNoTradeBandShares, Multiplier(inp.config, a))
  }

  predicate InsideBand(inp: Inputs, a: Assessment) {
    Abs(RawTrade(inp.core)) <= EffectiveBand(inp, a)
  }

  /** The core's trade in the shares the configuration allows. */
  function WholeTrade(inp: Inputs): real {
    if inp.config.allowFractionalShares then RawTrade(inp.core) else RoundHalfToEven(RawTrade(inp.core))
  }

  /** The trade before the gate has had its say. */
  function Candidate(inp: Inputs, a: Assessment): real {
    if InsideBand(inp, a) then 0.0 else WholeTrade(inp)
  }

  function CandidateNotional(inp: Inputs, a: Assessment): real {
    Notional(Candidate(inp, a), inp.quote.Midpoint())
  }

  /** The reason a check fails. */
  ghost predicate Blocks(b: Blocker, inp: Inputs, a: Assessment) {
    match b
    case LiveModeForbidden => !inp.config.paperOnly || !inp.config.modeIsPaper
    case InvalidQuote => inp.quote.Midpoint() <= 0.0
    case StaleQuote => Exceeds(QuoteAge(inp), inp.config.maxQuoteAgeSeconds)
    case SpreadTooWide => Exceeds(inp.quote.SpreadBps(), inp.config.maxSpreadBps)
    case DataQualityTooLow => inp.features.dataQuality < inp.config.minDataQuality
    case ModelCitedUnknownEvidence => !(a.evidenceIds <= inp.features.evidenceIds)
    case TradeShareLimit => Abs(Candidate(inp, a)) > inp.config.maxAbsTradeShares
    case PreviewNotionalLimit => CandidateNotional(inp, a) > inp.config.maxPreviewNotional
    case MarketNotOpen => inp.config.requireMarketOpen && inp.quote.marketState != "open" && !InsideBand(inp, a)
  }

  /** What a decision must be: each blocker is listed exactly when its check fails, and any
      blocker cancels the trade. */
  ghost predicate IsDecision(inp: Inputs, a: Assessment, d: Decision) {
    && (forall b :: b in d.blockers <==> Blocks(b, inp, a))
    && d.action == (if d.blockers != [] then ObserveBlocked else if InsideBand(inp, a) then HoldInsideEffectiveBand else PaperRebalancePreview)
    && d.previewApproved == (d.blockers == []) && !d.liveExecutionAllowed
    && d.effectiveBand == EffectiveBand(inp, a) && d.multiplier == Multiplier(inp.config, a)
    && d.targetShares == inp.core.targetStockShares && d.currentShares == inp.core.currentShares && d.rawTrade == RawTrade(inp.core)
    && d.previewTrade == (if d.blockers != [] then 0.0 else Candidate(inp, a))
    && d.previewNotional == (if d.blockers != [] then 0.0 else CandidateNotional(inp, a))
  }

  /** Appends a reason when its check fails. */
  function PushIf(blockers: seq<Blocker>, fails: bool, b: Blocker): (r: seq<Blocker>)
    ensures forall x :: x in r <==> x in blockers || (fails && x == b)
  {
    if fails then blockers + [b] else blockers
  }

  function Warnings(inp: Inputs, a: Assessment): seq<Warning> {
    inp.features.warnings
    + (if inp.features.missing != [] then [MissingFeatures(inp.features.missing)] else [])
    + (if a.confidence >= inp.config.minConfidence then [] else [ConfidenceTooLowForBandChange])
  }

  lemma ZeroRoundsToZero()
    ensures RoundHalfToEven(0.0) == 0.0
  {
    RoundsToZeroExactly(0.0);
  }

  /** The checks in the order the code makes them: first those of mode and data, ... */
  function DataBlockers(inp: Inputs): seq<Blocker> {
    PushIf(PushIf(PushIf(PushIf(PushIf([],
      !inp.config.paperOnly || !inp.config.modeIsPaper, LiveModeForbidden),
      inp.quote.Midpoint() <= 0.0, InvalidQuote),
      Exceeds(QuoteAge(inp), inp.config.maxQuoteAgeSeconds), StaleQuote),
      Exceeds(inp.quote.SpreadBps(), inp.config.maxSpreadBps), SpreadTooWide),
      inp.features.dataQuality < inp.config.minDataQuality, DataQualityTooLow)
  }

  /** ... then those of the advice and the trade. */
  function AllBlockers(inp: Inputs, a: Assessment): seq<Blocker> {
    PushIf(PushIf(PushIf(PushIf(DataBlockers(inp),
      a.evidenceIds - inp.features.evidenceIds != {}, ModelCitedUnknownEvidence),
      Abs(Candidate(inp, a)) > inp.config.maxAbsTradeShares, TradeShareLimit),
      CandidateNotional(inp, a) > inp.config.maxPreviewNotional, PreviewNotionalLimit),
      inp.config.requireMarketOpen && inp.quote.marketState != "open" && !InsideBand(inp, a), MarketNotOpen)
  }

  lemma BlockersAreExact(inp: Inputs, a: Assessment)
    ensures forall b :: b in AllBlockers(inp, a) <==> Blocks(b, inp, a)
  {
    hide PushIf, QuoteAge, Candidate, CandidateNotional, InsideBand, Exceeds;
    UnknownCitations(a.evidenceIds, inp.features.evidenceIds);
  }

  lemma UnknownCitations(cited: set<string>, allowed: set<string>)
    ensures cited <= allowed <==> cited - allowed == {}
  {
    assert forall id :: id in cited && id !in allowed ==> id in cited - allowed;
  }

  /** The gate as written: each check may push a blocker, the last step cancels the trade. */
  method EvaluatePolicy(inp: Inputs, a: Assessment) returns (d: Decision, warnings: seq<Warning>)
    ensures IsDecision(inp, a, d) && warnings == Warnings(inp, a)
  {
    hide Parse, RoundHalfToEven, QuoteAge, PushIf, Exceeds, Blocks, Band, Abs;
    var config := inp.config;
    var blockers: seq<Blocker> := [];
    warnings := inp.features.warnings;
    blockers := PushIf(blockers, !config.paperOnly || !config.modeIsPaper, LiveModeForbidden);
    var midpoint := inp.quote.Midpoint();
    blockers := PushIf(blockers, midpoint <= 0.0, InvalidQuote);
    blockers := PushIf(blockers, Exceeds(QuoteAge(inp), config.maxQuoteAgeSeconds), StaleQuote);
    blockers := PushIf(blockers, Exceeds(inp.quote.SpreadBps(), config.maxSpreadBps), SpreadTooWide);
    blockers := PushIf(blockers, inp.features.dataQuality < config.minDataQuality, DataQualityTooLow);
    assert blockers == DataBlockers(inp);
    hide DataBlockers, Quote.SpreadBps, QuoteAge;
    if inp.features.missing != [] {
      warnings := warnings + [MissingFeatures(inp.features.missing)];
    }
    blockers := PushIf(blockers, a.evidenceIds - inp.features.evidenceIds != {}, ModelCitedUnknownEvidence);
    var multiplier := 1.0;
    if a.confidence >= config.minConfidence {
      multiplier := ClampLikePython(a.bandMultiplier, config.minBandMultiplier, config.maxBandMultiplier);
    } else {
      warnings := warnings + [ConfidenceTooLowForBandChange];
    }
    assert multiplier == Multiplier(config, a);
    hide Multiplier, ClampLikePython;
    var rawTrade := inp.core.targetStockShares - inp.core.currentShares;
    var effectiveBand := Band(inp.core.baseNoTradeBandShares, multiplier);
    var insideBand := Abs(rawTrade) <= effectiveBand;
    var previewTrade := if insideBand then 0.0 else rawTrade;
    if !config.allowFractionalShares {
      previewTrade := RoundHalfToEven(previewTrade);
    }
    ZeroRoundsToZero();
    assert insideBand == InsideBand(inp, a) && effectiveBand == EffectiveBand(inp, a);
    assert previewTrade == Candidate(inp, a);
    hide InsideBand, Candidate, EffectiveBand;
    blockers := PushIf(blockers, Abs(previewTrade) > config.maxAbsTradeShares, TradeShareLimit);
    var notional := Notional(previewTrade, midpoint);
    blockers := PushIf(blockers, notional > config.maxPreviewNotional, PreviewNotionalLimit);
    blockers := PushIf(blockers, config.requireMarketOpen && inp.quote.marketState != "open" && !insideBand, MarketNotOpen);
    assert notional == CandidateNotional(inp, a);
    assert blockers == AllBlockers(inp, a);
    assert rawTrade == RawTrade(inp.core) && warnings == Warnings(inp, a);
    hide *;
    var action := PaperRebalancePreview;
    if blockers != [] {
      previewTrade, notional := 0.0, 0.0;
      action := ObserveBlocked;
    } else if insideBand {
      action := HoldInsideEffectiveBand;
    }
    d := Decision(action, blockers == [], false, effectiveBand, inp.core.targetStockShares, inp.core.currentShares,
                  rawTrade, previewTrade, notional, blockers, multiplier);
    DecisionIsRight(inp, a, d);
  }

  lemma DecisionIsRight(inp: Inputs, a: Assessment, d: Decision)
    requires d.blockers == AllBlockers(inp, a) && d.previewApproved == (d.blockers == []) && !d.liveExecutionAllowed
    requires d.action == (if d.blockers != [] then ObserveBlocked else if InsideBand(inp, a) then HoldInsideEffectiveBand else PaperRebalancePreview)
    requires d.effectiveBand == EffectiveBand(inp, a) && d.multiplier == Multiplier(inp.config, a)
    requires d.targetShares == inp.core.targetStockShares && d.currentShares == inp.core.currentShares && d.rawTrade == RawTrade(inp.core)
    requires d.previewTrade == (if d.blockers != [] then 0.0 else Candidate(inp, a))
    requires d.previewNotional == (if d.blockers != [] then 0.0 else CandidateNotional(inp, a))
    ensures IsDecision(inp, a, d)
  {
    hide AllBlockers, Blocks, InsideBand, EffectiveBand, Multiplier, Candidate, CandidateNotional;
    BlockersAreExact(inp, a);
  }

  // ----- what the gate guarantees -----

  /** Fail closed: a preview is approved exactly when no check fails; otherwise nothing is traded. */
  lemma FailsClosed(inp: Inputs, a: Assessment, d: Decision)
    requires IsDecision(inp, a, d)
    ensures d.previewApproved <==> forall b :: !Blocks(b, inp, a)
    ensures !d.previewApproved ==> d.previewTrade == 0.0 && d.previewNotional == 0.0 && d.action.ObserveBlocked?
    ensures !d.liveExecutionAllowed
  {
    hide Blocks, Candidate, CandidateNotional;
    if d.blockers != [] {
      assert Blocks(d.blockers[0], inp, a);
    }
  }

  /** An approved preview obeys both limits, and trades against a closed market only by standing still. */
  lemma ApprovedPreviewIsLimited(inp: Inputs, a: Assessment, d: Decision)
    requires IsDecision(inp, a, d) && d.previewApproved
    ensures Abs(d.previewTrade) <= inp.config.maxAbsTradeShares
    ensures d.previewNotional <= inp.config.maxPreviewNotional && d.previewNotional == Notional(d.previewTrade, inp.quote.Midpoint())
    ensures inp.config.requireMarketOpen && inp.quote.marketState != "open" ==> d.previewTrade == 0.0
  {
    hide Candidate, CandidateNotional, QuoteAge, Exceeds;
    assert !Blocks(TradeShareLimit, inp, a) && !Blocks(PreviewNotionalLimit, inp, a) && !Blocks(MarketNotOpen, inp, a);
    NotionalOfCandidate(inp, a);
  }

  lemma NotionalOfCandidate(inp: Inputs, a: Assessment)
    ensures CandidateNotional(inp, a) == Notional(Candidate(inp, a), inp.quote.Midpoint())
    ensures InsideBand(inp, a) ==> Candidate(inp, a) == 0.0
  {
    hide WholeTrade;
  }

  /** The adviser decides whether to trade, never how much: on the same inputs, any two
      assessments report the same target, position and raw trade, and preview nothing or the core's trade. */
  lemma AdviserOnlyWidensOrNarrows(inp: Inputs, a: Assessment, b: Assessment, d: Decision, e: Decision)
    requires IsDecision(inp, a, d) && IsDecision(inp, b, e)
    ensures d.targetShares == e.targetShares && d.currentShares == e.currentShares && d.rawTrade == e.rawTrade
    ensures d.previewTrade == 0.0 || d.previewTrade == WholeTrade(inp)
    ensures d.previewTrade != 0.0 && e.previewTrade != 0.0 ==> d.previewTrade == e.previewTrade && d.previewNotional == e.previewNotional
  {
    hide Blocks, WholeTrade, EffectiveBand;
  }

  /** A larger multiplier on the adviser's side never turns a hold into a trade. */
  lemma WiderBandKeepsHolds(inp: Inputs, a: Assessment, b: Assessment, d: Decision, e: Decision)
    requires IsDecision(inp, a, d) && IsDecision(inp, b, e)
    requires 0.0 <= inp.core.baseNoTradeBandShares && d.multiplier <= e.multiplier
    ensures d.effectiveBand <= e.effectiveBand
    ensures InsideBand(inp, a) ==> !e.action.PaperRebalancePreview? && e.previewTrade == 0.0
  {
    hide Blocks, WholeTrade, CandidateNotional;
    MulNonNegative(inp.core.baseNoTradeBandShares, e.multiplier - d.multiplier);
  }

  /** With a sane configuration the multiplier stays between the configured bounds, or is one. */
  lemma MultiplierIsBounded(config: PolicyConfig, a: Assessment)
    ensures config.minBandMultiplier <= config.maxBandMultiplier ==>
              Multiplier(config, a) == 1.0 || config.minBandMultiplier <= Multiplier(config, a) <= config.maxBandMultiplier
    ensures config.maxBandMultiplier < config.minBandMultiplier && a.confidence >= config.minConfidence ==>
              Multiplier(config, a) == config.maxBandMultiplier
  {
  }

  // ----- the checks in numbers -----

  /** Nanoseconds since the Unix epoch. */
  function Nanoseconds(t: Instant): int {
    t.secs * 1_000_000_000 + t.nanos
  }

  /** With a limit that is not negative, a quote is stale exactly when its timestamp is unreadable
      or lies further back than the limit: one from the future never is. */
  lemma StaleExactly(inp: Inputs, a: Assessment)
    requires 0.0 <= inp.config.maxQuoteAgeSeconds
    ensures Blocks(StaleQuote, inp, a) <==>
      match Parse(inp.quote.timestamp)
      case None => true
      case Some(t) => (inp.now.secs * 1_000_000_000 + inp.now.nanos) as real - (t.secs * 1_000_000_000 + t.nanos) as real
                      > inp.config.maxQuoteAgeSeconds * 1000000000.0
  {
    hide Parse;
  }

  /** With any limit, a stale quote stays stale. */
  lemma StaleStaysStale(inp: Inputs, later: Instant, a: Assessment)
    requires Blocks(StaleQuote, inp, a) && Nanoseconds(inp.now) <= Nanoseconds(later)
    ensures Blocks(StaleQuote, inp.(now := later), a)
  {
    hide Parse;
  }

  /** A quote is invalid exactly when it has no two-sided market and no positive last price. */
  lemma InvalidExactly(inp: Inputs, a: Assessment)
    ensures Blocks(InvalidQuote, inp, a) <==> !(inp.quote.bid > 0.0 && inp.quote.ask >= inp.quote.bid) && inp.quote.last <= 0.0
  {
  }

  /** The spread in ten-thousandths of the mid price, or of the last price without a bid; a
      crossed or unpriced quote always blocks. */
  lemma WideExactly(inp: Inputs, a: Assessment)
    ensures Blocks(SpreadTooWide, inp, a) <==>
      var q := inp.quote;
      if q.ask < q.bid then true
      else if q.bid > 0.0 then (q.ask - q.bid) * 20000.0 > inp.config.maxSpreadBps * (q.bid + q.ask)
      else q.last <= 0.0 || (q.ask - q.bid) * 10000.0 > inp.config.maxSpreadBps * q.last
  {
    var q := inp.quote;
    if q.bid <= q.ask && 0.0 < q.Midpoint() {
      RatioExceeds(q.ask - q.bid, q.Midpoint(), inp.config.maxSpreadBps);
      assert q.bid > 0.0 ==> inp.config.maxSpreadBps * (0.5 * (q.bid + q.ask)) == 0.5 * (inp.config.maxSpreadBps * (q.bid + q.ask));
    }
  }

  lemma RatioExceeds(x: real, y: real, limit: real)
    requires 0.0 < y
    ensures x / y * 10000.0 > limit <==> x * 10000.0 > limit * y
  {
    var q := x / y;
    var gap := q * 10000.0 - limit;
    assert q * y == x;
    assert gap * y == q * y * 10000.0 - limit * y;
    if gap > 0.0 {
      assert gap * y > 0.0;
    } else {
      MulNonNegative(-gap, y);
      assert -gap * y == -(gap * y);
    }
  }

  /** The multiplier the adviser gets: one if it is not sure enough, else its own, brought into
      the configured bounds; of crossed bounds the upper one wins. */
  lemma MultiplierExactly(inp: Inputs, a: Assessment, d: Decision)
    requires IsDecision(inp, a, d)
    ensures var lo, hi := inp.config.minBandMultiplier, inp.config.maxBandMultiplier;
            && (a.confidence < inp.config.minConfidence ==> d.multiplier == 1.0)
            && (a.confidence >= inp.config.minConfidence && lo <= a.bandMultiplier <= hi ==> d.multiplier == a.bandMultiplier)
            && (a.confidence >= inp.config.minConfidence && a.bandMultiplier < lo <= hi ==> d.multiplier == lo)
            && (a.confidence >= inp.config.minConfidence && (hi < a.bandMultiplier || hi < lo) ==> d.multiplier == hi)
  {
    hide Blocks, Candidate, CandidateNotional, InsideBand, EffectiveBand;
  }

  /** Whether an approved day holds: the target lies within the band of the position, which is
      the core's band times the multiplier. */
  lemma HoldsExactly(inp: Inputs, a: Assessment, d: Decision)
    requires IsDecision(inp, a, d) && d.previewApproved
    ensures var gap, band := inp.core.targetStockShares - inp.core.currentShares, inp.core.baseNoTradeBandShares * d.multiplier;
            && d.effectiveBand == (if band < 0.0 then 0.0 else band)
            && (d.action.HoldInsideEffectiveBand? <==> -d.effectiveBand <= gap <= d.effectiveBand)
            && (d.action.HoldInsideEffectiveBand? ==> d.previewTrade == 0.0)
  {
    hide Blocks, CandidateNotional, WholeTrade, Multiplier;
  }

  /** Which trade an approved rebalance previews, and what it is worth. */
  lemma TradesExactly(inp: Inputs, a: Assessment, d: Decision, r: int)
    requires IsDecision(inp, a, d) && d.action.PaperRebalancePreview?
    ensures var gap, q := inp.core.targetStockShares - inp.core.currentShares, inp.quote;
            && (inp.config.allowFractionalShares ==> d.previewTrade == gap)
            && (!inp.config.allowFractionalShares ==> (d.previewTrade == r as real <==> NearestEven(gap, r)))
            && d.previewNotional == (if d.previewTrade < 0.0 then -d.previewTrade else d.previewTrade)
                                    * (if q.bid > 0.0 && q.ask >= q.bid then (q.bid + q.ask) / 2.0 else q.last)
  {
    hide Blocks, RoundHalfToEven, EffectiveBand;
    RoundingIsNearestEven(RawTrade(inp.core), r);
  }

  /** What may not be exceeded by the trade that would be made, and when it would need an open
      market; `r` is the gap rounded. */
  lemma LimitsExactly(inp: Inputs, a: Assessment, d: Decision, r: int)
    requires IsDecision(inp, a, d) && NearestEven(inp.core.targetStockShares - inp.core.currentShares, r)
    ensures var gap, q := inp.core.targetStockShares - inp.core.currentShares, inp.quote;
            var inside := -d.effectiveBand <= gap <= d.effectiveBand;
            var shares := Abs(if inside then 0.0 else if inp.config.allowFractionalShares then gap else r as real);
            var price := if q.bid > 0.0 && q.ask >= q.bid then (q.bid + q.ask) / 2.0 else q.last;
            && (TradeShareLimit in d.blockers <==> shares > inp.config.maxAbsTradeShares)
            && (PreviewNotionalLimit in d.blockers <==> shares * price > inp.config.maxPreviewNotional)
            && (MarketNotOpen in d.blockers <==> inp.config.requireMarketOpen && q.marketState != "open" && !inside)
  {
    hide RoundHalfToEven, EffectiveBand, QuoteAge;
    RoundingIsNearestEven(RawTrade(inp.core), r);
  }

  /** The checks of mode and data, and what any blocker leads to. */
  lemma DataExactly(inp: Inputs, a: Assessment, d: Decision)
    requires IsDecision(inp, a, d)
    ensures LiveModeForbidden in d.blockers <==> !(inp.config.paperOnly && inp.config.modeIsPaper)
    ensures DataQualityTooLow in d.blockers <==> inp.features.dataQuality < inp.config.minDataQuality
    ensures ModelCitedUnknownEvidence in d.blockers <==> exists id :: id in a.evidenceIds && id !in inp.features.evidenceIds
    ensures d.blockers != [] <==> d.action.ObserveBlocked?
    ensures d.blockers != [] ==> !d.previewApproved && d.previewTrade == 0.0 && d.previewNotional == 0.0
  {
    hide Candidate, CandidateNotional, InsideBand, EffectiveBand, QuoteAge, Multiplier;
  }

  /** A warning for missing features and one for an unsure adviser, each exactly when due, behind
      those of the features. */
  lemma WarnsExactly(inp: Inputs, a: Assessment)
    ensures var w, n := Warnings(inp, a), |inp.features.warnings|;
            && n <= |w| && w[..n] == inp.features.warnings
            && (MissingFeatures(inp.features.missing) in w[n..] <==> inp.features.missing != [])
            && (ConfidenceTooLowForBandChange in w[n..] <==> a.confidence < inp.config.minConfidence)
            && |w| == n + (if inp.features.missing != [] then 1 else 0) + (if a.confidence < inp.config.minConfidence then 1 else 0)
  {
    var w, n := Warnings(inp, a), |inp.features.warnings|;
    var missing := if inp.features.missing != [] then [MissingFeatures(inp.features.missing)] else [];
    var unsure: seq<Warning> := if a.confidence >= inp.config.minConfidence then [] else [ConfidenceTooLowForBandChange];
    assert w == inp.features.warnings + (missing + unsure);
    assert w[n..] == missing + unsure;
  }

  /** How near the target the position is after the day, when the gate did not block. */
  lemma PositionAfterTrade(inp: Inputs, a: Assessment, d: Decision)
    requires IsDecision(inp, a, d) && d.previewApproved
    ensures var after := d.currentShares + d.previewTrade;
            && (d.action.HoldInsideEffectiveBand? ==> after == d.currentShares && Abs(d.targetShares - after) <= d.effectiveBand)
            && (d.action.PaperRebalancePreview? && inp.config.allowFractionalShares ==> after == d.targetShares)
            && (d.action.PaperRebalancePreview? && !inp.config.allowFractionalShares ==> Abs(d.targetShares - after) <= 0.5)
  {
    hide Blocks, CandidateNotional, RoundHalfToEven, EffectiveBand;
    RoundsToZeroExactly(RawTrade(inp.core));
  }

  /** A rebalancing preview can still be for no shares: it moves the position exactly when
      fractional shares are allowed or the raw trade exceeds half a share. */
  lemma RebalanceMovesExactly(inp: Inputs, a: Assessment, d: Decision)
    requires IsDecision(inp, a, d) && d.action.PaperRebalancePreview?
    ensures d.previewTrade != 0.0 <==> inp.config.allowFractionalShares || Abs(d.rawTrade) > 0.5
  {
    hide Blocks, CandidateNotional, RoundHalfToEven, EffectiveBand;
    EffectiveBandNonNegative(inp, a);
    RoundsToZeroExactly(RawTrade(inp.core));
  }

  /** A quarter of a share outside an empty band, nothing against trading it. */
  function QuarterShare(now: Instant, stamp: string): Inputs {
    Inputs(PolicyConfig(true, true, 60.0, 100.0, 0.0, 0.0, 1.0, 1.0, 100.0, 10000.0, false, true),
           Quote(100.0, 100.0, 100.0, stamp, "open"), Features([], [], {}, 1.0), CoreResponse(0.25, 0.0, 0.0), now)
  }

  const CONFIDENT := Assessment({}, 1.0, 1.0)

  /** It is approved as a rebalance, and for no shares. */
  lemma ZeroSharePreview(now: Instant, stamp: string) returns (d: Decision)
    requires Parse(stamp) == Some(now)
    ensures IsDecision(QuarterShare(now, stamp), CONFIDENT, d)
    ensures d.action.PaperRebalancePreview? && d.previewApproved && d.previewTrade == 0.0
  {
    hide Blocks, Parse, Candidate, CandidateNotional, InsideBand, EffectiveBand, Multiplier, RoundHalfToEven;
    var inp := QuarterShare(now, stamp);
    QuarterRounds(inp);
    QuarterIsOutside(inp);
    forall b ensures !Blocks(b, inp, CONFIDENT) {
      NothingBlocksQuarter(now, stamp, b);
    }
    d := Decision(PaperRebalancePreview, true, false, 0.0, 0.25, 0.0, 0.25, 0.0, 0.0, [], 1.0);
  }

  lemma QuarterIsOutside(inp: Inputs)
    requires inp.core == CoreResponse(0.25, 0.0, 0.0) && inp.config.minConfidence == 0.0
    requires inp.config.minBandMultiplier == inp.config.maxBandMultiplier == 1.0
    ensures !InsideBand(inp, CONFIDENT) && EffectiveBand(inp, CONFIDENT) == 0.0 && Multiplier(inp.config, CONFIDENT) == 1.0
  {
    assert Multiplier(inp.config, CONFIDENT) == 1.0;
    assert Band(0.0, 1.0) == 0.0;
  }

  lemma QuarterRounds(inp: Inputs)
    requires inp.core == CoreResponse(0.25, 0.0, 0.0) && !inp.config.allowFractionalShares
    ensures Candidate(inp, CONFIDENT) == 0.0 && CandidateNotional(inp, CONFIDENT) == 0.0
  {
    hide RoundHalfToEven;
    RoundsToZeroExactly(0.25);
  }

  lemma NothingBlocksQuarter(now: Instant, stamp: string, b: Blocker)
    requires Parse(stamp) == Some(now)
    ensures !Blocks(b, QuarterShare(now, stamp), CONFIDENT)
  {
    hide Parse, RoundHalfToEven, Candidate, CandidateNotional;
    QuarterRounds(QuarterShare(now, stamp));
  }

  lemma EffectiveBandNonNegative(inp: Inputs, a: Assessment)
    ensures 0.0 <= EffectiveBand(inp, a)
  {
  }

  // ----- agreement with the core -----

  /** What the core's answer looks like to the gate. */
  function FromCore(inp: Hedge.Inputs, greeks: Hedge.Greeks): CoreResponse {
    CoreResponse(Hedge.HedgeFor(inp, greeks).targetStockShares, inp.currentShares, inp.noTradeBand)
  }

  /** With an unchanged band, fractional shares and nothing blocking, the gate previews exactly
      the trade the core recommends. */
  lemma GateAgreesWithCore(inp: Inputs, a: Assessment, d: Decision, core: Hedge.Inputs, greeks: Hedge.Greeks)
    requires IsDecision(inp, a, d) && d.previewApproved && d.multiplier == 1.0 && inp.config.allowFractionalShares
    requires core.Valid() && inp.core == FromCore(core, greeks)
    ensures d.previewTrade == Hedge.HedgeFor(core, greeks).recommendedTradeShares
    ensures d.action.HoldInsideEffectiveBand? == Hedge.HedgeFor(core, greeks).holdInsideBand
  {
    hide Blocks, CandidateNotional, RoundHalfToEven;
    assert d.effectiveBand == core.noTradeBand;
  }
}
