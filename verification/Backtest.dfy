/** The day-by-day backtest: each day's approved trade becomes the next day's position. */
module Backtest {
  import opened Reals
  import opened Policy
  import opened Timestamp

  /** What one day brings: market data, features, the core's target and the adviser's view. The
      core reports back the position it was given. */
  datatype Day =
    | Day(now: Instant, quote: Quote, features: Features, targetShares: real, baseBand: real, assessment: Assessment)
    | CoreFailed(message: string)

  datatype DailyResult = DailyResult(sharesBefore: real, decision: Decision, sharesAfter: real)

  datatype Report = Report(days: seq<DailyResult>, turnover: real, tradingDays: nat, finalShares: real)

  datatype Outcome = Completed(report: Report) | Failed(message: string)

  function GateInputs(config: PolicyConfig, day: Day, shares: real): Policy.Inputs
    requires day.Day?
  {
    Policy.Inputs(config, day.quote, day.features, CoreResponse(day.targetShares, shares, day.baseBand), day.now)
  }

  function SumTrades(days: seq<DailyResult>): real {
    if days == [] then 0.0 else SumTrades(days[..|days| - 1]) + days[|days| - 1].decision.previewTrade
  }

  function SumAbsTrades(days: seq<DailyResult>): real {
    if days == [] then 0.0 else SumAbsTrades(days[..|days| - 1]) + Abs(days[|days| - 1].decision.previewTrade)
  }

  function CountTrading(days: seq<DailyResult>): nat {
    if days == [] then 0
    else CountTrading(days[..|days| - 1]) + (if days[|days| - 1].decision.action.PaperRebalancePreview? then 1 else 0)
  }

  function SharesAfter(initial: real, days: seq<DailyResult>): real {
    if days == [] then initial else days[|days| - 1].sharesAfter
  }

  /** The days are a run: each starts where the last one ended, is decided by the gate on that
      position, and ends there plus the previewed trade. */
  ghost predicate IsRun(config: PolicyConfig, initial: real, inputs: seq<Day>, days: seq<DailyResult>) {
    |days| <= |inputs| &&
    forall i :: 0 <= i < |days| ==>
      && inputs[i].Day?
      && days[i].sharesBefore == SharesAfter(initial, days[..i])
      && IsDecision(GateInputs(config, inputs[i], days[i].sharesBefore), inputs[i].assessment, days[i].decision)
      && days[i].sharesAfter == days[i].sharesBefore + days[i].decision.previewTrade
  }

  ghost predicate IsReport(config: PolicyConfig, initial: real, inputs: seq<Day>, report: Report) {
    && IsRun(config, initial, inputs, report.days) && |report.days| == |inputs|
    && report.turnover == SumAbsTrades(report.days)
    && report.tradingDays == CountTrading(report.days)
    && report.finalShares == SharesAfter(initial, report.days)
  }

  lemma RunStep(config: PolicyConfig, initial: real, inputs: seq<Day>, days: seq<DailyResult>, next: DailyResult)
    requires IsRun(config, initial, inputs, days) && |days| < |inputs| && inputs[|days|].Day?
    requires next.sharesBefore == SharesAfter(initial, days)
    requires IsDecision(GateInputs(config, inputs[|days|], next.sharesBefore), inputs[|days|].assessment, next.decision)
    requires next.sharesAfter == next.sharesBefore + next.decision.previewTrade
    ensures IsRun(config, initial, inputs, days + [next])
  {
    hide IsDecision, GateInputs, SharesAfter;
    var all := days + [next];
    assert all[..|days|] == days;
    assert forall i :: 0 <= i < |days| ==> all[..i] == days[..i];
  }

  lemma SumsStep(days: seq<DailyResult>, next: DailyResult)
    ensures SumTrades(days + [next]) == SumTrades(days) + next.decision.previewTrade
    ensures SumAbsTrades(days + [next]) == SumAbsTrades(days) + Abs(next.decision.previewTrade)
    ensures CountTrading(days + [next]) == CountTrading(days) + (if next.decision.action.PaperRebalancePreview? then 1 else 0)
  {
    hide Abs;
    var all := days + [next];
    assert all[..|all| - 1] == days;
  }

  lemma NoDays()
    ensures SumTrades([]) == 0.0 && SumAbsTrades([]) == 0.0 && CountTrading([]) == 0
  {
  }

  /** One day counts its own trade: the size of it as turnover, and a trading day only if the gate
      rebalances. */
  lemma OneDayTotals(day: DailyResult)
    ensures var trade := day.decision.previewTrade;
      && SumTrades([day]) == trade && SumAbsTrades([day]) == (if trade < 0.0 then -trade else trade)
      && CountTrading([day]) == if day.decision.action == PaperRebalancePreview then 1 else 0
  {
    assert [] + [day] == [day];
    SumsStep([], day);
  }

  /** The totals of two stretches add up. */
  lemma {:induction false} TotalsAdd(a: seq<DailyResult>, b: seq<DailyResult>)
    ensures SumTrades(a + b) == SumTrades(a) + SumTrades(b)
    ensures SumAbsTrades(a + b) == SumAbsTrades(a) + SumAbsTrades(b)
    ensures CountTrading(a + b) == CountTrading(a) + CountTrading(b)
    decreases |b|
  {
    hide SumTrades, SumAbsTrades, CountTrading, Abs;
    NoDays();
    if b == [] {
      assert a + b == a;
    } else {
      var n := |b| - 1;
      TotalsAdd(a, b[..n]);
      SumsStep(a + b[..n], b[n]);
      SumsStep(b[..n], b[n]);
      assert a + b == (a + b[..n]) + [b[n]] && b == b[..n] + [b[n]];
    }
  }

  function Rebalanced(days: seq<DailyResult>): set<int> {
    set i | 0 <= i < |days| && days[i].decision.action == PaperRebalancePreview
  }

  /** The trading days of a report are the days the gate rebalanced, counted. */
  lemma {:induction false} TradingDaysAreCounted(days: seq<DailyResult>)
    ensures CountTrading(days) == |Rebalanced(days)|
    decreases |days|
  {
    hide CountTrading, SumAbsTrades, SumTrades, Rebalanced;
    NoDays();
    if days != [] {
      var n := |days| - 1;
      assert days == days[..n] + [days[n]];
      TradingDaysAreCounted(days[..n]);
      SumsStep(days[..n], days[n]);
      RebalancedStep(days[..n], days[n]);
    } else {
      NoneRebalanced();
    }
  }

  lemma NoneRebalanced()
    ensures Rebalanced([]) == {}
  {
  }

  lemma RebalancedStep(days: seq<DailyResult>, next: DailyResult)
    ensures |Rebalanced(days + [next])| == |Rebalanced(days)| + if next.decision.action == PaperRebalancePreview then 1 else 0
  {
    assert Rebalanced(days + [next]) == Rebalanced(days) + if next.decision.action == PaperRebalancePreview then {|days|} else {};
  }

  lemma NothingYet(config: PolicyConfig, initial: real, inputs: seq<Day>)
    ensures IsRun(config, initial, inputs, []) && SumAbsTrades([]) == 0.0 && CountTrading([]) == 0
  {
  }

  method RunBacktest(config: PolicyConfig, initial: real, inputs: seq<Day>) returns (outcome: Outcome)
    ensures outcome.Completed? ==> IsReport(config, initial, inputs, outcome.report)
    ensures outcome.Completed? <==> forall i :: 0 <= i < |inputs| ==> inputs[i].Day?
    ensures outcome.Failed? ==> exists k :: 0 <= k < |inputs| && inputs[k] == CoreFailed(outcome.message)
                                  && forall i :: 0 <= i < k ==> inputs[i].Day?
  {
    hide IsDecision, IsRun, SumAbsTrades, CountTrading, Abs, GateInputs;
    NothingYet(config, initial, inputs);
    var runningShares, turnover, tradingDays := initial, 0.0, 0;
    var days: seq<DailyResult> := [];
    for index := 0 to |inputs|
      invariant |days| == index && IsRun(config, initial, inputs, days)
      invariant runningShares == SharesAfter(initial, days)
      invariant turnover == SumAbsTrades(days) && tradingDays == CountTrading(days)
      invariant forall i :: 0 <= i < index ==> inputs[i].Day?
    {
      if inputs[index].CoreFailed? {
        return Failed(inputs[index].message);
      }
      var policy, warnings := EvaluatePolicy(GateInputs(config, inputs[index], runningShares), inputs[index].assessment);
      var trade := policy.previewTrade;
      turnover := turnover + Abs(trade);
      if policy.action == PaperRebalancePreview {
        tradingDays := tradingDays + 1;
      }
      var before := runningShares;
      runningShares := runningShares + trade;
      var result := DailyResult(before, policy, runningShares);
      RunStep(config, initial, inputs, days, result);
      SumsStep(days, result);
      days := days + [result];
    }
    return Completed(Report(days, turnover, tradingDays, runningShares));
  }

  // ----- conservation over the whole run -----

  /** What `n` trades within the limit can move together. */
  function Budget(n: nat, limit: real): real {
    n as real * limit
  }

  lemma BudgetStep(n: nat, limit: real)
    ensures Budget(n + 1, limit) == Budget(n, limit) + limit && Budget(0, limit) == 0.0
  {
  }

  /** The final position is the initial one plus the trades, and no run turns over more than the
      per-trade limit on its trading days. */
  lemma {:induction false} RunConserves(config: PolicyConfig, initial: real, inputs: seq<Day>, days: seq<DailyResult>)
    requires IsRun(config, initial, inputs, days)
    ensures SharesAfter(initial, days) == initial + SumTrades(days)
    ensures Abs(SumTrades(days)) <= SumAbsTrades(days) <= Budget(CountTrading(days), config.maxAbsTradeShares)
    decreases |days|
  {
    hide IsDecision, GateInputs, Budget;
    BudgetStep(0, config.maxAbsTradeShares);
    if days != [] {
      var n := |days| - 1;
      var init, last := days[..n], days[n];
      RunPrefix(config, initial, inputs, days, n);
      RunConserves(config, initial, inputs, init);
      DayIsLimited(config, inputs[n], last);
      BudgetStep(CountTrading(init), config.maxAbsTradeShares);
      assert days == init + [last];
      SumsStep(init, last);
    }
  }

  lemma RunPrefix(config: PolicyConfig, initial: real, inputs: seq<Day>, days: seq<DailyResult>, n: nat)
    requires IsRun(config, initial, inputs, days) && n <= |days|
    ensures IsRun(config, initial, inputs, days[..n])
  {
    hide IsDecision, GateInputs, SharesAfter;
    assert forall i :: 0 <= i < n ==> days[..n][..i] == days[..i];
  }

  /** One day moves nothing unless it is a trading day, and then no more than the limit. */
  lemma DayIsLimited(config: PolicyConfig, day: Day, result: DailyResult)
    requires day.Day? && IsDecision(GateInputs(config, day, result.sharesBefore), day.assessment, result.decision)
    ensures if result.decision.action.PaperRebalancePreview? then Abs(result.decision.previewTrade) <= config.maxAbsTradeShares
            else result.decision.previewTrade == 0.0
  {
    var inp := GateInputs(config, day, result.sharesBefore);
    if result.decision.previewApproved {
      ApprovedPreviewIsLimited(inp, day.assessment, result.decision);
    }
  }

  lemma BacktestConserves(config: PolicyConfig, initial: real, inputs: seq<Day>, report: Report)
    requires IsReport(config, initial, inputs, report)
    ensures report.finalShares == initial + SumTrades(report.days)
    ensures Abs(report.finalShares - initial) <= report.turnover <= Budget(report.tradingDays, config.maxAbsTradeShares)
  {
    hide IsRun, Budget, SumTrades, SumAbsTrades, CountTrading;
    RunConserves(config, initial, inputs, report.days);
  }

  /** After every unblocked day the position is near that day's target: within the band if held,
      on it or within half a share if rebalanced. After a blocked day it has not moved. */
  lemma EveryDayTracksItsTarget(config: PolicyConfig, initial: real, inputs: seq<Day>, report: Report, i: nat)
    requires IsReport(config, initial, inputs, report) && i < |inputs|
    ensures var r := report.days[i]; var target := inputs[i].targetShares;
            && r.sharesBefore == (if i == 0 then initial else report.days[i - 1].sharesAfter)
            && match r.decision.action
               case ObserveBlocked => r.sharesAfter == r.sharesBefore
               case HoldInsideEffectiveBand => r.sharesAfter == r.sharesBefore && Abs(target - r.sharesAfter) <= r.decision.effectiveBand
               case PaperRebalancePreview => Abs(target - r.sharesAfter) <= (if config.allowFractionalShares then 0.0 else 0.5)
  {
    var r := report.days[i];
    var inp := GateInputs(config, inputs[i], r.sharesBefore);
    assert i > 0 ==> report.days[..i][i - 1] == report.days[i - 1];
    FailsClosed(inp, inputs[i].assessment, r.decision);
    if r.decision.previewApproved {
      PositionAfterTrade(inp, inputs[i].assessment, r.decision);
    }
  }
}
