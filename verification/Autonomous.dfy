/** The autonomous loop: guard cycles under a stop file, an iteration cap and a circuit breaker. */
module Autonomous {
  import opened JsonValue
  import opened McpClient
  import opened Policy
  import opened Reals
  import opened Text

  // ----- one guard cycle -----

  datatype Side = Buy | Sell

  datatype Order = Order(side: Side, quantity: real)
  {
    function Signed(): real {
      if side.Buy? then quantity else -quantity
    }
  }

  datatype CycleOutcome = NoTradeProposed(action: Action, approved: bool) | Rejected(text: string) | Filled(value: Json)

  /** A cycle reports an outcome, or fails hard. */
  datatype CycleResult = Report(outcome: CycleOutcome) | Failed

  /** How the other processes behave during one cycle, should they be asked. */
  datatype World = World(
    recommendation: Option<Decision>, intelligence: Result<Json>, ingested: Result<Json>, history: Result<Json>,
    bundle: Result<Json>, guard: Result<Json>, submission: Result<Json>)
  {
    /** Everything up to the running guard went well; the history has a first record. */
    predicate Ready() {
      intelligence.Ok? && ingested.Ok? && history.Ok? && history.value.Array? && history.value.items != [] && bundle.Ok? && guard.Ok?
    }

    /** The cycle is a hard error: no recommendation, or a trade is asked for and a sibling fails;
        a refusal by the guard's tool is none. */
    predicate Fails() {
      recommendation.None?
      || (Proposes(recommendation.value) && (!Ready() || (submission.Err? && !submission.error.Tool?)))
    }
  }

  /** The recommendation asks for a trade. */
  predicate Proposes(d: Decision) {
    d.action.PaperRebalancePreview? && d.previewApproved && d.previewTrade != 0.0
  }

  /** The order a cycle must have sent to the guard, if it sent one. */
  predicate IsOrderOf(world: World, sent: Option<Order>) {
    if world.recommendation.Some? && Proposes(world.recommendation.value) && world.Ready() then
      sent.Some? && sent.value.quantity > 0.0 && sent.value.Signed() == world.recommendation.value.previewTrade
    else sent.None?
  }

  /** The order buys what the recommendation adds to the position and sells what it takes away. */
  lemma SideExactly(world: World, sent: Option<Order>)
    requires IsOrderOf(world, sent) && sent.Some?
    ensures world.recommendation.Some? && var trade := world.recommendation.value.previewTrade;
            sent.value == if trade > 0.0 then Order(Buy, trade) else Order(Sell, -trade)
  {
  }

  /** One cycle in the order of the code; `submitted` is what the guard was sent. */
  method RunGuardCycle(world: World) returns (result: CycleResult, submitted: Option<Order>)
    ensures result.Failed? <==> world.Fails()
    ensures IsOrderOf(world, submitted)
    ensures forall text :: result == Report(Rejected(text)) <==> submitted.Some? && world.submission == Err(Tool(text))
    ensures forall value :: result == Report(Filled(value)) <==> submitted.Some? && world.submission == Ok(value)
    ensures forall action, approved :: result == Report(NoTradeProposed(action, approved)) <==>
      world.recommendation.Some? && !Proposes(world.recommendation.value)
      && action == world.recommendation.value.action && approved == world.recommendation.value.previewApproved
  {
    result, submitted := Failed, None;
    if world.recommendation.None? {
      return;
    }
    var d := world.recommendation.value;
    if !d.action.PaperRebalancePreview? || !d.previewApproved || d.previewTrade == 0.0 {
      return Report(NoTradeProposed(d.action, d.previewApproved)), None;
    }
    if world.intelligence.Err? || world.ingested.Err? || world.history.Err? {
      return;
    }
    if !world.history.value.Array? || world.history.value.items == [] {
      return;
    }
    if world.bundle.Err? {
      return;
    }
    var side := if d.previewTrade > 0.0 then Buy else Sell;
    var order := Order(side, Abs(d.previewTrade));
    if world.guard.Err? {
      return;
    }
    submitted := Some(order);
    match world.submission
    case Ok(value) => result := Report(Filled(value));
    case Err(Tool(text)) => result := Report(Rejected(text));
    case Err(_) =>
  }

  /** When a cycle counts as an error: no recommendation; or one for a trade, and any step to a
      running guard fails, or the guard answers with anything but a result or a refusal. */
  lemma FailsExactly(world: World)
    ensures world.Fails() <==>
      match world.recommendation
      case None => true
      case Some(d) =>
        d.action == PaperRebalancePreview && d.previewApproved && d.previewTrade != 0.0
        && (world.intelligence.Err? || world.ingested.Err? || world.history.Err?
            || (forall items :: world.history == Ok(Array(items)) ==> items == []) || world.bundle.Err? || world.guard.Err?
            || (world.submission.Err? && forall text :: world.submission.error != Tool(text)))
  {
    if world.history.Ok? && world.history.value.Array? {
      assert world.history == Ok(Array(world.history.value.items));
    }
    if world.submission.Err? && world.submission.error.Tool? {
      assert world.submission.error == Tool(world.submission.error.text);
    }
  }

  /** Behind the policy gate, an order reaches the guard only when no check blocks, the trade
      is outside the band and it moves at least a share's rounding; it then obeys the limits. */
  lemma OnlyCheckedTradesAreProposed(inp: Inputs, a: Assessment, d: Decision)
    requires IsDecision(inp, a, d)
    ensures Proposes(d) <==>
      (forall b :: !Blocks(b, inp, a)) && !InsideBand(inp, a) && (inp.config.allowFractionalShares || Abs(RawTrade(inp.core)) > 0.5)
    ensures Proposes(d) ==>
      && d.previewTrade == WholeTrade(inp) && Abs(d.previewTrade) <= inp.config.maxAbsTradeShares
      && d.previewNotional <= inp.config.maxPreviewNotional
      && (inp.config.requireMarketOpen ==> inp.quote.marketState == "open")
  {
    hide Blocks, WholeTrade, CandidateNotional, InsideBand, Notional, Abs;
    FailsClosed(inp, a, d);
    if d.previewApproved {
      assert d.blockers == [];
      if d.action.PaperRebalancePreview? {
        RebalanceMovesExactly(inp, a, d);
      }
      ApprovedPreviewIsLimited(inp, a, d);
    }
  }

  /** Whatever order the guard is sent obeys the limits of the gate, and nothing is sent for a
      recommendation the gate did not approve. */
  lemma OrdersObeyThePolicy(inp: Inputs, a: Assessment, world: World, sent: Option<Order>)
    requires world.recommendation.Some? && IsDecision(inp, a, world.recommendation.value) && IsOrderOf(world, sent)
    ensures sent.Some? ==>
      && (forall b :: !Blocks(b, inp, a)) && !InsideBand(inp, a)
      && sent.value.quantity <= inp.config.maxAbsTradeShares
      && Notional(sent.value.Signed(), inp.quote.Midpoint()) <= inp.config.maxPreviewNotional
      && sent.value.Signed() == WholeTrade(inp)
  {
    hide Blocks, WholeTrade, CandidateNotional, InsideBand, Notional, IsDecision;
    var d := world.recommendation.value;
    OnlyCheckedTradesAreProposed(inp, a, d);
    if Proposes(d) {
      ApprovedPreviewIsLimited(inp, a, d);
    }
  }

  // ----- the loop -----

  /** What one turn of the loop finds: the stop file, and the world its cycle would run in. */
  datatype Tick = Tick(stopPresent: bool, world: World)
  {
    predicate Failed() {
      world.Fails()
    }
  }

  datatype Exit = StopFile(iterations: nat) | MaxIterations(max: nat) | TooManyErrors(count: nat) | StillRunning

  /** The limits as given on the command line. */
  datatype Limits = Limits(maxIterations: Option<nat>, maxConsecutiveErrors: nat)
  {
    function Cap(): (cap: nat)
      ensures 1 <= cap
    {
      if maxConsecutiveErrors < 1 then 1 else maxConsecutiveErrors
    }

    predicate Reached(n: nat) {
      maxIterations.Some? && n >= maxIterations.value
    }
  }

  /** The last `cap` cycles up to tick `n` all failed. */
  ghost predicate FullErrorWindow(trace: seq<Tick>, n: nat, cap: nat) {
    n < |trace| && cap <= n + 1 && forall j :: n + 1 - cap <= j <= n ==> trace[j].Failed()
  }

  ghost predicate StopsAt(trace: seq<Tick>, limits: Limits, n: nat)
    requires n < |trace|
  {
    trace[n].stopPresent || limits.Reached(n) || FullErrorWindow(trace, n, limits.Cap())
  }

  /** How the loop must end on a trace, and how many cycles it must have run: at the first tick
      with a reason to stop, for the reason checked first. */
  ghost predicate IsExit(trace: seq<Tick>, limits: Limits, exit: Exit, cycles: nat) {
    var stop := if exit.TooManyErrors? then cycles - 1 else cycles;
    && 0 <= stop <= |trace|
    && (forall k :: 0 <= k < stop ==> !StopsAt(trace, limits, k))
    && (exit.StillRunning? <==> stop == |trace|)
    && (stop < |trace| ==>
          if trace[stop].stopPresent then exit == StopFile(stop)
          else if limits.Reached(stop) then limits.maxIterations == Some(stop) && exit == MaxIterations(stop)
          else exit == TooManyErrors(limits.Cap()) && FullErrorWindow(trace, stop, limits.Cap()))
  }

  /** Length of the run of failures the trace ends in. */
  function TrailingErrors(trace: seq<Tick>): (n: nat)
    ensures n <= |trace|
  {
    if trace == [] || !trace[|trace| - 1].Failed() then 0 else TrailingErrors(trace[..|trace| - 1]) + 1
  }

  /** The loop as written, on what it finds turn by turn; `orders` holds what each cycle run
      sent to the guard. */
  method CmdAutonomous(trace: seq<Tick>, limits: Limits) returns (exit: Exit, orders: seq<Option<Order>>)
    ensures IsExit(trace, limits, exit, |orders|)
    ensures |orders| <= |trace| && forall k :: 0 <= k < |orders| ==> IsOrderOf(trace[k].world, orders[k])
  {
    hide TrailingErrors, FullErrorWindow, IsOrderOf, World.Fails;
    var cap := limits.Cap();
    var iteration: nat, consecutiveErrors: nat := 0, 0;
    orders := [];
    NoErrorsYet(trace);
    while iteration < |trace|
      invariant iteration <= |trace| && |orders| == iteration
      invariant forall k :: 0 <= k < iteration ==> IsOrderOf(trace[k].world, orders[k])
      invariant consecutiveErrors == TrailingErrors(trace[..iteration]) < cap
      invariant forall k :: 0 <= k < iteration ==> !StopsAt(trace, limits, k)
    {
      if trace[iteration].stopPresent {
        return StopFile(iteration), orders;
      }
      if limits.Reached(iteration) {
        MaxNotPassed(trace, limits, iteration);
        return MaxIterations(limits.maxIterations.value), orders;
      }
      CountIsWindow(trace, iteration, cap);
      var result, sent := RunGuardCycle(trace[iteration].world);
      orders := orders + [sent];
      match result {
        case Report(_) =>
          consecutiveErrors := 0;
        case Failed =>
          consecutiveErrors := consecutiveErrors + 1;
          if consecutiveErrors >= cap {
            return TooManyErrors(consecutiveErrors), orders;
          }
      }
      iteration := iteration + 1;
    }
    exit := StillRunning;
  }

  lemma NoErrorsYet(trace: seq<Tick>)
    ensures TrailingErrors(trace[..0]) == 0
  {
  }

  /** The cap was not reached earlier, so it is reached at exactly its value. */
  lemma MaxNotPassed(trace: seq<Tick>, limits: Limits, n: nat)
    requires n < |trace| && limits.Reached(n) && forall k :: 0 <= k < n ==> !StopsAt(trace, limits, k)
    ensures limits.maxIterations == Some(n)
  {
    hide FullErrorWindow;
    if n > 0 {
      assert !StopsAt(trace, limits, n - 1);
    }
  }

  /** One more tick on the error run, and when it fills the window. */
  lemma CountIsWindow(trace: seq<Tick>, n: nat, cap: nat)
    requires n < |trace| && 1 <= cap && TrailingErrors(trace[..n]) < cap
    ensures TrailingErrors(trace[..n + 1]) == if trace[n].Failed() then TrailingErrors(trace[..n]) + 1 else 0
    ensures FullErrorWindow(trace, n, cap) <==> TrailingErrors(trace[..n + 1]) == cap
  {
    assert trace[..n + 1][..n] == trace[..n];
    if cap <= n + 1 {
      WindowOnRun(trace[..n + 1], cap);
    }
  }

  /** The last `cap` ticks all failed exactly when the trailing run is that long. */
  lemma {:induction false} WindowOnRun(trace: seq<Tick>, cap: nat)
    requires cap <= |trace|
    ensures (forall j :: |trace| - cap <= j < |trace| ==> trace[j].Failed()) <==> cap <= TrailingErrors(trace)
  {
    if cap > 0 {
      var init := trace[..|trace| - 1];
      WindowOnRun(init, cap - 1);
      assert forall j :: 0 <= j < |init| ==> init[j] == trace[j];
    }
  }

  // ----- every trace -----

  /** The trace fixes how the loop ends and how far it gets. */
  lemma ExitIsUnique(trace: seq<Tick>, limits: Limits, e: Exit, m: nat, f: Exit, n: nat)
    requires IsExit(trace, limits, e, m) && IsExit(trace, limits, f, n)
    ensures e == f && m == n
  {
    hide FullErrorWindow;
    HasReason(trace, limits, e, m);
    HasReason(trace, limits, f, n);
  }

  lemma HasReason(trace: seq<Tick>, limits: Limits, exit: Exit, cycles: nat)
    requires IsExit(trace, limits, exit, cycles)
    ensures var stop := if exit.TooManyErrors? then cycles - 1 else cycles;
            (stop < |trace| ==> StopsAt(trace, limits, stop)) && (forall k :: 0 <= k < |trace| && StopsAt(trace, limits, k) ==> stop <= k)
  {
    hide FullErrorWindow;
  }

  /** What comes later does not change how the loop ended. */
  lemma ExitIsFinal(trace: seq<Tick>, more: seq<Tick>, limits: Limits, exit: Exit, cycles: nat)
    requires IsExit(trace, limits, exit, cycles) && !exit.StillRunning?
    ensures IsExit(trace + more, limits, exit, cycles)
  {
    hide FullErrorWindow;
    forall k | 0 <= k < |trace| ensures StopsAt(trace + more, limits, k) <==> StopsAt(trace, limits, k) {
      WindowOfPrefix(trace, more, k, limits.Cap());
    }
    var stop := if exit.TooManyErrors? then cycles - 1 else cycles;
    WindowOfPrefix(trace, more, stop, limits.Cap());
  }

  lemma WindowOfPrefix(trace: seq<Tick>, more: seq<Tick>, n: nat, cap: nat)
    requires n < |trace|
    ensures FullErrorWindow(trace + more, n, cap) <==> FullErrorWindow(trace, n, cap)
  {
    var longer := trace + more;
    if FullErrorWindow(longer, n, cap) {
      forall j | n + 1 - cap <= j <= n ensures trace[j].Failed() {
        assert longer[j] == trace[j];
      }
    }
  }

  /** No cycle is run at or after a tick that shows the stop file, never more than the maximum,
      and never one more after a full window of errors. */
  lemma CyclesAreBounded(trace: seq<Tick>, limits: Limits, exit: Exit, cycles: nat)
    requires IsExit(trace, limits, exit, cycles)
    ensures forall k :: 0 <= k < |trace| && trace[k].stopPresent ==> cycles <= k
    ensures limits.maxIterations.Some? ==> cycles <= limits.maxIterations.value
    ensures forall k :: 0 <= k < |trace| && FullErrorWindow(trace, k, limits.Cap()) ==> cycles <= k + 1
  {
    hide FullErrorWindow;
    HasReason(trace, limits, exit, cycles);
    var stop := if exit.TooManyErrors? then cycles - 1 else cycles;
    forall k | 0 <= k < |trace| && trace[k].stopPresent ensures cycles <= k {
      assert StopsAt(trace, limits, k);
    }
    forall k | 0 <= k < |trace| && FullErrorWindow(trace, k, limits.Cap()) ensures cycles <= k + 1 {
      assert StopsAt(trace, limits, k);
    }
    MaximumKept(trace, limits, exit, cycles);
  }

  lemma MaximumKept(trace: seq<Tick>, limits: Limits, exit: Exit, cycles: nat)
    requires IsExit(trace, limits, exit, cycles)
    ensures limits.maxIterations.Some? ==> cycles <= limits.maxIterations.value
  {
    hide FullErrorWindow;
    HasReason(trace, limits, exit, cycles);
    if limits.maxIterations.Some? && limits.maxIterations.value < |trace| {
      assert StopsAt(trace, limits, limits.maxIterations.value);
    }
  }

  /** A full window of errors ends at the tick, with no stop file and no maximum up to it. */
  ghost predicate BreaksAt(trace: seq<Tick>, limits: Limits, n: nat) {
    FullErrorWindow(trace, n, limits.Cap()) && forall k :: 0 <= k <= n ==> !trace[k].stopPresent && !limits.Reached(k)
  }

  /** The loop halts with an error exactly when a full window of errors comes before any stop
      file and before the maximum. */
  lemma BreaksExactly(trace: seq<Tick>, limits: Limits, exit: Exit, cycles: nat)
    requires IsExit(trace, limits, exit, cycles)
    ensures exit.TooManyErrors? <==> exists n :: BreaksAt(trace, limits, n)
    ensures exit.TooManyErrors? ==> BreaksAt(trace, limits, cycles - 1)
  {
    if exit.TooManyErrors? {
      hide FullErrorWindow;
      forall k | 0 <= k <= cycles - 1 ensures !trace[k].stopPresent && !limits.Reached(k) {
        if k < cycles - 1 {
          assert !StopsAt(trace, limits, k);
        }
      }
      assert BreaksAt(trace, limits, cycles - 1);
    } else if n: nat :| BreaksAt(trace, limits, n) {
      HasReason(trace, limits, exit, cycles);
      BreakIsReason(trace, limits, n);
    }
  }

  lemma BreakIsReason(trace: seq<Tick>, limits: Limits, n: nat)
    requires BreaksAt(trace, limits, n)
    ensures n < |trace| && StopsAt(trace, limits, n)
  {
  }

  /** `errors` cycles in a row failed, the last one at the tick, which comes before the stop file
      and before the maximum. */
  ghost predicate HaltsAt(trace: seq<Tick>, maxIterations: Option<nat>, errors: nat, n: nat) {
    && n < |trace| && errors <= n + 1
    && (forall j :: n + 1 - errors <= j <= n ==> trace[j].Failed())
    && (forall k :: 0 <= k <= n ==> !trace[k].stopPresent)
    && (maxIterations.Some? ==> n < maxIterations.value)
  }

  lemma HaltsAtIsBreaksAt(trace: seq<Tick>, limits: Limits, n: nat)
    ensures BreaksAt(trace, limits, n) <==> HaltsAt(trace, limits.maxIterations, limits.Cap(), n)
  {
    hide Tick.Failed;
    assert n < |trace| && limits.Reached(n) ==> !BreaksAt(trace, limits, n);
  }

  /** The breaker goes by the number given: the loop halts with an error exactly when that many
      cycles in a row fail, and says how many. Given none, the first failure halts it. */
  lemma HaltsOnTheGivenNumber(trace: seq<Tick>, limits: Limits, exit: Exit, cycles: nat)
    requires IsExit(trace, limits, exit, cycles)
    ensures limits.maxConsecutiveErrors >= 1 ==>
      && (exit.TooManyErrors? <==> exists n :: HaltsAt(trace, limits.maxIterations, limits.maxConsecutiveErrors, n))
      && (exit.TooManyErrors? ==> exit.count == limits.maxConsecutiveErrors && HaltsAt(trace, limits.maxIterations, limits.maxConsecutiveErrors, cycles - 1))
    ensures limits.maxConsecutiveErrors == 0 ==>
      && (exit.TooManyErrors? <==> exists n :: HaltsAt(trace, limits.maxIterations, 1, n))
      && (exit.TooManyErrors? ==> exit.count == 1 && forall k :: 0 <= k < cycles ==> (trace[k].Failed() <==> k == cycles - 1))
  {
    var errors := if limits.maxConsecutiveErrors == 0 then 1 else limits.maxConsecutiveErrors;
    assert limits.Cap() == errors;
    hide HaltsAt, Tick.Failed, Limits.Cap;
    BreaksExactly(trace, limits, exit, cycles);
    forall n: nat ensures BreaksAt(trace, limits, n) <==> HaltsAt(trace, limits.maxIterations, errors, n) {
      HaltsAtIsBreaksAt(trace, limits, n);
    }
    if n: nat :| HaltsAt(trace, limits.maxIterations, errors, n) {
      assert BreaksAt(trace, limits, n);
    }
    if exit.TooManyErrors? {
      assert HaltsAt(trace, limits.maxIterations, errors, cycles - 1);
      if errors == 1 {
        FirstFailure(trace, limits, exit, cycles);
      }
    }
  }

  lemma FirstFailure(trace: seq<Tick>, limits: Limits, exit: Exit, cycles: nat)
    requires IsExit(trace, limits, exit, cycles) && exit.TooManyErrors? && limits.Cap() == 1
    ensures forall k :: 0 <= k < cycles ==> (trace[k].Failed() <==> k == cycles - 1)
  {
    hide Tick.Failed;
    forall k | 0 <= k < cycles - 1 ensures !trace[k].Failed() {
      assert !StopsAt(trace, limits, k);
      OneIsWindow(trace, k);
    }
  }

  lemma OneIsWindow(trace: seq<Tick>, k: nat)
    requires k < |trace|
    ensures FullErrorWindow(trace, k, 1) <==> trace[k].Failed()
  {
  }

  /** A loop that ends without an error ends at the first stop file, or at the maximum given. */
  lemma EndsOnTheGivenMaximum(trace: seq<Tick>, limits: Limits, exit: Exit, cycles: nat)
    requires IsExit(trace, limits, exit, cycles)
    ensures exit.StopFile? ==> exit.iterations == cycles < |trace| && trace[cycles].stopPresent && forall k :: 0 <= k < cycles ==> !trace[k].stopPresent
    ensures exit.MaxIterations? ==> limits.maxIterations == Some(cycles) && exit.max == cycles
    ensures exit.StillRunning? ==> cycles == |trace| && (limits.maxIterations.Some? ==> cycles <= limits.maxIterations.value)
  {
    hide FullErrorWindow;
    CyclesAreBounded(trace, limits, exit, cycles);
  }

  /** One of the `cap` cycles from tick `i` on did not fail. */
  ghost predicate HasReport(trace: seq<Tick>, i: nat, cap: nat) {
    exists j :: i <= j < i + cap && j < |trace| && !trace[j].Failed()
  }

  lemma ReportBreaksWindow(trace: seq<Tick>, n: nat, cap: nat)
    requires cap <= n + 1 && HasReport(trace, n + 1 - cap, cap)
    ensures !FullErrorWindow(trace, n, cap)
  {
  }

  /** Refusals and quiet cycles never trip the breaker: with a report among any `cap` cycles in
      a row, the loop ends by the stop file or the maximum only. */
  lemma RefusalsNeverBreak(trace: seq<Tick>, limits: Limits, exit: Exit, cycles: nat)
    requires IsExit(trace, limits, exit, cycles)
    requires forall i :: 0 <= i && i + limits.Cap() <= |trace| ==> HasReport(trace, i, limits.Cap())
    ensures !exit.TooManyErrors?
  {
    hide HasReport;
    var cap := limits.Cap();
    forall n | 0 <= n < |trace| && cap <= n + 1 ensures !FullErrorWindow(trace, n, cap) {
      ReportBreaksWindow(trace, n, cap);
    }
  }
}
