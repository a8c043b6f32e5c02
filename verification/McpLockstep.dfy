/** Client and server as two processes joined by two pipes, stepping in any order. */
module McpLockstep {
  import opened JsonValue
  import opened McpClient
  import opened McpServer
  import opened Text

  /** What either process, or the world, does next. Each `Serve` may find the tools in a different state. */
  datatype Step =
    | Send(name: string, params: Json)
    | SendFails
    | Serve(server: Server)
    | ServerExits
    | Receive
    | ReadFails(midLine: bool)
    | ReadEnd

  /** A reply consumed, the id of the call that consumed it, how many earlier calls had given up
      on a read by then, and whether one of these took the beginning of the line with it. */
  datatype Received = Received(caller: int, reply: Json, givenUp: nat, cut: bool)

  /** The processes and pipes, and what has passed through them: every request written and every
      reply consumed. `cut` says that a failed read took the beginning of the first line. */
  datatype System = System(
    nextId: int, waiting: Option<int>, toServer: seq<Json>, toClient: seq<Json>, cut: bool, serverUp: bool,
    written: seq<Json>, received: seq<Received>, givenUp: nat)

  const START := System(1, None, [], [], false, true, [], [], 0)

  /** A client writes only between calls, to a live server; it reads what is there, and finds the
      end of the output only when the server is gone and nothing is left to read. */
  predicate Enabled(s: System, step: Step) {
    match step
    case Send(_, _) => s.waiting.None? && s.serverUp
    case SendFails => s.waiting.None?
    case Serve(_) => s.serverUp && s.toServer != []
    case ServerExits => s.serverUp
    case Receive => s.waiting.Some? && s.toClient != []
    case ReadFails(midLine) => s.waiting.Some? && (midLine ==> s.toClient != [])
    case ReadEnd => s.waiting.Some? && s.toClient == [] && !s.serverUp
  }

  function Apply(s: System, step: Step): System
    requires Enabled(s, step)
  {
    match step
    case Send(name, params) =>
      var request := Request(s.nextId, name, params);
      s.(nextId := s.nextId + 1, waiting := Some(s.nextId), toServer := s.toServer + [request], written := s.written + [request])
    case SendFails => s.(nextId := s.nextId + 1)
    case Serve(server) =>
      var answer := match HandleLine(server, Message(s.toServer[0])) case None => [] case Some(r) => [r];
      s.(toServer := s.toServer[1..], toClient := s.toClient + answer)
    case ServerExits => s.(serverUp := false)
    case Receive =>
      s.(waiting := None, toClient := s.toClient[1..], cut := false,
         received := s.received + [Received(s.waiting.value, s.toClient[0], s.givenUp, s.cut)])
    case ReadFails(midLine) => s.(waiting := None, cut := s.cut || midLine, givenUp := s.givenUp + 1)
    case ReadEnd => s.(waiting := None)
  }

  /** The system after the steps, if they can be taken in that order. */
  function After(steps: seq<Step>): Option<System> {
    if steps == [] then Some(START)
    else
      match After(steps[..|steps| - 1])
      case None => None
      case Some(s) => if Enabled(s, steps[|steps| - 1]) then Some(Apply(s, steps[|steps| - 1])) else None
  }

  /** The calls begun, a failed write included. */
  function Calls(steps: seq<Step>): nat {
    if steps == [] then 0
    else
      var last := steps[|steps| - 1];
      Calls(steps[..|steps| - 1]) + if last.Send? || last.SendFails? then 1 else 0
  }

  predicate IsRequest(j: Json) {
    match Member(j, "id") case Some(Int(_)) => true case _ => false
  }

  function RequestId(j: Json): int
    requires IsRequest(j)
  {
    j.fields["id"].n
  }

  /** The reply is what some state of the server's tools made of the request. */
  ghost predicate IsAnswer(reply: Json, request: Json) {
    IsRequest(request) && exists server: Server :: HandleLine(server, Message(request)) == Some(reply)
  }

  function Replies(s: System): (replies: seq<Json>)
    ensures |replies| == |s.received| + |s.toClient|
  {
    seq(|s.received|, i requires 0 <= i < |s.received| => s.received[i].reply) + s.toClient
  }

  function InFlight(s: System): nat {
    |s.toServer| + |s.toClient|
  }

  ghost predicate Numbered(s: System) {
    && (forall i :: 0 <= i < |s.written| ==> IsRequest(s.written[i]) && RequestId(s.written[i]) < s.nextId)
    && (forall i, j :: 0 <= i < j < |s.written| ==> RequestId(s.written[i]) < RequestId(s.written[j]))
    && (s.waiting.Some? ==> s.written != [] && RequestId(s.written[|s.written| - 1]) == s.waiting.value)
  }

  /** Nothing is lost, doubled or reordered: the replies so far answer the first requests one by
      one, and the requests not yet answered are still on the way. */
  ghost predicate Ordered(s: System) {
    && |Replies(s)| + |s.toServer| == |s.written|
    && (forall i :: 0 <= i < |Replies(s)| ==> IsAnswer(Replies(s)[i], s.written[i]))
    && s.toServer == s.written[|Replies(s)|..]
  }

  /** What is in flight is what the waiting call and the calls that gave up are owed; after the
      end of the output was read, also the request that will never be answered. */
  ghost predicate Accounted(s: System) {
    if s.waiting.Some? then InFlight(s) == s.givenUp + 1
    else InFlight(s) == s.givenUp || (InFlight(s) == s.givenUp + 1 && s.toClient == [] && !s.serverUp)
  }

  /** The `i`-th reply was consumed by the call as many requests further on as reads had been
      given up. */
  predicate OwedBack(written: seq<Json>, i: nat, r: Received) {
    i + r.givenUp < |written| && IsRequest(written[i + r.givenUp]) && RequestId(written[i + r.givenUp]) == r.caller
  }

  ghost predicate Matched(s: System) {
    forall i :: 0 <= i < |s.received| ==> OwedBack(s.written, i, s.received[i])
  }

  /** Only a read given up cuts a line. */
  ghost predicate CutByFailure(s: System) {
    && (s.cut ==> s.givenUp > 0 && s.toClient != [])
    && forall i :: 0 <= i < |s.received| && s.received[i].cut ==> s.received[i].givenUp > 0
  }

  ghost predicate Invariant(s: System) {
    Numbered(s) && Ordered(s) && Accounted(s) && Matched(s) && CutByFailure(s)
  }

  lemma NumberedKept(s: System, step: Step)
    requires Numbered(s) && Enabled(s, step)
    ensures Numbered(Apply(s, step))
  {
    if step.Send? {
      assert IsRequest(Request(s.nextId, step.name, step.params));
    }
  }

  lemma OrderedKept(s: System, step: Step)
    requires Numbered(s) && Ordered(s) && Enabled(s, step)
    ensures Ordered(Apply(s, step))
  {
    hide HandleLine, IsAnswer;
    var t := Apply(s, step);
    match step
    case Serve(server) =>
      OrderedByServe(s, server);
    case Receive =>
      assert Replies(t) == Replies(s);
    case _ =>
      assert Replies(t) == Replies(s);
  }

  lemma OrderedByServe(s: System, server: Server)
    requires Numbered(s) && Ordered(s) && Enabled(s, Serve(server))
    ensures Ordered(Apply(s, Serve(server)))
  {
    hide HandleLine, IsRequest;
    var request := s.toServer[0];
    assert request == s.written[|Replies(s)|];
    var reply := ServedReply(server, request);
    assert Replies(Apply(s, Serve(server))) == Replies(s) + [reply];
  }

  /** Every request gets a reply. */
  lemma ServedReply(server: Server, request: Json) returns (reply: Json)
    requires IsRequest(request)
    ensures HandleLine(server, Message(request)) == Some(reply) && IsAnswer(reply, request)
  {
    hide HandleLine;
    AnswersMirrorRequests(server, Message(request));
    reply := HandleLine(server, Message(request)).value;
  }

  lemma AccountedKept(s: System, step: Step)
    requires Invariant(s) && Enabled(s, step)
    ensures Accounted(Apply(s, step))
  {
    hide HandleLine;
    if step.Serve? {
      AnswersMirrorRequests(step.server, Message(s.toServer[0]));
      assert s.toServer[0] == s.written[|Replies(s)|];
    }
  }

  lemma MatchedKept(s: System, step: Step)
    requires Invariant(s) && Enabled(s, step)
    ensures Matched(Apply(s, step))
  {
    hide HandleLine, IsAnswer;
    var t := Apply(s, step);
    if step.Send? {
      hide Numbered, Ordered, Accounted;
      forall i | 0 <= i < |s.received| ensures OwedBack(t.written, i, t.received[i]) {
        assert OwedBack(s.written, i, s.received[i]);
      }
    } else if step.Receive? {
      CallerWroteLast(s);
    }
  }

  /** The waiting call wrote the last request, which is the next reply's request and as many
      further as reads were given up. */
  lemma CallerWroteLast(s: System)
    requires Numbered(s) && Ordered(s) && Accounted(s) && s.waiting.Some?
    ensures OwedBack(s.written, |s.received|, Received(s.waiting.value, Null, s.givenUp, false))
  {
    hide IsAnswer;
    assert |s.written| == |s.received| + InFlight(s);
  }

  lemma CutByFailureKept(s: System, step: Step)
    requires CutByFailure(s) && Enabled(s, step)
    ensures CutByFailure(Apply(s, step))
  {
    hide HandleLine;
  }

  lemma {:induction false} InvariantHolds(steps: seq<Step>)
    requires After(steps).Some?
    ensures Invariant(After(steps).value)
  {
    hide Numbered, Ordered, Accounted, Matched, CutByFailure, Apply, Enabled;
    if steps == [] {
      InvariantAtStart();
    } else {
      var init, last := steps[..|steps| - 1], steps[|steps| - 1];
      InvariantHolds(init);
      var s := After(init).value;
      NumberedKept(s, last);
      OrderedKept(s, last);
      AccountedKept(s, last);
      MatchedKept(s, last);
      CutByFailureKept(s, last);
    }
  }

  lemma InvariantAtStart()
    ensures Invariant(START)
  {
  }

  // ----- every run -----

  /** Call number `k` carries id `k`: ids count the calls, failed writes included. */
  lemma {:induction false} IdsCountCalls(steps: seq<Step>)
    requires After(steps).Some?
    ensures After(steps).value.nextId == 1 + Calls(steps)
  {
    hide HandleLine;
    if steps != [] {
      IdsCountCalls(steps[..|steps| - 1]);
    }
  }

  /** What is outstanding is exactly what is owed: with no read given up, at most one request,
      and one exactly while a call waits, unless the server died on it. */
  lemma AtMostOneOutstanding(steps: seq<Step>)
    requires After(steps).Some?
    ensures var s := After(steps).value;
            && InFlight(s) <= s.givenUp + 1
            && (s.waiting.Some? ==> InFlight(s) == s.givenUp + 1)
            && (InFlight(s) == s.givenUp + 1 ==> s.waiting.Some? || !s.serverUp)
  {
    InvariantHolds(steps);
  }

  /** A waiting call is never stuck: its reply is there, or a live server has a request to
      answer, or the end of the output is. */
  lemma WaitingCallProceeds(steps: seq<Step>, server: Server)
    requires After(steps).Some? && After(steps).value.waiting.Some?
    ensures var s := After(steps).value;
            Enabled(s, Receive) || Enabled(s, Serve(server)) || Enabled(s, ReadEnd)
  {
    InvariantHolds(steps);
  }

  /** The client never looks at an id, and still the replies it consumes answer the requests in
      the order written. */
  lemma RepliesInOrder(steps: seq<Step>, i: nat)
    requires After(steps).Some? && i < |After(steps).value.received|
    ensures var s := After(steps).value;
            i < |s.written| && IsAnswer(s.received[i].reply, s.written[i])
  {
    hide Numbered, Matched, Accounted, IsAnswer;
    InvariantHolds(steps);
    var s := After(steps).value;
    assert Replies(s)[i] == s.received[i].reply;
  }

  lemma AnswerCarriesId(reply: Json, request: Json)
    requires IsAnswer(reply, request)
    ensures Member(reply, "id") == Some(Int(RequestId(request)))
  {
    hide HandleLine;
    var server: Server :| HandleLine(server, Message(request)) == Some(reply);
    AnswersMirrorRequests(server, Message(request));
  }

  /** In every interleaving, a call is handed the answer to its own request, whole, exactly when
      no call before it gave up on a read. */
  lemma OwnAnswerExactly(steps: seq<Step>, i: nat)
    requires After(steps).Some? && i < |After(steps).value.received|
    ensures var r := After(steps).value.received[i];
            !r.cut && Member(r.reply, "id") == Some(Int(r.caller)) <==> r.givenUp == 0
    ensures var s := After(steps).value;
            i < |s.written| && IsAnswer(s.received[i].reply, s.written[i])
            && (s.received[i].givenUp == 0 ==> RequestId(s.written[i]) == s.received[i].caller)
  {
    hide IsAnswer, Ordered, Accounted;
    InvariantHolds(steps);
    RepliesInOrder(steps, i);
    var s := After(steps).value;
    AnswerCarriesId(s.received[i].reply, s.written[i]);
    assert OwedBack(s.written, i, s.received[i]);
  }

  lemma Extend(steps: seq<Step>, s: System, step: Step)
    requires After(steps) == Some(s) && Enabled(s, step)
    ensures After(steps + [step]) == Some(Apply(s, step))
  {
    hide Apply, Enabled;
    assert (steps + [step])[..|steps|] == steps;
  }

  /** One read given up is enough: the second call is handed the answer to the first. */
  lemma GivenUpReadMisleads(server: Server)
    ensures var steps := [Send("ping", Null), Serve(server), ReadFails(false), Send("tools/list", Null), Receive];
            After(steps).Some? && After(steps).value.received == [Received(2, SuccessEnvelope(Int(1), Object(map[])), 1, false)]
  {
    hide After, HandleLine;
    var ping, listing := Send("ping", Null), Send("tools/list", Null);
    AfterNothing();
    var s0 := Apply(START, ping);
    Extend([], START, ping);
    PingAnswer(server);
    assert s0.toServer == [Request(1, "ping", Null)];
    var s1 := Apply(s0, Serve(server));
    var steps1 := [] + [ping];
    Extend(steps1, s0, Serve(server));
    assert s1.toClient == [SuccessEnvelope(Int(1), Object(map[]))];
    var s2 := Apply(s1, ReadFails(false));
    var steps2 := steps1 + [Serve(server)];
    Extend(steps2, s1, ReadFails(false));
    var s3 := Apply(s2, listing);
    var steps3 := steps2 + [ReadFails(false)];
    Extend(steps3, s2, listing);
    var steps4 := steps3 + [listing];
    Extend(steps4, s3, Receive);
    assert steps4 + [Receive] == [ping, Serve(server), ReadFails(false), listing, Receive];
  }

  lemma AfterNothing()
    ensures After([]) == Some(START)
  {
  }

  lemma PingAnswer(server: Server)
    ensures HandleLine(server, Message(Request(1, "ping", Null))) == Some(SuccessEnvelope(Int(1), Object(map[])))
  {
  }

  // ----- the steps of the client are its calls -----

  function ClientOf(s: System): ClientState {
    ClientState(s.nextId, s.written)
  }

  /** What the waiting call reads in a step that ends it. */
  function ReplyIn(s: System, step: Step): Reply
    requires Enabled(s, step) && EndsCall(step)
  {
    match step
    case Receive => if s.cut then Unparsable else Response(s.toClient[0])
    case ReadFails(_) => Unreadable
    case _ => Closed
  }

  predicate EndsCall(step: Step) {
    step.Receive? || step.ReadFails? || step.ReadEnd?
  }

  predicate ByOthers(step: Step) {
    step.Serve? || step.ServerExits?
  }

  /** The system after further steps, if they can be taken. */
  function Continue(s: System, steps: seq<Step>): Option<System>
    decreases |steps|
  {
    if steps == [] then Some(s)
    else if Enabled(s, steps[0]) then Continue(Apply(s, steps[0]), steps[1..])
    else None
  }

  lemma {:induction false} OthersLeaveClient(s: System, steps: seq<Step>)
    requires Continue(s, steps).Some? && forall i :: 0 <= i < |steps| ==> ByOthers(steps[i])
    ensures ClientOf(Continue(s, steps).value) == ClientOf(s)
    decreases |steps|
  {
    hide HandleLine;
    if steps != [] {
      assert ByOthers(steps[0]);
      OthersLeaveClient(Apply(s, steps[0]), steps[1..]);
    }
  }

  /** Sending, any steps of the server, and a step that ends the read are together one call, as
      the client's own contract describes it; so is a failed write. */
  lemma CallIsSteps(s: System, name: string, params: Json, others: seq<Step>, last: Step)
    requires Enabled(s, Send(name, params)) && forall i :: 0 <= i < |others| ==> ByOthers(others[i])
    requires var m := Continue(Apply(s, Send(name, params)), others); m.Some? && Enabled(m.value, last) && EndsCall(last)
    ensures var m := Continue(Apply(s, Send(name, params)), others).value;
            IsCall(ClientOf(s), name, params, Written(ReplyIn(m, last)), ClientOf(Apply(m, last)), Interpret(ReplyIn(m, last)))
    ensures IsCall(ClientOf(s), name, params, WriteFails, ClientOf(Apply(s, SendFails)), Err(Io))
  {
    OthersLeaveClient(Apply(s, Send(name, params)), others);
  }
}
