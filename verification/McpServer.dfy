/** The stdio server: one JSON-RPC 2.0 message a line, at most one answer a line. */
module McpServer {
  import opened JsonValue
  import opened Text

  datatype ToolOutcome = Done(text: string) | Failed(message: string)

  /** What the server is built around: the engine behind the tools, the tool list and the fixed
      members of the handshake. */
  datatype Server = Server(engine: (string, Json) -> ToolOutcome, catalogue: Json, greeting: map<string, Json>)

  /** A line as the reader sees it: blank, no JSON, or a JSON value. */
  datatype Line = Blank | Malformed | Message(json: Json)

  const PROTOCOL_VERSION_DEFAULT := "2024-11-05"
  const PARSE_ERROR := -32700
  const METHOD_NOT_FOUND := -32601

  predicate KnownTool(name: string) {
    name == "health" || name == "get_market_recommendation" || name == "price_option"
    || name == "replay_decision" || name == "list_recent_decisions" || name == "get_policy_snapshot"
  }

  function CallTool(server: Server, name: string, arguments: Json): ToolOutcome {
    if !KnownTool(name) then Failed("unknown tool: " + name)
    else if name == "replay_decision" && StringAt(arguments, "decision_id", "") == "" then Failed("decision_id is required")
    else server.engine(name, arguments)
  }

  function TextContent(text: string): Json {
    Array([Object(map["type" := String("text"), "text" := String(text)])])
  }

  /** A failed tool is a result that says so, never a protocol error. */
  function ToolResult(outcome: ToolOutcome): Json {
    match outcome
    case Done(text) => Object(map["content" := TextContent(text)])
    case Failed(message) => Object(map["content" := TextContent(message), "isError" := Bool(true)])
  }

  function InitializeResult(server: Server, params: Json): Json {
    Object(server.greeting["protocolVersion" := String(StringAt(params, "protocolVersion", PROTOCOL_VERSION_DEFAULT))])
  }

  function SuccessEnvelope(id: Json, result: Json): Json {
    Object(map["jsonrpc" := String("2.0"), "id" := id, "result" := result])
  }

  function ErrorEnvelope(id: Json, code: int, message: string): Json {
    Object(map["jsonrpc" := String("2.0"), "id" := id, "error" := Object(map["code" := Int(code), "message" := String(message)])])
  }

  predicate KnownMethod(name: string) {
    name == "initialize" || name == "ping" || name == "tools/list" || name == "tools/call"
  }

  function MethodOf(request: Json): string {
    StringAt(request, "method", "")
  }

  function ResultOf(server: Server, name: string, params: Json): Json
    requires KnownMethod(name)
  {
    if name == "initialize" then InitializeResult(server, params)
    else if name == "ping" then Object(map[])
    else if name == "tools/list" then Object(map["tools" := server.catalogue])
    else ToolResult(CallTool(server, StringAt(params, "name", ""), MemberOr(params, "arguments", Object(map[]))))
  }

  function HandleLine(server: Server, line: Line): Option<Json> {
    match line
    case Blank => None
    case Malformed => Some(ErrorEnvelope(Null, PARSE_ERROR, "Parse error"))
    case Message(request) =>
      match Member(request, "id")
      case None => None
      case Some(id) =>
        var name := MethodOf(request);
        Some(if KnownMethod(name) then SuccessEnvelope(id, ResultOf(server, name, MemberOr(request, "params", Null)))
             else ErrorEnvelope(id, METHOD_NOT_FOUND, "Method not found: " + name))
  }

  /** A response in the sense of section 5 of JSON-RPC 2.0: the version, an id, and exactly one
      of a result and an error with an integer code and a message. */
  predicate IsResponse(r: Json) {
    && Member(r, "jsonrpc") == Some(String("2.0"))
    && Member(r, "id").Some?
    && r.fields.Keys == {"jsonrpc", "id", if "error" in r.fields then "error" else "result"}
    && match Member(r, "error")
       case None => true
       case Some(e) => e.Object? && e.fields.Keys == {"code", "message"} && e.fields["code"].Int? && e.fields["message"].String?
  }

  /** A line is answered exactly when it is no JSON or carries an id, an explicit null included. */
  predicate Answered(line: Line) {
    line.Malformed? || (line.Message? && Member(line.json, "id").Some?)
  }

  /** The id an answer must carry. */
  function IdOf(line: Line): Json
    requires Answered(line)
  {
    if line.Malformed? then Null else line.json.fields["id"]
  }

  /** Whatever the line and whatever the tools do: who is answered, with a proper response, under
      which id, and when that is an error. */
  lemma AnswersMirrorRequests(server: Server, line: Line)
    ensures HandleLine(server, line).Some? <==> Answered(line)
    ensures Answered(line) ==>
      var r := HandleLine(server, line).value;
      && IsResponse(r) && Member(r, "id") == Some(IdOf(line))
      && (Member(r, "error").Some? <==> line.Malformed? || !KnownMethod(MethodOf(line.json)))
  {
    hide KnownMethod, ResultOf;
    if Answered(line) {
      var id := IdOf(line);
      forall result ensures IsResponse(SuccessEnvelope(id, result)) {
      }
      forall code, message ensures IsResponse(ErrorEnvelope(id, code, message)) {
        var e := ErrorEnvelope(id, code, message);
        assert e.fields.Keys == {"jsonrpc", "id", "error"};
        assert e.fields["error"].fields.Keys == {"code", "message"};
      }
    }
  }

  /** What each method answers, the tools apart, on the members of the request. */
  lemma MethodsAnswer(server: Server, fields: map<string, Json>)
    requires "id" in fields
    ensures var answer := HandleLine(server, Message(Object(fields)));
            var name := if "method" in fields && fields["method"].String? then fields["method"].s else "";
            && (name == "ping" ==> answer == Some(Object(map["jsonrpc" := String("2.0"), "id" := fields["id"], "result" := Object(map[])])))
            && (name == "tools/list" ==>
                  answer == Some(Object(map["jsonrpc" := String("2.0"), "id" := fields["id"], "result" := Object(map["tools" := server.catalogue])])))
            && (name != "initialize" && name != "ping" && name != "tools/list" && name != "tools/call" ==>
                  answer == Some(Object(map["jsonrpc" := String("2.0"), "id" := fields["id"],
                    "error" := Object(map["code" := Int(-32601), "message" := String("Method not found: " + name)])])))
    ensures HandleLine(server, Malformed) ==
      Some(Object(map["jsonrpc" := String("2.0"), "id" := Null, "error" := Object(map["code" := Int(-32700), "message" := String("Parse error")])]))
  {
    MethodNamesDiffer();
  }

  /** A tool call is answered with the result of the tool it names. */
  lemma ToolCallAnswer(server: Server, fields: map<string, Json>, params: map<string, Json>)
    requires "id" in fields && "method" in fields && fields["method"] == String("tools/call")
    requires "params" in fields && fields["params"] == Object(params)
    ensures var name := if "name" in params && params["name"].String? then params["name"].s else "";
            var arguments := if "arguments" in params then params["arguments"] else Object(map[]);
            HandleLine(server, Message(Object(fields))) == Some(SuccessEnvelope(fields["id"], ToolResult(CallTool(server, name, arguments))))
  {
    hide CallTool, ToolResult, SuccessEnvelope;
    MethodNamesDiffer();
  }

  /** The six tools: a name that is none of them fails with that name, a replay without an id
      fails, and otherwise the engine decides; a failure is a result marked as an error. */
  lemma ToolsAnswer(server: Server, fields: map<string, Json>, params: map<string, Json>)
    requires "id" in fields && "method" in fields && fields["method"] == String("tools/call")
    requires "params" in fields && fields["params"] == Object(params)
    ensures var answer := HandleLine(server, Message(Object(fields)));
            var name := if "name" in params && params["name"].String? then params["name"].s else "";
            var arguments := if "arguments" in params then params["arguments"] else Object(map[]);
            var known := name in {"health", "get_market_recommendation", "price_option", "replay_decision", "list_recent_decisions", "get_policy_snapshot"};
            var noId := arguments.Object? && "decision_id" in arguments.fields && arguments.fields["decision_id"].String? ==> arguments.fields["decision_id"].s == "";
            && (!known ==> answer == Some(ToolError(fields["id"], "unknown tool: " + name)))
            && (name == "replay_decision" && noId ==> answer == Some(ToolError(fields["id"], "decision_id is required")))
            && (known && !(name == "replay_decision" && noId) ==>
                  match server.engine(name, arguments)
                  case Failed(message) => answer == Some(ToolError(fields["id"], message))
                  case Done(text) => answer == Some(Object(map["jsonrpc" := String("2.0"), "id" := fields["id"],
                      "result" := Object(map["content" := Array([Object(map["type" := String("text"), "text" := String(text)])])])])))
  {
    hide HandleLine;
    ToolCallAnswer(server, fields, params);
  }

  function ToolError(id: Json, message: string): Json {
    Object(map["jsonrpc" := String("2.0"), "id" := id,
      "result" := Object(map["content" := Array([Object(map["type" := String("text"), "text" := String(message)])]), "isError" := Bool(true)])])
  }

  lemma MethodNamesDiffer()
    ensures "ping" != "initialize" && "ping" != "tools/list" && "ping" != "tools/call"
    ensures "tools/list" != "initialize" && "tools/call" != "initialize" && "tools/list" != "tools/call"
  {
    assert "ping"[0] == 'p' && "initialize"[0] == 'i' && "tools/list"[0] == 't' && "tools/call"[0] == 't';
    assert "tools/list"[6] == 'l' && "tools/call"[6] == 'c';
  }

  /** The handshake answers with the fixed members and one version: the one asked for, or the default. */
  lemma HandshakeAnswer(server: Server, fields: map<string, Json>)
    requires "id" in fields && "method" in fields && fields["method"] == String("initialize")
    ensures var answer := HandleLine(server, Message(Object(fields)));
            var asked := if "params" in fields && fields["params"].Object? && "protocolVersion" in fields["params"].fields
                         then fields["params"].fields["protocolVersion"] else Null;
            && answer.Some? && answer.value.Object? && "result" in answer.value.fields && answer.value.fields["result"].Object?
            && var result := answer.value.fields["result"].fields;
               && result.Keys == server.greeting.Keys + {"protocolVersion"}
               && result["protocolVersion"] == (if asked.String? then asked else String("2024-11-05"))
               && forall k :: k in server.greeting && k != "protocolVersion" ==> result[k] == server.greeting[k]
  {
  }

  // ----- the loop over standard input -----

  /** What reading standard input yields next. */
  datatype Read = Got(line: Line) | ReadFailed

  function Lines(input: seq<Read>): (lines: seq<Line>)
    ensures |lines| <= |input|
  {
    if input == [] || input[0].ReadFailed? then [] else [input[0].line] + Lines(input[1..])
  }

  /** The answers to the lines in order; `servers(k)` is the server as line `k` finds it. */
  function Answers(servers: nat -> Server, lines: seq<Line>): seq<Json> {
    if lines == [] then []
    else
      var n := |lines| - 1;
      Answers(servers, lines[..n]) + (match HandleLine(servers(n), lines[n]) case None => [] case Some(r) => [r])
  }

  /** Reads until the input ends or fails and writes each answer before reading on. `writes` is
      the number of answers that can be written before a write fails, if one ever does. */
  method RunStdio(servers: nat -> Server, input: seq<Read>, writes: Option<nat>) returns (output: seq<Json>, ok: bool)
    ensures var answers := Answers(servers, Lines(input));
            if writes.Some? && writes.value < |answers| then output == answers[..writes.value] && !ok
            else output == answers && (ok <==> ReadFailed !in input)
  {
    hide HandleLine, Answers, Lines;
    output := [];
    var k: nat := 0;
    ghost var before: seq<Line> := [];
    NothingRead(servers, input);
    while k < |input|
      invariant k <= |input| && |before| == k
      invariant before + Lines(input[k..]) == Lines(input)
      invariant output == Answers(servers, before) && (writes.Some? ==> |output| <= writes.value)
      invariant ReadFailed !in input[..k]
    {
      LinesTurn(input, k);
      if input[k].ReadFailed? {
        assert before + [] == before;
        return output, false;
      }
      var line := input[k].line;
      AnswersTurn(servers, before, line, Lines(input[k + 1..]));
      assert before + ([line] + Lines(input[k + 1..])) == (before + [line]) + Lines(input[k + 1..]);
      match HandleLine(servers(k), line) {
        case None =>
        case Some(response) =>
          if writes == Some(|output|) {
            return output, false;
          }
          output := output + [response];
      }
      before := before + [line];
      k := k + 1;
    }
    LinesEnd(input);
    assert before + [] == before;
    ok := true;
  }

  lemma NothingRead(servers: nat -> Server, input: seq<Read>)
    ensures Answers(servers, []) == [] && [] + Lines(input[0..]) == Lines(input)
  {
    assert input[0..] == input;
  }

  lemma LinesEnd(input: seq<Read>)
    ensures Lines(input[|input|..]) == []
  {
  }

  /** The lines are what was got before the first failing read. */
  lemma {:induction false} LinesAreWhatWasGot(input: seq<Read>)
    ensures forall i :: 0 <= i < |Lines(input)| ==> input[i] == Got(Lines(input)[i])
    ensures |Lines(input)| < |input| ==> input[|Lines(input)|].ReadFailed?
  {
    if input != [] && input[0].Got? {
      LinesAreWhatWasGot(input[1..]);
    }
  }

  lemma LinesTurn(input: seq<Read>, k: nat)
    requires k < |input|
    ensures Lines(input[k..]) == if input[k].ReadFailed? then [] else [input[k].line] + Lines(input[k + 1..])
  {
    assert input[k..][1..] == input[k + 1..];
  }

  /** One line more, and what the rest can add to it. */
  lemma AnswersTurn(servers: nat -> Server, before: seq<Line>, line: Line, rest: seq<Line>)
    ensures var answer := HandleLine(servers(|before|), line);
            && Answers(servers, before + [line]) == Answers(servers, before) + (match answer case None => [] case Some(r) => [r])
            && (answer.Some? ==> |Answers(servers, before)| < |Answers(servers, before + ([line] + rest))|)
            && |Answers(servers, before)| <= |Answers(servers, before + ([line] + rest))|
            && Answers(servers, before + ([line] + rest))[..|Answers(servers, before)|] == Answers(servers, before)
  {
    hide HandleLine;
    assert (before + [line])[..|before|] == before;
    AnswersGrow(servers, before + [line], rest);
    assert (before + [line]) + rest == before + ([line] + rest);
  }

  /** More lines only add answers. */
  lemma {:induction false} AnswersGrow(servers: nat -> Server, lines: seq<Line>, more: seq<Line>)
    ensures Answers(servers, lines) <= Answers(servers, lines + more)
    decreases |more|
  {
    hide HandleLine;
    if more == [] {
      assert lines + more == lines;
    } else {
      var n := |more| - 1;
      AnswersGrow(servers, lines, more[..n]);
      assert (lines + more)[..|lines| + n] == lines + more[..n];
    }
  }

  /** The answered lines and nothing else, in the order they came in. */
  function AnsweredIds(lines: seq<Line>): seq<Json> {
    if lines == [] then []
    else
      var n := |lines| - 1;
      AnsweredIds(lines[..n]) + (if Answered(lines[n]) then [IdOf(lines[n])] else [])
  }

  /** The ids on the way out are the ids on the way in: no line is skipped, answered twice or
      answered out of turn, and a malformed line costs one answer with a null id. */
  lemma {:induction false} AnswersKeepOrder(servers: nat -> Server, lines: seq<Line>)
    ensures |Answers(servers, lines)| == |AnsweredIds(lines)|
    ensures forall k :: 0 <= k < |AnsweredIds(lines)| ==>
      IsResponse(Answers(servers, lines)[k]) && Member(Answers(servers, lines)[k], "id") == Some(AnsweredIds(lines)[k])
  {
    hide HandleLine, IsResponse;
    if lines != [] {
      var n := |lines| - 1;
      AnswersKeepOrder(servers, lines[..n]);
      AnswersMirrorRequests(servers(n), lines[n]);
    }
  }
}
