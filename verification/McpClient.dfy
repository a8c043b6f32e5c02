/** The client half: one request written, one line read, for every call. */
module McpClient {
  import opened JsonValue
  import opened McpServer
  import opened Text

  datatype ClientError = SpawnFailed | Io | Parse | Protocol(code: int, message: string) | Tool(text: string) | UnexpectedEof

  datatype Result<+T> = Ok(value: T) | Err(error: ClientError)

  /** What reading one line of the server's output yields. */
  datatype Reply = Closed | Unreadable | Unparsable | Response(json: Json)

  /** What the pipes do during one call. */
  datatype Pipe = WriteFails | Written(reply: Reply)

  function Request(id: int, name: string, params: Json): Json {
    Object(map["jsonrpc" := String("2.0"), "id" := Int(id), "method" := String(name), "params" := params])
  }

  /** What a call makes of the line it read. The id is not looked at. */
  function Interpret(reply: Reply): Result<Json> {
    match reply
    case Closed => Err(UnexpectedEof)
    case Unreadable => Err(Io)
    case Unparsable => Err(Parse)
    case Response(json) =>
      match Member(json, "error")
      case Some(e) => Err(Protocol(IntAt(e, "code"), StringAt(e, "message", "")))
      case None => Ok(MemberOr(json, "result", Null))
  }

  function ToolParams(name: string, arguments: Json): Json {
    Object(map["name" := String(name), "arguments" := arguments])
  }

  /** The text and the failure flag of a tool result, as far as they are there. */
  function ToolText(result: Json): Result<string> {
    var content := MemberOr(result, "content", Null);
    var text := if content.Array? && content.items != [] then StringAt(content.items[0], "text", "") else "";
    if MemberOr(result, "isError", Null) == Bool(true) then Err(Tool(text)) else Ok(text)
  }

  /** The next id, and every request line written so far. */
  datatype ClientState = ClientState(nextId: int, sent: seq<Json>)

  /** What one call does to the client and returns. The id is used up whether or not the write
      succeeds; exactly one line is read when it does. */
  predicate IsCall(before: ClientState, name: string, params: Json, pipe: Pipe, after: ClientState, outcome: Result<Json>) {
    && after.nextId == before.nextId + 1
    && after.sent == (if pipe.WriteFails? then before.sent else before.sent + [Request(before.nextId, name, params)])
    && outcome == (if pipe.WriteFails? then Err(Io) else Interpret(pipe.reply))
  }

  class McpClient {
    var nextId: int
    var sent: seq<Json>

    function State(): ClientState
      reads this
    {
      ClientState(nextId, sent)
    }

    constructor ()
      ensures nextId == 1 && sent == []
    {
      nextId, sent := 1, [];
    }

    /** Starts the server and makes the handshake; without both there is no client. */
    static method Spawn(starts: bool, pipe: Pipe) returns (r: Result<McpClient>)
      ensures !starts ==> r == Err(SpawnFailed)
      ensures starts && pipe.WriteFails? ==> r == Err(Io)
      ensures starts && pipe.Written? ==>
        match Interpret(pipe.reply)
        case Err(e) => r == Err(e)
        case Ok(_) => r.Ok? && fresh(r.value) && r.value.State() == ClientState(2, [Request(1, "initialize", HANDSHAKE)])
    {
      if !starts {
        return Err(SpawnFailed);
      }
      var client := new McpClient();
      var outcome := client.Call("initialize", HANDSHAKE, pipe);
      match outcome
      case Err(e) => r := Err(e);
      case Ok(_) => r := Ok(client);
    }

    method NextRequestId() returns (id: int)
      modifies this`nextId
      ensures id == old(nextId) && nextId == old(nextId) + 1
    {
      id := nextId;
      nextId := nextId + 1;
    }

    method Call(name: string, params: Json, pipe: Pipe) returns (outcome: Result<Json>)
      modifies this
      ensures IsCall(old(State()), name, params, pipe, State(), outcome)
    {
      var id := NextRequestId();
      var request := Request(id, name, params);
      if pipe.WriteFails? {
        return Err(Io);
      }
      sent := sent + [request];
      outcome := Interpret(pipe.reply);
    }

    method CallTool(name: string, arguments: Json, pipe: Pipe) returns (outcome: Result<string>)
      modifies this
      ensures nextId == old(nextId) + 1
      ensures sent == if pipe.WriteFails? then old(sent) else old(sent) + [Request(old(nextId), "tools/call", ToolParams(name, arguments))]
      ensures pipe.WriteFails? ==> outcome == Err(Io)
      ensures pipe.Written? ==> outcome == ToolOutcomeOf(pipe.reply)
    {
      var result := Call("tools/call", ToolParams(name, arguments), pipe);
      match result
      case Err(e) => outcome := Err(e);
      case Ok(json) => outcome := ToolText(json);
    }
  }

  /** A call writes one well-formed request under the next id and is decided by the one line read:
      an `error` member wins over a result, and a missing result is null. */
  lemma CallExactly(before: ClientState, name: string, params: Json, pipe: Pipe, after: ClientState, outcome: Result<Json>)
    requires IsCall(before, name, params, pipe, after, outcome)
    ensures pipe.WriteFails? ==> outcome == Err(Io) && after == before.(nextId := before.nextId + 1)
    ensures pipe.Written? ==>
      && |after.sent| == |before.sent| + 1 && after.sent[..|before.sent|] == before.sent && after.nextId == before.nextId + 1
      && after.sent[|before.sent|] == Object(map["jsonrpc" := String("2.0"), "id" := Int(before.nextId), "method" := String(name), "params" := params])
    ensures pipe == Written(Closed) ==> outcome == Err(UnexpectedEof)
    ensures pipe == Written(Unreadable) ==> outcome == Err(Io)
    ensures pipe == Written(Unparsable) ==> outcome == Err(Parse)
    ensures forall fields :: pipe == Written(Response(Object(fields))) ==>
      if "error" in fields then outcome.Err? && outcome.error.Protocol? && (fields["error"] == Object(map[]) ==> outcome == Err(Protocol(0, "")))
      else if "result" in fields then outcome == Ok(fields["result"]) else outcome == Ok(Null)
    ensures forall fields, code, message ::
      (pipe == Written(Response(Object(fields))) && "error" in fields
        && fields["error"] == Object(map["code" := Int(code), "message" := String(message)]))
      ==> outcome == Err(Protocol(if -0x8000_0000_0000_0000 <= code < 0x8000_0000_0000_0000 then code else 0, message))
  {
  }

  /** The text of a tool result is that of its first content item, and the flag makes it an error;
      without the item the text is empty. */
  lemma ToolTextExactly(fields: map<string, Json>)
    ensures var failed := "isError" in fields && fields["isError"] == Bool(true);
            && (!("content" in fields && fields["content"].Array? && fields["content"].items != []) ==>
                  ToolText(Object(fields)) == if failed then Err(Tool("")) else Ok(""))
            && (forall text: string, rest, kind :: "content" in fields && fields["content"] == Array([Object(map["type" := kind, "text" := String(text)])] + rest) ==>
                  ToolText(Object(fields)) == if failed then Err(Tool(text)) else Ok(text))
  {
  }

  const HANDSHAKE := Object(map["protocolVersion" := String("2024-11-05")])

  function ToolOutcomeOf(reply: Reply): Result<string> {
    match Interpret(reply)
    case Err(e) => Err(e)
    case Ok(json) => ToolText(json)
  }

  // ----- the two halves together -----

  /** The server's answer to a request. */
  function AnswerTo(server: Server, request: Json): (r: Json)
    requires Member(request, "id").Some?
  {
    AnswersMirrorRequests(server, Message(request));
    HandleLine(server, Message(request)).value
  }

  /** What the server computed for a method is what the call returns, and an unknown method is
      a protocol error and nothing else is. */
  lemma MethodComesThrough(server: Server, id: int, name: string, params: Json)
    ensures Interpret(Response(AnswerTo(server, Request(id, name, params)))) ==
      if KnownMethod(name) then Ok(ResultOf(server, name, params)) else Err(Protocol(METHOD_NOT_FOUND, "Method not found: " + name))
  {
    hide KnownMethod, ResultOf;
    var request := Request(id, name, params);
    assert Member(request, "id") == Some(Int(id)) && MethodOf(request) == name && MemberOr(request, "params", Null) == params;
  }

  /** The client's own handshake always succeeds, on the version the client asked for; another
      client is answered with the version it names, or the default when it names none. */
  lemma HandshakeAgrees(server: Server, id: int, params: Json)
    ensures var outcome := Interpret(Response(AnswerTo(server, Request(id, "initialize", params))));
            && outcome.Ok? && Member(outcome.value, "protocolVersion").Some?
            && var version := Member(outcome.value, "protocolVersion").value;
               (params == HANDSHAKE ==> version == String("2024-11-05"))
               && (forall v :: Member(params, "protocolVersion") == Some(String(v)) ==> version == String(v))
               && ((forall v :: Member(params, "protocolVersion") != Some(String(v))) ==> version == String(PROTOCOL_VERSION_DEFAULT))
  {
    MethodComesThrough(server, id, "initialize", params);
    if Member(params, "protocolVersion").Some? && Member(params, "protocolVersion").value.String? {
      assert Member(params, "protocolVersion") == Some(String(Member(params, "protocolVersion").value.s));
    }
  }

  /** A tool's text comes through as text and its failure as a tool error with the same words,
      so a caller can tell a refusal from a broken server. */
  lemma ToolComesThrough(server: Server, id: int, name: string, arguments: Json)
    ensures ToolOutcomeOf(Response(AnswerTo(server, Request(id, "tools/call", ToolParams(name, arguments))))) ==
      match McpServer.CallTool(server, name, arguments)
      case Done(text) => Ok(text)
      case Failed(message) => Err(Tool(message))
  {
    hide McpServer.CallTool;
    var params := ToolParams(name, arguments);
    MethodComesThrough(server, id, "tools/call", params);
    assert StringAt(params, "name", "") == name && MemberOr(params, "arguments", Object(map[])) == arguments;
  }
}
