/** The desktop engine's request flow (`process_request_message` and `chat_llm` in
    app/llm/chat_engine.py): progress chunks, the model's streamed reply, the parsed plan and
    the sequential tool calls. The tool host and the model are parameters. */
module ChatEngine {
  import opened Wrappers
  import opened Text
  import opened JsonValue
  import opened ToolPlan

  /** What `ollama.chat` does: raises at once, or streams some pieces and possibly then raises. */
  datatype LlmReply =
    | Raised(error: string)
    | Streamed(pieces: seq<string>, streamError: Option<string>)

  /** The chunks `chat_llm` passes to `on_chunk` and the text it returns (`None` after an
      immediate failure). */
  datatype LlmRun = LlmRun(chunks: seq<string>, text: Option<string>)

  function ChatLlm(reply: LlmReply): (r: LlmRun)
    ensures reply.Raised? ==> r.text.None? && |r.chunks| == 1
    ensures reply.Streamed? ==> r.text == Some(Concat(reply.pieces))
    ensures reply.Streamed? ==> reply.pieces <= r.chunks
    ensures reply.Streamed? ==> |r.chunks| == |reply.pieces| + (if reply.streamError.Some? then 1 else 0)
  {
    match reply
    case Raised(e) => LlmRun(["❌ Unexpected error: " + e], None)
    case Streamed(pieces, err) =>
      var tail := if err.Some? then ["\n❌ Error streaming response: " + err.value] else [];
      LlmRun(pieces + tail, Some(Concat(pieces)))
  }

  /** The calls attempted, in plan order, and whether every one returned. A call that raises
      ends the loop: the calls after it are never made. */
  function RunCalls(calls: seq<Call>, ok: (Json, Json) -> bool): (r: (seq<Call>, bool))
    ensures r.0 <= calls
    ensures r.1 <==> forall k :: 0 <= k < |calls| ==> ok(calls[k].name, calls[k].parameters)
    ensures r.1 ==> r.0 == calls
    ensures !r.1 ==> |r.0| > 0 && !ok(r.0[|r.0| - 1].name, r.0[|r.0| - 1].parameters)
    ensures forall k :: 0 <= k < |r.0| - 1 ==> ok(r.0[k].name, r.0[k].parameters)
  {
    if calls == [] then ([], true)
    else if !ok(calls[0].name, calls[0].parameters) then ([calls[0]], false)
    else
      var rest := RunCalls(calls[1..], ok);
      assert forall k :: 1 <= k < |calls| ==> calls[k] == calls[1..][k - 1];
      ([calls[0]] + rest.0, rest.1)
  }

  /** Everything one request produces: the `on_chunk` stream and the tool calls made. */
  datatype Run = Run(chunks: seq<string>, calls: seq<Call>)

  const Heading: string := "Chat model is processing the request to get tools...\n"
  const Parsing: string := "\nChat completed. Parsing tools...\n"
  const Executing: string := "Executing tools...\n"
  const AllDone: string := "✅ All tools executed successfully\n"

  /** The chunks sent before the plan is known. `chat_llm` returning `None` makes the parser
      raise inside its own `try`, which yields an empty plan. */
  function Preamble(toolCount: nat, reply: LlmReply): seq<string> {
    ["Getting tools...\n", "Got " + NatToString(toolCount) + " tools.\n", Heading]
      + ChatLlm(reply).chunks + [Parsing]
  }

  function PlanOf(reply: LlmReply, decode: Decoder): seq<Call> {
    match ChatLlm(reply).text
    case None => []
    case Some(t) => ParseEngineTools(t, decode)
  }

  function ProcessRequestMessage(toolCount: nat, reply: LlmReply, decode: Decoder,
                                 ok: (Json, Json) -> bool): (r: Run)
    ensures Preamble(toolCount, reply) <= r.chunks
    ensures PlanOf(reply, decode) == [] ==> r == Run(Preamble(toolCount, reply), [])
    ensures PlanOf(reply, decode) != [] ==>
              |r.chunks| > |Preamble(toolCount, reply)| && r.chunks[|Preamble(toolCount, reply)|] == Executing
    ensures r.calls <= PlanOf(reply, decode)
    ensures AllDone in r.chunks[|Preamble(toolCount, reply)|..] <==>
              PlanOf(reply, decode) != [] && r.calls == PlanOf(reply, decode)
              && forall k :: 0 <= k < |r.calls| ==> ok(r.calls[k].name, r.calls[k].parameters)
  {
    var pre := Preamble(toolCount, reply);
    var plan := PlanOf(reply, decode);
    if plan == [] then Run(pre, [])
    else
      var (made, allOk) := RunCalls(plan, ok);
      var tail := if allOk then [Executing, AllDone] else [Executing];
      assert AllDone in tail <==> allOk;
      Run(pre + tail, made)
  }

  /** A model that fails before streaming anything leads to no tool call at all. */
  lemma RaisedModelCallsNothing(toolCount: nat, error: string, decode: Decoder, ok: (Json, Json) -> bool)
    ensures ProcessRequestMessage(toolCount, Raised(error), decode, ok).calls == []
    ensures ProcessRequestMessage(toolCount, Raised(error), decode, ok).chunks
         == ["Getting tools...\n", "Got " + NatToString(toolCount) + " tools.\n", Heading,
             "❌ Unexpected error: " + error, Parsing]
  {
  }

  /** When the second of three calls raises, the third is never made and no success chunk
      is sent. */
  lemma SecondCallFails(a: Call, b: Call, c: Call, ok: (Json, Json) -> bool)
    requires ok(a.name, a.parameters) && !ok(b.name, b.parameters)
    ensures RunCalls([a, b, c], ok) == ([a, b], false)
  {
    assert [a, b, c][1..] == [b, c];
    assert [b, c][1..] == [c];
    assert [a] + [b] == [a, b];
  }
}
