/** The execute loop of `ollama_event_generator` (chatbot_backend/app/api/model_provider.py,
    lines 96-122) and `get_model_event_generator`. The model's reply text, the tool host,
    `json.loads`, `json.dumps` and `ast.literal_eval` are parameters; the message store is
    represented by the assistant message the loop would persist. */
module Executor {
  import opened Wrappers
  import opened Text
  import opened JsonValue
  import opened ToolPlan
  import opened Resolver
  import opened Stream

  /** `mcp_client.call_tool`: the `content` list of its result, or `None` when it raises. */
  type Host = (Json, Json) -> Option<seq<Content>>

  /** What one iteration adds to the response: the "Executing" announcement, or the replay
      of a tool's text. */
  datatype Piece = Announce(line: string) | Replay(text: string)

  /** The announcement of one call. */
  function ExecutingLine(step: Step): string {
    "⚙️ Executing `" + Str(step.tool) + "` (Step " + Str(step.order) + ")..."
  }

  /** The effect of a stretch of the loop: the pieces sent, the calls made with their resolved
      arguments, the storage afterwards, and whether the loop may go on. */
  datatype Progress = Progress(pieces: seq<Piece>, calls: seq<(Json, Json)>, storage: Storage, ok: bool)

  /** One iteration: resolve the arguments, announce, call, record the first text result and
      replay it. Resolution raising stops before the announcement; the host raising, or
      `save_response_to_dict` returning `None` (the `async for` over `None` raises), stops after
      the call. */
  function ExecuteStep(step: Step, storage: Storage, host: Host, literal: Literal): (r: Progress)
    ensures |r.calls| <= 1
    ensures r.calls != [] <==> GetToolParams(step.params, storage, literal).Some?
    ensures r.calls != [] ==> r.calls[0] == (step.tool, GetToolParams(step.params, storage, literal).value)
    ensures r.calls != [] ==> r.pieces != [] && r.pieces[0] == Announce(ExecutingLine(step))
    ensures r.calls == [] ==> r.pieces == [] && r.storage == storage && !r.ok
    ensures r.ok <==> r.calls != [] && host(r.calls[0].0, r.calls[0].1).Some?
                      && host(r.calls[0].0, r.calls[0].1).value != []
                      && host(r.calls[0].0, r.calls[0].1).value[0].TextItem?
    ensures r.ok ==> r.pieces == [Announce(ExecutingLine(step)), Replay(host(r.calls[0].0, r.calls[0].1).value[0].text)]
    ensures r.ok ==> r.storage == SaveResponse(step.tool, host(r.calls[0].0, r.calls[0].1).value, storage).1
  {
    match GetToolParams(step.params, storage, literal)
    case None => Progress([], [], storage, false)
    case Some(params) =>
      var announce := Announce(ExecutingLine(step));
      match host(step.tool, params)
      case None => Progress([announce], [(step.tool, params)], storage, false)
      case Some(content) =>
        var (text, stored) := SaveResponse(step.tool, content, storage);
        match text
        case None => Progress([announce], [(step.tool, params)], stored, false)
        case Some(t) => Progress([announce, Replay(t)], [(step.tool, params)], stored, true)
  }

  /** `b` run after `a`, which must have finished normally. */
  function Then(a: Progress, b: Progress): Progress {
    Progress(a.pieces + b.pieces, a.calls + b.calls, b.storage, b.ok)
  }

  /** The whole `for tool in parsed_tools` loop from a given storage. */
  function ExecuteSteps(steps: seq<Step>, storage: Storage, host: Host, literal: Literal): (r: Progress)
    ensures |r.calls| <= |steps|
    ensures r.ok ==> |r.calls| == |steps|
    ensures steps == [] ==> r == Progress([], [], storage, true)
    decreases |steps|
  {
    if steps == [] then Progress([], [], storage, true)
    else
      var first := ExecuteStep(steps[0], storage, host, literal);
      if !first.ok then first
      else Then(first, ExecuteSteps(steps[1..], first.storage, host, literal))
  }

  lemma CallsOfThen(first: Progress, rest: Progress, s0: Step, steps: seq<Step>)
    requires |first.calls| == 1 && first.calls[0].0 == s0.tool
    requires |rest.calls| <= |steps| && forall k :: 0 <= k < |rest.calls| ==> rest.calls[k].0 == steps[k].tool
    ensures var all := [s0] + steps; var c := Then(first, rest).calls;
      |c| <= |all| && forall k :: 0 <= k < |c| ==> c[k].0 == all[k].tool
  {
    var all := [s0] + steps;
    var c := Then(first, rest).calls;
    assert forall k :: 1 <= k < |c| ==> c[k] == rest.calls[k - 1] && all[k] == steps[k - 1];
  }

  /** Calls follow the plan: the k-th call made is to the k-th step's tool. */
  lemma {:induction false} CallsFollowPlan(steps: seq<Step>, storage: Storage, host: Host, literal: Literal)
    ensures var r := ExecuteSteps(steps, storage, host, literal);
      forall k :: 0 <= k < |r.calls| ==> r.calls[k].0 == steps[k].tool
    decreases |steps|
  {
    if steps != [] {
      var first := ExecuteStep(steps[0], storage, host, literal);
      if first.ok {
        var rest := ExecuteSteps(steps[1..], first.storage, host, literal);
        assert ExecuteSteps(steps, storage, host, literal) == Then(first, rest);
        CallsFollowPlan(steps[1..], first.storage, host, literal);
        assert [steps[0]] + steps[1..] == steps;
        CallsOfThen(first, rest, steps[0], steps[1..]);
      } else {
        assert ExecuteSteps(steps, storage, host, literal) == first;
      }
    }
  }

  lemma ThenAssoc(a: Progress, b: Progress, c: Progress)
    ensures Then(Then(a, b), c) == Then(a, Then(b, c))
  {
    assert a.pieces + b.pieces + c.pieces == a.pieces + (b.pieces + c.pieces);
    assert a.calls + b.calls + c.calls == a.calls + (b.calls + c.calls);
  }

  lemma ThenEmpty(a: Progress, storage: Storage)
    ensures Then(Progress([], [], storage, true), a) == a
    ensures Then(a, Progress([], [], a.storage, true)) == a.(ok := true)
  {
    assert [] + a.pieces == a.pieces && [] + a.calls == a.calls;
    assert a.pieces + [] == a.pieces && a.calls + [] == a.calls;
  }

  /** Sequential composition: the loop over `a + b` is the loop over `a`, then, if that
      finished, the loop over `b` from the storage `a` left behind. */
  lemma {:induction false} ExecuteStepsAppend(a: seq<Step>, b: seq<Step>, storage: Storage, host: Host,
                                              literal: Literal)
    ensures var first := ExecuteSteps(a, storage, host, literal);
      ExecuteSteps(a + b, storage, host, literal)
        == if first.ok then Then(first, ExecuteSteps(b, first.storage, host, literal)) else first
    decreases |a|
  {
    if a == [] {
      assert a + b == b;
      ThenEmpty(ExecuteSteps(b, storage, host, literal), storage);
    } else {
      assert (a + b)[0] == a[0];
      assert (a + b)[1..] == a[1..] + b;
      var first := ExecuteStep(a[0], storage, host, literal);
      if first.ok {
        ExecuteStepsAppend(a[1..], b, first.storage, host, literal);
        var mid := ExecuteSteps(a[1..], first.storage, host, literal);
        if mid.ok {
          ThenAssoc(first, mid, ExecuteSteps(b, mid.storage, host, literal));
        }
      }
    }
  }

  /** A placeholder naming an earlier step's tool receives that step's text: the result is
      stored before the next step's arguments are resolved. */
  lemma ResultFeedsNextStep(s1: Step, s2: Step, key: string, text: string, host: Host, literal: Literal)
    requires s1.params == JObj([]) && s2.params == JObj([(key, JStr(ResultPrefix + Str(s1.tool)))])
    requires host(s1.tool, JObj([])) == Some([TextItem(text)])
    ensures var run := ExecuteSteps([s1, s2], map[], host, literal);
      |run.calls| == 2 && run.calls[1] == (s2.tool, JObj([(key, JStr(text))]))
  {
    var first := ExecuteStep(s1, map[], host, literal);
    assert GetToolParams(JObj([]), map[], literal) == Some(JObj([]));
    assert first.ok && first.storage == map[ResultPrefix + Str(s1.tool) := text];
    ResolvesStored(key, s1.tool, text, literal);
    var second := ExecuteStep(s2, first.storage, host, literal);
    assert second.calls == [(s2.tool, JObj([(key, JStr(text))]))];
    SecondOfTwo(s1, s2, host, literal);
  }

  lemma ResolvesStored(key: string, tool: Json, text: string, literal: Literal)
    ensures GetToolParams(JObj([(key, JStr(ResultPrefix + Str(tool)))]), map[ResultPrefix + Str(tool) := text], literal)
         == Some(JObj([(key, JStr(text))]))
  {
    StoreThenResolve(tool, text, [], map[], literal);
    assert [TextItem(text)] + [] == [TextItem(text)];
    var fields := [(key, JStr(ResultPrefix + Str(tool)))];
    var r := ResolveFields(fields, map[ResultPrefix + Str(tool) := text], literal);
    assert r.Some? && |r.value| == 1 && r.value[0] == (key, JStr(text));
    assert r.value == [(key, JStr(text))];
  }

  /** With two steps, the second call is the second step's call from the storage the first
      left behind. */
  lemma SecondOfTwo(s1: Step, s2: Step, host: Host, literal: Literal)
    requires ExecuteStep(s1, map[], host, literal).ok
    ensures var first := ExecuteStep(s1, map[], host, literal);
      var second := ExecuteStep(s2, first.storage, host, literal);
      ExecuteSteps([s1, s2], map[], host, literal).calls == first.calls + second.calls
  {
    var first := ExecuteStep(s1, map[], host, literal);
    assert [s1, s2][0] == s1 && [s1, s2][1..] == [s2];
    var second := ExecuteStep(s2, first.storage, host, literal);
    assert [s2][1..] == [];
    var tail := ExecuteSteps([s2], first.storage, host, literal);
    assert tail.calls == second.calls by {
      if second.ok {
        ThenEmpty(second, first.storage);
      }
    }
  }

  /** The iterative loop, as the generator runs it, computes the loop's meaning. */
  method RunLoop(steps: seq<Step>, host: Host, literal: Literal)
    returns (pieces: seq<Piece>, calls: seq<(Json, Json)>, storage: Storage, ok: bool)
    ensures Progress(pieces, calls, storage, ok) == ExecuteSteps(steps, map[], host, literal)
  {
    pieces, calls, storage, ok := [], [], map[], true;
    ThenEmpty(ExecuteSteps(steps, map[], host, literal), map[]);
    var i := 0;
    while i < |steps| && ok
      invariant 0 <= i <= |steps|
      invariant ok ==> Then(Progress(pieces, calls, storage, true), ExecuteSteps(steps[i..], storage, host, literal))
                       == ExecuteSteps(steps, map[], host, literal)
      invariant !ok ==> Progress(pieces, calls, storage, ok) == ExecuteSteps(steps, map[], host, literal)
      decreases |steps| - i
    {
      var acc := Progress(pieces, calls, storage, true);
      var step := ExecuteStep(steps[i], storage, host, literal);
      var rest := ExecuteSteps(steps[i + 1..], step.storage, host, literal);
      assert steps[i..][0] == steps[i] && steps[i..][1..] == steps[i + 1..];
      if step.ok {
        ThenAssoc(acc, step, rest);
      }
      pieces, calls, storage, ok := pieces + step.pieces, calls + step.calls, step.storage, step.ok;
      i := i + 1;
    }
    if ok {
      assert steps[i..] == [];
      ThenEmpty(Progress(pieces, calls, storage, true), storage);
    }
  }

  // ---------------------------------------------------------------- the whole generator

  /** Frames as they are written to `chatResponseMessage`. */
  function WireAll(frames: seq<Frame>, encode: string -> string): (r: seq<string>)
    ensures |r| == |frames| && forall k :: 0 <= k < |r| ==> r[k] == Wire(frames[k], encode)
  {
    seq(|frames|, k requires 0 <= k < |frames| => Wire(frames[k], encode))
  }

  /** The frames a piece yields: the announcement in one frame, a replay word by word. */
  function PieceFrames(p: Piece): seq<Frame> {
    match p
    case Announce(line) => [Yield(line)]
    case Replay(text) => FakeTextStream(text)
  }

  /** What a piece adds to `chatResponseMessage`: the announcement without framing, a replay
      as the wire text of its frames. */
  function PieceRecord(p: Piece, encode: string -> string): string {
    match p
    case Announce(line) => line
    case Replay(text) => Concat(WireAll(FakeTextStream(text), encode))
  }

  function Render(pieces: seq<Piece>): seq<Frame> {
    if pieces == [] then [] else PieceFrames(pieces[0]) + Render(pieces[1..])
  }

  function RenderRecord(pieces: seq<Piece>, encode: string -> string): string {
    if pieces == [] then "" else PieceRecord(pieces[0], encode) + RenderRecord(pieces[1..], encode)
  }

  /** What one request streams and stores: the yielded frames, the tool calls, and the
      assistant message persisted after the loop (`None` when the generator raised first). */
  datatype Turn = Turn(frames: seq<Frame>, calls: seq<(Json, Json)>, persisted: Option<string>)

  /** `ollama_event_generator` from the parsed plan on: plan frames, the loop with a fresh
      storage, then the assistant message and a final empty frame. */
  function Generate(steps: seq<Step>, dumps: Json -> string, host: Host, literal: Literal,
                    encode: string -> string): (r: Turn)
    ensures PlanFrames(steps, dumps).0 <= r.frames
    ensures r.calls == (if PlanFrames(steps, dumps).1 then ExecuteSteps(steps, map[], host, literal).calls else [])
    ensures r.persisted.Some? <==> PlanFrames(steps, dumps).1 && ExecuteSteps(steps, map[], host, literal).ok
    ensures r.persisted.Some? ==> r.frames != [] && r.frames[|r.frames| - 1] == Yield("")
    ensures r.persisted.Some? ==> |r.calls| == |steps|
    ensures r.persisted.Some? ==>
      r.persisted.value == Concat(WireAll(PlanFrames(steps, dumps).0, encode))
                           + RenderRecord(ExecuteSteps(steps, map[], host, literal).pieces, encode)
  {
    var (planFrames, planOk) := PlanFrames(steps, dumps);
    if !planOk then Turn(planFrames, [], None)
    else
      var run := ExecuteSteps(steps, map[], host, literal);
      var frames := planFrames + Render(run.pieces);
      if !run.ok then Turn(frames, run.calls, None)
      else
        var persisted := Concat(WireAll(planFrames, encode)) + RenderRecord(run.pieces, encode);
        Turn(frames + [Yield("")], run.calls, Some(persisted))
  }

  /** The whole generator after the model replied with `reply`. */
  function EventGenerator(reply: string, decode: Decoder, dumps: Json -> string, host: Host,
                          literal: Literal, encode: string -> string): Turn {
    Generate(ParseToolsToCall(reply, decode), dumps, host, literal, encode)
  }

  /** An empty plan still announces the launch, persists that announcement and ends with the
      empty frame. */
  lemma EmptyPlanTurn(dumps: Json -> string, host: Host, literal: Literal, encode: string -> string)
    ensures Generate([], dumps, host, literal, encode)
         == Turn([Yield(Launch), Yield("")], [], Some(Wire(Yield(Launch), encode)))
  {
    var plan := PlanFrames([], dumps);
    assert plan == ([Yield(Launch)], true);
    var run := ExecuteSteps([], map[], host, literal);
    assert run == Progress([], [], map[], true);
    var wire := Wire(Yield(Launch), encode);
    var w := WireAll([Yield(Launch)], encode);
    assert w == [wire];
    assert Concat(w) == wire by {
      assert w[1..] == [];
      assert Concat(w) == wire + Concat([]);
      assert wire + [] == wire;
    }
    assert Concat(w) + RenderRecord([], encode) == wire by {
      assert RenderRecord([], encode) == "";
      assert wire + "" == wire;
    }
    assert [Yield(Launch)] + Render([]) + [Yield("")] == [Yield(Launch), Yield("")] by {
      assert Render([]) == [];
    }
  }

  /** A reply that does not decode to a list gives the empty plan's turn. */
  lemma UnparsableReplyTurn(reply: string, decode: Decoder, dumps: Json -> string, host: Host,
                            literal: Literal, encode: string -> string)
    requires !(decode(StripFences(reply)).Some? && decode(StripFences(reply)).value.JArr?)
    ensures EventGenerator(reply, decode, dumps, host, literal, encode)
         == Turn([Yield(Launch), Yield("")], [], Some(Wire(Yield(Launch), encode)))
  {
    EmptyPlanTurn(dumps, host, literal, encode);
  }

  /** Storage is fresh for every request: the first call's arguments are resolved against
      an empty storage, so its placeholders become `None`. */
  lemma FirstCallSeesFreshStorage(steps: seq<Step>, dumps: Json -> string, host: Host, literal: Literal,
                                  encode: string -> string)
    requires steps != []
    ensures var r := Generate(steps, dumps, host, literal, encode);
      r.calls != [] ==> r.calls[0] == (steps[0].tool, GetToolParams(steps[0].params, map[], literal).value)
  {
    var first := ExecuteStep(steps[0], map[], host, literal);
    if first.ok {
      var rest := ExecuteSteps(steps[1..], first.storage, host, literal);
      assert (first.calls + rest.calls)[0] == first.calls[0];
    }
  }

  // ---------------------------------------------------------------- get_model_event_generator

  datatype Generator = Ollama | Gemini

  /** `get_model_event_generator`: the generator for "ollama" or "gemini"; any other name
      raises `ValueError("Model <name> not supported")`. */
  function GetModelEventGenerator(model: string): (r: Result<Generator, string>)
    ensures r.Success? <==> model == "ollama" || model == "gemini"
    ensures r == Success(Ollama) <==> model == "ollama"
    ensures r.Failure? ==> r.error == "Model " + model + " not supported"
  {
    if model == "ollama" then Success(Ollama)
    else if model == "gemini" then Success(Gemini)
    else Failure("Model " + model + " not supported")
  }
}
