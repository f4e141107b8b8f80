/** Decoding of the language model's reply into an ordered list of tool calls
    (`parse_tools_to_call` in chatbot_backend/app/api/model_provider.py and its
    `tool_name`/`parameters` twin in app/llm/chat_engine.py). */
module ToolPlan {
  import opened Wrappers
  import opened Text
  import opened JsonValue

  /** `json.loads` as a partial function: `None` stands for the exception it raises. */
  type Decoder = string -> Option<Json>

  const JsonFence: string := "```json"
  const Fence: string := "```"

  /** The Markdown unwrapping done before decoding: the first piece after the first
      "```json" (else after the first "```"), cut at the next "```" and stripped. */
  function StripFences(text: string): string {
    if Contains(text, JsonFence) then Strip(SplitOn(SplitOn(text, JsonFence)[1], Fence)[0])
    else if Contains(text, Fence) then Strip(SplitOn(SplitOn(text, Fence)[1], Fence)[0])
    else text
  }

  lemma OccursInSuffix(text: string, sep: string, d: nat)
    requires d <= |text|
    ensures forall k :: 0 <= k ==> (OccursAt(text[d..], sep, k) <==> OccursAt(text, sep, d + k))
  {
    forall k | 0 <= k
      ensures OccursAt(text[d..], sep, k) <==> OccursAt(text, sep, d + k)
    {
      if d + k + |sep| <= |text| {
        assert text[d..][k..k + |sep|] == text[d + k..d + k + |sep|];
      }
    }
  }

  lemma OccursInPrefix(x: string, sep: string, m: nat)
    requires m <= |x|
    ensures forall k :: OccursAt(x[..m], sep, k) ==> OccursAt(x, sep, k)
    ensures forall k :: 0 <= k && k + |sep| <= m && OccursAt(x, sep, k) ==> OccursAt(x[..m], sep, k)
  {
    forall k | 0 <= k && k + |sep| <= m
      ensures OccursAt(x[..m], sep, k) <==> OccursAt(x, sep, k)
    {
      assert x[..m][k..k + |sep|] == x[k..k + |sep|];
    }
  }

  /** A "```json" occurrence is also a "```" occurrence. */
  lemma JsonFenceIsFence(x: string, k: int)
    requires OccursAt(x, JsonFence, k)
    ensures OccursAt(x, Fence, k)
  {
    assert x[k..k + |Fence|] == x[k..k + |JsonFence|][..|Fence|];
  }

  /** Cutting at the next `marker` and then at the next "```" leaves the text up to the first
      "```", unless a "```json" marker overlaps that fence. */
  lemma CutAtFirstFence(x: string, marker: string, jx: nat)
    requires marker == Fence || marker == JsonFence
    requires jx <= |x| && (jx == |x| || OccursAt(x, Fence, jx))
    requires forall k :: 0 <= k < jx ==> !OccursAt(x, Fence, k)
    requires marker == JsonFence ==> forall k :: jx < k < jx + |Fence| ==> !OccursAt(x, JsonFence, k)
    ensures SplitOn(SplitOn(x, marker)[0], Fence)[0] == x[..jx]
  {
    var m: nat := match IndexOf(x, marker) case None => |x| case Some(v) => v;
    SplitOnHead(x, marker, m);
    var p := x[..m];
    OccursInPrefix(x, Fence, m);
    if m < |x| && marker == JsonFence {
      JsonFenceIsFence(x, m);
    }
    assert jx <= m;
    if jx == m {
      assert p[..jx] == p;
      forall k | 0 <= k < |p|
        ensures !OccursAt(p, Fence, k)
      {
        assert !OccursAt(x, Fence, k);
      }
      SplitOnHead(p, Fence, |p|);
    } else {
      assert jx + |Fence| <= m;
      assert OccursAt(p, Fence, jx);
      SplitOnHead(p, Fence, jx);
      assert p[..jx] == x[..jx];
    }
  }

  /** With the first "```json" at `i` and the next "```" after it at `j` (or none, `j == |text|`),
      exactly the stripped text between the two is decoded. */
  lemma JsonFenceSegment(text: string, i: nat, j: nat)
    requires OccursAt(text, JsonFence, i)
    requires forall k :: 0 <= k < i ==> !OccursAt(text, JsonFence, k)
    requires i + |JsonFence| <= j <= |text|
    requires j == |text| || OccursAt(text, Fence, j)
    requires forall k :: i + |JsonFence| <= k < j ==> !OccursAt(text, Fence, k)
    requires forall k :: j < k < j + |Fence| ==> !OccursAt(text, JsonFence, k)
    ensures StripFences(text) == Strip(text[i + |JsonFence|..j])
  {
    var d := i + |JsonFence|;
    var x := text[d..];
    assert Contains(text, JsonFence) by { IndexOfFirst(text, JsonFence, i); }
    assert SplitOn(text, JsonFence)[1] == SplitOn(x, JsonFence)[0] by { SplitOnPieces(text, JsonFence, i); }
    assert SplitOn(SplitOn(x, JsonFence)[0], Fence)[0] == x[..j - d] by {
      OccursInSuffix(text, Fence, d);
      OccursInSuffix(text, JsonFence, d);
      CutAtFirstFence(x, JsonFence, j - d);
    }
    assert x[..j - d] == text[d..j];
  }

  /** Without any "```json", the first "```" at `i` and the next at `j` (or none) delimit
      the decoded text. */
  lemma BareFenceSegment(text: string, i: nat, j: nat)
    requires forall k :: !OccursAt(text, JsonFence, k)
    requires OccursAt(text, Fence, i)
    requires forall k :: 0 <= k < i ==> !OccursAt(text, Fence, k)
    requires i + |Fence| <= j <= |text|
    requires j == |text| || OccursAt(text, Fence, j)
    requires forall k :: i + |Fence| <= k < j ==> !OccursAt(text, Fence, k)
    ensures StripFences(text) == Strip(text[i + |Fence|..j])
  {
    var d := i + |Fence|;
    assert !Contains(text, JsonFence) by { var r := IndexOf(text, JsonFence); assert r.None?; }
    FirstPieceAfter(text, Fence, i);
    SecondFenceCut(text, d, j);
  }

  /** When `sep` first occurs at `i`, the second piece of the split starts right after it. */
  lemma FirstPieceAfter(text: string, sep: string, i: nat)
    requires |sep| > 0 && OccursAt(text, sep, i)
    requires forall k :: 0 <= k < i ==> !OccursAt(text, sep, k)
    ensures Contains(text, sep) && |SplitOn(text, sep)| > 1
    ensures SplitOn(text, sep)[1] == SplitOn(text[i + |sep|..], sep)[0]
  {
    IndexOfFirst(text, sep, i);
    SplitOnPieces(text, sep, i);
  }

  /** The text from `d` cut at its first "```", which is at `j` (or the end). */
  lemma SecondFenceCut(text: string, d: nat, j: nat)
    requires d <= j <= |text|
    requires j == |text| || OccursAt(text, Fence, j)
    requires forall k :: d <= k < j ==> !OccursAt(text, Fence, k)
    ensures SplitOn(SplitOn(text[d..], Fence)[0], Fence)[0] == text[d..j]
  {
    var x := text[d..];
    OccursInSuffix(text, Fence, d);
    CutAtFirstFence(x, Fence, j - d);
    assert x[..j - d] == text[d..j];
  }

  /** Text without any fence is decoded as it is. */
  lemma UnfencedText(text: string)
    requires forall k :: !OccursAt(text, Fence, k)
    ensures StripFences(text) == text
  {
    if Contains(text, JsonFence) {
      JsonFenceIsFence(text, IndexOf(text, JsonFence).value);
    }
  }

  // ---------------------------------------------------------------- steps

  /** One tool call of the plan: the values under the name key, the arguments key (default `{}`)
      and "order" (`None` when absent, as `dict.get` gives). */
  datatype Step = Step(tool: Json, params: Json, order: Json)

  /** What one array element contributes: `None` when it has no `.get` (is not an object). */
  function StepOf(elem: Json, nameKey: string, argsKey: string): Option<Step> {
    match elem
    case JObj(f) =>
      Some(Step(Get(f, nameKey).GetOr(JNull), Get(f, argsKey).GetOr(JObj([])), Get(f, "order").GetOr(JNull)))
    case _ => None
  }

  /** The loop over the decoded array: keeps the elements whose name is truthy, in order;
      `None` stands for the exception raised by an element that is not an object. */
  function CollectSteps(items: seq<Json>, nameKey: string, argsKey: string): (r: Option<seq<Step>>)
    ensures r.Some? <==> forall k :: 0 <= k < |items| ==> items[k].JObj?
    ensures r.Some? ==> forall k :: 0 <= k < |r.value| ==> Truthy(r.value[k].tool)
    ensures r.Some? ==> |r.value| <= |items|
  {
    if items == [] then Some([])
    else
      var rest := CollectSteps(items[1..], nameKey, argsKey);
      assert forall k :: 1 <= k < |items| ==> items[k] == items[1..][k - 1];
      match StepOf(items[0], nameKey, argsKey)
      case None => None
      case Some(st) =>
        match rest
        case None => None
        case Some(tail) => Some(if Truthy(st.tool) then [st] + tail else tail)
  }

  /** Joins the outcomes of two consecutive stretches of the array. */
  function AppendSteps(a: Option<seq<Step>>, b: Option<seq<Step>>): Option<seq<Step>> {
    if a.Some? && b.Some? then Some(a.value + b.value) else None
  }

  /** The loop keeps input order and never sorts: the steps of `a + b` are those of `a`
      followed by those of `b`. */
  lemma {:induction false} CollectStepsAppend(a: seq<Json>, b: seq<Json>, nameKey: string, argsKey: string)
    ensures CollectSteps(a + b, nameKey, argsKey)
         == AppendSteps(CollectSteps(a, nameKey, argsKey), CollectSteps(b, nameKey, argsKey))
    decreases |a|
  {
    if a == [] {
      assert a + b == b;
      var rb := CollectSteps(b, nameKey, argsKey);
      if rb.Some? {
        assert [] + rb.value == rb.value;
      }
    } else {
      assert (a + b)[0] == a[0];
      assert (a + b)[1..] == a[1..] + b;
      CollectStepsAppend(a[1..], b, nameKey, argsKey);
      var ra := CollectSteps(a[1..], nameKey, argsKey);
      var rb := CollectSteps(b, nameKey, argsKey);
      var st := StepOf(a[0], nameKey, argsKey);
      if st.Some? && ra.Some? && rb.Some? {
        assert [st.value] + ra.value + rb.value == [st.value] + (ra.value + rb.value);
      }
    }
  }

  /** A single element: an object with a truthy name gives one step built from its fields,
      an object with a falsy or missing name gives none, anything else aborts the parse. */
  lemma CollectStepsSingle(elem: Json, nameKey: string, argsKey: string)
    ensures elem.JObj? && Truthy(Get(elem.fields, nameKey).GetOr(JNull)) ==>
      CollectSteps([elem], nameKey, argsKey) == Some([StepOf(elem, nameKey, argsKey).value])
    ensures elem.JObj? && !Truthy(Get(elem.fields, nameKey).GetOr(JNull)) ==>
      CollectSteps([elem], nameKey, argsKey) == Some([])
    ensures !elem.JObj? ==> CollectSteps([elem], nameKey, argsKey) == None
  {
    assert [elem][1..] == [];
    if elem.JObj? {
      var st := StepOf(elem, nameKey, argsKey).value;
      assert [st] + [] == [st];
    }
  }

  /** The shared body of both parsers; `nameKey`/`argsKey` are the keys the prompt asks for. */
  function ParseCalls(text: string, decode: Decoder, nameKey: string, argsKey: string): (r: seq<Step>)
    ensures forall k :: 0 <= k < |r| ==> Truthy(r[k].tool)
    ensures !(decode(StripFences(text)).Some? && decode(StripFences(text)).value.JArr?) ==> r == []
    ensures (decode(StripFences(text)).Some? && decode(StripFences(text)).value.JArr? &&
             exists k :: 0 <= k < |decode(StripFences(text)).value.items| &&
                          !decode(StripFences(text)).value.items[k].JObj?) ==> r == []
  {
    match decode(StripFences(text))
    case Some(JArr(items)) =>
      (match CollectSteps(items, nameKey, argsKey) case None => [] case Some(steps) => steps)
    case _ => []
  }

  /** `parse_tools_to_call` of the chat backend: keys "tool", "params" and "order". */
  function ParseToolsToCall(text: string, decode: Decoder): (r: seq<Step>)
    ensures forall k :: 0 <= k < |r| ==> Truthy(r[k].tool)
    ensures !(decode(StripFences(text)).Some? && decode(StripFences(text)).value.JArr?) ==> r == []
    ensures (decode(StripFences(text)).Some? && decode(StripFences(text)).value.JArr? &&
             exists k :: 0 <= k < |decode(StripFences(text)).value.items| &&
                          !decode(StripFences(text)).value.items[k].JObj?) ==> r == []
  {
    ParseCalls(text, decode, "tool", "params")
  }

  /** Once the text decodes to an array of objects, the plan is exactly the collected steps. */
  lemma ParseArrayOfObjects(text: string, decode: Decoder, items: seq<Json>)
    requires decode(StripFences(text)) == Some(JArr(items))
    requires forall k :: 0 <= k < |items| ==> items[k].JObj?
    ensures ParseToolsToCall(text, decode) == CollectSteps(items, "tool", "params").value
  {
  }

  /** The plan is not sorted by "order": steps numbered 2 then 1 stay in that order. */
  lemma NoSortingByOrder()
    ensures
      var first := JObj([("tool", JStr("read_file")), ("order", JInt(2))]);
      var second := JObj([("tool", JStr("search_file")), ("order", JInt(1))]);
      CollectSteps([first, second], "tool", "params")
        == Some([Step(JStr("read_file"), JObj([]), JInt(2)), Step(JStr("search_file"), JObj([]), JInt(1))])
  {
    var first := JObj([("tool", JStr("read_file")), ("order", JInt(2))]);
    var second := JObj([("tool", JStr("search_file")), ("order", JInt(1))]);
    CollectStepsAppend([first], [second], "tool", "params");
    assert [first] + [second] == [first, second];
    CollectStepsSingle(first, "tool", "params");
    CollectStepsSingle(second, "tool", "params");
    assert Get(first.fields, "params") == None;
    assert Get(first.fields, "order") == Some(JInt(2));
    assert Get(second.fields, "params") == None;
    assert Get(second.fields, "order") == Some(JInt(1));
    assert StepOf(first, "tool", "params") == Some(Step(JStr("read_file"), JObj([]), JInt(2)));
    assert StepOf(second, "tool", "params") == Some(Step(JStr("search_file"), JObj([]), JInt(1)));
    assert Truthy(JStr("read_file")) && Truthy(JStr("search_file"));
    var s1 := Step(JStr("read_file"), JObj([]), JInt(2));
    var s2 := Step(JStr("search_file"), JObj([]), JInt(1));
    assert [s1] + [s2] == [s1, s2];
  }

  // ---------------------------------------------------------------- chat_engine variant

  /** A call of the desktop engine's plan: `{"name": ..., "parameters": ...}`. */
  datatype Call = Call(name: Json, parameters: Json)

  /** `parse_tools_to_call` of app/llm/chat_engine.py: keys "tool_name" and "parameters". */
  function ParseEngineTools(text: string, decode: Decoder): (r: seq<Call>)
    ensures forall k :: 0 <= k < |r| ==> Truthy(r[k].name)
    ensures !(decode(StripFences(text)).Some? && decode(StripFences(text)).value.JArr?) ==> r == []
    ensures |r| == |ParseCalls(text, decode, "tool_name", "parameters")|
    ensures forall k :: 0 <= k < |r| ==>
      r[k] == Call(ParseCalls(text, decode, "tool_name", "parameters")[k].tool,
                   ParseCalls(text, decode, "tool_name", "parameters")[k].params)
  {
    var steps := ParseCalls(text, decode, "tool_name", "parameters");
    seq(|steps|, k requires 0 <= k < |steps| => Call(steps[k].tool, steps[k].params))
  }
}
