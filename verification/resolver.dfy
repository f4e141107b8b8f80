/** The per-request result storage of the chat backend: `get_tool_params` substitutes
    `result_<tool>` placeholders and `"[...]"` list literals in a step's arguments, and
    `save_response_to_dict` records a tool's first text result
    (chatbot_backend/app/api/model_provider.py). */
module Resolver {
  import opened Wrappers
  import opened Text
  import opened JsonValue

  /** The `storage` dict of one request: "result_<tool>" to the text that tool returned. */
  type Storage = map<string, string>

  /** `ast.literal_eval` as a partial function: `None` stands for the exception it raises. */
  type Literal = string -> Option<Json>

  const ResultPrefix: string := "result_"

  predicate IsListLiteral(s: string) {
    StartsWith(s, "[") && EndsWith(s, "]")
  }

  predicate IsPlaceholder(s: string) {
    StartsWith(s, ResultPrefix)
  }

  /** The new value of one argument; `None` when `literal_eval` raises, which nothing catches. */
  function ResolveValue(v: Json, storage: Storage, literal: Literal): (r: Option<Json>)
    ensures r.None? <==> v.JStr? && IsListLiteral(v.s) && literal(v.s).None?
    ensures v.JStr? && IsPlaceholder(v.s) ==>
              r == Some(if v.s in storage then JStr(storage[v.s]) else JNull)
    ensures v.JStr? && IsListLiteral(v.s) && r.Some? ==>
              (r.value.JArr? && r.value == literal(v.s).value) || (r.value == v && !literal(v.s).value.JArr?)
    ensures !(v.JStr? && (IsListLiteral(v.s) || IsPlaceholder(v.s))) ==> r == Some(v)
  {
    match v
    case JStr(s) =>
      if IsListLiteral(s) then
        ListLiteralIsNoPlaceholder(s);
        match literal(s)
        case None => None
        case Some(parsed) => Some(if parsed.JArr? then parsed else v)
      else if IsPlaceholder(s) then
        Some(if s in storage then JStr(storage[s]) else JNull)
      else Some(v)
    case _ => Some(v)
  }

  /** A list literal never looks like a placeholder, so the two replacements never meet. */
  lemma ListLiteralIsNoPlaceholder(s: string)
    requires IsListLiteral(s)
    ensures !IsPlaceholder(s)
  {
    assert s[0] == '[';
  }

  /** The loop over `tool_params.items()`: same keys in the same order, each value resolved;
      the first raising value aborts the whole call. */
  function ResolveFields(fields: seq<(string, Json)>, storage: Storage, literal: Literal)
    : (r: Option<seq<(string, Json)>>)
    ensures r.Some? <==> forall k :: 0 <= k < |fields| ==> ResolveValue(fields[k].1, storage, literal).Some?
    ensures r.Some? ==> |r.value| == |fields|
    ensures r.Some? ==> forall k :: 0 <= k < |fields| ==>
              r.value[k] == (fields[k].0, ResolveValue(fields[k].1, storage, literal).value)
  {
    if fields == [] then Some([])
    else
      var rest := ResolveFields(fields[1..], storage, literal);
      assert forall k :: 1 <= k < |fields| ==> fields[k] == fields[1..][k - 1];
      match ResolveValue(fields[0].1, storage, literal)
      case None => None
      case Some(v) =>
        match rest
        case None => None
        case Some(tail) => Some([(fields[0].0, v)] + tail)
  }

  /** `get_tool_params`; `None` when it raises: a literal that does not parse, or arguments
      that are not a dict (no `.items()`). */
  function GetToolParams(params: Json, storage: Storage, literal: Literal): (r: Option<Json>)
    ensures r.Some? ==> params.JObj? && r.value.JObj? && |r.value.fields| == |params.fields|
    ensures r.Some? ==> forall k :: 0 <= k < |params.fields| ==>
              r.value.fields[k].0 == params.fields[k].0
    ensures params.JObj? ==>
              (r.None? <==> exists k :: 0 <= k < |params.fields| && ResolveValue(params.fields[k].1, storage, literal).None?)
  {
    match params
    case JObj(fields) =>
      (match ResolveFields(fields, storage, literal)
       case None => None
       case Some(resolved) => Some(JObj(resolved)))
    case _ => None
  }

  /** Arguments holding neither placeholders nor list literals are passed on unchanged. */
  lemma {:induction false} PlainParamsUnchanged(fields: seq<(string, Json)>, storage: Storage, literal: Literal)
    requires forall k :: 0 <= k < |fields| ==>
               !(fields[k].1.JStr? && (IsListLiteral(fields[k].1.s) || IsPlaceholder(fields[k].1.s)))
    ensures GetToolParams(JObj(fields), storage, literal) == Some(JObj(fields))
  {
    var r := ResolveFields(fields, storage, literal);
    assert r.Some?;
    assert r.value == fields;
  }

  // ---------------------------------------------------------------- save_response_to_dict

  /** One item of a tool result's `content` list: a text item or any other kind. */
  datatype Content = TextItem(text: string) | OtherItem(kind: string)

  /** `save_response_to_dict`: the text to stream (`None` when the function returns `None`)
      and the storage afterwards. */
  function SaveResponse(tool: Json, content: seq<Content>, storage: Storage): (r: (Option<string>, Storage))
    ensures content == [] ==> r == (None, storage)
    ensures content != [] && content[0].OtherItem? ==> r == (None, storage)
    ensures content != [] && content[0].TextItem? ==>
              r.0 == Some(content[0].text) && r.1 == storage[ResultPrefix + Str(tool) := content[0].text]
    ensures r.1.Keys == storage.Keys + (if r.0.Some? then {ResultPrefix + Str(tool)} else {})
    ensures forall key :: key in storage && key != ResultPrefix + Str(tool) ==> r.1[key] == storage[key]
  {
    if content == [] then (None, storage)
    else match content[0]
      case TextItem(text) => (Some(text), storage[ResultPrefix + Str(tool) := text])
      case OtherItem(_) => (None, storage)
  }

  /** A later step's "result_<tool>" argument receives the text the earlier call of that tool
      returned. */
  lemma StoreThenResolve(tool: Json, text: string, rest: seq<Content>, storage: Storage, literal: Literal)
    ensures var stored := SaveResponse(tool, [TextItem(text)] + rest, storage).1;
            ResolveValue(JStr(ResultPrefix + Str(tool)), stored, literal) == Some(JStr(text))
  {
    var key := ResultPrefix + Str(tool);
    assert StartsWith(key, ResultPrefix);
    ListLiteralFree(key);
  }

  lemma ListLiteralFree(key: string)
    requires StartsWith(key, ResultPrefix)
    ensures !IsListLiteral(key)
  {
    assert key[0] == 'r';
  }

  /** A placeholder for a tool that has not run resolves to `None`. */
  lemma MissingPlaceholderIsNone(s: string, storage: Storage, literal: Literal)
    requires IsPlaceholder(s) && s !in storage
    ensures ResolveValue(JStr(s), storage, literal) == Some(JNull)
  {
    ListLiteralFree(s);
  }
}
