/** The server-sent-event frames of the chat backend: the plan announcement
    (`stream_tool_plan_steps`) and the word-by-word replay of a tool's text
    (`fake_text_stream`) in chatbot_backend/app/api/model_provider.py. */
module Stream {
  import opened Text
  import opened JsonValue
  import opened ToolPlan

  /** One SSE frame, given by the `content` string of its JSON payload. */
  datatype Frame = Frame(content: string)

  /** `format_yield_content`: a frame whose content carries three trailing newlines. */
  function Yield(c: string): (f: Frame)
    ensures EndsWith(f.content, "\n\n\n") && c <= f.content && |f.content| == |c| + 3
  {
    Frame(c + "\n\n\n")
  }

  /** The frame on the wire, `data: <json>` and a blank line; `encode` is `json.dumps` of
      the payload `{"content": c}`. */
  function Wire(f: Frame, encode: string -> string): (w: string)
    ensures StartsWith(w, "data: ") && EndsWith(w, "\n\n")
  {
    "data: " + encode(f.content) + "\n\n"
  }

  function Contents(frames: seq<Frame>): (r: seq<string>)
    ensures |r| == |frames| && forall k :: 0 <= k < |frames| ==> r[k] == frames[k].content
  {
    seq(|frames|, k requires 0 <= k < |frames| => frames[k].content)
  }

  // ---------------------------------------------------------------- fake_text_stream

  /** A match of `\s*\S+`: non-empty, and once a non-whitespace character appears no
      whitespace follows, so it ends in non-whitespace. */
  predicate IsToken(t: string) {
    |t| > 0 && !IsSpace(t[|t| - 1])
    && forall i, j :: 0 <= i < j < |t| && !IsSpace(t[i]) ==> !IsSpace(t[j])
  }

  /** `re.findall(r"\s*\S+", s)`, built from the front: a character joins the match that
      follows it, unless it ends a word and the next match starts with whitespace. */
  function Tokens(s: string): (r: seq<string>)
    ensures forall k :: 0 <= k < |r| ==> IsToken(r[k])
    ensures forall k :: 1 <= k < |r| ==> |r[k]| > 0 && IsSpace(r[k][0])
    ensures r != [] ==> |r[0]| > 0 && s != [] && r[0][0] == s[0]
    decreases |s|
  {
    if s == [] then []
    else
      var rest := Tokens(s[1..]);
      var c := s[0];
      if rest != [] && (IsSpace(c) || !IsSpace(rest[0][0])) then
        var first := [c] + rest[0];
        assert forall j :: 1 <= j < |first| ==> first[j] == rest[0][j - 1];
        assert forall k :: 1 <= k < |rest| ==> (rest[1..])[k - 1] == rest[k];
        [first] + rest[1..]
      else if IsSpace(c) then []
      else [[c]] + rest
  }

  /** `rstrip` seen from the front. */
  lemma {:induction false} RStripCons(c: char, b: string)
    ensures RStrip([c] + b) == if RStrip(b) == [] && IsSpace(c) then [] else [c] + RStrip(b)
    decreases |b|
  {
    if b == [] {
      assert [c] + b == [c];
    } else if IsSpace(b[|b| - 1]) {
      var b' := b[..|b| - 1];
      assert ([c] + b)[..|[c] + b| - 1] == [c] + b';
      RStripCons(c, b');
    } else {
      assert RStrip(b) == b;
    }
  }

  lemma ConcatCons(x: string, rest: seq<string>)
    ensures Concat([x] + rest) == x + Concat(rest)
  {
    assert ([x] + rest)[1..] == rest;
  }

  /** The matches put back together give the text without its trailing whitespace. */
  lemma {:induction false} TokensConcat(s: string)
    ensures Concat(Tokens(s)) == RStrip(s)
    decreases |s|
  {
    if s != [] {
      var c, b := s[0], s[1..];
      var rest := Tokens(b);
      TokensConcat(b);
      assert s == [c] + b;
      RStripCons(c, b);
      if rest != [] && (IsSpace(c) || !IsSpace(rest[0][0])) {
        assert rest == [rest[0]] + rest[1..];
        JoinedToken(c, rest[0], rest[1..]);
      } else if !IsSpace(c) {
        ConcatCons([c], rest);
      }
    }
  }

  /** A character prepended to the first match prepends it to the concatenation. */
  lemma JoinedToken(c: char, r0: string, r1: seq<string>)
    ensures Concat([[c] + r0] + r1) == [c] + Concat([r0] + r1)
  {
    ConcatCons([c] + r0, r1);
    ConcatCons(r0, r1);
    assert ([c] + r0) + Concat(r1) == [c] + (r0 + Concat(r1));
  }

  /** Frames of `fake_text_stream(text)`: one per match, then the closing frame. */
  function FakeTextStream(text: string): (r: seq<Frame>)
    ensures |r| == |Tokens(text)| + 1
    ensures Concat(Contents(r[..|r| - 1])) == RStrip(text)
    ensures r[|r| - 1] == Yield("\n\n")
  {
    var toks := Tokens(text);
    var words := seq(|toks|, k requires 0 <= k < |toks| => Frame(toks[k]));
    var r := words + [Yield("\n\n")];
    assert r[..|r| - 1] == words;
    assert Contents(words) == toks;
    TokensConcat(text);
    r
  }

  // ---------------------------------------------------------------- stream_tool_plan_steps

  const Launch: string := "🚀 Executing tools now... Please wait."

  /** The announcement of one step: its order, tool and `key=json.dumps(value)` arguments. */
  function StepLine(step: Step, dumps: Json -> string): string
    requires step.params.JObj?
  {
    var f := step.params.fields;
    "🔧 Step " + Str(step.order) + ": `" + Str(step.tool) + "` → Params: "
      + Join(seq(|f|, k requires 0 <= k < |f| => f[k].0 + "=" + dumps(f[k].1)), ", ")
  }

  /** Frames of `stream_tool_plan_steps` and whether it finished: a step whose arguments are
      not a dict raises at `.items()`, after the frames of the steps before it. */
  function PlanFrames(steps: seq<Step>, dumps: Json -> string): (r: (seq<Frame>, bool))
    ensures r.1 <==> forall k :: 0 <= k < |steps| ==> steps[k].params.JObj?
    ensures r.1 ==> |r.0| == |steps| + 1 && r.0[|steps|] == Yield(Launch)
    ensures !r.1 ==> |r.0| < |steps| && !steps[|r.0|].params.JObj?
    ensures forall k :: 0 <= k < |steps| && k < |r.0| ==>
              steps[k].params.JObj? && r.0[k] == Yield(StepLine(steps[k], dumps))
  {
    if steps == [] then ([Yield(Launch)], true)
    else if !steps[0].params.JObj? then ([], false)
    else
      var rest := PlanFrames(steps[1..], dumps);
      assert forall k :: 1 <= k < |steps| ==> steps[k] == steps[1..][k - 1];
      ([Yield(StepLine(steps[0], dumps))] + rest.0, rest.1)
  }

}
