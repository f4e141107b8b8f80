/** The conversation memory of `AdvancedMemoryAgent` (app/llm/langraph_agent.py): a sliding
    window of past turns, and the prompt messages built from it. The agent itself, its tools
    and the language model are outside the model; a turn's outcome is a parameter. */
module History {
  import opened Wrappers

  /** One completed turn: when it happened, what the user said, what the agent answered. */
  datatype Turn = Turn(timestamp: string, human: string, ai: string)

  /** More than `Limit` turns triggers truncation to the `Keep` most recent. */
  const Limit := 10
  const Keep := 8

  /** `s` is `t` with some prefix dropped. */
  predicate IsSuffix<T(==)>(s: seq<T>, t: seq<T>) {
    |s| <= |t| && s == t[|t| - |s|..]
  }

  /** Appending a successful turn and trimming the history when it grows past ten. */
  function RecordTurn(history: seq<Turn>, turn: Turn): (r: seq<Turn>)
    ensures |r| <= Limit
    ensures IsSuffix(r, history + [turn])
    ensures |r| > 0 && r[|r| - 1] == turn
    ensures |history| < Limit ==> r == history + [turn]
    ensures |history| >= Limit ==> |r| == Keep
  {
    var grown := history + [turn];
    if |grown| > Limit then grown[|grown| - Keep..] else grown
  }

  /** `run_conversation`: a successful answer is recorded and returned; a failure is
      reported as text and leaves the history as it was. `outcome` is what the `try` block
      yields; `create_agent`, which runs before it and raises on failure, is not modelled. */
  function RunConversation(history: seq<Turn>, userInput: string, outcome: Result<string, string>,
                           now: string): (r: (string, seq<Turn>))
    ensures outcome.Failure? ==> r.1 == history && r.0 == "❌ Lỗi xử lý: " + outcome.error
    ensures outcome.Success? ==> r.0 == outcome.value && r.1 == RecordTurn(history, Turn(now, userInput, outcome.value))
  {
    match outcome
    case Failure(e) => ("❌ Lỗi xử lý: " + e, history)
    case Success(answer) => (answer, RecordTurn(history, Turn(now, userInput, answer)))
  }

  /** The history after a series of successful turns. */
  function RecordAll(history: seq<Turn>, turns: seq<Turn>): (r: seq<Turn>)
    ensures turns != [] ==> 0 < |r| <= Limit
    decreases |turns|
  {
    if turns == [] then history else RecordAll(RecordTurn(history, turns[0]), turns[1..])
  }

  lemma SuffixTrans<T>(a: seq<T>, b: seq<T>, c: seq<T>)
    requires IsSuffix(a, b) && IsSuffix(b, c)
    ensures IsSuffix(a, c)
  {
    assert c[|c| - |b|..][|b| - |a|..] == c[|c| - |a|..];
  }

  /** However long the agent runs, the history is what remains of all its turns after
      dropping the oldest: the most recent turns, in order, never more than ten of them, and
      the last turn is always kept. */
  lemma HistoryIsRecentSuffix(history: seq<Turn>, turns: seq<Turn>)
    requires |history| <= Limit
    ensures var r := RecordAll(history, turns);
      |r| <= Limit && IsSuffix(r, history + turns)
      && (turns != [] ==> |r| > 0 && r[|r| - 1] == turns[|turns| - 1])
  {
    RecordAllSuffix(history, turns);
    var r := RecordAll(history, turns);
    if turns != [] {
      var all := history + turns;
      assert r[|r| - 1] == all[|all| - 1];
    }
  }

  lemma {:induction false} RecordAllSuffix(history: seq<Turn>, turns: seq<Turn>)
    requires |history| <= Limit
    ensures var r := RecordAll(history, turns);
      |r| <= Limit && IsSuffix(r, history + turns)
    decreases |turns|
  {
    if turns == [] {
      assert history + turns == history;
    } else {
      var next := RecordTurn(history, turns[0]);
      RecordAllSuffix(next, turns[1..]);
      StepSuffix(history, turns[0], turns[1..], RecordAll(next, turns[1..]));
      assert [turns[0]] + turns[1..] == turns;
    }
  }

  /** One recorded turn keeps the suffix relation with everything that follows it. */
  lemma StepSuffix(history: seq<Turn>, turn: Turn, rest: seq<Turn>, r: seq<Turn>)
    requires IsSuffix(r, RecordTurn(history, turn) + rest)
    ensures IsSuffix(r, history + ([turn] + rest))
  {
    var grown := history + [turn];
    assert grown + rest == history + ([turn] + rest);
    SuffixStep(r, RecordTurn(history, turn), grown, rest);
  }

  /** A suffix of `b + rest`, where `b` is a suffix of `c`, is a suffix of `c + rest`. */
  lemma SuffixStep<T>(r: seq<T>, b: seq<T>, c: seq<T>, rest: seq<T>)
    requires IsSuffix(b, c) && IsSuffix(r, b + rest)
    ensures IsSuffix(r, c + rest)
  {
    SuffixConcat(b, c, rest);
    SuffixTrans(r, b + rest, c + rest);
  }

  lemma SuffixConcat<T>(a: seq<T>, b: seq<T>, c: seq<T>)
    requires IsSuffix(a, b)
    ensures IsSuffix(a + c, b + c)
  {
    assert (b + c)[|b| + |c| - |a| - |c|..] == b[|b| - |a|..] + c;
  }

  /** Once the window is full, every turn keeps it between eight and ten. */
  lemma {:induction false} WindowStaysFull(history: seq<Turn>, turns: seq<Turn>)
    requires Keep <= |history| <= Limit
    ensures Keep <= |RecordAll(history, turns)| <= Limit
    decreases |turns|
  {
    if turns != [] {
      WindowStaysFull(RecordTurn(history, turns[0]), turns[1..]);
    }
  }

  // ---------------------------------------------------------------- prompt messages

  /** A message of the agent's state: the user's, the model's, or a tool result. */
  datatype ChatMessage = Human(content: string) | Ai(content: string) | Tool(content: string)

  /** The last six turns (all of them when there are fewer), as a human message followed by
      the answer for each. */
  function HistoryMessages(history: seq<Turn>): (r: seq<ChatMessage>)
    ensures |r| == 2 * (if |history| < 6 then |history| else 6)
    ensures var n := if |history| < 6 then |history| else 6;
      forall k :: 0 <= k < n ==> r[2 * k] == Human(history[|history| - n + k].human)
                                 && r[2 * k + 1] == Ai(history[|history| - n + k].ai)
  {
    var recent := if |history| <= 6 then history else history[|history| - 6..];
    PairsAlternate(recent);
    assert forall k :: 0 <= k < |recent| ==> recent[k] == history[|history| - |recent| + k];
    Pairs(recent)
  }

  function Pairs(turns: seq<Turn>): (r: seq<ChatMessage>)
    ensures |r| == 2 * |turns|
  {
    if turns == [] then [] else [Human(turns[0].human), Ai(turns[0].ai)] + Pairs(turns[1..])
  }

  /** Message `2k` is the k-th turn's question and message `2k + 1` its answer. */
  lemma {:induction false} PairsAlternate(turns: seq<Turn>)
    ensures var r := Pairs(turns);
      forall k :: 0 <= k < |turns| ==> r[2 * k] == Human(turns[k].human) && r[2 * k + 1] == Ai(turns[k].ai)
  {
    if turns != [] {
      PairsAlternate(turns[1..]);
      var r := Pairs(turns);
      var rest := Pairs(turns[1..]);
      assert r == [Human(turns[0].human), Ai(turns[0].ai)] + rest;
      forall k | 1 <= k < |turns|
        ensures r[2 * k] == Human(turns[k].human) && r[2 * k + 1] == Ai(turns[k].ai)
      {
        assert r[2 * k] == rest[2 * (k - 1)] && r[2 * k + 1] == rest[2 * (k - 1) + 1];
      }
    }
  }

  /** The variables of the prompt: earlier messages and the text to answer. */
  datatype PromptInput = PromptInput(chatHistory: seq<ChatMessage>, input: string)

  /** `modify_state_messages`: the history messages (when there is history) go before the
      state's messages; the last message becomes the input and the rest the chat history. */
  function ModifyState(history: seq<Turn>, messages: seq<ChatMessage>): (r: PromptInput)
    ensures var all := HistoryMessages(history) + messages;
      && (all == [] ==> r == PromptInput([], ""))
      && (all != [] ==> r.chatHistory + [all[|all| - 1]] == all && r.input == all[|all| - 1].content)
  {
    var all := (if history != [] then HistoryMessages(history) else []) + messages;
    if all == [] then PromptInput([], "") else PromptInput(all[..|all| - 1], all[|all| - 1].content)
  }

  /** With a message in the state, the input is the state's newest message and the history
      messages come first, the oldest kept turn's question at the front. */
  lemma InputIsNewestMessage(history: seq<Turn>, messages: seq<ChatMessage>)
    requires messages != []
    ensures ModifyState(history, messages).input == messages[|messages| - 1].content
    ensures var n := if |history| < 6 then |history| else 6;
      var p := ModifyState(history, messages).chatHistory;
      |p| == 2 * n + |messages| - 1
      && (n > 0 ==> p[0] == Human(history[|history| - n].human))
  {
    var all := HistoryMessages(history) + messages;
    assert all[|all| - 1] == messages[|messages| - 1];
    var n := if |history| < 6 then |history| else 6;
    if n > 0 {
      var recent := if |history| <= 6 then history else history[|history| - 6..];
      PairsAlternate(recent);
      assert recent[0] == history[|history| - n];
    }
  }
}
