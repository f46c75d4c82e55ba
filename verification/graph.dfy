/** The agent built by `build_graph` in graph.py: a two-node
    cycle in which the assistant calls the reasoning model and the tools
    node runs the tool calls the model asked for, until the model answers
    without asking for any. */
module AgentGraph {

  /** The tools bound to the model, in `tool_belt` order. */
  datatype Tool =
    | UpcExtraction
    | Rag
    | TavilySearch
    | UpcValidator
    | CheckDigitCalculator
    | UsdaFoodData

  /** The tool list: the extraction tool comes first, for priority. */
  const ToolBelt: seq<Tool> :=
    [UpcExtraction, Rag, TavilySearch, UpcValidator, CheckDigitCalculator, UsdaFoodData]

  /** Where a tool sits in the belt. */
  function Priority(t: Tool): (p: nat)
    ensures p < |ToolBelt| && ToolBelt[p] == t
    ensures forall q :: 0 <= q < |ToolBelt| && ToolBelt[q] == t ==> q == p
  {
    match t
    case UpcExtraction => 0
    case Rag => 1
    case TavilySearch => 2
    case UpcValidator => 3
    case CheckDigitCalculator => 4
    case UsdaFoodData => 5
  }

  /** Every tool is offered exactly once, and the extraction tool ahead of
      all others. */
  lemma ToolBeltOrder()
    ensures forall t: Tool :: t in ToolBelt
    ensures forall i, j :: 0 <= i < j < |ToolBelt| ==> ToolBelt[i] != ToolBelt[j]
    ensures ToolBelt[0] == UpcExtraction
    ensures forall t: Tool :: Priority(UpcExtraction) <= Priority(t)
  {
    forall t: Tool ensures t in ToolBelt {
      assert ToolBelt[Priority(t)] == t;
    }
  }

  /** A tool call the model asked for: its id, the tool's name and the
      arguments, all as text. */
  datatype ToolCall = ToolCall(id: string, name: string, args: string)

  /** The message kinds a conversation holds. Only the model's messages
      carry tool calls; a tool message names the call it answers. */
  datatype Message =
    | SystemMsg(content: string)
    | HumanMsg(content: string)
    | AiMsg(content: string, toolCalls: seq<ToolCall>)
    | ToolMsg(content: string, toolCallId: string)

  /** What `model.invoke` returns: text and the tool calls it requests. */
  datatype Response = Response(content: string, toolCalls: seq<ToolCall>)

  /** The agent's collaborators: the fixed system prompt, the
      tool-bound reasoning model, and the tool node's per-call dispatch
      (which yields the tool's output, or the text of the error it
      raised, for the matching tool message). */
  datatype Agent = Agent(
    prompt: string,
    model: seq<Message> -> Response,
    dispatch: ToolCall -> string)

  function Last(h: seq<Message>): Message
    requires |h| > 0
  {
    h[|h| - 1]
  }

  /** The `add_messages` reducer of the state. The updates this graph returns
      are always new messages, so it appends them. */
  function AddMessages(h: seq<Message>, update: seq<Message>): (r: seq<Message>)
    ensures |r| == |h| + |update|
    ensures r[..|h|] == h && r[|h|..] == update
  {
    h + update
  }

  /** The message the model answers `h` with: the model sees the system
      prompt in front of the history. */
  function Answer(a: Agent, h: seq<Message>): Message {
    var resp := a.model([SystemMsg(a.prompt)] + h);
    AiMsg(resp.content, resp.toolCalls)
  }

  /** The assistant node. It reads `messages[-1]`, so the
      history cannot be empty, and it stores only the response, not the
      system prompt. */
  function AssistantStep(a: Agent, h: seq<Message>): (r: seq<Message>)
    requires |h| > 0
    ensures |r| == |h| + 1 && r[..|h|] == h
    ensures var resp := a.model([SystemMsg(a.prompt)] + h);
      Last(r) == AiMsg(resp.content, resp.toolCalls)
  {
    AddMessages(h, [Answer(a, h)])
  }

  /** One tool message per requested call, in the order the model gave
      them, each linked to its call's id. */
  function ToolResults(a: Agent, calls: seq<ToolCall>): (r: seq<Message>)
    ensures |r| == |calls|
    ensures forall k :: 0 <= k < |calls| ==>
      r[k] == ToolMsg(a.dispatch(calls[k]), calls[k].id)
  {
    if |calls| == 0 then []
    else [ToolMsg(a.dispatch(calls[0]), calls[0].id)] + ToolResults(a, calls[1..])
  }

  /** The tools node: it runs the calls of the last message,
      which must be one of the model's. */
  function ToolsStep(a: Agent, h: seq<Message>): (r: seq<Message>)
    requires |h| > 0 && Last(h).AiMsg?
    ensures var calls := Last(h).toolCalls;
      && |r| == |h| + |calls| && r[..|h|] == h
      && forall k :: 0 <= k < |calls| ==> r[|h| + k] == ToolMsg(a.dispatch(calls[k]), calls[k].id)
  {
    AddMessages(h, ToolResults(a, Last(h).toolCalls))
  }

  datatype Node = Start | Assistant | Tools | End

  /** The graph's edges: start to the assistant, the assistant to the
      tools or the end, the tools back to the assistant. */
  function Successors(n: Node): set<Node> {
    match n
    case Start => {Assistant}
    case Assistant => {Tools, End}
    case Tools => {Assistant}
    case End => {}
  }

  /** `should_continue`: on to the tools exactly when the
      last message's `tool_calls` list is non-empty. Only the model's
      messages have that attribute. */
  function Route(h: seq<Message>): (n: Node)
    requires |h| > 0 && Last(h).AiMsg?
    ensures n in Successors(Assistant)
    ensures n == Tools <==> |Last(h).toolCalls| > 0
  {
    if |Last(h).toolCalls| > 0 then Tools else End
  }

  /** The node that runs after `n`, once `n` has left history `h`. */
  function Next(n: Node, h: seq<Message>): (r: Node)
    requires n != End
    requires n == Assistant ==> |h| > 0 && Last(h).AiMsg?
    ensures r in Successors(n)
  {
    match n
    case Start => Assistant
    case Assistant => Route(h)
    case Tools => Assistant
  }

  /** The graph is entered at the assistant, the tools always hand back to
      the assistant, and only the assistant's routing reaches the end. */
  lemma EdgesOfGraph()
    ensures Successors(Start) == {Assistant} && Successors(Tools) == {Assistant}
    ensures forall n: Node :: End in Successors(n) <==> n == Assistant
    ensures forall n: Node :: Start !in Successors(n)
  {
  }

  /** How a run stopped: at the end node, or with the fuel used up before
      the node `node` could run. */
  datatype Outcome = Finished(history: seq<Message>) | OutOfFuel(node: Node, history: seq<Message>)

  /** The states `Drive` can be in: the tools node only ever runs right
      after the model spoke. */
  predicate Runnable(n: Node, h: seq<Message>) {
    n != Start && |h| > 0 && (n == Tools ==> Last(h).AiMsg?)
  }

  /** The compiled graph run from node `n` on history `h`. The graph has
      no iteration cap of its own; `fuel`, one unit per node run, is a
      device of this model that lets the run be a function, and running
      out of it is reported as `OutOfFuel` rather than as an answer. */
  function Drive(a: Agent, n: Node, h: seq<Message>, fuel: nat): (r: Outcome)
    requires Runnable(n, h)
    decreases fuel
  {
    if n == End then Finished(h)
    else if fuel == 0 then OutOfFuel(n, h)
    else if n == Assistant then
      var h' := AssistantStep(a, h);
      Drive(a, Next(n, h'), h', fuel - 1)
    else
      Drive(a, Next(n, h), ToolsStep(a, h), fuel - 1)
  }

  /** `react_graph.invoke({"messages": input})`: from the start node,
      which leads straight to the assistant. The returned state holds the
      input messages, unchanged and in front, and whatever the run added
      after them. */
  function Invoke(a: Agent, input: seq<Message>, fuel: nat): (r: Outcome)
    requires |input| > 0
    ensures |input| <= |r.history| && r.history[..|input|] == input
  {
    DriveExtends(a, Next(Start, input), input, fuel);
    Drive(a, Next(Start, input), input, fuel)
  }

  /** The history only grows: every message present when a run starts is
      still there, in the same place, when it stops. */
  lemma {:induction false} DriveExtends(a: Agent, n: Node, h: seq<Message>, fuel: nat)
    requires Runnable(n, h)
    ensures |h| <= |Drive(a, n, h, fuel).history|
    ensures Drive(a, n, h, fuel).history[..|h|] == h
    decreases fuel
  {
    if n == End || fuel == 0 {
    } else if n == Assistant {
      var h' := AssistantStep(a, h);
      DriveExtends(a, Next(n, h'), h', fuel - 1);
      assert h'[..|h|] == h;
      PrefixOfPrefix(Drive(a, n, h, fuel).history, h', |h|);
    } else {
      var h' := ToolsStep(a, h);
      DriveExtends(a, Next(n, h), h', fuel - 1);
      assert h'[..|h|] == h;
      PrefixOfPrefix(Drive(a, n, h, fuel).history, h', |h|);
    }
  }

  lemma PrefixOfPrefix(s: seq<Message>, t: seq<Message>, k: nat)
    requires k <= |t| <= |s| && s[..|t|] == t
    ensures s[..k] == t[..k]
  {
    assert s[..k] == s[..|t|][..k];
  }

  /** The messages one round adds to `h`: the model's answer, then one
      tool result per call it asked for. */
  function Round(a: Agent, h: seq<Message>): (r: seq<Message>)
    ensures |r| == 1 + |Answer(a, h).toolCalls|
  {
    [Answer(a, h)] + ToolResults(a, Answer(a, h).toolCalls)
  }

  /** A finished run's added messages, defined round by round: a round;
      if its answer asked for tools, another round on the longer history;
      if not, nothing more. */
  predicate Rounds(a: Agent, h: seq<Message>, t: seq<Message>)
    decreases |t|
  {
    var r := Round(a, h);
    && |r| <= |t| && t[..|r|] == r
    && if |Answer(a, h).toolCalls| == 0 then |t| == |r|
       else Rounds(a, h + r, t[|r|..])
  }

  /** The assistant and then the tools add exactly one round. */
  lemma AssistantThenTools(a: Agent, h: seq<Message>)
    requires |h| > 0
    ensures ToolsStep(a, AssistantStep(a, h)) == h + Round(a, h)
  {
    var ans := Answer(a, h);
    var rs := ToolResults(a, ans.toolCalls);
    assert (h + [ans]) + rs == h + ([ans] + rs);
  }

  /** Cutting `h'`, an extension of `h + x`, after `h`. */
  lemma SplitAfter(h: seq<Message>, x: seq<Message>, h': seq<Message>, t: seq<Message>)
    requires |h + x| <= |h'| && h'[..|h + x|] == h + x && t == h'[|h|..]
    ensures h'[..|h|] == h && |x| <= |t| && t[..|x|] == x && t[|x|..] == h'[|h + x|..]
  {
    assert h'[..|h|] == (h + x)[..|h|];
    assert t[..|x|] == (h + x)[|h|..];
  }

  /** Gluing a round back onto the history it was cut from. */
  lemma JoinAfter(h: seq<Message>, r: seq<Message>, t: seq<Message>)
    requires |r| <= |t| && t[..|r|] == r
    ensures (h + r) + t[|r|..] == h + t
  {
    assert t == t[..|r|] + t[|r|..];
  }

  /** A run from the assistant that reaches the end has added exactly the
      rounds the model and the tools produce. */
  lemma {:induction false} FinishedRunIsRounds(a: Agent, h: seq<Message>, fuel: nat)
    requires |h| > 0
    requires Drive(a, Assistant, h, fuel).Finished?
    ensures var h' := Drive(a, Assistant, h, fuel).history;
      |h| < |h'| && h'[..|h|] == h && Rounds(a, h, h'[|h|..])
    decreases fuel
  {
    var ans := Answer(a, h);
    var h1 := AssistantStep(a, h);
    assert Drive(a, Assistant, h, fuel) == Drive(a, Route(h1), h1, fuel - 1);
    if |ans.toolCalls| == 0 {
      assert Round(a, h) == [ans];
      assert h1[|h|..] == [ans];
    } else {
      var h2 := ToolsStep(a, h1);
      assert fuel - 1 > 0;
      assert Drive(a, Assistant, h, fuel) == Drive(a, Assistant, h2, fuel - 2);
      FinishedRunIsRounds(a, h2, fuel - 2);
      AssistantThenTools(a, h);
      RoundsStep(a, h, Drive(a, Assistant, h, fuel).history);
    }
  }

  /** One more round in front of the rounds of an extension of
      `h + Round(a, h)`. */
  lemma RoundsStep(a: Agent, h: seq<Message>, h': seq<Message>)
    requires |Answer(a, h).toolCalls| > 0
    requires |h + Round(a, h)| < |h'| && h'[..|h + Round(a, h)|] == h + Round(a, h)
    requires Rounds(a, h + Round(a, h), h'[|h + Round(a, h)|..])
    ensures |h| < |h'| && h'[..|h|] == h && Rounds(a, h, h'[|h|..])
  {
    SplitAfter(h, Round(a, h), h', h'[|h|..]);
  }

  /** Conversely, rounds that end in an answer without tool calls are
      what a run from the assistant produces, given one unit of fuel per
      added message. */
  lemma {:induction false} RoundsFinish(a: Agent, h: seq<Message>, t: seq<Message>)
    requires |h| > 0 && Rounds(a, h, t)
    ensures Drive(a, Assistant, h, |t|) == Finished(h + t)
    decreases |t|
  {
    var ans := Answer(a, h);
    var r := Round(a, h);
    var h1 := AssistantStep(a, h);
    if |ans.toolCalls| == 0 {
      assert t == [ans] by { assert t == t[..|r|]; }
    } else {
      AssistantThenTools(a, h);
      var h2 := h + r;
      assert Drive(a, Assistant, h, |t|) == Drive(a, Assistant, h2, |t| - 2);
      RoundsFinish(a, h2, t[|r|..]);
      FuelMonotone(a, Assistant, h2, |t[|r|..]|, |t| - 2);
      JoinAfter(h, r, t);
    }
  }

  /** More fuel never changes a run that finished: the bound only cuts
      runs short. */
  lemma {:induction false} FuelMonotone(a: Agent, n: Node, h: seq<Message>, fuel: nat, more: nat)
    requires Runnable(n, h) && fuel <= more
    requires Drive(a, n, h, fuel).Finished?
    ensures Drive(a, n, h, more) == Drive(a, n, h, fuel)
    decreases fuel
  {
    if n == End {
    } else if n == Assistant {
      var h' := AssistantStep(a, h);
      FuelMonotone(a, Next(n, h'), h', fuel - 1, more - 1);
    } else {
      FuelMonotone(a, Next(n, h), ToolsStep(a, h), fuel - 1, more - 1);
    }
  }

  /** A run from the assistant finishes with history `h'` for some fuel
      exactly when `h'` is `h` followed by rounds ending in an answer. */
  lemma FinishesIffRounds(a: Agent, h: seq<Message>, h': seq<Message>)
    requires |h| > 0
    ensures (exists fuel: nat :: Drive(a, Assistant, h, fuel) == Finished(h'))
        <==> |h| < |h'| && h'[..|h|] == h && Rounds(a, h, h'[|h|..])
  {
    if exists fuel: nat :: Drive(a, Assistant, h, fuel) == Finished(h') {
      var fuel: nat :| Drive(a, Assistant, h, fuel) == Finished(h');
      FinishedRunIsRounds(a, h, fuel);
    }
    if |h| < |h'| && h'[..|h|] == h && Rounds(a, h, h'[|h|..]) {
      var t := h'[|h|..];
      RoundsFinish(a, h, t);
      assert h + t == h';
    }
  }

  /** What the rounds hold: every model message is the model's answer to
      the system prompt and the history before it; every other message
      is a tool result; the system prompt is never stored; and the last
      message is an answer with no tool calls. */
  lemma RoundsShape(a: Agent, h: seq<Message>, t: seq<Message>)
    requires Rounds(a, h, t)
    ensures forall k :: 0 <= k < |t| && t[k].AiMsg? ==> t[k] == Answer(a, h + t[..k])
    ensures forall k :: 0 <= k < |t| ==> t[k].AiMsg? || t[k].ToolMsg?
    ensures Last(t).AiMsg? && |Last(t).toolCalls| == 0
  {
    RoundsAnswers(a, h, t);
    RoundsKinds(a, h, t);
    RoundsLast(a, h, t);
  }

  /** Inside a round, only the first message is the model's. */
  lemma RoundMembers(a: Agent, h: seq<Message>, t: seq<Message>, k: nat)
    requires |Round(a, h)| <= |t| && t[..|Round(a, h)|] == Round(a, h) && k < |Round(a, h)|
    ensures k == 0 ==> t[k] == Answer(a, h)
    ensures k > 0 ==> t[k].ToolMsg?
  {
    assert t[k] == Round(a, h)[k];
    if k > 0 {
      assert Round(a, h)[k] == ToolResults(a, Answer(a, h).toolCalls)[k - 1];
    }
  }

  lemma {:induction false} RoundsAnswers(a: Agent, h: seq<Message>, t: seq<Message>)
    requires Rounds(a, h, t)
    ensures forall k :: 0 <= k < |t| && t[k].AiMsg? ==> t[k] == Answer(a, h + t[..k])
    decreases |t|
  {
    var r := Round(a, h);
    if |Answer(a, h).toolCalls| > 0 {
      RoundsAnswers(a, h + r, t[|r|..]);
    }
    forall k | 0 <= k < |t| && t[k].AiMsg? ensures t[k] == Answer(a, h + t[..k]) {
      if k < |r| {
        RoundMembers(a, h, t, k);
        assert h + t[..0] == h;
      } else {
        PrefixAfterRound(h, r, t, k);
      }
    }
  }

  lemma PrefixAfterRound(h: seq<Message>, r: seq<Message>, t: seq<Message>, k: nat)
    requires |r| <= k < |t| && t[..|r|] == r
    ensures t[k] == t[|r|..][k - |r|]
    ensures (h + r) + t[|r|..][..k - |r|] == h + t[..k]
  {
    assert t[..k] == t[..|r|] + t[|r|..][..k - |r|];
  }

  lemma {:induction false} RoundsKinds(a: Agent, h: seq<Message>, t: seq<Message>)
    requires Rounds(a, h, t)
    ensures forall k :: 0 <= k < |t| ==> t[k].AiMsg? || t[k].ToolMsg?
    decreases |t|
  {
    var r := Round(a, h);
    if |Answer(a, h).toolCalls| > 0 {
      RoundsKinds(a, h + r, t[|r|..]);
    }
    forall k | 0 <= k < |t| ensures t[k].AiMsg? || t[k].ToolMsg? {
      if k < |r| {
        RoundMembers(a, h, t, k);
      } else {
        assert t[k] == t[|r|..][k - |r|];
      }
    }
  }

  lemma {:induction false} RoundsLast(a: Agent, h: seq<Message>, t: seq<Message>)
    requires Rounds(a, h, t)
    ensures Last(t).AiMsg? && |Last(t).toolCalls| == 0
    decreases |t|
  {
    var r := Round(a, h);
    if |Answer(a, h).toolCalls| > 0 {
      RoundsLast(a, h + r, t[|r|..]);
      assert Last(t) == Last(t[|r|..]);
    } else {
      RoundMembers(a, h, t, 0);
    }
  }

  /** Reading the added part `t` of `h' == h + t` back out of `h'`. */
  lemma LastOfExtension(h: seq<Message>, t: seq<Message>, h': seq<Message>)
    requires |h| <= |h'| && h'[..|h|] == h && t == h'[|h|..] && |t| > 0
    ensures Last(h') == Last(t) && h'[..|h'| - 1] == h + t[..|t| - 1]
    ensures forall k :: |h| <= k < |h'| ==> h'[k] == t[k - |h|]
  {
    assert h' == h + t;
  }

  /** Whenever a run finishes, the last message is the model's answer with
      no tool calls, and no system message was added to the history. */
  lemma FinishedEndsWithAnswer(a: Agent, input: seq<Message>, fuel: nat)
    requires |input| > 0 && Invoke(a, input, fuel).Finished?
    ensures var h' := Invoke(a, input, fuel).history;
      && |h'| > |input| && Last(h').AiMsg? && |Last(h').toolCalls| == 0
      && Last(h') == Answer(a, h'[..|h'| - 1])
      && forall k :: |input| <= k < |h'| ==> !h'[k].SystemMsg?
  {
    FinishedRunIsRounds(a, input, fuel);
    var h' := Invoke(a, input, fuel).history;
    var t := h'[|input|..];
    RoundsShape(a, input, t);
    LastOfExtension(input, t, h');
  }

  /** The fuel runs out only on a model that keeps asking for tools: every
      model message such a run added carries tool calls. */
  lemma {:induction false} OutOfFuelKeepsCallingTools(a: Agent, n: Node, h: seq<Message>, fuel: nat)
    requires Runnable(n, h) && Drive(a, n, h, fuel).OutOfFuel?
    ensures var h' := Drive(a, n, h, fuel).history;
      |h| <= |h'| && forall k :: |h| <= k < |h'| && h'[k].AiMsg? ==> |h'[k].toolCalls| > 0
    decreases fuel
  {
    DriveExtends(a, n, h, fuel);
    var h' := Drive(a, n, h, fuel).history;
    if fuel > 0 && n != End {
      var h1 := if n == Assistant then AssistantStep(a, h) else ToolsStep(a, h);
      var n1 := Next(n, h1);
      if n == Tools {
        n1 := Next(n, h);
      }
      assert Drive(a, n, h, fuel) == Drive(a, n1, h1, fuel - 1);
      OutOfFuelKeepsCallingTools(a, n1, h1, fuel - 1);
      DriveExtends(a, n1, h1, fuel - 1);
      forall k | |h| <= k < |h'| && h'[k].AiMsg? ensures |h'[k].toolCalls| > 0 {
        if k < |h1| {
          AddedMessage(a, n, h, h1, h', k);
        }
      }
    }
  }

  /** A message the first step of an unfinished run added: a tool result,
      or an answer that routed on to the tools. */
  lemma AddedMessage(a: Agent, n: Node, h: seq<Message>, h1: seq<Message>, h': seq<Message>, k: nat)
    requires Runnable(n, h) && n != End
    requires h1 == if n == Assistant then AssistantStep(a, h) else ToolsStep(a, h)
    requires n == Assistant ==> Next(n, h1) != End
    requires |h1| <= |h'| && h'[..|h1|] == h1 && |h| <= k < |h1|
    ensures h'[k].AiMsg? ==> |h'[k].toolCalls| > 0
  {
    assert h'[k] == h1[k];
    if n == Tools {
      assert h1[k] == ToolResults(a, Last(h).toolCalls)[k - |h|];
    } else {
      assert h1[k] == Last(h1);
    }
  }
}
