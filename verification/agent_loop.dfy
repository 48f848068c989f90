/** The agent: the top-level prompt loop and `buildWebsite`, seen as a state
    machine. A question either ends the program or starts a run of rounds;
    each round waits for the rate limiter, sends the history to the model and
    acts on the response it receives, which is an input here. */
module AgentLoop {
  import opened Maybe
  import opened JsString
  import opened Host
  import opened CommandExecutor
  import opened FileWriter
  import opened RateLimiter

  datatype Role = User | Model

  /** One entry of `History`: a role and the text of its single part. */
  datatype Turn = Turn(role: Role, text: string)

  /** A function call the model asks for; only string-valued arguments are modelled. */
  datatype FunctionCall = FunctionCall(name: string, args: map<string, string>)

  /** A model response: its function calls (an absent list is empty) and its text. */
  datatype Response = Response(functionCalls: seq<FunctionCall>, text: string)

  /** `Idle`: waiting at the prompt; `Working`: inside `buildWebsite`;
      `Exited`: the prompt loop has ended. */
  datatype Phase = Idle | Working | Exited

  /** The program's state: the phase, `History`, `requestTimestamps` and the
      world the tools act on. */
  datatype Agent<W> = Agent(phase: Phase, history: seq<Turn>, timestamps: seq<int>, world: W)

  const ExecuteCommandTool := "executeCommand"
  const WriteFileTool := "writeFile"
  const CommandOutputLabel := "Command output:\n"
  const WriteOutputLabel := "Write output:\n"
  const Done := "Done"
  const ExitWord := "exit"

  /** The message of the `TypeError` raised inside `executeCommand`'s `try`
      when the call carries no `command` argument and `split` is applied to
      `undefined`. */
  const CommandMissing := "Cannot read properties of undefined (reading 'split')"

  /** `output || "Done"` for a string output. */
  function OrDone(output: string): string {
    if output == "" then Done else output
  }

  lemma OrDoneSpec(output: string)
    ensures OrDone(output) != ""
    ensures output != "" ==> OrDone(output) == output
    ensures output == "" ==> OrDone(output) == Done
  {
  }

  /** The tool named `executeCommand`, given the call's `command` argument. */
  function RunCommandTool<W>(sh: Shell<W>, w: W, args: map<string, string>): Reply<W> {
    match Lookup(args, "command")
    case None => Reply(CommandMissing, w)
    case Some(command) => ExecuteCommand(sh, w, command)
  }

  /** The tool named `writeFile`, given the call's `filePath` and `content` arguments. */
  function RunWriteTool<W>(wr: Writer<W>, w: W, args: map<string, string>): Reply<W> {
    WriteFile(wr, w, Lookup(args, "filePath"), Lookup(args, "content"))
  }

  /** Without a `command` argument the tool answers with the `TypeError`
      message and leaves the world alone; with one it is `executeCommand`. */
  lemma RunCommandToolSpec<W>(sh: Shell<W>, w: W, args: map<string, string>)
    ensures "command" !in args ==> RunCommandTool(sh, w, args) == Reply(CommandMissing, w)
    ensures "command" in args ==> RunCommandTool(sh, w, args) == ExecuteCommand(sh, w, args["command"])
  {
  }

  /** `writeFile` receives the call's `filePath` and `content` arguments,
      each absent exactly when the call leaves it out. */
  lemma RunWriteToolSpec<W>(wr: Writer<W>, w: W, args: map<string, string>)
    ensures "filePath" !in args ==> RunWriteTool(wr, w, args) == Reply(PathMissing, w)
    ensures "filePath" in args ==>
      var content := if "content" in args then Some(args["content"]) else None;
      RunWriteTool(wr, w, args) == WriteFile(wr, w, Some(args["filePath"]), content)
  {
  }

  /** Acting on one function call: a known tool runs and its output, labelled,
      goes back to the model as one user turn; any other name does nothing. */
  function Dispatch<W>(sh: Shell<W>, wr: Writer<W>, a: Agent<W>, call: FunctionCall): Agent<W> {
    if call.name == ExecuteCommandTool then
      var reply := RunCommandTool(sh, a.world, call.args);
      a.(history := a.history + [Turn(User, CommandOutputLabel + OrDone(reply.text))], world := reply.world)
    else if call.name == WriteFileTool then
      var reply := RunWriteTool(wr, a.world, call.args);
      a.(history := a.history + [Turn(User, WriteOutputLabel + OrDone(reply.text))], world := reply.world)
    else
      a
  }

  /** A known tool appends exactly one user turn made of its label and its
      non-empty output, and touches nothing but the history and the world;
      an unknown name changes nothing at all. */
  lemma DispatchSpec<W>(sh: Shell<W>, wr: Writer<W>, a: Agent<W>, call: FunctionCall)
    ensures var b := Dispatch(sh, wr, a, call);
      && b.phase == a.phase && b.timestamps == a.timestamps
      && (call.name == ExecuteCommandTool ==>
            var reply := RunCommandTool(sh, a.world, call.args);
            b.history == a.history + [Turn(User, CommandOutputLabel + OrDone(reply.text))]
            && b.world == reply.world)
      && (call.name == WriteFileTool ==>
            var reply := RunWriteTool(wr, a.world, call.args);
            b.history == a.history + [Turn(User, WriteOutputLabel + OrDone(reply.text))]
            && b.world == reply.world)
      && (call.name != ExecuteCommandTool && call.name != WriteFileTool ==> b == a)
  {
  }

  /** The turn a tool appends gives its output back: the text after the
      label is the tool's output, or `Done` when that output was empty. */
  lemma ToolTurnRecoversOutput<W>(sh: Shell<W>, wr: Writer<W>, a: Agent<W>, call: FunctionCall)
    requires call.name == ExecuteCommandTool || call.name == WriteFileTool
    ensures var b := Dispatch(sh, wr, a, call);
      var tag := if call.name == ExecuteCommandTool then CommandOutputLabel else WriteOutputLabel;
      var output := if call.name == ExecuteCommandTool then RunCommandTool(sh, a.world, call.args).text
                    else RunWriteTool(wr, a.world, call.args).text;
      && |b.history| == |a.history| + 1
      && b.history[|a.history|].role == User
      && |tag| < |b.history[|a.history|].text|
      && b.history[|a.history|].text[..|tag|] == tag
      && b.history[|a.history|].text[|tag|..] == OrDone(output)
  {
    var tag := if call.name == ExecuteCommandTool then CommandOutputLabel else WriteOutputLabel;
    var output := if call.name == ExecuteCommandTool then RunCommandTool(sh, a.world, call.args).text
                  else RunWriteTool(wr, a.world, call.args).text;
    var text := tag + OrDone(output);
    OrDoneSpec(output);
    assert text[..|tag|] == tag;
    assert text[|tag|..] == OrDone(output);
  }

  /** One round of `buildWebsite`'s loop. `now` is the clock reading of the
      rate limiter's round; when it sleeps, only the pruned window changes.
      Otherwise the request goes out, `issuedAt` is recorded, and the
      response `resp` is acted on: its first function call is dispatched, or,
      without calls, its text becomes a model turn and the run ends. */
  function Step<W>(sh: Shell<W>, wr: Writer<W>, a: Agent<W>, now: int, issuedAt: int, resp: Response): Agent<W>
    requires a.phase == Working
  {
    match Check(now, a.timestamps)
    case Sleep(_, kept) => a.(timestamps := kept)
    case Admit(kept) =>
      var sent := a.(timestamps := kept + [issuedAt]);
      if |resp.functionCalls| > 0 then
        Dispatch(sh, wr, sent, resp.functionCalls[0])
      else
        sent.(phase := Idle, history := a.history + [Turn(Model, resp.text)])
  }

  /** A round never rewrites history: it appends at most one turn. A sleeping
      round changes only the window; an admitted one records exactly one
      timestamp after the pruned window, and ends the run exactly when the
      response has no function calls, with its text as the one new turn. */
  lemma StepSpec<W>(sh: Shell<W>, wr: Writer<W>, a: Agent<W>, now: int, issuedAt: int, resp: Response)
    requires a.phase == Working
    ensures var b := Step(sh, wr, a, now, issuedAt, resp);
      && |a.history| <= |b.history| <= |a.history| + 1
      && b.history[..|a.history|] == a.history
      && (Check(now, a.timestamps).Sleep? ==> b == a.(timestamps := Prune(now, a.timestamps)))
      && (Check(now, a.timestamps).Admit? ==>
            && b.timestamps == Prune(now, a.timestamps) + [issuedAt]
            && (b.phase == Idle <==> resp.functionCalls == [])
            && (b.phase != Idle ==> b.phase == Working)
            && (resp.functionCalls == [] ==> b.history == a.history + [Turn(Model, resp.text)]))
  {
    CheckSpec(now, a.timestamps);
    var b := Step(sh, wr, a, now, issuedAt, resp);
    match Check(now, a.timestamps)
    case Sleep(_, _) =>
    case Admit(kept) =>
      var sent := a.(timestamps := kept + [issuedAt]);
      if |resp.functionCalls| > 0 {
        DispatchSpec(sh, wr, sent, resp.functionCalls[0]);
      }
      assert b.history[..|a.history|] == a.history;
  }

  /** Only the first function call of a response matters: two responses that
      agree on it lead to the same state. */
  lemma OnlyFirstCallDispatched<W>(sh: Shell<W>, wr: Writer<W>, a: Agent<W>, now: int, issuedAt: int,
                                   r1: Response, r2: Response)
    requires a.phase == Working
    requires |r1.functionCalls| > 0 && |r2.functionCalls| > 0
    requires r1.functionCalls[0] == r2.functionCalls[0]
    ensures Step(sh, wr, a, now, issuedAt, r1) == Step(sh, wr, a, now, issuedAt, r2)
  {
  }

  /** A round keeps the rate limiter's window sound, given a clock that does
      not run backwards: sorted, within the limit, nothing in the future. */
  lemma StepKeepsWindow<W>(sh: Shell<W>, wr: Writer<W>, a: Agent<W>, now: int, issuedAt: int, resp: Response)
    requires a.phase == Working
    requires WindowOk(a.timestamps, now)
    requires now <= issuedAt
    ensures WindowOk(Step(sh, wr, a, now, issuedAt, resp).timestamps, issuedAt)
  {
    CheckSpec(now, a.timestamps);
    var b := Step(sh, wr, a, now, issuedAt, resp);
    match Check(now, a.timestamps)
    case Sleep(_, kept) =>
      PruneSpec(now, a.timestamps);
      PruneKeepsOrder(now, a.timestamps);
      var d := |a.timestamps| - |kept|;
      forall k | 0 <= k < |kept| ensures kept[k] <= issuedAt {
        assert kept[k] == a.timestamps[d + k];
      }
    case Admit(kept) =>
      RecordKeepsWindow(now, issuedAt, a.timestamps);
      if |resp.functionCalls| > 0 {
        DispatchSpec(sh, wr, a.(timestamps := kept + [issuedAt]), resp.functionCalls[0]);
      }
  }

  /** The inputs of one round: the limiter's clock reading, the time the
      request was recorded, and the model's response. */
  datatype Round = Round(now: int, issuedAt: int, resp: Response)

  /** `buildWebsite` over a list of rounds; rounds after the run has ended
      never happen. */
  function RunRounds<W>(sh: Shell<W>, wr: Writer<W>, a: Agent<W>, rounds: seq<Round>): Agent<W>
    decreases |rounds|
  {
    if |rounds| == 0 || a.phase != Working then a
    else RunRounds(sh, wr, Step(sh, wr, a, rounds[0].now, rounds[0].issuedAt, rounds[0].resp), rounds[1..])
  }

  /** Over a whole run the history only grows, by at most one turn per
      round, and the run ends either still working or back at the prompt. */
  lemma {:induction false} RunRoundsSpec<W>(sh: Shell<W>, wr: Writer<W>, a: Agent<W>, rounds: seq<Round>)
    requires a.phase == Working
    ensures var b := RunRounds(sh, wr, a, rounds);
      && |a.history| <= |b.history| <= |a.history| + |rounds|
      && b.history[..|a.history|] == a.history
      && (b.phase == Working || b.phase == Idle)
    decreases |rounds|
  {
    if |rounds| > 0 {
      var r := rounds[0];
      var a' := Step(sh, wr, a, r.now, r.issuedAt, r.resp);
      StepSpec(sh, wr, a, r.now, r.issuedAt, r.resp);
      var b := RunRounds(sh, wr, a', rounds[1..]);
      if a'.phase == Working {
        RunRoundsSpec(sh, wr, a', rounds[1..]);
        assert b.history[..|a.history|] == b.history[..|a'.history|][..|a.history|];
      }
    }
  }

  /** A response without function calls, once admitted, ends the run with its
      text as the last turn. */
  lemma TextResponseEndsRun<W>(sh: Shell<W>, wr: Writer<W>, a: Agent<W>, r: Round, rest: seq<Round>)
    requires a.phase == Working
    requires Check(r.now, a.timestamps).Admit?
    requires r.resp.functionCalls == []
    ensures var b := RunRounds(sh, wr, a, [r] + rest);
      && b.phase == Idle
      && b.history == a.history + [Turn(Model, r.resp.text)]
  {
    StepSpec(sh, wr, a, r.now, r.issuedAt, r.resp);
    assert ([r] + rest)[1..] == rest;
  }

  /** `question.toLowerCase() === "exit"`. */
  predicate IsExit(question: string) {
    ToLower(question) == ExitWord
  }

  /** Exactly the sixteen spellings of `exit` in any letter case end the program. */
  lemma ExitSpellings(question: string)
    ensures IsExit(question) <==>
      && |question| == 4
      && (question[0] == 'e' || question[0] == 'E')
      && (question[1] == 'x' || question[1] == 'X')
      && (question[2] == 'i' || question[2] == 'I')
      && (question[3] == 't' || question[3] == 'T')
  {
    var lower := ToLower(question);
    assert ExitWord == ['e', 'x', 'i', 't'];
    if |question| == 4 {
      assert lower == [lower[0], lower[1], lower[2], lower[3]];
    }
  }

  /** One turn of the prompt loop: `exit` in any case ends the program with
      the history untouched; anything else becomes a user turn and starts a run. */
  function Ask<W>(a: Agent<W>, question: string): Agent<W>
    requires a.phase == Idle
  {
    if IsExit(question) then a.(phase := Exited)
    else a.(phase := Working, history := a.history + [Turn(User, question)])
  }

  lemma AskSpec<W>(a: Agent<W>, question: string)
    requires a.phase == Idle
    ensures var b := Ask(a, question);
      && b.timestamps == a.timestamps && b.world == a.world
      && (b.phase == Exited <==> IsExit(question))
      && (b.phase == Exited ==> b.history == a.history)
      && (b.phase != Exited ==> b.phase == Working && b.history == a.history + [Turn(User, question)])
  {
  }
}
