# Website-building agent: a Dafny model of its core

The program is a terminal agent. It asks a language model to build a small
static website, and the model acts through two tools: `executeCommand`, which
runs shell command lines, and `writeFile`, which writes a file. This project
models the logic of `index.js` in Dafny and proves properties of the model.
The logic has four parts:

- **The command-batch executor**, `command_executor.dfy`. It does the following:
  - splits the `command` argument on `"\n"`;
  - skips lines that are blank once trimmed;
  - skips a `mkdir` line, written in any letter case, when its directory already exists;
  - hands every other line, untrimmed, to the shell;
  - appends each line's `stdout`, or its `stderr` when `stdout` is empty;
  - returns `"Command executed"` when the batch succeeded and nothing was printed;
  - returns only the failing line's error message on the first failure.
- **The sliding-window rate limiter**, `rate_limiter.dfy`. Each round takes a clock reading `now` and a sequence of request timestamps.
  - It drops timestamps from the front while `now - ts[0] > 60000`.
  - It admits the request when fewer than 100 timestamps remain.
  - Otherwise it sleeps `60000 - (now - ts[0])` ms and tries again.
- **The `writeFile` tool's reply**, `file_writer.dfy`: the confirmation naming the path, or an error message.
- **The agent loop**, `agent_loop.dfy`. A state machine holds the phase, the conversation `History`, the timestamp window and the world.
  - A question equal to `exit` in any letter case ends the program.
  - Any other question is appended as a user turn and starts a run.
  - Each round of a run waits for the limiter, sends the request and records its timestamp.
  - A response with function calls dispatches only the first call. A known tool appends one labelled user turn. An unknown name appends nothing.
  - A response without function calls appends one model turn and ends the run.

Supporting modules:

- `js_string.dfy` models the JavaScript string built-ins the code relies on:
  - `trim`, with the ECMA-262 white-space set;
  - `split` on one character, and `join`;
  - `toLowerCase`;
  - `startsWith`.
- `host.dfy` holds the operating system as oracles over an abstract world `W`:
  - whether a path exists;
  - what running a line returns (stdout and stderr, or a failure message) and the world it leaves behind;
  - what a file write does.
- `maybe.dfy` holds `Option`.

Most functions carry no postconditions of their own: their properties are stated and proved in companion lemmas, usually named `…Spec`.

Behaviour of the code that is easy to misread, which the model follows:
- Only one output channel is reported per line (`stdout || stderr`, `index.js:44`). The channels are not concatenated.
- The `try` surrounds the whole loop (`index.js:23-50`). The first failing line therefore ends the batch, and the output collected before it is discarded.
- A function call naming an unknown tool is not an error. It appends nothing, and the loop asks the model again.
- Tool results are stored as ordinary `user` turns.
- After pruning, every retained timestamp is guaranteed to lie inside the window when the sequence is sorted (`PruneSortedIsFresh`). What holds unconditionally is different: every dropped timestamp is stale, and the first retained one is not (`PruneSpec`).

## Model

| member | source | states |
|---|---|---|
| JsString.TrimDecomposes | index.js:28-30 | `trim` keeps one infix of the line: only white space lies before and after it, and a non-empty result neither starts nor ends with white space |
| JsString.TrimSpec | index.js:28 | a line trims to the empty string exactly when every character is white space; otherwise the result has non-white characters at both ends |
| JsString.TrimUnique | index.js:30 | any split of a line into white space, a core with non-white ends, and white space has `trim`'s result as its core |
| JsString.TrimIdempotent | index.js:30-33 | trimming an already trimmed string changes nothing |
| JsString.TrimStartSpec | index.js:28-30 | removing leading white space keeps a suffix; everything removed is white space, and the suffix does not start with white space |
| JsString.TrimEndSpec | index.js:28-30 | removing trailing white space keeps a prefix; everything removed is white space, and the prefix does not end with white space |
| JsString.ToLowerSpec | index.js:32 | lower-casing leaves no `A`-`Z` or Kelvin sign behind and changes no other character |
| JsString.ToLowerIdempotent | index.js:234 | lower-casing an already lower-cased string changes nothing |
| JsString.Split | index.js:24 | splitting yields at least one part, and no part contains the separator |
| JsString.JoinSplit | index.js:24 | joining the parts of a split with the separator gives back the original string |
| JsString.SplitJoin | index.js:24 | splitting a join of separator-free parts gives back exactly those parts |
| CommandExecutor.StripQuotesSpec | index.js:34 | one quote, single or double, is removed at the front and one at the back, independently; a name without enclosing quotes is unchanged; a lone quote becomes empty |
| CommandExecutor.LowerMkdir | index.js:32 | a trimmed line lower-cases to something starting with `mkdir ` exactly when its first six characters spell `mkdir ` in some letter case (the Kelvin sign counting as `k`) |
| CommandExecutor.MkdirTargetSpec | index.js:32-34 | a line names a `mkdir` target exactly when it is a `mkdir ` line; the target is the rest after six characters, trimmed and quote-stripped |
| CommandExecutor.MkdirLineTargets | index.js:32-34 | a plain `mkdir D`, with `D` unquoted and unpadded, is its own trim and targets exactly `D` |
| CommandExecutor.BlankIffAllWhite | index.js:28 | a line is skipped as blank exactly when all its characters are white space |
| CommandExecutor.StepLineSpec | index.js:27-45 | one line: an ended batch and a blank line change nothing; otherwise the line is either skipped or passed to the shell as written; output only grows; a batch ends only on that line's failure |
| CommandExecutor.StepLineSkipsExisting | index.js:32-40 | a `mkdir` line whose directory exists is not run: the notice naming the directory is appended, and the world and executed lines stay the same |
| CommandExecutor.StepLineRunsOther | index.js:43-44 | any other non-blank line is run as written, and the line's stdout, or its stderr when stdout is empty, is appended |
| CommandExecutor.StepLineFails | index.js:43-49 | a non-blank line that is not skipped and whose shell call fails ends the batch with that failure's message and world, the line counted as executed |
| CommandExecutor.RunLinesSpec | index.js:27-45 | over a list of lines, the executed list only grows, by at most one entry per line, and a batch still running has only appended to its output |
| CommandExecutor.RunLinesAborted | index.js:23-50 | once a line has failed, no later line changes anything |
| CommandExecutor.RunLinesAppend | index.js:27 | lines run in order: running `xs + ys` is running `xs` and then `ys` from where `xs` left off |
| CommandExecutor.BlankLinesIgnored | index.js:28 | deleting the blank lines of a batch changes neither its result, nor its world, nor the lines run |
| CommandExecutor.ExecutedInOrder | index.js:27-43 | the lines handed to the shell form a subsequence of the batch's non-blank lines, in their original order and untrimmed |
| CommandExecutor.ExecuteCommand | index.js:22-51 | a successful batch returns a non-empty text: its collected output, or `Command executed` when that is empty; a failed batch returns exactly the error message |
| CommandExecutor.ExecuteCommandLoop | index.js:22-51 | the loop as written, with early return from the `catch`, returns the same text and world as the functional model |
| CommandExecutor.FailureAbortsBatch | index.js:23-50 | when the lines before a line leave the batch running and the shell call for that line fails, the reply is exactly the failure's message and world: nothing after it reaches the shell, and earlier output is discarded |
| CommandExecutor.MkdirTwiceSkipsSecond | index.js:32-44 | a batch issuing the same `mkdir` line twice runs it once; the second copy adds only the skip notice |
| RateLimiter.PruneSpec | index.js:113-118 | pruning keeps a suffix in order; every dropped timestamp is stale, and the first one kept is inside the window |
| RateLimiter.PruneSortedIsFresh | index.js:113-118 | on a sorted window, pruning the front equals keeping exactly the timestamps inside the window |
| RateLimiter.PruneKeepsOrder | index.js:113-118 | pruning a sorted window leaves it sorted |
| RateLimiter.PruneLoop | index.js:113-118 | the `shift` loop computes the pruned window |
| RateLimiter.CheckSpec | index.js:119-122 | a round admits exactly when fewer than 100 timestamps remain; otherwise the wait ends when the oldest remaining timestamp is exactly 60000 ms old; the wait is never negative, and at most 60000 when no timestamp lies in the future |
| RateLimiter.AwaitSpec | index.js:110-125 | the loop admits only at one of its clock readings, and only with fewer than 100 timestamps left |
| RateLimiter.SleepLongerAdmits | index.js:113-123 | with a sound window, waking after more than the computed wait finds the oldest timestamp gone, and the round admits |
| RateLimiter.SleepExactlyWaitsAgain | index.js:113-123 | waking after exactly the computed wait leaves the oldest timestamp on the boundary, and the round sleeps again for 0 ms |
| RateLimiter.AwaitAfterOneSleep | index.js:110-125 | a full window costs exactly one sleep when the next clock reading is past the computed wait |
| RateLimiter.RecordKeepsWindow | index.js:119-120 | when an admission is followed by recording a time no earlier than the clock reading, the window stays sorted, holds at most 100 entries and has none in the future |
| FileWriter.WriteFileSpec | index.js:71-83 | without a path, the reply is `path.resolve`'s type-error message and the world is unchanged; otherwise the reply confirms the write or carries the write's error message |
| FileWriter.ConfirmationNamesPath | index.js:79 | the text after `Wrote file: ` in a confirmation is exactly the path argument |
| AgentLoop.OrDoneSpec | index.js:196-217 | the `Done` fallback for a tool's output is never empty, keeps any non-empty output and turns an empty one into `Done` |
| AgentLoop.RunCommandToolSpec | index.js:196-199 | a call without `command` gets the `TypeError` message for `split` on `undefined`, with the world unchanged; otherwise the reply is `executeCommand` on the argument |
| AgentLoop.RunWriteToolSpec | index.js:209-211 | a call without `filePath` gets `path.resolve`'s `TypeError` message; otherwise `writeFile` receives the path and the `content` argument, absent when the call leaves it out |
| AgentLoop.DispatchSpec | index.js:196-218 | `executeCommand` and `writeFile` each append exactly one user turn, their label followed by the output or `Done`; any other name changes nothing |
| AgentLoop.ToolTurnRecoversOutput | index.js:196-217 | the appended turn is a user turn, and removing the label gives back the tool's output, or `Done` |
| AgentLoop.StepSpec | index.js:128-228 | a round appends at most one turn and never changes earlier turns. A sleeping round changes only the window. An admitted round records one timestamp after the pruned window. It ends the run exactly when the response has no calls, and then its text is the only new turn |
| AgentLoop.OnlyFirstCallDispatched | index.js:192-194 | two responses whose first function calls agree lead to the same state |
| AgentLoop.StepKeepsWindow | index.js:129-190 | with a clock that does not run backwards, every round keeps the window sorted, within 100 entries and free of future entries |
| AgentLoop.RunRoundsSpec | index.js:127-230 | over a run, history is append-only and grows by at most one turn per round; the run ends working or back at the prompt |
| AgentLoop.TextResponseEndsRun | index.js:219-228 | an admitted response without function calls ends the run, with its text as the last turn |
| AgentLoop.ExitSpellings | index.js:234 | a question ends the program exactly when it is `exit` in one of its sixteen letter-case spellings |
| AgentLoop.AskSpec | index.js:232-241 | `exit` ends the program with history, window and world untouched; any other question is appended as a user turn and starts a run |

## Left out

- The Gemini client, the model name, the system instruction and the tool declarations (`index.js:15-17`, `54-69`, `85-103`, `130-189`) are left out. A model response is an input to `AgentLoop.Step`, and the request's contents do not influence it.
- `child_process.exec`, `fs.existsSync` and `path.resolve` are oracles in `Host.Shell`.
  - The working directory is part of the abstract world.
  - Whether a `cd` line affects later lines is up to the oracle. The source starts every line in the same `currentDir`.
- The body of `writeFile` (resolving the path, creating directories, writing the data) is the `Host.Writer` oracle. Only the reply is modelled.
- `Date.now`, `setTimeout` and suspension are not modelled. Clock readings are parameters, and a sleep is the next reading.
- `readline-sync`, `dotenv`, `os.platform` and console logging are I/O plumbing and are left out.
- Function-call arguments are modelled as strings. An argument of another JSON type, such as a number for `command`, is not modelled.
- JsString.ToLower: only `A`-`Z` and U+212A KELVIN SIGN are lowered. This is exact for the two comparisons the program makes, with `mkdir ` and `exit`: no other character lower-cases to an ASCII letter. It does not claim to match full Unicode case mapping.
- Strings are sequences of code points rather than UTF-16 code units. Every index the program computes (`slice(6)`, trimming, splitting on `\n`) involves only Basic Multilingual Plane characters, so the two agree.
- A rejected model request is not modelled. `generateContent` (`index.js:130`) is outside any `try`, so a rejection skips the timestamp push at `index.js:190`, propagates out of `await buildWebsite` (`index.js:241`) and ends the program. `AgentLoop.Step` always records `issuedAt` after an admission, because a response is always an input to it.
- A function call without an `args` object is not modelled. Reading `args.command` or destructuring `args` (`index.js:197`, `index.js:210`) throws outside any `try` and ends the program. `FunctionCall.args` is always a map, so only individual arguments can be missing.
- A `Response` with absent text, where `result.text` would be `undefined`, is not modelled. The text is always a string.
