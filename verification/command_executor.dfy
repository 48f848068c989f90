/** The `executeCommand` tool: a newline-separated batch of shell command lines
    run one after another, with `mkdir` of an existing directory skipped, the
    output of every line collected, and the first failure ending the batch. */
module CommandExecutor {
  import opened Maybe
  import opened JsString
  import opened Host

  /** What a successful batch returns when no line printed anything. */
  const NothingPrinted := "Command executed"

  predicate IsQuote(c: char) {
    c == '"' || c == '\''
  }

  /** `dirArg.replace(/^["']|["']$/g, "")`: one quote (either kind) comes off
      the front and one off the back; quotes inside the name stay. */
  function StripQuotes(a: string): string {
    var b := if |a| > 0 && IsQuote(a[0]) then a[1..] else a;
    if |b| > 0 && IsQuote(b[|b| - 1]) then b[..|b| - 1] else b
  }

  lemma StripQuotesSpec(a: string)
    ensures |a| >= 2 && IsQuote(a[0]) && IsQuote(a[|a| - 1]) ==> StripQuotes(a) == a[1..|a| - 1]
    ensures |a| >= 1 && IsQuote(a[0]) && !IsQuote(a[|a| - 1]) ==> StripQuotes(a) == a[1..]
    ensures |a| >= 1 && !IsQuote(a[0]) && IsQuote(a[|a| - 1]) ==> StripQuotes(a) == a[..|a| - 1]
    ensures a == [] || (!IsQuote(a[0]) && !IsQuote(a[|a| - 1])) ==> StripQuotes(a) == a
    ensures |a| == 1 && IsQuote(a[0]) ==> StripQuotes(a) == []
  {
  }

  /** The prefix, compared after lower-casing, that marks a `mkdir` line. */
  const MkdirWord := "mkdir "

  predicate IsMkdirLine(trimmed: string) {
    && |trimmed| >= 6
    && (trimmed[0] == 'm' || trimmed[0] == 'M')
    && (trimmed[1] == 'k' || trimmed[1] == 'K' || trimmed[1] == '\U{212A}')
    && (trimmed[2] == 'd' || trimmed[2] == 'D')
    && (trimmed[3] == 'i' || trimmed[3] == 'I')
    && (trimmed[4] == 'r' || trimmed[4] == 'R')
    && trimmed[5] == ' '
  }

  lemma LowerMkdir(t: string)
    ensures StartsWith(ToLower(t), MkdirWord) <==> IsMkdirLine(t)
  {
    var lower := ToLower(t);
    if |t| >= 6 {
      assert lower[..6] == [lower[0], lower[1], lower[2], lower[3], lower[4], lower[5]];
      assert MkdirWord == ['m', 'k', 'd', 'i', 'r', ' '];
    }
  }

  /** The directory a trimmed line asks `mkdir` to create, when the line
      starts with `mkdir ` in any letter case. */
  function MkdirTarget(trimmed: string): Option<string> {
    if StartsWith(ToLower(trimmed), MkdirWord) then
      Some(StripQuotes(Trim(trimmed[|MkdirWord|..])))
    else
      None
  }

  /** A trimmed line names a `mkdir` target exactly when it starts with one of
      the spellings of `mkdir ` that lower-case to it; the target is the rest
      of the line, trimmed and with one enclosing quote removed at each end. */
  lemma MkdirTargetSpec(trimmed: string)
    ensures MkdirTarget(trimmed).Some? <==> IsMkdirLine(trimmed)
    ensures MkdirTarget(trimmed).Some? ==> MkdirTarget(trimmed).value == StripQuotes(Trim(trimmed[6..]))
  {
    LowerMkdir(trimmed);
  }

  /** The text around the directory name in the notice for a skipped `mkdir`. */
  const SkipOpen := "Skipped: directory already exists ("
  const SkipClose := ")\n"

  function SkipNotice(dirName: string): string {
    SkipOpen + dirName + SkipClose
  }

  /** `!cmd.trim()`: the line is empty once trimmed, and is skipped. */
  predicate IsBlank(line: string) {
    Trim(line) == ""
  }

  /** A line is blank exactly when every one of its characters is white space. */
  lemma BlankIffAllWhite(line: string)
    ensures IsBlank(line) <==> AllWhite(line)
  {
    TrimSpec(line);
  }

  /** A batch in progress: still running with the output collected so far,
      or ended by a failing line. `executed` lists, in order, the raw lines
      handed to the shell. */
  datatype Batch<W> =
    | Running(output: string, world: W, executed: seq<string>)
    | Aborted(message: string, world: W, executed: seq<string>)

  /** One iteration of the batch loop on one raw line (see `StepLineSpec`). */
  function StepLine<W>(sh: Shell<W>, b: Batch<W>, line: string): Batch<W> {
    match b
    case Aborted(_, _, _) => b
    case Running(out, w, ran) =>
      var trimmed := Trim(line);
      if trimmed == "" then b
      else
        var target := MkdirTarget(trimmed);
        if target.Some? && sh.pathExists(w, target.value) then
          Running(out + SkipNotice(target.value), w, ran)
        else
          var (outcome, w') := sh.exec(w, line);
          match outcome
          case Completed(stdout, stderr) =>
            Running(out + (if stdout != "" then stdout else stderr), w', ran + [line])
          case Failed(message) =>
            Aborted(message, w', ran + [line])
  }

  /** A line leaves an ended batch and a blank line alone; otherwise it is
      either skipped or handed to the shell as written, output only grows, and
      a batch ends only on the shell's failure for that very line. */
  lemma StepLineSpec<W>(sh: Shell<W>, b: Batch<W>, line: string)
    ensures var r := StepLine(sh, b, line);
      && (b.Aborted? || IsBlank(line) ==> r == b)
      && (r.executed == b.executed || (r.executed == b.executed + [line] && !IsBlank(line)))
      && (r.Running? ==> b.Running? && StartsWith(r.output, b.output))
      && (r.Aborted? && b.Running? ==>
            r.executed == b.executed + [line] && sh.exec(b.world, line).0 == Failed(r.message))
  {
  }

  /** The batch loop over a list of raw lines. */
  function RunLines<W>(sh: Shell<W>, b: Batch<W>, lines: seq<string>): Batch<W>
    decreases |lines|
  {
    if |lines| == 0 then b else RunLines(sh, StepLine(sh, b, lines[0]), lines[1..])
  }

  /** An ended batch stays ended, whatever lines follow. */
  lemma {:induction false} RunLinesAborted<W>(sh: Shell<W>, b: Batch<W>, lines: seq<string>)
    requires b.Aborted?
    ensures RunLines(sh, b, lines) == b
    decreases |lines|
  {
    if |lines| > 0 {
      RunLinesAborted(sh, b, lines[1..]);
    }
  }

  /** Running lines only appends to the executed list, at most one entry per
      line, and a batch that is still running has only appended to its output. */
  lemma {:induction false} RunLinesSpec<W>(sh: Shell<W>, b: Batch<W>, lines: seq<string>)
    ensures var r := RunLines(sh, b, lines);
      && |b.executed| <= |r.executed| <= |b.executed| + |lines|
      && r.executed[..|b.executed|] == b.executed
      && (r.Running? ==> b.Running? && StartsWith(r.output, b.output))
    decreases |lines|
  {
    if |lines| > 0 {
      var b' := StepLine(sh, b, lines[0]);
      var r := RunLines(sh, b', lines[1..]);
      StepLineSpec(sh, b, lines[0]);
      RunLinesSpec(sh, b', lines[1..]);
      assert r.executed[..|b.executed|] == r.executed[..|b'.executed|][..|b.executed|];
      assert r.Running? ==> r.output[..|b.output|] == r.output[..|b'.output|][..|b.output|];
    }
  }

  /** The batch state after running every line of `command` from world `w`. */
  function RunBatch<W>(sh: Shell<W>, w: W, command: string): Batch<W> {
    RunLines(sh, Running("", w, []), Split(command, '\n'))
  }

  /** `executeCommand(command)`: the collected output (or the fallback text)
      when every line succeeded, and exactly the failing line's error message
      otherwise. */
  function ExecuteCommand<W>(sh: Shell<W>, w: W, command: string): (r: Reply<W>)
    ensures r.world == RunBatch(sh, w, command).world
    ensures RunBatch(sh, w, command).Running? ==>
      && r.text != ""
      && StartsWith(r.text, RunBatch(sh, w, command).output)
      && (RunBatch(sh, w, command).output != "" ==> r.text == RunBatch(sh, w, command).output)
      && (RunBatch(sh, w, command).output == "" ==> r.text == NothingPrinted)
    ensures RunBatch(sh, w, command).Aborted? ==> r.text == RunBatch(sh, w, command).message
  {
    match RunBatch(sh, w, command)
    case Running(out, w', _) => Reply(if out == "" then NothingPrinted else out, w')
    case Aborted(message, w', _) => Reply(message, w')
  }

  /** The loop of `executeCommand` as written, with the `try` around it
      turned into an early return of the error message. */
  method ExecuteCommandLoop<W>(sh: Shell<W>, w: W, command: string) returns (text: string, world: W)
    ensures Reply(text, world) == ExecuteCommand(sh, w, command)
  {
    var commands := Split(command, '\n');
    var finalOutput := "";
    ghost var executed: seq<string> := [];
    ghost var start := Running("", w, []);
    world := w;
    var i := 0;
    while i < |commands|
      invariant 0 <= i <= |commands|
      invariant RunLines(sh, start, commands[..i]) == Running(finalOutput, world, executed)
    {
      var cmd := commands[i];
      ghost var before := Running(finalOutput, world, executed);
      ghost var after := StepLine(sh, before, cmd);
      RunLinesOneMore(sh, start, commands, i);
      i := i + 1;
      var trimmed := Trim(cmd);
      if trimmed == "" {
        assert after == before;
        continue;
      }
      var target := MkdirTarget(trimmed);
      if target.Some? && sh.pathExists(world, target.value) {
        finalOutput := finalOutput + SkipNotice(target.value);
        assert after == Running(finalOutput, world, executed);
        continue;
      }
      var (outcome, w') := sh.exec(world, cmd);
      executed := executed + [cmd];
      world := w';
      match outcome {
        case Completed(stdout, stderr) =>
          finalOutput := finalOutput + if stdout != "" then stdout else stderr;
          assert after == Running(finalOutput, world, executed);
        case Failed(message) =>
          assert after == Aborted(message, w', executed);
          AbortedStaysAborted(sh, start, commands, i);
          ReplyOfBatch(sh, w, command, Aborted(message, w', executed));
          text := message;
          return;
      }
    }
    assert commands[..i] == commands;
    ReplyOfBatch(sh, w, command, Running(finalOutput, world, executed));
    text := if finalOutput == "" then NothingPrinted else finalOutput;
  }

  lemma ReplyOfBatch<W>(sh: Shell<W>, w: W, command: string, b: Batch<W>)
    requires RunBatch(sh, w, command) == b
    ensures b.Running? ==>
      ExecuteCommand(sh, w, command) == Reply(if b.output == "" then NothingPrinted else b.output, b.world)
    ensures b.Aborted? ==> ExecuteCommand(sh, w, command) == Reply(b.message, b.world)
  {
  }

  lemma RunLinesSingle<W>(sh: Shell<W>, b: Batch<W>, x: string)
    ensures RunLines(sh, b, [x]) == StepLine(sh, b, x)
  {
    assert [x][1..] == [];
  }

  lemma RunLinesOneMore<W>(sh: Shell<W>, b: Batch<W>, lines: seq<string>, i: int)
    requires 0 <= i < |lines|
    ensures RunLines(sh, b, lines[..i + 1]) == StepLine(sh, RunLines(sh, b, lines[..i]), lines[i])
  {
    var xs, x := lines[..i], lines[i];
    assert lines[..i + 1] == xs + [x];
    RunLinesAppend(sh, b, xs, [x]);
    RunLinesSingle(sh, RunLines(sh, b, xs), x);
  }

  lemma AbortedStaysAborted<W>(sh: Shell<W>, b: Batch<W>, lines: seq<string>, i: int)
    requires 0 <= i <= |lines|
    requires RunLines(sh, b, lines[..i]).Aborted?
    ensures RunLines(sh, b, lines) == RunLines(sh, b, lines[..i])
  {
    var xs, ys := lines[..i], lines[i..];
    assert xs + ys == lines;
    RunLinesAppend(sh, b, xs, ys);
    RunLinesAborted(sh, RunLines(sh, b, xs), ys);
  }

  /** Lines are processed in their original order: a batch split in two runs
      as its first part followed by its second. */
  lemma {:induction false} RunLinesAppend<W>(sh: Shell<W>, b: Batch<W>, xs: seq<string>, ys: seq<string>)
    ensures RunLines(sh, b, xs + ys) == RunLines(sh, RunLines(sh, b, xs), ys)
    decreases |xs|
  {
    if |xs| > 0 {
      assert (xs + ys)[0] == xs[0];
      assert (xs + ys)[1..] == xs[1..] + ys;
      RunLinesAppend(sh, StepLine(sh, b, xs[0]), xs[1..], ys);
    } else {
      assert xs + ys == ys;
    }
  }

  /** The lines of a batch that are not blank once trimmed. */
  function NonBlank(lines: seq<string>): (r: seq<string>)
    ensures |r| <= |lines|
    ensures forall k :: 0 <= k < |r| ==> !IsBlank(r[k])
  {
    if |lines| == 0 then []
    else if IsBlank(lines[0]) then NonBlank(lines[1..])
    else [lines[0]] + NonBlank(lines[1..])
  }

  /** Blank lines contribute nothing: dropping them leaves the batch's
      outcome, output, world and executed lines unchanged. */
  lemma {:induction false} BlankLinesIgnored<W>(sh: Shell<W>, b: Batch<W>, lines: seq<string>)
    ensures RunLines(sh, b, lines) == RunLines(sh, b, NonBlank(lines))
    decreases |lines|
  {
    if |lines| > 0 {
      BlankLinesIgnored(sh, StepLine(sh, b, lines[0]), lines[1..]);
      if IsBlank(lines[0]) {
        BlankLinesIgnored(sh, b, lines[1..]);
      } else {
        var nb := NonBlank(lines);
        assert nb[0] == lines[0] && nb[1..] == NonBlank(lines[1..]);
      }
    }
  }

  /** `xs` occurs in `ys` in order, possibly with other elements in between. */
  predicate Subsequence(xs: seq<string>, ys: seq<string>)
    decreases |ys|
  {
    || xs == []
    || (ys != [] && ((xs[0] == ys[0] && Subsequence(xs[1..], ys[1..])) || Subsequence(xs, ys[1..])))
  }

  lemma SubsequenceSkip(y: string, xs: seq<string>, ys: seq<string>)
    requires Subsequence(xs, ys)
    ensures Subsequence(xs, [y] + ys)
  {
    assert ([y] + ys)[1..] == ys;
  }

  lemma SubsequenceTake(y: string, xs: seq<string>, ys: seq<string>)
    requires Subsequence(xs, ys)
    ensures Subsequence([y] + xs, [y] + ys)
  {
    assert ([y] + ys)[1..] == ys;
    assert ([y] + xs)[1..] == xs;
  }

  lemma NonBlankCons(lines: seq<string>)
    requires |lines| > 0
    ensures NonBlank(lines) == (if IsBlank(lines[0]) then [] else [lines[0]]) + NonBlank(lines[1..])
  {
  }

  /** One line's contribution to the subsequence of `ExecutedInOrder`. */
  lemma InOrderStep(line: string, before: seq<string>, after: seq<string>, e: seq<string>,
                    rest: seq<string>)
    requires after == before || (after == before + [line] && !IsBlank(line))
    requires |after| <= |e| && e[..|after|] == after
    requires Subsequence(e[|after|..], rest)
    ensures Subsequence(e[|before|..], (if IsBlank(line) then [] else [line]) + rest)
  {
    if after == before {
      if !IsBlank(line) {
        SubsequenceSkip(line, e[|after|..], rest);
      } else {
        assert [] + rest == rest;
      }
    } else {
      var n := |before|;
      assert e[..n + 1][n] == line;
      assert e[n..] == [line] + e[n + 1..];
      SubsequenceTake(line, e[n + 1..], rest);
    }
  }

  /** The shell receives a subsequence of the batch's non-blank lines, in
      their original order, each exactly as written (untrimmed). */
  lemma {:induction false} ExecutedInOrder<W>(sh: Shell<W>, b: Batch<W>, lines: seq<string>)
    ensures var e := RunLines(sh, b, lines).executed;
      |b.executed| <= |e| && Subsequence(e[|b.executed|..], NonBlank(lines))
    decreases |lines|
  {
    var r := RunLines(sh, b, lines);
    RunLinesSpec(sh, b, lines);
    if |lines| == 0 {
      assert r.executed[|b.executed|..] == [];
    } else {
      var b' := StepLine(sh, b, lines[0]);
      assert r == RunLines(sh, b', lines[1..]);
      StepLineSpec(sh, b, lines[0]);
      RunLinesSpec(sh, b', lines[1..]);
      ExecutedInOrder(sh, b', lines[1..]);
      NonBlankCons(lines);
      InOrderStep(lines[0], b.executed, b'.executed, r.executed, NonBlank(lines[1..]));
    }
  }

  /** The first failing line ends the batch: the lines after it never reach
      the shell, the output gathered before it is discarded, and the result
      is exactly the error's message. */
  lemma FailureAbortsBatch<W>(sh: Shell<W>, w: W, command: string,
                              before: seq<string>, line: string, after: seq<string>,
                              message: string, w': W)
    requires Split(command, '\n') == before + [line] + after
    requires RunLines(sh, Running("", w, []), before).Running?
    requires !IsBlank(line)
    requires var mid := RunLines(sh, Running("", w, []), before);
      && !(MkdirTarget(Trim(line)).Some? && sh.pathExists(mid.world, MkdirTarget(Trim(line)).value))
      && sh.exec(mid.world, line) == (Failed(message), w')
    ensures ExecuteCommand(sh, w, command) == Reply(message, w')
    ensures RunBatch(sh, w, command).executed == RunLines(sh, Running("", w, []), before).executed + [line]
  {
    var start := Running("", w, []);
    var mid := RunLines(sh, start, before);
    var failed := Aborted(message, w', mid.executed + [line]);
    StepLineFails(sh, mid, line, message, w');
    RunLinesAppend(sh, start, before, [line]);
    RunLinesSingle(sh, mid, line);
    RunLinesAppend(sh, start, before + [line], after);
    RunLinesAborted(sh, failed, after);
    assert RunBatch(sh, w, command) == failed;
    ReplyOfBatch(sh, w, command, failed);
  }

  /** A plain `mkdir D` line, with `D` unquoted and not padded, targets `D`. */
  lemma MkdirLineTargets(dir: string)
    requires dir != [] && !IsWhite(dir[0]) && !IsWhite(dir[|dir| - 1])
    requires !IsQuote(dir[0]) && !IsQuote(dir[|dir| - 1])
    ensures Trim("mkdir " + dir) == "mkdir " + dir
    ensures MkdirTarget("mkdir " + dir) == Some(dir)
  {
    var line := "mkdir " + dir;
    MkdirLineShape(dir);
    TrimUnpadded(dir);
    TrimUnpadded(line);
    MkdirTargetSpec(line);
    StripQuotesSpec(dir);
  }

  lemma MkdirLineShape(dir: string)
    requires dir != [] && !IsWhite(dir[|dir| - 1])
    ensures IsMkdirLine("mkdir " + dir)
    ensures ("mkdir " + dir)[6..] == dir
    ensures !IsWhite(("mkdir " + dir)[0]) && !IsWhite(("mkdir " + dir)[|"mkdir " + dir| - 1])
  {
    var line := "mkdir " + dir;
    assert line[0] == 'm' && line[1] == 'k' && line[2] == 'd';
    assert line[3] == 'i' && line[4] == 'r' && line[5] == ' ';
  }

  /** A `mkdir` line whose directory already exists is not run: its notice
      is appended and the world and executed lines stay as they were. */
  lemma StepLineSkipsExisting<W>(sh: Shell<W>, b: Batch<W>, line: string)
    requires b.Running?
    requires MkdirTarget(Trim(line)).Some?
    requires sh.pathExists(b.world, MkdirTarget(Trim(line)).value)
    ensures StepLine(sh, b, line) ==
      Running(b.output + SkipNotice(MkdirTarget(Trim(line)).value), b.world, b.executed)
  {
    MkdirTargetSpec(Trim(line));
  }

  /** Any other non-blank line reaches the shell as written; on success one
      of its channels is appended: `stdout`, or `stderr` when `stdout` is empty. */
  lemma StepLineRunsOther<W>(sh: Shell<W>, b: Batch<W>, line: string, stdout: string, stderr: string, w': W)
    requires b.Running? && !IsBlank(line)
    requires !(MkdirTarget(Trim(line)).Some? && sh.pathExists(b.world, MkdirTarget(Trim(line)).value))
    requires sh.exec(b.world, line) == (Completed(stdout, stderr), w')
    ensures StepLine(sh, b, line) ==
      Running(b.output + (if stdout != "" then stdout else stderr), w', b.executed + [line])
  {
  }

  /** A non-blank line that is not skipped and whose shell call fails ends
      the batch with that failure's message; the line counts as executed. */
  lemma StepLineFails<W>(sh: Shell<W>, b: Batch<W>, line: string, message: string, w': W)
    requires b.Running? && !IsBlank(line)
    requires !(MkdirTarget(Trim(line)).Some? && sh.pathExists(b.world, MkdirTarget(Trim(line)).value))
    requires sh.exec(b.world, line) == (Failed(message), w')
    ensures StepLine(sh, b, line) == Aborted(message, w', b.executed + [line])
  {
  }

  /** A `mkdir` line issued twice in one batch creates its directory once:
      when the first run leaves the directory existing, the second line is
      skipped with its notice and never reaches the shell. */
  lemma MkdirTwiceSkipsSecond<W>(sh: Shell<W>, w: W, line: string, stdout: string, stderr: string, w': W)
    requires '\n' !in line
    requires MkdirTarget(Trim(line)).Some?
    requires !sh.pathExists(w, MkdirTarget(Trim(line)).value)
    requires sh.exec(w, line) == (Completed(stdout, stderr), w')
    requires sh.pathExists(w', MkdirTarget(Trim(line)).value)
    ensures RunBatch(sh, w, line + "\n" + line) ==
      Running((if stdout != "" then stdout else stderr) + SkipNotice(MkdirTarget(Trim(line)).value),
              w', [line])
  {
    var start := Running("", w, []);
    var first := Running((if stdout != "" then stdout else stderr), w', [line]);
    SplitTwoLines(line);
    RunLinesTwo(sh, start, line, line);
    MkdirTargetSpec(Trim(line));
    StepLineRunsOther(sh, start, line, stdout, stderr, w');
    assert "" + first.output == first.output;
    assert [] + [line] == [line];
    StepLineSkipsExisting(sh, first, line);
  }

  lemma SplitTwoLines(line: string)
    requires '\n' !in line
    ensures Split(line + "\n" + line, '\n') == [line, line]
  {
    assert line + "\n" + line == Join([line, line], '\n');
    SplitJoin([line, line], '\n');
  }

  lemma RunLinesTwo<W>(sh: Shell<W>, b: Batch<W>, x: string, y: string)
    ensures RunLines(sh, b, [x, y]) == StepLine(sh, StepLine(sh, b, x), y)
  {
    assert [x, y][1..] == [y];
    RunLinesSingle(sh, StepLine(sh, b, x), y);
  }
}
