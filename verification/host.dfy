/** The operating system the tools act on, as oracles over an abstract world
    state `W` (the file system and whatever else a shell command can touch).
    Each oracle returns the world it leaves behind, so a later line of a batch
    sees what an earlier line created. */
module Host {
  import opened Maybe

  /** What `util.promisify(exec)` does with one command line: it resolves
      with the captured `stdout` and `stderr`, or rejects with an error whose
      `message` is kept (non-zero exit status, spawn failure). */
  datatype ExecOutcome = Completed(stdout: string, stderr: string) | Failed(message: string)

  /** What writing a file does: it succeeds, or throws an error with a message. */
  datatype WriteOutcome = Written | WriteFailed(message: string)

  /** `fs.existsSync(path.resolve(name))` and `exec(line, { cwd })`, the
      working directory being part of the world. */
  datatype Shell<!W> = Shell(
    pathExists: (W, string) -> bool,
    exec: (W, string) -> (ExecOutcome, W))

  /** Resolving a path, creating its parent directories and writing a file,
      given the path and the `content` argument (absent when the call omitted it). */
  datatype Writer<!W> = Writer(write: (W, string, Option<string>) -> (WriteOutcome, W))

  /** The string a tool returns, and the world after it ran. */
  datatype Reply<W> = Reply(text: string, world: W)
}
