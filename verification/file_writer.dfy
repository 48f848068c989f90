/** The `writeFile` tool, seen from the agent: the string it returns. Creating
    directories and writing the file are the `Writer` oracle's business. */
module FileWriter {
  import opened Maybe
  import opened Host

  /** What the tool reports after a successful write, before the path as given. */
  const WroteFile := "Wrote file: "

  /** The message of the `TypeError` that `path.resolve` throws when the call
      carries no `filePath` argument. */
  const PathMissing := "The \"paths[0]\" argument must be of type string. Received undefined"

  /** `writeFile(filePath, content)`: the oracle's error message when writing
      fails, otherwise the confirmation naming the path exactly as the call
      gave it. Without a path nothing is written. */
  function WriteFile<W>(wr: Writer<W>, w: W, filePath: Option<string>, content: Option<string>): Reply<W> {
    match filePath
    case None => Reply(PathMissing, w)
    case Some(p) =>
      var (outcome, w') := wr.write(w, p, content);
      match outcome
      case Written => Reply(WroteFile + p, w')
      case WriteFailed(message) => Reply(message, w')
  }

  /** The three outcomes of a call, and the world each leaves behind. */
  lemma WriteFileSpec<W>(wr: Writer<W>, w: W, filePath: Option<string>, content: Option<string>)
    ensures filePath.None? ==> WriteFile(wr, w, filePath, content) == Reply(PathMissing, w)
    ensures filePath.Some? ==>
      var (outcome, w') := wr.write(w, filePath.value, content);
      && WriteFile(wr, w, filePath, content).world == w'
      && (outcome.Written? ==> WriteFile(wr, w, filePath, content).text == WroteFile + filePath.value)
      && (outcome.WriteFailed? ==> WriteFile(wr, w, filePath, content).text == outcome.message)
  {
  }

  /** A confirmation gives back the path it was written to: the text after
      the fixed prefix is exactly the `filePath` argument. */
  lemma ConfirmationNamesPath<W>(wr: Writer<W>, w: W, p: string, content: Option<string>)
    requires wr.write(w, p, content).0 == Written
    ensures var text := WriteFile(wr, w, Some(p), content).text;
      && |WroteFile| <= |text|
      && text[..|WroteFile|] == WroteFile
      && text[|WroteFile|..] == p
  {
    var text := WroteFile + p;
    assert text[..|WroteFile|] == WroteFile;
    assert text[|WroteFile|..] == p;
  }
}
