/** `main` of `concat`: parse the arguments, expand directories, open the
    sink, write one frame per matched file, close a file sink. */
module Concat {
  import opened Wrappers
  import opened ArgParse
  import opened PatternExpand
  import opened Framing
  import opened Emit

  /** How one run ends. `written` is what reached the sink, one chunk per write. */
  datatype RunResult =
    | HelpShown
    | MissingOutputFile
    | Finished(target: Target, written: seq<string>, closed: bool)
    | Aborted(target: Target, written: seq<string>, failedPath: string)

  /** The process exit status: 0 after help or a full run, 1 for the usage
      error and for a read that threw (an uncaught error). */
  function ExitCode(r: RunResult): (code: int)
    ensures code == 0 <==> r.HelpShown? || r.Finished?
    ensures code == 1 <==> r.MissingOutputFile? || r.Aborted?
  {
    match r
    case HelpShown => 0
    case MissingOutputFile => 1
    case Finished(_, _, _) => 0
    case Aborted(_, _, _) => 1
  }

  /** One run of `main`, with the filesystem given as oracles. */
  method Run(argv: seq<string>, statDir: StatOracle, glob: GlobOracle, read: ReadOracle, rel: RelativeOracle)
    returns (r: RunResult)
    // help is decided before anything else is looked at, and nothing is written
    ensures r.HelpShown? <==> HelpRequested(argv)
    // `--output` without a file name: nothing is opened or written
    ensures r.MissingOutputFile? <==> Parse(argv).UsageError?
    ensures Parse(argv).Run? ==>
      var inv := Parse(argv);
      var files := EmittedFiles(Expanded(inv.patterns, statDir), glob);
      var n := ReadablePrefix(files, read);
      (r.Finished? || r.Aborted?) &&
      r.target == TargetFor(inv.outputFile) &&
      r.written == Frames(files[..n], read, rel) &&
      (r.Finished? <==> n == |files|) &&
      (r.Aborted? ==> r.failedPath == files[n].path) &&
      // only a file sink is closed, and only after a full run
      (r.Finished? ==> r.closed == r.target.OutputFile?)
  {
    var inv := ParseArgs(argv);
    match inv {
      case Help =>
        return HelpShown;
      case UsageError =>
        return MissingOutputFile;
      case Run(outputFile, patterns) =>
        var expanded := ExpandPatterns(patterns, statDir);
        var out := new Sink(TargetFor(outputFile));
        var outcome := EmitAll(out, expanded, glob, read, rel);
        if outcome.ReadFailed? {
          return Aborted(out.target, out.chunks, outcome.path);
        }
        if out.target.OutputFile? {
          out.Close();
        }
        return Finished(out.target, out.chunks, out.closed);
    }
  }

  /** A file named directly and again through its directory is emitted twice;
      entries that are not regular files (a subdirectory) produce nothing. */
  lemma FileAndItsDirectory(statDir: StatOracle, glob: GlobOracle, a: Entry, sub: Entry, b: Entry)
    requires statDir("src/a.txt") == Some(false) && statDir("src") == Some(true)
    requires a.isFile && !sub.isFile && b.isFile
    requires glob("src/a.txt") == [a] && glob("src/**/*") == [a, sub, b]
    ensures EmittedFiles(Expanded(["src/a.txt", "src"], statDir), glob) == [a, a, b]
  {
    var expanded := Expanded(["src/a.txt", "src"], statDir);
    assert "src" + RecursiveSuffix == "src/**/*" by {
      forall k | 0 <= k < 8 ensures ("src" + RecursiveSuffix)[k] == "src/**/*"[k] {}
    }
    assert expanded == ["src/a.txt", "src/**/*"];
    var matches := Matches(expanded, glob);
    assert matches == [[a], [a, sub, b]];
    assert FilesIn([a]) == [a] by { assert [a][1..] == []; }
    assert FilesIn([a, sub, b]) == [a, b] by {
      assert [b][1..] == [];
      assert FilesIn([b]) == [b];
      assert [sub, b][1..] == [b];
      assert FilesIn([sub, b]) == [b];
      assert [a, sub, b][1..] == [sub, b];
    }
    assert Files([[a, sub, b]]) == [a, b] by { assert [[a, sub, b]][1..] == []; }
    assert matches[1..] == [[a, sub, b]];
  }

  /** The output for two readable files is their two frames, back to back. */
  lemma TwoFileOutput(read: ReadOracle, rel: RelativeOracle, x: Entry, y: Entry)
    requires read(x.path) == Some("hi") && rel(x.path) == "x.txt"
    requires read(y.path) == Some("bye") && rel(y.path) == "y.txt"
    ensures AllReadable([x, y], read)
    ensures Join(Frames([x, y], read, rel)) == Frame("x.txt", "hi") + Frame("y.txt", "bye")
  {
    var frames := Frames([x, y], read, rel);
    assert frames == [Frame("x.txt", "hi"), Frame("y.txt", "bye")];
    assert frames[..1] == [Frame("x.txt", "hi")];
    assert Join(frames[..1]) == Frame("x.txt", "hi") by {
      assert frames[..1][..0] == [];
    }
  }
}
