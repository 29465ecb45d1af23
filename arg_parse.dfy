/** Command-line parsing of `concat`: `--help`, `--output FILE`, and the
    positional patterns that remain. */
module ArgParse {
  import opened Wrappers
  import opened SeqSearch

  const HelpFlag := "--help"
  const OutputFlag := "--output"

  /** What one invocation asks for. `Help` prints usage and exits 0,
      `UsageError` reports `--output` without a file name and exits 1. */
  datatype Invocation =
    | Help
    | UsageError
    | Run(outputFile: Option<string>, patterns: seq<string>)

  /** Usage is shown when there are no arguments or `--help` occurs anywhere. */
  predicate HelpRequested(args: seq<string>)
  {
    |args| == 0 || HelpFlag in args
  }

  /** The parse as a value: the reference the imperative `ParseArgs` is proved against. */
  function Parse(args: seq<string>): (inv: Invocation)
    // help wins over everything, even `--output --help`
    ensures inv.Help? <==> HelpRequested(args)
    // the only usage error: the first `--output` is the last argument
    ensures inv.UsageError? <==>
      !HelpRequested(args) && args[|args| - 1] == OutputFlag && OutputFlag !in args[..|args| - 1]
    // without `--output` every argument is a pattern
    ensures inv.Run? ==> (inv.outputFile.None? <==> OutputFlag !in args)
    ensures inv.Run? && inv.outputFile.None? ==> inv.patterns == args
    // with it: the first `--output` and the argument after it are dropped, the rest kept in order
    ensures inv.Run? && inv.outputFile.Some? ==>
      exists i | 0 <= i < |args| - 1 ::
        args[i] == OutputFlag && OutputFlag !in args[..i] &&
        inv.outputFile.value == args[i + 1] &&
        inv.patterns == args[..i] + args[i + 2..]
    ensures inv.Run? && inv.outputFile.Some? ==>
      |inv.patterns| == |args| - 2 &&
      multiset(inv.patterns) + multiset{OutputFlag, inv.outputFile.value} == multiset(args)
  {
    if HelpRequested(args) then Help
    else
      var i := IndexOf(args, OutputFlag);
      if i == -1 then Run(None, args)
      else if |args| <= i + 1 then
        assert args[..|args| - 1] == args[..i];
        UsageError
      else
        assert args == args[..i] + [args[i], args[i + 1]] + args[i + 2..];
        assert args[|args| - 1] == OutputFlag ==> OutputFlag in args[..|args| - 1] by {
          assert args[..|args| - 1][i] == OutputFlag;
        }
        Run(Some(args[i + 1]), args[..i] + args[i + 2..])
  }

  /** `main`'s parsing steps: copy the arguments, exit early for help, find the
      first `--output`, and splice it and its file name out of the copy. */
  method ParseArgs(argv: seq<string>) returns (inv: Invocation)
    ensures inv == Parse(argv)
  {
    var args := argv;
    if |args| == 0 || HelpFlag in args {
      return Help;
    }
    var outputFile: Option<string> := None;
    var outputFileIndex := IndexOf(args, OutputFlag);
    if outputFileIndex != -1 {
      if |args| <= outputFileIndex + 1 {
        return UsageError;
      }
      outputFile := Some(args[outputFileIndex + 1]);
      args := args[..outputFileIndex] + args[outputFileIndex + 2..];
    }
    return Run(outputFile, args);
  }

  /** A `--output` that comes after the first one (and is not the file name
      it consumes) is not interpreted: it stays a pattern, two places to the left. */
  lemma LaterOutputFlagIsPattern(args: seq<string>, j: int)
    requires Parse(args).Run? && Parse(args).outputFile.Some?
    requires 1 <= j < |args| && args[j] == OutputFlag && OutputFlag in args[..j - 1]
    ensures 2 <= j && Parse(args).patterns[j - 2] == OutputFlag
  {
    var i := IndexOf(args, OutputFlag);
    var k :| 0 <= k < j - 1 && args[..j - 1][k] == OutputFlag;
  }
}
