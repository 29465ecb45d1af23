/** Directory-to-glob normalisation: a pattern that names a directory is
    rewritten so that the glob walker recurses into it. */
module PatternExpand {
  import opened Wrappers

  const RecursiveSuffix := "/**/*"

  /** What `stat` says of a pattern: `Some(isDirectory)`, or `None` when it threw. */
  type StatOracle = string -> Option<bool>

  /** One pattern after `main`'s stat check: a directory gets the recursive
      suffix; a non-directory, or a pattern whose stat threw, stays as it is. */
  function ExpandOne(pat: string, stat: Option<bool>): (r: string)
    ensures r == pat <==> stat != Some(true)
    ensures stat == Some(true) ==> |r| == |pat| + |RecursiveSuffix| && r[..|pat|] == pat && r[|pat|..] == RecursiveSuffix
  {
    match stat
    case Some(true) => pat + RecursiveSuffix
    case Some(false) => pat
    case None => pat
  }

  /** The expanded pattern list: one entry per input pattern, in the same order. */
  function Expanded(patterns: seq<string>, statDir: StatOracle): (r: seq<string>)
    ensures |r| == |patterns|
    ensures forall k | 0 <= k < |patterns| ::
      statDir(patterns[k]) == Some(true) ==> r[k] == patterns[k] + RecursiveSuffix && r[k] != patterns[k]
    ensures forall k | 0 <= k < |patterns| ::
      statDir(patterns[k]) != Some(true) ==> r[k] == patterns[k]
  {
    seq(|patterns|, k requires 0 <= k < |patterns| => ExpandOne(patterns[k], statDir(patterns[k])))
  }

  /** `main`'s expansion loop, pushing one entry per pattern. */
  method ExpandPatterns(patterns: seq<string>, statDir: StatOracle) returns (expanded: seq<string>)
    ensures expanded == Expanded(patterns, statDir)
  {
    expanded := [];
    for i := 0 to |patterns|
      invariant |expanded| == i
      invariant forall k | 0 <= k < i :: expanded[k] == ExpandOne(patterns[k], statDir(patterns[k]))
    {
      var pat := patterns[i];
      match statDir(pat)
      case Some(isDirectory) =>
        if isDirectory {
          expanded := expanded + [pat + RecursiveSuffix];
        } else {
          expanded := expanded + [pat];
        }
      case None =>
        // stat threw: the pattern is a glob, not a path
        expanded := expanded + [pat];
    }
  }
}
