# concat: a verified model of its `main` routine

`concat` bundles the text of files into one stream. It takes paths, directories and glob
patterns on the command line. It writes each matched regular file as a block between a
`-----BEGIN FILE <path>-----` line and an `-----END FILE <path>-----` line. The output goes
to standard output, or to the file named by `--output FILE`.

This project models the three parts of `main` that can be checked, and proves their
contracts:

- **Argument parsing** (`arg_parse.dfy`, module `ArgParse`). With no arguments, or with
  `--help` anywhere, the run shows usage and exits 0. Otherwise the first `--output` is
  located. If it is the last argument, the run is a usage error and exits 1. If not, it and
  the argument after it are spliced out of a copy of the argument list, and what remains
  is the pattern list. `Parse` is the parse written as a value. `ParseArgs` is the
  imperative version, as `main` does it: it splices a local copy of the list. It is proved
  equal to `Parse`.
- **Directory-to-glob expansion** (`expand.dfy`, module `PatternExpand`). A pattern that
  `stat` reports as a directory becomes `pattern + "/**/*"`. A pattern that `stat`
  reports as something else, or that makes `stat` throw, stays unchanged. `stat` is a
  parameter `statDir: string -> Option<bool>`, where `None` means it threw.
- **Frame emission** (`framing.dfy` and `emit.dfy`, modules `Framing` and `Emit`). The
  glob walker, file reads and `relative(cwd, path)` are also parameters. Each regular file
  among the matches of each expanded pattern is read and written as one frame to a `Sink`
  object. The sink's `chunks` field is a sequence that grows by one chunk per write. The
  order is by pattern, then by match order. Entries that are not regular files are
  skipped. Nothing is deduplicated. A read that throws stops the run, and the frames
  already written stay written.
- **The whole run** (`concat.dfy`, module `Concat`). `Run` composes the three parts. It
  opens the sink: a file only when the output name is non-empty, since `""` is falsy.
  After a full run it closes a file sink, and only a file sink. It returns how the run
  ended. `ExitCode` gives the process status for each ending.

`seq_search.dfy` holds `IndexOf`, which behaves like JavaScript's `Array.prototype.indexOf`.
`wrappers.dfy` holds `Option`.

Points where the code's behaviour is easy to misread:
- Only the FIRST `--output` is interpreted. A later `--output` is an ordinary pattern,
  and so is a second file name (`LaterOutputFlagIsPattern`). So `a --output b --output`
  is not a usage error: it writes to `b` with patterns `a` and `--output`.
- `--output ""` writes to standard output, as if no `--output` had been given.
- `main.ts` prints no processed-file report and no token count, so neither is modelled.

## Model

| member | source | states |
|---|---|---|
| `SeqSearch.IndexOf` | main.ts:27 | The result is -1 exactly when the element is absent. Otherwise it is an index holding the element, with no earlier occurrence. |
| `ArgParse.Parse` | main.ts:20-44 | Help exactly when the list is empty or contains `--help`, even after `--output`. A usage error exactly when help is not asked for and the first `--output` is the last argument. With no `--output`, there is no output file and every argument is a pattern. Otherwise the output file is the argument after the first `--output`, and the patterns are the list without those two positions, in order. The multiset of patterns plus those two equals the arguments. |
| `ArgParse.HelpRequested` | main.ts:21 | Definition: usage is shown when the argument list is empty or holds `--help` at any position. |
| `ArgParse.ParseArgs` | main.ts:20-44 | The in-place version (copy, early exits, `indexOf`, `splice`) returns exactly `Parse` of the arguments. |
| `ArgParse.LaterOutputFlagIsPattern` | main.ts:27-35 | A `--output` after the first one, and not consumed as its file name, stays in the pattern list, two positions to the left. |
| `PatternExpand.ExpandOne` | main.ts:48-59 | One pattern is left as it is exactly when `stat` did not report a directory, either because it reported something else or because it threw. A directory becomes the pattern followed by `/**/*`. |
| `PatternExpand.Expanded` | main.ts:47-60 | One expanded pattern per input pattern, in order. A directory becomes `pat + "/**/*"`, which is never the literal `pat`. A non-directory, or a pattern whose stat threw, is unchanged. |
| `PatternExpand.ExpandPatterns` | main.ts:47-60 | The push loop returns exactly `Expanded` of the patterns and the stat oracle. |
| `Framing.Frame` | main.ts:76 | Definition of the block written for one file: `-----BEGIN FILE <path>-----`, a newline, the text, a newline, `-----END FILE <path>-----`, a newline. Its properties are `UnframeFrame`, `UnframeSound` and `FramingNotInjective`. |
| `Framing.UnframeFrame` | main.ts:76 | Any single frame reads back as its path and its data, whatever the data holds, provided the path has no newline. |
| `Framing.UnframeSound` | main.ts:76 | Whatever the reader accepts is exactly the frame of the path and data it returns, and that path has no newline. |
| `Framing.FramingNotInjective` | main.ts:76 | Markers are not escaped. A file whose text holds END and BEGIN marker lines gives the same output as three separate frames, one of them for a path that was never matched. |
| `Framing.FilesIn` | main.ts:71-72 | Definition: the entries of one pattern's matches that are regular files, in match order. Its properties are `FilesInCount` and `FilesInAppend`. |
| `Framing.Files` | main.ts:70-72 | Definition: the regular files of every pattern's matches, pattern by pattern. Its properties are `FilesCount`, `FilesAppend` and `FilesMembership`. |
| `Framing.FilesInCount` | main.ts:71-72 | Within one pattern, each occurrence of a regular file among the matches is kept once. An entry that is not a regular file is never kept. |
| `Framing.FilesInAppend` | main.ts:71-79 | Keeping the files of a concatenation gives the files of each part, in order, so match order is preserved. |
| `Framing.FilesAppend` | main.ts:70-80 | Pattern order is preserved: the files of earlier patterns all come before those of later ones. |
| `Framing.FilesMembership` | main.ts:70-80 | An entry is emitted exactly when it is a regular file matched by some pattern. |
| `Framing.FilesCount` | main.ts:70-80 | No deduplication, exactly: a regular file is emitted as many times as it occurs among the matches of all patterns together. Anything else is never emitted. |
| `Framing.MatchedTwiceEmittedTwice` | main.ts:70-80 | A regular file matched under two patterns, and under no other, is emitted exactly once per match under those two patterns, so at least twice. |
| `Framing.ReadablePrefix` | main.ts:73 | The count of files read before the first read that throws. Every file before it reads. The file at that position, if any, does not. |
| `Framing.Frames` | main.ts:73-77 | Definition: when every file reads, one frame per file, in file order, made of its relative path and its text. |
| `Framing.ReadablePrefixStopsInside` | main.ts:70-80 | Reading stops at the first failure: a failure in the first part of a concatenation stops it there, whatever follows. |
| `Framing.ReadablePrefixPastReadable` | main.ts:70-80 | After a part whose files all read, reading continues into the next part. |
| `Emit.TargetFor` | main.ts:62-67 | The sink is a file exactly when an output name was given and is non-empty, and then it is that file. Otherwise it is standard output. |
| `Emit.Sink.constructor` | main.ts:64-66 | A freshly opened sink, truncated for a file, holds no writes and is open. |
| `Emit.Sink.Write` | main.ts:75-77 | One write appends exactly one chunk. |
| `Emit.Sink.Close` | main.ts:82 | Closing keeps what was written. |
| `Emit.EmitPattern` | main.ts:71-79 | For one pattern's matches, the frames of its regular files are appended, in match order, up to the first file whose read throws. The outcome names that file, or says the loop completed. |
| `Emit.EmitAll` | main.ts:69-80 | Across all expanded patterns, the frames of all emitted files are appended, by pattern and then match order, up to the first unreadable file. The outcome names that file, or says the loop completed. |
| `Concat.ExitCode` | main.ts:21-33 | Exit status 0 exactly after help or a completed run. Exit status 1 exactly after the missing-file usage error or an aborted run. |
| `Concat.Run` | main.ts:19-83 | Help exactly when `HelpRequested`. A usage error exactly when `Parse` says so; then nothing is opened or written. Otherwise the target is given by the output name, and the writes are the frames of the emitted files of the expanded patterns, up to the first unreadable one. The run finishes exactly when every file reads, and otherwise aborts naming that file. After a finish the sink is closed exactly when it is a file. |
| `Concat.FileAndItsDirectory` | main.ts:47-80 | Worked example: patterns `src/a.txt` and the directory `src`, where `src` holds `a.txt`, a subdirectory and `b.txt`. The emitted files are `a`, `a`, `b`. |
| `Concat.TwoFileOutput` | main.ts:70-80 | Worked example: two files holding `hi` and `bye` give exactly their two frames, one after the other. |

## Left out

- Glob matching (`expandGlob`) is a parameter `string -> seq<Entry>`. Its matching rules and enumeration order are not modelled.
- A glob walker that throws part-way through a pattern is not modelled: the parameter always yields a complete sequence. In `main.ts:71` such an error is uncaught. The run would end with status 1 and keep the frames already written, as after a read that throws, but the model has no outcome for it.
- `relative(Deno.cwd(), path)` is a parameter `string -> string` for the run's fixed working directory.
- `Deno.stat` and `Deno.readTextFile` are parameters. Both are functions, so the model assumes the filesystem does not change during a run. That includes an output file that a later glob might match while it is being written.
- A failing `Deno.open` of the output file is not modelled, and neither is a failing write to the sink. Every write is assumed to succeed. A read that throws is modelled: it aborts the run.
- Output is modelled as strings, one per write, not as the UTF-8 bytes that `TextEncoder` produces.
- `async`/`await` and `for await` are modelled as ordinary sequential loops, because the source runs strictly one step at a time.
- `Deno.exit`, `console.log` and `console.error` are modelled as the variants of `RunResult`. The text of `printHelp` and of the error message is not modelled.
- The `Array.isArray` check (main.ts:40-43) is not modelled. It is always true for the copied argument array.
