/** The output sink and the loop that writes one frame per matched file. */
module Emit {
  import opened Wrappers
  import opened Framing

  /** Where frames go: standard output, or a file opened with create and truncate. */
  datatype Target = Stdout | OutputFile(name: string)

  /** An empty file name is falsy, so it selects standard output like no name at all. */
  function TargetFor(outputFile: Option<string>): (t: Target)
    ensures t.OutputFile? <==> outputFile.Some? && outputFile.value != ""
    ensures t.OutputFile? ==> t.name == outputFile.value
  {
    match outputFile
    case Some(name) => if name != "" then OutputFile(name) else Stdout
    case None => Stdout
  }

  /** The writer `out`: every `write` appends one chunk; `close` ends its use. */
  class Sink {
    const target: Target
    var chunks: seq<string>
    var closed: bool

    /** Opening the target: a truncated file, or standard output with nothing written yet. */
    constructor (target: Target)
      ensures this.target == target && chunks == [] && !closed
    {
      this.target := target;
      chunks := [];
      closed := false;
    }

    method Write(chunk: string)
      requires !closed
      modifies this
      ensures chunks == old(chunks) + [chunk] && !closed
    {
      chunks := chunks + [chunk];
    }

    method Close()
      requires !closed
      modifies this
      ensures closed && chunks == old(chunks)
    {
      closed := true;
    }
  }

  /** The text a sequence of writes leaves in the sink, in write order. */
  function Join(chunks: seq<string>): string
  {
    if chunks == [] then "" else Join(chunks[..|chunks| - 1]) + chunks[|chunks| - 1]
  }

  /** How the emission loop ended: all frames written, or a read threw and aborted the run. */
  datatype Outcome = Completed | ReadFailed(path: string)

  /** The files the run emits, by expanded pattern and then by match order. */
  function EmittedFiles(expanded: seq<string>, glob: GlobOracle): seq<Entry>
  {
    Files(Matches(expanded, glob))
  }

  /** Loop state: every file of `done` was read, and its frames were appended to `before`. */
  ghost predicate Emitted(before: seq<string>, after: seq<string>, done: seq<Entry>, read: ReadOracle, rel: RelativeOracle)
  {
    AllReadable(done, read) && after == before + Frames(done, read, rel)
  }

  /** Final state for a list of files: the frames of the files before the
      first unreadable one were appended, and `outcome` names that file, if any. */
  ghost predicate StoppedAtFirstUnreadable(before: seq<string>, after: seq<string>, files: seq<Entry>,
                                          read: ReadOracle, rel: RelativeOracle, outcome: Outcome)
  {
    var n := ReadablePrefix(files, read);
    after == before + Frames(files[..n], read, rel) &&
    outcome == if n == |files| then Completed else ReadFailed(files[n].path)
  }

  lemma EmitOne(before: seq<string>, after: seq<string>, done: seq<Entry>, file: Entry, read: ReadOracle, rel: RelativeOracle)
    requires Emitted(before, after, done, read, rel) && read(file.path).Some?
    ensures Emitted(before, after + [Frame(rel(file.path), read(file.path).value)], done + [file], read, rel)
  {
    FramesAppend(done, [file], read, rel);
  }

  lemma EmitStops(before: seq<string>, after: seq<string>, done: seq<Entry>, file: Entry, rest: seq<Entry>,
                  read: ReadOracle, rel: RelativeOracle)
    requires Emitted(before, after, done, read, rel) && read(file.path).None?
    ensures StoppedAtFirstUnreadable(before, after, done + [file] + rest, read, rel, ReadFailed(file.path))
  {
    StopsAt(done, file, rest, read);
  }

  lemma EmitFinishes(before: seq<string>, after: seq<string>, done: seq<Entry>, read: ReadOracle, rel: RelativeOracle)
    requires Emitted(before, after, done, read, rel)
    ensures StoppedAtFirstUnreadable(before, after, done, read, rel, Completed)
  {
    ReadablePrefixOfReadable(done, read);
    assert done[..|done|] == done;
  }

  /** Composing a pattern's emission after the earlier patterns': all its files were read. */
  lemma EmitChainedCompleted(before: seq<string>, middle: seq<string>, after: seq<string>, done: seq<Entry>,
                             found: seq<Entry>, read: ReadOracle, rel: RelativeOracle)
    requires Emitted(before, middle, done, read, rel)
    requires StoppedAtFirstUnreadable(middle, after, found, read, rel, Completed)
    ensures Emitted(before, after, done + found, read, rel)
  {
    assert found[..|found|] == found;
    FramesAppend(done, found, read, rel);
  }

  /** Composing a pattern's emission after the earlier patterns': one of its files could not be read. */
  lemma EmitChainedFailed(before: seq<string>, middle: seq<string>, after: seq<string>, done: seq<Entry>,
                          found: seq<Entry>, rest: seq<Entry>, read: ReadOracle, rel: RelativeOracle, outcome: Outcome)
    requires Emitted(before, middle, done, read, rel)
    requires StoppedAtFirstUnreadable(middle, after, found, read, rel, outcome) && outcome.ReadFailed?
    ensures StoppedAtFirstUnreadable(before, after, done + found + rest, read, rel, outcome)
  {
    var n := ReadablePrefix(found, read);
    FramesAppend(done, found[..n], read, rel);
    StopsWithin(done, found, rest, read);
    PrefixOfConcat(done, found, rest, n);
  }

  /** `main`'s outer loop: the entries of each expanded pattern in turn. A
      read that throws stops the run; the frames already written stay written. */
  method EmitAll(out: Sink, expanded: seq<string>, glob: GlobOracle, read: ReadOracle, rel: RelativeOracle)
    returns (outcome: Outcome)
    requires !out.closed
    modifies out
    ensures !out.closed
    ensures StoppedAtFirstUnreadable(old(out.chunks), out.chunks, EmittedFiles(expanded, glob), read, rel, outcome)
  {
    ghost var matches := Matches(expanded, glob);
    ghost var done: seq<Entry> := [];
    for i := 0 to |expanded|
      invariant !out.closed
      invariant done == Files(matches[..i])
      invariant Emitted(old(out.chunks), out.chunks, done, read, rel)
    {
      var entries := glob(expanded[i]);
      ghost var middle := out.chunks;
      outcome := EmitPattern(out, entries, read, rel);
      FilesSnoc(matches, i);
      if outcome.ReadFailed? {
        EmitChainedFailed(old(out.chunks), middle, out.chunks, done, FilesIn(entries), Files(matches[i + 1..]), read, rel, outcome);
        assert matches == matches[..i + 1] + matches[i + 1..];
        FilesAppend(matches[..i + 1], matches[i + 1..]);
        return;
      }
      EmitChainedCompleted(old(out.chunks), middle, out.chunks, done, FilesIn(entries), read, rel);
      done := done + FilesIn(entries);
    }
    assert matches[..|expanded|] == matches;
    EmitFinishes(old(out.chunks), out.chunks, done, read, rel);
    return Completed;
  }

  /** `main`'s inner loop over the entries one pattern matches: each regular
      file is read and written as one frame; other entries are skipped. */
  method EmitPattern(out: Sink, entries: seq<Entry>, read: ReadOracle, rel: RelativeOracle)
    returns (outcome: Outcome)
    requires !out.closed
    modifies out
    ensures !out.closed
    ensures StoppedAtFirstUnreadable(old(out.chunks), out.chunks, FilesIn(entries), read, rel, outcome)
  {
    ghost var done: seq<Entry> := [];
    for j := 0 to |entries|
      invariant !out.closed
      invariant done == FilesIn(entries[..j])
      invariant Emitted(old(out.chunks), out.chunks, done, read, rel)
    {
      var file := entries[j];
      FilesInSnoc(entries, j);
      if file.isFile {
        var data := read(file.path);
        if data.None? {
          assert entries == entries[..j + 1] + entries[j + 1..];
          FilesInAppend(entries[..j + 1], entries[j + 1..]);
          EmitStops(old(out.chunks), out.chunks, done, file, FilesIn(entries[j + 1..]), read, rel);
          return ReadFailed(file.path);
        }
        EmitOne(old(out.chunks), out.chunks, done, file, read, rel);
        out.Write(Frame(rel(file.path), data.value));
        done := done + [file];
      }
    }
    assert entries[..|entries|] == entries;
    EmitFinishes(old(out.chunks), out.chunks, done, read, rel);
    return Completed;
  }
}
