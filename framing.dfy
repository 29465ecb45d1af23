/** The framed output format and which glob matches become frames, in what order. */
module Framing {
  import opened Wrappers
  import opened SeqSearch

  /** One entry yielded by the glob walker: its absolute path and whether it is a regular file. */
  datatype Entry = Entry(path: string, isFile: bool)

  /** The glob walker: the entries one expanded pattern matches, in enumeration order. */
  type GlobOracle = string -> seq<Entry>
  /** Reading a file as text: `None` when the read threw. */
  type ReadOracle = string -> Option<string>
  /** `relative(cwd, path)` for the fixed working directory of the run. */
  type RelativeOracle = string -> string

  const BeginMarker := "-----BEGIN FILE "
  const EndMarker := "-----END FILE "
  const Dashes := "-----"

  /** The block written for one file whose relative path is `path`. */
  function Frame(path: string, data: string): string
  {
    BeginMarker + path + Dashes + "\n" + data + "\n" + EndMarker + path + Dashes + "\n"
  }

  function Header(path: string): string
  {
    BeginMarker + path + Dashes
  }

  function Footer(path: string): string
  {
    "\n" + EndMarker + path + Dashes + "\n"
  }

  /** Reads one frame back: the header runs up to the first newline, the data
      up to the footer that closes the frame at the end of `s`. */
  function Unframe(s: string): Option<(string, string)>
  {
    var h := IndexOf(s, '\n');
    if h == -1 then None
    else
      var header := s[..h];
      if |header| < |BeginMarker| + |Dashes|
         || header[..|BeginMarker|] != BeginMarker
         || header[|header| - |Dashes|..] != Dashes
      then None
      else
        var path := header[|BeginMarker|..|header| - |Dashes|];
        var footer := Footer(path);
        if |s| < h + 1 + |footer| || s[|s| - |footer|..] != footer then None
        else Some((path, s[h + 1..|s| - |footer|]))
  }

  /** A single frame always reads back as its path and its data, whatever the
      data holds, as long as the path has no newline. */
  lemma UnframeFrame(path: string, data: string)
    requires '\n' !in path
    ensures Unframe(Frame(path, data)) == Some((path, data))
  {
    var s := Frame(path, data);
    var h := |Header(path)|;
    FrameLayout(path, data);
    assert s[..h] == Header(path);
    assert '\n' !in Header(path) by {
      forall k | 0 <= k < h ensures Header(path)[k] != '\n' {
        if k < |BeginMarker| {
          assert Header(path)[k] == BeginMarker[k];
        } else if k < |BeginMarker| + |path| {
          assert Header(path)[k] == path[k - |BeginMarker|];
        } else {
          assert Header(path)[k] == Dashes[k - |BeginMarker| - |path|];
        }
      }
    }
    var i := IndexOf(s, '\n');
    assert s[h] == '\n';
    assert i == h;
    var header := s[..h];
    assert header[..|BeginMarker|] == BeginMarker;
    assert header[|header| - |Dashes|..] == Dashes;
    assert header[|BeginMarker|..|header| - |Dashes|] == path;
    var footer := Footer(path);
    assert s[|s| - |footer|..] == footer;
    assert s[h + 1..|s| - |footer|] == data;
  }

  /** Conversely, whatever `Unframe` accepts is exactly one frame. */
  lemma UnframeSound(s: string, path: string, data: string)
    requires Unframe(s) == Some((path, data))
    ensures '\n' !in path && s == Frame(path, data)
  {
    HeaderOfAccepted(s);
    AssembleFrame(s, IndexOf(s, '\n'), |s| - |Footer(path)|, path, data);
  }

  lemma AssembleFrame(s: string, h: int, f: int, path: string, data: string)
    requires 0 <= h < f <= |s| && '\n' !in s[..h]
    requires s[..h] == Header(path) && s[h] == '\n' && s[h + 1..f] == data && s[f..] == Footer(path)
    ensures '\n' !in path && s == Frame(path, data)
  {
    assert '\n' !in path by {
      forall k | 0 <= k < |path| ensures path[k] != '\n' {
        assert path[k] == s[..h][|BeginMarker| + k];
      }
    }
    assert s == s[..h] + [s[h]] + s[h + 1..f] + s[f..];
  }

  /** The pieces `Unframe` cuts an accepted string into. */
  lemma HeaderOfAccepted(s: string)
    requires Unframe(s).Some?
    ensures var h, path := IndexOf(s, '\n'), Unframe(s).value.0;
      0 <= h && s[..h] == Header(path) && s[h] == '\n' && '\n' !in s[..h]
      && |s| - |Footer(path)| > h
      && s[h + 1..|s| - |Footer(path)|] == Unframe(s).value.1
      && s[|s| - |Footer(path)|..] == Footer(path)
  {
    var h := IndexOf(s, '\n');
    var header := s[..h];
    var n, m := |BeginMarker|, |header| - |Dashes|;
    var path := Unframe(s).value.0;
    assert path == header[n..m] && header[..n] == BeginMarker && header[m..] == Dashes;
    assert header == header[..n] + header[n..m] + header[m..];
  }

  /** Frames are not self-delimiting: a file at `p` whose text holds marker
      lines produces the same output as three files, one of them at `q`,
      which may never have been matched. */
  lemma FramingNotInjective(p: string, q: string, x: string, y: string, z: string)
    ensures Frame(p, x + Footer(p) + Header(q) + "\n" + y + Footer(q) + Header(p) + "\n" + z)
         == Frame(p, x) + Frame(q, y) + Frame(p, z)
  {
    FrameLayout(p, x + Footer(p) + Header(q) + "\n" + y + Footer(q) + Header(p) + "\n" + z);
    FrameLayout(p, x);
    FrameLayout(q, y);
    FrameLayout(p, z);
  }

  lemma FrameLayout(path: string, data: string)
    ensures Frame(path, data) == Header(path) + "\n" + data + Footer(path)
  {
  }

  /** The regular files among one pattern's matches, in match order. */
  function FilesIn(entries: seq<Entry>): (r: seq<Entry>)
  {
    if entries == [] then []
    else (if entries[0].isFile then [entries[0]] else []) + FilesIn(entries[1..])
  }

  /** The regular files among all matches: by pattern, then by match order. */
  function Files(matches: seq<seq<Entry>>): (r: seq<Entry>)
  {
    if matches == [] then [] else FilesIn(matches[0]) + Files(matches[1..])
  }

  /** The glob results of each expanded pattern, in pattern order. */
  function Matches(expanded: seq<string>, glob: GlobOracle): (r: seq<seq<Entry>>)
    ensures |r| == |expanded|
    ensures forall k | 0 <= k < |expanded| :: r[k] == glob(expanded[k])
  {
    seq(|expanded|, k requires 0 <= k < |expanded| => glob(expanded[k]))
  }

  /** One frame per occurrence of a regular file among the matches, none for anything else. */
  lemma {:induction false} FilesInCount(entries: seq<Entry>, e: Entry)
    ensures multiset(FilesIn(entries))[e] == if e.isFile then multiset(entries)[e] else 0
  {
    if entries != [] {
      assert entries == [entries[0]] + entries[1..];
      FilesInCount(entries[1..], e);
    }
  }

  /** Match order within a pattern is kept: filtering distributes over concatenation. */
  lemma {:induction false} FilesInAppend(a: seq<Entry>, b: seq<Entry>)
    ensures FilesIn(a + b) == FilesIn(a) + FilesIn(b)
  {
    if a == [] {
      assert a + b == b;
    } else {
      var head := if a[0].isFile then [a[0]] else [];
      assert (a + b)[1..] == a[1..] + b;
      assert FilesIn(a + b) == head + FilesIn(a[1..] + b);
      FilesInAppend(a[1..], b);
      assert FilesIn(a) == head + FilesIn(a[1..]);
    }
  }

  /** Pattern order is kept: the files of earlier patterns come first. */
  lemma {:induction false} FilesAppend(a: seq<seq<Entry>>, b: seq<seq<Entry>>)
    ensures Files(a + b) == Files(a) + Files(b)
  {
    if a == [] {
      assert a + b == b;
    } else {
      assert (a + b)[1..] == a[1..] + b;
      assert Files(a + b) == FilesIn(a[0]) + Files(a[1..] + b);
      FilesAppend(a[1..], b);
    }
  }

  /** Taking one more entry adds its file, if it is one, at the end. */
  lemma FilesInSnoc(entries: seq<Entry>, j: int)
    requires 0 <= j < |entries|
    ensures FilesIn(entries[..j + 1]) == FilesIn(entries[..j]) + FilesIn([entries[j]])
    ensures FilesIn([entries[j]]) == if entries[j].isFile then [entries[j]] else []
  {
    assert entries[..j + 1] == entries[..j] + [entries[j]];
    FilesInAppend(entries[..j], [entries[j]]);
    assert [entries[j]][1..] == [];
  }

  /** Taking one more pattern adds its files at the end. */
  lemma FilesSnoc(matches: seq<seq<Entry>>, i: int)
    requires 0 <= i < |matches|
    ensures Files(matches[..i + 1]) == Files(matches[..i]) + FilesIn(matches[i])
  {
    assert matches[..i + 1] == matches[..i] + [matches[i]];
    FilesAppend(matches[..i], [matches[i]]);
    assert [matches[i]][1..] == [];
  }

  /** Exactly the regular files matched under some pattern are emitted. */
  lemma {:induction false} FilesMembership(matches: seq<seq<Entry>>, e: Entry)
    ensures e in Files(matches) <==> e.isFile && exists k | 0 <= k < |matches| :: e in matches[k]
  {
    if matches != [] {
      var first, rest := matches[0], matches[1..];
      FilesMembership(rest, e);
      FilesInCount(first, e);
      if exists k | 0 <= k < |matches| :: e in matches[k] {
        var k :| 0 <= k < |matches| && e in matches[k];
        if k > 0 {
          assert rest[k - 1] == matches[k];
        }
      }
      if exists k | 0 <= k < |rest| :: e in rest[k] {
        var k :| 0 <= k < |rest| && e in rest[k];
        assert matches[k + 1] == rest[k];
      }
    }
  }

  /** How often `e` occurs among all the matches, pattern by pattern. */
  function CountIn(matches: seq<seq<Entry>>, e: Entry): nat
  {
    if matches == [] then 0 else multiset(matches[0])[e] + CountIn(matches[1..], e)
  }

  /** No deduplication: a regular file is emitted once per occurrence among the
      matches of every pattern, and anything else never. */
  lemma {:induction false} FilesCount(matches: seq<seq<Entry>>, e: Entry)
    ensures multiset(Files(matches))[e] == if e.isFile then CountIn(matches, e) else 0
  {
    if matches != [] {
      FilesInCount(matches[0], e);
      FilesCount(matches[1..], e);
    }
  }

  /** No pattern holds `e`, so it occurs nowhere among the matches. */
  lemma {:induction false} CountInNone(matches: seq<seq<Entry>>, e: Entry)
    requires forall k | 0 <= k < |matches| :: e !in matches[k]
    ensures CountIn(matches, e) == 0
  {
    if matches != [] {
      assert forall k | 0 <= k < |matches| - 1 :: matches[1..][k] == matches[k + 1];
      CountInNone(matches[1..], e);
    }
  }

  /** Only pattern `j` can hold `e`, so all its occurrences are there. */
  lemma {:induction false} CountInOne(matches: seq<seq<Entry>>, e: Entry, j: int)
    requires 0 <= j < |matches|
    requires forall k | 0 <= k < |matches| && k != j :: e !in matches[k]
    ensures CountIn(matches, e) == multiset(matches[j])[e]
  {
    assert forall k | 0 <= k < |matches| - 1 :: matches[1..][k] == matches[k + 1];
    if j == 0 {
      CountInNone(matches[1..], e);
    } else {
      CountInOne(matches[1..], e, j - 1);
    }
  }

  /** No deduplication: a file matched under two patterns, and under no other,
      is emitted once for each of its matches there, so at least twice. */
  lemma {:induction false} MatchedTwiceEmittedTwice(matches: seq<seq<Entry>>, e: Entry, i: int, j: int)
    requires e.isFile && 0 <= i < j < |matches|
    requires e in matches[i] && e in matches[j]
    requires forall k | 0 <= k < |matches| && k != i && k != j :: e !in matches[k]
    ensures multiset(Files(matches))[e] == multiset(matches[i])[e] + multiset(matches[j])[e]
    ensures multiset(Files(matches))[e] >= 2
  {
    FilesCount(matches, e);
    CountInTwo(matches, e, i, j);
  }

  lemma {:induction false} CountInTwo(matches: seq<seq<Entry>>, e: Entry, i: int, j: int)
    requires 0 <= i < j < |matches|
    requires forall k | 0 <= k < |matches| && k != i && k != j :: e !in matches[k]
    ensures CountIn(matches, e) == multiset(matches[i])[e] + multiset(matches[j])[e]
  {
    assert forall k | 0 <= k < |matches| - 1 :: matches[1..][k] == matches[k + 1];
    if i == 0 {
      CountInOne(matches[1..], e, j - 1);
    } else {
      CountInTwo(matches[1..], e, i - 1, j - 1);
    }
  }

  /** Every file in `files` can be read. */
  predicate AllReadable(files: seq<Entry>, read: ReadOracle)
  {
    forall k | 0 <= k < |files| :: read(files[k].path).Some?
  }

  /** How many files, from the front, can be read before the first read that fails. */
  function ReadablePrefix(files: seq<Entry>, read: ReadOracle): (n: nat)
    ensures n <= |files|
    ensures forall k | 0 <= k < n :: read(files[k].path).Some?
    ensures n < |files| ==> read(files[n].path).None?
  {
    if files == [] || read(files[0].path).None? then 0
    else 1 + ReadablePrefix(files[1..], read)
  }

  lemma {:induction false} ReadablePrefixOfReadable(files: seq<Entry>, read: ReadOracle)
    requires AllReadable(files, read)
    ensures ReadablePrefix(files, read) == |files|
  {
    if files != [] {
      assert read(files[0].path).Some?;
      ReadablePrefixOfReadable(files[1..], read);
    }
  }

  /** When every file of `done` was read and the next one, `file`, cannot be,
      the run stops at `file` whatever follows it. */
  lemma StopsAt(done: seq<Entry>, file: Entry, rest: seq<Entry>, read: ReadOracle)
    requires AllReadable(done, read) && read(file.path).None?
    ensures var files := done + [file] + rest;
      ReadablePrefix(files, read) == |done| && files[|done|] == file && files[..|done|] == done
  {
    ReadablePrefixPastReadable(done, [file] + rest, read);
    assert done + [file] + rest == done + ([file] + rest);
  }

  /** When every file of `done` was read and `found` holds an unreadable one,
      the run stops inside `found` whatever follows it. */
  lemma StopsWithin(done: seq<Entry>, found: seq<Entry>, rest: seq<Entry>, read: ReadOracle)
    requires AllReadable(done, read) && ReadablePrefix(found, read) < |found|
    ensures ReadablePrefix(done + found + rest, read) == |done| + ReadablePrefix(found, read)
  {
    ReadablePrefixStopsInside(found, rest, read);
    ReadablePrefixPastReadable(done, found + rest, read);
    assert done + found + rest == done + (found + rest);
  }

  lemma PrefixOfConcat<T>(a: seq<T>, b: seq<T>, c: seq<T>, n: nat)
    requires n < |b|
    ensures (a + b + c)[..|a| + n] == a + b[..n] && (a + b + c)[|a| + n] == b[n]
  {
  }

  /** Reading stops at a failure in the first part, whatever follows it. */
  lemma {:induction false} ReadablePrefixStopsInside(a: seq<Entry>, b: seq<Entry>, read: ReadOracle)
    requires ReadablePrefix(a, read) < |a|
    ensures ReadablePrefix(a + b, read) == ReadablePrefix(a, read)
  {
    if read(a[0].path).Some? {
      assert (a + b)[1..] == a[1..] + b;
      ReadablePrefixStopsInside(a[1..], b, read);
    }
  }

  /** After a part that reads in full, reading goes on into what follows. */
  lemma {:induction false} ReadablePrefixPastReadable(a: seq<Entry>, b: seq<Entry>, read: ReadOracle)
    requires AllReadable(a, read)
    ensures ReadablePrefix(a + b, read) == |a| + ReadablePrefix(b, read)
  {
    if a == [] {
      assert a + b == b;
    } else {
      assert read(a[0].path).Some?;
      assert (a + b)[1..] == a[1..] + b;
      ReadablePrefixPastReadable(a[1..], b, read);
    }
  }

  /** The frames of files that can all be read, one per file, in order. */
  function Frames(files: seq<Entry>, read: ReadOracle, rel: RelativeOracle): seq<string>
    requires AllReadable(files, read)
  {
    seq(|files|, k requires 0 <= k < |files| => Frame(rel(files[k].path), read(files[k].path).value))
  }

  lemma FramesAppend(a: seq<Entry>, b: seq<Entry>, read: ReadOracle, rel: RelativeOracle)
    requires AllReadable(a, read) && AllReadable(b, read)
    ensures AllReadable(a + b, read)
    ensures Frames(a + b, read, rel) == Frames(a, read, rel) + Frames(b, read, rel)
  {
    assert forall k | 0 <= k < |a + b| :: (a + b)[k] == if k < |a| then a[k] else b[k - |a|];
  }
}
