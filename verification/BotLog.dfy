/** Size-based rotation of the scanner log (dht-core/src/bot_log.rs). */
module BotLog {
  import opened Primitives

  const MAX_LOG_FILE_SIZE: nat := 10 * 1024 * 1024
  const MAX_ROTATED_FILES: nat := 3
  const LINE_END: Bytes := [10]

  /** The log's files by suffix number: 0 is the current file, i is `.i`; contents as bytes. */
  type Files = map<nat, Bytes>

  /** fs::rename, whose error on a missing source is ignored. */
  function Renamed(files: Files, from: nat, to: nat): Files {
    if from in files && from != to then (files - {from})[to := files[from]] else files
  }

  /** The renames i-1 -> i, ..., 0 -> 1, in that order. */
  function Shifted(files: Files, i: nat): Files
    decreases i
  {
    if i == 0 then files else Shifted(Renamed(files, i - 1, i), i - 1)
  }

  predicate Full(files: Files) { 0 in files && |files[0]| >= MAX_LOG_FILE_SIZE }

  function Rotated(files: Files): Files {
    if Full(files) then Shifted(files, MAX_ROTATED_FILES)[0 := []] else files
  }

  function ContentOf(files: Files, i: nat): Bytes { if i in files then files[i] else [] }

  function Logged(files: Files, line: Bytes): Files {
    var ready := Rotated(files);
    ready[0 := ContentOf(ready, 0) + line + LINE_END]
  }

  class BotLogger {
    var files: Files

    constructor ()
      ensures files == map[]
    {
      files := map[];
    }

    method RotateIfNeeded()
      modifies this
      ensures files == Rotated(old(files))
    {
      if 0 !in files || |files[0]| < MAX_LOG_FILE_SIZE {
        return;
      }
      var i := MAX_ROTATED_FILES;
      while i >= 1
        invariant 0 <= i <= MAX_ROTATED_FILES
        invariant Shifted(files, i) == Shifted(old(files), MAX_ROTATED_FILES)
      {
        files := Renamed(files, i - 1, i);
        i := i - 1;
      }
      files := files[0 := []];
    }

    method Log(line: Bytes)
      modifies this
      ensures files == Logged(old(files), line)
    {
      RotateIfNeeded();
      if 0 !in files {
        files := files[0 := []];
      }
      files := files[0 := files[0] + line + LINE_END];
    }
  }

  // ----- What a rotation keeps

  /** Rotated files are full ones, with no gap between them, and there are at most three. */
  ghost predicate Tidy(files: Files) {
    && (forall i :: i in files ==> i <= MAX_ROTATED_FILES)
    && (forall i :: i in files && i > 0 ==> i - 1 in files)
    && (forall i :: i in files && i > 0 ==> |files[i]| >= MAX_LOG_FILE_SIZE)
  }

  lemma RenameMoves(files: Files, from: nat, to: nat)
    requires from != to
    ensures var r := Renamed(files, from, to);
            && (from !in files ==> r == files)
            && (from in files ==>
                  && r.Keys == files.Keys - {from} + {to} && r[to] == files[from]
                  && forall k :: k in files && k != from && k != to ==> r[k] == files[k])
  {}

  /** The renames from i down, when no name up to i follows a missing one: what name k holds afterwards. */
  lemma {:induction false} ShiftMoves(files: Files, i: nat, k: nat)
    requires forall j: nat :: j < i && j + 1 in files ==> j in files
    ensures var r := Shifted(files, i);
            && (k > i || i == 0 ==> (k in r <==> k in files) && (k in r ==> r[k] == files[k]))
            && (0 < k <= i ==> (k in r <==> k - 1 in files) && (k in r ==> r[k] == files[k - 1]))
            && (k == 0 < i ==> k !in r)
    decreases i
  {
    hide Renamed;
    if i > 0 {
      RenameMoves(files, i - 1, i);
      ShiftMoves(Renamed(files, i - 1, i), i - 1, k);
    }
  }

  /** Every content moves to the next older name, the oldest is dropped, and the current file starts empty. */
  lemma RotationMoves(files: Files)
    requires Tidy(files) && Full(files)
    ensures var r := Rotated(files);
            && Tidy(r) && 0 in r && ContentOf(r, 0) == []
            && (forall i :: 0 < i <= MAX_ROTATED_FILES ==> ContentOf(r, i) == ContentOf(files, i - 1))
            && (forall i :: 0 < i <= MAX_ROTATED_FILES ==> (i in r <==> i - 1 in files))
  {
    hide Shifted;
    forall i: nat
      ensures i in Rotated(files) <==> i == 0 || (i <= MAX_ROTATED_FILES && i - 1 in files)
      ensures i in Rotated(files) ==> Rotated(files)[i] == if i == 0 then [] else files[i - 1]
    {
      ShiftMoves(files, MAX_ROTATED_FILES, i);
    }
    hide Rotated;
  }

  // ----- Runs

  /** Everything a run logs, line ends included. */
  function Text(lines: seq<Bytes>): Bytes
    decreases |lines|
  {
    if lines == [] then [] else Text(lines[..|lines| - 1]) + lines[|lines| - 1] + LINE_END
  }

  /** The files after logging the lines in order, from none. */
  function After(lines: seq<Bytes>): Files
    decreases |lines|
  {
    if lines == [] then map[] else Logged(After(lines[..|lines| - 1]), lines[|lines| - 1])
  }

  /** Where each file begins in the run: file i holds the lines from starts[i] up to the start of file i-1. */
  ghost predicate Holds(files: Files, lines: seq<Bytes>, starts: seq<nat>) {
    && |starts| == MAX_ROTATED_FILES + 1
    && starts[3] <= starts[2] <= starts[1] <= starts[0] <= |lines|
    && ContentOf(files, 0) == Text(lines[starts[0]..])
    && ContentOf(files, 1) == Text(lines[starts[1]..starts[0]])
    && ContentOf(files, 2) == Text(lines[starts[2]..starts[1]])
    && ContentOf(files, 3) == Text(lines[starts[3]..starts[2]])
    && (starts[3] > 0 ==> 3 in files)
  }

  lemma TextOneMore(lines: seq<Bytes>, line: Bytes, from: nat)
    requires from <= |lines|
    ensures Text((lines + [line])[from..]) == Text(lines[from..]) + line + LINE_END
  {
    assert (lines + [line])[from..] == lines[from..] + [line];
    assert (lines[from..] + [line])[..|lines| - from] == lines[from..];
  }

  lemma HoldsAfterRotation(files: Files, lines: seq<Bytes>, starts: seq<nat>)
    requires Tidy(files) && Full(files) && Holds(files, lines, starts)
    ensures Holds(Rotated(files), lines, [|lines|, starts[0], starts[1], starts[2]])
  {
    hide Rotated, Text, Full;
    var r := Rotated(files);
    RotationMoves(files);
    hide Tidy;
    TextNothing();
    assert lines[|lines|..] == [];
    assert lines[starts[0]..|lines|] == lines[starts[0]..];
    assert ContentOf(r, 1) == ContentOf(files, 0);
    assert ContentOf(r, 2) == ContentOf(files, 1);
    assert ContentOf(r, 3) == ContentOf(files, 2);
    if starts[2] > 0 && 2 !in files {
      NoGapText(files, lines, starts);
    }
  }

  lemma TextNothing()
    ensures Text([]) == []
  {}

  lemma {:induction false} TextNonempty(lines: seq<Bytes>)
    requires lines != []
    ensures Text(lines) != []
  {}

  /** With file 2 missing, no line has gone past file 1. */
  lemma NoGapText(files: Files, lines: seq<Bytes>, starts: seq<nat>)
    requires Holds(files, lines, starts) && 2 !in files && (3 in files ==> 2 in files)
    ensures starts[2] == 0
  {
    hide Text;
    if starts[3] < starts[2] {
      TextNonempty(lines[starts[3]..starts[2]]);
    }
  }

  /** No file is as long as the limit plus one line, for any bound on the lines. */
  ghost predicate Bounded(files: Files, longest: nat) {
    forall i :: i in files ==> |files[i]| < MAX_LOG_FILE_SIZE + longest
  }

  lemma RotatedKeeps(files: Files, lines: seq<Bytes>, starts: seq<nat>, longest: nat) returns (next: seq<nat>)
    requires Tidy(files) && Holds(files, lines, starts) && Bounded(files, longest)
    ensures var r := Rotated(files);
            Tidy(r) && Holds(r, lines, next) && Bounded(r, longest) && |ContentOf(r, 0)| < MAX_LOG_FILE_SIZE
  {
    hide Text, Shifted;
    next := starts;
    if Full(files) {
      next := [|lines|, starts[0], starts[1], starts[2]];
      HoldsAfterRotation(files, lines, starts);
      RotationMoves(files);
      hide Rotated, Holds;
      var r := Rotated(files);
      forall i | i in r
        ensures |r[i]| < MAX_LOG_FILE_SIZE + longest
      {
        assert r[i] == if i == 0 then [] else ContentOf(files, i - 1);
      }
    }
  }

  lemma LoggedKeeps(files: Files, lines: seq<Bytes>, starts: seq<nat>, line: Bytes, longest: nat)
    returns (next: seq<nat>)
    requires Tidy(files) && Holds(files, lines, starts) && Bounded(files, longest) && |line| + 1 <= longest
    ensures Tidy(Logged(files, line)) && Holds(Logged(files, line), lines + [line], next) && Bounded(Logged(files, line), longest)
  {
    hide Text, Rotated;
    next := RotatedKeeps(files, lines, starts, longest);
    TextOneMore(lines, line, next[0]);
    assert (lines + [line])[next[1]..next[0]] == lines[next[1]..next[0]];
    assert (lines + [line])[next[2]..next[1]] == lines[next[2]..next[1]];
    assert (lines + [line])[next[3]..next[2]] == lines[next[3]..next[2]];
  }

  lemma {:induction false} RunKeeps(lines: seq<Bytes>, longest: nat) returns (starts: seq<nat>)
    requires forall i :: 0 <= i < |lines| ==> |lines[i]| + 1 <= longest
    ensures Tidy(After(lines)) && Holds(After(lines), lines, starts) && Bounded(After(lines), longest)
    decreases |lines|
  {
    if lines == [] {
      starts := [0, 0, 0, 0];
    } else {
      hide Tidy, Holds, Bounded;
      var init, last := lines[..|lines| - 1], lines[|lines| - 1];
      var before := RunKeeps(init, longest);
      starts := LoggedKeeps(After(init), init, before, last, longest);
      assert lines == init + [last];
    }
  }

  lemma {:induction false} TextJoins(a: seq<Bytes>, b: seq<Bytes>)
    ensures Text(a + b) == Text(a) + Text(b)
    decreases |b|
  {
    if b == [] {
      assert a + b == a;
    } else {
      var init, last := b[..|b| - 1], b[|b| - 1];
      TextJoins(a, init);
      assert (a + b)[..|a + b| - 1] == a + init;
    }
  }

  /** The retained log: oldest file first, current file last. */
  function Retained(files: Files): Bytes {
    ContentOf(files, 3) + ContentOf(files, 2) + ContentOf(files, 1) + ContentOf(files, 0)
  }

  /** After every run the files, oldest first, are exactly the text of the last lines of the run, whole lines only;
      anything is missing only once three full files are kept; and no file exceeds the limit by more than one line. */
  lemma RetainsSuffix(lines: seq<Bytes>, longest: nat) returns (from: nat)
    requires forall i :: 0 <= i < |lines| ==> |lines[i]| + 1 <= longest
    ensures from <= |lines|
    ensures Retained(After(lines)) == Text(lines[from..])
    ensures Text(lines) == Text(lines[..from]) + Retained(After(lines))
    ensures from > 0 ==> |Retained(After(lines))| >= 3 * 10_485_760
    ensures forall i :: i in After(lines) ==> i <= 3 && |After(lines)[i]| < 10_485_760 + longest
  {
    hide Text, After;
    var files := After(lines);
    var s := RunKeeps(lines, longest);
    from := s[3];
    TextJoins(lines[s[3]..s[2]], lines[s[2]..s[1]]);
    TextJoins(lines[s[3]..s[1]], lines[s[1]..s[0]]);
    TextJoins(lines[s[3]..s[0]], lines[s[0]..]);
    assert lines[s[3]..s[2]] + lines[s[2]..s[1]] == lines[s[3]..s[1]];
    assert lines[s[3]..s[1]] + lines[s[1]..s[0]] == lines[s[3]..s[0]];
    assert lines[s[3]..s[0]] + lines[s[0]..] == lines[from..];
    TextJoins(lines[..from], lines[from..]);
    assert lines[..from] + lines[from..] == lines;
    if from > 0 {
      assert 3 in files && 2 in files && 1 in files;
    }
  }
}
