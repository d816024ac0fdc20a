/** The line-classifying parser of one Massif file (`MassifFile::appendFile`),
    as a pure state machine over the file's lines, and what it guarantees. */
module MassifParse {
  import opened MassifText

  /** One heap-profile sample: its timestamp and its raw body lines. */
  datatype Snapshot = Snapshot(time: nat, contents: seq<string>)

  /** The kind of the last recognised line (the `LastLine` enumeration);
      `NoLine` is the initial `NONE`. */
  datatype LastLine = Header | SnapshotMark | SnapshotName | SnapshotContent | NoLine

  /** Parser state: the last line kind, the open snapshot (`None` is the null
      pointer), and the header lines and closed snapshots this file has
      contributed so far. */
  datatype Scan = Scan(status: LastLine, open: Option<Snapshot>, headers: seq<string>, snapshots: seq<Snapshot>)

  /** `Abort` is one of the two early `return 2` exits, with the state reached. */
  datatype Outcome = Continue(scan: Scan) | Abort(scan: Scan)

  /** What reading one file gives: the return code and what it appended. */
  datatype Parsed = Parsed(code: int, headers: seq<string>, snapshots: seq<Snapshot>)

  const Start: Scan := Scan(NoLine, None, [], [])

  /** A body line joins the open snapshot; a `time=` match overwrites its time. */
  function AddLine(snap: Snapshot, line: string): Snapshot {
    Snapshot(match TimeMatch(line) case Some(t) => t case None => snap.time, snap.contents + [line])
  }

  /** Closing the open snapshot keeps it only when it has body lines. */
  function Close(open: Option<Snapshot>, snapshots: seq<Snapshot>): seq<Snapshot> {
    if open.Some? && |open.value.contents| > 0 then snapshots + [open.value] else snapshots
  }

  /** One iteration of the `getline` loop, branch for branch. */
  function Step(s: Scan, line: string, ignoreHeader: bool): Outcome {
    if IsKeyword(line) then
      Continue(s.(status := Header, headers := if ignoreHeader then s.headers else s.headers + [line]))
    else if (s.status == Header || s.status == SnapshotContent) && line == Mark then
      Continue(s.(status := SnapshotMark, open := None, snapshots := Close(s.open, s.snapshots)))
    else if s.status == SnapshotMark && HasSnapshotTag(line) then
      Continue(s.(status := SnapshotName))
    else if s.status == SnapshotName && line == Mark then
      if s.open.None? then Continue(s.(status := SnapshotContent, open := Some(Snapshot(0, []))))
      else Abort(s.(status := SnapshotContent))
    else if s.status == SnapshotContent then
      if s.open.None? then Abort(s)
      else Continue(s.(open := Some(AddLine(s.open.value, line))))
    else
      Continue(s)
  }

  /** The loop over a sequence of lines, from state `s`. */
  function Run(s: Scan, lines: seq<string>, ignoreHeader: bool): Outcome
    decreases |lines|
  {
    if lines == [] then Continue(s)
    else
      match Run(s, lines[..|lines| - 1], ignoreHeader)
      case Abort(t) => Abort(t)
      case Continue(t) => Step(t, lines[|lines| - 1], ignoreHeader)
  }

  /** Reading a whole (opened) file: the loop, then the end-of-file close. */
  function Parse(lines: seq<string>, ignoreHeader: bool): Parsed {
    match Run(Start, lines, ignoreHeader)
    case Abort(t) => Parsed(2, t.headers, t.snapshots)
    case Continue(t) => Parsed(0, t.headers, Close(t.open, t.snapshots))
  }

  // ---------------------------------------------------------------------
  // Reference definitions the properties are stated with

  /** The time a snapshot with these body lines ends up with: the value of
      the last line matching `time=(\d+)`, 0 when none does. */
  function LastTime(lines: seq<string>): nat {
    if lines == [] then 0
    else match TimeMatch(lines[|lines| - 1])
      case Some(t) => t
      case None => LastTime(lines[..|lines| - 1])
  }

  /** The keyword lines of a file, in order. */
  function Keywords(lines: seq<string>): seq<string> {
    if lines == [] then []
    else Keywords(lines[..|lines| - 1]) + (if IsKeyword(lines[|lines| - 1]) then [lines[|lines| - 1]] else [])
  }

  predicate NoKeyword(lines: seq<string>) {
    forall k :: 0 <= k < |lines| ==> !IsKeyword(lines[k])
  }

  predicate AllKeywords(lines: seq<string>) {
    forall k :: 0 <= k < |lines| ==> IsKeyword(lines[k])
  }

  /** A possible body: no keyword line, no marker line, and the time that the
      last `time=` line gives. */
  predicate Body(snap: Snapshot) {
    NoKeyword(snap.contents)
    && (forall k :: 0 <= k < |snap.contents| ==> snap.contents[k] != Mark)
    && snap.time == LastTime(snap.contents)
  }

  /** What a retained snapshot looks like: a non-empty body. */
  predicate WellFormed(snap: Snapshot) {
    |snap.contents| > 0 && Body(snap)
  }

  predicate AllWellFormed(snaps: seq<Snapshot>) {
    forall k :: 0 <= k < |snaps| ==> WellFormed(snaps[k])
  }

  /** The invariant of every state the loop reaches: a snapshot is open in
      `SnapshotContent`, and only there or in `Header` (a keyword line inside
      a snapshot leaves it open); none is open in the other states. */
  predicate Consistent(s: Scan) {
    (s.status == SnapshotContent ==> s.open.Some?)
    && (s.open.Some? ==> (s.status == SnapshotContent || s.status == Header) && Body(s.open.value))
    && AllWellFormed(s.snapshots)
  }

  // ---------------------------------------------------------------------
  // Lemmas

  /** Reading `a + b` is reading `a`, then `b` from where `a` left off. */
  lemma {:induction false} RunAppend(s: Scan, a: seq<string>, b: seq<string>, ig: bool)
    ensures Run(s, a + b, ig) == match Run(s, a, ig) case Abort(t) => Abort(t) case Continue(t) => Run(t, b, ig)
    decreases |b|
  {
    if b == [] {
      assert a + b == a;
    } else {
      var b' := b[..|b| - 1];
      assert (a + b)[..|a + b| - 1] == a + b';
      assert (a + b)[|a + b| - 1] == b[|b| - 1];
      RunAppend(s, a, b', ig);
    }
  }

  /** Once the loop takes an error branch on line `i`, the remaining lines
      are not read: the whole run ends in that error, with the state reached
      at line `i`. */
  lemma AbortIsFinal(s: Scan, lines: seq<string>, i: nat, ig: bool)
    requires i < |lines| && Run(s, lines[..i + 1], ig).Abort?
    ensures Run(s, lines, ig) == Run(s, lines[..i + 1], ig)
  {
    RunAppend(s, lines[..i + 1], lines[i + 1..], ig);
    assert lines[..i + 1] + lines[i + 1..] == lines;
  }

  /** Every step from a consistent state continues (neither error branch is
      taken) and reaches a consistent state. */
  lemma StepConsistent(s: Scan, line: string, ig: bool)
    requires Consistent(s)
    ensures Step(s, line, ig).Continue? && Consistent(Step(s, line, ig).scan)
  {
    if !IsKeyword(line) && s.status == SnapshotContent && line != Mark {
      var snap := s.open.value;
      var next := AddLine(snap, line);
      assert next.contents[..|next.contents| - 1] == snap.contents;
      assert LastTime(next.contents) == next.time;
    }
  }

  lemma {:induction false} RunConsistent(s: Scan, lines: seq<string>, ig: bool)
    requires Consistent(s)
    ensures Run(s, lines, ig).Continue? && Consistent(Run(s, lines, ig).scan)
    decreases |lines|
  {
    if lines != [] {
      RunConsistent(s, lines[..|lines| - 1], ig);
      StepConsistent(Run(s, lines[..|lines| - 1], ig).scan, lines[|lines| - 1], ig);
    }
  }

  /** Both "error when handling file" returns are unreachable: reading an
      opened file always returns 0, and every snapshot it keeps is non-empty,
      free of keyword and marker lines, and timed by its last `time=` line. */
  lemma ParseSucceeds(lines: seq<string>, ig: bool)
    ensures Parse(lines, ig).code == 0
    ensures AllWellFormed(Parse(lines, ig).snapshots)
  {
    RunConsistent(Start, lines, ig);
  }

  /** The header lines a file contributes are its keyword lines, in order,
      or none at all when headers are ignored. */
  lemma {:induction false} RunHeaders(s: Scan, lines: seq<string>, ig: bool)
    ensures Run(s, lines, ig).Continue? ==>
              Run(s, lines, ig).scan.headers == s.headers + (if ig then [] else Keywords(lines))
    decreases |lines|
  {
    if lines != [] {
      RunHeaders(s, lines[..|lines| - 1], ig);
    }
  }

  lemma ParseHeaders(lines: seq<string>, ig: bool)
    ensures Parse(lines, ig).headers == if ig then [] else Keywords(lines)
    ensures AllKeywords(Parse(lines, ig).headers)
  {
    RunConsistent(Start, lines, ig);
    RunHeaders(Start, lines, ig);
    KeywordsAreKeywords(lines);
  }

  lemma {:induction false} KeywordsAreKeywords(lines: seq<string>)
    ensures AllKeywords(Keywords(lines))
    ensures |Keywords(lines)| <= |lines|
    decreases |lines|
  {
    if lines != [] {
      KeywordsAreKeywords(lines[..|lines| - 1]);
    }
  }

  /** The snapshots a file contributes do not depend on whether its header
      lines are kept. */
  lemma {:induction false} RunIgnoresHeaderFlag(s: Scan, lines: seq<string>, ig: bool)
    ensures Run(s, lines, ig).Continue? == Run(s.(headers := []), lines, false).Continue?
    ensures Run(s, lines, ig).scan.(headers := []) == Run(s.(headers := []), lines, false).scan.(headers := [])
    decreases |lines|
  {
    if lines != [] {
      RunIgnoresHeaderFlag(s, lines[..|lines| - 1], ig);
    }
  }

  lemma ParseSnapshotsIgnoreHeaderFlag(lines: seq<string>, ig: bool)
    ensures Parse(lines, ig).snapshots == Parse(lines, false).snapshots
  {
    RunIgnoresHeaderFlag(Start, lines, ig);
    assert Start.(headers := []) == Start;
  }

  /** Lines read before the first keyword line are dropped: the parser stays
      in its initial state, whatever they are (markers and `snapshot=` lines
      included). */
  lemma {:induction false} RunBeforeKeyword(lines: seq<string>, ig: bool)
    requires NoKeyword(lines)
    ensures Run(Start, lines, ig) == Continue(Start)
    decreases |lines|
  {
    if lines != [] {
      RunBeforeKeyword(lines[..|lines| - 1], ig);
    }
  }

  /** Hence a prefix without keyword lines contributes nothing ... */
  lemma LeadingLinesIgnored(prefix: seq<string>, rest: seq<string>, ig: bool)
    requires NoKeyword(prefix)
    ensures Parse(prefix + rest, ig) == Parse(rest, ig)
  {
    RunBeforeKeyword(prefix, ig);
    RunAppend(Start, prefix, rest, ig);
  }

  /** ... and a file without keyword lines contributes nothing at all. */
  lemma NoKeywordFileIgnored(lines: seq<string>, ig: bool)
    requires NoKeyword(lines)
    ensures Parse(lines, ig) == Parsed(0, [], [])
  {
    RunBeforeKeyword(lines, ig);
  }

  /** After a keyword line outside a snapshot body (state `Header`), lines
      that are neither keywords nor the marker are dropped and the open
      snapshot, if any, stays as it is. */
  lemma {:induction false} HeaderDropsLines(s: Scan, lines: seq<string>, ig: bool)
    requires s.status == Header
    requires NoKeyword(lines) && forall k :: 0 <= k < |lines| ==> lines[k] != Mark
    ensures Run(s, lines, ig) == Continue(s)
    decreases |lines|
  {
    if lines != [] {
      RunHeaders(s, lines[..|lines| - 1], ig);
      HeaderDropsLines(s, lines[..|lines| - 1], ig);
    }
  }

  /** Adding a line keeps a snapshot timed by its last `time=` line. */
  lemma AddLineTime(c: seq<string>, line: string)
    ensures AddLine(Snapshot(LastTime(c), c), line) == Snapshot(LastTime(c + [line]), c + [line])
  {
    assert (c + [line])[..|c|] == c;
  }

  /** One body line read in `SnapshotContent` is appended to the open snapshot. */
  lemma StepBody(t: Scan, c: seq<string>, line: string, ig: bool)
    requires t.status == SnapshotContent && t.open == Some(Snapshot(LastTime(c), c))
    requires !IsKeyword(line) && line != Mark
    ensures Step(t, line, ig) == Continue(t.(open := Some(Snapshot(LastTime(c + [line]), c + [line]))))
  {
    AddLineTime(c, line);
  }

  /** Body lines (no keyword, no marker) read while a snapshot is open in
      `SnapshotContent` are appended to it in order, and its time becomes the
      one the last `time=` line among all its lines gives. */
  lemma {:induction false} RunBody(s: Scan, lines: seq<string>, ig: bool)
    requires s.status == SnapshotContent && s.open.Some? && Body(s.open.value)
    requires NoKeyword(lines) && forall k :: 0 <= k < |lines| ==> lines[k] != Mark
    ensures var contents := s.open.value.contents + lines;
            Run(s, lines, ig) == Continue(s.(open := Some(Snapshot(LastTime(contents), contents))))
    decreases |lines|
  {
    if lines == [] {
      assert s.open.value.contents + lines == s.open.value.contents;
    } else {
      var init := lines[..|lines| - 1];
      var last := lines[|lines| - 1];
      assert !IsKeyword(last) && last != Mark;
      RunBody(s, init, ig);
      var c := s.open.value.contents + init;
      var t := s.(open := Some(Snapshot(LastTime(c), c)));
      assert Run(s, lines, ig) == Step(t, last, ig);
      StepBody(t, c, last, ig);
      assert c + [last] == s.open.value.contents + lines;
    }
  }
}
