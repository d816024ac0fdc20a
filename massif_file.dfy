/** The accumulator `MassifFile`: it reads Massif files one after another
    into one header block and one snapshot collection, then writes them out
    sorted by time and renumbered. */
module MassifCombine {
  import opened MassifText
  import opened MassifParse
  import opened MassifWrite

  /** The accumulated header lines and snapshots. */
  datatype Merged = Merged(headers: seq<string>, snapshots: seq<Snapshot>)

  /** The accumulator after an `add`, with the code it returned. */
  datatype Added = Added(merged: Merged, code: int)

  /** An input file: its lines, or `None` when it cannot be opened. */
  type File = Option<seq<string>>

  /** `add(path)`: a file that cannot be opened returns 1 and adds nothing;
      otherwise it is read with its header lines ignored as soon as the
      accumulator holds some. */
  function AddOne(m: Merged, file: File): Added {
    match file
    case None => Added(m, 1)
    case Some(lines) =>
      var p := Parse(lines, |m.headers| > 0);
      Added(Merged(m.headers + p.headers, m.snapshots + p.snapshots), p.code)
  }

  /** `add(first, last)`: every file is added in turn, failures included; the
      code is that of the last file that failed, 0 when none did. */
  function AddMany(m: Merged, files: seq<File>): Added {
    if files == [] then Added(m, 0)
    else
      var prev := AddMany(m, files[..|files| - 1]);
      var r := AddOne(prev.merged, files[|files| - 1]);
      Added(r.merged, if r.code != 0 then r.code else prev.code)
  }

  // ---------------------------------------------------------------------
  // Reference definitions for what a merge keeps

  /** The keyword lines of the first opened file that has any. */
  function FirstHeaders(files: seq<File>): seq<string> {
    if files == [] then []
    else
      var h := FirstHeaders(files[..|files| - 1]);
      if h != [] then h
      else match files[|files| - 1]
        case None => []
        case Some(lines) => Keywords(lines)
  }

  /** The snapshots of every opened file, file after file. */
  function AllSnapshots(files: seq<File>): seq<Snapshot> {
    if files == [] then []
    else AllSnapshots(files[..|files| - 1]) + match files[|files| - 1]
      case None => []
      case Some(lines) => Parse(lines, false).snapshots
  }

  predicate Opened(files: seq<File>) {
    forall k :: 0 <= k < |files| ==> files[k].Some?
  }

  // ---------------------------------------------------------------------
  // Lemmas about a merge

  /** Adding a range of files returns 0 exactly when every file could be
      opened, and 1 otherwise (reading an opened file never fails). */
  lemma {:induction false} AddManyCode(m: Merged, files: seq<File>)
    ensures AddMany(m, files).code == if Opened(files) then 0 else 1
    decreases |files|
  {
    if files != [] {
      var init := files[..|files| - 1];
      AddManyCode(m, init);
      var last := files[|files| - 1];
      if last.Some? {
        ParseSucceeds(last.value, |AddMany(m, init).merged.headers| > 0);
      }
      assert Opened(files) == (Opened(init) && last.Some?) by {
        if Opened(init) && last.Some? {
          forall k | 0 <= k < |files| ensures files[k].Some? {
            if k < |init| { assert files[k] == init[k]; }
          }
        }
        if Opened(files) {
          forall k | 0 <= k < |init| ensures init[k].Some? {
            assert files[k] == init[k];
          }
        }
      }
    }
  }

  /** One `add`: headers already held stay; otherwise the file's keyword
      lines become the headers. */
  lemma AddOneHeaders(m: Merged, file: File)
    ensures AddOne(m, file).merged.headers ==
      if m.headers != [] || file.None? then m.headers else Keywords(file.value)
  {
    if file.Some? {
      ParseHeaders(file.value, |m.headers| > 0);
    }
  }

  /** Header single capture: the accumulator keeps the headers it already
      holds; if it holds none, it takes the keyword lines of the first opened
      file that has any, and nothing from any later file. */
  lemma {:induction false} AddManyHeaders(m: Merged, files: seq<File>)
    ensures AddMany(m, files).merged.headers == if m.headers != [] then m.headers else FirstHeaders(files)
    decreases |files|
  {
    if files != [] {
      var init := files[..|files| - 1];
      AddManyHeaders(m, init);
      AddOneHeaders(AddMany(m, init).merged, files[|files| - 1]);
    }
  }

  /** Every snapshot of every opened file is kept, file after file, in the
      order each file lists them; headers do not influence them. */
  lemma {:induction false} AddManySnapshots(m: Merged, files: seq<File>)
    ensures AddMany(m, files).merged.snapshots == m.snapshots + AllSnapshots(files)
    decreases |files|
  {
    if files != [] {
      var init := files[..|files| - 1];
      AddManySnapshots(m, init);
      var prev := AddMany(m, init).merged;
      match files[|files| - 1]
      case None =>
      case Some(lines) =>
        ParseSnapshotsIgnoreHeaderFlag(lines, |prev.headers| > 0);
    }
  }

  /** What `MassifFile` always holds: keyword header lines and retained
      snapshots only. */
  predicate Sound(m: Merged) {
    AllKeywords(m.headers) && AllWellFormed(m.snapshots)
  }

  /** Appending keyword lines and retained snapshots keeps an accumulator sound. */
  lemma AppendSound(m: Merged, hs: seq<string>, ss: seq<Snapshot>)
    requires Sound(m) && AllKeywords(hs) && AllWellFormed(ss)
    ensures Sound(Merged(m.headers + hs, m.snapshots + ss))
  {
    var r := Merged(m.headers + hs, m.snapshots + ss);
    forall k | 0 <= k < |r.headers| ensures IsKeyword(r.headers[k]) {
      if k >= |m.headers| { assert r.headers[k] == hs[k - |m.headers|]; }
    }
    forall k | 0 <= k < |r.snapshots| ensures WellFormed(r.snapshots[k]) {
      if k >= |m.snapshots| { assert r.snapshots[k] == ss[k - |m.snapshots|]; }
    }
  }

  lemma AddOneSound(m: Merged, file: File)
    requires Sound(m)
    ensures Sound(AddOne(m, file).merged)
  {
    if file.Some? {
      ParseHeaders(file.value, |m.headers| > 0);
      ParseSucceeds(file.value, |m.headers| > 0);
      var p := Parse(file.value, |m.headers| > 0);
      AppendSound(m, p.headers, p.snapshots);
    }
  }

  /** Re-merge: the combined output, added alone to an empty accumulator,
      gives back exactly the headers and the snapshots that were written. */
  lemma RemergeReproduces(h: seq<string>, snaps: seq<Snapshot>)
    requires h != [] && Sound(Merged(h, snaps))
    ensures AddMany(Merged([], []), [Some(Render(h, snaps))]) == Added(Merged(h, snaps), 0)
  {
    RenderRoundTrip(h, snaps);
    assert [Some(Render(h, snaps))][..0] == [];
  }

  /** A file made only of snapshot blocks, with no header line, adds
      nothing: all its lines come before any keyword line. */
  lemma HeaderlessFileAddsNothing(m: Merged, snaps: seq<Snapshot>)
    requires AllWellFormed(snaps)
    ensures AddOne(m, Some(Blocks(snaps))) == Added(m, 0)
  {
    HeaderlessRenderReadsEmpty(snaps, |m.headers| > 0);
    assert Render([], snaps) == Blocks(snaps);
  }

  /** A sort that only permutes keeps every snapshot retained. */
  lemma PermutedWellFormed(s: seq<Snapshot>, r: seq<Snapshot>)
    requires AllWellFormed(s) && multiset(r) == multiset(s)
    ensures AllWellFormed(r)
  {
    forall k | 0 <= k < |r| ensures WellFormed(r[k]) {
      assert r[k] in multiset(r);
      var j :| 0 <= j < |s| && s[j] == r[k];
    }
  }

  // ---------------------------------------------------------------------
  // The accumulator object

  class MassifFile {
    var headers: seq<string>
    var snapshots: seq<Snapshot>

    function State(): Merged
      reads this
    {
      Merged(headers, snapshots)
    }

    ghost predicate Valid()
      reads this
    {
      Sound(State())
    }

    constructor ()
      ensures Valid() && headers == [] && snapshots == []
    {
      headers, snapshots := [], [];
    }

    /** The constructor that adds a list of files straight away. */
    constructor FromFiles(files: seq<File>)
      ensures Valid() && State() == AddMany(Merged([], []), files).merged
    {
      headers, snapshots := [], [];
      new;
      var _ := AddAll(files);
    }

    /** `appendFile`: read one file line by line through the five-state
        machine, pushing header lines and closed snapshots into the fields.
        The result is what `Parse` says, error returns included. */
    method AppendFile(file: File, ignoreHeader: bool) returns (code: int)
      modifies this
      ensures file.None? ==> code == 1 && headers == old(headers) && snapshots == old(snapshots)
      ensures file.Some? ==>
        var p := Parse(file.value, ignoreHeader);
        code == p.code && headers == old(headers) + p.headers && snapshots == old(snapshots) + p.snapshots
    {
      if file.None? {
        return 1;
      }
      var lines := file.value;
      var status := NoLine;
      var snapshot: Option<Snapshot> := None;
      ghost var h0, s0 := headers, snapshots;
      ghost var scan := Start;
      var i := 0;
      while i < |lines|
        invariant 0 <= i <= |lines|
        invariant Run(Start, lines[..i], ignoreHeader) == Continue(scan)
        invariant status == scan.status && snapshot == scan.open
        invariant headers == h0 + scan.headers && snapshots == s0 + scan.snapshots
      {
        var str := lines[i];
        assert lines[..i + 1][..i] == lines[..i];
        ghost var next := Step(scan, str, ignoreHeader);
        if IsKeyword(str) {
          status := Header;
          if !ignoreHeader {
            headers := headers + [str];
          }
        } else if (status == Header || status == SnapshotContent) && str == Mark {
          status := SnapshotMark;
          if snapshot.Some? && |snapshot.value.contents| > 0 {
            snapshots := snapshots + [snapshot.value];
          }
          snapshot := None;
        } else if status == SnapshotMark && HasSnapshotTag(str) {
          status := SnapshotName;
        } else if status == SnapshotName && str == Mark {
          status := SnapshotContent;
          if snapshot.None? {
            snapshot := Some(Snapshot(0, []));
          } else {
            // found a new snapshot while another is still open
            AbortIsFinal(Start, lines, i, ignoreHeader);
            return 2;
          }
        } else if status == SnapshotContent {
          if snapshot.None? {
            // a body line with no open snapshot
            AbortIsFinal(Start, lines, i, ignoreHeader);
            return 2;
          } else {
            snapshot := Some(AddLine(snapshot.value, str));
          }
        }
        scan := next.scan;
        i := i + 1;
      }
      assert lines[..i] == lines;
      if snapshot.Some? && |snapshot.value.contents| > 0 {
        snapshots := snapshots + [snapshot.value];
      }
      code := 0;
    }

    /** `add(path)`: headers are taken from this file only while none are held. */
    method Add(file: File) returns (code: int)
      requires Valid()
      modifies this
      ensures Valid()
      ensures Added(State(), code) == AddOne(old(State()), file)
      ensures code == if file.None? then 1 else 0
      ensures headers == if old(headers) == [] && file.Some? then Keywords(file.value) else old(headers)
    {
      ghost var before := State();
      code := AppendFile(file, |headers| > 0);
      AddOneSound(before, file);
      if file.Some? {
        ParseSucceeds(file.value, |before.headers| > 0);
        ParseHeaders(file.value, |before.headers| > 0);
      }
    }

    /** `add(first, last)`: add every file, remembering the last failure. */
    method AddAll(files: seq<File>) returns (ret: int)
      requires Valid()
      modifies this
      ensures Valid()
      ensures Added(State(), ret) == AddMany(old(State()), files)
      ensures ret == if Opened(files) then 0 else 1
    {
      ghost var start := State();
      ret := 0;
      var i := 0;
      while i < |files|
        invariant 0 <= i <= |files| && Valid()
        invariant Added(State(), ret) == AddMany(start, files[..i])
      {
        assert files[..i + 1][..i] == files[..i];
        var r := Add(files[i]);
        if r != 0 {
          ret := r;
        }
        i := i + 1;
      }
      assert files[..i] == files;
      AddManyCode(start, files);
    }

    /** `write(path)`: refuse when there is nothing to write; otherwise sort
        the snapshots by time and produce the output lines (`canOpen` is
        whether the output file could be created). */
    method Write(canOpen: bool) returns (code: int, out: seq<string>)
      requires Valid()
      modifies this
      ensures Valid() && headers == old(headers)
      ensures old(headers) == [] && old(snapshots) == [] ==>
        code == -1 && out == [] && snapshots == old(snapshots)
      ensures !(old(headers) == [] && old(snapshots) == []) ==>
        SortedByTime(snapshots) && multiset(snapshots) == multiset(old(snapshots))
        && code == (if canOpen then 0 else 1)
        && out == (if canOpen then Render(headers, snapshots) else [])
    {
      if |headers| <= 0 && |snapshots| <= 0 {
        return -1, [];
      }
      ghost var unsorted := snapshots;
      snapshots := SortByTime(snapshots);
      PermutedWellFormed(unsorted, snapshots);
      if !canOpen {
        return 1, [];
      }
      out := EmitLines(headers, snapshots);
      code := 0;
    }
  }
}
