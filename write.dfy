/** Serialising the merged profile (`MassifFile::write`, `writeList`,
    `writeSnapshot`): the output lines, the sort by time, and the proof that
    the output reads back as what was written. */
module MassifWrite {
  import opened MassifText
  import opened MassifParse

  /** The name line of the snapshot written at position `index`. */
  function TagLine(index: nat): string {
    "snapshot=" + NatToString(index)
  }

  /** What `writeSnapshot` writes: the marker, the fresh name, the marker,
      then the snapshot's body lines. */
  function Block(index: nat, snap: Snapshot): seq<string> {
    [Mark, TagLine(index), Mark] + snap.contents
  }

  /** The snapshot blocks, numbered by their position. */
  function Blocks(snaps: seq<Snapshot>): seq<string> {
    if snaps == [] then []
    else Blocks(snaps[..|snaps| - 1]) + Block(|snaps| - 1, snaps[|snaps| - 1])
  }

  /** The whole output file: the header lines, then the blocks. */
  function Render(headers: seq<string>, snaps: seq<Snapshot>): seq<string> {
    headers + Blocks(snaps)
  }

  /** The output loop of `write`: the header lines (`writeList`), then one
      block per snapshot numbered by the loop index (`writeSnapshot`). */
  method EmitLines(headers: seq<string>, snaps: seq<Snapshot>) returns (out: seq<string>)
    ensures out == Render(headers, snaps)
  {
    out := headers;
    var i := 0;
    while i < |snaps|
      invariant 0 <= i <= |snaps|
      invariant out == headers + Blocks(snaps[..i])
    {
      assert snaps[..i + 1][..i] == snaps[..i];
      out := out + Block(i, snaps[i]);
      i := i + 1;
    }
    assert snaps[..i] == snaps;
  }

  predicate SortedByTime(snaps: seq<Snapshot>) {
    forall a, b :: 0 <= a < b < |snaps| ==> snaps[a].time <= snaps[b].time
  }

  /** The order `std::sort` with `a->time < b->time` leaves: ascending by
      time and a permutation of the input (the order among equal times is
      not promised). */
  method SortByTime(s: seq<Snapshot>) returns (r: seq<Snapshot>)
    ensures SortedByTime(r)
    ensures multiset(r) == multiset(s)
  {
    r := s;
    var i := 0;
    while i < |r|
      invariant 0 <= i <= |r| == |s|
      invariant multiset(r) == multiset(s)
      invariant forall a, b :: 0 <= a < b < i ==> r[a].time <= r[b].time
    {
      var j := i;
      while j > 0 && r[j - 1].time > r[j].time
        invariant 0 <= j <= i
        invariant |r| == |s| && multiset(r) == multiset(s)
        invariant forall a, b :: 0 <= a < b <= i && a != j && b != j ==> r[a].time <= r[b].time
        invariant forall b :: j < b <= i ==> r[j].time < r[b].time
      {
        r := Swap(r, j - 1, j);
        j := j - 1;
      }
      i := i + 1;
    }
  }

  /** `s` with the neighbours at `i` and `j` exchanged. */
  function Swap(s: seq<Snapshot>, i: nat, j: nat): (r: seq<Snapshot>)
    requires i < j < |s|
    ensures |r| == |s| && r[i] == s[j] && r[j] == s[i]
    ensures forall k :: 0 <= k < |s| && k != i && k != j ==> r[k] == s[k]
    ensures multiset(r) == multiset(s)
  {
    s[i := s[j]][j := s[i]]
  }

  // ---------------------------------------------------------------------
  // Where each block lands in the output

  /** Position of block `i` inside `Blocks(snaps)`. */
  function BlockStart(snaps: seq<Snapshot>, i: nat): nat
    requires i <= |snaps|
  {
    if i == 0 then 0 else BlockStart(snaps, i - 1) + 3 + |snaps[i - 1].contents|
  }

  lemma {:induction false} BlocksLength(snaps: seq<Snapshot>)
    ensures |Blocks(snaps)| == BlockStart(snaps, |snaps|)
    decreases |snaps|
  {
    if snaps != [] {
      var n := |snaps| - 1;
      BlocksLength(snaps[..n]);
      BlockStartPrefix(snaps, n, n);
    }
  }

  lemma {:induction false} BlockStartPrefix(snaps: seq<Snapshot>, n: nat, i: nat)
    requires i <= n <= |snaps|
    ensures BlockStart(snaps[..n], i) == BlockStart(snaps, i)
  {
    if i > 0 {
      BlockStartPrefix(snaps, n, i - 1);
      assert snaps[..n][i - 1] == snaps[i - 1];
    }
  }

  /** Dense renumbering: block `i` of the output sits at `BlockStart(snaps, i)`,
      right after the blocks of the snapshots before it, and is `Block(i,
      snaps[i])`: named `snapshot=i` between two markers, then exactly the
      body of the `i`-th snapshot. */
  lemma {:induction false} BlockAt(snaps: seq<Snapshot>, i: nat)
    requires i < |snaps|
    ensures BlockStart(snaps, i + 1) <= |Blocks(snaps)|
    ensures Blocks(snaps)[BlockStart(snaps, i)..BlockStart(snaps, i + 1)] == Block(i, snaps[i])
    decreases |snaps|
  {
    var n := |snaps| - 1;
    var init := snaps[..n];
    BlocksLength(init);
    BlockStartPrefix(snaps, n, n);
    if i < n {
      BlockAt(init, i);
      BlockStartPrefix(snaps, n, i);
      BlockStartPrefix(snaps, n, i + 1);
      assert init[i] == snaps[i];
    }
  }

  /** The name line of block `i` reads back as the number `i`. */
  lemma TagLineNumber(snaps: seq<Snapshot>, i: nat)
    requires i < |snaps|
    ensures BlockStart(snaps, i) + 2 < |Blocks(snaps)|
    ensures Blocks(snaps)[BlockStart(snaps, i)] == Mark
    ensures Blocks(snaps)[BlockStart(snaps, i) + 1] == TagLine(i)
    ensures Blocks(snaps)[BlockStart(snaps, i) + 2] == Mark
    ensures DigitsValue(TagLine(i)[9..]) == i
  {
    BlockAt(snaps, i);
    var lo, hi := BlockStart(snaps, i), BlockStart(snaps, i + 1);
    var all, b := Blocks(snaps), Block(i, snaps[i]);
    assert all[lo..hi] == b;
    assert b[0] == Mark && b[1] == TagLine(i) && b[2] == Mark;
    assert all[lo] == b[0] && all[lo + 1] == b[1] && all[lo + 2] == b[2];
    var digits := NatToString(i);
    assert ("snapshot=" + digits)[9..] == digits;
  }

  // ---------------------------------------------------------------------
  // Reading the output back

  /** The name line is neither a keyword nor the marker, and the parser's
      `snapshot=\d+` search finds it. */
  lemma TagLineRecognised(index: nat)
    ensures !IsKeyword(TagLine(index)) && TagLine(index) != Mark
    ensures HasSnapshotTag(TagLine(index))
  {
    var t := TagLine(index);
    assert t[0] == 's' && Mark[0] == '#';
    assert t[..9] == "snapshot=";
    assert TagAt(t, "snapshot=", 0);
    FindTagLeftmost(t, "snapshot=", 0);
  }

  lemma MarkRecognised()
    ensures !IsKeyword(Mark)
  {
    assert Mark[0] == '#';
  }

  /** Starting at `Header` with nothing open, or inside a retained snapshot,
      one block closes what was open and leaves exactly `snap` open. */
  lemma RunBlock(s: Scan, index: nat, snap: Snapshot, ig: bool)
    requires (s.status == Header && s.open.None?) || (s.status == SnapshotContent && s.open.Some?)
    requires WellFormed(snap)
    ensures Run(s, Block(index, snap), ig) == Continue(Scan(SnapshotContent, Some(snap), s.headers, Close(s.open, s.snapshots)))
  {
    var title := [Mark, TagLine(index), Mark];
    MarkRecognised();
    TagLineRecognised(index);
    var s1 := s.(status := SnapshotMark, open := None, snapshots := Close(s.open, s.snapshots));
    var s2 := s1.(status := SnapshotName);
    var s3 := s2.(status := SnapshotContent, open := Some(Snapshot(0, [])));
    assert Run(s, title[..1], ig) == Continue(s1);
    assert title[..2][..1] == title[..1];
    assert Run(s, title[..2], ig) == Continue(s2);
    assert title[..3][..2] == title[..2];
    assert Run(s, title, ig) == Continue(s3);
    RunAppend(s, title, snap.contents, ig);
    RunBody(s3, snap.contents, ig);
    assert [] + snap.contents == snap.contents;
  }

  /** Where reading the blocks of `snaps` after the header lines `h` ends:
      in `Header` with nothing when there are none, otherwise inside the last
      snapshot with all the others kept. */
  function BlocksEnd(h: seq<string>, snaps: seq<Snapshot>): Scan {
    if snaps == [] then Scan(Header, None, h, [])
    else Scan(SnapshotContent, Some(snaps[|snaps| - 1]), h, snaps[..|snaps| - 1])
  }

  lemma WellFormedPrefix(snaps: seq<Snapshot>, n: nat)
    requires n <= |snaps| && AllWellFormed(snaps)
    ensures AllWellFormed(snaps[..n])
  {
    forall k | 0 <= k < n ensures WellFormed(snaps[..n][k]) {
      assert snaps[..n][k] == snaps[k];
    }
  }

  /** Closing the snapshot left open by the blocks of `snaps` keeps it. */
  lemma CloseBlocksEnd(h: seq<string>, snaps: seq<Snapshot>)
    requires AllWellFormed(snaps)
    ensures Close(BlocksEnd(h, snaps).open, BlocksEnd(h, snaps).snapshots) == snaps
  {
    if snaps != [] {
      var n := |snaps| - 1;
      var last := snaps[n];
      assert WellFormed(last);
      assert BlocksEnd(h, snaps) == Scan(SnapshotContent, Some(last), h, snaps[..n]);
      assert Close(Some(last), snaps[..n]) == snaps[..n] + [last];
      assert snaps[..n] + [last] == snaps;
    }
  }

  /** One more block, read where the blocks before it left off. */
  lemma RunNextBlock(h: seq<string>, snaps: seq<Snapshot>, ig: bool)
    requires snaps != [] && AllWellFormed(snaps)
    ensures Run(BlocksEnd(h, snaps[..|snaps| - 1]), Block(|snaps| - 1, snaps[|snaps| - 1]), ig)
            == Continue(BlocksEnd(h, snaps))
  {
    var n := |snaps| - 1;
    var init := snaps[..n];
    WellFormedPrefix(snaps, n);
    CloseBlocksEnd(h, init);
    assert WellFormed(snaps[n]);
    RunBlock(BlocksEnd(h, init), n, snaps[n], ig);
  }

  /** The blocks of retained snapshots, read from `Header` with nothing open,
      close every snapshot but the last and leave the last one open. */
  lemma {:induction false} RunBlocks(h: seq<string>, snaps: seq<Snapshot>, ig: bool)
    requires AllWellFormed(snaps)
    ensures Run(Scan(Header, None, h, []), Blocks(snaps), ig) == Continue(BlocksEnd(h, snaps))
    decreases |snaps|
  {
    if snaps != [] {
      var n := |snaps| - 1;
      var init := snaps[..n];
      WellFormedPrefix(snaps, n);
      RunBlocks(h, init, ig);
      RunAppend(Scan(Header, None, h, []), Blocks(init), Block(n, snaps[n]), ig);
      RunNextBlock(h, snaps, ig);
    }
  }

  /** Header lines alone take the parser to `Header` and are all kept. */
  lemma {:induction false} RunHeaderBlock(h: seq<string>)
    requires h != [] && AllKeywords(h)
    ensures Run(Start, h, false) == Continue(Scan(Header, None, h, []))
    decreases |h|
  {
    var init := h[..|h| - 1];
    if init != [] {
      RunHeaderBlock(init);
    }
    assert init + [h[|h| - 1]] == h;
  }

  /** Round trip: the output of `write`, read back as the first file of a new
      merge, gives exactly the header lines and the snapshots that were
      written, in the same order. So merging a combined file alone
      reproduces it. */
  lemma RenderRoundTrip(h: seq<string>, snaps: seq<Snapshot>)
    requires h != [] && AllKeywords(h)
    requires AllWellFormed(snaps)
    ensures Parse(Render(h, snaps), false) == Parsed(0, h, snaps)
  {
    RunHeaderBlock(h);
    RunAppend(Start, h, Blocks(snaps), false);
    RunBlocks(h, snaps, false);
    CloseBlocksEnd(h, snaps);
  }

  /** No line of the blocks is a keyword line. */
  lemma {:induction false} BlocksNoKeyword(snaps: seq<Snapshot>)
    requires AllWellFormed(snaps)
    ensures NoKeyword(Blocks(snaps))
    decreases |snaps|
  {
    if snaps != [] {
      var n := |snaps| - 1;
      BlocksNoKeyword(snaps[..n]);
      MarkRecognised();
      TagLineRecognised(n);
      var b := Block(n, snaps[n]);
      forall k | 0 <= k < |b| ensures !IsKeyword(b[k]) {
        if k >= 3 {
          assert b[k] == snaps[n].contents[k - 3];
        }
      }
    }
  }

  /** Without header lines the output does not read back: its snapshots all
      precede the first keyword line, so the parser drops them. */
  lemma HeaderlessRenderReadsEmpty(snaps: seq<Snapshot>, ig: bool)
    requires AllWellFormed(snaps)
    ensures Parse(Render([], snaps), ig) == Parsed(0, [], [])
  {
    BlocksNoKeyword(snaps);
    assert Render([], snaps) == Blocks(snaps);
    NoKeywordFileIgnored(Blocks(snaps), ig);
  }
}
