/** Random-access text files (a text file whose aux type, the record length, is
    nonzero). Their blocks may be sparse, so the file is shown as a list of
    TextBuffers, one per contiguous run of allocated blocks, each tagged with the
    logical block at which its run starts. `readIndexBlock` walks one index
    block; the functions here state what that walk and the walks of sapling and
    tree files built on it produce. */
module RandomAccessText {
  import opened Util
  import opened Blocks
  import opened StorageTree

  /** A contiguous run of a random-access text file: its bytes, the record length, and the logical
      block its first byte belongs to. */
  datatype TextBuffer = TextBuffer(buffer: seq<byte>, reclen: int, firstLogicalBlock: int)

  /** What `readIndexBlock` threads from entry to entry: the pending run's addresses, the buffers
      emitted so far, and the logical block of the next entry. */
  datatype Scanner = Scanner(addresses: seq<BlockNo>, buffers: seq<TextBuffer>, logicalBlock: int)

  const START := Scanner([], [], 0)

  /** Emits the pending run, if any, as one buffer tagged with the logical block of its first entry. */
  function Flush(disk: Disk, reclen: int, c: Scanner): Scanner
  {
    if |c.addresses| > 0 then
      Scanner([], c.buffers + [TextBuffer(ReadSectors(disk, c.addresses), reclen, c.logicalBlock - |c.addresses|)],
              c.logicalBlock)
    else c
  }

  /** One index entry: a nonzero block joins the pending run, a zero one ends it. */
  function Step(disk: Disk, reclen: int, c: Scanner, block: BlockNo): Scanner
  {
    if block > 0 then Scanner(c.addresses + [block], c.buffers, c.logicalBlock + 1)
    else
      var f := Flush(disk, reclen, c);
      Scanner(f.addresses, f.buffers, f.logicalBlock + 1)
  }

  /** The entries handled in order. */
  function Scan(disk: Disk, reclen: int, c: Scanner, entries: seq<BlockNo>): Scanner
  {
    if entries == [] then c
    else Step(disk, reclen, Scan(disk, reclen, c, entries[..|entries| - 1]), entries[|entries| - 1])
  }

  /** A zero master-index entry of a tree: flush, then skip the 256 logical blocks it would have held. */
  function SkipIndex(disk: Disk, reclen: int, c: Scanner): Scanner
  {
    var f := Flush(disk, reclen, c);
    Scanner(f.addresses, f.buffers, f.logicalBlock + INDEX_ENTRIES)
  }

  /** The master-index entries of a tree handled in order (`getTreeTextFile`'s loop). */
  function TreeScan(disk: Disk, reclen: int, c: Scanner, masters: seq<BlockNo>): Scanner
  {
    if masters == [] then c
    else
      TreeEntryScan(disk, reclen, TreeScan(disk, reclen, c, masters[..|masters| - 1]), masters[|masters| - 1])
  }

  /** One master-index entry: a nonzero one's index block is scanned, a zero one is skipped. */
  function TreeEntryScan(disk: Disk, reclen: int, c: Scanner, m: BlockNo): Scanner
  {
    if m > 0 then Scan(disk, reclen, c, IndexWords(disk[m])) else SkipIndex(disk, reclen, c)
  }

  /** Handling one more master-index entry. */
  lemma TreeScanNext(disk: Disk, reclen: int, c: Scanner, masters: seq<BlockNo>, i: nat)
    requires i < |masters|
    ensures TreeScan(disk, reclen, c, masters[..i + 1]) == TreeEntryScan(disk, reclen, TreeScan(disk, reclen, c, masters[..i]), masters[i])
  {
    assert masters[..i + 1][..i] == masters[..i];
  }

  /** A run of n nonzero entries starting at s that starts at the beginning or after a zero entry. */
  ghost predicate RunAt(e: seq<BlockNo>, s: int, n: int)
  {
    0 < n && 0 <= s && s + n <= |e| && (s == 0 || e[s - 1] == 0)
    && forall k :: s <= k < s + n ==> e[k] != 0
  }

  /** A maximal run that a zero entry ends. */
  ghost predicate TerminatedRun(e: seq<BlockNo>, s: int, n: int)
  {
    RunAt(e, s, n) && s + n < |e| && e[s + n] == 0
  }

  /** A maximal run: ended by a zero entry or by the end of the entries. */
  ghost predicate MaximalRun(e: seq<BlockNo>, s: int, n: int)
  {
    RunAt(e, s, n) && (s + n == |e| || e[s + n] == 0)
  }

  /** The number of blocks a buffer holds. */
  function RunLength(b: TextBuffer): int
  {
    |b.buffer| / BLOCK_SIZE
  }

  /** Buffer b holds exactly the blocks of the entries of a run at its tag, in order. */
  ghost predicate HoldsRun(disk: Disk, reclen: int, e: seq<BlockNo>, b: TextBuffer)
  {
    var s, n := b.firstLogicalBlock, RunLength(b);
    0 < n && 0 <= s && s + n <= |e|
    && b == TextBuffer(ReadSectors(disk, e[s..s + n]), reclen, s)
  }

  /** Buffers are tagged in strictly increasing logical order. */
  ghost predicate Increasing(bs: seq<TextBuffer>)
  {
    forall j, j' :: 0 <= j < j' < |bs| ==> bs[j].firstLogicalBlock < bs[j'].firstLogicalBlock
  }

  ghost predicate Emitted(bs: seq<TextBuffer>, s: int)
  {
    exists j :: 0 <= j < |bs| && bs[j].firstLogicalBlock == s
  }

  /** The last p entries are nonzero and the start or a zero entry precedes them. */
  ghost predicate PendingRun(e: seq<BlockNo>, p: int)
  {
    0 <= p <= |e|
    && (forall k :: |e| - p <= k < |e| ==> e[k] != 0)
    && (|e| - p == 0 || e[|e| - p - 1] == 0)
  }

  /** What holds after scanning e from the start: the counter is |e|; the pending addresses are
      the maximal nonzero suffix of e; the buffers are the terminated runs of e, each once, in order. */
  ghost predicate Scanned(disk: Disk, reclen: int, e: seq<BlockNo>, c: Scanner)
  {
    var p := |c.addresses|;
    && c.logicalBlock == |e|
    && PendingRun(e, p) && c.addresses == e[|e| - p..]
    && (forall j :: 0 <= j < |c.buffers| ==>
          HoldsRun(disk, reclen, e, c.buffers[j])
          && TerminatedRun(e, c.buffers[j].firstLogicalBlock, RunLength(c.buffers[j])))
    && Increasing(c.buffers)
    && (forall s, n :: TerminatedRun(e, s, n) ==> Emitted(c.buffers, s))
  }

  // ---------------------------------------------------------------------------------------------

  lemma ScanSnoc(disk: Disk, reclen: int, c: Scanner, e: seq<BlockNo>, x: BlockNo)
    ensures Scan(disk, reclen, c, e + [x]) == Step(disk, reclen, Scan(disk, reclen, c, e), x)
  {
    assert (e + [x])[..|e|] == e;
  }

  /** Scanning a concatenation is scanning one part after the other. */
  lemma {:induction false} ScanConcat(disk: Disk, reclen: int, c: Scanner, a: seq<BlockNo>, b: seq<BlockNo>)
    ensures Scan(disk, reclen, c, a + b) == Scan(disk, reclen, Scan(disk, reclen, c, a), b)
    decreases |b|
  {
    if b == [] {
      assert a + b == a;
    } else {
      var b' := b[..|b| - 1];
      var x := b[|b| - 1];
      assert a + b == (a + b') + [x];
      assert b == b' + [x];
      ScanSnoc(disk, reclen, c, a + b', x);
      ScanConcat(disk, reclen, c, a, b');
      ScanSnoc(disk, reclen, Scan(disk, reclen, c, a), b', x);
    }
  }

  /** Each entry advances the logical block by one, so an index block advances it by exactly 256. */
  lemma {:induction false} ScanAdvances(disk: Disk, reclen: int, c: Scanner, e: seq<BlockNo>)
    ensures Scan(disk, reclen, c, e).logicalBlock == c.logicalBlock + |e|
  {
    if e != [] {
      ScanAdvances(disk, reclen, c, e[..|e| - 1]);
    }
  }

  /** Zero entries after an empty pending run emit nothing. */
  lemma {:induction false} ScanZerosIdle(disk: Disk, reclen: int, c: Scanner, n: nat)
    requires c.addresses == []
    ensures Scan(disk, reclen, c, seq(n, _ => 0)) == Scanner([], c.buffers, c.logicalBlock + n)
  {
    if n > 0 {
      var z: seq<BlockNo> := seq(n, _ => 0);
      var z': seq<BlockNo> := seq(n - 1, _ => 0);
      assert z[..n - 1] == z';
      ScanZerosIdle(disk, reclen, c, n - 1);
    }
  }

  /** A zero master-index entry (read as 256 zero index entries by `readIndex`) is the same as
      flushing once and skipping 256 logical blocks. */
  lemma ScanZeroIndex(disk: Disk, reclen: int, c: Scanner)
    ensures Scan(disk, reclen, c, IndexEntries(disk, 0)) == SkipIndex(disk, reclen, c)
  {
    var z: seq<BlockNo> := seq(INDEX_ENTRIES, _ => 0);
    assert IndexEntries(disk, 0) == [0] + seq(INDEX_ENTRIES - 1, _ => 0);
    assert ([0] + seq(INDEX_ENTRIES - 1, _ => 0))[..1] == [0];
    ScanConcat(disk, reclen, c, [0], seq(INDEX_ENTRIES - 1, _ => 0));
    var c1 := Scan(disk, reclen, c, [0]);
    assert c1 == Step(disk, reclen, c, 0) by {
      assert [0][..0] == [];
    }
    ScanZerosIdle(disk, reclen, c1, INDEX_ENTRIES - 1);
  }

  /** A tree's walk is the scan of its raw block list: the index blocks' entries, with 256 zeros
      for each zero master-index entry. */
  lemma {:induction false} TreeScanIsScan(disk: Disk, reclen: int, c: Scanner, masters: seq<BlockNo>)
    ensures TreeScan(disk, reclen, c, masters) == Scan(disk, reclen, c, TreeBlocks(disk, masters))
  {
    if masters != [] {
      var front := masters[..|masters| - 1];
      var m := masters[|masters| - 1];
      TreeScanIsScan(disk, reclen, c, front);
      ScanConcat(disk, reclen, c, TreeBlocks(disk, front), IndexEntries(disk, m));
      if m == 0 {
        ScanZeroIndex(disk, reclen, TreeScan(disk, reclen, c, front));
      }
    }
  }

  /** A run that ends with e is the pending run. */
  lemma RunAtEnd(e: seq<BlockNo>, p: int, s: int, n: int)
    requires PendingRun(e, p) && RunAt(e, s, n)
    ensures s + n == |e| ==> s == |e| - p && n == p
  {
    if s + n == |e| {
    }
  }

  /** Runs that end within e are the same in e and in e + [x]. */
  lemma RunExtends(e: seq<BlockNo>, x: BlockNo, s: int, n: int)
    requires s + n <= |e|
    ensures RunAt(e, s, n) <==> RunAt(e + [x], s, n)
    ensures s + n < |e| ==> (TerminatedRun(e, s, n) <==> TerminatedRun(e + [x], s, n))
  {
    assert forall k :: 0 <= k < |e| ==> (e + [x])[k] == e[k];
  }

  lemma HoldsRunExtends(disk: Disk, reclen: int, e: seq<BlockNo>, x: BlockNo, b: TextBuffer)
    requires HoldsRun(disk, reclen, e, b)
    ensures HoldsRun(disk, reclen, e + [x], b)
  {
    var s, n := b.firstLogicalBlock, RunLength(b);
    assert (e + [x])[s..s + n] == e[s..s + n];
  }

  /** The buffers emitted before entry |e| stay valid, and all of them end before the pending run. */
  lemma OldBuffers(disk: Disk, reclen: int, e: seq<BlockNo>, c: Scanner, x: BlockNo)
    requires Scanned(disk, reclen, e, c)
    ensures forall j :: 0 <= j < |c.buffers| ==>
              HoldsRun(disk, reclen, e + [x], c.buffers[j])
              && TerminatedRun(e + [x], c.buffers[j].firstLogicalBlock, RunLength(c.buffers[j]))
              && c.buffers[j].firstLogicalBlock + RunLength(c.buffers[j]) < |e| - |c.addresses|
  {
    forall j | 0 <= j < |c.buffers|
      ensures HoldsRun(disk, reclen, e + [x], c.buffers[j])
      ensures TerminatedRun(e + [x], c.buffers[j].firstLogicalBlock, RunLength(c.buffers[j]))
      ensures c.buffers[j].firstLogicalBlock + RunLength(c.buffers[j]) < |e| - |c.addresses|
    {
      var b := c.buffers[j];
      HoldsRunExtends(disk, reclen, e, x, b);
      RunExtends(e, x, b.firstLogicalBlock, RunLength(b));
      var z := b.firstLogicalBlock + RunLength(b);
      assert e[z] == 0;
    }
  }

  /** A nonzero entry extends the pending run. */
  lemma StepNonzero(disk: Disk, reclen: int, e: seq<BlockNo>, c: Scanner, x: BlockNo)
    requires Scanned(disk, reclen, e, c) && x > 0
    ensures Scanned(disk, reclen, e + [x], Step(disk, reclen, c, x))
  {
    var c' := Step(disk, reclen, c, x);
    var p := |c.addresses|;
    OldBuffers(disk, reclen, e, c, x);
    assert c'.addresses == (e + [x])[|e| - p..] by {
      assert (e + [x])[|e| - p..] == e[|e| - p..] + [x];
    }
    assert PendingRun(e + [x], p + 1) by {
      assert forall k :: 0 <= k < |e| ==> (e + [x])[k] == e[k];
    }
    forall s, n | TerminatedRun(e + [x], s, n)
      ensures Emitted(c'.buffers, s)
    {
      assert (e + [x])[|e|] == x;
      RunExtends(e, x, s, n);
    }
  }

  /** The buffer a zero entry flushes holds the pending run, which that entry terminates. */
  lemma FlushedRun(disk: Disk, reclen: int, e: seq<BlockNo>, c: Scanner)
    requires Scanned(disk, reclen, e, c) && |c.addresses| > 0
    ensures HoldsRun(disk, reclen, e + [0], TextBuffer(ReadSectors(disk, c.addresses), reclen, |e| - |c.addresses|))
    ensures TerminatedRun(e + [0], |e| - |c.addresses|, |c.addresses|)
  {
    var L, p := |e|, |c.addresses|;
    var nb := TextBuffer(ReadSectors(disk, c.addresses), reclen, L - p);
    assert (e + [0])[L - p..L] == c.addresses;
    assert RunLength(nb) == p;
    assert forall k :: 0 <= k < L ==> (e + [0])[k] == e[k];
  }

  /** Appending a buffer tagged after all others keeps the tags increasing. */
  lemma AppendIncreasing(bs: seq<TextBuffer>, nb: TextBuffer)
    requires Increasing(bs)
    requires forall j :: 0 <= j < |bs| ==> bs[j].firstLogicalBlock < nb.firstLogicalBlock
    ensures Increasing(bs + [nb])
  {
    var bs' := bs + [nb];
    forall j, j' | 0 <= j < j' < |bs'|
      ensures bs'[j].firstLogicalBlock < bs'[j'].firstLogicalBlock
    {
      assert bs'[j] == bs[j];
      if j' < |bs| {
        assert bs'[j'] == bs[j'];
      }
    }
  }

  /** After the flush every terminated run of e + [0] has a buffer. */
  lemma FlushEmitsAll(disk: Disk, reclen: int, e: seq<BlockNo>, c: Scanner)
    requires Scanned(disk, reclen, e, c) && |c.addresses| > 0
    ensures forall s, n :: TerminatedRun(e + [0], s, n) ==>
              Emitted(c.buffers + [TextBuffer(ReadSectors(disk, c.addresses), reclen, |e| - |c.addresses|)], s)
  {
    var L, p := |e|, |c.addresses|;
    var bs := c.buffers + [TextBuffer(ReadSectors(disk, c.addresses), reclen, L - p)];
    forall s, n | TerminatedRun(e + [0], s, n)
      ensures Emitted(bs, s)
    {
      RunExtends(e, 0, s, n);
      RunAtEnd(e, p, s, n);
      if s + n == L {
        assert bs[|c.buffers|].firstLogicalBlock == s;
      } else {
        var j :| 0 <= j < |c.buffers| && c.buffers[j].firstLogicalBlock == s;
        assert bs[j] == c.buffers[j];
      }
    }
  }

  /** A zero entry with a pending run emits that run. */
  lemma StepZeroFlush(disk: Disk, reclen: int, e: seq<BlockNo>, c: Scanner)
    requires Scanned(disk, reclen, e, c) && |c.addresses| > 0
    ensures Scanned(disk, reclen, e + [0], Step(disk, reclen, c, 0))
  {
    var c' := Step(disk, reclen, c, 0);
    var L, p := |e|, |c.addresses|;
    var nb := TextBuffer(ReadSectors(disk, c.addresses), reclen, L - p);
    assert c' == Scanner([], c.buffers + [nb], L + 1);
    OldBuffers(disk, reclen, e, c, 0);
    FlushedRun(disk, reclen, e, c);
    AppendIncreasing(c.buffers, nb);
    FlushEmitsAll(disk, reclen, e, c);
    forall j | 0 <= j < |c'.buffers|
      ensures HoldsRun(disk, reclen, e + [0], c'.buffers[j])
      ensures TerminatedRun(e + [0], c'.buffers[j].firstLogicalBlock, RunLength(c'.buffers[j]))
    {
      if j < |c.buffers| {
        assert c'.buffers[j] == c.buffers[j];
      }
    }
    assert PendingRun(e + [0], 0);
  }

  /** A zero entry with nothing pending only advances the counter. */
  lemma StepZeroIdle(disk: Disk, reclen: int, e: seq<BlockNo>, c: Scanner)
    requires Scanned(disk, reclen, e, c) && |c.addresses| == 0
    ensures Scanned(disk, reclen, e + [0], Step(disk, reclen, c, 0))
  {
    var c' := Step(disk, reclen, c, 0);
    assert c' == Scanner([], c.buffers, |e| + 1);
    OldBuffers(disk, reclen, e, c, 0);
    forall s, n | TerminatedRun(e + [0], s, n)
      ensures Emitted(c'.buffers, s)
    {
      RunExtends(e, 0, s, n);
      RunAtEnd(e, 0, s, n);
    }
  }

  /** The invariant of the scan, by induction over the entries. */
  lemma {:induction false} ScanInvariant(disk: Disk, reclen: int, e: seq<BlockNo>)
    ensures Scanned(disk, reclen, e, Scan(disk, reclen, START, e))
  {
    if e != [] {
      var e0 := e[..|e| - 1];
      var x := e[|e| - 1];
      assert e == e0 + [x];
      ScanInvariant(disk, reclen, e0);
      var c0 := Scan(disk, reclen, START, e0);
      ScanSnoc(disk, reclen, START, e0, x);
      if x > 0 {
        StepNonzero(disk, reclen, e0, c0, x);
      } else if |c0.addresses| > 0 {
        StepZeroFlush(disk, reclen, e0, c0);
      } else {
        StepZeroIdle(disk, reclen, e0, c0);
      }
    }
  }

  /** `readIndexBlock` over a whole entry list from the start: every emitted buffer holds a maximal
      run of nonzero entries that a zero entry ends, tagged with the logical index of the run's first
      entry; runs come in increasing order; every such run is emitted; and the counter advances by
      one per entry. */
  lemma ScanRuns(disk: Disk, reclen: int, e: seq<BlockNo>)
    ensures Scan(disk, reclen, START, e).logicalBlock == |e|
    ensures forall j :: 0 <= j < |Scan(disk, reclen, START, e).buffers| ==>
              HoldsRun(disk, reclen, e, Scan(disk, reclen, START, e).buffers[j])
              && TerminatedRun(e, Scan(disk, reclen, START, e).buffers[j].firstLogicalBlock,
                                  RunLength(Scan(disk, reclen, START, e).buffers[j]))
    ensures Increasing(Scan(disk, reclen, START, e).buffers)
    ensures forall s, n :: TerminatedRun(e, s, n) ==> Emitted(Scan(disk, reclen, START, e).buffers, s)
  {
    ScanInvariant(disk, reclen, e);
  }

  /** With a final flush, as a corrected walk does, every maximal run is emitted, including one that
      reaches the last entry, and nothing else is. */
  lemma FlushedScanRuns(disk: Disk, reclen: int, e: seq<BlockNo>)
    ensures forall j :: 0 <= j < |Flush(disk, reclen, Scan(disk, reclen, START, e)).buffers| ==>
              HoldsRun(disk, reclen, e, Flush(disk, reclen, Scan(disk, reclen, START, e)).buffers[j])
              && MaximalRun(e, Flush(disk, reclen, Scan(disk, reclen, START, e)).buffers[j].firstLogicalBlock,
                               RunLength(Flush(disk, reclen, Scan(disk, reclen, START, e)).buffers[j]))
    ensures Increasing(Flush(disk, reclen, Scan(disk, reclen, START, e)).buffers)
    ensures forall s, n :: MaximalRun(e, s, n) ==> Emitted(Flush(disk, reclen, Scan(disk, reclen, START, e)).buffers, s)
  {
    ScanInvariant(disk, reclen, e);
    FlushRuns(disk, reclen, e, Scan(disk, reclen, START, e));
  }

  /** The buffer a flush emits holds the pending run, which is maximal and lies after every
      buffer already emitted. */
  lemma PendingBuffer(disk: Disk, reclen: int, e: seq<BlockNo>, c: Scanner)
    requires Scanned(disk, reclen, e, c) && |c.addresses| > 0
    ensures HoldsRun(disk, reclen, e, TextBuffer(ReadSectors(disk, c.addresses), reclen, |e| - |c.addresses|))
    ensures MaximalRun(e, |e| - |c.addresses|, |c.addresses|)
    ensures forall j :: 0 <= j < |c.buffers| ==>
              c.buffers[j].firstLogicalBlock + RunLength(c.buffers[j]) < |e| - |c.addresses|
  {
    var p := |c.addresses|;
    var L := |e|;
    var nb := TextBuffer(ReadSectors(disk, c.addresses), reclen, L - p);
    assert e[L - p..L] == c.addresses;
    assert RunLength(nb) == p;
    forall j | 0 <= j < |c.buffers|
      ensures c.buffers[j].firstLogicalBlock + RunLength(c.buffers[j]) < L - p
    {
      var z := c.buffers[j].firstLogicalBlock + RunLength(c.buffers[j]);
      assert e[z] == 0;
    }
  }

  /** Flushing a scanner that has scanned e emits every maximal run of e. */
  lemma FlushRuns(disk: Disk, reclen: int, e: seq<BlockNo>, c: Scanner)
    requires Scanned(disk, reclen, e, c)
    ensures forall j :: 0 <= j < |Flush(disk, reclen, c).buffers| ==>
              HoldsRun(disk, reclen, e, Flush(disk, reclen, c).buffers[j])
              && MaximalRun(e, Flush(disk, reclen, c).buffers[j].firstLogicalBlock, RunLength(Flush(disk, reclen, c).buffers[j]))
    ensures Increasing(Flush(disk, reclen, c).buffers)
    ensures forall s, n :: MaximalRun(e, s, n) ==> Emitted(Flush(disk, reclen, c).buffers, s)
  {
    var f := Flush(disk, reclen, c);
    var p := |c.addresses|;
    var L := |e|;
    if p > 0 {
      var nb := TextBuffer(ReadSectors(disk, c.addresses), reclen, L - p);
      PendingBuffer(disk, reclen, e, c);
      assert f.buffers == c.buffers + [nb];
      forall j | 0 <= j < |f.buffers|
        ensures HoldsRun(disk, reclen, e, f.buffers[j])
        ensures MaximalRun(e, f.buffers[j].firstLogicalBlock, RunLength(f.buffers[j]))
      {
        if j < |c.buffers| {
          assert f.buffers[j] == c.buffers[j];
        }
      }
      forall j, j' | 0 <= j < j' < |f.buffers|
        ensures f.buffers[j].firstLogicalBlock < f.buffers[j'].firstLogicalBlock
      {
        assert f.buffers[j] == c.buffers[j];
        if j' < |c.buffers| {
          assert f.buffers[j'] == c.buffers[j'];
        }
      }
      forall s, n | MaximalRun(e, s, n)
        ensures Emitted(f.buffers, s)
      {
        RunAtEnd(e, p, s, n);
        if s + n == L {
          assert f.buffers[|c.buffers|].firstLogicalBlock == s;
        } else {
          assert TerminatedRun(e, s, n);
          var j :| 0 <= j < |c.buffers| && c.buffers[j].firstLogicalBlock == s;
          assert f.buffers[j] == c.buffers[j];
        }
      }
    } else {
      assert f == c;
      forall s, n | MaximalRun(e, s, n)
        ensures Emitted(f.buffers, s)
      {
        RunAtEnd(e, 0, s, n);
        assert TerminatedRun(e, s, n);
      }
    }
  }

  /** Without the final flush, a run that reaches the last entry is lost: every buffer ends before
      the run starts. */
  lemma UnflushedScanDropsLastRun(disk: Disk, reclen: int, e: seq<BlockNo>, s: int, n: int)
    requires MaximalRun(e, s, n) && s + n == |e|
    ensures forall j :: 0 <= j < |Scan(disk, reclen, START, e).buffers| ==>
              Scan(disk, reclen, START, e).buffers[j].firstLogicalBlock + RunLength(Scan(disk, reclen, START, e).buffers[j]) < s
  {
    ScanInvariant(disk, reclen, e);
    var c := Scan(disk, reclen, START, e);
    forall j | 0 <= j < |c.buffers|
      ensures c.buffers[j].firstLogicalBlock + RunLength(c.buffers[j]) < s
    {
      var z := c.buffers[j].firstLogicalBlock + RunLength(c.buffers[j]);
      assert e[z] == 0;
    }
  }

  /** The index [5, 0, 0, 7, 8, 0, ...] (the rest zero) yields two buffers: block 5 at logical block
      0, and blocks 7 and 8 at logical block 3; the gap at 1 and 2 yields nothing. */
  lemma ScenarioTwoRuns(disk: Disk, reclen: int, e: seq<BlockNo>)
    requires |e| == INDEX_ENTRIES && e[..6] == [5, 0, 0, 7, 8, 0]
    requires forall k :: 6 <= k < |e| ==> e[k] == 0
    ensures Scan(disk, reclen, START, e).buffers ==
            [TextBuffer(ReadSectors(disk, [5]), reclen, 0), TextBuffer(ReadSectors(disk, [7, 8]), reclen, 3)]
    ensures Scan(disk, reclen, START, e).logicalBlock == INDEX_ENTRIES
  {
    var b0 := TextBuffer(ReadSectors(disk, [5]), reclen, 0);
    var b1 := TextBuffer(ReadSectors(disk, [7, 8]), reclen, 3);
    var c6 := Scanner([], [b0, b1], 6);
    ScenarioPrefix(disk, reclen);
    assert e == [5, 0, 0, 7, 8, 0] + seq(INDEX_ENTRIES - 6, _ => 0);
    ScanConcat(disk, reclen, START, [5, 0, 0, 7, 8, 0], seq(INDEX_ENTRIES - 6, _ => 0));
    ScanZerosIdle(disk, reclen, c6, INDEX_ENTRIES - 6);
  }

  /** The first six entries of that scenario: a run of one, a gap of two, a run of two. */
  lemma ScenarioPrefix(disk: Disk, reclen: int)
    ensures Scan(disk, reclen, START, [5, 0, 0, 7, 8, 0]) ==
            Scanner([], [TextBuffer(ReadSectors(disk, [5]), reclen, 0), TextBuffer(ReadSectors(disk, [7, 8]), reclen, 3)], 6)
  {
    var b0 := TextBuffer(ReadSectors(disk, [5]), reclen, 0);
    var c3 := Scanner([], [b0], 3);
    ScenarioFirstRun(disk, reclen);
    ScenarioSecondRun(disk, reclen, c3);
    assert [5, 0, 0] + [7, 8, 0] == [5, 0, 0, 7, 8, 0];
    ScanConcat(disk, reclen, START, [5, 0, 0], [7, 8, 0]);
  }

  /** Entries 5, 0, 0 from the start: block 5 is emitted at logical block 0. */
  lemma ScenarioFirstRun(disk: Disk, reclen: int)
    ensures Scan(disk, reclen, START, [5, 0, 0]) == Scanner([], [TextBuffer(ReadSectors(disk, [5]), reclen, 0)], 3)
  {
    var b0 := TextBuffer(ReadSectors(disk, [5]), reclen, 0);
    var c0 := START;
    var c1 := Step(disk, reclen, c0, 5);
    assert c1 == Scanner([5], [], 1) by { assert [] + [5] == [5]; }
    var c2 := Step(disk, reclen, c1, 0);
    assert c2 == Scanner([], [b0], 2) by { assert [] + [b0] == [b0]; }
    ScanSnoc(disk, reclen, c0, [], 5);
    assert [] + [5] == [5];
    ScanSnoc(disk, reclen, c0, [5], 0);
    assert [5] + [0] == [5, 0];
    ScanSnoc(disk, reclen, c0, [5, 0], 0);
    assert [5, 0] + [0] == [5, 0, 0];
  }

  /** Entries 7, 8, 0 after that: blocks 7 and 8 are emitted together at logical block 3. */
  lemma ScenarioSecondRun(disk: Disk, reclen: int, c3: Scanner)
    requires c3 == Scanner([], [TextBuffer(ReadSectors(disk, [5]), reclen, 0)], 3)
    ensures Scan(disk, reclen, c3, [7, 8, 0]) ==
            Scanner([], [TextBuffer(ReadSectors(disk, [5]), reclen, 0), TextBuffer(ReadSectors(disk, [7, 8]), reclen, 3)], 6)
  {
    var b0 := TextBuffer(ReadSectors(disk, [5]), reclen, 0);
    var b1 := TextBuffer(ReadSectors(disk, [7, 8]), reclen, 3);
    var c4 := Step(disk, reclen, c3, 7);
    assert c4 == Scanner([7], [b0], 4) by { assert [] + [7] == [7]; }
    var c5 := Step(disk, reclen, c4, 8);
    assert c5 == Scanner([7, 8], [b0], 5) by { assert [7] + [8] == [7, 8]; }
    var c6 := Step(disk, reclen, c5, 0);
    assert c6 == Scanner([], [b0, b1], 6) by { assert [b0] + [b1] == [b0, b1]; }
    ScanSnoc(disk, reclen, c3, [], 7);
    assert [] + [7] == [7];
    ScanSnoc(disk, reclen, c3, [7], 8);
    assert [7] + [8] == [7, 8];
    ScanSnoc(disk, reclen, c3, [7, 8], 0);
    assert [7, 8] + [0] == [7, 8, 0];
  }
}
