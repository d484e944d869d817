/** `_calculate_frame_distribution` of `generate_vds.py`: each writer's share is
    cut into files of at most `maxFrames` frames, numbered round robin
    (`w + 1 + i * nWriters` for writer `w`'s `i`-th file), each recording the
    logical frame at which its first full block lands.

    The cutting is stated over abstract shares (`Files`) and then instantiated
    with the planner's shares (`Distribution`). */
module FileDistribution {
  import opened Arith
  import opened Seqs
  import opened FrameDistribution

  /** The inputs for which the source does not divide by zero: positive block
      size and writer count, and a non-zero file size. With `blocksPerFile == 0`
      the file size is `frameCount`, so that case needs `frameCount > 0`. */
  predicate ValidRequest(frameCount: nat, framesPerBlock: nat, blocksPerFile: nat, nWriters: nat)
  {
    framesPerBlock > 0 && nWriters > 0 && (blocksPerFile > 0 || frameCount > 0)
  }

  /** `frames_per_block * blocks_per_file`, or the whole acquisition when
      `blocks_per_file` is 0 (Python truthiness). */
  function MaxFramesPerFile(frameCount: nat, framesPerBlock: nat, blocksPerFile: nat): (m: nat)
    ensures m > 0 <==> (if blocksPerFile > 0 then framesPerBlock > 0 else frameCount > 0)
  {
    if blocksPerFile > 0 then
      MulPositive(framesPerBlock, blocksPerFile);
      framesPerBlock * blocksPerFile
    else frameCount
  }

  /** `math.ceil(n_frames / max_frames_per_file)` files for writer `w`. */
  function FileCount(shares: seq<nat>, maxFrames: nat, w: nat): nat
    requires maxFrames > 0 && w < |shares|
  {
    CeilDiv(shares[w], maxFrames)
  }

  /** The 1-based number of writer `w`'s `i`-th file. */
  function FileNumber(nWriters: nat, w: nat, i: nat): nat
  {
    w + i * nWriters + 1
  }

  /** The record the source stores for writer `w`'s `i`-th file. */
  function FileRecord(shares: seq<nat>, maxFrames: nat, framesPerBlock: nat, w: nat, i: nat): FileFrames
    requires maxFrames > 0 && w < |shares| && i < FileCount(shares, maxFrames, w)
  {
    CeilDivLess(shares[w], maxFrames, i);
    FileFrames(
      frames := Min(shares[w] - i * maxFrames, maxFrames),
      start := FileStart(framesPerBlock, |shares|, maxFrames, w + i * |shares|),
      framesPerBlock := framesPerBlock)
  }

  /** `frames_per_block * writer + file_idx // n_writers * frames_before_new_file`
      for the file at round-robin index `fileIdx` of writer `fileIdx % nWriters`. */
  function FileStart(framesPerBlock: nat, nWriters: nat, maxFrames: nat, fileIdx: nat): nat
    requires nWriters > 0
  {
    var writer: nat := fileIdx % nWriters;
    var round: nat := fileIdx / nWriters;
    var framesBeforeNewFile: nat := nWriters * maxFrames;
    framesPerBlock * writer + round * framesBeforeNewFile
  }

  /** Whether file number `k` is produced. */
  predicate HasFile(shares: seq<nat>, maxFrames: nat, k: nat)
    requires maxFrames > 0 && |shares| > 0
  {
    k > 0 && (k - 1) / |shares| < FileCount(shares, maxFrames, (k - 1) % |shares|)
  }

  /** The record stored under file number `k`. */
  function SlotRecord(shares: seq<nat>, maxFrames: nat, framesPerBlock: nat, k: nat): FileFrames
    requires maxFrames > 0 && |shares| > 0 && HasFile(shares, maxFrames, k)
  {
    FileRecord(shares, maxFrames, framesPerBlock, (k - 1) % |shares|, (k - 1) / |shares|)
  }

  /** File number to file record for the given shares. No file number exceeds
      `|shares| * Total(shares)` (see `FileNumberBound`). */
  function Files(shares: seq<nat>, maxFrames: nat, framesPerBlock: nat): map<nat, FileFrames>
    requires maxFrames > 0 && |shares| > 0
  {
    map k: nat | 0 < k <= |shares| * Total(shares) && HasFile(shares, maxFrames, k)
      :: SlotRecord(shares, maxFrames, framesPerBlock, k)
  }

  /** The distribution `_calculate_frame_distribution` returns. */
  function Distribution(frameCount: nat, framesPerBlock: nat, blocksPerFile: nat, nWriters: nat): (d: map<nat, FileFrames>)
    requires ValidRequest(frameCount, framesPerBlock, blocksPerFile, nWriters)
    ensures forall k :: k in d ==> 0 < k <= nWriters * frameCount
    ensures FramesUpTo(d, nWriters * frameCount) == frameCount
  {
    var shares := FramesPerFileWriter(frameCount, framesPerBlock, nWriters);
    var maxFrames := MaxFramesPerFile(frameCount, framesPerBlock, blocksPerFile);
    FilesHoldAllFrames(shares, maxFrames, framesPerBlock);
    Files(shares, maxFrames, framesPerBlock)
  }

  /** Writer and file index are recovered from a file number. */
  lemma FileNumberDecode(nWriters: nat, w: nat, i: nat)
    requires w < nWriters
    ensures (FileNumber(nWriters, w, i) - 1) % nWriters == w
    ensures (FileNumber(nWriters, w, i) - 1) / nWriters == i
  {
    DivModOf(i, w, nWriters);
  }

  /** Every positive number is some writer's file number. */
  lemma FileNumberEncode(nWriters: nat, k: nat)
    requires nWriters > 0 && k > 0
    ensures k == FileNumber(nWriters, (k - 1) % nWriters, (k - 1) / nWriters)
  {
  }

  /** File numbers are distinct across writers and files. */
  lemma FileNumberInjective(nWriters: nat, w: nat, i: nat, w': nat, i': nat)
    requires w < nWriters && w' < nWriters
    ensures FileNumber(nWriters, w, i) == FileNumber(nWriters, w', i') <==> w == w' && i == i'
  {
    LexEqual(i, w, i', w', nWriters);
  }

  lemma FileNumberBound(shares: seq<nat>, maxFrames: nat, k: nat)
    requires maxFrames > 0 && |shares| > 0 && HasFile(shares, maxFrames, k)
    ensures k <= |shares| * Total(shares)
  {
    var n := |shares|;
    var w, i := (k - 1) % n, (k - 1) / n;
    var total := Total(shares);
    CeilDivLess(shares[w], maxFrames, i);
    MulMonotone(1, maxFrames, i);
    SumElement(shares, w);
    assert i < total;
    MulMonotone(i + 1, total, n);
    assert k == i * n + w + 1;
  }

  /** Writer `w`'s `i`-th file exists exactly when `i` is below the writer's
      file count, and then holds the record computed for it. */
  lemma FilesAt(shares: seq<nat>, maxFrames: nat, framesPerBlock: nat, w: nat, i: nat)
    requires maxFrames > 0 && w < |shares|
    ensures var d := Files(shares, maxFrames, framesPerBlock);
            var k := FileNumber(|shares|, w, i);
            && (k in d <==> i < FileCount(shares, maxFrames, w))
            && (k in d ==> d[k] == FileRecord(shares, maxFrames, framesPerBlock, w, i))
  {
    var k := FileNumber(|shares|, w, i);
    FileNumberDecode(|shares|, w, i);
    if HasFile(shares, maxFrames, k) {
      FileNumberBound(shares, maxFrames, k);
    }
  }

  /** The keys of the distribution are exactly the produced slots. */
  lemma FilesKeys(shares: seq<nat>, maxFrames: nat, framesPerBlock: nat, k: nat)
    requires maxFrames > 0 && |shares| > 0
    ensures var d := Files(shares, maxFrames, framesPerBlock);
            && (k in d <==> HasFile(shares, maxFrames, k))
            && (k in d ==> d[k] == SlotRecord(shares, maxFrames, framesPerBlock, k))
  {
    if HasFile(shares, maxFrames, k) {
      FileNumberBound(shares, maxFrames, k);
    }
  }

  /** File number `k` of `Files` is writer `w`'s file `i`, for the `w` and `i`
      returned. */
  lemma FileAtSlot(shares: seq<nat>, maxFrames: nat, framesPerBlock: nat, k: nat) returns (w: nat, i: nat)
    requires maxFrames > 0 && |shares| > 0 && k in Files(shares, maxFrames, framesPerBlock)
    ensures w < |shares| && k == FileNumber(|shares|, w, i)
    ensures i < FileCount(shares, maxFrames, w)
    ensures Files(shares, maxFrames, framesPerBlock)[k] == FileRecord(shares, maxFrames, framesPerBlock, w, i)
  {
    FilesKeys(shares, maxFrames, framesPerBlock, k);
    w, i := SlotOf(shares, maxFrames, framesPerBlock, k);
  }

  /** A produced slot `k` is writer `w`'s file `i`, for the `w` and `i` returned. */
  lemma SlotOf(shares: seq<nat>, maxFrames: nat, framesPerBlock: nat, k: nat) returns (w: nat, i: nat)
    requires maxFrames > 0 && |shares| > 0 && HasFile(shares, maxFrames, k)
    ensures w < |shares| && k == FileNumber(|shares|, w, i)
    ensures i < FileCount(shares, maxFrames, w)
    ensures SlotRecord(shares, maxFrames, framesPerBlock, k) == FileRecord(shares, maxFrames, framesPerBlock, w, i)
  {
    var j: nat := k - 1;
    w, i := j % |shares|, j / |shares|;
    FileNumberEncode(|shares|, k);
  }

  /** A produced slot `k` is writer `(k-1) % n`'s file `(k-1) / n`. */
  lemma SlotDecode(shares: seq<nat>, maxFrames: nat, framesPerBlock: nat, k: nat)
    requires maxFrames > 0 && |shares| > 0 && HasFile(shares, maxFrames, k)
    ensures k == FileNumber(|shares|, (k - 1) % |shares|, (k - 1) / |shares|)
    ensures (k - 1) / |shares| < FileCount(shares, maxFrames, (k - 1) % |shares|)
    ensures SlotRecord(shares, maxFrames, framesPerBlock, k)
            == FileRecord(shares, maxFrames, framesPerBlock, (k - 1) % |shares|, (k - 1) / |shares|)
  {
    FileNumberEncode(|shares|, k);
  }

  /** Every file is non-empty, holds at most `maxFrames` frames, keeps the
      block size, and starts at `framesPerBlock * w + i * nWriters * maxFrames`:
      file `i` of writer `w` begins after `i` full rounds of files. */
  lemma FileShape(shares: seq<nat>, maxFrames: nat, framesPerBlock: nat, w: nat, i: nat)
    requires maxFrames > 0 && w < |shares| && i < FileCount(shares, maxFrames, w)
    ensures var f := FileRecord(shares, maxFrames, framesPerBlock, w, i);
            && 0 < f.frames <= maxFrames
            && f.framesPerBlock == framesPerBlock
            && f.start == framesPerBlock * w + i * (|shares| * maxFrames)
  {
    CeilDivLess(shares[w], maxFrames, i);
    DivModOf(i, w, |shares|);
  }

  /** A writer with no frames gets no file. */
  lemma EmptyWriterHasNoFiles(shares: seq<nat>, maxFrames: nat, framesPerBlock: nat, w: nat, i: nat)
    requires maxFrames > 0 && w < |shares| && shares[w] == 0
    ensures FileNumber(|shares|, w, i) !in Files(shares, maxFrames, framesPerBlock)
  {
    FilesAt(shares, maxFrames, framesPerBlock, w, i);
  }

  /** Frames held by writer `w`'s first `c` file slots (missing files count 0). */
  function WriterFrames(d: map<nat, FileFrames>, nWriters: nat, w: nat, c: nat): nat
  {
    if c == 0 then 0
    else
      var k := FileNumber(nWriters, w, c - 1);
      WriterFrames(d, nWriters, w, c - 1) + (if k in d then d[k].frames else 0)
  }

  /** Writer `w`'s first `c` files hold `min(share, c * maxFrames)` frames, so
      its files together hold exactly its share. */
  lemma {:induction false} WriterFramesPrefix(shares: seq<nat>, maxFrames: nat, framesPerBlock: nat, w: nat, c: nat)
    requires maxFrames > 0 && w < |shares|
    ensures WriterFrames(Files(shares, maxFrames, framesPerBlock), |shares|, w, c) == Min(shares[w], c * maxFrames)
  {
    if c > 0 {
      var before := (c - 1) * maxFrames;
      WriterFramesPrefix(shares, maxFrames, framesPerBlock, w, c - 1);
      SlotFrames(shares, maxFrames, framesPerBlock, w, c - 1);
      MulAddDistrib(c - 1, 1, maxFrames);
      MinStep(shares[w], before, maxFrames);
    }
  }

  /** The frames writer `w`'s `i`-th file slot holds: what is left of its
      share, capped at the file size, or nothing past the share. */
  lemma SlotFrames(shares: seq<nat>, maxFrames: nat, framesPerBlock: nat, w: nat, i: nat)
    requires maxFrames > 0 && w < |shares|
    ensures var d := Files(shares, maxFrames, framesPerBlock);
            var k := FileNumber(|shares|, w, i);
            (if k in d then d[k].frames else 0)
            == (if i * maxFrames < shares[w] then Min(shares[w] - i * maxFrames, maxFrames) else 0)
  {
    FilesAt(shares, maxFrames, framesPerBlock, w, i);
    CeilDivLess(shares[w], maxFrames, i);
  }

  lemma WriterFilesHoldShare(shares: seq<nat>, maxFrames: nat, framesPerBlock: nat, w: nat)
    requires maxFrames > 0 && w < |shares|
    ensures WriterFrames(Files(shares, maxFrames, framesPerBlock), |shares|, w, FileCount(shares, maxFrames, w))
            == shares[w]
  {
    WriterFramesPrefix(shares, maxFrames, framesPerBlock, w, FileCount(shares, maxFrames, w));
  }

  /** Frames held by file numbers `1 .. t`. */
  function FramesUpTo(d: map<nat, FileFrames>, t: nat): nat
  {
    if t == 0 then 0 else FramesUpTo(d, t - 1) + (if t in d then d[t].frames else 0)
  }

  /** How many of the file numbers `1 .. t` belong to writer `v`. */
  function SlotsOf(nWriters: nat, t: nat, v: nat): nat
    requires nWriters > 0
  {
    t / nWriters + (if v < t % nWriters then 1 else 0)
  }

  /** What each writer has written once file numbers `1 .. t` are written. */
  function Written(shares: seq<nat>, maxFrames: nat, t: nat): (s: seq<int>)
    requires |shares| > 0
    ensures |s| == |shares|
  {
    seq(|shares|, v requires 0 <= v < |shares| => Min(shares[v], SlotsOf(|shares|, t, v) * maxFrames))
  }

  /** Advancing one file number advances only its own writer. */
  lemma SlotsOfStep(nWriters: nat, t: nat, v: nat)
    requires nWriters > 0 && v < nWriters
    ensures SlotsOf(nWriters, t + 1, v)
            == SlotsOf(nWriters, t, v) + (if v == t % nWriters then 1 else 0)
    ensures v == t % nWriters ==> SlotsOf(nWriters, t, v) == t / nWriters
  {
    var q, r := t / nWriters, t % nWriters;
    assert t == q * nWriters + r;
    if r + 1 < nWriters {
      DivModOf(q, r + 1, nWriters);
    } else {
      assert t + 1 == (q + 1) * nWriters + 0;
      DivModOf(q + 1, 0, nWriters);
    }
  }

  lemma WrittenStep(shares: seq<nat>, maxFrames: nat, t: nat)
    requires |shares| > 0
    ensures var w := t % |shares|;
            && Written(shares, maxFrames, t)[w] == Min(shares[w], (t / |shares|) * maxFrames)
            && Written(shares, maxFrames, t + 1)
               == Written(shares, maxFrames, t)[w := Min(shares[w], (t / |shares| + 1) * maxFrames)]
  {
    var n := |shares|;
    forall v | 0 <= v < n
      ensures SlotsOf(n, t + 1, v) == SlotsOf(n, t, v) + (if v == t % n then 1 else 0)
    {
      SlotsOfStep(n, t, v);
    }
    SlotsOfStep(n, t, t % n);
  }

  /** The frames in file number `t + 1` are what its writer's progress gains. */
  lemma SlotGain(shares: seq<nat>, maxFrames: nat, framesPerBlock: nat, t: nat)
    requires maxFrames > 0 && |shares| > 0
    ensures var d := Files(shares, maxFrames, framesPerBlock);
            var w, i := t % |shares|, t / |shares|;
            (if t + 1 in d then d[t + 1].frames else 0)
            == Min(shares[w], (i + 1) * maxFrames) - Min(shares[w], i * maxFrames)
  {
    var n := |shares|;
    var w, i := t % n, t / n;
    FileNumberEncode(n, t + 1);
    FilesAt(shares, maxFrames, framesPerBlock, w, i);
    CeilDivLess(shares[w], maxFrames, i);
    assert (i + 1) * maxFrames == i * maxFrames + maxFrames;
  }

  lemma {:induction false} SumZeros(s: seq<int>)
    requires forall v :: 0 <= v < |s| ==> s[v] == 0
    ensures Sum(s) == 0
  {
    if |s| > 0 {
      SumZeros(s[..|s| - 1]);
    }
  }

  /** Writing file number `t + 1` adds its frames to the writers' total. */
  lemma WrittenGain(shares: seq<nat>, maxFrames: nat, framesPerBlock: nat, t: nat)
    requires maxFrames > 0 && |shares| > 0
    ensures var d := Files(shares, maxFrames, framesPerBlock);
            Sum(Written(shares, maxFrames, t + 1))
            == Sum(Written(shares, maxFrames, t)) + (if t + 1 in d then d[t + 1].frames else 0)
  {
    var n := |shares|;
    var w := t % n;
    WrittenStep(shares, maxFrames, t);
    SlotGain(shares, maxFrames, framesPerBlock, t);
    SumUpdate(Written(shares, maxFrames, t), w, Min(shares[w], (t / n + 1) * maxFrames));
  }

  lemma {:induction false} FramesUpToWritten(shares: seq<nat>, maxFrames: nat, framesPerBlock: nat, t: nat)
    requires maxFrames > 0 && |shares| > 0
    ensures FramesUpTo(Files(shares, maxFrames, framesPerBlock), t) == Sum(Written(shares, maxFrames, t))
  {
    if t == 0 {
      SumZeros(Written(shares, maxFrames, 0));
    } else {
      FramesUpToWritten(shares, maxFrames, framesPerBlock, t - 1);
      WrittenGain(shares, maxFrames, framesPerBlock, t - 1);
    }
  }

  /** All files together hold every frame exactly once in count: the file
      sizes over all file numbers add up to the total of the shares. */
  lemma FilesHoldAllFrames(shares: seq<nat>, maxFrames: nat, framesPerBlock: nat)
    requires maxFrames > 0 && |shares| > 0
    ensures FramesUpTo(Files(shares, maxFrames, framesPerBlock), |shares| * Total(shares)) == Total(shares)
  {
    var n := |shares|;
    var total := Total(shares);
    FramesUpToWritten(shares, maxFrames, framesPerBlock, n * total);
    forall v | 0 <= v < n
      ensures Written(shares, maxFrames, n * total)[v] == shares[v]
    {
      WrittenAtEnd(shares, maxFrames, v);
    }
    assert Written(shares, maxFrames, n * total) == shares;
  }

  /** After `total` rounds of file numbers every writer has written its share. */
  lemma WrittenAtEnd(shares: seq<nat>, maxFrames: nat, v: nat)
    requires maxFrames > 0 && v < |shares|
    ensures Written(shares, maxFrames, |shares| * Total(shares))[v] == shares[v]
  {
    var n := |shares|;
    var total := Total(shares);
    DivModOf(total, 0, n);
    assert SlotsOf(n, n * total, v) == total;
    SumElement(shares, v);
    MulMonotone(1, maxFrames, total);
  }

  /** The distribution of an acquisition holds all of its frames. */
  lemma DistributionHoldsAllFrames(frameCount: nat, framesPerBlock: nat, blocksPerFile: nat, nWriters: nat)
    requires ValidRequest(frameCount, framesPerBlock, blocksPerFile, nWriters)
    ensures var d := Distribution(frameCount, framesPerBlock, blocksPerFile, nWriters);
            && (forall k :: k in d ==> 0 < k <= nWriters * frameCount)
            && FramesUpTo(d, nWriters * frameCount) == frameCount
  {
    FilesHoldAllFrames(FramesPerFileWriter(frameCount, framesPerBlock, nWriters),
                       MaxFramesPerFile(frameCount, framesPerBlock, blocksPerFile), framesPerBlock);
  }

  lemma MultipleHasNoRemainder(f: FileFrames, x: nat)
    requires f.framesPerBlock > 0 && f.frames == x * f.framesPerBlock
    ensures f.RemainderFrames() == 0
  {
    LexEqual(f.Blocks(), f.RemainderFrames(), x, 0, f.framesPerBlock);
  }

  /** A file shorter than `maxFrames` is its writer's last. */
  lemma ShortFileIsLast(shares: seq<nat>, maxFrames: nat, framesPerBlock: nat, w: nat, i: nat)
    requires maxFrames > 0 && w < |shares| && i < FileCount(shares, maxFrames, w)
    requires FileRecord(shares, maxFrames, framesPerBlock, w, i).frames != maxFrames
    ensures i + 1 == FileCount(shares, maxFrames, w)
  {
    CeilDivLess(shares[w], maxFrames, i);
    CeilDivLess(shares[w], maxFrames, i + 1);
    assert (i + 1) * maxFrames == i * maxFrames + maxFrames;
  }

  /** With files of whole blocks, a writer whose share is whole blocks has
      only files of whole blocks. */
  lemma WholeBlocksStayWhole(shares: seq<nat>, maxFrames: nat, framesPerBlock: nat, w: nat, i: nat, p: nat, x: nat)
    requires maxFrames > 0 && w < |shares| && i < FileCount(shares, maxFrames, w)
    requires framesPerBlock > 0 && maxFrames == p * framesPerBlock && shares[w] == x * framesPerBlock
    ensures FileRecord(shares, maxFrames, framesPerBlock, w, i).RemainderFrames() == 0
  {
    var f := FileRecord(shares, maxFrames, framesPerBlock, w, i);
    if f.frames == maxFrames {
      MultipleHasNoRemainder(f, p);
    } else {
      CeilDivLess(shares[w], maxFrames, i);
      var c := i * p;
      assert f.frames == shares[w] - i * maxFrames;
      WholeBlocksLeft(x, c, i, p, framesPerBlock);
      MultipleHasNoRemainder(f, x - c);
    }
  }

  /** What is left of `x` blocks after `i` files of `p` blocks is whole blocks. */
  lemma WholeBlocksLeft(x: nat, c: nat, i: nat, p: nat, b: nat)
    requires b > 0 && c == i * p && i * (p * b) < x * b
    ensures c <= x
    ensures x * b - i * (p * b) == (x - c) * b
  {
    assert i * (p * b) == c * b;
    if x < c {
      MulMonotone(x, c, b);
    }
  }

  /** Only the last file of the writer that owns the globally last block can
      end in a partial block. */
  lemma PartialBlockOnlyAtEnd(frameCount: nat, framesPerBlock: nat, blocksPerFile: nat, nWriters: nat, w: nat, i: nat)
    requires ValidRequest(frameCount, framesPerBlock, blocksPerFile, nWriters) && w < nWriters
    requires var shares := FramesPerFileWriter(frameCount, framesPerBlock, nWriters);
             i < FileCount(shares, MaxFramesPerFile(frameCount, framesPerBlock, blocksPerFile), w)
    requires FileRecord(FramesPerFileWriter(frameCount, framesPerBlock, nWriters),
                        MaxFramesPerFile(frameCount, framesPerBlock, blocksPerFile), framesPerBlock, w, i)
             .RemainderFrames() != 0
    ensures w == LastWriter(frameCount, framesPerBlock, nWriters)
    ensures i + 1 == FileCount(FramesPerFileWriter(frameCount, framesPerBlock, nWriters),
                               MaxFramesPerFile(frameCount, framesPerBlock, blocksPerFile), w)
  {
    var shares := FramesPerFileWriter(frameCount, framesPerBlock, nWriters);
    var m := MaxFramesPerFile(frameCount, framesPerBlock, blocksPerFile);
    var f := FileRecord(shares, m, framesPerBlock, w, i);
    var wb := WriterBlocks(frameCount, framesPerBlock, nWriters, w);
    FramesPerFileWriterShape(frameCount, framesPerBlock, nWriters, w);
    var isLast := w == LastWriter(frameCount, framesPerBlock, nWriters);
    assert !isLast ==> shares[w] == wb * framesPerBlock;
    if blocksPerFile > 0 {
      if f.frames == m {
        MultipleHasNoRemainder(f, blocksPerFile);
      }
      ShortFileIsLast(shares, m, framesPerBlock, w, i);
      if !isLast {
        WholeBlocksStayWhole(shares, m, framesPerBlock, w, i, blocksPerFile, wb);
      }
    } else {
      // One file per writer, holding its whole share.
      ShareBound(frameCount, framesPerBlock, nWriters, w);
      CeilDivLess(shares[w], m, 1);
      if !isLast {
        assert f.frames == shares[w];
        MultipleHasNoRemainder(f, wb);
      }
    }
  }

  /** `SlotRecord` where a file is produced, a placeholder elsewhere. */
  function SlotRecordOrDefault(shares: seq<nat>, maxFrames: nat, framesPerBlock: nat, k: nat): FileFrames
    requires maxFrames > 0 && |shares| > 0
  {
    if HasFile(shares, maxFrames, k) then SlotRecord(shares, maxFrames, framesPerBlock, k)
    else FileFrames(0, 0, framesPerBlock)
  }

  /** A map holding exactly the produced slots, with their records, is `Files`. */
  lemma FilesUnique(shares: seq<nat>, maxFrames: nat, framesPerBlock: nat, d: map<nat, FileFrames>)
    requires maxFrames > 0 && |shares| > 0
    requires forall k: nat :: k in d <==> HasFile(shares, maxFrames, k)
    requires forall k: nat :: k in d ==> d[k] == SlotRecordOrDefault(shares, maxFrames, framesPerBlock, k)
    ensures d == Files(shares, maxFrames, framesPerBlock)
  {
    var full := Files(shares, maxFrames, framesPerBlock);
    forall k: nat
      ensures k in full <==> k in d
      ensures k in full ==> full[k] == d[k]
    {
      FilesKeys(shares, maxFrames, framesPerBlock, k);
    }
    assert d.Keys == full.Keys;
  }

  /** File number `k` comes before writer `w`'s `i`-th file in the source's
      writer-major loop order. */
  predicate Visited(nWriters: nat, k: nat, w: nat, i: nat)
    requires nWriters > 0
  {
    k > 0 && ((k - 1) % nWriters < w || ((k - 1) % nWriters == w && (k - 1) / nWriters < i))
  }

  lemma VisitedStep(nWriters: nat, w: nat, i: nat)
    requires w < nWriters
    ensures forall k: nat :: Visited(nWriters, k, w, i + 1) <==> Visited(nWriters, k, w, i) || k == FileNumber(nWriters, w, i)
  {
    forall k: nat
      ensures Visited(nWriters, k, w, i + 1) <==> Visited(nWriters, k, w, i) || k == FileNumber(nWriters, w, i)
    {
      VisitedStepAt(nWriters, w, i, k);
    }
  }

  lemma VisitedStepAt(nWriters: nat, w: nat, i: nat, k: nat)
    requires w < nWriters
    ensures Visited(nWriters, k, w, i + 1) <==> Visited(nWriters, k, w, i) || k == FileNumber(nWriters, w, i)
  {
    if k > 0 {
      var r, q := (k - 1) % nWriters, (k - 1) / nWriters;
      FileNumberEncode(nWriters, k);
      FileNumberInjective(nWriters, r, q, w, i);
    }
  }

  /** Once writer `w`'s files are done, the produced slots visited are those of
      writers up to `w`. */
  lemma VisitedNextWriter(shares: seq<nat>, maxFrames: nat, w: nat)
    requires maxFrames > 0 && w < |shares|
    ensures forall k: nat :: HasFile(shares, maxFrames, k) ==>
              (Visited(|shares|, k, w, FileCount(shares, maxFrames, w)) <==> Visited(|shares|, k, w + 1, 0))
  {
  }

  /** The record the loop body builds for writer `w`'s `i`-th file is the one
      `Files` holds. */
  lemma LoopRecord(shares: seq<nat>, maxFrames: nat, framesPerBlock: nat, w: nat, i: nat)
    requires maxFrames > 0 && w < |shares| && i < FileCount(shares, maxFrames, w)
    ensures i * maxFrames < shares[w]
    ensures var k := FileNumber(|shares|, w, i);
            && HasFile(shares, maxFrames, k)
            && SlotRecordOrDefault(shares, maxFrames, framesPerBlock, k)
               == FileFrames(Min(shares[w] - i * maxFrames, maxFrames),
                             FileStart(framesPerBlock, |shares|, maxFrames, w + i * |shares|),
                             framesPerBlock)
    ensures FileStart(framesPerBlock, |shares|, maxFrames, w + i * |shares|)
            == framesPerBlock * w + (w + i * |shares|) / |shares| * (|shares| * maxFrames)
  {
    var n := |shares|;
    var k := FileNumber(n, w, i);
    CeilDivLess(shares[w], maxFrames, i);
    FileNumberDecode(n, w, i);
    assert k - 1 == w + i * n;
    assert SlotRecord(shares, maxFrames, framesPerBlock, k) == FileRecord(shares, maxFrames, framesPerBlock, w, i);
    DivModOf(i, w, n);
    assert FileStart(framesPerBlock, n, maxFrames, w + i * n) == framesPerBlock * w + i * (n * maxFrames);
  }

  /** Writer `w`'s first `c` file numbers, in file order. */
  function WriterFileNumbers(nWriters: nat, w: nat, c: nat): (s: seq<nat>)
    ensures |s| == c
  {
    seq(c, i requires 0 <= i < c => FileNumber(nWriters, w, i))
  }

  /** The insertion order of the source's dictionary for writers below `w`:
      writer by writer, each writer's files in order. */
  function KeyOrderUpTo(shares: seq<nat>, maxFrames: nat, w: nat): seq<nat>
    requires maxFrames > 0 && w <= |shares|
  {
    if w == 0 then []
    else KeyOrderUpTo(shares, maxFrames, w - 1) + WriterFileNumbers(|shares|, w - 1, FileCount(shares, maxFrames, w - 1))
  }

  function KeyOrder(shares: seq<nat>, maxFrames: nat): seq<nat>
    requires maxFrames > 0
  {
    KeyOrderUpTo(shares, maxFrames, |shares|)
  }

  /** The order in which `frame_distribution.items()` yields the files. */
  function DistributionOrder(frameCount: nat, framesPerBlock: nat, blocksPerFile: nat, nWriters: nat): seq<nat>
    requires ValidRequest(frameCount, framesPerBlock, blocksPerFile, nWriters)
  {
    KeyOrder(FramesPerFileWriter(frameCount, framesPerBlock, nWriters),
             MaxFramesPerFile(frameCount, framesPerBlock, blocksPerFile))
  }

  /** Writer `w`'s file numbers are its produced slots, each listed once. */
  lemma WriterFileNumbersSpec(shares: seq<nat>, maxFrames: nat, w: nat)
    requires maxFrames > 0 && w < |shares|
    ensures var mine := WriterFileNumbers(|shares|, w, FileCount(shares, maxFrames, w));
            && (forall k: nat :: k in mine <==> HasFile(shares, maxFrames, k) && (k - 1) % |shares| == w)
            && Distinct(mine)
  {
    var n := |shares|;
    var c := FileCount(shares, maxFrames, w);
    var mine := WriterFileNumbers(n, w, c);
    forall k: nat
      ensures k in mine <==> HasFile(shares, maxFrames, k) && (k - 1) % n == w
    {
      if k in mine {
        var i :| 0 <= i < c && mine[i] == k;
        FileNumberDecode(n, w, i);
      }
      if HasFile(shares, maxFrames, k) && (k - 1) % n == w {
        FileNumberEncode(n, k);
        assert mine[(k - 1) / n] == k;
      }
    }
    forall a, b | 0 <= a < b < |mine|
      ensures mine[a] != mine[b]
    {
      FileNumberInjective(n, w, a, w, b);
    }
  }

  /** The file numbers listed for writers below `w` are the produced slots of
      those writers, each listed once. */
  lemma {:induction false} KeyOrderUpToSpec(shares: seq<nat>, maxFrames: nat, w: nat)
    requires maxFrames > 0 && 0 < |shares| && w <= |shares|
    ensures forall k: nat :: k in KeyOrderUpTo(shares, maxFrames, w)
                             <==> HasFile(shares, maxFrames, k) && (k - 1) % |shares| < w
    ensures Distinct(KeyOrderUpTo(shares, maxFrames, w))
  {
    if w > 0 {
      var prev := KeyOrderUpTo(shares, maxFrames, w - 1);
      var mine := WriterFileNumbers(|shares|, w - 1, FileCount(shares, maxFrames, w - 1));
      KeyOrderUpToSpec(shares, maxFrames, w - 1);
      WriterFileNumbersSpec(shares, maxFrames, w - 1);
      var all := prev + mine;
      forall a, b | 0 <= a < b < |all|
        ensures all[a] != all[b]
      {
        if a < |prev| && b >= |prev| {
          assert all[a] in prev && all[b] in mine;
        }
      }
    }
  }

  /** Every file of the distribution is yielded exactly once. */
  lemma DistributionOrderSpec(frameCount: nat, framesPerBlock: nat, blocksPerFile: nat, nWriters: nat)
    requires ValidRequest(frameCount, framesPerBlock, blocksPerFile, nWriters)
    ensures var order := DistributionOrder(frameCount, framesPerBlock, blocksPerFile, nWriters);
            && Distinct(order)
            && (forall k: nat :: k in order <==> k in Distribution(frameCount, framesPerBlock, blocksPerFile, nWriters))
  {
    var shares := FramesPerFileWriter(frameCount, framesPerBlock, nWriters);
    var m := MaxFramesPerFile(frameCount, framesPerBlock, blocksPerFile);
    KeyOrderUpToSpec(shares, m, nWriters);
    forall k: nat
      ensures k in Files(shares, m, framesPerBlock) <==> HasFile(shares, m, k)
    {
      FilesKeys(shares, m, framesPerBlock, k);
    }
  }

  /** `_calculate_frame_distribution`: the file size, the planner's shares,
      then the loops of `DistributeFiles`. */
  method CalculateFrameDistribution(frameCount: nat, framesPerBlock: nat, blocksPerFile: nat, nWriters: nat)
    returns (d: map<nat, FileFrames>, order: seq<nat>)
    requires ValidRequest(frameCount, framesPerBlock, blocksPerFile, nWriters)
    ensures d == Distribution(frameCount, framesPerBlock, blocksPerFile, nWriters)
    ensures order == DistributionOrder(frameCount, framesPerBlock, blocksPerFile, nWriters)
  {
    var maxFramesPerFile := if blocksPerFile > 0 then framesPerBlock * blocksPerFile else frameCount;
    var framesPerFileWriter := FramesPerFileWriter(frameCount, framesPerBlock, nWriters);
    d, order := DistributeFiles(framesPerFileWriter, maxFramesPerFile, framesPerBlock);
  }

  /** The loops of `_calculate_frame_distribution`, filling a dictionary whose
      insertion order is returned alongside it. */
  method DistributeFiles(shares: seq<nat>, maxFrames: nat, framesPerBlock: nat)
    returns (d: map<nat, FileFrames>, order: seq<nat>)
    requires maxFrames > 0 && |shares| > 0
    ensures d == Files(shares, maxFrames, framesPerBlock)
    ensures order == KeyOrder(shares, maxFrames)
  {
    var nWriters := |shares|;
    d, order := map[], [];
    var framesBeforeNewFile := nWriters * maxFrames;
    var w := 0;
    while w < nWriters
      invariant 0 <= w <= nWriters
      invariant forall k: nat :: k in d <==> HasFile(shares, maxFrames, k) && Visited(nWriters, k, w, 0)
      invariant forall k: nat :: k in d ==> d[k] == SlotRecordOrDefault(shares, maxFrames, framesPerBlock, k)
      invariant order == KeyOrderUpTo(shares, maxFrames, w)
    {
      var nFrames := shares[w];
      var nFiles := CeilDiv(nFrames, maxFrames);
      var i := 0;
      while i < nFiles
        invariant 0 <= i <= nFiles
        invariant forall k: nat :: k in d <==> HasFile(shares, maxFrames, k) && Visited(nWriters, k, w, i)
        invariant forall k: nat :: k in d ==> d[k] == SlotRecordOrDefault(shares, maxFrames, framesPerBlock, k)
        invariant order == KeyOrderUpTo(shares, maxFrames, w) + WriterFileNumbers(nWriters, w, i)
      {
        var fileIdx := w + i * nWriters;
        LoopRecord(shares, maxFrames, framesPerBlock, w, i);
        VisitedStep(nWriters, w, i);
        d := d[fileIdx + 1 := FileFrames(
          frames := Min(nFrames - i * maxFrames, maxFrames),
          start := framesPerBlock * w + fileIdx / nWriters * framesBeforeNewFile,
          framesPerBlock := framesPerBlock)];
        order := order + [fileIdx + 1];
        i := i + 1;
      }
      VisitedNextWriter(shares, maxFrames, w);
      w := w + 1;
    }
    FilesUnique(shares, maxFrames, framesPerBlock, d);
  }

  /** Writer `w`'s `i`-th file of an acquisition exists exactly when the
      writer still has frames after `i` full files. */
  lemma DistributionAt(frameCount: nat, framesPerBlock: nat, blocksPerFile: nat, nWriters: nat, w: nat, i: nat)
    requires ValidRequest(frameCount, framesPerBlock, blocksPerFile, nWriters) && w < nWriters
    ensures var shares := FramesPerFileWriter(frameCount, framesPerBlock, nWriters);
            var m := MaxFramesPerFile(frameCount, framesPerBlock, blocksPerFile);
            FileNumber(nWriters, w, i) in Distribution(frameCount, framesPerBlock, blocksPerFile, nWriters)
            <==> i * m < shares[w]
  {
    var shares := FramesPerFileWriter(frameCount, framesPerBlock, nWriters);
    var m := MaxFramesPerFile(frameCount, framesPerBlock, blocksPerFile);
    FilesAt(shares, m, framesPerBlock, w, i);
    CeilDivLess(shares[w], m, i);
  }

  /** The file numbers produced for the acquisitions of the unit tests. */
  lemma SingleWriterKeysExample()
    ensures Distribution(100, 10, 5, 1).Keys == {1, 2}
  {
    assert FramesPerFileWriter(100, 10, 1) == [100] by { ExampleByShares(100, 10, 1); }
    assert FileCount([100], 50, 0) == 2;
    forall k: nat
      ensures k in Distribution(100, 10, 5, 1) <==> k in {1, 2}
    {
      FilesKeys([100], 50, 10, k);
    }
  }

  lemma SingleWriterPartialFileKeysExample()
    ensures Distribution(105, 10, 5, 1).Keys == {1, 2, 3}
  {
    assert FramesPerFileWriter(105, 10, 1) == [105] by { ExampleByShares(105, 10, 1); }
    assert FileCount([105], 50, 0) == 3;
    forall k: nat
      ensures k in Distribution(105, 10, 5, 1) <==> k in {1, 2, 3}
    {
      FilesKeys([105], 50, 10, k);
    }
  }

  lemma WholeAcquisitionKeysExample()
    ensures Distribution(105, 10, 0, 1).Keys == {1}
  {
    assert FramesPerFileWriter(105, 10, 1) == [105] by { ExampleByShares(105, 10, 1); }
    forall k: nat
      ensures k in Distribution(105, 10, 0, 1) <==> k == 1
    {
      FilesKeys([105], 105, 10, k);
    }
  }

  lemma WholeAcquisitionLongKeysExample()
    ensures Distribution(1000, 2, 0, 1).Keys == {1}
  {
    assert FramesPerFileWriter(1000, 2, 1) == [1000] by { ExampleByShares(1000, 2, 1); }
    forall k: nat
      ensures k in Distribution(1000, 2, 0, 1) <==> k == 1
    {
      FilesKeys([1000], 1000, 2, k);
    }
  }

  lemma FourWritersKeysExample()
    ensures Distribution(25, 5, 1, 4).Keys == {1, 2, 3, 4, 5}
  {
    assert FramesPerFileWriter(25, 5, 4) == [10, 5, 5, 5] by { ExampleByShares(25, 5, 4); }
    PlanOfShares(25, 5, 1, 4, [10, 5, 5, 5], 5);
    FourWritersFiles();
  }

  lemma FourWritersFiles()
    ensures Files([10, 5, 5, 5], 5, 5).Keys == {1, 2, 3, 4, 5}
  {
    forall k: nat
      ensures k in Files([10, 5, 5, 5], 5, 5) <==> 1 <= k <= 5
    {
      FilesKeys([10, 5, 5, 5], 5, 5, k);
      FourWritersHasFile(k);
    }
  }

  lemma FourWritersHasFile(k: nat)
    ensures HasFile([10, 5, 5, 5], 5, k) <==> 1 <= k <= 5
  {
    var shares := [10, 5, 5, 5];
    assert FileCount(shares, 5, 0) == 2;
    assert forall w :: 1 <= w < 4 ==> FileCount(shares, 5, w) == 1;
    if k > 5 {
      BeyondFirstRound(k - 1);
    }
  }

  /** Past the first round of four writers, only writer 0 reaches a second
      file, and none a third. */
  lemma BeyondFirstRound(j: nat)
    requires j >= 5
    ensures j / 4 >= 1 && (j % 4 == 0 ==> j / 4 >= 2)
  {
    assert j == j / 4 * 4 + j % 4;
  }

  lemma TwoWritersKeysExample()
    ensures Distribution(100, 10, 3, 2).Keys == {1, 2, 3, 4}
  {
    assert FramesPerFileWriter(100, 10, 2) == [50, 50] by { ExampleByShares(100, 10, 2); }
    PlanOfShares(100, 10, 3, 2, [50, 50], 30);
    TwoWritersFiles();
  }

  lemma TwoWritersFiles()
    ensures Files([50, 50], 30, 10).Keys == {1, 2, 3, 4}
  {
    assert FileCount([50, 50], 30, 0) == 2 && FileCount([50, 50], 30, 1) == 2;
    forall k: nat
      ensures k in Files([50, 50], 30, 10) <==> 1 <= k <= 4
    {
      FilesKeys([50, 50], 30, 10, k);
      if k > 4 {
        var j := k - 1;
        assert j == j / 2 * 2 + j % 2;
      }
    }
  }

  /** The planned order and files of a request, once its shares and file
      size are known. */
  lemma PlanOfShares(frameCount: nat, framesPerBlock: nat, blocksPerFile: nat, nWriters: nat,
                     shares: seq<nat>, maxFrames: nat)
    requires ValidRequest(frameCount, framesPerBlock, blocksPerFile, nWriters)
    requires FramesPerFileWriter(frameCount, framesPerBlock, nWriters) == shares
    requires MaxFramesPerFile(frameCount, framesPerBlock, blocksPerFile) == maxFrames
    ensures maxFrames > 0
    ensures DistributionOrder(frameCount, framesPerBlock, blocksPerFile, nWriters) == KeyOrder(shares, maxFrames)
    ensures Distribution(frameCount, framesPerBlock, blocksPerFile, nWriters) == Files(shares, maxFrames, framesPerBlock)
  {
  }

}
