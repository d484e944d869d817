/** The frame-distribution planner of `generate_vds.py`: how many frames each
    round-robin file writer receives, and how each writer's share is cut into
    numbered physical files.

    Names used throughout: `frameCount` frames are cut into blocks of
    `framesPerBlock`; blocks are dealt round robin to `nWriters` writers; a
    writer rolls to a new file after `blocksPerFile` blocks (0 = never). */
module FrameDistribution {
  import opened Arith

  /** One physical file: it holds `frames` rows, and its first full block
      lands at logical frame `start`. */
  datatype FileFrames = FileFrames(frames: nat, start: nat, framesPerBlock: nat)
  {
    /** Number of complete blocks in the file. */
    function Blocks(): (b: nat)
      requires framesPerBlock > 0
      ensures b * framesPerBlock <= frames < (b + 1) * framesPerBlock
    {
      var b := frames / framesPerBlock;
      assert frames == b * framesPerBlock + frames % framesPerBlock;
      assert (b + 1) * framesPerBlock == b * framesPerBlock + framesPerBlock;
      b
    }

    /** Frames left over after the complete blocks. */
    function RemainderFrames(): (r: nat)
      requires framesPerBlock > 0
      ensures r < framesPerBlock
      ensures Blocks() * framesPerBlock + r == frames
    {
      frames % framesPerBlock
    }
  }

  // ---------------------------------------------------------------------------
  // Frames per file writer
  // ---------------------------------------------------------------------------

  /** `math.ceil(frame_count / frames_per_block)`. */
  function NumBlocks(frameCount: nat, framesPerBlock: nat): nat
    requires framesPerBlock > 0
  {
    CeilDiv(frameCount, framesPerBlock)
  }

  /** Blocks dealt to writer `w` before the overflow correction: every writer
      gets `n_blocks // n`, and the first `n_blocks % n` writers one more. */
  function WriterBlocks(frameCount: nat, framesPerBlock: nat, nWriters: nat, w: nat): nat
    requires framesPerBlock > 0 && nWriters > 0
  {
    var nb := NumBlocks(frameCount, framesPerBlock);
    nb / nWriters + (if w < nb - nb / nWriters * nWriters then 1 else 0)
  }

  /** The list built by the source's loop `for i in range(k)`, before the
      correction: `(min_blocks + (i < remainder)) * frames_per_block`. */
  function DealtFrames(minBlocks: nat, remainder: nat, framesPerBlock: nat, k: nat): (s: seq<nat>)
    ensures |s| == k
  {
    if k == 0 then []
    else DealtFrames(minBlocks, remainder, framesPerBlock, k - 1)
         + [(minBlocks + (if k - 1 < remainder then 1 else 0)) * framesPerBlock]
  }

  function InitialFrames(frameCount: nat, framesPerBlock: nat, nWriters: nat): (s: seq<nat>)
    requires framesPerBlock > 0 && nWriters > 0
    ensures |s| == nWriters
  {
    var nb := NumBlocks(frameCount, framesPerBlock);
    DealtFrames(nb / nWriters, nb - nb / nWriters * nWriters, framesPerBlock, nWriters)
  }

  /** Frames by which the dealt blocks exceed the acquisition. */
  function Overflow(frameCount: nat, framesPerBlock: nat): (ov: nat)
    requires framesPerBlock > 0
    ensures ov < framesPerBlock
    ensures NumBlocks(frameCount, framesPerBlock) * framesPerBlock == frameCount + ov
  {
    var nb := NumBlocks(frameCount, framesPerBlock);
    assert nb == 0 || (nb - 1) * framesPerBlock == nb * framesPerBlock - framesPerBlock;
    nb * framesPerBlock - frameCount
  }

  /** Python's negative list index: `xs[i]` with `-n <= i < n`. */
  function PyIndex(i: int, n: nat): (r: nat)
    requires -(n as int) <= i < n
    ensures r < n
    ensures r % n == i % n
  {
    if i < 0 then i + n else i
  }

  /** The writer that owns the globally last block, `(n_blocks - 1) mod n`
      (Euclidean, so it is the last writer when no block exists at all). */
  function LastWriter(frameCount: nat, framesPerBlock: nat, nWriters: nat): (w: nat)
    requires framesPerBlock > 0 && nWriters > 0
    ensures w < nWriters
  {
    (NumBlocks(frameCount, framesPerBlock) - 1) % nWriters
  }

  lemma {:induction false} DealtFramesAt(minBlocks: nat, remainder: nat, framesPerBlock: nat, k: nat, w: nat)
    requires w < k
    ensures DealtFrames(minBlocks, remainder, framesPerBlock, k)[w]
            == (minBlocks + (if w < remainder then 1 else 0)) * framesPerBlock
  {
    if w < k - 1 {
      DealtFramesAt(minBlocks, remainder, framesPerBlock, k - 1, w);
    }
  }

  lemma {:induction false} DealtFramesSum(minBlocks: nat, remainder: nat, framesPerBlock: nat, k: nat)
    ensures Sum(DealtFrames(minBlocks, remainder, framesPerBlock, k))
            == (minBlocks * k + Min(remainder, k)) * framesPerBlock
  {
    if k > 0 {
      var prev := DealtFrames(minBlocks, remainder, framesPerBlock, k - 1);
      var e := if k - 1 < remainder then 1 else 0;
      var x := (minBlocks + e) * framesPerBlock;
      DealtFramesSum(minBlocks, remainder, framesPerBlock, k - 1);
      SumAppend(prev, x);
      var before := minBlocks * (k - 1) + Min(remainder, k - 1);
      MulAddDistrib(before, minBlocks + e, framesPerBlock);
      assert minBlocks * (k - 1) + minBlocks == minBlocks * k;
    }
  }

  /** The frames each writer writes, as computed by `_get_frames_per_file_writer`:
      the dealt blocks in frames, with the overflow taken off the list entry at
      Python index `remainder - 1`. */
  function FramesPerFileWriter(frameCount: nat, framesPerBlock: nat, nWriters: nat): (r: seq<nat>)
    requires framesPerBlock > 0 && nWriters > 0
    ensures |r| == nWriters
    ensures Sum(r) == frameCount
  {
    var nb := NumBlocks(frameCount, framesPerBlock);
    var remainder := nb - nb / nWriters * nWriters;
    var initial := InitialFrames(frameCount, framesPerBlock, nWriters);
    InitialCoversOverflow(frameCount, framesPerBlock, nWriters);
    var overflow := Sum(initial) - frameCount;
    var idx := PyIndex(remainder - 1, nWriters);
    SumUpdate(initial, idx, initial[idx] - overflow);
    initial[idx := initial[idx] - overflow]
  }

  /** The dealt frames cover the acquisition with exactly `Overflow` to spare,
      and the entry the source corrects is large enough to lose it. */
  lemma InitialCoversOverflow(frameCount: nat, framesPerBlock: nat, nWriters: nat)
    requires framesPerBlock > 0 && nWriters > 0
    ensures var nb := NumBlocks(frameCount, framesPerBlock);
            var remainder := nb - nb / nWriters * nWriters;
            var initial := InitialFrames(frameCount, framesPerBlock, nWriters);
            && -(nWriters as int) <= remainder - 1 < nWriters
            && Sum(initial) == frameCount + Overflow(frameCount, framesPerBlock)
            && initial[PyIndex(remainder - 1, nWriters)] >= Overflow(frameCount, framesPerBlock)
  {
    InitialSum(frameCount, framesPerBlock, nWriters);
    InitialLastEntry(frameCount, framesPerBlock, nWriters);
  }

  lemma InitialSum(frameCount: nat, framesPerBlock: nat, nWriters: nat)
    requires framesPerBlock > 0 && nWriters > 0
    ensures Sum(InitialFrames(frameCount, framesPerBlock, nWriters)) == frameCount + Overflow(frameCount, framesPerBlock)
  {
    var nb := NumBlocks(frameCount, framesPerBlock);
    var q := nb / nWriters;
    var remainder := nb - q * nWriters;
    DealtFramesSum(q, remainder, framesPerBlock, nWriters);
    PyIndexOfLastBlock(nb, nWriters);
    assert Min(remainder, nWriters) == remainder;
  }

  lemma InitialLastEntry(frameCount: nat, framesPerBlock: nat, nWriters: nat)
    requires framesPerBlock > 0 && nWriters > 0
    ensures var nb := NumBlocks(frameCount, framesPerBlock);
            var remainder := nb - nb / nWriters * nWriters;
            && -(nWriters as int) <= remainder - 1 < nWriters
            && InitialFrames(frameCount, framesPerBlock, nWriters)[PyIndex(remainder - 1, nWriters)]
               >= Overflow(frameCount, framesPerBlock)
  {
    var nb := NumBlocks(frameCount, framesPerBlock);
    var q := nb / nWriters;
    var remainder := nb - q * nWriters;
    var ov := Overflow(frameCount, framesPerBlock);
    PyIndexOfLastBlock(nb, nWriters);
    var idx := PyIndex(remainder - 1, nWriters);
    DealtFramesAt(q, remainder, framesPerBlock, nWriters, idx);
    NoBlocksNoOverflow(frameCount, framesPerBlock);
    LastEntryCovers(nb, nWriters, q, remainder, if idx < remainder then 1 else 0, framesPerBlock, ov);
  }

  lemma NoBlocksNoOverflow(frameCount: nat, framesPerBlock: nat)
    requires framesPerBlock > 0
    ensures Overflow(frameCount, framesPerBlock) > 0 ==> NumBlocks(frameCount, framesPerBlock) > 0
  {
  }

  /** The corrected entry holds at least one block whenever there is an
      overflow to take off it. */
  lemma LastEntryCovers(nb: nat, n: nat, q: nat, remainder: nat, e: nat, framesPerBlock: nat, ov: nat)
    requires framesPerBlock > 0 && ov < framesPerBlock && remainder < n
    requires nb == q * n + remainder && (ov > 0 ==> nb > 0) && (remainder > 0 ==> e == 1)
    ensures (q + e) * framesPerBlock >= ov
  {
    if ov > 0 {
      if remainder == 0 {
        assert q != 0;
      }
      MulMonotone(1, q + e, framesPerBlock);
    }
  }

  /** Writer `w`'s share in closed form: its dealt blocks, less the overflow if
      it owns the globally last block. */
  function Share(frameCount: nat, framesPerBlock: nat, nWriters: nat, w: nat): int
    requires framesPerBlock > 0 && nWriters > 0
  {
    WriterBlocks(frameCount, framesPerBlock, nWriters, w) * framesPerBlock
    - (if w == LastWriter(frameCount, framesPerBlock, nWriters)
       then Overflow(frameCount, framesPerBlock) else 0)
  }

  /** The Python index `remainder - 1` names the owner of the last block. */
  lemma LastWriterIndex(frameCount: nat, framesPerBlock: nat, nWriters: nat)
    requires framesPerBlock > 0 && nWriters > 0
    ensures var nb := NumBlocks(frameCount, framesPerBlock);
            var remainder := nb - nb / nWriters * nWriters;
            -(nWriters as int) <= remainder - 1 < nWriters
            && PyIndex(remainder - 1, nWriters) == LastWriter(frameCount, framesPerBlock, nWriters)
  {
    PyIndexOfLastBlock(NumBlocks(frameCount, framesPerBlock), nWriters);
  }

  lemma PyIndexOfLastBlock(nb: nat, n: nat)
    requires n > 0
    ensures var remainder := nb - nb / n * n;
            && 0 <= remainder < n && remainder == nb % n
            && -(n as int) <= remainder - 1 < n && PyIndex(remainder - 1, n) == (nb - 1) % n
  {
    var q, rem := nb / n, nb % n;
    assert nb == q * n + rem;
    if rem >= 1 {
      assert nb - 1 == q * n + (rem - 1);
      DivModOf(q, rem - 1, n);
    } else {
      assert nb - 1 == (q - 1) * n + (n - 1);
      DivModOf(q - 1, n - 1, n);
    }
  }

  /** Writer `w` gets `n_blocks div n` blocks plus one if `w < n_blocks mod n`,
      and exactly one writer, the owner of the last block, loses the overflow. */
  lemma FramesPerFileWriterShape(frameCount: nat, framesPerBlock: nat, nWriters: nat, w: nat)
    requires framesPerBlock > 0 && nWriters > 0 && w < nWriters
    ensures var nb := NumBlocks(frameCount, framesPerBlock);
            WriterBlocks(frameCount, framesPerBlock, nWriters, w)
              == nb / nWriters + (if w < nb % nWriters then 1 else 0)
    ensures FramesPerFileWriter(frameCount, framesPerBlock, nWriters)[w]
            == Share(frameCount, framesPerBlock, nWriters, w)
    ensures 0 <= Overflow(frameCount, framesPerBlock) < framesPerBlock
  {
    var nb := NumBlocks(frameCount, framesPerBlock);
    var q := nb / nWriters;
    var remainder := nb - q * nWriters;
    PyIndexOfLastBlock(nb, nWriters);
    InitialSum(frameCount, framesPerBlock, nWriters);
    DealtFramesAt(q, remainder, framesPerBlock, nWriters, w);
  }

  lemma {:induction false} SumElement(s: seq<nat>, i: nat)
    requires i < |s|
    ensures s[i] <= Sum(s)
  {
    var n := |s|;
    SumNonNegative(s[..n - 1]);
    if i < n - 1 {
      SumElement(s[..n - 1], i);
    }
  }

  /** No writer is allotted more than the whole acquisition. */
  lemma ShareBound(frameCount: nat, framesPerBlock: nat, nWriters: nat, w: nat)
    requires framesPerBlock > 0 && nWriters > 0 && w < nWriters
    ensures FramesPerFileWriter(frameCount, framesPerBlock, nWriters)[w] <= frameCount
  {
    SumElement(FramesPerFileWriter(frameCount, framesPerBlock, nWriters), w);
  }

  /** The closed-form shares of writers `0 .. k-1`. */
  function Shares(frameCount: nat, framesPerBlock: nat, nWriters: nat, k: nat): (s: seq<int>)
    requires framesPerBlock > 0 && nWriters > 0
    ensures |s| == k
  {
    if k == 0 then []
    else Shares(frameCount, framesPerBlock, nWriters, k - 1)
         + [Share(frameCount, framesPerBlock, nWriters, k - 1)]
  }

  lemma {:induction false} SharesAt(frameCount: nat, framesPerBlock: nat, nWriters: nat, k: nat, w: nat)
    requires framesPerBlock > 0 && nWriters > 0 && w < k
    ensures Shares(frameCount, framesPerBlock, nWriters, k)[w]
            == Share(frameCount, framesPerBlock, nWriters, w)
  {
    if w < k - 1 {
      SharesAt(frameCount, framesPerBlock, nWriters, k - 1, w);
    }
  }

  /** Reduces a concrete expectation to the closed form. */
  lemma ExampleByShares(frameCount: nat, framesPerBlock: nat, nWriters: nat)
    requires framesPerBlock > 0 && nWriters > 0
    ensures FramesPerFileWriter(frameCount, framesPerBlock, nWriters)
            == Shares(frameCount, framesPerBlock, nWriters, nWriters)
  {
    forall w | 0 <= w < nWriters
      ensures FramesPerFileWriter(frameCount, framesPerBlock, nWriters)[w]
              == Shares(frameCount, framesPerBlock, nWriters, nWriters)[w]
    {
      FramesPerFileWriterShape(frameCount, framesPerBlock, nWriters, w);
      SharesAt(frameCount, framesPerBlock, nWriters, nWriters, w);
    }
  }

  /** Results the source's unit tests expect for ten frames. */
  lemma FramesPerFileWriterExamples()
    ensures FramesPerFileWriter(10, 1, 3) == [4, 3, 3]
  {
    ExampleByShares(10, 1, 3);
  }

  /** Four-frame blocks: three blocks, the last one two frames short. */
  lemma ShortLastBlockExamples()
    ensures FramesPerFileWriter(10, 4, 3) == [4, 4, 2]
    ensures FramesPerFileWriter(10, 4, 2) == [6, 4]
  {
    ExampleByShares(10, 4, 3);
    ExampleByShares(10, 4, 2);
  }

  /** Three-frame blocks: the fourth block is short and belongs to writer 0. */
  lemma UnevenBlocksExample()
    ensures FramesPerFileWriter(10, 3, 3) == [4, 3, 3]
  {
    ExampleByShares(10, 3, 3);
    assert Shares(10, 3, 3, 3) == [4, 3, 3];
  }

  lemma SingleWriterExample()
    ensures FramesPerFileWriter(10, 1, 1) == [10]
  {
    ExampleByShares(10, 1, 1);
    assert Shares(10, 1, 1, 1) == [10];
  }

  lemma FramesPerFileWriterLargeExamples()
    ensures FramesPerFileWriter(105, 10, 4) == [30, 30, 25, 20]
    ensures FramesPerFileWriter(1000000, 500, 4) == [250000, 250000, 250000, 250000]
  {
    OddFramesExample();
    MillionFramesExample();
  }

  /** 105 frames in blocks of ten: eleven blocks, the last one half full. */
  lemma OddFramesExample()
    ensures FramesPerFileWriter(105, 10, 4) == [30, 30, 25, 20]
  {
    var r := FramesPerFileWriter(105, 10, 4);
    OddFramesBlocks();
    forall w | 0 <= w < 4 ensures r[w] == if w < 2 then 30 else if w == 2 then 25 else 20 {
      FramesPerFileWriterShape(105, 10, 4, w);
    }
  }

  lemma OddFramesBlocks()
    ensures NumBlocks(105, 10) == 11 && LastWriter(105, 10, 4) == 2 && Overflow(105, 10) == 5
  {
  }

  /** A million frames in blocks of 500 split evenly over four writers. */
  lemma MillionFramesExample()
    ensures FramesPerFileWriter(1000000, 500, 4) == [250000, 250000, 250000, 250000]
  {
    var r := FramesPerFileWriter(1000000, 500, 4);
    MillionFramesBlocks();
    forall w | 0 <= w < 4 ensures r[w] == 250000 {
      FramesPerFileWriterShape(1000000, 500, 4, w);
    }
  }

  lemma MillionFramesBlocks()
    ensures NumBlocks(1000000, 500) == 2000 && LastWriter(1000000, 500, 4) == 3 && Overflow(1000000, 500) == 0
  {
  }

  /** Ten writers, three blocks: the last block is short and writers 3..9 idle. */
  lemma TenWritersExample()
    ensures FramesPerFileWriter(10, 4, 10) == [4, 4, 2, 0, 0, 0, 0, 0, 0, 0]
  {
    var r := FramesPerFileWriter(10, 4, 10);
    TenWritersBlocks();
    forall w | 0 <= w < 10 ensures r[w] == if w < 2 then 4 else if w == 2 then 2 else 0 {
      FramesPerFileWriterShape(10, 4, 10, w);
    }
    assert r[..3] == [4, 4, 2] && r[3..] == [0, 0, 0, 0, 0, 0, 0];
    assert r == r[..3] + r[3..];
  }

  lemma TenWritersBlocks()
    ensures NumBlocks(10, 4) == 3 && LastWriter(10, 4, 10) == 2 && Overflow(10, 4) == 2
  {
  }
}
