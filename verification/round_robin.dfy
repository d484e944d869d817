/** The acquisition side of the interleaving, as an independent reference for
    the planner: the detector deals frames to writers one block of
    `framesPerBlock` frames at a time, round robin, so logical frame `f` lies in
    block `f / B`, which is writer `(f / B) % N`'s block number `(f / B) / N`.
    Each writer stores the frames it receives in order, starting a new file
    every `MaxFramesPerFile` frames. */
module RoundRobin {
  import opened Arith
  import opened FrameDistribution
  import opened FileDistribution

  /** The writer that receives logical frame `f`. */
  function WriterOf(framesPerBlock: nat, nWriters: nat, f: nat): nat
    requires framesPerBlock > 0 && nWriters > 0
  {
    (f / framesPerBlock) % nWriters
  }

  /** How many frames that writer has received before `f`. */
  function LocalIndex(framesPerBlock: nat, nWriters: nat, f: nat): nat
    requires framesPerBlock > 0 && nWriters > 0
  {
    var lb := (f / framesPerBlock) / nWriters;
    MulMonotone(0, lb, framesPerBlock);
    lb * framesPerBlock + f % framesPerBlock
  }

  /** The logical frame that writer `w` receives as its `j`-th frame. */
  function Global(framesPerBlock: nat, nWriters: nat, w: nat, j: nat): nat
    requires framesPerBlock > 0
  {
    var b := j / framesPerBlock * nWriters + w;
    MulMonotone(0, b, framesPerBlock);
    b * framesPerBlock + j % framesPerBlock
  }

  lemma GlobalOfLocal(framesPerBlock: nat, nWriters: nat, f: nat)
    requires framesPerBlock > 0 && nWriters > 0
    ensures WriterOf(framesPerBlock, nWriters, f) < nWriters
    ensures Global(framesPerBlock, nWriters, WriterOf(framesPerBlock, nWriters, f), LocalIndex(framesPerBlock, nWriters, f)) == f
  {
    var b, o := f / framesPerBlock, f % framesPerBlock;
    var lb, w := b / nWriters, b % nWriters;
    assert f == b * framesPerBlock + o;
    assert b == lb * nWriters + w;
    DivModOf(lb, o, framesPerBlock);
  }

  lemma LocalOfGlobal(framesPerBlock: nat, nWriters: nat, w: nat, j: nat)
    requires framesPerBlock > 0 && w < nWriters
    ensures WriterOf(framesPerBlock, nWriters, Global(framesPerBlock, nWriters, w, j)) == w
    ensures LocalIndex(framesPerBlock, nWriters, Global(framesPerBlock, nWriters, w, j)) == j
  {
    var lb, o := j / framesPerBlock, j % framesPerBlock;
    var b := lb * nWriters + w;
    assert j == lb * framesPerBlock + o;
    DivModOf(b, o, framesPerBlock);
    DivModOf(lb, w, nWriters);
  }

  /** A writer receives its frames in increasing logical order. */
  lemma GlobalIncreasing(framesPerBlock: nat, nWriters: nat, w: nat, j: nat, j': nat)
    requires framesPerBlock > 0 && w < nWriters && j < j'
    ensures Global(framesPerBlock, nWriters, w, j) < Global(framesPerBlock, nWriters, w, j')
  {
    var lb, o, lb', o' := j / framesPerBlock, j % framesPerBlock, j' / framesPerBlock, j' % framesPerBlock;
    assert j == lb * framesPerBlock + o && j' == lb' * framesPerBlock + o';
    LexLess(lb', o', lb, o, framesPerBlock);
    LexLess(lb * nWriters + w, o, lb' * nWriters + w, o', framesPerBlock);
    LexLess(lb, w, lb', w, nWriters);
  }

  /** Writer `w`'s block `lb` is one of the `nb` blocks exactly when `lb` is
      below the number of blocks the planner deals to `w`. */
  lemma BlocksBelow(nb: nat, nWriters: nat, lb: nat, w: nat)
    requires w < nWriters
    ensures lb * nWriters + w < nb <==> lb < nb / nWriters + (if w < nb % nWriters then 1 else 0)
  {
    var q, r := nb / nWriters, nb % nWriters;
    assert nb == q * nWriters + r;
    LexLess(lb, w, q, r, nWriters);
  }

  /** The owner of the last block holds it as its last dealt block. */
  lemma LastBlockOwner(nb: nat, nWriters: nat, lb: nat, w: nat)
    requires nb > 0 && w < nWriters
    ensures var dealt := nb / nWriters + (if w < nb % nWriters then 1 else 0);
            lb * nWriters + w == nb - 1 <==> w == (nb - 1) % nWriters && lb + 1 == dealt
  {
    var q, last := (nb - 1) / nWriters, (nb - 1) % nWriters;
    assert nb - 1 == q * nWriters + last;
    LexEqual(lb, w, q, last, nWriters);
    if last + 1 < nWriters {
      DivModOf(q, last + 1, nWriters);
    } else {
      assert nb == (q + 1) * nWriters + 0;
      DivModOf(q + 1, 0, nWriters);
    }
  }

  /** The planner's share is exactly what the acquisition sends: writer `w`'s
      `j`-th frame exists (is below `frameCount`) iff `j` is below its share. */
  lemma ShareIsReceived(frameCount: nat, framesPerBlock: nat, nWriters: nat, w: nat, j: nat)
    requires framesPerBlock > 0 && w < nWriters
    ensures j < FramesPerFileWriter(frameCount, framesPerBlock, nWriters)[w]
            <==> Global(framesPerBlock, nWriters, w, j) < frameCount
  {
    FramesPerFileWriterShape(frameCount, framesPerBlock, nWriters, w);
    ReceivedByBlocks(frameCount, framesPerBlock, nWriters,
                     NumBlocks(frameCount, framesPerBlock), Overflow(frameCount, framesPerBlock), w, j);
  }

  /** `ShareIsReceived` over the block count `nb` and overflow `ov` of an
      acquisition of `frameCount == nb * B - ov` frames. */
  lemma ReceivedByBlocks(frameCount: nat, framesPerBlock: nat, nWriters: nat, nb: nat, ov: nat, w: nat, j: nat)
    requires framesPerBlock > 0 && w < nWriters && ov < framesPerBlock
    requires nb * framesPerBlock == frameCount + ov
    ensures var dealt := nb / nWriters + (if w < nb % nWriters then 1 else 0);
            var share := dealt * framesPerBlock - (if w == (nb - 1) % nWriters then ov else 0);
            j < share <==> Global(framesPerBlock, nWriters, w, j) < frameCount
  {
    var B := framesPerBlock;
    var lb, o := j / B, j % B;
    assert j == lb * B + o;
    if nb == 0 {
      assert ov == 0;
    } else if w == (nb - 1) % nWriters {
      ReceivedByLastOwner(frameCount, B, nWriters, nb, ov, w, lb, o);
    } else {
      ReceivedByOther(frameCount, B, nWriters, nb, ov, w, lb, o);
    }
  }

  lemma ReceivedByOther(frameCount: nat, framesPerBlock: nat, nWriters: nat, nb: nat, ov: nat, w: nat, lb: nat, o: nat)
    requires framesPerBlock > 0 && w < nWriters && ov < framesPerBlock && o < framesPerBlock
    requires nb > 0 && nb * framesPerBlock == frameCount + ov && w != (nb - 1) % nWriters
    ensures var dealt := nb / nWriters + (if w < nb % nWriters then 1 else 0);
            lb * framesPerBlock + o < dealt * framesPerBlock
            <==> (lb * nWriters + w) * framesPerBlock + o < frameCount
  {
    var B := framesPerBlock;
    var dealt := nb / nWriters + (if w < nb % nWriters then 1 else 0);
    var b := lb * nWriters + w;
    BlocksBelow(nb, nWriters, lb, w);
    LastBlockOwner(nb, nWriters, lb, w);
    assert (nb - 1) * B + (B - ov) == frameCount;
    LexLess(b, o, nb - 1, B - ov, B);
    LexLess(lb, o, dealt, 0, B);
  }

  lemma ReceivedByLastOwner(frameCount: nat, framesPerBlock: nat, nWriters: nat, nb: nat, ov: nat, w: nat, lb: nat, o: nat)
    requires framesPerBlock > 0 && w < nWriters && ov < framesPerBlock && o < framesPerBlock
    requires nb > 0 && nb * framesPerBlock == frameCount + ov && w == (nb - 1) % nWriters
    ensures var dealt := nb / nWriters + (if w < nb % nWriters then 1 else 0);
            lb * framesPerBlock + o < dealt * framesPerBlock - ov
            <==> (lb * nWriters + w) * framesPerBlock + o < frameCount
  {
    var q := (nb - 1) / nWriters;
    LastOwnerBlocks(nb, nWriters, w);
    BelowLastShare(lb, o, q, nb / nWriters + (if w < nb % nWriters then 1 else 0), framesPerBlock, ov);
    BelowLastFrames(frameCount, framesPerBlock, nWriters, nb, ov, w, lb, o, q);
  }

  /** The owner of the last block is dealt `(nb - 1) / n + 1` blocks. */
  lemma LastOwnerBlocks(nb: nat, nWriters: nat, w: nat)
    requires nb > 0 && w < nWriters && w == (nb - 1) % nWriters
    ensures nb - 1 == (nb - 1) / nWriters * nWriters + w
    ensures nb / nWriters + (if w < nb % nWriters then 1 else 0) == (nb - 1) / nWriters + 1
  {
    LastBlockOwner(nb, nWriters, (nb - 1) / nWriters, w);
  }

  /** The last owner, dealt `q + 1` blocks, keeps local frame `lb * B + o`
      exactly when it lies before the overflow cut. */
  lemma BelowLastShare(lb: nat, o: nat, q: nat, dealt: nat, B: nat, ov: nat)
    requires B > 0 && o < B && ov < B && dealt == q + 1
    ensures lb * B + o < dealt * B - ov <==> lb < q || (lb == q && o < B - ov)
  {
    MulAddDistrib(q, 1, B);
    LexLess(lb, o, q, B - ov, B);
  }

  /** The last owner's block `lb` (global block `lb * n + w`) frame `o` is
      below `frameCount` exactly when it lies before the overflow cut. */
  lemma BelowLastFrames(frameCount: nat, B: nat, nWriters: nat, nb: nat, ov: nat, w: nat, lb: nat, o: nat, q: nat)
    requires B > 0 && w < nWriters && ov < B && o < B
    requires nb > 0 && nb * B == frameCount + ov && nb - 1 == q * nWriters + w
    ensures (lb * nWriters + w) * B + o < frameCount <==> lb < q || (lb == q && o < B - ov)
  {
    MulAddDistrib(nb - 1, 1, B);
    LexLess(lb * nWriters + w, o, nb - 1, B - ov, B);
    LexLess(lb, w, q, w, nWriters);
    LexEqual(lb, w, q, w, nWriters);
  }

  /** Counts, frame by frame, the frames of an acquisition that reach writer
      `w`; the count is the planner's share for `w`. */
  method CountReceived(frameCount: nat, framesPerBlock: nat, nWriters: nat, w: nat) returns (count: nat)
    requires framesPerBlock > 0 && w < nWriters
    ensures count == FramesPerFileWriter(frameCount, framesPerBlock, nWriters)[w]
  {
    count := 0;
    var f := 0;
    while f < frameCount
      invariant f <= frameCount
      invariant forall j: nat :: j < count <==> Global(framesPerBlock, nWriters, w, j) < f
    {
      if WriterOf(framesPerBlock, nWriters, f) == w {
        ReceiveStep(framesPerBlock, nWriters, w, count, f);
        count := count + 1;
      } else {
        forall j: nat
          ensures Global(framesPerBlock, nWriters, w, j) != f
        {
          LocalOfGlobal(framesPerBlock, nWriters, w, j);
        }
      }
      f := f + 1;
    }
    var share := FramesPerFileWriter(frameCount, framesPerBlock, nWriters)[w];
    ShareIsReceived(frameCount, framesPerBlock, nWriters, w, count);
    ShareIsReceived(frameCount, framesPerBlock, nWriters, w, share);
  }

  /** If writer `w`'s frames below `f` are its first `count` frames and `f`
      reaches `w`, then `f` is its frame number `count`. */
  lemma ReceiveStep(framesPerBlock: nat, nWriters: nat, w: nat, count: nat, f: nat)
    requires framesPerBlock > 0 && w < nWriters
    requires forall j: nat :: j < count <==> Global(framesPerBlock, nWriters, w, j) < f
    requires WriterOf(framesPerBlock, nWriters, f) == w
    ensures forall j: nat :: j < count + 1 <==> Global(framesPerBlock, nWriters, w, j) < f + 1
  {
    var l := LocalIndex(framesPerBlock, nWriters, f);
    GlobalOfLocal(framesPerBlock, nWriters, f);
    if l > count {
      GlobalIncreasing(framesPerBlock, nWriters, w, count, l);
    }
    assert l == count;
    forall j: nat
      ensures j < count + 1 <==> Global(framesPerBlock, nWriters, w, j) < f + 1
    {
      if j > count {
        GlobalIncreasing(framesPerBlock, nWriters, w, count, j);
      }
    }
  }

  /** Where a logical frame is stored: a file number and a row in that file. */
  datatype Location = Location(fileNumber: nat, row: nat)

  /** The file and row where the writers store logical frame `f`. */
  function Locate(frameCount: nat, framesPerBlock: nat, blocksPerFile: nat, nWriters: nat, f: nat): Location
    requires ValidRequest(frameCount, framesPerBlock, blocksPerFile, nWriters)
  {
    Location(FileNumber(nWriters, WriterOf(framesPerBlock, nWriters, f),
                        FileIndexOf(frameCount, framesPerBlock, blocksPerFile, nWriters, f)),
             RowOf(frameCount, framesPerBlock, blocksPerFile, nWriters, f))
  }

  /** Which of its writer's files holds logical frame `f`, counted from 0. */
  function FileIndexOf(frameCount: nat, framesPerBlock: nat, blocksPerFile: nat, nWriters: nat, f: nat): nat
    requires ValidRequest(frameCount, framesPerBlock, blocksPerFile, nWriters)
  {
    LocalIndex(framesPerBlock, nWriters, f) / MaxFramesPerFile(frameCount, framesPerBlock, blocksPerFile)
  }

  /** The row of that file that holds logical frame `f`. */
  function RowOf(frameCount: nat, framesPerBlock: nat, blocksPerFile: nat, nWriters: nat, f: nat): nat
    requires ValidRequest(frameCount, framesPerBlock, blocksPerFile, nWriters)
  {
    LocalIndex(framesPerBlock, nWriters, f) % MaxFramesPerFile(frameCount, framesPerBlock, blocksPerFile)
  }

  /** The distribution has a file at `loc` with a row at `loc.row`. */
  predicate HasRow(d: map<nat, FileFrames>, loc: Location)
  {
    loc.fileNumber in d && loc.row < d[loc.fileNumber].frames
  }

  /** The logical frame that writer `w` stores at row `r` of its `i`-th file. */
  function StoredFrame(frameCount: nat, framesPerBlock: nat, blocksPerFile: nat, nWriters: nat, w: nat, i: nat, r: nat): nat
    requires framesPerBlock > 0
  {
    Global(framesPerBlock, nWriters, w, i * MaxFramesPerFile(frameCount, framesPerBlock, blocksPerFile) + r)
  }

  /** Every logical frame is stored in a file of the distribution, at a row
      inside that file, and that row holds it. */
  lemma EveryFrameStored(frameCount: nat, framesPerBlock: nat, blocksPerFile: nat, nWriters: nat, f: nat)
    requires ValidRequest(frameCount, framesPerBlock, blocksPerFile, nWriters) && f < frameCount
    ensures HasRow(Distribution(frameCount, framesPerBlock, blocksPerFile, nWriters),
                   Locate(frameCount, framesPerBlock, blocksPerFile, nWriters, f))
    ensures StoredFrame(frameCount, framesPerBlock, blocksPerFile, nWriters, WriterOf(framesPerBlock, nWriters, f),
                        FileIndexOf(frameCount, framesPerBlock, blocksPerFile, nWriters, f),
                        RowOf(frameCount, framesPerBlock, blocksPerFile, nWriters, f)) == f
  {
    var m := MaxFramesPerFile(frameCount, framesPerBlock, blocksPerFile);
    var w, j := WriterOf(framesPerBlock, nWriters, f), LocalIndex(framesPerBlock, nWriters, f);
    GlobalOfLocal(framesPerBlock, nWriters, f);
    ShareIsReceived(frameCount, framesPerBlock, nWriters, w, j);
    FrameInFiles(FramesPerFileWriter(frameCount, framesPerBlock, nWriters), m, framesPerBlock, w, j);
  }

  /** Writer `w`'s frame `j`, within its share, is row `j % maxFrames` of its
      file `j / maxFrames`. */
  lemma FrameInFiles(shares: seq<nat>, maxFrames: nat, framesPerBlock: nat, w: nat, j: nat)
    requires maxFrames > 0 && w < |shares| && j < shares[w]
    ensures var d := Files(shares, maxFrames, framesPerBlock);
            var k := FileNumber(|shares|, w, j / maxFrames);
            k in d && j % maxFrames < d[k].frames
    ensures j == j / maxFrames * maxFrames + j % maxFrames
  {
    var i, r := j / maxFrames, j % maxFrames;
    assert j == i * maxFrames + r;
    CeilDivLess(shares[w], maxFrames, i);
    FilesAt(shares, maxFrames, framesPerBlock, w, i);
  }

  /** Every row of every file holds a logical frame, and that frame is located
      at that row: storage is one-to-one. */
  lemma EveryRowLocated(frameCount: nat, framesPerBlock: nat, blocksPerFile: nat, nWriters: nat, w: nat, i: nat, r: nat)
    requires ValidRequest(frameCount, framesPerBlock, blocksPerFile, nWriters) && w < nWriters
    requires var d := Distribution(frameCount, framesPerBlock, blocksPerFile, nWriters);
             var k := FileNumber(nWriters, w, i);
             k in d && r < d[k].frames
    ensures StoredFrame(frameCount, framesPerBlock, blocksPerFile, nWriters, w, i, r) < frameCount
    ensures Locate(frameCount, framesPerBlock, blocksPerFile, nWriters,
                   StoredFrame(frameCount, framesPerBlock, blocksPerFile, nWriters, w, i, r))
            == Location(FileNumber(nWriters, w, i), r)
  {
    var shares := FramesPerFileWriter(frameCount, framesPerBlock, nWriters);
    var m := MaxFramesPerFile(frameCount, framesPerBlock, blocksPerFile);
    RowInShare(shares, m, framesPerBlock, w, i, r);
    var j := i * m + r;
    ShareIsReceived(frameCount, framesPerBlock, nWriters, w, j);
    LocalOfGlobal(framesPerBlock, nWriters, w, j);
    DivModOf(i, r, m);
  }

  /** Row `r` of writer `w`'s `i`-th file is the writer's frame
      `i * maxFrames + r`, within the writer's share. */
  lemma RowInShare(shares: seq<nat>, maxFrames: nat, framesPerBlock: nat, w: nat, i: nat, r: nat)
    requires maxFrames > 0 && w < |shares|
    requires var d := Files(shares, maxFrames, framesPerBlock);
             var k := FileNumber(|shares|, w, i);
             k in d && r < d[k].frames
    ensures i < FileCount(shares, maxFrames, w)
    ensures r < maxFrames && i * maxFrames + r < shares[w]
  {
    FilesAt(shares, maxFrames, framesPerBlock, w, i);
    CeilDivLess(shares[w], maxFrames, i);
  }

  /** No two logical frames are stored at the same place. */
  lemma LocateInjective(frameCount: nat, framesPerBlock: nat, blocksPerFile: nat, nWriters: nat, f: nat, g: nat)
    requires ValidRequest(frameCount, framesPerBlock, blocksPerFile, nWriters)
    ensures (Locate(frameCount, framesPerBlock, blocksPerFile, nWriters, f)
             == Locate(frameCount, framesPerBlock, blocksPerFile, nWriters, g)) <==> f == g
  {
    var m := MaxFramesPerFile(frameCount, framesPerBlock, blocksPerFile);
    var wf, jf := WriterOf(framesPerBlock, nWriters, f), LocalIndex(framesPerBlock, nWriters, f);
    var wg, jg := WriterOf(framesPerBlock, nWriters, g), LocalIndex(framesPerBlock, nWriters, g);
    GlobalOfLocal(framesPerBlock, nWriters, f);
    GlobalOfLocal(framesPerBlock, nWriters, g);
    FileNumberInjective(nWriters, wf, jf / m, wg, jg / m);
    assert jf == jf / m * m + jf % m && jg == jg / m * m + jg % m;
  }
}
