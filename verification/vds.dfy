/** `create_interleave_vds` of `generate_vds.py`: the virtual dataset that
    stitches the writers' files back into acquisition order.

    For every file of the distribution the layout gets up to two mappings:
    its complete blocks go to a multi-block selection (one block every
    `nWriters * framesPerBlock` frames, from the file's `start`), and a
    trailing partial block goes to the last frames of the acquisition.

    The main results: every mapping is well formed and sends each source row
    to the logical frame the round-robin acquisition stored there; the
    mappings never overlap; every frame below `frameCount` is covered; and so
    reading the virtual dataset over the writers' files gives back the
    acquisition in order. */
module Vds {
  import opened Arith
  import opened Wrappers
  import opened Seqs
  import opened FrameDistribution
  import opened FileDistribution
  import opened Hyperslab
  import opened Naming
  import opened RoundRobin

  /** `v_layout[target] = v_source[source]`, where `v_source` is dataset
      `dataset` of file `fileName` (file number `fileNumber`), declared with
      `sourceFrames` rows. */
  datatype Mapping = Mapping(
    fileNumber: nat,
    fileName: string,
    dataset: string,
    sourceFrames: nat,
    target: Selection,
    source: Selection)

  /** One `h5py.VirtualLayout` of shape `(frames, height, width)`, stored as
      dataset `name` of the virtual-dataset file. */
  datatype VirtualDataset = VirtualDataset(
    name: string,
    frames: nat,
    height: nat,
    width: nat,
    dtype: string,
    mappings: seq<Mapping>)

  /** The file `<prefix>_vds.h5` and the virtual datasets created in it. */
  datatype VdsFile = VdsFile(fileName: string, datasets: seq<VirtualDataset>)

  /** A source row a virtual frame is read from. */
  datatype SourceRow = SourceRow(fileName: string, row: nat)

  // ---------------------------------------------------------------------------
  // Building the layout
  // ---------------------------------------------------------------------------

  /** The mapping of a file's complete blocks: `Blocks()` blocks of
      `framesPerBlock` frames, one every `nWriters * framesPerBlock` frames
      from the file's `start`, read from the file's first rows. */
  function BlockMapping(prefix: string, dataset: string, framesPerBlock: nat, nWriters: nat,
                        k: nat, ff: FileFrames): Mapping
    requires ff.framesPerBlock > 0
  {
    Mapping(k, FileName(prefix, k), dataset, ff.frames,
            MultiBlock(ff.start, nWriters * framesPerBlock, ff.Blocks(), framesPerBlock),
            Slice(0, ff.Blocks() * framesPerBlock))
  }

  /** The mapping of a file's trailing partial block: its last
      `RemainderFrames()` rows become the acquisition's last frames. */
  function TailMapping(prefix: string, dataset: string, frameCount: nat, framesPerBlock: nat,
                       k: nat, ff: FileFrames): Mapping
    requires ff.framesPerBlock > 0 && ff.RemainderFrames() <= frameCount
  {
    Mapping(k, FileName(prefix, k), dataset, ff.frames,
            Slice(frameCount - ff.RemainderFrames(), frameCount),
            Slice(ff.Blocks() * framesPerBlock, ff.frames))
  }

  /** The mappings added for file number `k` with record `ff`: its complete
      blocks, if any, then its trailing partial block, if any. */
  function FileMappings(prefix: string, dataset: string, frameCount: nat, framesPerBlock: nat,
                        nWriters: nat, k: nat, ff: FileFrames): (ms: seq<Mapping>)
    requires ff.framesPerBlock > 0 && ff.RemainderFrames() <= frameCount
    ensures |ms| == (if ff.Blocks() > 0 then 1 else 0) + (if ff.RemainderFrames() > 0 then 1 else 0)
    ensures forall m :: m in ms ==> m.fileNumber == k && m.fileName == FileName(prefix, k)
                                    && m.dataset == dataset && m.sourceFrames == ff.frames
  {
    (if ff.Blocks() > 0 then [BlockMapping(prefix, dataset, framesPerBlock, nWriters, k, ff)] else [])
    + (if ff.RemainderFrames() > 0 then [TailMapping(prefix, dataset, frameCount, framesPerBlock, k, ff)] else [])
  }

  /** Every listed file is in the distribution, with records `FileMappings`
      accepts. */
  predicate Fits(d: map<nat, FileFrames>, order: seq<nat>, frameCount: nat)
  {
    forall k :: k in order ==> k in d && d[k].framesPerBlock > 0 && d[k].RemainderFrames() <= frameCount
  }

  /** The mappings of the files listed in `order`, in that order. */
  function MappingsOf(prefix: string, dataset: string, frameCount: nat, framesPerBlock: nat,
                      nWriters: nat, d: map<nat, FileFrames>, order: seq<nat>): (ms: seq<Mapping>)
    requires Fits(d, order, frameCount)
    ensures forall m :: m in ms ==> m.dataset == dataset && m.fileName == FileName(prefix, m.fileNumber)
  {
    if |order| == 0 then []
    else
      var k := order[|order| - 1];
      MappingsOf(prefix, dataset, frameCount, framesPerBlock, nWriters, d, order[..|order| - 1])
      + FileMappings(prefix, dataset, frameCount, framesPerBlock, nWriters, k, d[k])
  }

  /** The mappings of one virtual dataset: the files in the order
      `frame_distribution.items()` yields them. */
  function Layout(prefix: string, dataset: string, frameCount: nat, framesPerBlock: nat,
                  blocksPerFile: nat, nWriters: nat): (ms: seq<Mapping>)
    requires ValidRequest(frameCount, framesPerBlock, blocksPerFile, nWriters)
    ensures forall m :: m in ms ==> m.dataset == dataset && m.fileName == FileName(prefix, m.fileNumber)
  {
    DistributionFits(frameCount, framesPerBlock, blocksPerFile, nWriters);
    MappingsOf(prefix, dataset, frameCount, framesPerBlock, nWriters,
               Distribution(frameCount, framesPerBlock, blocksPerFile, nWriters),
               DistributionOrder(frameCount, framesPerBlock, blocksPerFile, nWriters))
  }

  /** `create_interleave_vds`: plans the files, then writes one virtual
      dataset per requested name into `<prefix>_vds.h5`. The planner divides
      by the block size, the writer count and the file size, so a request
      with any of them zero fails before the file is opened. A name that
      repeats an earlier one fails when its dataset is created, because the
      file already holds a dataset of that name. */
  function CreateInterleaveVds(prefix: string, datasets: seq<string>, frameCount: nat,
                               framesPerBlock: nat, blocksPerFile: nat, height: nat, width: nat,
                               dtype: string, nWriters: nat): (r: Result<VdsFile, string>)
    ensures r.Failure? <==>
              !ValidRequest(frameCount, framesPerBlock, blocksPerFile, nWriters) || !Distinct(datasets)
    ensures !ValidRequest(frameCount, framesPerBlock, blocksPerFile, nWriters) ==>
              r == Failure("ZeroDivisionError")
    ensures ValidRequest(frameCount, framesPerBlock, blocksPerFile, nWriters) && !Distinct(datasets) ==>
              r == Failure("ValueError")
    ensures r.Success? ==>
              && r.value.fileName == VdsFileName(prefix)
              && |r.value.datasets| == |datasets|
              && forall i :: 0 <= i < |datasets| ==>
                   var v := r.value.datasets[i];
                   && v.name == datasets[i]
                   && v.frames == frameCount && v.height == height && v.width == width
                   && v.dtype == dtype
                   && v.mappings == Layout(prefix, datasets[i], frameCount, framesPerBlock,
                                           blocksPerFile, nWriters)
  {
    if !ValidRequest(frameCount, framesPerBlock, blocksPerFile, nWriters) then
      Failure("ZeroDivisionError")
    else if !Distinct(datasets) then
      Failure("ValueError")
    else
      Success(VdsFile(VdsFileName(prefix),
        seq(|datasets|, i requires 0 <= i < |datasets| =>
          VirtualDataset(datasets[i], frameCount, height, width, dtype,
                         Layout(prefix, datasets[i], frameCount, framesPerBlock, blocksPerFile, nWriters)))))
  }

  /** Two requests for the same dataset name make the call fail, whatever
      the plan: the second `create_virtual_dataset` finds the name taken. */
  lemma RepeatedDatasetFails(prefix: string, name: string, frameCount: nat, framesPerBlock: nat,
                             blocksPerFile: nat, height: nat, width: nat, dtype: string, nWriters: nat)
    ensures CreateInterleaveVds(prefix, [name, name], frameCount, framesPerBlock, blocksPerFile,
                                height, width, dtype, nWriters).Failure?
  {
    assert [name, name][0] == [name, name][1];
  }

  /** The planned files have the block size and fit in the acquisition. */
  lemma DistributionFits(frameCount: nat, framesPerBlock: nat, blocksPerFile: nat, nWriters: nat)
    requires ValidRequest(frameCount, framesPerBlock, blocksPerFile, nWriters)
    ensures Fits(Distribution(frameCount, framesPerBlock, blocksPerFile, nWriters),
                 DistributionOrder(frameCount, framesPerBlock, blocksPerFile, nWriters), frameCount)
  {
    var shares := FramesPerFileWriter(frameCount, framesPerBlock, nWriters);
    forall w | 0 <= w < nWriters
      ensures shares[w] <= frameCount
    {
      ShareBound(frameCount, framesPerBlock, nWriters, w);
    }
    FilesFit(shares, MaxFramesPerFile(frameCount, framesPerBlock, blocksPerFile), framesPerBlock, frameCount);
  }

  /** Files cut from shares of at most `bound` frames hold at most `bound`
      frames each. */
  lemma FilesFit(shares: seq<nat>, maxFrames: nat, framesPerBlock: nat, bound: nat)
    requires maxFrames > 0 && |shares| > 0 && framesPerBlock > 0
    requires forall w :: 0 <= w < |shares| ==> shares[w] <= bound
    ensures Fits(Files(shares, maxFrames, framesPerBlock), KeyOrder(shares, maxFrames), bound)
  {
    var d := Files(shares, maxFrames, framesPerBlock);
    KeyOrderUpToSpec(shares, maxFrames, |shares|);
    forall k | k in KeyOrder(shares, maxFrames)
      ensures k in d && d[k].framesPerBlock > 0 && d[k].RemainderFrames() <= bound
    {
      FileFits(shares, maxFrames, framesPerBlock, bound, k);
    }
  }

  /** A file holds no more than the largest share. */
  lemma FileFits(shares: seq<nat>, maxFrames: nat, framesPerBlock: nat, bound: nat, k: nat)
    requires maxFrames > 0 && |shares| > 0 && HasFile(shares, maxFrames, k)
    requires forall w :: 0 <= w < |shares| ==> shares[w] <= bound
    ensures var d := Files(shares, maxFrames, framesPerBlock);
            && k in d
            && d[k].framesPerBlock == framesPerBlock
            && d[k].frames <= bound
  {
    FilesKeys(shares, maxFrames, framesPerBlock, k);
    var w, i := SlotOf(shares, maxFrames, framesPerBlock, k);
    RecordWithinShare(shares, maxFrames, framesPerBlock, w, i);
  }

  lemma RecordWithinShare(shares: seq<nat>, maxFrames: nat, framesPerBlock: nat, w: nat, i: nat)
    requires maxFrames > 0 && w < |shares| && i < FileCount(shares, maxFrames, w)
    ensures FileRecord(shares, maxFrames, framesPerBlock, w, i).frames <= shares[w]
    ensures FileRecord(shares, maxFrames, framesPerBlock, w, i).framesPerBlock == framesPerBlock
  {
    CeilDivLess(shares[w], maxFrames, i);
  }

  // ---------------------------------------------------------------------------
  // Where the mappings send each row
  // ---------------------------------------------------------------------------

  /** The `r`-th frame of the multi-block selection of writer `w`'s `i`-th file
      is the writer's frame `i * maxFrames + r`, when files hold whole blocks
      (`maxFrames == framesPerBlock * p`) or this is the writer's only file. */
  lemma BlockArith(framesPerBlock: nat, nWriters: nat, maxFrames: nat, p: nat, w: nat, i: nat, r: nat)
    requires framesPerBlock > 0 && (maxFrames == framesPerBlock * p || i == 0)
    ensures framesPerBlock * w + i * (nWriters * maxFrames)
              + r / framesPerBlock * (nWriters * framesPerBlock) + r % framesPerBlock
            == Global(framesPerBlock, nWriters, w, i * maxFrames + r)
  {
    var b := framesPerBlock;
    var q, o := r / b, r % b;
    assert r == q * b + o;
    var c: nat;
    if i == 0 {
      c := q;
      StrideRounds(0, 0, q, nWriters, b);
    } else {
      c := i * p + q;
      StrideRounds(i, p, q, nWriters, b);
    }
    DivModOf(c, o, b);
  }

  /** `i` rounds of files of `p` blocks plus `q` rounds of blocks are
      `i * p + q` rounds of blocks. */
  lemma StrideRounds(i: nat, p: nat, q: nat, n: nat, b: nat)
    ensures i * (n * (b * p)) + q * (n * b) == (i * p + q) * n * b
    ensures i * (b * p) + q * b == (i * p + q) * b
    ensures ((i * p + q) * n) * b == (i * p + q) * n * b
  {
    assert i * (n * (b * p)) == (i * p) * n * b;
    assert (i * p + q) * n * b == (i * p) * n * b + q * n * b;
  }

  /** The owner of the last block ends its share `rem` frames into that block:
      with the share `c * B + rem` (`0 < rem < B`), its frame `c * B + r` is
      frame `frameCount - rem + r` of an acquisition of `nb` blocks,
      `ov` frames short of full. */
  lemma TailArith(frameCount: nat, framesPerBlock: nat, nWriters: nat, nb: nat, ov: nat,
                  w: nat, c: nat, rem: nat, r: nat)
    requires framesPerBlock > 0 && w < nWriters && ov < framesPerBlock
    requires nb > 0 && nb * framesPerBlock == frameCount + ov && w == (nb - 1) % nWriters
    requires (nb / nWriters + (if w < nb % nWriters then 1 else 0)) * framesPerBlock
             == c * framesPerBlock + rem + ov
    requires 0 < rem < framesPerBlock && r < rem
    ensures rem <= frameCount
    ensures Global(framesPerBlock, nWriters, w, c * framesPerBlock + r) == frameCount - rem + r
  {
    var b := framesPerBlock;
    var dealt := nb / nWriters + (if w < nb % nWriters then 1 else 0);
    var lb := (nb - 1) / nWriters;
    assert nb - 1 == lb * nWriters + w;
    LastBlockOwner(nb, nWriters, lb, w);
    LastShareTail(b, dealt, lb, ov, c, rem);
    DivModOf(c, r, b);
    assert Global(b, nWriters, w, c * b + r) == (nb - 1) * b + r by {
      assert Global(b, nWriters, w, c * b + r) == (c * nWriters + w) * b + r;
    }
    MulAddDistrib(nb - 1, 1, b);
  }

  /** A share of `dealt` blocks less `ov < B` frames, ending `rem` frames
      into a block, has `dealt - 1` complete blocks and `rem == B - ov`. */
  lemma LastShareTail(b: nat, dealt: nat, lb: nat, ov: nat, c: nat, rem: nat)
    requires b > 0 && ov < b && dealt == lb + 1
    requires dealt * b == c * b + rem + ov && 0 < rem < b
    ensures c == lb && rem == b - ov
  {
    assert ov > 0 by {
      if ov == 0 {
        LexEqual(c, rem, dealt, 0, b);
      }
    }
    assert dealt * b - ov == lb * b + (b - ov);
    LexEqual(c, rem, lb, b - ov, b);
  }

  /** With the whole acquisition in one file per writer, each writer has only
      its file 0. */
  lemma OnlyFirstFile(frameCount: nat, framesPerBlock: nat, nWriters: nat, w: nat, i: nat)
    requires framesPerBlock > 0 && nWriters > 0 && frameCount > 0 && w < nWriters
    requires i < FileCount(FramesPerFileWriter(frameCount, framesPerBlock, nWriters), frameCount, w)
    ensures i == 0
  {
    var shares := FramesPerFileWriter(frameCount, framesPerBlock, nWriters);
    ShareBound(frameCount, framesPerBlock, nWriters, w);
    CeilDivLess(shares[w], frameCount, i);
    if i > 0 {
      MulMonotone(1, i, frameCount);
    }
  }

  /** The multi-block target of writer `w`'s `i`-th file lists, as its `r`-th
      frame, the frame the writer stores at row `r` of that file. */
  lemma BlockTargetStored(frameCount: nat, framesPerBlock: nat, blocksPerFile: nat, nWriters: nat,
                          w: nat, i: nat, r: nat)
    requires ValidRequest(frameCount, framesPerBlock, blocksPerFile, nWriters) && w < nWriters
    requires i < FileCount(FramesPerFileWriter(frameCount, framesPerBlock, nWriters),
                           MaxFramesPerFile(frameCount, framesPerBlock, blocksPerFile), w)
    ensures var ff := FileRecord(FramesPerFileWriter(frameCount, framesPerBlock, nWriters),
                                 MaxFramesPerFile(frameCount, framesPerBlock, blocksPerFile),
                                 framesPerBlock, w, i);
            ff.start + r / framesPerBlock * (nWriters * framesPerBlock) + r % framesPerBlock
            == StoredFrame(frameCount, framesPerBlock, blocksPerFile, nWriters, w, i, r)
  {
    var shares := FramesPerFileWriter(frameCount, framesPerBlock, nWriters);
    var m := MaxFramesPerFile(frameCount, framesPerBlock, blocksPerFile);
    FileShape(shares, m, framesPerBlock, w, i);
    if blocksPerFile == 0 {
      OnlyFirstFile(frameCount, framesPerBlock, nWriters, w, i);
    }
    BlockArith(framesPerBlock, nWriters, m, blocksPerFile, w, i, r);
  }

  /** A writer's last file holds what is left of its share. */
  lemma LastFileFrames(shares: seq<nat>, maxFrames: nat, framesPerBlock: nat, w: nat, i: nat)
    requires maxFrames > 0 && w < |shares| && i + 1 == FileCount(shares, maxFrames, w)
    ensures i * maxFrames < shares[w]
    ensures FileRecord(shares, maxFrames, framesPerBlock, w, i).frames == shares[w] - i * maxFrames
  {
    CeilDivLess(shares[w], maxFrames, i);
    CeilDivLess(shares[w], maxFrames, i + 1);
    assert (i + 1) * maxFrames == i * maxFrames + maxFrames;
  }

  /** The slice target of a file's trailing partial block lists, as its `r`-th
      frame, the frame the writer stores at row `Blocks() * B + r` of that
      file: the partial block is the acquisition's last, and its last frames. */
  lemma TailTargetStored(frameCount: nat, framesPerBlock: nat, blocksPerFile: nat, nWriters: nat,
                         w: nat, i: nat, r: nat)
    requires ValidRequest(frameCount, framesPerBlock, blocksPerFile, nWriters) && w < nWriters
    requires i < FileCount(FramesPerFileWriter(frameCount, framesPerBlock, nWriters),
                           MaxFramesPerFile(frameCount, framesPerBlock, blocksPerFile), w)
    requires r < FileRecord(FramesPerFileWriter(frameCount, framesPerBlock, nWriters),
                            MaxFramesPerFile(frameCount, framesPerBlock, blocksPerFile),
                            framesPerBlock, w, i).RemainderFrames()
    ensures var ff := FileRecord(FramesPerFileWriter(frameCount, framesPerBlock, nWriters),
                                 MaxFramesPerFile(frameCount, framesPerBlock, blocksPerFile),
                                 framesPerBlock, w, i);
            && ff.RemainderFrames() <= frameCount
            && frameCount - ff.RemainderFrames() + r
               == StoredFrame(frameCount, framesPerBlock, blocksPerFile, nWriters, w, i,
                              ff.Blocks() * framesPerBlock + r)
  {
    var b := framesPerBlock;
    var shares := FramesPerFileWriter(frameCount, b, nWriters);
    var m := MaxFramesPerFile(frameCount, b, blocksPerFile);
    var ff := FileRecord(shares, m, b, w, i);
    var nb, ov := NumBlocks(frameCount, b), Overflow(frameCount, b);
    PartialBlockOnlyAtEnd(frameCount, b, blocksPerFile, nWriters, w, i);
    FramesPerFileWriterShape(frameCount, b, nWriters, w);
    LastFileFrames(shares, m, b, w, i);
    ShareBound(frameCount, b, nWriters, w);
    var c: nat;
    if blocksPerFile == 0 {
      OnlyFirstFile(frameCount, b, nWriters, w, i);
      c := ff.Blocks();
    } else {
      c := i * blocksPerFile + ff.Blocks();
      StrideRounds(i, blocksPerFile, ff.Blocks(), nWriters, b);
    }
    assert i * m + ff.Blocks() * b == c * b;
    TailArith(frameCount, b, nWriters, nb, ov, w, c, ff.RemainderFrames(), r);
  }

  // ---------------------------------------------------------------------------
  // Every mapping reads the right rows
  // ---------------------------------------------------------------------------

  /** A mapping h5py accepts: target and source select the same number of
      frames, multi-block selections do not overlap themselves, and the source
      rows lie inside the source dataset. */
  predicate WellFormed(m: Mapping)
  {
    && m.target.Valid() && m.source.Valid()
    && m.target.Size() == m.source.Size()
    && m.source.Slice? && m.source.lo <= m.source.hi <= m.sourceFrames
  }

  /** A well-formed mapping whose `r`-th target frame is an acquired frame,
      stored by the writers exactly at the mapping's `r`-th source row. */
  predicate MappingLocates(frameCount: nat, framesPerBlock: nat, blocksPerFile: nat, nWriters: nat, m: Mapping)
    requires ValidRequest(frameCount, framesPerBlock, blocksPerFile, nWriters)
  {
    && WellFormed(m)
    && forall r: nat :: r < m.target.Size() ==>
         && m.target.Element(r) < frameCount
         && Locate(frameCount, framesPerBlock, blocksPerFile, nWriters, m.target.Element(r))
            == Location(m.fileNumber, m.source.Element(r))
  }

  /** The complete-block mapping of writer `w`'s `i`-th file reads the right rows. */
  lemma BlockMappingLocates(prefix: string, dataset: string, frameCount: nat, framesPerBlock: nat,
                            blocksPerFile: nat, nWriters: nat, w: nat, i: nat)
    requires ValidRequest(frameCount, framesPerBlock, blocksPerFile, nWriters) && w < nWriters
    requires i < FileCount(FramesPerFileWriter(frameCount, framesPerBlock, nWriters),
                           MaxFramesPerFile(frameCount, framesPerBlock, blocksPerFile), w)
    ensures var ff := FileRecord(FramesPerFileWriter(frameCount, framesPerBlock, nWriters),
                                 MaxFramesPerFile(frameCount, framesPerBlock, blocksPerFile),
                                 framesPerBlock, w, i);
            MappingLocates(frameCount, framesPerBlock, blocksPerFile, nWriters,
                           BlockMapping(prefix, dataset, framesPerBlock, nWriters, FileNumber(nWriters, w, i), ff))
  {
    var b := framesPerBlock;
    var shares := FramesPerFileWriter(frameCount, b, nWriters);
    var m := MaxFramesPerFile(frameCount, b, blocksPerFile);
    var ff := FileRecord(shares, m, b, w, i);
    var k := FileNumber(nWriters, w, i);
    var mp := BlockMapping(prefix, dataset, b, nWriters, k, ff);
    FileShape(shares, m, b, w, i);
    FilesAt(shares, m, b, w, i);
    MulMonotone(1, nWriters, b);
    forall r: nat | r < mp.target.Size()
      ensures mp.target.Element(r) < frameCount
      ensures Locate(frameCount, b, blocksPerFile, nWriters, mp.target.Element(r)) == Location(k, r)
    {
      BlockTargetStored(frameCount, b, blocksPerFile, nWriters, w, i, r);
      EveryRowLocated(frameCount, b, blocksPerFile, nWriters, w, i, r);
    }
  }

  /** The partial-block mapping of writer `w`'s `i`-th file reads the right rows. */
  lemma TailMappingLocates(prefix: string, dataset: string, frameCount: nat, framesPerBlock: nat,
                           blocksPerFile: nat, nWriters: nat, w: nat, i: nat)
    requires ValidRequest(frameCount, framesPerBlock, blocksPerFile, nWriters) && w < nWriters
    requires i < FileCount(FramesPerFileWriter(frameCount, framesPerBlock, nWriters),
                           MaxFramesPerFile(frameCount, framesPerBlock, blocksPerFile), w)
    requires FileRecord(FramesPerFileWriter(frameCount, framesPerBlock, nWriters),
                        MaxFramesPerFile(frameCount, framesPerBlock, blocksPerFile),
                        framesPerBlock, w, i).RemainderFrames() > 0
    ensures var ff := FileRecord(FramesPerFileWriter(frameCount, framesPerBlock, nWriters),
                                 MaxFramesPerFile(frameCount, framesPerBlock, blocksPerFile),
                                 framesPerBlock, w, i);
            && ff.RemainderFrames() <= frameCount
            && MappingLocates(frameCount, framesPerBlock, blocksPerFile, nWriters,
                              TailMapping(prefix, dataset, frameCount, framesPerBlock, FileNumber(nWriters, w, i), ff))
  {
    var b := framesPerBlock;
    var shares := FramesPerFileWriter(frameCount, b, nWriters);
    var m := MaxFramesPerFile(frameCount, b, blocksPerFile);
    var ff := FileRecord(shares, m, b, w, i);
    var k := FileNumber(nWriters, w, i);
    TailTargetStored(frameCount, b, blocksPerFile, nWriters, w, i, 0);
    var mp := TailMapping(prefix, dataset, frameCount, b, k, ff);
    FileShape(shares, m, b, w, i);
    FilesAt(shares, m, b, w, i);
    forall r: nat | r < mp.target.Size()
      ensures mp.target.Element(r) < frameCount
      ensures Locate(frameCount, b, blocksPerFile, nWriters, mp.target.Element(r))
              == Location(k, ff.Blocks() * b + r)
    {
      TailTargetStored(frameCount, b, blocksPerFile, nWriters, w, i, r);
      EveryRowLocated(frameCount, b, blocksPerFile, nWriters, w, i, ff.Blocks() * b + r);
    }
  }

  /** Every mapping of file number `k` of the distribution reads the right rows. */
  lemma FileMappingsLocate(prefix: string, dataset: string, frameCount: nat, framesPerBlock: nat,
                           blocksPerFile: nat, nWriters: nat, k: nat)
    requires ValidRequest(frameCount, framesPerBlock, blocksPerFile, nWriters)
    requires k in Distribution(frameCount, framesPerBlock, blocksPerFile, nWriters)
    ensures var ff := Distribution(frameCount, framesPerBlock, blocksPerFile, nWriters)[k];
            && ff.framesPerBlock > 0 && ff.RemainderFrames() <= frameCount
            && forall mp :: mp in FileMappings(prefix, dataset, frameCount, framesPerBlock, nWriters, k, ff)
                         ==> MappingLocates(frameCount, framesPerBlock, blocksPerFile, nWriters, mp)
  {
    var w, i := DistributionSlot(frameCount, framesPerBlock, blocksPerFile, nWriters, k);
    WriterFileMappingsLocate(prefix, dataset, frameCount, framesPerBlock, blocksPerFile, nWriters, w, i);
  }

  /** File number `k` of the distribution is writer `w`'s file `i`. */
  lemma DistributionSlot(frameCount: nat, framesPerBlock: nat, blocksPerFile: nat, nWriters: nat, k: nat)
    returns (w: nat, i: nat)
    requires ValidRequest(frameCount, framesPerBlock, blocksPerFile, nWriters)
    requires k in Distribution(frameCount, framesPerBlock, blocksPerFile, nWriters)
    ensures w < nWriters && k == FileNumber(nWriters, w, i)
    ensures i < FileCount(FramesPerFileWriter(frameCount, framesPerBlock, nWriters),
                          MaxFramesPerFile(frameCount, framesPerBlock, blocksPerFile), w)
    ensures Distribution(frameCount, framesPerBlock, blocksPerFile, nWriters)[k]
            == FileRecord(FramesPerFileWriter(frameCount, framesPerBlock, nWriters),
                          MaxFramesPerFile(frameCount, framesPerBlock, blocksPerFile), framesPerBlock, w, i)
  {
    var shares := FramesPerFileWriter(frameCount, framesPerBlock, nWriters);
    var m := MaxFramesPerFile(frameCount, framesPerBlock, blocksPerFile);
    assert |shares| == nWriters;
    w, i := FileAtSlot(shares, m, framesPerBlock, k);
  }


  /** Every mapping of writer `w`'s `i`-th file reads the right rows. */
  lemma WriterFileMappingsLocate(prefix: string, dataset: string, frameCount: nat, framesPerBlock: nat,
                                 blocksPerFile: nat, nWriters: nat, w: nat, i: nat)
    requires ValidRequest(frameCount, framesPerBlock, blocksPerFile, nWriters) && w < nWriters
    requires i < FileCount(FramesPerFileWriter(frameCount, framesPerBlock, nWriters),
                           MaxFramesPerFile(frameCount, framesPerBlock, blocksPerFile), w)
    ensures var ff := FileRecord(FramesPerFileWriter(frameCount, framesPerBlock, nWriters),
                                 MaxFramesPerFile(frameCount, framesPerBlock, blocksPerFile),
                                 framesPerBlock, w, i);
            && ff.framesPerBlock > 0 && ff.RemainderFrames() <= frameCount
            && forall mp :: mp in FileMappings(prefix, dataset, frameCount, framesPerBlock, nWriters,
                                               FileNumber(nWriters, w, i), ff)
                            ==> MappingLocates(frameCount, framesPerBlock, blocksPerFile, nWriters, mp)
  {
    var shares := FramesPerFileWriter(frameCount, framesPerBlock, nWriters);
    var m := MaxFramesPerFile(frameCount, framesPerBlock, blocksPerFile);
    var ff := FileRecord(shares, m, framesPerBlock, w, i);
    FileShape(shares, m, framesPerBlock, w, i);
    BlockMappingLocates(prefix, dataset, frameCount, framesPerBlock, blocksPerFile, nWriters, w, i);
    if ff.RemainderFrames() > 0 {
      TailMappingLocates(prefix, dataset, frameCount, framesPerBlock, blocksPerFile, nWriters, w, i);
    }
  }

  /** The mappings of the listed files are exactly the listed files' own
      mappings. */
  lemma {:induction false} MappingsOfMembers(prefix: string, dataset: string, frameCount: nat,
                                             framesPerBlock: nat, nWriters: nat,
                                             d: map<nat, FileFrames>, order: seq<nat>)
    requires Fits(d, order, frameCount)
    ensures forall mp :: mp in MappingsOf(prefix, dataset, frameCount, framesPerBlock, nWriters, d, order)
                         ==> && mp.fileNumber in order
                             && mp in FileMappings(prefix, dataset, frameCount, framesPerBlock, nWriters,
                                                   mp.fileNumber, d[mp.fileNumber])
    ensures forall k, mp :: k in order
                            && mp in FileMappings(prefix, dataset, frameCount, framesPerBlock, nWriters, k, d[k])
                            ==> mp in MappingsOf(prefix, dataset, frameCount, framesPerBlock, nWriters, d, order)
  {
    if |order| > 0 {
      MappingsOfMembers(prefix, dataset, frameCount, framesPerBlock, nWriters, d, order[..|order| - 1]);
      assert order == order[..|order| - 1] + [order[|order| - 1]];
    }
  }

  /** Every mapping of a virtual dataset reads the right rows. */
  lemma LayoutLocates(prefix: string, dataset: string, frameCount: nat, framesPerBlock: nat,
                      blocksPerFile: nat, nWriters: nat)
    requires ValidRequest(frameCount, framesPerBlock, blocksPerFile, nWriters)
    ensures forall mp :: mp in Layout(prefix, dataset, frameCount, framesPerBlock, blocksPerFile, nWriters)
                         ==> MappingLocates(frameCount, framesPerBlock, blocksPerFile, nWriters, mp)
  {
    var d := Distribution(frameCount, framesPerBlock, blocksPerFile, nWriters);
    var order := DistributionOrder(frameCount, framesPerBlock, blocksPerFile, nWriters);
    DistributionFits(frameCount, framesPerBlock, blocksPerFile, nWriters);
    MappingsOfMembers(prefix, dataset, frameCount, framesPerBlock, nWriters, d, order);
    forall mp | mp in Layout(prefix, dataset, frameCount, framesPerBlock, blocksPerFile, nWriters)
      ensures MappingLocates(frameCount, framesPerBlock, blocksPerFile, nWriters, mp)
    {
      FileMappingsLocate(prefix, dataset, frameCount, framesPerBlock, blocksPerFile, nWriters, mp.fileNumber);
    }
  }

  // ---------------------------------------------------------------------------
  // Reading the virtual dataset
  // ---------------------------------------------------------------------------

  /** Where mapping `m` reads virtual frame `x` from. */
  function ReadThrough(m: Mapping, x: nat): (src: SourceRow)
    requires WellFormed(m) && m.target.Selects(x)
    ensures src.fileName == m.fileName && src.row < m.sourceFrames
  {
    IndexOfSelected(m.target, x);
    SourceRow(m.fileName, m.source.Element(m.target.IndexOf(x)))
  }

  /** Where virtual frame `x` is read from: through the first mapping whose
      target selects it, or nowhere, in which case HDF5 returns the fill
      value. The mappings of a layout never overlap (`LayoutDisjoint`), so
      which selecting mapping is taken does not matter. */
  function Resolve(ms: seq<Mapping>, x: nat): (src: Option<SourceRow>)
    requires forall m :: m in ms ==> WellFormed(m)
    ensures src.None? <==> forall m :: m in ms ==> !m.target.Selects(x)
  {
    if |ms| == 0 then None
    else if ms[0].target.Selects(x) then Some(ReadThrough(ms[0], x))
    else
      assert forall m :: m in ms[1..] ==> m in ms;
      assert forall m :: m in ms ==> m == ms[0] || m in ms[1..];
      Resolve(ms[1..], x)
  }

  /** Reading virtual frame `x` over the files present: the row's content when
      its file exists and holds that row, the fill value (`None`) otherwise. */
  function ReadVirtual(ms: seq<Mapping>, files: map<string, seq<nat>>, x: nat): Option<nat>
    requires forall m :: m in ms ==> WellFormed(m)
  {
    match Resolve(ms, x)
    case None => None
    case Some(src) =>
      if src.fileName in files && src.row < |files[src.fileName]| then Some(files[src.fileName][src.row])
      else None
  }

  /** A mapping that selects `x` reads it from where the writers stored it. */
  lemma ReadThroughLocates(frameCount: nat, framesPerBlock: nat, blocksPerFile: nat, nWriters: nat,
                           prefix: string, m: Mapping, x: nat)
    requires ValidRequest(frameCount, framesPerBlock, blocksPerFile, nWriters)
    requires MappingLocates(frameCount, framesPerBlock, blocksPerFile, nWriters, m)
    requires m.fileName == FileName(prefix, m.fileNumber) && m.target.Selects(x)
    ensures x < frameCount
    ensures var loc := Locate(frameCount, framesPerBlock, blocksPerFile, nWriters, x);
            ReadThrough(m, x) == SourceRow(FileName(prefix, loc.fileNumber), loc.row)
  {
    IndexOfSelected(m.target, x);
  }

  /** Over mappings that each read the right rows, `Resolve` finds a frame
      exactly when some mapping selects it, and then reads it from where the
      writers stored it. */
  lemma {:induction false} ResolveLocates(frameCount: nat, framesPerBlock: nat, blocksPerFile: nat,
                                          nWriters: nat, prefix: string, ms: seq<Mapping>, x: nat)
    requires ValidRequest(frameCount, framesPerBlock, blocksPerFile, nWriters)
    requires forall m :: m in ms ==> && WellFormed(m)
                                     && MappingLocates(frameCount, framesPerBlock, blocksPerFile, nWriters, m)
                                     && m.fileName == FileName(prefix, m.fileNumber)
    ensures Resolve(ms, x).Some? ==>
              && x < frameCount
              && var loc := Locate(frameCount, framesPerBlock, blocksPerFile, nWriters, x);
                 Resolve(ms, x).value == SourceRow(FileName(prefix, loc.fileNumber), loc.row)
  {
    if |ms| > 0 {
      if ms[0].target.Selects(x) {
        ReadThroughLocates(frameCount, framesPerBlock, blocksPerFile, nWriters, prefix, ms[0], x);
      } else {
        assert forall m :: m in ms[1..] ==> m in ms;
        ResolveLocates(frameCount, framesPerBlock, blocksPerFile, nWriters, prefix, ms[1..], x);
      }
    }
  }

  /** The file holding frame `f` has a mapping that selects `f`. */
  lemma CoveredInFile(prefix: string, dataset: string, frameCount: nat, framesPerBlock: nat,
                      blocksPerFile: nat, nWriters: nat, f: nat) returns (mp: Mapping)
    requires ValidRequest(frameCount, framesPerBlock, blocksPerFile, nWriters) && f < frameCount
    ensures var d := Distribution(frameCount, framesPerBlock, blocksPerFile, nWriters);
            var k := Locate(frameCount, framesPerBlock, blocksPerFile, nWriters, f).fileNumber;
            && k in d && d[k].framesPerBlock > 0 && d[k].RemainderFrames() <= frameCount
            && mp in FileMappings(prefix, dataset, frameCount, framesPerBlock, nWriters, k, d[k])
            && mp.target.Selects(f)
  {
    var b := framesPerBlock;
    var d := Distribution(frameCount, b, blocksPerFile, nWriters);
    var loc := Locate(frameCount, b, blocksPerFile, nWriters, f);
    var k := loc.fileNumber;
    EveryFrameStored(frameCount, b, blocksPerFile, nWriters, f);
    FileMappingsLocate(prefix, dataset, frameCount, b, blocksPerFile, nWriters, k);
    var r;
    mp, r := MappingOfRow(prefix, dataset, frameCount, b, nWriters, k, d[k], loc.row);
    SelectsStored(frameCount, b, blocksPerFile, nWriters, mp, r, f);
  }

  /** Every row of a file is a source row of one of the file's mappings:
      of the complete-block mapping below `Blocks() * framesPerBlock`, of
      the tail mapping from there on. */
  lemma MappingOfRow(prefix: string, dataset: string, frameCount: nat, framesPerBlock: nat,
                     nWriters: nat, k: nat, ff: FileFrames, row: nat) returns (mp: Mapping, r: nat)
    requires ff.framesPerBlock == framesPerBlock > 0 && ff.RemainderFrames() <= frameCount
    requires row < ff.frames
    ensures mp in FileMappings(prefix, dataset, frameCount, framesPerBlock, nWriters, k, ff)
    ensures mp.fileNumber == k && r < mp.source.Size() && mp.source.Element(r) == row
  {
    var blockRows := ff.Blocks() * framesPerBlock;
    if row < blockRows {
      assert ff.Blocks() > 0;
      mp := BlockMapping(prefix, dataset, framesPerBlock, nWriters, k, ff);
      r := row;
    } else {
      assert ff.RemainderFrames() > 0;
      mp := TailMapping(prefix, dataset, frameCount, framesPerBlock, k, ff);
      r := row - blockRows;
    }
  }

  /** A mapping that reads the right rows selects every frame whose stored
      row is one of its source rows. */
  lemma SelectsStored(frameCount: nat, framesPerBlock: nat, blocksPerFile: nat, nWriters: nat,
                      mp: Mapping, r: nat, f: nat)
    requires ValidRequest(frameCount, framesPerBlock, blocksPerFile, nWriters) && f < frameCount
    requires MappingLocates(frameCount, framesPerBlock, blocksPerFile, nWriters, mp)
    requires r < mp.source.Size()
    requires Locate(frameCount, framesPerBlock, blocksPerFile, nWriters, f)
             == Location(mp.fileNumber, mp.source.Element(r))
    ensures mp.target.Selects(f)
  {
    var x := mp.target.Element(r);
    assert Locate(frameCount, framesPerBlock, blocksPerFile, nWriters, x)
           == Locate(frameCount, framesPerBlock, blocksPerFile, nWriters, f);
    LocateInjective(frameCount, framesPerBlock, blocksPerFile, nWriters, x, f);
    ElementSelected(mp.target, r);
  }

  /** Every mapping reads dataset `dataset` of a planned file, declared with
      the planned number of frames. */
  lemma LayoutSources(prefix: string, dataset: string, frameCount: nat, framesPerBlock: nat,
                      blocksPerFile: nat, nWriters: nat)
    requires ValidRequest(frameCount, framesPerBlock, blocksPerFile, nWriters)
    ensures var d := Distribution(frameCount, framesPerBlock, blocksPerFile, nWriters);
            forall m :: m in Layout(prefix, dataset, frameCount, framesPerBlock, blocksPerFile, nWriters) ==>
              && m.fileNumber in d
              && m.fileName == FileName(prefix, m.fileNumber)
              && m.dataset == dataset
              && m.sourceFrames == d[m.fileNumber].frames
  {
    var d := Distribution(frameCount, framesPerBlock, blocksPerFile, nWriters);
    var order := DistributionOrder(frameCount, framesPerBlock, blocksPerFile, nWriters);
    DistributionFits(frameCount, framesPerBlock, blocksPerFile, nWriters);
    MappingsOfMembers(prefix, dataset, frameCount, framesPerBlock, nWriters, d, order);
  }

  /** Every frame of the acquisition is selected by a mapping of the layout. */
  lemma FrameCovered(prefix: string, dataset: string, frameCount: nat, framesPerBlock: nat,
                     blocksPerFile: nat, nWriters: nat, f: nat) returns (mp: Mapping)
    requires ValidRequest(frameCount, framesPerBlock, blocksPerFile, nWriters) && f < frameCount
    ensures mp in Layout(prefix, dataset, frameCount, framesPerBlock, blocksPerFile, nWriters)
    ensures mp.target.Selects(f)
  {
    var d := Distribution(frameCount, framesPerBlock, blocksPerFile, nWriters);
    var order := DistributionOrder(frameCount, framesPerBlock, blocksPerFile, nWriters);
    DistributionFits(frameCount, framesPerBlock, blocksPerFile, nWriters);
    DistributionOrderSpec(frameCount, framesPerBlock, blocksPerFile, nWriters);
    MappingsOfMembers(prefix, dataset, frameCount, framesPerBlock, nWriters, d, order);
    mp := CoveredInFile(prefix, dataset, frameCount, framesPerBlock, blocksPerFile, nWriters, f);
  }

  /** The virtual dataset reads each frame of the acquisition from the file
      and row where the round-robin writers stored it, and frames past the
      acquisition from nowhere. */
  lemma LayoutReadsAcquisition(prefix: string, dataset: string, frameCount: nat, framesPerBlock: nat,
                               blocksPerFile: nat, nWriters: nat, x: nat)
    requires ValidRequest(frameCount, framesPerBlock, blocksPerFile, nWriters)
    ensures forall m :: m in Layout(prefix, dataset, frameCount, framesPerBlock, blocksPerFile, nWriters)
                        ==> WellFormed(m)
    ensures Resolve(Layout(prefix, dataset, frameCount, framesPerBlock, blocksPerFile, nWriters), x)
            == if x < frameCount then
                 var loc := Locate(frameCount, framesPerBlock, blocksPerFile, nWriters, x);
                 Some(SourceRow(FileName(prefix, loc.fileNumber), loc.row))
               else None
  {
    var ms := Layout(prefix, dataset, frameCount, framesPerBlock, blocksPerFile, nWriters);
    LayoutLocates(prefix, dataset, frameCount, framesPerBlock, blocksPerFile, nWriters);
    LayoutSources(prefix, dataset, frameCount, framesPerBlock, blocksPerFile, nWriters);
    ResolveLocates(frameCount, framesPerBlock, blocksPerFile, nWriters, prefix, ms, x);
    if x < frameCount {
      var mp := FrameCovered(prefix, dataset, frameCount, framesPerBlock, blocksPerFile, nWriters, x);
    }
  }

  /** The mappings of a layout never overlap: a frame is selected by at most
      one of them. */
  lemma LayoutDisjoint(prefix: string, dataset: string, frameCount: nat, framesPerBlock: nat,
                       blocksPerFile: nat, nWriters: nat, m1: Mapping, m2: Mapping, x: nat)
    requires ValidRequest(frameCount, framesPerBlock, blocksPerFile, nWriters)
    requires m1 in Layout(prefix, dataset, frameCount, framesPerBlock, blocksPerFile, nWriters)
    requires m2 in Layout(prefix, dataset, frameCount, framesPerBlock, blocksPerFile, nWriters)
    requires m1.target.Selects(x) && m2.target.Selects(x)
    ensures m1 == m2
  {
    var b := framesPerBlock;
    var d := Distribution(frameCount, b, blocksPerFile, nWriters);
    var order := DistributionOrder(frameCount, b, blocksPerFile, nWriters);
    LayoutLocates(prefix, dataset, frameCount, b, blocksPerFile, nWriters);
    DistributionFits(frameCount, b, blocksPerFile, nWriters);
    MappingsOfMembers(prefix, dataset, frameCount, b, nWriters, d, order);
    IndexOfSelected(m1.target, x);
    IndexOfSelected(m2.target, x);
    var k := m1.fileNumber;
    var ff := d[k];
    var row := m1.source.Element(m1.target.IndexOf(x));
    assert row == m2.source.Element(m2.target.IndexOf(x));
    SameFileSameMapping(prefix, dataset, frameCount, b, nWriters, k, ff, m1, m2, row);
  }

  /** Two mappings of one file that read the same source row are the same:
      complete blocks come from rows below `Blocks() * B`, the partial block
      from rows at or above it. */
  lemma SameFileSameMapping(prefix: string, dataset: string, frameCount: nat, framesPerBlock: nat,
                            nWriters: nat, k: nat, ff: FileFrames, m1: Mapping, m2: Mapping, row: nat)
    requires ff.framesPerBlock > 0 && ff.RemainderFrames() <= frameCount
    requires m1 in FileMappings(prefix, dataset, frameCount, framesPerBlock, nWriters, k, ff)
    requires m2 in FileMappings(prefix, dataset, frameCount, framesPerBlock, nWriters, k, ff)
    requires WellFormed(m1) && WellFormed(m2)
    requires exists r1: nat, r2: nat :: r1 < m1.source.Size() && r2 < m2.source.Size()
                                        && m1.source.Element(r1) == row && m2.source.Element(r2) == row
    ensures m1 == m2
  {
  }

  // ---------------------------------------------------------------------------
  // Reading back what the writers wrote
  // ---------------------------------------------------------------------------

  /** `files` holds what the round-robin writers wrote: the `i`-th file of
      writer `w` exists under its zero-padded name and holds, at row `r`,
      the `r`-th frame that writer kept for that file. */
  ghost predicate HoldsWrittenRows(prefix: string, frameCount: nat, framesPerBlock: nat, blocksPerFile: nat,
                                   nWriters: nat, files: map<string, seq<nat>>)
    requires ValidRequest(frameCount, framesPerBlock, blocksPerFile, nWriters)
  {
    var shares := FramesPerFileWriter(frameCount, framesPerBlock, nWriters);
    var m := MaxFramesPerFile(frameCount, framesPerBlock, blocksPerFile);
    forall w: nat, i: nat, r: nat ::
      w < nWriters && i < FileCount(shares, m, w) && r < FileRecord(shares, m, framesPerBlock, w, i).frames ==>
        && FileName(prefix, FileNumber(nWriters, w, i)) in files
        && r < |files[FileName(prefix, FileNumber(nWriters, w, i))]|
        && files[FileName(prefix, FileNumber(nWriters, w, i))][r]
           == StoredFrame(frameCount, framesPerBlock, blocksPerFile, nWriters, w, i, r)
  }

  /** Once the writers' files are in place, reading the virtual dataset gives
      back the acquisition in order: frame `x` reads as `x` for every `x`
      below the frame count, and as the fill value past it. */
  lemma ReadBackIdentity(prefix: string, dataset: string, frameCount: nat, framesPerBlock: nat,
                         blocksPerFile: nat, nWriters: nat, files: map<string, seq<nat>>, x: nat)
    requires ValidRequest(frameCount, framesPerBlock, blocksPerFile, nWriters)
    requires HoldsWrittenRows(prefix, frameCount, framesPerBlock, blocksPerFile, nWriters, files)
    ensures forall m :: m in Layout(prefix, dataset, frameCount, framesPerBlock, blocksPerFile, nWriters)
                        ==> WellFormed(m)
    ensures ReadVirtual(Layout(prefix, dataset, frameCount, framesPerBlock, blocksPerFile, nWriters), files, x)
            == if x < frameCount then Some(x) else None
  {
    LayoutReadsAcquisition(prefix, dataset, frameCount, framesPerBlock, blocksPerFile, nWriters, x);
    if x < frameCount {
      WrittenAtLocation(prefix, frameCount, framesPerBlock, blocksPerFile, nWriters, files, x);
    }
  }

  /** The writers' files hold frame `x` at the file and row `Locate` names. */
  lemma WrittenAtLocation(prefix: string, frameCount: nat, framesPerBlock: nat, blocksPerFile: nat,
                          nWriters: nat, files: map<string, seq<nat>>, x: nat)
    requires ValidRequest(frameCount, framesPerBlock, blocksPerFile, nWriters) && x < frameCount
    requires HoldsWrittenRows(prefix, frameCount, framesPerBlock, blocksPerFile, nWriters, files)
    ensures var loc := Locate(frameCount, framesPerBlock, blocksPerFile, nWriters, x);
            var name := FileName(prefix, loc.fileNumber);
            name in files && loc.row < |files[name]| && files[name][loc.row] == x
  {
    var b := framesPerBlock;
    var m := MaxFramesPerFile(frameCount, b, blocksPerFile);
    var loc := Locate(frameCount, b, blocksPerFile, nWriters, x);
    EveryFrameStored(frameCount, b, blocksPerFile, nWriters, x);
    GlobalOfLocal(b, nWriters, x);
    var w, i := DistributionSlot(frameCount, b, blocksPerFile, nWriters, loc.fileNumber);
    var wx, j := WriterOf(b, nWriters, x), LocalIndex(b, nWriters, x);
    FileNumberInjective(nWriters, w, i, wx, j / m);
    assert StoredFrame(frameCount, b, blocksPerFile, nWriters, w, i, loc.row) == x;
  }

  /** Before the writers have produced any file, every frame of the virtual
      dataset reads as the fill value. */
  lemma ReadBeforeWritten(prefix: string, dataset: string, frameCount: nat, framesPerBlock: nat,
                          blocksPerFile: nat, nWriters: nat, x: nat)
    requires ValidRequest(frameCount, framesPerBlock, blocksPerFile, nWriters)
    ensures forall m :: m in Layout(prefix, dataset, frameCount, framesPerBlock, blocksPerFile, nWriters)
                        ==> WellFormed(m)
    ensures ReadVirtual(Layout(prefix, dataset, frameCount, framesPerBlock, blocksPerFile, nWriters), map[], x)
            == None
  {
    LayoutReadsAcquisition(prefix, dataset, frameCount, framesPerBlock, blocksPerFile, nWriters, x);
  }

  // ---------------------------------------------------------------------------
  // Source files
  // ---------------------------------------------------------------------------

  /** The names of the files a virtual dataset reads from. */
  function SourceFiles(ms: seq<Mapping>): set<string>
  {
    set m | m in ms :: m.fileName
  }

  /** A virtual dataset reads from exactly the planned files: every planned
      file holds at least one frame, so it contributes at least one mapping. */
  lemma LayoutSourceFiles(prefix: string, dataset: string, frameCount: nat, framesPerBlock: nat,
                          blocksPerFile: nat, nWriters: nat)
    requires ValidRequest(frameCount, framesPerBlock, blocksPerFile, nWriters)
    ensures SourceFiles(Layout(prefix, dataset, frameCount, framesPerBlock, blocksPerFile, nWriters))
            == set k | k in Distribution(frameCount, framesPerBlock, blocksPerFile, nWriters) :: FileName(prefix, k)
  {
    var d := Distribution(frameCount, framesPerBlock, blocksPerFile, nWriters);
    var ms := Layout(prefix, dataset, frameCount, framesPerBlock, blocksPerFile, nWriters);
    LayoutSources(prefix, dataset, frameCount, framesPerBlock, blocksPerFile, nWriters);
    forall k | k in d
      ensures FileName(prefix, k) in SourceFiles(ms)
    {
      var mp := FileHasMapping(prefix, dataset, frameCount, framesPerBlock, blocksPerFile, nWriters, k);
    }
  }

  /** Each planned file contributes a mapping to the layout. */
  lemma FileHasMapping(prefix: string, dataset: string, frameCount: nat, framesPerBlock: nat,
                       blocksPerFile: nat, nWriters: nat, k: nat) returns (mp: Mapping)
    requires ValidRequest(frameCount, framesPerBlock, blocksPerFile, nWriters)
    requires k in Distribution(frameCount, framesPerBlock, blocksPerFile, nWriters)
    ensures mp in Layout(prefix, dataset, frameCount, framesPerBlock, blocksPerFile, nWriters)
    ensures mp.fileNumber == k
  {
    var b := framesPerBlock;
    var d := Distribution(frameCount, b, blocksPerFile, nWriters);
    var order := DistributionOrder(frameCount, b, blocksPerFile, nWriters);
    DistributionFits(frameCount, b, blocksPerFile, nWriters);
    DistributionOrderSpec(frameCount, b, blocksPerFile, nWriters);
    var w, i := DistributionSlot(frameCount, b, blocksPerFile, nWriters, k);
    FileShape(FramesPerFileWriter(frameCount, b, nWriters), MaxFramesPerFile(frameCount, b, blocksPerFile), b, w, i);
    var ff := d[k];
    var ms := FileMappings(prefix, dataset, frameCount, b, nWriters, k, ff);
    assert ff.Blocks() * b + ff.RemainderFrames() == ff.frames;
    mp := ms[0];
    MappingsOfMembers(prefix, dataset, frameCount, b, nWriters, d, order);
  }
}
