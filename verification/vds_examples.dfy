/** The acquisitions of the source's unit tests for `create_interleave_vds`,
    worked through the model: the source files each layout reads, the order
    and sizes of the virtual sources, and the read-back of a four-writer
    acquisition over the files the writers produced. */
module VdsExamples {
  import opened FrameDistribution
  import opened FileDistribution
  import opened Naming
  import opened Vds

  /** `create_interleave_vds(path, "test", 105, 10, 3, (10, 10))` declares its
      four sources in file order with 30, 30, 25 and 20 frames. */
  lemma SourceSizesExample()
    ensures DistributionOrder(105, 10, 3, 4) == [1, 2, 3, 4]
    ensures var d := Distribution(105, 10, 3, 4);
            && 1 in d && d[1].frames == 30
            && 2 in d && d[2].frames == 30
            && 3 in d && d[3].frames == 25
            && 4 in d && d[4].frames == 20
  {
    OddFramesExample();
    assert MaxFramesPerFile(105, 10, 3) == 30;
    PlanOfShares(105, 10, 3, 4, [30, 30, 25, 20], 30);
    OneFileEachOrder();
    OneFileEachFiles();
  }

  lemma OneFileEachOrder()
    ensures KeyOrder([30, 30, 25, 20], 30) == [1, 2, 3, 4]
  {
    var shares := [30, 30, 25, 20];
    assert FileCount(shares, 30, 0) == 1 && FileCount(shares, 30, 1) == 1;
    assert FileCount(shares, 30, 2) == 1 && FileCount(shares, 30, 3) == 1;
    OneFileNumbers(4, 0);
    OneFileNumbers(4, 1);
    OneFileNumbers(4, 2);
    OneFileNumbers(4, 3);
    assert KeyOrderUpTo(shares, 30, 1) == [1];
    assert KeyOrderUpTo(shares, 30, 2) == [1, 2];
    assert KeyOrderUpTo(shares, 30, 3) == [1, 2, 3];
  }

  lemma OneFileNumbers(nWriters: nat, w: nat)
    ensures WriterFileNumbers(nWriters, w, 1) == [w + 1]
  {
  }

  lemma OneFileEachFiles()
    ensures var d := Files([30, 30, 25, 20], 30, 10);
            && 1 in d && d[1].frames == 30
            && 2 in d && d[2].frames == 30
            && 3 in d && d[3].frames == 25
            && 4 in d && d[4].frames == 20
  {
    var shares := [30, 30, 25, 20];
    FilesAt(shares, 30, 10, 0, 0);
    FilesAt(shares, 30, 10, 1, 0);
    FilesAt(shares, 30, 10, 2, 0);
    FilesAt(shares, 30, 10, 3, 0);
  }

  /** Nineteen frames in blocks of two, two blocks per file, four writers:
      writers 0 and 1 roll over to a second file, so six files are listed,
      each writer's files together, holding 4, 2, 4, 1, 4 and 4 frames. */
  lemma RoundRobinDistributionExample()
    ensures FramesPerFileWriter(19, 2, 4) == [6, 5, 4, 4]
    ensures DistributionOrder(19, 2, 2, 4) == [1, 5, 2, 6, 3, 4]
    ensures Distribution(19, 2, 2, 4).Keys == {1, 2, 3, 4, 5, 6}
    ensures var d := Distribution(19, 2, 2, 4);
            && d[1].frames == 4 && d[2].frames == 4 && d[3].frames == 4
            && d[4].frames == 4 && d[5].frames == 2 && d[6].frames == 1
  {
    RoundRobinShares();
    PlanOfShares(19, 2, 2, 4, [6, 5, 4, 4], 4);
    RoundRobinOrder();
    DistributionOrderSpec(19, 2, 2, 4);
    KeysListed(Distribution(19, 2, 2, 4), [1, 5, 2, 6, 3, 4]);
    assert (set k | k in [1, 5, 2, 6, 3, 4]) == {1, 2, 3, 4, 5, 6};
    RoundRobinFileSizes();
  }

  /** A map whose keys are exactly the entries of `order`. */
  lemma KeysListed(d: map<nat, FileFrames>, order: seq<nat>)
    requires forall k: nat :: k in order <==> k in d
    ensures d.Keys == set k | k in order
  {
  }

  lemma RoundRobinShares()
    ensures FramesPerFileWriter(19, 2, 4) == [6, 5, 4, 4]
    ensures MaxFramesPerFile(19, 2, 2) == 4
  {
    var r := FramesPerFileWriter(19, 2, 4);
    RoundRobinBlocks();
    forall w | 0 <= w < 4 ensures r[w] == if w == 0 then 6 else if w == 1 then 5 else 4 {
      FramesPerFileWriterShape(19, 2, 4, w);
    }
  }

  lemma RoundRobinBlocks()
    ensures NumBlocks(19, 2) == 10 && LastWriter(19, 2, 4) == 1 && Overflow(19, 2) == 1
  {
  }

  lemma RoundRobinOrder()
    ensures KeyOrder([6, 5, 4, 4], 4) == [1, 5, 2, 6, 3, 4]
  {
    var shares := [6, 5, 4, 4];
    assert FileCount(shares, 4, 0) == 2 && FileCount(shares, 4, 1) == 2;
    assert FileCount(shares, 4, 2) == 1 && FileCount(shares, 4, 3) == 1;
    TwoFileNumbers(4, 0);
    TwoFileNumbers(4, 1);
    OneFileNumbers(4, 2);
    OneFileNumbers(4, 3);
    assert KeyOrderUpTo(shares, 4, 1) == [1, 5];
    assert KeyOrderUpTo(shares, 4, 2) == [1, 5, 2, 6];
    assert KeyOrderUpTo(shares, 4, 3) == [1, 5, 2, 6, 3];
  }

  lemma TwoFileNumbers(nWriters: nat, w: nat)
    ensures WriterFileNumbers(nWriters, w, 2) == [w + 1, w + nWriters + 1]
  {
  }

  lemma RoundRobinFileSizes()
    ensures var d := Files([6, 5, 4, 4], 4, 2);
            && 1 in d && d[1].frames == 4 && 2 in d && d[2].frames == 4
            && 3 in d && d[3].frames == 4 && 4 in d && d[4].frames == 4
            && 5 in d && d[5].frames == 2 && 6 in d && d[6].frames == 1
  {
    RoundRobinFirstFiles();
    RoundRobinSecondFiles();
  }

  lemma RoundRobinFirstFiles()
    ensures var d := Files([6, 5, 4, 4], 4, 2);
            && 1 in d && d[1].frames == 4 && 2 in d && d[2].frames == 4
            && 3 in d && d[3].frames == 4
  {
    var shares := [6, 5, 4, 4];
    FilesAt(shares, 4, 2, 0, 0);
    FilesAt(shares, 4, 2, 1, 0);
    FilesAt(shares, 4, 2, 2, 0);
  }

  lemma RoundRobinSecondFiles()
    ensures var d := Files([6, 5, 4, 4], 4, 2);
            && 4 in d && d[4].frames == 4 && 5 in d && d[5].frames == 2
            && 6 in d && d[6].frames == 1
  {
    var shares := [6, 5, 4, 4];
    FilesAt(shares, 4, 2, 3, 0);
    FilesAt(shares, 4, 2, 0, 1);
    FilesAt(shares, 4, 2, 1, 1);
  }

  /** The writer file names of a set of file numbers. */
  function NamesOf(prefix: string, keys: set<nat>): set<string>
  {
    set k | k in keys :: FileName(prefix, k)
  }

  /** The file names a layout reads from, given the planned file numbers. */
  lemma SourcesOfKeys(prefix: string, frameCount: nat, framesPerBlock: nat, blocksPerFile: nat,
                      nWriters: nat, keys: set<nat>)
    requires ValidRequest(frameCount, framesPerBlock, blocksPerFile, nWriters)
    requires Distribution(frameCount, framesPerBlock, blocksPerFile, nWriters).Keys == keys
    ensures SourceFiles(Layout(prefix, "data", frameCount, framesPerBlock, blocksPerFile, nWriters))
            == NamesOf(prefix, keys)
  {
    LayoutSourceFiles(prefix, "data", frameCount, framesPerBlock, blocksPerFile, nWriters);
  }

  lemma TwoNames(prefix: string, keys: set<nat>, a: nat, b: nat)
    requires keys == {a, b}
    ensures NamesOf(prefix, keys) == {FileName(prefix, a), FileName(prefix, b)}
  {
  }

  lemma ThreeNames(prefix: string, keys: set<nat>, a: nat, b: nat, c: nat)
    requires keys == {a, b, c}
    ensures NamesOf(prefix, keys) == {FileName(prefix, a), FileName(prefix, b), FileName(prefix, c)}
  {
  }

  lemma FourNames(prefix: string, keys: set<nat>, a: nat, b: nat, c: nat, d: nat)
    requires keys == {a, b, c, d}
    ensures NamesOf(prefix, keys) == {FileName(prefix, a), FileName(prefix, b), FileName(prefix, c), FileName(prefix, d)}
  {
  }

  /** `(100, 10, 5, 1)`: one writer, two files of five blocks. */
  lemma SingleWriterSources(prefix: string)
    ensures SourceFiles(Layout(prefix, "data", 100, 10, 5, 1)) == {FileName(prefix, 1), FileName(prefix, 2)}
  {
    SingleWriterKeysExample();
    SourcesOfKeys(prefix, 100, 10, 5, 1, {1, 2});
    TwoNames(prefix, {1, 2}, 1, 2);
  }

  /** `(105, 10, 5, 1)`: one writer, the third file partly filled. */
  lemma SingleWriterPartialSources(prefix: string)
    ensures SourceFiles(Layout(prefix, "data", 105, 10, 5, 1)) == {FileName(prefix, 1), FileName(prefix, 2), FileName(prefix, 3)}
  {
    SingleWriterPartialFileKeysExample();
    SourcesOfKeys(prefix, 105, 10, 5, 1, {1, 2, 3});
    ThreeNames(prefix, {1, 2, 3}, 1, 2, 3);
  }

  /** The frame count of the two-writer test acquisition. */
  const TwoWritersFrames: nat := 100

  /** `(100, 10, 3, 2)`: two writers, two files each. */
  lemma TwoWritersSources(prefix: string)
    ensures SourceFiles(Layout(prefix, "data", TwoWritersFrames, 10, 3, 2))
            == {FileName(prefix, 1), FileName(prefix, 2), FileName(prefix, 3), FileName(prefix, 4)}
  {
    TwoWritersKeysExample();
    SourcesOfKeys(prefix, TwoWritersFrames, 10, 3, 2, {1, 2, 3, 4});
    FourNames(prefix, {1, 2, 3, 4}, 1, 2, 3, 4);
  }
}
