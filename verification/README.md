# fastcs-eiger core, modelled in Dafny

This project models the pure logic of fastcs-eiger, the FastCS control layer for Dectris Eiger detectors, and proves properties of it. It covers two areas.

**The round-robin virtual-dataset planner** (`generate_vds.py`). An acquisition of `frameCount` frames is cut into blocks of `framesPerBlock` frames. The blocks are dealt round robin to `nWriters` file writers. Each writer rolls to a new file after `blocksPerFile` blocks, where 0 means never. The model covers:

- each writer's frame share;
- the numbered files and their sizes and start offsets;
- the virtual layout that maps every row of every file back to a logical frame index.

The main theorem is `Vds.ReadBackIdentity`: reading the virtual dataset over files that hold the rows the writers wrote gives back frame `x` for every `x < frameCount`, and nothing beyond. It rests on an independent reference definition of round-robin acquisition (`RoundRobin`), which proves which writer and which local index every frame goes to.

**The parameter bookkeeping around the detector's SIMPLON HTTP API.** The model covers:

- key flattening, URIs, the mapping from value type to datatype, and precision from a minimum (`EigerParameter`);
- sorting a PUT's response into "refresh now" and "refresh later", value normalisation, and the poll-once flag (`EigerIo`);
- the subsystem controller's key filtering, display groups, attribute creation and update targets (`SubsystemController`);
- the newer copy of that controller (`NextSubsystemController`);
- the detector commands and the soft trigger (`DetectorController`);
- the legacy `eiger_fastcs` controller's key-clash tagging, names, URIs, attribute creation and handlers (`LegacyController`).

The network, the clock and the asyncio machinery are not modelled. An HTTP response appears as a parameter of the function that consumes it. For example, the values the detector reports for each key become a function `(Mode, string) -> Response`.

Modules follow the source files:

| module | source |
|---|---|
| `FrameDistribution`, `FileDistribution`, `RoundRobin`, `Hyperslab`, `Naming`, `Vds`, `VdsExamples` | `src/fastcs_eiger/controllers/odin/generate_vds.py` |
| `EigerParameter` | `src/fastcs_eiger/eiger_parameter.py` |
| `EigerIo` | `src/fastcs_eiger/io.py` |
| `SubsystemController` | `src/fastcs_eiger/eiger_subsystem_controller.py` |
| `NextSubsystemController` | `src/fastcs_eiger/controller/eiger_subsystem_controller.py` |
| `DetectorController` | `src/fastcs_eiger/eiger_detector_controller.py` |
| `LegacyController` | `src/eiger_fastcs/eiger_controller.py` |
| `Wrappers`, `Arith`, `Seqs`, `Text` | helpers: `Option`/`Result`, integer facts, filter and map over sequences, Python string operations |

Where the code and its documentation disagree, the model follows the code.

- The source never divides by zero when `frameCount == 0` and `blocksPerFile > 0`. So `FileDistribution.ValidRequest` admits that case, and it yields no files. Only `blocksPerFile == 0 && frameCount == 0` is refused, because that is where `math.ceil(n_frames / max_frames_per_file)` divides by zero. `Vds.CreateInterleaveVds` returns `Failure("ZeroDivisionError")` exactly on the refused inputs. On an admitted request it returns `Failure("ValueError")` exactly when a dataset name repeats, because h5py refuses to create a dataset under a name the file already holds.
- Precision is derived from the TEXT of the minimum, as `str(value)` prints it. So a minimum of `1e5` (printed `100000.0`) gives precision 1, as the repository's tests expect.

## Model

| member | source | states |
|---|---|---|
| FrameDistribution.FileFrames.RemainderFrames | src/fastcs_eiger/controllers/odin/generate_vds.py:14-20 | a file's complete blocks times the block size plus its leftover frames is its frame count, and the leftover is smaller than one block |
| FrameDistribution.FramesPerFileWriter | src/fastcs_eiger/controllers/odin/generate_vds.py:23-37 | the planner returns one share per writer and the shares add up to exactly the acquisition's frame count |
| FrameDistribution.FramesPerFileWriterShape | src/fastcs_eiger/controllers/odin/generate_vds.py:26-36 | writer `w` is dealt `nb div n + (1 if w < nb mod n)` blocks; its share is those blocks less the overflow when it owns the last block; the overflow lies in `[0, framesPerBlock)` |
| FrameDistribution.Overflow | src/fastcs_eiger/controllers/odin/generate_vds.py:35 | the frames dealt beyond the acquisition are fewer than one block, and the rounded-up block count covers the acquisition plus exactly that overflow |
| FrameDistribution.PyIndexOfLastBlock | src/fastcs_eiger/controllers/odin/generate_vds.py:28-36 | Python's `[remainder - 1]`, which wraps to the last writer when the remainder is 0, always picks the writer of the globally last block, `(nb - 1) mod n` |
| FrameDistribution.LastWriterIndex | src/fastcs_eiger/controllers/odin/generate_vds.py:27-36 | the index the source reduces by the overflow is in range and is the writer the model reduces |
| FrameDistribution.DealtFramesSum | src/fastcs_eiger/controllers/odin/generate_vds.py:30-33 | before the overflow is removed, the shares add up to all dealt blocks times the block size |
| FrameDistribution.ShareBound | src/fastcs_eiger/controllers/odin/generate_vds.py:23-37 | no writer receives more frames than the acquisition holds |
| FrameDistribution.FramesPerFileWriterExamples | tests/test_generate_vds.py:17 | 10 frames in single-frame blocks over 3 writers split as [4, 3, 3] |
| FrameDistribution.ShortLastBlockExamples | tests/test_generate_vds.py:21-22 | a short last block is taken from its owner: (10,4,2) gives [6, 4] and (10,4,3) gives [4, 4, 2] |
| FrameDistribution.UnevenBlocksExample | tests/test_generate_vds.py:23 | (10,3,3) gives [4, 3, 3] |
| FrameDistribution.SingleWriterExample | tests/test_generate_vds.py:20 | one writer receives everything |
| FrameDistribution.TenWritersExample | tests/test_generate_vds.py:19 | more writers than blocks leaves the rest with 0 frames: [4, 4, 2, 0, …] |
| FrameDistribution.FramesPerFileWriterLargeExamples | tests/test_generate_vds.py:24-25 | (105,10,4) gives [30, 30, 25, 20], and a million frames split evenly over 4 writers |
| RoundRobin.GlobalOfLocal | src/fastcs_eiger/controllers/odin/generate_vds.py:31-33 | reference model of round-robin acquisition: every logical frame is the local frame of exactly one writer, and going there and back gives the same frame |
| RoundRobin.LocalOfGlobal | src/fastcs_eiger/controllers/odin/generate_vds.py:31-33 | the writer and local index of writer `w`'s `j`-th frame are `w` and `j` |
| RoundRobin.GlobalIncreasing | src/fastcs_eiger/controllers/odin/generate_vds.py:31-33 | a writer receives its frames in acquisition order |
| RoundRobin.ShareIsReceived | src/fastcs_eiger/controllers/odin/generate_vds.py:23-37 | the planner's share for writer `w` is exactly the number of its round-robin frames that fall below `frameCount`, for every `j` in both directions |
| RoundRobin.CountReceived | src/fastcs_eiger/controllers/odin/generate_vds.py:23-37 | counting one frame at a time what writer `w` receives over the acquisition gives the planner's share |
| RoundRobin.EveryFrameStored | src/fastcs_eiger/controllers/odin/generate_vds.py:54-64 | every frame below `frameCount` lies in a row of a file that exists, and that row holds the frame |
| RoundRobin.EveryRowLocated | src/fastcs_eiger/controllers/odin/generate_vds.py:54-64 | every row of every file holds a frame below `frameCount`, and that frame is located back at the same file and row |
| RoundRobin.LocateInjective | src/fastcs_eiger/controllers/odin/generate_vds.py:54-64 | no two frames are stored in the same file row |
| FileDistribution.MaxFramesPerFile | src/fastcs_eiger/controllers/odin/generate_vds.py:46-48 | the file size is non-zero exactly when the block size is non-zero, or when the frame count is non-zero for `blocksPerFile == 0` |
| FileDistribution.FileNumberDecode | src/fastcs_eiger/controllers/odin/generate_vds.py:57-59 | the writer and the file index are recovered from a file's number |
| FileDistribution.FileNumberEncode | src/fastcs_eiger/controllers/odin/generate_vds.py:57-59 | every positive number is the number of exactly one writer's file |
| FileDistribution.FileNumberInjective | src/fastcs_eiger/controllers/odin/generate_vds.py:57-59 | two files have the same number if and only if they have the same writer and the same index |
| FileDistribution.FilesAt | src/fastcs_eiger/controllers/odin/generate_vds.py:54-64 | writer `w`'s file `i` exists exactly when `i < ceil(share / maxFrames)`, with the record the loop writes |
| FileDistribution.FilesKeys | src/fastcs_eiger/controllers/odin/generate_vds.py:54-64 | the distribution's key set is exactly the file slots that hold frames, and each value is that slot's record |
| FileDistribution.FileShape | src/fastcs_eiger/controllers/odin/generate_vds.py:59-64 | every file holds between 1 and `maxFrames` frames and starts at `framesPerBlock * w + i * n * maxFrames` |
| FileDistribution.EmptyWriterHasNoFiles | src/fastcs_eiger/controllers/odin/generate_vds.py:54-56 | a writer with 0 frames gets no file |
| FileDistribution.WriterFilesHoldShare | src/fastcs_eiger/controllers/odin/generate_vds.py:54-64 | a writer's files together hold exactly its share |
| FileDistribution.FilesHoldAllFrames | src/fastcs_eiger/controllers/odin/generate_vds.py:54-64 | all files together hold the sum of the shares |
| FileDistribution.DistributionHoldsAllFrames | src/fastcs_eiger/controllers/odin/generate_vds.py:40-66 | every file number is positive and bounded, and the files together hold exactly `frameCount` frames |
| FileDistribution.ShortFileIsLast | src/fastcs_eiger/controllers/odin/generate_vds.py:60 | only a writer's last file may hold fewer than `maxFrames` frames |
| FileDistribution.WholeBlocksStayWhole | src/fastcs_eiger/controllers/odin/generate_vds.py:60 | a whole number of blocks per file and per share leaves no partial block in any file |
| FileDistribution.PartialBlockOnlyAtEnd | src/fastcs_eiger/controllers/odin/generate_vds.py:57-64 | a file with a partial block is the last file of the writer that owns the globally last block, so at most one file in the distribution has one |
| FileDistribution.DistributionOrderSpec | src/fastcs_eiger/controllers/odin/generate_vds.py:54-59 | the loop's insertion order lists every file of the distribution once and nothing else |
| FileDistribution.DistributeFiles | src/fastcs_eiger/controllers/odin/generate_vds.py:54-64 | the nested loop builds exactly the declarative distribution and its insertion order |
| FileDistribution.CalculateFrameDistribution | src/fastcs_eiger/controllers/odin/generate_vds.py:40-66 | `_calculate_frame_distribution` returns the distribution over the planner's shares |
| FileDistribution.Distribution | src/fastcs_eiger/controllers/odin/generate_vds.py:40-66 | every file number of the returned dictionary is positive and at most `nWriters * frameCount`, and the files together hold exactly `frameCount` frames |
| FileDistribution.DistributionAt | src/fastcs_eiger/controllers/odin/generate_vds.py:55-59 | writer `w`'s file `i` exists if and only if the writer's share extends beyond `i` full files |
| FileDistribution.SingleWriterKeysExample | tests/test_generate_vds.py:43 | (100,10,5,1) gives files {1, 2} |
| FileDistribution.SingleWriterPartialFileKeysExample | tests/test_generate_vds.py:44 | (105,10,5,1) gives files {1, 2, 3} |
| FileDistribution.FourWritersKeysExample | tests/test_generate_vds.py:45-57 | (25,5,1,4) gives files {1, …, 5} |
| FileDistribution.WholeAcquisitionKeysExample | tests/test_generate_vds.py:58 | with `blocksPerFile == 0`, (105,10,0,1) gives the single file {1} |
| FileDistribution.WholeAcquisitionLongKeysExample | tests/test_generate_vds.py:59 | (1000,2,0,1) gives the single file {1} |
| FileDistribution.TwoWritersKeysExample | tests/test_generate_vds.py:60-71 | (100,10,3,2) gives files {1, …, 4} |
| Hyperslab.ElementSelected | src/fastcs_eiger/controllers/odin/generate_vds.py:101-107 | the `r`-th element of a multi-block selection is selected, and its rank is `r` |
| Hyperslab.IndexOfSelected | src/fastcs_eiger/controllers/odin/generate_vds.py:101-107 | every selected index is the element at its rank, so a selection's elements are exactly what it selects |
| Hyperslab.ElementIncreasing | src/fastcs_eiger/controllers/odin/generate_vds.py:101-107 | a selection is walked in increasing order, which is how h5py pairs it with the source rows |
| Naming.ZFill | src/fastcs_eiger/controllers/odin/generate_vds.py:94 | zero padding never shortens: the result has the larger of the text's length and the width |
| Naming.FileName | src/fastcs_eiger/controllers/odin/generate_vds.py:94 | a source file name always parses back, against its prefix, to the file number it was built from |
| Naming.NatToStringValue | src/fastcs_eiger/controllers/odin/generate_vds.py:94 | `str` of a natural number reads back as the same number |
| Naming.FileNumberTextValue | src/fastcs_eiger/controllers/odin/generate_vds.py:94 | the zero-padded file number has at least six digits and reads back as the number |
| Naming.FileNameRoundTrip | src/fastcs_eiger/controllers/odin/generate_vds.py:94 | the file number is recovered from the source file name |
| Naming.FileNameInjective | src/fastcs_eiger/controllers/odin/generate_vds.py:94 | two source files have the same name if and only if they have the same number |
| Naming.VdsFileNameDistinct | src/fastcs_eiger/controllers/odin/generate_vds.py:85 | the virtual-dataset file is never named like a source file |
| Naming.FileNameExamples | tests/test_generate_vds.py:43 | file 1 of prefix `test` is `test_000001.h5`, and the virtual file is `test_vds.h5` |
| Naming.LongFileNameExample | src/fastcs_eiger/controllers/odin/generate_vds.py:94 | a file number of more than six digits is kept whole |
| Vds.FileMappings | src/fastcs_eiger/controllers/odin/generate_vds.py:91-116 | a file gets a block mapping when it has a complete block and a tail mapping when it has leftover frames; both read the file's own dataset, declared with the file's frame count |
| Vds.Layout | src/fastcs_eiger/controllers/odin/generate_vds.py:91-116 | every mapping of one virtual dataset reads that dataset, from the file named after the mapping's file number |
| Vds.BlockMappingLocates | src/fastcs_eiger/controllers/odin/generate_vds.py:99-110 | the strided mapping sends each source row of the complete blocks to the logical frame round robin stored there |
| Vds.TailMappingLocates | src/fastcs_eiger/controllers/odin/generate_vds.py:111-116 | the tail mapping sends the leftover rows to the last frames of the acquisition, which is where round robin stored them |
| Vds.LayoutLocates | src/fastcs_eiger/controllers/odin/generate_vds.py:91-116 | every mapping of the layout is well formed and agrees with round-robin acquisition |
| Vds.LayoutSources | src/fastcs_eiger/controllers/odin/generate_vds.py:93-98 | every source is a file of the distribution, under its own name, with the requested dataset and the file's row count |
| Vds.OnlyFirstFile | src/fastcs_eiger/controllers/odin/generate_vds.py:46-48 | with `blocksPerFile == 0` each writer writes only its first file |
| Vds.FrameCovered | src/fastcs_eiger/controllers/odin/generate_vds.py:91-116 | every frame below `frameCount` is selected by some mapping of the layout |
| Vds.LayoutDisjoint | src/fastcs_eiger/controllers/odin/generate_vds.py:91-116 | no frame is selected by two different mappings |
| Vds.LayoutReadsAcquisition | src/fastcs_eiger/controllers/odin/generate_vds.py:83-116 | resolving frame `x` through the layout gives the file and row where round robin stored it when `x < frameCount`, and nothing otherwise |
| Vds.ReadBackIdentity | tests/test_generate_vds.py:199-238 | over files holding what the writers wrote, the virtual dataset reads back frame `x` for every `x < frameCount`, the identity |
| Vds.WrittenAtLocation | tests/test_generate_vds.py:120-196 | the files the writers write hold frame `x` at the file and row where round robin stores it |
| Vds.ReadBeforeWritten | src/fastcs_eiger/controllers/odin/generate_vds.py:85-118 | the virtual dataset is built without opening the source files: while none of them exists, every frame of it reads as the fill value |
| Vds.LayoutSourceFiles | tests/test_generate_vds.py:96-97 | the layout's source file names are exactly the names of the distribution's files |
| Vds.FileHasMapping | src/fastcs_eiger/controllers/odin/generate_vds.py:91-116 | every file of the distribution is used by some mapping |
| Vds.CreateInterleaveVds | src/fastcs_eiger/controllers/odin/generate_vds.py:69-118 | the call fails exactly on inputs that divide by zero or that repeat a dataset name; otherwise it creates `<prefix>_vds.h5` with one layout of shape `(frameCount, height, width)` per dataset name, all from the same distribution |
| Vds.RepeatedDatasetFails | src/fastcs_eiger/controllers/odin/generate_vds.py:86-118 | asking for the same dataset name twice fails, whatever the request, because the second `create_virtual_dataset` finds the name taken |
| VdsExamples.SourceSizesExample | tests/test_generate_vds.py:107-116 | (105,10,3,4) creates four sources, in order, of 30, 30, 25 and 20 rows |
| VdsExamples.RoundRobinDistributionExample | tests/test_generate_vds.py:120-196 | 19 frames, 2 per block, 2 blocks per file, 4 writers: six files of 4, 4, 4, 4, 2 and 1 rows, inserted in the order 1, 5, 2, 6, 3, 4 |
| VdsExamples.SourcesOfKeys | tests/test_generate_vds.py:96-97 | a layout's source files are the names of the distribution's keys |
| VdsExamples.SingleWriterSources | tests/test_generate_vds.py:43 | (100,10,5,1) reads from files 1 and 2 |
| VdsExamples.SingleWriterPartialSources | tests/test_generate_vds.py:44 | (105,10,5,1) reads from files 1 to 3 |
| VdsExamples.TwoWritersSources | tests/test_generate_vds.py:60-71 | (100,10,3,2) reads from files 1 to 4 |
| EigerParameter.SubsystemName | src/fastcs_eiger/eiger_parameter.py:26-27 | subsystem names are non-empty and contain neither `/` nor `_`, which keeps URIs and prefixed names parseable |
| EigerParameter.LiteralsRoundTrip | src/fastcs_eiger/eiger_parameter.py:9-16 | every access mode and value type the response schema admits is parsed back from its own text |
| EigerParameter.KeyToAttributeName | src/fastcs_eiger/eiger_parameter.py:59-60 | flattening keeps the length, leaves no `/`, turns every `/` into `_` and keeps every other character |
| EigerParameter.KeyToAttributeNameIdempotent | src/fastcs_eiger/eiger_parameter.py:59-60 | flattening twice is flattening once, and a key without `/` is its own attribute name |
| EigerParameter.UriParts | src/fastcs_eiger/eiger_parameter.py:37-40 | a URI is the subsystem, then `/api/1.8.0/`, then the mode, then `/`, then the key, at fixed offsets |
| EigerParameter.Uri | src/fastcs_eiger/eiger_parameter.py:37-40 | the text after the fourth `/` of a URI is the parameter's key, even when the key holds `/` itself |
| EigerParameter.UriKey | src/fastcs_eiger/io.py:31-32 | `uri.split("/", 4)[-1]` recovers the key, even a key with `/` in it |
| EigerParameter.UriInjective | src/fastcs_eiger/eiger_parameter.py:37-40 | equal URIs come from the same subsystem, mode and key |
| EigerParameter.ParseIntRoundTrip | src/fastcs_eiger/eiger_parameter.py:69 | `int` reads back any decimal numeral, with or without a `-` or `+` sign |
| EigerParameter.PrecisionOfDecimal | src/fastcs_eiger/eiger_parameter.py:66-67 | a minimum printed with a `.` gives the number of characters after it |
| EigerParameter.PrecisionOfExponent | src/fastcs_eiger/eiger_parameter.py:68-69 | a minimum printed with an exponent and no `.` gives the exponent's absolute value |
| EigerParameter.PrecisionDefault | src/fastcs_eiger/eiger_parameter.py:63-70 | no minimum, or a minimum printed with neither `.` nor `e`, gives 2 |
| EigerParameter.MinimumToPrecision | src/fastcs_eiger/eiger_parameter.py:63-70 | no minimum gives precision 2; the conversion fails only for a minimum printed without a point and with an exponent (the `int()` of a malformed exponent) |
| EigerParameter.DecimalPrecisionExamples | tests/system/test_eiger_introspection.py:309-312 | "0.0001" to "0.1" give 4 down to 1 |
| EigerParameter.MoreDecimalPrecisionExamples | tests/system/test_eiger_introspection.py:314-318 | "123.123" gives 3; "0.0" and "100000.0" give 1 |
| EigerParameter.DefaultPrecisionExamples | tests/system/test_eiger_introspection.py:313-319 | "1", "0" and no minimum give 2 |
| EigerParameter.ExponentPrecisionExample | tests/system/test_eiger_introspection.py:317 | "1e-05" gives 5 |
| EigerParameter.FastcsDatatype | src/fastcs_eiger/eiger_parameter.py:42-52 | float gives Float with the minimum's precision, int and uint give Int, bool gives Bool, the four text types give String; only a float whose precision cannot be read has no datatype |
| EigerIo.Classify | src/fastcs_eiger/io.py:34-41 | the loop puts each reported parameter, renamed, into "now" or "later" in its order |
| EigerIo.ClassifyPartition | src/fastcs_eiger/io.py:33-41 | every reported parameter, after renaming, lands in exactly one list; "now" holds only `FETCH_BEFORE_RETURNING` members and "later" none; `difference_mode` appears in neither |
| EigerIo.HandleParamsToUpdate | src/fastcs_eiger/io.py:28-42 | an empty response queues one parameter for later; otherwise the two lists together are as long as the response |
| EigerIo.ParamsToUpdate | src/fastcs_eiger/io.py:28-42 | an empty response queues one parameter for later and none now; otherwise the two lists together hold each reported parameter, renamed, as often as reported, the first only fetch-before-returning names and the second none of them |
| EigerIo.EmptyResponseQueuesKey | src/fastcs_eiger/io.py:31-32 | an empty response to a PUT queues exactly the written parameter's key for later |
| EigerIo.DifferenceModeExample | tests/system/test_eiger_introspection.py:149-154 | `difference_mode` is queued as `threshold/difference/mode` |
| EigerIo.CountTimeExample | tests/system/test_eiger_introspection.py:190-202 | the `count_time` response refreshes the two bit depths now and queues the four timing parameters |
| EigerIo.TwoNowFourLater | src/fastcs_eiger/io.py:38-41 | for any six parameters, two in the fetch-first set and four outside it, the lists keep the response's order |
| EigerIo.Normalise | src/fastcs_eiger/io.py:59-63 | a list of strings becomes the strings joined with ", "; any other value is unchanged |
| EigerIo.NormaliseIdempotent | src/fastcs_eiger/io.py:59-63 | normalising twice is normalising once |
| EigerIo.NormaliseExamples | src/fastcs_eiger/io.py:59-63 | ["a", "b"] gives "a, b"; the empty list gives ""; a mixed list is unchanged |
| EigerIo.PollRunFromStart | src/fastcs_eiger/io.py:68-72 | from a fresh start, the first update always fetches and later ones fetch exactly the status parameters |
| EigerIo.PollRunAfterFirst | src/fastcs_eiger/io.py:68-72 | once the shared flag is set, config updates are skipped and status updates always fetch |
| EigerIo.PollStep | src/fastcs_eiger/io.py:68-72 | one `update` fetches exactly when the parameter is a status one or no poll has completed yet, and always leaves the shared flag set |
| SubsystemController.SubsystemKeys | src/fastcs_eiger/eiger_subsystem_controller.py:67-73 | the missing keys of the subsystem and mode close the key list |
| SubsystemController.SubsystemKeysMembers | src/fastcs_eiger/eiger_subsystem_controller.py:19-73 | a key is introspected if and only if it is listed and not ignored, or it is missing from the list; no ignored key is introspected |
| SubsystemController.ModeParameters | src/fastcs_eiger/eiger_subsystem_controller.py:74-90 | one parameter per key, in order, carrying the key, subsystem, mode, the detector's response and the default poll period |
| SubsystemController.IntrospectModesElements | src/fastcs_eiger/eiger_subsystem_controller.py:64-92 | every introspected parameter comes from a mode of the subsystem and a key of that mode, with the detector's response |
| SubsystemController.IntrospectModesCovers | src/fastcs_eiger/eiger_subsystem_controller.py:64-92 | every key of every mode is introspected |
| SubsystemController.IntrospectKeys | tests/system/test_eiger_introspection.py:104-122 | no introspected parameter has an ignored key, all belong to the subsystem, and every missing key is introspected |
| SubsystemController.GroupOfNestedKey | src/fastcs_eiger/eiger_subsystem_controller.py:103-106 | a key with `/` is grouped under its capitalised segments without the last |
| SubsystemController.GroupOfFlatKey | src/fastcs_eiger/eiger_subsystem_controller.py:107 | a key without `/` is grouped under the capitalised subsystem and mode |
| SubsystemController.Group | src/fastcs_eiger/eiger_subsystem_controller.py:101-107 | a display group never contains `/`, whether built from a nested key's segments or from the subsystem and mode |
| SubsystemController.ThresholdGroup | tests/system/test_eiger_introspection.py:112-118 | a nested threshold key's group starts with "Threshold" |
| SubsystemController.LeadingSegmentGroup | src/fastcs_eiger/eiger_subsystem_controller.py:103-106 | a nested key's group starts with its capitalised first segment |
| SubsystemController.TwoSegmentGroup | src/fastcs_eiger/eiger_subsystem_controller.py:103-106 | a key `a/b/leaf` is grouped under `Capitalize(a) + Capitalize(b)` |
| SubsystemController.ThresholdTwoGroupExample | tests/system/test_eiger_introspection.py:87 | `threshold/2/energy` is in group "Threshold2" |
| SubsystemController.ThresholdDifferenceGroupExample | tests/system/test_eiger_introspection.py:88-91 | `threshold/difference/lower_threshold` is in group "ThresholdDifference" |
| SubsystemController.FlatGroupExample | tests/system/test_eiger_introspection.py:86 | detector status `humidity` is in group "DetectorStatus" |
| SubsystemController.CreateAttributesFails | src/fastcs_eiger/eiger_subsystem_controller.py:109-131 | creation fails, as the loop raises, if and only if some `r` or `rw` parameter is a float whose minimum yields no precision |
| SubsystemController.CreateAttributes | src/fastcs_eiger/eiger_subsystem_controller.py:109-131 | every attribute created is backed by one of the given parameters, which is readable, names the attribute and gives it its group |
| SubsystemController.CreateAttributesNames | src/fastcs_eiger/eiger_subsystem_controller.py:117-131 | the attribute names are exactly the flattened names of the `r` and `rw` parameters; `w` parameters make none |
| SubsystemController.CreateAttributesLastWins | src/fastcs_eiger/eiger_subsystem_controller.py:117-131 | each name holds the attribute of the last parameter with that name: read-only for `r`, read-write for `rw`, with its datatype, group and reference |
| SubsystemController.UpdateTargets | src/fastcs_eiger/eiger_subsystem_controller.py:157-172 | at most one update per parameter, and only of readable attributes backed by a detector parameter |
| SubsystemController.UpdateTargetsMembers | src/fastcs_eiger/eiger_subsystem_controller.py:157-172 | an attribute is updated if and only if some parameter's flattened name names it and it is readable and backed by a detector parameter |
| SubsystemController.GetUpdateCoros | src/fastcs_eiger/eiger_subsystem_controller.py:157-172 | the loop collects exactly those updates, in parameter order |
| SubsystemController.UnknownParametersRefreshNothing | tests/system/test_eiger_introspection.py:236-240 | parameters naming no attribute produce no update |
| SubsystemController.QueueSubsystemUpdate | src/fastcs_eiger/eiger_controller.py:155-160 | the queue grows by the updates in order, and the top controller turns stale if and only if it was stale or there is an update |
| SubsystemController.QueueUpdateStale | src/fastcs_eiger/eiger_subsystem_controller.py:133-143 | a queued update makes the top controller stale if and only if some parameter names a refreshable attribute; unknown parameters change nothing |
| SubsystemController.QueueUpdate | src/fastcs_eiger/eiger_subsystem_controller.py:133-143 | queuing never clears the stale flag, keeps the queued attributes in front, and appends at most one readable, parameter-backed attribute per parameter |
| NextSubsystemController.HandleParameterUpdate | src/fastcs_eiger/controller/eiger_subsystem_controller.py:137-150 | the written parameter is refreshed first, then the reported fetch-first parameters; the rest are queued; all renamed and in response order |
| NextSubsystemController.ParameterUpdatePartition | src/fastcs_eiger/controller/eiger_subsystem_controller.py:140-150 | the written parameter leads the refreshed list, and every reported parameter is refreshed or queued, not both, according to the fetch-first set |
| NextSubsystemController.UpdateTargets | src/fastcs_eiger/controller/eiger_subsystem_controller.py:181-198 | only readable attributes with a poll period are updated, and every parameter naming one updates it |
| NextSubsystemController.UnpolledRefreshNothing | src/fastcs_eiger/controller/eiger_subsystem_controller.py:188-191 | attributes without a poll period, and unknown names, produce no update |
| NextSubsystemController.GetUpdateCoros | src/fastcs_eiger/controller/eiger_subsystem_controller.py:181-198 | the loop collects exactly those updates, in parameter order |
| NextSubsystemController.QueueUpdate | src/fastcs_eiger/controller/eiger_subsystem_controller.py:156-167 | at most one batch is queued, and one is queued if and only if there are parameters and at least one update results |
| NextSubsystemController.QueuedBatch | src/fastcs_eiger/controller/eiger_subsystem_controller.py:163-167 | the queued batch holds exactly the polled readable attributes the parameters name |
| DetectorController.CommandUri | src/fastcs_eiger/eiger_detector_controller.py:10-11 | a command URI is the command prefix followed by the command's name |
| DetectorController.CommandKeyRoundTrip | src/fastcs_eiger/eiger_detector_controller.py:10-11 | the command is recovered from its URI, and only that URI names it |
| DetectorController.CommandUriInjective | src/fastcs_eiger/eiger_detector_controller.py:10-11 | different commands go to different URIs |
| DetectorController.SendOnePut | src/fastcs_eiger/eiger_detector_controller.py:26-54 | initialize, arm, disarm, abort and cancel each send one PUT without a value to their own command URI; no two share a URI, and none is the trigger's |
| DetectorController.Trigger | src/fastcs_eiger/eiger_detector_controller.py:34-42 | `inte` with a positive exposure triggers with the exposure; `inte` otherwise, or `ints`, triggers without a value; any other mode is refused and sends nothing |
| DetectorController.TriggerExamples | src/fastcs_eiger/eiger_detector_controller.py:36-42 | the decision table's corners: exposure 0.5 and 0.0 in `inte`, `ints`, and a refused `exts` |
| LegacyController.FindFirstLater | src/eiger_fastcs/eiger_controller.py:288-292 | the inner loop finds the first later parameter with the same key, or reports that there is none |
| LegacyController.TagKeyClashes | src/eiger_fastcs/eiger_controller.py:277-292 | after tagging, a parameter keeps its unique-key flag exactly when it had it and its key occurs at no other index |
| LegacyController.TaggedIffClashes | src/eiger_fastcs/eiger_controller.py:287-292 | the in-place loop tags a parameter if and only if its key occurs at another index of the list |
| LegacyController.TagIdempotent | src/eiger_fastcs/eiger_controller.py:287-292 | tagging changes only the flag, and tagging twice is tagging once |
| LegacyController.TagFreshParameters | src/eiger_fastcs/eiger_controller.py:136 | for parameters created with the default flag, a parameter ends unique if and only if its key does not clash |
| LegacyController.PrefixedNameInjective | src/eiger_fastcs/eiger_controller.py:139-142 | two prefixed names are equal if and only if the subsystems and the keys are |
| LegacyController.Name | src/eiger_fastcs/eiger_controller.py:139-142 | a name always ends with the key; it is the key alone exactly when the key is unique, and otherwise the subsystem and `_` come before it |
| LegacyController.TaggedNamesDistinct | src/eiger_fastcs/eiger_controller.py:139-142 | after tagging, two parameters of the same tag status that differ in subsystem or key have different names |
| LegacyController.LegacyUriKey | src/eiger_fastcs/eiger_controller.py:144-147 | the key is the URI's fifth `/`-separated field onwards |
| LegacyController.LegacyUriInjective | src/eiger_fastcs/eiger_controller.py:144-147 | two URIs are equal if and only if subsystem, mode and key are |
| LegacyController.LegacyAttributeName | src/eiger_fastcs/eiger_controller.py:257-258 | the attribute name is the parameter's name with no `/` left and the same length |
| LegacyController.LegacyAttributeNameOfClash | src/eiger_fastcs/eiger_controller.py:257-258 | a clashing parameter's attribute is named by its subsystem, `_`, and its flattened key |
| LegacyController.LegacyDatatype | src/eiger_fastcs/eiger_controller.py:245-253 | float gives Float with no precision, int and uint give Int, bool gives Bool, the four text types give String, in both directions |
| LegacyController.Writable | src/eiger_fastcs/eiger_controller.py:260-271 | `r` makes a read-only attribute, `rw` a read-write one, and any other access mode makes none |
| LegacyController.Made | src/eiger_fastcs/eiger_controller.py:259-273 | an attribute is writable if and only if its access is `rw`, has its value type's datatype, and is polled through the parameter's URI with the poll-once handler exactly for config |
| LegacyController.CreateAttributesMade | src/eiger_fastcs/eiger_controller.py:242-275 | every attribute created was made from a parameter of that name, with a known value type and an `r` or `rw` access mode |
| LegacyController.CreateAttributesCovers | src/eiger_fastcs/eiger_controller.py:242-275 | every parameter with a known value type and `r` or `rw` access gets an attribute under its name |
| LegacyController.AsWrittenReusesDatatype | src/eiger_fastcs/eiger_controller.py:245-270 | as written, an unknown value type after a float parameter creates an attribute typed Float; the corrected creation makes none |
| LegacyController.CreateAttributesAsWritten | src/eiger_fastcs/eiger_controller.py:240-272 | as written, the loop has a data type to hand exactly when some parameter so far has a known value type |
| LegacyController.AsWrittenExample | src/eiger_fastcs/eiger_controller.py:245-270 | as written, `b` of type "float[]" after float `a` becomes a Float attribute |
| LegacyController.HandlerRunFetches | src/eiger_fastcs/eiger_controller.py:91-101 | from a fresh handler, a status handler fetches on every poll and a config handler only on the first |
| LegacyController.HandlerRunAfter | src/eiger_fastcs/eiger_controller.py:91-101 | once its flag is set, a config handler never fetches again, and a status handler always fetches |
| LegacyController.HandlerUpdate | src/eiger_fastcs/eiger_controller.py:80-101 | a handler fetches unless it is the configuration handler and its first poll is complete; the configuration handler's flag is set afterwards, the status handler's left as it was |

## Left out

- HDF5 I/O: `h5py.File`, `VirtualSource` and `VirtualLayout` are modelled only as the integer map from rows to frames (`Vds.Mapping`, `Vds.ReadVirtual`), never as file writes. Path joining is reduced to the prefix, and the frame shape and dtype are carried as values only.
- `math.ceil` over floats is modelled as exact integer rounding up. Python's float division agrees with it for the frame counts a detector produces; rounding errors for very large counts are not modelled.
- `FrameDistribution.FramesPerFileWriterExamples`: the case `(10,1,10)` of the repository's tests, ten single-frame shares, is not stated as a literal. It is covered by `FrameDistribution.FramesPerFileWriterShape`.
- The tests call `create_interleave_vds` without `datasets`, and the Odin controller calls it without `prefix` too. The model follows the current signature, with `["data"]` standing in for the tests' datasets.
- HTTP and networking: `http_connection.py`, the `get`/`put` round trips, the status codes and `initialise`. Responses are function parameters, and a PUT's reply is the list of names it returns.
- Pydantic validation of the response schema. `EigerParameter.ParseValueType` and `EigerParameter.ParseAccessMode` stand in for it, and an unknown literal parses to `None`.
- Concurrency: the asyncio queues, the locks, `asyncio.gather`, the `@scan` loops, and the set-based update queue of `src/eiger_fastcs/eiger_controller.py:324-363`. An update coroutine is represented by the attribute, or the attribute name, it would update.
- `EigerIo.PollRunFromStart`: the flag `first_poll_complete` is shared by all attributes of one I/O object. The model runs a sequence of polls against that one flag, and does not model interleaving.
- `FETCH_BEFORE_RETURNING` is a constant in `EigerIo` and a parameter `fetchNow` in `NextSubsystemController`, because the newer package imports it from a module that is not part of this model.
- `NextSubsystemController.UpdateTargets`: every attribute is assumed to carry a detector parameter reference, so the `assert isinstance(attr_io, EigerAttributeIO)` of the newer controller always holds.
- The legacy handler `put`'s fallback for an empty reply, `name.split("/")[-1]`, is not modelled. It keeps only the last segment of a nested key, and its queue is the set-based one left out above.
- `str(float)`: the minimum's text is the input to `EigerParameter.MinimumToPrecision`. How Python prints a float is not modelled.
- `EigerParameter.ParseIntRoundTrip`: `int` is modelled on plain decimal numerals with an optional `-` or `+`. Surrounding whitespace and `_` separators are not.
- `Text.Capitalize` is modelled on ASCII letters. Other Unicode case mappings are not.
- Exposure times and poll periods are `real`, not IEEE floats.
- Printed and logged messages ("Failed to handle …", "Failed to find updater …") have no effect on state and are left out.
- `allowed_values` on read-write attributes is left out. It is passed through unchanged.
- `LegacyController.TaggedNamesDistinct` needs the parameters to differ in subsystem or key. The same key in the same subsystem under both modes gets the same name, as in the source.
- `Vds.CreateInterleaveVds`: when a repeated dataset name makes the call fail, the `_vds.h5` file already holds the datasets written before it. That partly written file is not modelled, only the failure.
- `SubsystemController.Group`: its own contract states only that a group holds no `/`. The group's text is stated by `SubsystemController.GroupOfNestedKey` and `SubsystemController.GroupOfFlatKey`.
- `SubsystemController.CreateAttributes`: its own contract bounds what is created. Which attributes are created, and when creation fails, are stated by `SubsystemController.CreateAttributesNames`, `SubsystemController.CreateAttributesLastWins` and `SubsystemController.CreateAttributesFails`.
- `SubsystemController.QueueUpdate`: its own contract bounds the queue. When the controller becomes stale is stated by `SubsystemController.QueueUpdateStale`.
- `EigerParameter.Uri`: its own contract states the key's recovery. The other three fields are stated by `EigerParameter.UriParts`.
- `EigerParameter.MinimumToPrecision`: its own contract states the default and the only failure. The precision of a decimal or exponent minimum is stated by `EigerParameter.PrecisionOfDecimal` and `EigerParameter.PrecisionOfExponent`.
- `FileDistribution.Distribution`: its own contract bounds the file numbers and the total. The file sizes and starts are stated by `FileDistribution.DistributionAt` and `FileDistribution.FileShape`.
- `Vds.Layout`: its own contract states the dataset and file name of every mapping. What each mapping selects is stated by `Vds.LayoutLocates` and `Vds.FrameCovered`.
- `LegacyController.CreateAttributesAsWritten`: its own contract states when a data type is at hand. The attributes created are stated by `LegacyController.AsWrittenReusesDatatype`.
- The entry points, the Odin and fan controllers, the command-line interface and the wrappers that only forward to the modelled functions are outside this model.

## Findings

| source | as written | input that shows it | evidently intended | confidence | as-written member | corrected member |
|---|---|---|---|---|---|---|
| src/eiger_fastcs/eiger_controller.py:245-270 | the `case _` branch of the value-type match only prints, so an `r` or `rw` parameter of unknown value type is created with the datatype left over from the previous parameter, or the loop raises when there is none | `[a: "float", "r"; b: "float[]", "r"]` creates attribute `b` typed `Float` | skip a parameter whose value type cannot be handled, as the "Failed to handle" message says | medium; not executed | LegacyController.AsWrittenReusesDatatype | LegacyController.CreateAttributesMade |
