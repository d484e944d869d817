/** The attribute I/O of a subsystem controller: which parameters to refresh
    after a PUT, how a fetched value is normalised before display, and the
    poll-once rule for configuration parameters. */
module EigerIo {
  import opened Wrappers
  import opened Seqs
  import opened Text
  import opened EigerParameter

  /** Parameters refreshed before a PUT returns; every other parameter the
      detector reports as changed is queued for later. */
  const FetchBeforeReturning: set<string> := {"bit_depth_image", "bit_depth_readout"}

  /** The detector reports a change of `threshold/difference/mode` under the
      name `difference_mode`; the model's name for it is the key's. */
  function CanonicalName(parameter: string): (name: string)
    ensures name != "difference_mode"
  {
    if parameter == "difference_mode" then "threshold/difference/mode" else parameter
  }

  function InSet(fetchNow: set<string>): string -> bool
  {
    p => p in fetchNow
  }

  /** The parameters to refresh at once, in the order they were reported. */
  function FetchedNow(parameters: seq<string>, fetchNow: set<string>): seq<string>
  {
    Filter(InSet(fetchNow), Map(CanonicalName, parameters))
  }

  /** The parameters to queue, in the order they were reported. */
  function FetchedLater(parameters: seq<string>, fetchNow: set<string>): seq<string>
  {
    FilterOut(InSet(fetchNow), Map(CanonicalName, parameters))
  }

  /** The classifying loop of `_handle_params_to_update` (and of the newer
      controller's `_handle_parameter_update`): rename, then append each
      parameter to the list it belongs to. */
  method Classify(parameters: seq<string>, fetchNow: set<string>) returns (updateNow: seq<string>, updateLater: seq<string>)
    ensures updateNow == FetchedNow(parameters, fetchNow)
    ensures updateLater == FetchedLater(parameters, fetchNow)
  {
    updateNow, updateLater := [], [];
    var k := 0;
    while k < |parameters|
      invariant 0 <= k <= |parameters|
      invariant updateNow == FetchedNow(parameters[..k], fetchNow)
      invariant updateLater == FetchedLater(parameters[..k], fetchNow)
    {
      ClassifyStep(parameters, fetchNow, k);
      var parameter := parameters[k];
      if parameter == "difference_mode" {
        parameter := "threshold/difference/mode";
      }
      if parameter in fetchNow {
        updateNow := updateNow + [parameter];
      } else {
        updateLater := updateLater + [parameter];
      }
      k := k + 1;
    }
    assert parameters[..|parameters|] == parameters;
  }

  /** One more reported parameter extends exactly one of the two lists by
      its renamed self. */
  lemma ClassifyStep(parameters: seq<string>, fetchNow: set<string>, k: nat)
    requires k < |parameters|
    ensures var name := CanonicalName(parameters[k]);
            && FetchedNow(parameters[..k + 1], fetchNow)
               == FetchedNow(parameters[..k], fetchNow) + (if name in fetchNow then [name] else [])
            && FetchedLater(parameters[..k + 1], fetchNow)
               == FetchedLater(parameters[..k], fetchNow) + (if name in fetchNow then [] else [name])
  {
    assert parameters[..k + 1] == parameters[..k] + [parameters[k]];
    MapSnoc(CanonicalName, parameters[..k], parameters[k]);
    FilterSnoc(InSet(fetchNow), Map(CanonicalName, parameters[..k]), CanonicalName(parameters[k]));
    FilterOutSnoc(InSet(fetchNow), Map(CanonicalName, parameters[..k]), CanonicalName(parameters[k]));
  }

  /** Every reported parameter, renamed, lands in exactly one of the two
      lists: the set members in the first, the rest in the second. */
  lemma ClassifyPartition(parameters: seq<string>, fetchNow: set<string>)
    ensures multiset(FetchedNow(parameters, fetchNow)) + multiset(FetchedLater(parameters, fetchNow))
            == multiset(Map(CanonicalName, parameters))
    ensures forall p :: p in FetchedNow(parameters, fetchNow) ==> p in fetchNow && p != "difference_mode"
    ensures forall p :: p in FetchedLater(parameters, fetchNow) ==> p !in fetchNow && p != "difference_mode"
  {
    var names := Map(CanonicalName, parameters);
    FilterPartition(InSet(fetchNow), names);
    forall p | p in FetchedNow(parameters, fetchNow)
      ensures p in fetchNow && p != "difference_mode"
    {
      var i :| 0 <= i < |FetchedNow(parameters, fetchNow)| && FetchedNow(parameters, fetchNow)[i] == p;
      var j :| 0 <= j < |names| && names[j] == p;
    }
    forall p | p in FetchedLater(parameters, fetchNow)
      ensures p !in fetchNow && p != "difference_mode"
    {
      var i :| 0 <= i < |FetchedLater(parameters, fetchNow)| && FetchedLater(parameters, fetchNow)[i] == p;
      var j :| 0 <= j < |names| && names[j] == p;
    }
  }

  /** What `_handle_params_to_update` returns: with no reported parameters,
      the parameter just written (the end of its URI) is queued alone. */
  function ParamsToUpdate(parameters: seq<string>, uri: string): (r: (seq<string>, seq<string>))
    ensures |parameters| == 0 ==> r.0 == [] && |r.1| == 1
    ensures |parameters| > 0 ==>
              multiset(r.0) + multiset(r.1) == multiset(Map(CanonicalName, parameters))
    ensures forall p :: p in r.0 ==> p in FetchBeforeReturning
    ensures |parameters| > 0 ==> forall p :: p in r.1 ==> p !in FetchBeforeReturning
  {
    if |parameters| == 0 then ([], [LastField(uri, '/', 4)])
    else
      ClassifyPartition(parameters, FetchBeforeReturning);
      (FetchedNow(parameters, FetchBeforeReturning), FetchedLater(parameters, FetchBeforeReturning))
  }

  /** `_handle_params_to_update` as written, with its loop. */
  method HandleParamsToUpdate(parameters: seq<string>, uri: string) returns (updateNow: seq<string>, updateLater: seq<string>)
    ensures (updateNow, updateLater) == ParamsToUpdate(parameters, uri)
    ensures |parameters| == 0 ==> updateNow == [] && |updateLater| == 1
    ensures |parameters| > 0 ==> |updateNow| + |updateLater| == |parameters|
  {
    if |parameters| == 0 {
      updateNow, updateLater := [], [LastField(uri, '/', 4)];
    } else {
      updateNow, updateLater := Classify(parameters, FetchBeforeReturning);
      ClassifyPartition(parameters, FetchBeforeReturning);
      assert |multiset(updateNow)| + |multiset(updateLater)| == |multiset(Map(CanonicalName, parameters))|;
    }
  }

  /** A PUT the detector answers with an empty list queues the written
      parameter itself, under its own key. */
  lemma EmptyResponseQueuesKey(p: ParameterRef)
    ensures ParamsToUpdate([], Uri(p)) == ([], [p.key])
  {
    UriKey(p);
  }

  /** Writing `threshold/difference/mode` is answered with
      `["difference_mode"]`, which queues the parameter under its key. */
  lemma DifferenceModeExample(uri: string)
    ensures ParamsToUpdate(["difference_mode"], uri) == ([], ["threshold/difference/mode"])
  {
    var names := Map(CanonicalName, ["difference_mode"]);
    assert names == ["threshold/difference/mode"];
    FilterNoneKept(InSet(FetchBeforeReturning), names);
  }

  /** Writing `count_time` changes six parameters; the two bit depths are
      refreshed at once and the other four are queued, in order. */
  lemma CountTimeExample(uri: string)
    ensures ParamsToUpdate(
              ["bit_depth_image", "bit_depth_readout", "count_time",
               "countrate_correction_count_cutoff", "frame_count_time", "frame_time"], uri)
            == (["bit_depth_image", "bit_depth_readout"],
                ["count_time", "countrate_correction_count_cutoff", "frame_count_time", "frame_time"])
  {
    TwoNowFourLater("bit_depth_image", "bit_depth_readout", "count_time",
                    "countrate_correction_count_cutoff", "frame_count_time", "frame_time", uri);
  }

  /** Two reported parameters of the refreshed set followed by four others
      split two and four, each list in reported order. */
  lemma TwoNowFourLater(a: string, b: string, c: string, d: string, e: string, f: string, uri: string)
    requires a in FetchBeforeReturning && b in FetchBeforeReturning
    requires c !in FetchBeforeReturning && d !in FetchBeforeReturning
    requires e !in FetchBeforeReturning && f !in FetchBeforeReturning
    requires "difference_mode" !in [c, d, e, f]
    ensures ParamsToUpdate([a, b, c, d, e, f], uri) == ([a, b], [c, d, e, f])
  {
    var reported := [a, b, c, d, e, f];
    var now, later := [a, b], [c, d, e, f];
    assert forall i :: 0 <= i < 6 ==> CanonicalName(reported[i]) == reported[i];
    assert Map(CanonicalName, reported) == reported;
    assert reported == now + later;
    FilterAllKept(InSet(FetchBeforeReturning), now);
    FilterNoneKept(InSet(FetchBeforeReturning), later);
    FilterAppend(InSet(FetchBeforeReturning), now, later);
    FilterOutAppend(InSet(FetchBeforeReturning), now, later);
    assert now + [] == now && [] + later == later;
  }

  /** A fetched value: JSON text, number, boolean, list or null. */
  datatype Value = Text(text: string) | Number(number: real) | Flag(flag: bool) | List(items: seq<Value>) | Null

  predicate IsTextList(v: Value)
  {
    v.List? && forall i :: 0 <= i < |v.items| ==> v.items[i].Text?
  }

  function Texts(items: seq<Value>): (texts: seq<string>)
    requires forall i :: 0 <= i < |items| ==> items[i].Text?
    ensures |texts| == |items|
    ensures forall i :: 0 <= i < |items| ==> texts[i] == items[i].text
  {
    seq(|items|, i requires 0 <= i < |items| => items[i].text)
  }

  /** The value shown for a fetched value: a list of strings (an error list)
      is joined with `", "`, anything else is shown as it is. */
  function Normalise(v: Value): (r: Value)
    ensures r == v <==> !IsTextList(v)
    ensures !IsTextList(r)
    ensures IsTextList(v) ==> r == Text(Join(Texts(v.items), ", "))
  {
    if IsTextList(v) then Text(Join(Texts(v.items), ", ")) else v
  }

  /** Normalising a normalised value changes nothing. */
  lemma NormaliseIdempotent(v: Value)
    ensures Normalise(Normalise(v)) == Normalise(v)
  {
  }

  /** Two error strings, an empty list (which `all` accepts), and a mixed
      list that is left alone. */
  lemma NormaliseExamples()
    ensures Normalise(List([Text("a"), Text("b")])) == Text("a, b")
    ensures Normalise(List([])) == Text("")
    ensures Normalise(List([Text("a"), Number(1.0)])) == List([Text("a"), Number(1.0)])
  {
    assert Texts([Text("a"), Text("b")]) == ["a", "b"];
    assert ["a", "b"][1..] == ["b"];
  }

  /** One call of `update`: whether the attribute is fetched, and the shared
      `first_poll_complete` flag afterwards. A configuration parameter is
      skipped once the flag is set; any fetch sets it. */
  function PollStep(firstPollComplete: bool, mode: Mode): (r: (bool, bool))
    ensures r.0 <==> mode == Status || !firstPollComplete
    ensures r.1
  {
    var fetched := !(mode == Config && firstPollComplete);
    (fetched, firstPollComplete || fetched)
  }

  /** Which of a sequence of `update` calls, for attributes of the given
      modes, fetch their parameter, starting from the given flag. */
  function PollRun(firstPollComplete: bool, modes: seq<Mode>): (fetched: seq<bool>)
    ensures |fetched| == |modes|
    decreases |modes|
  {
    if |modes| == 0 then []
    else
      var (now, flag) := PollStep(firstPollComplete, modes[0]);
      [now] + PollRun(flag, modes[1..])
  }

  /** Once the flag is set, exactly the status parameters are fetched. */
  lemma {:induction false} PollRunAfterFirst(modes: seq<Mode>)
    ensures forall i :: 0 <= i < |modes| ==> (PollRun(true, modes)[i] <==> modes[i] == Status)
  {
    if |modes| > 0 {
      PollRunAfterFirst(modes[1..]);
      assert forall i :: 1 <= i < |modes| ==> PollRun(true, modes)[i] == PollRun(true, modes[1..])[i - 1];
    }
  }

  /** From a fresh I/O object, the very first update fetches whatever its
      mode, and after it only status parameters are fetched: the flag is
      shared by every attribute of the subsystem. */
  lemma PollRunFromStart(modes: seq<Mode>)
    ensures forall i :: 0 <= i < |modes| ==> (PollRun(false, modes)[i] <==> i == 0 || modes[i] == Status)
  {
    if |modes| > 0 {
      PollRunAfterFirst(modes[1..]);
      assert forall i :: 1 <= i < |modes| ==> PollRun(false, modes)[i] == PollRun(true, modes[1..])[i - 1];
    }
  }
}
