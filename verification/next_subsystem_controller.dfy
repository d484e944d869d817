/** The subsystem controller of the `fastcs_eiger.controller` package, the
    newer copy built on the `fastcs2` attribute I/O: what a PUT's answer
    refreshes at once and what it queues, and which attributes a list of
    parameters refreshes. The set of parameters refreshed before a PUT
    returns is a parameter of the model, `fetchNow`. */
module NextSubsystemController {
  import opened Wrappers
  import opened Seqs
  import opened EigerParameter
  import opened EigerIo

  /** `_handle_parameter_update`: the parameter just written is refreshed at
      once, ahead of the reported parameters that are refreshed at once; the
      other reported parameters are queued. */
  method HandleParameterUpdate(put: string, fetched: seq<string>, fetchNow: set<string>)
    returns (updateNow: seq<string>, updateLater: seq<string>)
    ensures updateNow == [put] + FetchedNow(fetched, fetchNow)
    ensures updateLater == FetchedLater(fetched, fetchNow)
  {
    updateNow, updateLater := [put], [];
    var k := 0;
    while k < |fetched|
      invariant 0 <= k <= |fetched|
      invariant updateNow == [put] + FetchedNow(fetched[..k], fetchNow)
      invariant updateLater == FetchedLater(fetched[..k], fetchNow)
    {
      var parameter := fetched[k];
      if parameter == "difference_mode" {
        parameter := "threshold/difference/mode";
      }
      assert Map(CanonicalName, fetched[..k + 1]) == Map(CanonicalName, fetched[..k]) + [parameter];
      FilterSnoc(InSet(fetchNow), Map(CanonicalName, fetched[..k]), parameter);
      FilterOutSnoc(InSet(fetchNow), Map(CanonicalName, fetched[..k]), parameter);
      if parameter in fetchNow {
        updateNow := updateNow + [parameter];
      } else {
        updateLater := updateLater + [parameter];
      }
      k := k + 1;
    }
    assert fetched[..|fetched|] == fetched;
  }

  /** The written parameter leads the refreshed list; every reported
      parameter, renamed, is refreshed or queued and not both, according to
      `fetchNow`. */
  lemma ParameterUpdatePartition(put: string, fetched: seq<string>, fetchNow: set<string>)
    ensures ([put] + FetchedNow(fetched, fetchNow))[0] == put
    ensures multiset(([put] + FetchedNow(fetched, fetchNow))[1..]) + multiset(FetchedLater(fetched, fetchNow))
            == multiset(Map(CanonicalName, fetched))
    ensures forall i :: 1 <= i < |[put] + FetchedNow(fetched, fetchNow)| ==>
              ([put] + FetchedNow(fetched, fetchNow))[i] in fetchNow
    ensures forall i :: 0 <= i < |FetchedLater(fetched, fetchNow)| ==>
              FetchedLater(fetched, fetchNow)[i] !in fetchNow
  {
    ClassifyPartition(fetched, fetchNow);
    var now := FetchedNow(fetched, fetchNow);
    assert ([put] + now)[1..] == now;
    forall i | 1 <= i < |[put] + now| ensures ([put] + now)[i] in fetchNow {
      assert ([put] + now)[i] == now[i - 1];
      assert now[i - 1] in now;
    }
    forall i | 0 <= i < |FetchedLater(fetched, fetchNow)| ensures FetchedLater(fetched, fetchNow)[i] !in fetchNow {
      assert FetchedLater(fetched, fetchNow)[i] in FetchedLater(fetched, fetchNow);
    }
  }

  /** An attribute as the update search sees it: whether it is readable (an
      `AttributeR` or `AttributeRW`), and the poll period of its detector
      parameter reference. */
  datatype Attr = Attr(readable: bool, updatePeriod: Option<real>)

  /** A parameter is refreshed when its flattened name names a readable
      attribute that is polled. */
  function Polled(attributes: map<string, Attr>): string -> bool
  {
    parameter =>
      var name := KeyToAttributeName(parameter);
      name in attributes && attributes[name].readable && attributes[name].updatePeriod.Some?
  }

  /** The attributes refreshed for a list of parameters, by name, in
      parameter order: one `config_update` per refreshed parameter. */
  function UpdateTargets(attributes: map<string, Attr>, parameters: seq<string>): (names: seq<string>)
    ensures |names| <= |parameters|
    ensures forall i :: 0 <= i < |names| ==>
              names[i] in attributes && attributes[names[i]].readable && attributes[names[i]].updatePeriod.Some?
    ensures forall i :: 0 <= i < |parameters| && Polled(attributes)(parameters[i]) ==>
              KeyToAttributeName(parameters[i]) in names
  {
    var kept := Filter(Polled(attributes), parameters);
    var names := Map(KeyToAttributeName, kept);
    forall i | 0 <= i < |parameters| && Polled(attributes)(parameters[i])
      ensures KeyToAttributeName(parameters[i]) in names
    {
      var j :| 0 <= j < |kept| && kept[j] == parameters[i];
      assert names[j] == KeyToAttributeName(parameters[i]);
    }
    names
  }

  /** An attribute with no poll period is never refreshed: parameters naming
      only such attributes, or no attribute, refresh nothing. */
  lemma UnpolledRefreshNothing(attributes: map<string, Attr>, parameters: seq<string>)
    requires forall i :: 0 <= i < |parameters| ==>
               var name := KeyToAttributeName(parameters[i]);
               name !in attributes || attributes[name].updatePeriod.None?
    ensures UpdateTargets(attributes, parameters) == []
  {
    FilterNoneKept(Polled(attributes), parameters);
  }

  /** One more parameter adds its attribute's name when it is refreshed. */
  lemma UpdateTargetsSnoc(attributes: map<string, Attr>, parameters: seq<string>, parameter: string)
    ensures UpdateTargets(attributes, parameters + [parameter])
            == UpdateTargets(attributes, parameters)
               + if Polled(attributes)(parameter) then [KeyToAttributeName(parameter)] else []
  {
    FilterSnoc(Polled(attributes), parameters, parameter);
    var kept := Filter(Polled(attributes), parameters);
    if Polled(attributes)(parameter) {
      assert Map(KeyToAttributeName, kept + [parameter]) == Map(KeyToAttributeName, kept) + [KeyToAttributeName(parameter)];
    }
  }

  /** `_get_update_coros_for_parameters` as written, with its loop. */
  method GetUpdateCoros(attributes: map<string, Attr>, parameters: seq<string>) returns (coros: seq<string>)
    ensures coros == UpdateTargets(attributes, parameters)
  {
    coros := [];
    var k := 0;
    while k < |parameters|
      invariant 0 <= k <= |parameters|
      invariant coros == UpdateTargets(attributes, parameters[..k])
    {
      var name := KeyToAttributeName(parameters[k]);
      assert parameters[..k + 1] == parameters[..k] + [parameters[k]];
      UpdateTargetsSnoc(attributes, parameters[..k], parameters[k]);
      if name in attributes && attributes[name].readable && attributes[name].updatePeriod.Some? {
        coros := coros + [name];
      }
      k := k + 1;
    }
    assert parameters[..k] == parameters;
  }

  /** `queue_update`: the batches handed to `queue_update_fn`, at most one,
      and none for an empty list or one that refreshes nothing. */
  function QueueUpdate(attributes: map<string, Attr>, parameters: seq<string>): (calls: seq<seq<string>>)
    ensures |calls| <= 1
    ensures |calls| == 1 <==> |parameters| > 0 && |UpdateTargets(attributes, parameters)| > 0
    ensures |calls| == 1 ==> calls[0] == UpdateTargets(attributes, parameters) && |calls[0]| > 0
  {
    if |parameters| == 0 then []
    else
      var coros := UpdateTargets(attributes, parameters);
      if |coros| > 0 then [coros] else []
  }

  /** A queued batch holds exactly the polled readable attributes named by
      the parameters. */
  lemma QueuedBatch(attributes: map<string, Attr>, parameters: seq<string>)
    requires |QueueUpdate(attributes, parameters)| == 1
    ensures forall name :: name in QueueUpdate(attributes, parameters)[0] <==>
              exists i :: 0 <= i < |parameters| && Polled(attributes)(parameters[i])
                          && KeyToAttributeName(parameters[i]) == name
  {
    var kept := Filter(Polled(attributes), parameters);
    var batch := QueueUpdate(attributes, parameters)[0];
    forall name | name in batch
      ensures exists i :: 0 <= i < |parameters| && Polled(attributes)(parameters[i])
                          && KeyToAttributeName(parameters[i]) == name
    {
      var j :| 0 <= j < |batch| && batch[j] == name;
      assert kept[j] in parameters;
      var i :| 0 <= i < |parameters| && parameters[i] == kept[j];
    }
  }
}
