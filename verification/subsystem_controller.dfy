/** A subsystem controller of the detector (detector, stream or monitor):
    which keys it introspects, the display group of each parameter, the
    attributes it makes from them, and which attributes a list of changed
    parameters refreshes. The HTTP GETs are parameters: `listed(mode)` is
    the mode's `keys` listing and `response(mode, key)` the validated GET
    response of one key. */
module SubsystemController {
  import opened Wrappers
  import opened Seqs
  import opened Text
  import opened EigerParameter

  /** Keys never turned into attributes: big arrays, deprecated keys, and
      values the display cannot show. */
  const IgnoredKeys: seq<string> := [
    "countrate_correction_table", "pixel_mask", "threshold/1/pixel_mask",
    "threshold/2/pixel_mask", "flatfield", "threshold/1/flatfield",
    "threshold/2/flatfield", "board_000/th0_humidity", "board_000/th0_temp",
    "buffer_fill_level", "detector_orientation", "detector_translation",
    "test_image_mode", "test_image_value"]

  /** Keys the API serves but leaves out of its `keys` listing. */
  function MissingKeys(subsystem: Subsystem, mode: Mode): seq<string>
  {
    match (subsystem, mode)
    case (Detector, Status) => ["error"]
    case (Detector, Config) => ["wavelength"]
    case (Stream, Status) => ["error"]
    case _ => []
  }

  /** The poll period an introspected parameter is given. */
  const DefaultUpdatePeriod: real := 0.2

  function NotIgnored(key: string): bool
  {
    key !in IgnoredKeys
  }

  /** The keys one mode of a subsystem is introspected for: the listing
      without the ignored keys, in listed order, then the missing keys. */
  function SubsystemKeys(listed: seq<string>, subsystem: Subsystem, mode: Mode): (keys: seq<string>)
    ensures |MissingKeys(subsystem, mode)| <= |keys|
    ensures keys[|keys| - |MissingKeys(subsystem, mode)|..] == MissingKeys(subsystem, mode)
  {
    Filter(NotIgnored, listed) + MissingKeys(subsystem, mode)
  }

  /** A key is introspected exactly when it is listed and not ignored, or
      missing from the listing; so no ignored key ever is. */
  lemma SubsystemKeysMembers(listed: seq<string>, subsystem: Subsystem, mode: Mode)
    ensures forall k :: k in SubsystemKeys(listed, subsystem, mode) <==>
              (k in listed && k !in IgnoredKeys) || k in MissingKeys(subsystem, mode)
    ensures forall k :: k in SubsystemKeys(listed, subsystem, mode) ==> k !in IgnoredKeys
  {
    FilterMembers(NotIgnored, listed);
  }

  /** The parameters of one mode, one per key, in key order. */
  function ModeParameters(subsystem: Subsystem, mode: Mode, keys: seq<string>,
                          response: (Mode, string) -> Response): (ps: seq<ParameterRef>)
    ensures |ps| == |keys|
    ensures forall i :: 0 <= i < |keys| ==>
              ps[i] == ParameterRef(keys[i], subsystem, mode, response(mode, keys[i]), Some(DefaultUpdatePeriod))
  {
    seq(|keys|, i requires 0 <= i < |keys| =>
      ParameterRef(keys[i], subsystem, mode, response(mode, keys[i]), Some(DefaultUpdatePeriod)))
  }

  /** The parameters of each mode in turn, for the given key list of each. */
  function IntrospectModes(subsystem: Subsystem, modes: seq<Mode>, keys: Mode -> seq<string>,
                           response: (Mode, string) -> Response): seq<ParameterRef>
  {
    if |modes| == 0 then []
    else ModeParameters(subsystem, modes[0], keys(modes[0]), response) + IntrospectModes(subsystem, modes[1..], keys, response)
  }

  /** `_introspect_detector_subsystem`: the parameters of every mode, status
      first. */
  function Introspect(subsystem: Subsystem, listed: Mode -> seq<string>,
                      response: (Mode, string) -> Response): seq<ParameterRef>
  {
    IntrospectModes(subsystem, Modes, m => SubsystemKeys(listed(m), subsystem, m), response)
  }

  /** A parameter of the subsystem, from its mode's key list, with that
      key's response and the default poll period. */
  predicate Introspected(p: ParameterRef, subsystem: Subsystem, modes: seq<Mode>, keys: Mode -> seq<string>,
                         response: (Mode, string) -> Response)
  {
    && p.subsystem == subsystem && p.mode in modes && p.key in keys(p.mode)
    && p.response == response(p.mode, p.key) && p.updatePeriod == Some(DefaultUpdatePeriod)
  }

  /** Every introspected parameter belongs to the subsystem and comes from
      its mode's key list, with that key's response. */
  lemma {:induction false} IntrospectModesElements(subsystem: Subsystem, modes: seq<Mode>, keys: Mode -> seq<string>,
                                                   response: (Mode, string) -> Response)
    ensures forall i :: 0 <= i < |IntrospectModes(subsystem, modes, keys, response)| ==> Introspected(IntrospectModes(subsystem, modes, keys, response)[i], subsystem, modes, keys, response)
  {
    if |modes| > 0 {
      var head := ModeParameters(subsystem, modes[0], keys(modes[0]), response);
      var rest := IntrospectModes(subsystem, modes[1..], keys, response);
      var ps := IntrospectModes(subsystem, modes, keys, response);
      IntrospectModesElements(subsystem, modes[1..], keys, response);
      assert ps == head + rest;
      forall i | 0 <= i < |ps|
        ensures Introspected(ps[i], subsystem, modes, keys, response)
      {
        if i < |head| {
          assert ps[i] == head[i];
          assert keys(modes[0])[i] in keys(modes[0]);
        } else {
          assert ps[i] == rest[i - |head|];
          assert forall m :: m in modes[1..] ==> m in modes;
        }
      }
    }
  }

  /** Some parameter of `ps` has the given mode and key. */
  predicate HasEntry(ps: seq<ParameterRef>, m: Mode, k: string)
  {
    exists i :: 0 <= i < |ps| && ps[i].mode == m && ps[i].key == k
  }

  /** Every key of every mode's list is introspected under that mode. */
  lemma {:induction false} IntrospectModesCovers(subsystem: Subsystem, modes: seq<Mode>, keys: Mode -> seq<string>,
                                                 response: (Mode, string) -> Response)
    ensures forall m, k :: m in modes && k in keys(m) ==> HasEntry(IntrospectModes(subsystem, modes, keys, response), m, k)
  {
    if |modes| > 0 {
      var head := ModeParameters(subsystem, modes[0], keys(modes[0]), response);
      var rest := IntrospectModes(subsystem, modes[1..], keys, response);
      var ps := IntrospectModes(subsystem, modes, keys, response);
      IntrospectModesCovers(subsystem, modes[1..], keys, response);
      assert ps == head + rest;
      forall m, k | m in modes && k in keys(m)
        ensures HasEntry(ps, m, k)
      {
        if m == modes[0] {
          var j :| 0 <= j < |keys(m)| && keys(m)[j] == k;
          assert ps[j] == head[j];
        } else {
          assert m in modes[1..];
          assert HasEntry(rest, m, k);
          var i :| 0 <= i < |rest| && rest[i].mode == m && rest[i].key == k;
          assert ps[|head| + i] == rest[i];
        }
      }
    }
  }

  /** What the introspection tests check: no ignored key is introspected, and
      every missing key of every mode is. */
  lemma IntrospectKeys(subsystem: Subsystem, listed: Mode -> seq<string>, response: (Mode, string) -> Response)
    ensures forall i :: 0 <= i < |Introspect(subsystem, listed, response)| ==>
              Introspect(subsystem, listed, response)[i].key !in IgnoredKeys
              && Introspect(subsystem, listed, response)[i].subsystem == subsystem
    ensures forall m, k :: k in MissingKeys(subsystem, m) ==> HasEntry(Introspect(subsystem, listed, response), m, k)
  {
    var keys := m => SubsystemKeys(listed(m), subsystem, m);
    var ps := Introspect(subsystem, listed, response);
    IntrospectModesElements(subsystem, Modes, keys, response);
    IntrospectModesCovers(subsystem, Modes, keys, response);
    SubsystemKeysMembers(listed(Status), subsystem, Status);
    SubsystemKeysMembers(listed(Config), subsystem, Config);
    forall i | 0 <= i < |ps| ensures ps[i].key !in IgnoredKeys && ps[i].subsystem == subsystem {
      assert Introspected(ps[i], subsystem, Modes, keys, response);
      assert ps[i].mode == Status || ps[i].mode == Config;
    }
    forall m, k | k in MissingKeys(subsystem, m) ensures HasEntry(ps, m, k) {
      assert m == Status || m == Config;
      assert k in keys(m);
    }
  }

  /** `_group`: a nested key is grouped by its capitalised leading segments,
      a flat key by its capitalised subsystem and mode. */
  function Group(p: ParameterRef): (r: string)
    ensures '/' !in r
  {
    if '/' in p.key then
      var parts := Split(p.key, '/');
      var groupParts := Map(Capitalize, parts[..|parts| - 1]);
      forall k | 0 <= k < |groupParts|
        ensures '/' !in groupParts[k]
      {
        CapitalizeWithout(parts[k], '/');
      }
      ConcatWithout(groupParts, '/');
      Concat(groupParts)
    else
      CapitalizeWithout(SubsystemName(p.subsystem), '/');
      CapitalizeWithout(ModeName(p.mode), '/');
      Capitalize(SubsystemName(p.subsystem)) + Capitalize(ModeName(p.mode))
  }

  /** The group of `prefix/leaf` comes from the segments of `prefix` alone,
      however many there are. */
  lemma GroupOfNestedKey(p: ParameterRef, prefix: string, leaf: string)
    requires p.key == prefix + "/" + leaf
    requires '/' !in leaf
    ensures Group(p) == Concat(Map(Capitalize, Split(prefix, '/')))
  {
    assert p.key[|prefix|] == '/';
    SplitSnoc(prefix, leaf, '/');
    var parts := Split(p.key, '/');
    assert parts[..|parts| - 1] == Split(prefix, '/');
  }

  /** A flat key is grouped by its subsystem and mode. */
  lemma GroupOfFlatKey(p: ParameterRef)
    requires '/' !in p.key
    ensures Group(p) == Capitalize(SubsystemName(p.subsystem)) + Capitalize(ModeName(p.mode))
    ensures |Group(p)| == |SubsystemName(p.subsystem)| + 6
  {
  }

  lemma ConcatCons(first: string, rest: seq<string>)
    ensures Concat([first] + rest) == first + Concat(rest)
  {
    assert ([first] + rest)[1..] == rest;
  }

  /** Every nested `threshold/...` key lands in a group starting with
      `Threshold`. */
  lemma ThresholdGroup(p: ParameterRef, rest: string)
    requires p.key == "threshold/" + rest
    requires '/' in rest
    ensures StartsWith(Group(p), "Threshold")
  {
    assert "threshold/" + rest == "threshold" + "/" + rest;
    LeadingSegmentGroup(p, "threshold", rest);
    CapitalizedThreshold();
  }

  lemma CapitalizedThreshold()
    ensures Capitalize("threshold") == "Threshold"
  {
  }

  /** A key with at least two separators is grouped under its capitalised
      first segment, followed by the groups of the segments after it. */
  lemma LeadingSegmentGroup(p: ParameterRef, head: string, rest: string)
    requires p.key == head + "/" + rest
    requires '/' !in head && '/' in rest
    ensures StartsWith(Group(p), Capitalize(head))
  {
    var tail := Split(rest, '/');
    LeadingSegmentParts(head, rest);
    var caps := Map(Capitalize, tail[..|tail| - 1]);
    MapCons(head, tail[..|tail| - 1]);
    ConcatCons(Capitalize(head), caps);
  }

  lemma LeadingSegmentParts(head: string, rest: string)
    requires '/' !in head && '/' in rest
    ensures |Split(head + "/" + rest, '/')| == |Split(rest, '/')| + 1
    ensures Split(head + "/" + rest, '/')[..|Split(rest, '/')|] == [head] + Split(rest, '/')[..|Split(rest, '/')| - 1]
  {
    assert head + "/" + rest == head + ['/'] + rest;
    SplitStep(head, rest, '/');
    ConsInit(head, Split(rest, '/'));
  }

  lemma ConsInit(x: string, t: seq<string>)
    requires |t| >= 1
    ensures ([x] + t)[..|t|] == [x] + t[..|t| - 1]
  {
  }

  lemma MapCons(first: string, rest: seq<string>)
    ensures Map(Capitalize, [first] + rest) == [Capitalize(first)] + Map(Capitalize, rest)
  {
  }

  /** The groups the introspection test expects. */
  lemma ThresholdTwoGroupExample(r: Response, u: Option<real>)
    ensures Group(ParameterRef("threshold/2/energy", Detector, Config, r, u)) == "Threshold2"
  {
    ThresholdTwoKeyText();
    TwoSegmentGroup(ParameterRef("threshold/2/energy", Detector, Config, r, u), "threshold", "2", "energy");
    CapitalizedThreshold();
    assert Capitalize("2") == "2";
    assert "Threshold" + "2" == "Threshold2";
  }

  lemma ThresholdTwoKeyText()
    ensures "threshold/2/energy" == "threshold" + "/" + "2" + "/" + "energy"
    ensures '/' !in "energy"
  {
  }

  lemma DifferenceKeyText()
    ensures "threshold/difference/lower_threshold" == "threshold" + "/" + "difference" + "/" + "lower_threshold"
    ensures '/' !in "difference" && '/' !in "lower_threshold"
  {
  }

  lemma ThresholdDifferenceGroupExample(r: Response, u: Option<real>)
    ensures Group(ParameterRef("threshold/difference/lower_threshold", Detector, Config, r, u)) == "ThresholdDifference"
  {
    DifferenceKeyText();
    TwoSegmentGroup(ParameterRef("threshold/difference/lower_threshold", Detector, Config, r, u),
                    "threshold", "difference", "lower_threshold");
    CapitalizedThreshold();
    CapitalizedDifference();
    ThresholdDifferenceText();
  }

  lemma ThresholdDifferenceText()
    ensures "Threshold" + "Difference" == "ThresholdDifference"
  {
    var s := "Threshold" + "Difference";
    assert |s| == 19;
    assert forall i :: 0 <= i < 9 ==> s[i] == "Threshold"[i];
    assert forall i :: 9 <= i < 19 ==> s[i] == "Difference"[i - 9];
  }

  lemma CapitalizedDifference()
    ensures Capitalize("difference") == "Difference"
  {
  }

  lemma TwoSegmentGroup(p: ParameterRef, a: string, b: string, leaf: string)
    requires p.key == a + "/" + b + "/" + leaf
    requires '/' !in a && '/' !in b && '/' !in leaf
    ensures Group(p) == Capitalize(a) + Capitalize(b)
  {
    GroupOfNestedKey(p, a + "/" + b, leaf);
    assert a + "/" + b == a + ['/'] + b;
    SplitStep(a, b, '/');
    SplitWithout(b, '/');
    assert Split(a + "/" + b, '/') == [a, b];
    assert Map(Capitalize, [a, b]) == [Capitalize(a), Capitalize(b)];
    ConcatCons(Capitalize(a), [Capitalize(b)]);
  }

  lemma FlatGroupExample(r: Response, u: Option<real>)
    ensures Group(ParameterRef("humidity", Detector, Status, r, u)) == "DetectorStatus"
  {
    var p := ParameterRef("humidity", Detector, Status, r, u);
    assert '/' !in p.key;
    GroupOfFlatKey(p);
    assert Capitalize("detector") == "Detector" && Capitalize("status") == "Status";
    assert "Detector" + "Status" == "DetectorStatus";
  }

  /** The display library's attribute classes: read-only, read-write and
      write-only. */
  datatype AttrKind = AttrR | AttrRW | AttrW

  /** An attribute: its class, data type, display group and, for one made
      from a parameter, the parameter it reads and writes. */
  datatype Attribute = Attribute(kind: AttrKind, dataType: DataType, group: string, ref: Option<ParameterRef>)

  /** Parameters `_create_attributes` makes an attribute for; write-only ones
      have none. */
  predicate Creatable(p: ParameterRef)
  {
    p.response.accessMode != WriteOnly
  }

  function KindOf(a: AccessMode): AttrKind
  {
    if a == ReadOnly then AttrR else AttrRW
  }

  /** The attribute made from a parameter. */
  predicate Describes(a: Attribute, p: ParameterRef)
  {
    && a.kind == KindOf(p.response.accessMode)
    && FastcsDatatype(p) == Some(a.dataType)
    && a.group == Group(p)
    && a.ref == Some(p)
  }

  /** No later creatable parameter has the same attribute name. */
  predicate LastWithName(ps: seq<ParameterRef>, i: nat)
    requires i < |ps|
  {
    forall j :: i < j < |ps| && Creatable(ps[j]) ==> AttributeName(ps[j]) != AttributeName(ps[i])
  }

  /** `_create_attributes`, a loop over the parameters in order; `None` when
      a parameter's data type cannot be derived (the loop raises). */
  function CreateAttributes(ps: seq<ParameterRef>): (r: Option<map<string, Attribute>>)
    ensures r.Some? ==> forall name :: name in r.value ==>
              && r.value[name].ref.Some?
              && r.value[name].ref.value in ps
              && Creatable(r.value[name].ref.value)
              && name == AttributeName(r.value[name].ref.value)
              && r.value[name].group == Group(r.value[name].ref.value)
    decreases |ps|
  {
    if |ps| == 0 then Some(map[])
    else
      var p := ps[|ps| - 1];
      assert forall q :: q in ps[..|ps| - 1] ==> q in ps;
      match CreateAttributes(ps[..|ps| - 1])
      case None => None
      case Some(attributes) =>
        if !Creatable(p) then Some(attributes)
        else
          match FastcsDatatype(p)
          case None => None
          case Some(dataType) =>
            Some(attributes[AttributeName(p) := Attribute(KindOf(p.response.accessMode), dataType, Group(p), Some(p))])
  }

  /** Some readable parameter of `ps` has no data type. */
  predicate SomeUntyped(ps: seq<ParameterRef>)
  {
    exists i :: 0 <= i < |ps| && Creatable(ps[i]) && FastcsDatatype(ps[i]).None?
  }

  /** Some readable parameter of `ps` has the attribute name `name`. */
  predicate Names(ps: seq<ParameterRef>, name: string)
  {
    exists i :: 0 <= i < |ps| && Creatable(ps[i]) && AttributeName(ps[i]) == name
  }

  /** The loop fails exactly when a readable parameter has no data type. */
  lemma {:induction false} CreateAttributesFails(ps: seq<ParameterRef>)
    ensures CreateAttributes(ps).None? <==> SomeUntyped(ps)
    decreases |ps|
  {
    if |ps| > 0 {
      var n := |ps| - 1;
      var init := ps[..n];
      CreateAttributesFails(init);
      assert forall i :: 0 <= i < n ==> init[i] == ps[i];
      if SomeUntyped(init) {
        var i :| 0 <= i < n && Creatable(init[i]) && FastcsDatatype(init[i]).None?;
        assert ps[i] == init[i];
      }
    }
  }

  /** The attributes are keyed by exactly the names of the readable
      parameters. */
  lemma {:induction false} CreateAttributesNames(ps: seq<ParameterRef>)
    ensures CreateAttributes(ps).Some? ==>
              forall name :: name in CreateAttributes(ps).value <==> Names(ps, name)
    decreases |ps|
  {
    if |ps| > 0 && CreateAttributes(ps).Some? {
      var n := |ps| - 1;
      var init := ps[..n];
      CreateAttributesNames(init);
      var before := CreateAttributes(init).value;
      forall name
        ensures name in CreateAttributes(ps).value <==> Names(ps, name)
      {
        if Names(init, name) {
          var i :| 0 <= i < n && Creatable(init[i]) && AttributeName(init[i]) == name;
          assert ps[i] == init[i];
        }
        if Names(ps, name) {
          var i :| 0 <= i < |ps| && Creatable(ps[i]) && AttributeName(ps[i]) == name;
          if i < n {
            assert init[i] == ps[i];
          }
        }
      }
    }
  }

  /** Each name holds the attribute made from the last readable parameter of
      that name in `ps`. */
  predicate HoldsLast(ps: seq<ParameterRef>, attributes: map<string, Attribute>)
  {
    forall i :: 0 <= i < |ps| && Creatable(ps[i]) && LastWithName(ps, i) ==>
      AttributeName(ps[i]) in attributes && Describes(attributes[AttributeName(ps[i])], ps[i])
  }

  /** Each name holds the attribute made from the last readable parameter of
      that name: a later duplicate overwrites an earlier one. */
  lemma {:induction false} CreateAttributesLastWins(ps: seq<ParameterRef>)
    ensures CreateAttributes(ps).Some? ==> HoldsLast(ps, CreateAttributes(ps).value)
    decreases |ps|
  {
    if |ps| > 0 && CreateAttributes(ps).Some? {
      var init := ps[..|ps| - 1];
      CreateAttributesLastWins(init);
      LastWinsStep(ps, CreateAttributes(init).value, CreateAttributes(ps).value);
    }
  }

  /** One more parameter keeps the earlier last-of-name attributes and adds
      its own. */
  lemma LastWinsStep(ps: seq<ParameterRef>, before: map<string, Attribute>, after: map<string, Attribute>)
    requires |ps| > 0
    requires CreateAttributes(ps[..|ps| - 1]) == Some(before) && HoldsLast(ps[..|ps| - 1], before)
    requires CreateAttributes(ps) == Some(after)
    ensures HoldsLast(ps, after)
  {
    forall i | 0 <= i < |ps| && Creatable(ps[i]) && LastWithName(ps, i)
      ensures AttributeName(ps[i]) in after && Describes(after[AttributeName(ps[i])], ps[i])
    {
      if i < |ps| - 1 {
        KeepsEarlier(ps, before, after, i);
      } else {
        AddsLast(ps, before, after);
      }
    }
  }

  lemma KeepsEarlier(ps: seq<ParameterRef>, before: map<string, Attribute>, after: map<string, Attribute>, i: nat)
    requires i < |ps| - 1 && Creatable(ps[i]) && LastWithName(ps, i)
    requires CreateAttributes(ps[..|ps| - 1]) == Some(before) && HoldsLast(ps[..|ps| - 1], before)
    requires CreateAttributes(ps) == Some(after)
    ensures AttributeName(ps[i]) in after && after[AttributeName(ps[i])] == before[AttributeName(ps[i])]
    ensures Describes(after[AttributeName(ps[i])], ps[i])
  {
    var init := ps[..|ps| - 1];
    assert init[i] == ps[i];
    LastWithNamePrefix(ps, i);
  }

  lemma LastWithNamePrefix(ps: seq<ParameterRef>, i: nat)
    requires i < |ps| - 1 && LastWithName(ps, i)
    ensures LastWithName(ps[..|ps| - 1], i)
  {
    var init := ps[..|ps| - 1];
    forall j | i < j < |init| && Creatable(init[j]) ensures AttributeName(init[j]) != AttributeName(init[i]) {
      assert init[j] == ps[j] && init[i] == ps[i];
    }
  }

  lemma AddsLast(ps: seq<ParameterRef>, before: map<string, Attribute>, after: map<string, Attribute>)
    requires |ps| > 0 && Creatable(ps[|ps| - 1])
    requires CreateAttributes(ps[..|ps| - 1]) == Some(before)
    requires CreateAttributes(ps) == Some(after)
    ensures AttributeName(ps[|ps| - 1]) in after && Describes(after[AttributeName(ps[|ps| - 1])], ps[|ps| - 1])
  {
    var p := ps[|ps| - 1];
    assert FastcsDatatype(p).Some?;
    assert after == before[AttributeName(p) := Attribute(KindOf(p.response.accessMode), FastcsDatatype(p).value, Group(p), Some(p))];
  }

  /** A parameter `_get_update_coros_for_parameters` refreshes: its flattened
      name names a readable attribute backed by a parameter. */
  predicate Refreshable(attributes: map<string, Attribute>, parameter: string)
  {
    var name := KeyToAttributeName(parameter);
    name in attributes && attributes[name].kind != AttrW && attributes[name].ref.Some?
  }

  /** The attributes refreshed for a list of parameters, in parameter order. */
  function UpdateTargets(attributes: map<string, Attribute>, parameters: seq<string>): (targets: seq<Attribute>)
    ensures |targets| <= |parameters|
    ensures forall i :: 0 <= i < |targets| ==> targets[i].kind != AttrW && targets[i].ref.Some?
    decreases |parameters|
  {
    if |parameters| == 0 then []
    else
      var last := parameters[|parameters| - 1];
      UpdateTargets(attributes, parameters[..|parameters| - 1])
      + if Refreshable(attributes, last) then [attributes[KeyToAttributeName(last)]] else []
  }

  /** An attribute is refreshed exactly when some parameter names it. */
  lemma {:induction false} UpdateTargetsMembers(attributes: map<string, Attribute>, parameters: seq<string>)
    ensures forall a :: a in UpdateTargets(attributes, parameters) <==>
              exists i :: 0 <= i < |parameters| && Refreshable(attributes, parameters[i])
                          && attributes[KeyToAttributeName(parameters[i])] == a
    decreases |parameters|
  {
    if |parameters| > 0 {
      var n := |parameters| - 1;
      var init := parameters[..n];
      UpdateTargetsMembers(attributes, init);
      assert forall i :: 0 <= i < n ==> init[i] == parameters[i];
      forall a
        ensures a in UpdateTargets(attributes, parameters) <==>
                  exists i :: 0 <= i < |parameters| && Refreshable(attributes, parameters[i])
                              && attributes[KeyToAttributeName(parameters[i])] == a
      {
        if exists i :: 0 <= i < |parameters| && Refreshable(attributes, parameters[i])
                       && attributes[KeyToAttributeName(parameters[i])] == a {
          var i :| 0 <= i < |parameters| && Refreshable(attributes, parameters[i])
                   && attributes[KeyToAttributeName(parameters[i])] == a;
          if i < n {
            assert init[i] == parameters[i];
          }
        }
      }
    }
  }

  /** Parameters none of whose names is an attribute refresh nothing. */
  lemma {:induction false} UnknownParametersRefreshNothing(attributes: map<string, Attribute>, parameters: seq<string>)
    requires forall i :: 0 <= i < |parameters| ==> KeyToAttributeName(parameters[i]) !in attributes
    ensures UpdateTargets(attributes, parameters) == []
    decreases |parameters|
  {
    if |parameters| > 0 {
      var n := |parameters| - 1;
      assert forall i :: 0 <= i < n ==> parameters[..n][i] == parameters[i];
      UnknownParametersRefreshNothing(attributes, parameters[..n]);
    }
  }

  /** `_get_update_coros_for_parameters` as written, with its loop; each
      update is represented by the attribute it refreshes. */
  method GetUpdateCoros(attributes: map<string, Attribute>, parameters: seq<string>) returns (coros: seq<Attribute>)
    ensures coros == UpdateTargets(attributes, parameters)
    ensures forall a :: a in coros <==>
              exists i :: 0 <= i < |parameters| && Refreshable(attributes, parameters[i])
                          && attributes[KeyToAttributeName(parameters[i])] == a
  {
    coros := [];
    var k := 0;
    while k < |parameters|
      invariant 0 <= k <= |parameters|
      invariant coros == UpdateTargets(attributes, parameters[..k])
    {
      var name := KeyToAttributeName(parameters[k]);
      assert parameters[..k + 1][..k] == parameters[..k];
      if name in attributes && attributes[name].kind != AttrW && attributes[name].ref.Some? {
        coros := coros + [attributes[name]];
      }
      k := k + 1;
    }
    assert parameters[..k] == parameters;
    UpdateTargetsMembers(attributes, parameters);
  }

  /** The top controller's queue and `stale_parameters` flag. */
  datatype Pending = Pending(stale: bool, queue: seq<Attribute>)

  /** `queue_subsystem_update`: a non-empty batch marks the controller stale
      and is queued; an empty one changes nothing. */
  function QueueSubsystemUpdate(pending: Pending, coros: seq<Attribute>): (r: Pending)
    ensures r.queue == pending.queue + coros
    ensures r.stale <==> pending.stale || |coros| > 0
  {
    if |coros| > 0 then Pending(true, pending.queue + coros) else pending
  }

  /** `queue_update`: nothing for an empty list, otherwise the refreshed
      attributes are handed to the top controller. */
  function QueueUpdate(attributes: map<string, Attribute>, parameters: seq<string>, pending: Pending): (r: Pending)
    ensures pending.stale ==> r.stale
    ensures |pending.queue| <= |r.queue| <= |pending.queue| + |parameters|
    ensures r.queue[..|pending.queue|] == pending.queue
    ensures forall i :: |pending.queue| <= i < |r.queue| ==> r.queue[i].kind != AttrW && r.queue[i].ref.Some?
  {
    if |parameters| == 0 then pending
    else QueueSubsystemUpdate(pending, UpdateTargets(attributes, parameters))
  }

  /** Queuing parameters marks the controller stale exactly when one of them
      names a refreshable attribute; unknown parameters leave it as it was. */
  lemma QueueUpdateStale(attributes: map<string, Attribute>, parameters: seq<string>, pending: Pending)
    ensures QueueUpdate(attributes, parameters, pending).stale <==>
              pending.stale || exists i :: 0 <= i < |parameters| && Refreshable(attributes, parameters[i])
    ensures (forall i :: 0 <= i < |parameters| ==> KeyToAttributeName(parameters[i]) !in attributes) ==>
              QueueUpdate(attributes, parameters, pending) == pending
  {
    UpdateTargetsMembers(attributes, parameters);
    var targets := UpdateTargets(attributes, parameters);
    if exists i :: 0 <= i < |parameters| && Refreshable(attributes, parameters[i]) {
      var i :| 0 <= i < |parameters| && Refreshable(attributes, parameters[i]);
      assert attributes[KeyToAttributeName(parameters[i])] in targets;
    }
    if |targets| > 0 {
      assert targets[0] in targets;
    }
    if forall i :: 0 <= i < |parameters| ==> KeyToAttributeName(parameters[i]) !in attributes {
      UnknownParametersRefreshNothing(attributes, parameters);
    }
  }
}
