/** The single-controller `eiger_fastcs` package, the earlier form of the
    driver: parameters whose key occurs in more than one place are renamed
    with their subsystem, attributes are made from the raw GET responses,
    and each attribute gets a handler by mode, the configuration handler
    polling once. */
module LegacyController {
  import opened Wrappers
  import opened Text
  import opened EigerParameter

  /** The fields of a raw GET response the attribute creation reads. */
  datatype LegacyResponse = LegacyResponse(valueType: string, accessMode: string)

  /** `EigerParameter` of the earlier package. */
  datatype LegacyParameter = LegacyParameter(
    key: string,
    subsystem: Subsystem,
    mode: Mode,
    response: LegacyResponse,
    hasUniqueKey: bool)

  /** Another parameter of the list has the same key. */
  predicate Clashes(ps: seq<LegacyParameter>, i: nat)
    requires i < |ps|
  {
    exists j :: 0 <= j < |ps| && j != i && ps[j].key == ps[i].key
  }

  /** The list `_tag_key_clashes` leaves: every parameter whose key clashes
      loses its unique-key flag, and nothing else changes. */
  function TagSpec(ps: seq<LegacyParameter>): (r: seq<LegacyParameter>)
    ensures |r| == |ps|
  {
    seq(|ps|, i requires 0 <= i < |ps| => ps[i].(hasUniqueKey := ps[i].hasUniqueKey && !Clashes(ps, i)))
  }

  /** `p` is the first parameter after `j` with `j`'s key: the one the inner
      loop of `_tag_key_clashes` stops at. */
  predicate FirstLaterIs(ps: seq<LegacyParameter>, j: nat, p: nat)
  {
    j < p < |ps| && ps[p].key == ps[j].key && forall m :: j < m < p ==> ps[m].key != ps[j].key
  }

  predicate HasLater(ps: seq<LegacyParameter>, j: nat)
  {
    exists p :: j < p < |ps| && ps[p].key == ps[j].key
  }

  /** Whether the outer loop has cleared `p`'s flag once it has visited the
      first `idx` parameters: as the visited parameter itself, or as the
      first later match of a visited one. */
  predicate Tagged(ps: seq<LegacyParameter>, idx: nat, p: nat)
  {
    (p < idx && HasLater(ps, p)) || exists j :: 0 <= j < idx && FirstLaterIs(ps, j, p)
  }

  /** The inner loop: the first later parameter with the same key. */
  method FindFirstLater(ps: seq<LegacyParameter>, idx: nat) returns (found: Option<nat>)
    requires idx < |ps|
    ensures found.Some? ==> FirstLaterIs(ps, idx, found.value)
    ensures found.None? ==> !HasLater(ps, idx)
  {
    var other := idx + 1;
    while other < |ps|
      invariant idx + 1 <= other <= |ps|
      invariant forall m :: idx < m < other ==> ps[m].key != ps[idx].key
    {
      if ps[idx].key == ps[other].key {
        return Some(other);
      }
      other := other + 1;
    }
    return None;
  }

  lemma FirstLaterUnique(ps: seq<LegacyParameter>, j: nat, a: nat, b: nat)
    requires FirstLaterIs(ps, j, a) && FirstLaterIs(ps, j, b)
    ensures a == b
  {
  }

  /** Visiting one more parameter clears its own flag when a later one shares
      its key, and the flag of the first such later one. */
  lemma TaggedStep(ps: seq<LegacyParameter>, idx: nat, p: nat)
    ensures Tagged(ps, idx + 1, p) <==> Tagged(ps, idx, p) || (p == idx && HasLater(ps, idx)) || FirstLaterIs(ps, idx, p)
  {
    if Tagged(ps, idx + 1, p) && !(p < idx + 1 && HasLater(ps, p)) {
      var j :| 0 <= j < idx + 1 && FirstLaterIs(ps, j, p);
      if j < idx {
        assert Tagged(ps, idx, p);
      }
    }
  }

  /** An earlier parameter with the same key has a nearest one, whose first
      later match is `p`. */
  lemma {:induction false} NearestEarlier(ps: seq<LegacyParameter>, j: nat, p: nat)
    requires j < p < |ps| && ps[j].key == ps[p].key
    ensures exists k :: 0 <= k < p && FirstLaterIs(ps, k, p)
    decreases p - j
  {
    if !FirstLaterIs(ps, j, p) {
      var m :| j < m < p && ps[m].key == ps[j].key;
      NearestEarlier(ps, m, p);
    }
  }

  /** After the whole list is visited, exactly the clashing parameters are
      tagged. */
  lemma TaggedIffClashes(ps: seq<LegacyParameter>, p: nat)
    requires p < |ps|
    ensures Tagged(ps, |ps|, p) <==> Clashes(ps, p)
  {
    if Clashes(ps, p) {
      var j :| 0 <= j < |ps| && j != p && ps[j].key == ps[p].key;
      if j < p {
        NearestEarlier(ps, j, p);
      } else {
        assert HasLater(ps, p);
      }
    }
    if Tagged(ps, |ps|, p) && !HasLater(ps, p) {
      var j :| 0 <= j < |ps| && FirstLaterIs(ps, j, p);
      assert ps[j].key == ps[p].key;
    }
  }

  /** `_tag_key_clashes` as written: for each parameter, the first later one
      with the same key is found, and both lose their unique-key flag. */
  method TagKeyClashes(ps: seq<LegacyParameter>) returns (r: seq<LegacyParameter>)
    ensures |r| == |ps|
    ensures forall i :: 0 <= i < |ps| ==> r[i] == ps[i].(hasUniqueKey := ps[i].hasUniqueKey && !Clashes(ps, i))
  {
    r := ps;
    var idx := 0;
    while idx < |ps|
      invariant 0 <= idx <= |ps|
      invariant |r| == |ps|
      invariant forall p :: 0 <= p < |ps| ==> r[p] == ps[p].(hasUniqueKey := ps[p].hasUniqueKey && !Tagged(ps, idx, p))
    {
      var found := FindFirstLater(ps, idx);
      var before := r;
      if found.Some? {
        var other := found.value;
        r := r[idx := r[idx].(hasUniqueKey := false)][other := r[other].(hasUniqueKey := false)];
      }
      forall p | 0 <= p < |ps|
        ensures r[p] == ps[p].(hasUniqueKey := ps[p].hasUniqueKey && !Tagged(ps, idx + 1, p))
      {
        TaggedStep(ps, idx, p);
        if found.Some? {
          if FirstLaterIs(ps, idx, p) {
            FirstLaterUnique(ps, idx, p, found.value);
          }
          assert HasLater(ps, idx) by {
            assert ps[found.value].key == ps[idx].key;
          }
        }
      }
      idx := idx + 1;
    }
    forall i | 0 <= i < |ps| ensures r[i] == ps[i].(hasUniqueKey := ps[i].hasUniqueKey && !Clashes(ps, i)) {
      TaggedIffClashes(ps, i);
    }
  }

  /** Tagging changes only the unique-key flags, and tagging again changes
      nothing. */
  lemma TagIdempotent(ps: seq<LegacyParameter>)
    ensures forall i :: 0 <= i < |ps| ==>
              && TagSpec(ps)[i].key == ps[i].key && TagSpec(ps)[i].subsystem == ps[i].subsystem
              && TagSpec(ps)[i].mode == ps[i].mode && TagSpec(ps)[i].response == ps[i].response
    ensures TagSpec(TagSpec(ps)) == TagSpec(ps)
  {
    var once := TagSpec(ps);
    forall i | 0 <= i < |ps| ensures Clashes(once, i) == Clashes(ps, i) {
      if Clashes(ps, i) {
        var j :| 0 <= j < |ps| && j != i && ps[j].key == ps[i].key;
        assert once[j].key == once[i].key;
      }
      if Clashes(once, i) {
        var j :| 0 <= j < |once| && j != i && once[j].key == once[i].key;
        assert ps[j].key == ps[i].key;
      }
    }
  }

  /** From fresh parameters (all flags set), a parameter keeps its unique-key
      flag exactly when no other parameter shares its key. */
  lemma TagFreshParameters(ps: seq<LegacyParameter>)
    requires forall i :: 0 <= i < |ps| ==> ps[i].hasUniqueKey
    ensures forall i :: 0 <= i < |ps| ==> (TagSpec(ps)[i].hasUniqueKey <==> !Clashes(ps, i))
  {
  }

  /** `EigerParameter.name`. */
  function Name(p: LegacyParameter): (r: string)
    ensures |p.key| <= |r| && r[|r| - |p.key|..] == p.key
    ensures p.hasUniqueKey <==> |r| == |p.key|
    ensures !p.hasUniqueKey ==> r[..|r| - |p.key|] == SubsystemName(p.subsystem) + "_"
  {
    if p.hasUniqueKey then p.key else SubsystemName(p.subsystem) + "_" + p.key
  }

  /** Joining two underscore-free prefixes to suffixes with an underscore
      gives the same text only for the same prefix and suffix. */
  lemma {:induction false} UnderscoreJoinInjective(x: string, y: string, k: string, l: string)
    requires '_' !in x && '_' !in y
    requires x + "_" + k == y + "_" + l
    ensures x == y && k == l
  {
    var s := x + "_" + k;
    FirstIndexAfter(x, k, '_');
    FirstIndexAfter(y, l, '_');
    assert x == s[..|x|] == y;
    assert k == s[|x| + 1..] == l;
  }

  /** A prefixed name determines its subsystem and key, because subsystem
      names have no underscore. */
  lemma PrefixedNameInjective(a: Subsystem, b: Subsystem, k: string, l: string)
    ensures SubsystemName(a) + "_" + k == SubsystemName(b) + "_" + l <==> a == b && k == l
  {
    if SubsystemName(a) + "_" + k == SubsystemName(b) + "_" + l {
      UnderscoreJoinInjective(SubsystemName(a), SubsystemName(b), k, l);
    }
  }

  /** After tagging fresh parameters, two parameters both named by their key
      or both named with their subsystem have different names, unless they
      share both subsystem and key. */
  lemma TaggedNamesDistinct(ps: seq<LegacyParameter>, i: nat, j: nat)
    requires forall k :: 0 <= k < |ps| ==> ps[k].hasUniqueKey
    requires i < |ps| && j < |ps| && i != j
    requires TagSpec(ps)[i].hasUniqueKey == TagSpec(ps)[j].hasUniqueKey
    requires ps[i].subsystem != ps[j].subsystem || ps[i].key != ps[j].key
    ensures Name(TagSpec(ps)[i]) != Name(TagSpec(ps)[j])
  {
    var p, q := TagSpec(ps)[i], TagSpec(ps)[j];
    if p.hasUniqueKey {
      assert !Clashes(ps, i);
    } else {
      PrefixedNameInjective(p.subsystem, q.subsystem, p.key, q.key);
    }
  }

  /** The parameter as the newer package's reference, whose URI it shares. */
  function AsRef(p: LegacyParameter): ParameterRef
  {
    ParameterRef(p.key, p.subsystem, p.mode, Response(ReadOnly, None, StringValue), None)
  }

  /** `EigerParameter.uri`: the same layout as the newer package's. */
  function LegacyUri(p: LegacyParameter): string
  {
    Uri(AsRef(p))
  }

  /** The key is what follows the fourth separator of the URI. */
  lemma LegacyUriKey(p: LegacyParameter)
    ensures LastField(LegacyUri(p), '/', 4) == p.key
  {
    UriKey(AsRef(p));
  }

  /** Two parameters share a URI only if they share subsystem, mode and key. */
  lemma LegacyUriInjective(p: LegacyParameter, q: LegacyParameter)
    ensures LegacyUri(p) == LegacyUri(q) <==> p.subsystem == q.subsystem && p.mode == q.mode && p.key == q.key
  {
    if LegacyUri(p) == LegacyUri(q) {
      UriInjective(AsRef(p), AsRef(q));
    }
  }

  /** The attribute name: the parameter's name with every `/` flattened. */
  function LegacyAttributeName(p: LegacyParameter): (name: string)
    ensures |name| == |Name(p)| && '/' !in name
  {
    KeyToAttributeName(Name(p))
  }

  /** A prefixed name flattens to the subsystem, an underscore and the
      flattened key. */
  lemma LegacyAttributeNameOfClash(p: LegacyParameter)
    requires !p.hasUniqueKey
    ensures LegacyAttributeName(p) == SubsystemName(p.subsystem) + "_" + KeyToAttributeName(p.key)
  {
    var prefix := SubsystemName(p.subsystem) + "_";
    assert '/' !in prefix;
    var r := LegacyAttributeName(p);
    var expected := prefix + KeyToAttributeName(p.key);
    assert |r| == |expected|;
    forall i | 0 <= i < |r| ensures r[i] == expected[i] {
      if i < |prefix| {
        assert Name(p)[i] == prefix[i];
      } else {
        assert Name(p)[i] == p.key[i - |prefix|];
      }
    }
  }

  /** The display data type of a value type: floats with the default
      precision. */
  function LegacyDatatype(v: ValueType): (t: DataType)
    ensures t.Float? <==> v == FloatValue
    ensures t.Float? ==> t.prec.None?
    ensures t.Int? <==> v in {IntValue, UintValue}
    ensures t.Bool? <==> v == BoolValue
    ensures t.String? <==> v in {StringValue, DatetimeValue, StateValue, StringListValue}
  {
    match v
    case FloatValue => Float(None)
    case IntValue => Int
    case UintValue => Int
    case BoolValue => Bool
    case _ => String
  }

  /** The handler class chosen by mode, with the URI it reads and writes. */
  datatype Handler = Handler(uri: string, pollsOnce: bool)

  function HandlerFor(p: LegacyParameter): Handler
  {
    Handler(LegacyUri(p), p.mode == Config)
  }

  /** An attribute of the earlier package. */
  datatype LegacyAttribute = LegacyAttribute(writable: bool, dataType: DataType, group: string, handler: Handler)

  /** Whether a parameter's attribute is writable: `r` makes an
      `AttrR`, `rw` an `AttrRW`, and any other access mode no attribute. */
  function Writable(p: LegacyParameter): (w: Option<bool>)
    ensures w == Some(false) <==> p.response.accessMode == "r"
    ensures w == Some(true) <==> p.response.accessMode == "rw"
  {
    match ParseAccessMode(p.response.accessMode)
    case Some(ReadOnly) => Some(false)
    case Some(ReadWrite) => Some(true)
    case _ => None
  }

  /** The group shared by the attributes of one subsystem and mode. */
  function LegacyGroup(p: LegacyParameter): string
  {
    Capitalize(SubsystemName(p.subsystem)) + Capitalize(ModeName(p.mode))
  }

  /** The state of the attribute loop as written: the attributes so far, or
      `None` once the loop has raised, and the last `datatype` assigned. */
  datatype LoopState = LoopState(attributes: Option<map<string, LegacyAttribute>>, datatype_: Option<DataType>)

  /** The parameter's value type is one the match handles. */
  predicate KnownType(p: LegacyParameter)
  {
    ParseValueType(p.response.valueType).Some?
  }

  /** Some parameter of `ps` has a value type the match handles. */
  predicate SomeKnownType(ps: seq<LegacyParameter>)
  {
    exists i :: 0 <= i < |ps| && KnownType(ps[i])
  }

  /** `_create_attributes` over the tagged parameters, as written: an unknown
      value type assigns no `datatype`, so the previous parameter's is used,
      or the loop raises when there is none yet. */
  function CreateAttributesAsWritten(ps: seq<LegacyParameter>): (r: LoopState)
    ensures r.datatype_.Some? <==> SomeKnownType(ps)
    decreases |ps|
  {
    if |ps| == 0 then LoopState(Some(map[]), None)
    else
      var p := ps[|ps| - 1];
      var state := CreateAttributesAsWritten(ps[..|ps| - 1]);
      assert forall i :: 0 <= i < |ps| - 1 ==> ps[..|ps| - 1][i] == ps[i];
      var t := match ParseValueType(p.response.valueType)
               case Some(v) => Some(LegacyDatatype(v))
               case None => state.datatype_;
      match state.attributes
      case None => LoopState(None, t)
      case Some(attributes) =>
        match Writable(p)
        case None => LoopState(Some(attributes), t)
        case Some(w) =>
          match t
          case None => LoopState(None, t)
          case Some(dt) => LoopState(Some(attributes[LegacyAttributeName(p) := LegacyAttribute(w, dt, LegacyGroup(p), HandlerFor(p))]), t)
  }

  /** A readable parameter with an unknown value type, listed after a float
      parameter, is made into a float attribute as written; as intended it
      gets no attribute. */
  lemma AsWrittenReusesDatatype(a: LegacyParameter, b: LegacyParameter)
    requires a.response == LegacyResponse("float", "r")
    requires ParseValueType(b.response.valueType).None? && b.response.accessMode == "r"
    requires LegacyAttributeName(a) != LegacyAttributeName(b)
    ensures CreateAttributesAsWritten([a, b]).attributes.Some?
    ensures LegacyAttributeName(b) in CreateAttributesAsWritten([a, b]).attributes.value
    ensures CreateAttributesAsWritten([a, b]).attributes.value[LegacyAttributeName(b)].dataType == Float(None)
    ensures LegacyAttributeName(b) !in CreateAttributes([a, b])
  {
    assert [a, b][..1] == [a];
    assert [a][..0] == [];
    LiteralsRoundTrip();
    assert ParseValueType(a.response.valueType) == Some(FloatValue);
    assert Writable(a) == Some(false) && Writable(b) == Some(false);
    assert CreateAttributesAsWritten([]) == LoopState(Some(map[]), None);
    assert CreateAttributesAsWritten([a]).attributes.Some?;
    assert CreateAttributesAsWritten([a]).datatype_ == Some(Float(None));
    assert CreateAttributes([a]).Keys == {LegacyAttributeName(a)};
  }

  /** The same with literal parameters: `b`, a `float[]` listed after the
      float `a`, becomes a float attribute. */
  lemma AsWrittenExample()
    ensures var state := CreateAttributesAsWritten(
                           [LegacyParameter("a", Detector, Status, LegacyResponse("float", "r"), true),
                            LegacyParameter("b", Detector, Status, LegacyResponse("float[]", "r"), true)]);
            state.attributes.Some? && "b" in state.attributes.value && state.attributes.value["b"].dataType == Float(None)
  {
    var a := LegacyParameter("a", Detector, Status, LegacyResponse("float", "r"), true);
    var b := LegacyParameter("b", Detector, Status, LegacyResponse("float[]", "r"), true);
    assert LegacyAttributeName(a) == "a" && LegacyAttributeName(b) == "b";
    AsWrittenReusesDatatype(a, b);
  }

  /** The parameters that get an attribute: a known value type and access
      mode `r` or `rw`. */
  predicate Creatable(p: LegacyParameter)
  {
    ParseValueType(p.response.valueType).Some? && Writable(p).Some?
  }

  /** The attribute a creatable parameter makes: its access, the data type
      of its own value type, its group and the handler of its mode. */
  function Made(p: LegacyParameter): (a: LegacyAttribute)
    requires Creatable(p)
    ensures a.writable <==> p.response.accessMode == "rw"
    ensures a.dataType == LegacyDatatype(ParseValueType(p.response.valueType).value)
    ensures a.handler.uri == LegacyUri(p) && (a.handler.pollsOnce <==> p.mode == Config)
  {
    LegacyAttribute(Writable(p).value, LegacyDatatype(ParseValueType(p.response.valueType).value), LegacyGroup(p), HandlerFor(p))
  }

  /** `_create_attributes` as evidently intended: a parameter whose value
      type is unknown gets no attribute. */
  function CreateAttributes(ps: seq<LegacyParameter>): map<string, LegacyAttribute>
    decreases |ps|
  {
    if |ps| == 0 then map[]
    else
      var p := ps[|ps| - 1];
      var attributes := CreateAttributes(ps[..|ps| - 1]);
      if Creatable(p) then attributes[LegacyAttributeName(p) := Made(p)] else attributes
  }

  /** The attribute `a` named `name` is the one parameter `i` makes, with
      its own data type, group and handler. */
  predicate MadeFrom(ps: seq<LegacyParameter>, i: int, name: string, a: LegacyAttribute)
  {
    && 0 <= i < |ps| && Creatable(ps[i]) && LegacyAttributeName(ps[i]) == name
    && a == Made(ps[i])
  }

  ghost predicate FromSomeParameter(ps: seq<LegacyParameter>, name: string, a: LegacyAttribute)
  {
    exists i :: 0 <= i < |ps| && MadeFrom(ps, i, name, a)
  }

  /** A parameter of a prefix is a parameter of the whole list. */
  lemma FromPrefix(ps: seq<LegacyParameter>, n: nat, name: string, a: LegacyAttribute)
    requires n <= |ps| && FromSomeParameter(ps[..n], name, a)
    ensures FromSomeParameter(ps, name, a)
  {
    var i :| 0 <= i < n && MadeFrom(ps[..n], i, name, a);
    assert ps[..n][i] == ps[i];
    assert MadeFrom(ps, i, name, a);
  }

  /** Every attribute is made from a parameter of its name, with that
      parameter's own data type: no data type is carried over from another
      parameter. */
  lemma {:induction false} CreateAttributesMade(ps: seq<LegacyParameter>)
    ensures forall name :: name in CreateAttributes(ps) ==> FromSomeParameter(ps, name, CreateAttributes(ps)[name])
    decreases |ps|
  {
    if |ps| > 0 {
      var n := |ps| - 1;
      var init, p := ps[..n], ps[n];
      CreateAttributesMade(init);
      var before, after := CreateAttributes(init), CreateAttributes(ps);
      forall name | name in after ensures FromSomeParameter(ps, name, after[name]) {
        if Creatable(p) && name == LegacyAttributeName(p) {
          assert MadeFrom(ps, n, name, after[name]);
        } else {
          assert after[name] == before[name];
          FromPrefix(ps, n, name, before[name]);
        }
      }
    }
  }

  /** Every parameter with a known value type and access mode `r` or `rw`
      has an attribute of its name. */
  lemma {:induction false} CreateAttributesCovers(ps: seq<LegacyParameter>)
    ensures forall i :: 0 <= i < |ps| && Creatable(ps[i]) ==> LegacyAttributeName(ps[i]) in CreateAttributes(ps)
    decreases |ps|
  {
    if |ps| > 0 {
      var n := |ps| - 1;
      CreateAttributesCovers(ps[..n]);
      assert forall i :: 0 <= i < n ==> ps[..n][i] == ps[i];
    }
  }

  /** One `update` of a handler: the status handler always fetches; the
      configuration handler fetches until its own first poll is complete. */
  function HandlerUpdate(pollsOnce: bool, firstPollComplete: bool): (r: (bool, bool))
    ensures r.0 <==> !pollsOnce || !firstPollComplete
    ensures pollsOnce ==> r.1
    ensures !pollsOnce ==> r.1 == firstPollComplete
  {
    var fetched := !(pollsOnce && firstPollComplete);
    (fetched, if pollsOnce then true else firstPollComplete)
  }

  /** Which of `n` successive updates of one handler fetch. */
  function HandlerRun(pollsOnce: bool, firstPollComplete: bool, n: nat): (fetched: seq<bool>)
    ensures |fetched| == n
    decreases n
  {
    if n == 0 then []
    else
      var (now, flag) := HandlerUpdate(pollsOnce, firstPollComplete);
      [now] + HandlerRun(pollsOnce, flag, n - 1)
  }

  /** A status handler fetches at every update; a fresh configuration handler
      fetches at its first update only. */
  lemma {:induction false} HandlerRunFetches(pollsOnce: bool, n: nat)
    ensures forall i :: 0 <= i < n ==> (HandlerRun(pollsOnce, false, n)[i] <==> !pollsOnce || i == 0)
  {
    if n > 0 {
      HandlerRunAfter(pollsOnce, n - 1);
      assert forall i :: 1 <= i < n ==> HandlerRun(pollsOnce, false, n)[i] == HandlerRun(pollsOnce, pollsOnce, n - 1)[i - 1];
    }
  }

  /** Once a configuration handler's first poll is complete it never fetches
      again; a status handler has no such flag. */
  lemma {:induction false} HandlerRunAfter(pollsOnce: bool, n: nat)
    ensures forall i :: 0 <= i < n ==> (HandlerRun(pollsOnce, pollsOnce, n)[i] <==> !pollsOnce)
  {
    if n > 0 {
      HandlerRunAfter(pollsOnce, n - 1);
      assert forall i :: 1 <= i < n ==> HandlerRun(pollsOnce, pollsOnce, n)[i] == HandlerRun(pollsOnce, pollsOnce, n - 1)[i - 1];
    }
  }
}
