/** A parameter of the detector's SIMPLON HTTP API (version 1.8.0): where it
    lives (subsystem, mode, key), what its GET response says about it, and
    the names, URI and data type derived from those. */
module EigerParameter {
  import opened Wrappers
  import opened Arith
  import opened Naming
  import opened Text

  datatype Subsystem = Detector | Stream | Monitor
  datatype Mode = Status | Config

  /** The declaration order of the `subsystem` and `mode` literals, which is
      the order subsystems and modes are introspected in. */
  const Subsystems: seq<Subsystem> := [Detector, Stream, Monitor]
  const Modes: seq<Mode> := [Status, Config]

  /** `"r"`, `"w"` and `"rw"`. */
  datatype AccessMode = ReadOnly | WriteOnly | ReadWrite

  /** The eight `value_type` literals of a parameter response. */
  datatype ValueType =
    | FloatValue | IntValue | BoolValue | UintValue
    | StringValue | DatetimeValue | StateValue | StringListValue

  /** Display data types; `Float(None)` is a float with the display
      library's default precision. */
  datatype DataType = Float(prec: Option<nat>) | Int | Bool | String

  /** The fields of a GET response that the bookkeeping reads; `minimum` is
      the text `str(min)` of the response's `min`, when it has one. */
  datatype Response = Response(accessMode: AccessMode, minimum: Option<string>, valueType: ValueType)

  /** `EigerParameterRef`: `updatePeriod` is the poll period in seconds, or
      `None` for a parameter that is not polled. */
  datatype ParameterRef = ParameterRef(
    key: string,
    subsystem: Subsystem,
    mode: Mode,
    response: Response,
    updatePeriod: Option<real>)

  function SubsystemName(s: Subsystem): (name: string)
    ensures |name| > 0 && '/' !in name && '_' !in name
  {
    match s
    case Detector => "detector"
    case Stream => "stream"
    case Monitor => "monitor"
  }

  function ModeName(m: Mode): (name: string)
    ensures |name| == 6 && '/' !in name
  {
    match m
    case Status => "status"
    case Config => "config"
  }

  function AccessModeName(a: AccessMode): string
  {
    match a
    case ReadOnly => "r"
    case WriteOnly => "w"
    case ReadWrite => "rw"
  }

  function ValueTypeName(v: ValueType): string
  {
    match v
    case FloatValue => "float"
    case IntValue => "int"
    case BoolValue => "bool"
    case UintValue => "uint"
    case StringValue => "string"
    case DatetimeValue => "datetime"
    case StateValue => "State"
    case StringListValue => "string[]"
  }

  /** Reading an access mode from the text of an unvalidated response. */
  function ParseAccessMode(s: string): (r: Option<AccessMode>)
    ensures r.Some? ==> AccessModeName(r.value) == s
  {
    if s == "r" then Some(ReadOnly)
    else if s == "w" then Some(WriteOnly)
    else if s == "rw" then Some(ReadWrite)
    else None
  }

  /** Reading a value type from the text of an unvalidated response. */
  function ParseValueType(s: string): (r: Option<ValueType>)
    ensures r.Some? ==> ValueTypeName(r.value) == s
  {
    if s == "float" then Some(FloatValue)
    else if s == "int" then Some(IntValue)
    else if s == "bool" then Some(BoolValue)
    else if s == "uint" then Some(UintValue)
    else if s == "string" then Some(StringValue)
    else if s == "datetime" then Some(DatetimeValue)
    else if s == "State" then Some(StateValue)
    else if s == "string[]" then Some(StringListValue)
    else None
  }

  /** Every literal is read back as itself, so the two spellings of the
      access modes and of the value types are in one-to-one correspondence. */
  lemma LiteralsRoundTrip()
    ensures forall a: AccessMode :: ParseAccessMode(AccessModeName(a)) == Some(a)
    ensures forall v: ValueType :: ParseValueType(ValueTypeName(v)) == Some(v)
  {
  }

  /** `key_to_attribute_name`: nested keys are flattened by turning each `/`
      into `_`. */
  function KeyToAttributeName(key: string): (name: string)
    ensures |name| == |key|
    ensures '/' !in name
    ensures forall i :: 0 <= i < |key| ==> name[i] == (if key[i] == '/' then '_' else key[i])
  {
    ReplaceChar(key, '/', '_')
  }

  /** Flattening a flat name changes nothing, so flattening twice is
      flattening once. */
  lemma KeyToAttributeNameIdempotent(key: string)
    ensures KeyToAttributeName(KeyToAttributeName(key)) == KeyToAttributeName(key)
    ensures '/' !in key ==> KeyToAttributeName(key) == key
  {
  }

  function AttributeName(p: ParameterRef): string
  {
    KeyToAttributeName(p.key)
  }

  /** The path of a parameter relative to the detector's address. */
  function Uri(p: ParameterRef): (r: string)
    ensures LastField(r, '/', 4) == p.key
  {
    assert '/' !in "api" && '/' !in "1.8.0";
    FourFieldsKey(SubsystemName(p.subsystem), "api", "1.8.0", ModeName(p.mode), p.key);
    SubsystemName(p.subsystem) + ['/'] + ("api" + ['/'] + ("1.8.0" + ['/'] + (ModeName(p.mode) + ['/'] + p.key)))
  }

  /** The URI as its five `/`-separated fields. */
  lemma UriFields(p: ParameterRef)
    ensures Uri(p) == SubsystemName(p.subsystem) + ['/'] + ("api" + ['/'] + ("1.8.0" + ['/'] + (ModeName(p.mode) + ['/'] + p.key)))
  {
  }

  /** Where each field sits in a URI: the mode names have the same length,
      so the fields after the subsystem name sit at fixed offsets. */
  lemma UriParts(p: ParameterRef)
    ensures var n := |SubsystemName(p.subsystem)|;
      && |Uri(p)| == n + 18 + |p.key|
      && Uri(p)[..n] == SubsystemName(p.subsystem)
      && Uri(p)[n + 11..n + 17] == ModeName(p.mode)
      && Uri(p)[n + 18..] == p.key
  {
  }

  /** The first `/` of a URI ends the subsystem name. */
  lemma UriHead(p: ParameterRef)
    ensures FirstIndex(Uri(p), '/') == Some(|SubsystemName(p.subsystem)|)
  {
    UriFields(p);
    FirstIndexAfter(SubsystemName(p.subsystem), "api" + ['/'] + ("1.8.0" + ['/'] + (ModeName(p.mode) + ['/'] + p.key)), '/');
  }

  /** `uri.split("/", 4)[-1]` is the key again, even for a nested key that
      contains `/` itself. */
  lemma UriKey(p: ParameterRef)
    ensures LastField(Uri(p), '/', 4) == p.key
  {
  }

  /** Four separator-free fields and a key: splitting four times leaves the key. */
  lemma FourFieldsKey(a: string, b: string, c: string, d: string, key: string)
    requires '/' !in a && '/' !in b && '/' !in c && '/' !in d
    ensures LastField(a + ['/'] + (b + ['/'] + (c + ['/'] + (d + ['/'] + key))), '/', 4) == key
  {
    LastFieldStep(a, b + ['/'] + (c + ['/'] + (d + ['/'] + key)), '/', 3);
    LastFieldStep(b, c + ['/'] + (d + ['/'] + key), '/', 2);
    LastFieldStep(c, d + ['/'] + key, '/', 1);
    LastFieldStep(d, key, '/', 0);
  }

  /** Different parameters are addressed by different URIs. */
  lemma UriInjective(p: ParameterRef, q: ParameterRef)
    requires Uri(p) == Uri(q)
    ensures p.subsystem == q.subsystem && p.mode == q.mode && p.key == q.key
  {
    assert p.key == q.key;
    UriHead(p);
    UriHead(q);
    UriParts(p);
    UriParts(q);
  }

  /** Python's `int(s)` for an optional sign followed by decimal digits. */
  function ParseInt(s: string): (r: Option<int>)
    ensures r.Some? ==> |s| > 0
  {
    if |s| > 0 && (s[0] == '-' || s[0] == '+') then
      match ParseNat(s[1..])
      case None => None
      case Some(n) => Some(if s[0] == '-' then -(n as int) else n)
    else
      match ParseNat(s)
      case None => None
      case Some(n) => Some(n)
  }

  /** `int(str(n))`, `int("-" + str(n))` and `int("+" + str(n))` give the
      number back; the `+` form is how `str` prints a positive exponent. */
  lemma ParseIntRoundTrip(n: nat)
    ensures ParseInt(NatToString(n)) == Some(n)
    ensures ParseInt("-" + NatToString(n)) == Some(-(n as int))
    ensures ParseInt("+" + NatToString(n)) == Some(n)
  {
    NatToStringValue(n);
    var s := NatToString(n);
    assert ("-" + s)[1..] == s;
    assert ("+" + s)[1..] == s;
  }

  /** `minimum_to_precision` over the text of the minimum: the number of
      digits after the point, else the size of the exponent, else 2. `None`
      is the `ValueError` that `int()` raises on a malformed exponent. */
  function MinimumToPrecision(minimum: Option<string>): (r: Option<nat>)
    ensures minimum.None? ==> r == Some(2)
    ensures r.None? ==> minimum.Some? && '.' !in minimum.value && 'e' in minimum.value
  {
    match minimum
    case None => Some(2)
    case Some(text) =>
      if '.' in text then
        SplitHasTwoParts(text, '.');
        Some(|Split(text, '.')[1]|)
      else if 'e' in text then
        SplitHasTwoParts(text, 'e');
        match ParseInt(Split(text, 'e')[1])
        case None => None
        case Some(exponent) => Some(Abs(exponent))
      else Some(2)
  }

  /** Text with a point: the precision is the number of characters after it. */
  lemma PrecisionOfDecimal(whole: string, fraction: string)
    requires '.' !in whole && '.' !in fraction
    ensures MinimumToPrecision(Some(whole + "." + fraction)) == Some(|fraction|)
  {
    assert whole + "." + fraction == whole + ['.'] + fraction;
    SplitStep(whole, fraction, '.');
    SplitWithout(fraction, '.');
  }

  /** Text in exponent form without a point: the precision is the size of the
      exponent, whatever its sign. */
  lemma PrecisionOfExponent(mantissa: string, exponent: string, e: int)
    requires '.' !in mantissa && 'e' !in mantissa
    requires '.' !in exponent && 'e' !in exponent
    requires ParseInt(exponent) == Some(e)
    ensures MinimumToPrecision(Some(mantissa + "e" + exponent)) == Some(Abs(e))
  {
    var text := mantissa + "e" + exponent;
    assert text == mantissa + ['e'] + exponent;
    assert '.' !in text by {
      assert forall i :: 0 <= i < |text| ==> text[i] == (if i < |mantissa| then mantissa[i] else if i == |mantissa| then 'e' else exponent[i - |mantissa| - 1]);
    }
    SplitStep(mantissa, exponent, 'e');
    SplitWithout(exponent, 'e');
  }

  /** Text with neither a point nor an exponent, and a missing minimum, both
      get the default precision of 2. */
  lemma PrecisionDefault(text: string)
    requires '.' !in text && 'e' !in text
    ensures MinimumToPrecision(Some(text)) == Some(2)
    ensures MinimumToPrecision(None) == Some(2)
  {
  }

  /** The decimal minima of the introspection tests, as Python prints them. */
  lemma DecimalPrecisionExamples()
    ensures MinimumToPrecision(Some("0.0001")) == Some(4)
    ensures MinimumToPrecision(Some("0.001")) == Some(3)
    ensures MinimumToPrecision(Some("0.01")) == Some(2)
    ensures MinimumToPrecision(Some("0.1")) == Some(1)
  {
    PrecisionOfDecimal("0", "0001");
    PrecisionOfDecimal("0", "001");
    PrecisionOfDecimal("0", "01");
    PrecisionOfDecimal("0", "1");
  }

  /** More decimal minima of the introspection tests: `123.123`, `0.0` and
      `1e5`, which Python prints as `100000.0`. */
  lemma MoreDecimalPrecisionExamples()
    ensures MinimumToPrecision(Some("123.123")) == Some(3)
    ensures MinimumToPrecision(Some("0.0")) == Some(1)
    ensures MinimumToPrecision(Some("100000.0")) == Some(1)
  {
    assert "123" + "." + "123" == "123.123";
    PrecisionOfDecimal("123", "123");
    assert "0" + "." + "0" == "0.0";
    PrecisionOfDecimal("0", "0");
    assert "100000" + "." + "0" == "100000.0";
    PrecisionOfDecimal("100000", "0");
  }

  /** The integer minima `1` and `0`, and no minimum at all. */
  lemma DefaultPrecisionExamples()
    ensures MinimumToPrecision(Some("1")) == Some(2)
    ensures MinimumToPrecision(Some("0")) == Some(2)
    ensures MinimumToPrecision(None) == Some(2)
  {
    PrecisionDefault("1");
    PrecisionDefault("0");
  }

  lemma ExponentPrecisionExample()
    ensures MinimumToPrecision(Some("1e-05")) == Some(5)
  {
    assert "05"[..1] == "0";
    assert DigitsValue("05") == 5;
    assert "1e-05" == "1" + "e" + "-05";
    PrecisionOfExponent("1", "-05", -5);
  }

  /** `fastcs_datatype`: floats carry the precision derived from the
      minimum, and the other seven value types map without failure. */
  function FastcsDatatype(p: ParameterRef): (r: Option<DataType>)
    ensures r.None? <==> p.response.valueType == FloatValue && MinimumToPrecision(p.response.minimum).None?
    ensures r.Some? ==> (r.value.Float? <==> p.response.valueType == FloatValue)
    ensures r.Some? && r.value.Float? ==> r.value.prec == MinimumToPrecision(p.response.minimum)
    ensures r.Some? ==> (r.value.Int? <==> p.response.valueType in {IntValue, UintValue})
    ensures r.Some? ==> (r.value.Bool? <==> p.response.valueType == BoolValue)
    ensures r.Some? ==> (r.value.String? <==> p.response.valueType in {StringValue, DatetimeValue, StateValue, StringListValue})
  {
    match p.response.valueType
    case FloatValue =>
      (match MinimumToPrecision(p.response.minimum)
       case None => None
       case Some(prec) => Some(Float(Some(prec))))
    case IntValue => Some(Int)
    case UintValue => Some(Int)
    case BoolValue => Some(Bool)
    case _ => Some(String)
  }
}
