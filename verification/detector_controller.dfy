/** The detector subsystem's commands: each is one PUT to the detector's
    command URI of its own name, and the soft trigger chooses whether to
    carry the exposure time from the trigger mode. */
module DetectorController {
  import opened Wrappers
  import opened Text

  const CommandPrefix: string := "detector/api/1.8.0/command/"

  /** `command_uri`. */
  function CommandUri(key: string): (uri: string)
    ensures |uri| == |CommandPrefix| + |key|
    ensures StartsWith(uri, CommandPrefix)
    ensures uri[|CommandPrefix|..] == key
  {
    CommandPrefix + key
  }

  /** The command a URI names, when it is a command URI. */
  function CommandKey(uri: string): (key: Option<string>)
    ensures key.Some? ==> |key.value| == |uri| - |CommandPrefix|
  {
    if StartsWith(uri, CommandPrefix) then Some(uri[|CommandPrefix|..]) else None
  }

  /** The command is recovered from its URI, and only command URIs name one. */
  lemma CommandKeyRoundTrip(key: string, uri: string)
    ensures CommandKey(CommandUri(key)) == Some(key)
    ensures CommandKey(uri) == Some(key) ==> uri == CommandUri(key)
  {
    if CommandKey(uri) == Some(key) {
      assert uri == uri[..|CommandPrefix|] + uri[|CommandPrefix|..];
    }
  }

  /** Different commands go to different URIs. */
  lemma CommandUriInjective(a: string, b: string)
    ensures CommandUri(a) == CommandUri(b) <==> a == b
  {
    if CommandUri(a) == CommandUri(b) {
      CommandKeyRoundTrip(a, CommandUri(b));
    }
  }

  /** A PUT the controller sends: a URI and, for some, a value. */
  datatype Put = Put(uri: string, value: Option<real>)

  /** The commands without arguments. */
  datatype Command = Initialize | Arm | Disarm | Abort | Cancel

  function CommandName(c: Command): (name: string)
    ensures |name| > 0
  {
    match c
    case Initialize => "initialize"
    case Arm => "arm"
    case Disarm => "disarm"
    case Abort => "abort"
    case Cancel => "cancel"
  }

  /** The PUTs one command sends. */
  function Send(c: Command): (puts: seq<Put>)
  {
    [Put(CommandUri(CommandName(c)), None)]
  }

  /** Each command sends exactly one PUT, without a value, to the command
      URI of its own name; no two commands share a URI, and none is the
      trigger's. */
  lemma SendOnePut(c: Command, d: Command)
    ensures |Send(c)| == 1 && Send(c)[0].value.None?
    ensures CommandKey(Send(c)[0].uri) == Some(CommandName(c))
    ensures Send(c)[0].uri == Send(d)[0].uri <==> c == d
    ensures Send(c)[0].uri != CommandUri("trigger")
  {
    CommandKeyRoundTrip(CommandName(c), "");
    CommandUriInjective(CommandName(c), CommandName(d));
    CommandUriInjective(CommandName(c), "trigger");
  }

  const TriggerModeError: string := "Can only do soft trigger in 'ints' or 'inte' mode"

  /** `trigger`: in `inte` mode with a positive exposure the trigger carries
      the exposure; in `inte` mode otherwise, or in `ints` mode, it carries
      nothing; any other mode is an error and sends nothing. */
  function Trigger(mode: string, exposure: real): (r: Result<Put, string>)
    ensures r.Success? <==> mode == "inte" || mode == "ints"
    ensures r.Success? ==> r.value.uri == CommandUri("trigger")
    ensures r.Success? ==> (r.value.value.Some? <==> mode == "inte" && exposure > 0.0)
    ensures r.Success? && r.value.value.Some? ==> r.value.value.value == exposure
    ensures r.Failure? ==> r.error == TriggerModeError
  {
    if mode == "inte" && exposure > 0.0 then Success(Put(CommandUri("trigger"), Some(exposure)))
    else if mode == "ints" || mode == "inte" then Success(Put(CommandUri("trigger"), None))
    else Failure(TriggerModeError)
  }

  /** The trigger table on its corners: the exposure is sent only in `inte`
      mode when it is positive, and a hardware trigger mode is refused. */
  lemma TriggerExamples()
    ensures Trigger("inte", 0.5) == Success(Put(CommandUri("trigger"), Some(0.5)))
    ensures Trigger("inte", 0.0) == Success(Put(CommandUri("trigger"), None))
    ensures Trigger("ints", 0.5) == Success(Put(CommandUri("trigger"), None))
    ensures Trigger("exts", 0.5).Failure?
  {
  }
}
