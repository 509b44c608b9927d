/**
 * The command lines the extension hands to the `tailscale` client to switch
 * the connection on or off and to choose the exit node.
 */
module Commands {
  import opened Wrappers

  const Cli: string := "tailscale"
  const ExitNodeFlag: string := "--exit-node="

  /** What `SetTailscaleStatus` may be given: a JavaScript boolean, or a value of any other type. */
  datatype JsValue = JsBoolean(b: bool) | JsNonBoolean

  /** `tailscale up` to connect, `tailscale down` to disconnect. */
  function UpDownArgv(state: bool): (argv: seq<string>)
    ensures |argv| == 2 && argv[0] == Cli
    ensures argv[1] == "up" <==> state
    ensures argv[1] == "down" <==> !state
  {
    [Cli, if state then "up" else "down"]
  }

  /** A non-boolean argument is rejected (None) before any command is built. */
  function SetTailscaleStatus(state: JsValue): (command: Option<seq<string>>)
    ensures command.None? <==> state.JsNonBoolean?
    ensures state.JsBoolean? ==> command == Some(UpDownArgv(state.b))
  {
    match state
    case JsNonBoolean => None
    case JsBoolean(b) => Some(UpDownArgv(b))
  }

  /** The state an up/down command line asks for, if it is one. */
  function RequestedState(argv: seq<string>): Option<bool>
  {
    if argv == [Cli, "up"] then Some(true)
    else if argv == [Cli, "down"] then Some(false)
    else None
  }

  /** The up/down command line determines the requested state. */
  lemma UpDownRoundTrip(state: bool)
    ensures RequestedState(UpDownArgv(state)) == Some(state)
  {
  }

  /** JavaScript's string concatenation of a string or of `undefined`. */
  function JsString(v: Option<string>): (s: string)
    ensures v.Some? ==> s == v.value
    ensures v.None? ==> s == "undefined"
  {
    match v
    case Some(t) => t
    case None => "undefined"
  }

  /** `tailscale set --exit-node=<name>`; an empty name clears the exit node. */
  function SetExitNode(exitNodeName: Option<string>): (argv: seq<string>)
    ensures |argv| == 3 && argv[0] == Cli && argv[1] == "set"
    ensures |ExitNodeFlag| <= |argv[2]| && argv[2][..|ExitNodeFlag|] == ExitNodeFlag
  {
    [Cli, "set", ExitNodeFlag + JsString(exitNodeName)]
  }

  /** The exit node a `set --exit-node=` command line asks for, if it is one. */
  function RequestedExitNode(argv: seq<string>): Option<string>
  {
    if |argv| == 3 && argv[0] == Cli && argv[1] == "set"
       && |ExitNodeFlag| <= |argv[2]| && argv[2][..|ExitNodeFlag|] == ExitNodeFlag
    then Some(argv[2][|ExitNodeFlag|..])
    else None
  }

  /** The command line carries the given name (as JavaScript stringifies it) unchanged. */
  lemma SetExitNodeRoundTrip(exitNodeName: Option<string>)
    ensures RequestedExitNode(SetExitNode(exitNodeName)) == Some(JsString(exitNodeName))
  {
  }

  /** Distinct stringified names give distinct command lines (`undefined` and the text "undefined" coincide). */
  lemma SetExitNodeInjective(a: Option<string>, b: Option<string>)
    requires SetExitNode(a) == SetExitNode(b)
    ensures JsString(a) == JsString(b)
  {
    SetExitNodeRoundTrip(a);
    SetExitNodeRoundTrip(b);
  }
}
