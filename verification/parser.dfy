/**
 * Turning a decoded request into a command: the request must be an array
 * whose first element is a bulk-string command name, matched without
 * regard to ASCII case, followed by that command's arguments.
 */
module Parser {
  import opened Wrappers
  import opened Bytes
  import opened Resp
  import opened Errors
  import opened Commands

  const InvalidRequestMessage: string := "ERR invalid request"
  const UnknownCommandMessage: string := "ERR unknown command"

  /** The names of the command table, upper-case. */
  const CommandNames: set<string> := {"PING", "ECHO", "GET", "SET", "DEL", "EXISTS", "INCR", "DECR"}

  function WrongArityMessage(name: string): string
  {
    "ERR wrong number of arguments for '" + name + "' command"
  }

  /** The lower-case spelling the arity messages use is each name lower-cased. */
  lemma LowerCaseNames()
    ensures LowerAscii("ECHO") == "echo" && LowerAscii("GET") == "get"
    ensures LowerAscii("SET") == "set" && LowerAscii("DEL") == "del"
    ensures LowerAscii("EXISTS") == "exists" && LowerAscii("INCR") == "incr"
    ensures LowerAscii("DECR") == "decr"
  {
  }

  /** An array whose first element is a bulk string. */
  predicate IsEnvelope(request: RespType)
  {
    request.Array? && |request.items| > 0 && request.items[0].BulkString?
  }

  /** The request's command name, upper-cased. */
  function CommandName(request: RespType): string
    requires IsEnvelope(request)
  {
    UpperAscii(request.items[0].str)
  }

  // ---------------------------------------------------------------------
  // The request shape of each command
  // ---------------------------------------------------------------------

  function NameOf(cmd: Command): string
  {
    match cmd
    case Ping => "PING"
    case Echo(_) => "ECHO"
    case Get(_) => "GET"
    case Set(_, _) => "SET"
    case Del(_) => "DEL"
    case Exists(_) => "EXISTS"
    case Incr(_) => "INCR"
    case Decr(_) => "DECR"
  }

  /** The arguments that follow the name in a request for `cmd`. */
  function ArgsOf(cmd: Command): seq<RespType>
  {
    match cmd
    case Ping => []
    case Echo(message) => [message]
    case Set(key, value) => [BulkString(key), value]
    case _ => [BulkString(cmd.key)]
  }

  /** The canonical request for `cmd`: its name and its arguments as an array. */
  function RequestOf(cmd: Command): RespType
  {
    Array([BulkString(NameOf(cmd))] + ArgsOf(cmd))
  }

  /**
   * `request` asks for `cmd`: its name spells the command's name in any
   * ASCII case, and the command's arguments follow it; anything after
   * them is ignored.
   */
  predicate Requests(request: RespType, cmd: Command)
  {
    && IsEnvelope(request)
    && CommandName(request) == NameOf(cmd)
    && |ArgsOf(cmd)| < |request.items|
    && request.items[1..|ArgsOf(cmd)| + 1] == ArgsOf(cmd)
  }

  // ---------------------------------------------------------------------
  // The parser
  // ---------------------------------------------------------------------

  /** No arity message reads as the unknown-command message. */
  lemma ArityIsNotUnknown(name: string)
    ensures WrongArityMessage(name) != UnknownCommandMessage
  {
  }

  /**
   * The command table: `name` is the upper-cased first element of
   * `elements`, and the arguments are read from the elements after it.
   */
  function ParseNamed(name: string, elements: seq<RespType>): (r: Result<Command, BifrostError>)
    requires |elements| > 0
    ensures r.Err? ==> r.error.CommandError?
    ensures name !in CommandNames <==> r == Err(CommandError(UnknownCommandMessage))
    ensures r.Err? && name in CommandNames ==> r.error.msg == WrongArityMessage(LowerAscii(name))
    ensures r.Ok? ==>
      && NameOf(r.value) == name
      && |ArgsOf(r.value)| < |elements|
      && elements[1..|ArgsOf(r.value)| + 1] == ArgsOf(r.value)
  {
    LowerCaseNames();
    ArityIsNotUnknown(LowerAscii(name));
    if name == "PING" then Ok(Ping)
    else if name == "ECHO" then
      if |elements| > 1 then Ok(Echo(elements[1]))
      else Err(CommandError(WrongArityMessage("echo")))
    else if name == "GET" then
      if |elements| > 1 && elements[1].BulkString? then Ok(Get(elements[1].str))
      else Err(CommandError(WrongArityMessage("get")))
    else if name == "SET" then
      if |elements| > 2 && elements[1].BulkString? then Ok(Set(elements[1].str, elements[2]))
      else Err(CommandError(WrongArityMessage("set")))
    else if name == "DEL" then
      if |elements| > 1 && elements[1].BulkString? then Ok(Del(elements[1].str))
      else Err(CommandError(WrongArityMessage("del")))
    else if name == "EXISTS" then
      if |elements| > 1 && elements[1].BulkString? then Ok(Exists(elements[1].str))
      else Err(CommandError(WrongArityMessage("exists")))
    else if name == "INCR" then
      if |elements| > 1 && elements[1].BulkString? then Ok(Incr(elements[1].str))
      else Err(CommandError(WrongArityMessage("incr")))
    else if name == "DECR" then
      if |elements| > 1 && elements[1].BulkString? then Ok(Decr(elements[1].str))
      else Err(CommandError(WrongArityMessage("decr")))
    else Err(CommandError(UnknownCommandMessage))
  }

  function ParseCommand(request: RespType): (r: Result<Command, BifrostError>)
    ensures !IsEnvelope(request) <==> r == Err(ProtocolError(InvalidRequestMessage))
    ensures IsEnvelope(request) && CommandName(request) !in CommandNames <==> r == Err(CommandError(UnknownCommandMessage))
    ensures r.Err? && IsEnvelope(request) && CommandName(request) in CommandNames ==>
      r.error == CommandError(WrongArityMessage(LowerAscii(CommandName(request))))
    ensures r.Ok? ==> Requests(request, r.value)
  {
    match request
    case Array(elements) =>
      if |elements| > 0 && elements[0].BulkString? then
        ParseNamed(UpperAscii(elements[0].str), elements)
      else Err(ProtocolError(InvalidRequestMessage))
    case _ => Err(ProtocolError(InvalidRequestMessage))
  }

  // ---------------------------------------------------------------------
  // Properties
  // ---------------------------------------------------------------------

  /** The parser yields `cmd` exactly for the requests that ask for `cmd`. */
  lemma ParseCommandExact(request: RespType, cmd: Command)
    ensures ParseCommand(request) == Ok(cmd) <==> Requests(request, cmd)
  {
    if Requests(request, cmd) {
      var items := request.items;
      match cmd
      case Ping =>
      case Echo(m) => assert items[1] == m;
      case Set(k, v) => assert items[1] == BulkString(k) && items[2] == v;
      case _ => assert items[1] == BulkString(cmd.key);
    }
  }

  /** Every command parses back from its canonical request. */
  lemma RequestRoundTrip(cmd: Command)
    ensures ParseCommand(RequestOf(cmd)) == Ok(cmd)
  {
    var request := RequestOf(cmd);
    assert UpperAscii(NameOf(cmd)) == NameOf(cmd);
    assert request.items[1..|ArgsOf(cmd)| + 1] == ArgsOf(cmd);
    ParseCommandExact(request, cmd);
  }

  /** Arguments beyond those a command reads do not change what parses. */
  lemma ExtraArgumentsIgnored(items: seq<RespType>, extra: seq<RespType>, cmd: Command)
    requires ParseCommand(Array(items)) == Ok(cmd)
    ensures ParseCommand(Array(items + extra)) == Ok(cmd)
  {
  }

  /** Names that differ only in ASCII case parse alike. */
  lemma CaseInsensitive(name1: string, name2: string, rest: seq<RespType>)
    requires SameIgnoringCase(name1, name2)
    ensures ParseCommand(Array([BulkString(name1)] + rest)) == ParseCommand(Array([BulkString(name2)] + rest))
  {
    SameIgnoringCaseUpper(name1, name2);
  }

  /** "ping", "Ping" and "PING" all parse as PING. */
  lemma PingAnyCase()
    ensures ParseCommand(Array([BulkString("ping")])) == Ok(Ping)
    ensures ParseCommand(Array([BulkString("Ping")])) == Ok(Ping)
    ensures ParseCommand(Array([BulkString("PING")])) == Ok(Ping)
  {
  }
}
