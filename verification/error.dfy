/** The server's error type and the text it displays as. */
module Errors {
  import opened Wrappers

  /** An I/O error, kept opaque: only its kind and its displayed description. */
  datatype IoErrorKind = InvalidData | OtherKind
  datatype IoError = IoError(kind: IoErrorKind, description: string)

  datatype BifrostError =
    | CommandError(msg: string)
    | StorageError(msg: string)
    | ProtocolError(msg: string)
    | IoFailure(io: IoError)

  const CommandPrefix: string := "Command error: "
  const StoragePrefix: string := "Storage error: "
  const ProtocolPrefix: string := "Protocol error: "
  const IoPrefix: string := "IO error: "

  /** True for the three variants that carry a plain message. */
  predicate HasMessage(e: BifrostError) { !e.IoFailure? }

  /** The `Display` text: a variant-specific prefix followed by the payload. */
  function Display(e: BifrostError): (r: string)
    ensures |r| > 0
    ensures HasMessage(e) ==> |r| > |e.msg| && r[|r| - |e.msg|..] == e.msg
    ensures e.CommandError? <==> r[0] == 'C'
    ensures e.StorageError? <==> r[0] == 'S'
    ensures e.ProtocolError? <==> r[0] == 'P'
    ensures e.IoFailure? <==> r[0] == 'I'
  {
    match e
    case CommandError(msg) => CommandPrefix + msg
    case StorageError(msg) => StoragePrefix + msg
    case ProtocolError(msg) => ProtocolPrefix + msg
    case IoFailure(io) => IoPrefix + io.description
  }

  /** `s` begins with `prefix`. */
  predicate StartsWith(s: string, prefix: string)
  {
    |prefix| <= |s| && s[..|prefix|] == prefix
  }

  /** Recovers a message-carrying error from its displayed text. */
  function ParseDisplay(s: string): Option<BifrostError>
  {
    if StartsWith(s, CommandPrefix) then Some(CommandError(s[|CommandPrefix|..]))
    else if StartsWith(s, StoragePrefix) then Some(StorageError(s[|StoragePrefix|..]))
    else if StartsWith(s, ProtocolPrefix) then Some(ProtocolError(s[|ProtocolPrefix|..]))
    else None
  }

  /** The displayed text of a message-carrying error determines the variant and the message. */
  lemma DisplayRoundTrip(e: BifrostError)
    requires HasMessage(e)
    ensures ParseDisplay(Display(e)) == Some(e)
  {
  }

  /** Two message-carrying errors that display alike are the same error. */
  lemma DisplayInjective(e1: BifrostError, e2: BifrostError)
    requires HasMessage(e1) && HasMessage(e2)
    requires Display(e1) == Display(e2)
    ensures e1 == e2
  {
    DisplayRoundTrip(e1);
    DisplayRoundTrip(e2);
  }
}
