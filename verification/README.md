# bifrost protocol engine, modelled in Dafny

A model of the protocol engine of bifrost, a small Redis-compatible server
speaking RESP (the REdis Serialization Protocol), without its socket layer:

- `resp.dfy` (module `Resp`): the RESP value union `RespType`, the decoder
  error `RespError` and its display text, and the two line-level
  primitives of the wire decoder, `ReadLine` (first CRLF-terminated line)
  and `ParseLength` (unsigned length header).
- `bytes.dfy` (module `Bytes`): the byte type, UTF-8 well-formedness as
  `String::from_utf8` checks it, ASCII case mapping and decimal numerals.
- `parser.dfy` (module `Parser`): `ParseCommand`, which turns a decoded
  request into one of the eight commands or a `BifrostError`.
- `db.dfy` (module `Db`): the key-value store as a map from keys to
  `RespType`, with `Get/Set/Del/Exists/Incr/Decr` returning the reply and
  the new store.
- `commands.dfy` (module `Commands`): the closed `Command` datatype, each
  command's execution and the exhaustive dispatcher `Execute`.
- `error.dfy` (module `Errors`): `BifrostError` and its display text.
- `frame.dfy` (module `Frame`): one decode step of the stream codec
  (yield a value and drop exactly the consumed prefix, keep the buffer, or
  report invalid data) and the encode step (append the reply's bytes).
- `wrappers.dfy` (module `Wrappers`): `Option` and `Result`.

Modelling choices:

- `RespType` is the union of every variant the code uses. The declaration
  in `src/resp.rs` lists only `BulkString`, `SimpleString` and
  `SimpleError`; the parser, the store and GET also use `Array`,
  `Integer`, `Error` and `Null`. `RespError` likewise gains the
  `Incomplete` variant that `src/frame.rs` matches on.
- `Integer` carries a 64-bit signed integer (`Resp.i64`).
- The store's `incr`/`decr` return a plain `RespType`, as
  `src/storage/db.rs` writes them. The INCR and DECR commands match on a
  `Result<RespType, BifrostError>`. `Commands.ResultReply` models that
  match over a `Result`, and `ExecuteIncr`/`ExecuteDecr` hand it the
  store's reply wrapped in `Ok`.
- The wire decoder `Resp::parse` and the encoder `RespType::to_bytes` are
  not part of this model. `Frame.Decode` and `Frame.Encode` take them as
  function parameters. `Frame.Decode` assumes only that the decoder
  never reports more consumed bytes than the buffer holds;
  `Frame.EncodeDecodeRoundTrip` assumes more, as "## Left out" says.
- `ReadLine` scans by the index of the CR. The source's loop index is the
  index of the LF, one further on. Both give the same line and the same
  consumed count.
- `ParseLength` reads the header as an unsigned `usize`. RESP writes the
  null bulk string as `$-1`, and an unsigned parse refuses `-1`.
  `usize` is taken to be 64 bits wide.

## Model

| member | source | states |
|---|---|---|
| Resp.ErrorText | src/resp.rs:23-30 | every decoder error displays as its carried message, verbatim |
| Resp.FindCrlf | src/resp.rs:43-47 | the scan returns the first CRLF at or after its start, and None only when there is none from there on |
| Resp.ReadLine | src/resp.rs:42-50 | None exactly when the buffer has no CRLF, so always for buffers shorter than 2 bytes; otherwise the line is the prefix before the first CRLF, consumed = line length + 2 <= buffer length, and the line holds no CRLF |
| Resp.ReadLineRoundTrip | src/resp.rs:42-46 | a CRLF-free line followed by CRLF and any rest reads back as (line, length + 2) |
| Resp.ParseLength | src/resp.rs:52-66 | non-UTF-8 input fails with "Invalid UTF-8 string"; the only other failure is "Invalid value for an integer"; empty input and a leading `-` fail; a success comes from an optional `+` followed by one or more digits and nothing else, is their decimal value, and is at most 2^64-1 |
| Resp.ParseLengthDigits | src/resp.rs:56-58 | every non-empty digit string with value <= 2^64-1, leading zeros included, parses to its value |
| Resp.ParseLengthPlusDigits | src/resp.rs:56-58 | the same digit strings behind a leading `+` parse to the same value |
| Resp.ParseLengthLonePlus | src/resp.rs:56-61 | a `+` with no digits after it fails with "Invalid value for an integer" |
| Resp.ParseLengthLeadingZeros | src/resp.rs:56-58 | zeros in front of a numeral do not change its value, so "007" parses to 7 |
| Resp.ParseLengthDecimal | src/resp.rs:56-58 | the decimal numeral of every n <= 2^64-1 parses to n |
| Resp.ParseLengthPlus | src/resp.rs:56-58 | a leading `+` before the numeral is accepted and the value is unchanged |
| Resp.ParseLengthOverflow | src/resp.rs:56-61 | a numeral above 2^64-1 fails with "Invalid value for an integer" |
| Resp.ParseLengthNegative | src/resp.rs:56-61 | `-` followed by any numeral, such as `-1`, fails with "Invalid value for an integer" |
| Bytes.AsciiIsValidUtf8 | src/resp.rs:53 | ASCII bytes always pass the UTF-8 check, so digit strings reach the integer parse |
| Errors.Display | src/error.rs:12-21 | each message-carrying error displays as its message after a prefix; the first character tells the four variants apart |
| Errors.DisplayRoundTrip | src/error.rs:15-17 | from the text of a Command, Storage or Protocol error, the variant and the exact message are recovered |
| Errors.DisplayInjective | src/error.rs:15-17 | two message-carrying errors with the same text are the same error |
| Db.Get | src/storage/db.rs:24-26 | Some(v) exactly when the key maps to v, None when the key is absent; the store is not an output, so it is unchanged |
| Db.Set | src/storage/db.rs:28-31 | replies OK, the key then maps to the value, every other key is unchanged |
| Db.Del | src/storage/db.rs:33-39 | replies 1 if the key was present and 0 otherwise; afterwards the key is absent and every other key is unchanged |
| Db.Exists | src/storage/db.rs:41-44 | replies 1 exactly when the key is present and 0 exactly when it is absent |
| Db.Adjust | src/storage/db.rs:46-78 | the shared read-check-write of INCR/DECR: a non-integer gives the not-an-integer error with the store unchanged; otherwise the counter (0 when absent) moves by the step and is stored and replied; no other key changes |
| Db.Incr | src/storage/db.rs:46-61 | absent key gives and stores 1, Integer(v) gives and stores v+1, any other value gives "ERR value is not an integer" with the store unchanged; only the given key can change |
| Db.Decr | src/storage/db.rs:63-78 | absent key gives and stores -1, Integer(v) gives and stores v-1, any other value gives "ERR value is not an integer" with the store unchanged; only the given key can change |
| Db.ExistsAgreesWithGet | src/storage/db.rs:41-44 | EXISTS replies 1 exactly for the keys GET finds and 0 exactly for those it does not |
| Db.SetThenGet | src/storage/db.rs:90-101 | after SET of a key, GET returns the value set |
| Db.SetIdempotent | src/storage/db.rs:28-31 | a second identical SET leaves the store as the first left it |
| Db.DelThenGet | src/storage/db.rs:103-108 | after DEL, GET gives None, EXISTS gives 0 and a second DEL replies 0 |
| Db.DecrUndoesIncr | src/storage/db.rs:46-78 | on a key holding an integer, DECR after INCR restores the original store |
| Db.IncrTimes | src/storage/db.rs:46-61 | n INCRs in a row raise the counter by exactly n and touch no other key |
| Db.FreshCounter | src/storage/db.rs:49-58 | n INCRs of a fresh key leave Integer(n): no increment is lost |
| Db.BasicOperationsScenario | src/storage/db.rs:85-114 | the store's SET/GET/DEL/EXISTS test sequence gives the replies the test expects |
| Db.IntegerOperationsScenario | src/storage/db.rs:116-127 | the store's INCR/DECR test sequence replies 1, 2, 1, 0 |
| Commands.ExecutePing | src/commands/ping.rs:7-10 | replies PONG, which is not an error, and leaves the store unchanged |
| Commands.ExecuteEcho | src/commands/echo.rs:7-10 | replies with the carried value exactly, of any variant, and leaves the store unchanged |
| Commands.ReplyIgnoresStore | src/commands/ping.rs:8-9 | the replies of PING and ECHO are the same for every store |
| Commands.ExecuteGet | src/commands/get.rs:8-10 | a present key replies with its stored value, an absent key replies Null; the store is unchanged |
| Commands.SetThenGet | src/commands/get.rs:9 | executing SET k v and then GET k replies v |
| Commands.ExecuteSet | src/commands/set.rs:11-13 | replies OK, the key then maps to the carried value, all other keys are unchanged |
| Commands.SetTwice | src/commands/set.rs:12 | executing the same SET twice gives the store a single SET gives |
| Commands.ExecuteDel | src/commands/del.rs:8-10 | replies 1 exactly when the key was present and 0 exactly when it was absent; the key is then absent and all other keys are unchanged |
| Commands.DelTwice | src/commands/del.rs:9 | a second DEL of the same key replies 0, and EXISTS then replies 0 |
| Commands.ExecuteExists | src/commands/exists.rs:8-10 | replies 1 exactly when the key is present, 0 exactly when absent, always an integer in {0, 1}; the store is unchanged |
| Commands.ResultReply | src/commands/incr.rs:10-16 | an Ok result is the reply unchanged, a StorageError becomes an Error reply with the same text, any other error becomes "ERR internal error" |
| Commands.ExecuteIncr | src/commands/incr.rs:9-17 | always replies, and both reply and store effect are exactly those of the store's incr on the command's key |
| Commands.ExecuteDecr | src/commands/decr.rs:9-17 | always replies, and both reply and store effect are exactly those of the store's decr on the command's key |
| Commands.FreshCounterReplies | src/commands/incr.rs:10-11 | INCR of a fresh key replies 1 and a second INCR replies 2; DECR of a fresh key replies -1 |
| Commands.IncrOfString | src/storage/db.rs:55 | INCR of a key holding a bulk string replies the not-an-integer error and leaves the store unchanged |
| Commands.Execute | src/commands/mod.rs:22-24 | each command's reply is its own execution's reply: PING gives PONG, ECHO its message, GET the stored value or Null, SET OK, DEL and EXISTS 1 or 0 by the key's prior presence, INCR/DECR exactly the store's step; PING, ECHO, GET and EXISTS leave the store unchanged, SET stores the value, every keyed command changes at most its own key, and DEL leaves it absent |
| Parser.ParseNamed | src/parser.rs:12-72 | a name outside the eight-entry table gives "ERR unknown command"; a table name with missing or non-bulk-string arguments gives that command's arity error; a success names that command and its arguments are the request's next elements |
| Parser.ParseCommand | src/parser.rs:8-79 | a non-array, an empty array or a non-bulk-string first element gives "ERR invalid request" as a protocol error, and nothing else does; unknown and arity errors as for the table; a success is a command the request asks for |
| Parser.ParseCommandExact | src/parser.rs:10-76 | the parser yields a command exactly when the request's name matches it in any ASCII case and its arguments follow the name (ECHO's of any variant, keys as bulk strings, SET's value of any variant) |
| Parser.RequestRoundTrip | src/parser.rs:12-70 | every command parses back from its canonical request array |
| Parser.ExtraArgumentsIgnored | src/parser.rs:13-41 | elements beyond those a command reads never change a successful parse |
| Parser.CaseInsensitive | src/parser.rs:12 | names that differ only in ASCII letter case parse alike |
| Parser.PingAnyCase | src/parser.rs:12-13 | "ping", "Ping" and "PING" all parse as PING |
| Frame.Decode | src/frame.rs:16-30 | an empty buffer gives no value and is kept; a decoded value is yielded with exactly the consumed prefix dropped; an incomplete parse gives no value and keeps the buffer; any other error gives InvalidData with that error's text and keeps the buffer |
| Frame.DecodeTwice | src/frame.rs:22-25 | two decodes in a row that each yield a value leave the input equal to the first value's bytes, then the second's, then the remaining buffer, which is the input minus both consumed counts |
| Frame.DecodeMany | src/frame.rs:16-30 | up to n decode calls in a row: as many values as consumed chunks, at most n; the first value is the decoder's for the input; a buffer that yields nothing is returned whole with no values |
| Frame.DecodeManyConserves | src/frame.rs:22-25 | for any number of decode calls, the input is the consumed chunks in order followed by the buffer left |
| Frame.EncodeDecodeRoundTrip | src/frame.rs:16-39 | with a decoder that reads back each encoded value whatever follows it, decoding the encoded replies gives the same values in the same order and leaves exactly the trailing bytes |
| Frame.Encode | src/frame.rs:36-39 | the reply's bytes are appended after the existing buffer, which stays intact as the prefix |
| Frame.EncodeAllInOrder | src/frame.rs:36-38 | encoding replies one after another writes their bytes in reply order behind the existing buffer |

## Left out

- The wire decoder `Resp::parse` and the encoder `RespType::to_bytes` are not part of this model. The codec takes both as parameters. `Frame.EncodeDecodeRoundTrip` proves the round trip for any decoder that reads back each encoded value whatever follows it; that `Resp::parse` and `to_bytes` are such a pair is not proved here, and under the RESP wire format no pair can be for every `RespType`: a `SimpleString` holding CRLF is cut at its first CRLF, and `SimpleError` and `Error` share the `-` marker. The lemma therefore covers only the codec's buffer bookkeeping. No fragmentation property is stated.
- The type-marker constants (`src/resp.rs:3-7`) are used only by the decoder and encoder, so they are not modelled.
- `Resp::new` only stores its buffer, so it is not modelled.
- `src/server.rs` and `src/main.rs` are left out. They are socket binding, the accept loop, task spawning and socket reads and writes.
- The `Arc<RwLock<…>>` around the store is left out. The store is a value, and each operation is one functional update, so INCR/DECR are atomic by construction. Concurrency itself is not modelled.
- `src/commands/mod.rs` only declares the `Command` trait. The closed `Command` datatype and `Commands.Execute` stand for it.
- Db.Incr: requires that a stored integer plus one stays within 64 bits (`Db.NoOverflow`). The source does not guard `value + 1`, so it would panic in debug builds and wrap in release builds.
- Db.Decr: requires that a stored integer minus one stays within 64 bits, for the same reason.
- Commands.Execute: carries the same no-overflow requirement for INCR and DECR.
- Db.Adjust: requires `Db.NoOverflow`, that the stored integer moved by the step stays within 64 bits, because the source does not guard the addition and would panic in debug builds and wrap in release builds.
- Commands.ExecuteIncr: requires `Db.NoOverflow` for the step +1, for the same reason as Db.Incr.
- Commands.ExecuteDecr: requires `Db.NoOverflow` for the step -1, for the same reason as Db.Decr.
- Case folding covers ASCII letters only. Rust's full Unicode `to_uppercase` also maps a few non-ASCII letters onto ASCII ones (dotless `ı` to `I`, long `ſ` to `S`), and the ligatures `ﬅ` and `ﬆ` onto the two letters `ST`. So names like "pıng" and "exiﬆs" are unknown here but PING and EXISTS in the source.
- `std::io::Error` payloads are opaque. `BifrostError`'s I/O variant carries only a kind and a description, and the `From<io::Error>` conversion is not modelled.
- Resp.ErrorText: requires an error other than `Incomplete`, because the source's `Display` for `RespError` has no arm for that variant.
