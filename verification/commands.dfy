/**
 * The eight commands as one closed datatype, each command's execution
 * against the store, and the dispatcher that selects among them.
 */
module Commands {
  import opened Wrappers
  import opened Resp
  import opened Errors
  import Db

  datatype Command =
    | Ping
    | Echo(message: RespType)
    | Get(key: string)
    | Set(key: string, value: RespType)
    | Del(key: string)
    | Exists(key: string)
    | Incr(key: string)
    | Decr(key: string)

  const Pong: RespType := SimpleString("PONG")
  const InternalErrorMessage: string := "ERR internal error"

  function ExecutePing(db: Db.Store): (r: Db.Step)
    ensures r.reply == Pong && !r.reply.Error?
    ensures r.store == db
  {
    Db.Step(Pong, db)
  }

  /** ECHO hands back whatever value it carries, unexamined. */
  function ExecuteEcho(message: RespType, db: Db.Store): (r: Db.Step)
    ensures r.reply == message
    ensures r.store == db
  {
    Db.Step(message, db)
  }

  /** GET replies with the stored value, or `Null` for an absent key. */
  function ExecuteGet(key: string, db: Db.Store): (r: Db.Step)
    ensures key in db ==> r.reply == db[key]
    ensures key !in db ==> r.reply == Null
    ensures r.store == db
  {
    match Db.Get(db, key)
    case Some(v) => Db.Step(v, db)
    case None => Db.Step(Null, db)
  }

  function ExecuteSet(key: string, value: RespType, db: Db.Store): (r: Db.Step)
    ensures r.reply == SimpleString("OK")
    ensures key in r.store && r.store[key] == value
    ensures Db.SameExcept(db, r.store, key)
  {
    Db.Set(db, key, value)
  }

  function ExecuteDel(key: string, db: Db.Store): (r: Db.Step)
    ensures r.reply == Integer(1) <==> key in db
    ensures r.reply == Integer(0) <==> key !in db
    ensures key !in r.store
    ensures Db.SameExcept(db, r.store, key)
  {
    Db.Del(db, key)
  }

  function ExecuteExists(key: string, db: Db.Store): (r: Db.Step)
    ensures r.reply == Integer(1) <==> key in db
    ensures r.reply == Integer(0) <==> key !in db
    ensures r.reply.Integer? && 0 <= r.reply.n <= 1
    ensures r.store == db
  {
    Db.Step(Db.Exists(db, key), db)
  }

  /**
   * How INCR and DECR turn the store's result into a reply: a value is
   * passed through, a storage error becomes an error reply with the same
   * text, and any other error becomes a generic internal-error reply.
   */
  function ResultReply(res: Result<RespType, BifrostError>): (r: RespType)
    ensures res.Ok? ==> r == res.value
    ensures res.Err? ==> r.Error?
    ensures res.Err? && res.error.StorageError? ==> r.str == res.error.msg
    ensures res.Err? && !res.error.StorageError? ==> r.str == InternalErrorMessage
  {
    match res
    case Ok(resp) => resp
    case Err(StorageError(msg)) => Error(msg)
    case Err(_) => Error(InternalErrorMessage)
  }

  /** INCR: one store increment of the key; its reply is the store's reply. */
  function ExecuteIncr(key: string, db: Db.Store): (r: Db.Step)
    requires Db.NoOverflow(db, key, 1)
    ensures r == Db.Incr(db, key)
  {
    var step := Db.Incr(db, key);
    Db.Step(ResultReply(Ok(step.reply)), step.store)
  }

  /** DECR: one store decrement of the key; its reply is the store's reply. */
  function ExecuteDecr(key: string, db: Db.Store): (r: Db.Step)
    requires Db.NoOverflow(db, key, -1)
    ensures r == Db.Decr(db, key)
  {
    var step := Db.Decr(db, key);
    Db.Step(ResultReply(Ok(step.reply)), step.store)
  }

  // ---------------------------------------------------------------------
  // Dispatch
  // ---------------------------------------------------------------------

  /** Commands that only read the store. */
  predicate ReadOnly(cmd: Command)
  {
    cmd.Ping? || cmd.Echo? || cmd.Get? || cmd.Exists?
  }

  /** The INCR/DECR step does not leave the 64-bit range. */
  predicate Executable(cmd: Command, db: Db.Store)
  {
    && (cmd.Incr? ==> Db.NoOverflow(db, cmd.key, 1))
    && (cmd.Decr? ==> Db.NoOverflow(db, cmd.key, -1))
  }

  /** Runs one command against the store. */
  function Execute(cmd: Command, db: Db.Store): (r: Db.Step)
    requires Executable(cmd, db)
    ensures ReadOnly(cmd) ==> r.store == db
    ensures !cmd.Ping? && !cmd.Echo? ==> Db.SameExcept(db, r.store, cmd.key)
    ensures cmd.Set? || cmd.Incr? || cmd.Decr? ==> cmd.key in r.store
    ensures cmd.Del? ==> cmd.key !in r.store
    ensures cmd.Ping? ==> r.reply == Pong
    ensures cmd.Echo? ==> r.reply == cmd.message
    ensures cmd.Get? ==> r.reply == (if cmd.key in db then db[cmd.key] else Null)
    ensures cmd.Set? ==> r.reply == Db.OkReply && r.store == db[cmd.key := cmd.value]
    ensures cmd.Del? || cmd.Exists? ==> r.reply == Integer(if cmd.key in db then 1 else 0)
    ensures cmd.Incr? ==> r == Db.Incr(db, cmd.key)
    ensures cmd.Decr? ==> r == Db.Decr(db, cmd.key)
  {
    match cmd
    case Ping => ExecutePing(db)
    case Echo(message) => ExecuteEcho(message, db)
    case Get(key) => ExecuteGet(key, db)
    case Set(key, value) => ExecuteSet(key, value, db)
    case Del(key) => ExecuteDel(key, db)
    case Exists(key) => ExecuteExists(key, db)
    case Incr(key) => ExecuteIncr(key, db)
    case Decr(key) => ExecuteDecr(key, db)
  }

  // ---------------------------------------------------------------------
  // Properties of command sequences
  // ---------------------------------------------------------------------

  /** PING and ECHO reply the same whatever the store holds. */
  lemma ReplyIgnoresStore(cmd: Command, db1: Db.Store, db2: Db.Store)
    requires cmd.Ping? || cmd.Echo?
    ensures Execute(cmd, db1).reply == Execute(cmd, db2).reply
  {
  }

  /** SET k v followed by GET k replies v. */
  lemma SetThenGet(db: Db.Store, key: string, value: RespType)
    ensures Execute(Get(key), Execute(Set(key, value), db).store).reply == value
  {
  }

  /** Running the same SET twice leaves the store a single SET leaves. */
  lemma SetTwice(db: Db.Store, key: string, value: RespType)
    ensures Execute(Set(key, value), Execute(Set(key, value), db).store).store
         == Execute(Set(key, value), db).store
  {
  }

  /** A second DEL of the same key finds nothing. */
  lemma DelTwice(db: Db.Store, key: string)
    ensures Execute(Del(key), Execute(Del(key), db).store).reply == Integer(0)
    ensures Execute(Exists(key), Execute(Del(key), db).store).reply == Integer(0)
  {
  }

  /** INCR on a fresh key replies 1, and a second INCR replies 2; DECR on a fresh key replies -1. */
  lemma FreshCounterReplies(db: Db.Store, key: string)
    requires key !in db
    ensures var first := Execute(Incr(key), db);
            && first.reply == Integer(1)
            && Execute(Incr(key), first.store).reply == Integer(2)
    ensures Execute(Decr(key), db).reply == Integer(-1)
  {
  }

  /** INCR of a key holding a bulk string is an error and changes nothing. */
  lemma IncrOfString(db: Db.Store, key: string)
    requires key in db && db[key].BulkString?
    ensures Execute(Incr(key), db) == Db.Step(Error(Db.NotAnIntegerMessage), db)
  {
  }
}
