/**
 * The key-value store as a sequential map from keys to RESP values. Every
 * operation returns its reply together with the store it leaves behind.
 */
module Db {
  import opened Wrappers
  import opened Resp

  type Store = map<string, RespType>

  /** A reply together with the store after the operation. */
  datatype Step = Step(reply: RespType, store: Store)

  const OkReply: RespType := SimpleString("OK")
  const NotAnIntegerMessage: string := "ERR value is not an integer"

  /** `a` and `b` agree on every key other than `key`. */
  ghost predicate SameExcept(a: Store, b: Store, key: string)
  {
    forall k :: k != key ==> (k in a <==> k in b) && (k in a ==> a[k] == b[k])
  }

  function Get(db: Store, key: string): (r: Option<RespType>)
    ensures r.Some? <==> key in db
    ensures r.Some? ==> r.value == db[key]
  {
    if key in db then Some(db[key]) else None
  }

  function Set(db: Store, key: string, value: RespType): (r: Step)
    ensures r.reply == OkReply
    ensures key in r.store && r.store[key] == value
    ensures SameExcept(db, r.store, key)
  {
    Step(OkReply, db[key := value])
  }

  function Del(db: Store, key: string): (r: Step)
    ensures r.reply == Integer(if key in db then 1 else 0)
    ensures key !in r.store
    ensures SameExcept(db, r.store, key)
  {
    if key in db then Step(Integer(1), db - {key}) else Step(Integer(0), db)
  }

  function Exists(db: Store, key: string): (r: RespType)
    ensures r == Integer(1) <==> key in db
    ensures r == Integer(0) <==> key !in db
  {
    Integer(if key in db then 1 else 0)
  }

  // ---------------------------------------------------------------------
  // Counters
  // ---------------------------------------------------------------------

  /** The key holds a counter, or nothing, which counts as zero. */
  predicate IsCounter(db: Store, key: string)
  {
    key !in db || db[key].Integer?
  }

  /** The counter's current value, zero when the key is absent. */
  function Counter(db: Store, key: string): int
    requires IsCounter(db, key)
  {
    if key in db then db[key].n as int else 0
  }

  /**
   * Adding `delta` to a present integer stays within 64 bits. The source
   * does not guard the addition; outside this range it would panic or wrap.
   */
  predicate NoOverflow(db: Store, key: string, delta: int)
  {
    key in db && db[key].Integer? ==> I64_MIN <= db[key].n as int + delta <= I64_MAX
  }

  /** The read-check-write shared by INCR and DECR, stepping by `delta`. */
  function Adjust(db: Store, key: string, delta: int): (r: Step)
    requires delta == 1 || delta == -1
    requires NoOverflow(db, key, delta)
    ensures SameExcept(db, r.store, key)
    ensures r.reply.Error? <==> !IsCounter(db, key)
    ensures !IsCounter(db, key) ==> r.reply == Error(NotAnIntegerMessage) && r.store == db
    ensures IsCounter(db, key) ==>
      && r.reply.Integer? && r.reply.n as int == Counter(db, key) + delta
      && key in r.store && r.store[key] == r.reply
  {
    if key in db then
      match db[key]
      case Integer(value) =>
        var next := Integer(value + delta as i64);
        Step(next, db[key := next])
      case _ => Step(Error(NotAnIntegerMessage), db)
    else
      Step(Integer(delta as i64), db[key := Integer(delta as i64)])
  }

  function Incr(db: Store, key: string): (r: Step)
    requires NoOverflow(db, key, 1)
    ensures SameExcept(db, r.store, key)
    ensures !IsCounter(db, key) ==> r.reply == Error(NotAnIntegerMessage) && r.store == db
    ensures IsCounter(db, key) ==>
      && r.reply == Integer((Counter(db, key) + 1) as i64)
      && key in r.store && r.store[key] == r.reply
  {
    Adjust(db, key, 1)
  }

  function Decr(db: Store, key: string): (r: Step)
    requires NoOverflow(db, key, -1)
    ensures SameExcept(db, r.store, key)
    ensures !IsCounter(db, key) ==> r.reply == Error(NotAnIntegerMessage) && r.store == db
    ensures IsCounter(db, key) ==>
      && r.reply == Integer((Counter(db, key) - 1) as i64)
      && key in r.store && r.store[key] == r.reply
  {
    Adjust(db, key, -1)
  }

  // ---------------------------------------------------------------------
  // Properties relating several operations
  // ---------------------------------------------------------------------

  lemma SetThenGet(db: Store, key: string, value: RespType)
    ensures Get(Set(db, key, value).store, key) == Some(value)
  {
  }

  /** Repeating a SET leaves the store as a single SET left it. */
  lemma SetIdempotent(db: Store, key: string, value: RespType)
    ensures var once := Set(db, key, value).store;
            Set(once, key, value).store == once
  {
  }

  lemma DelThenGet(db: Store, key: string)
    ensures Get(Del(db, key).store, key) == None
    ensures Exists(Del(db, key).store, key) == Integer(0)
    ensures Del(Del(db, key).store, key).reply == Integer(0)
  {
  }

  /** EXISTS reports 1 exactly for the keys GET finds. */
  lemma ExistsAgreesWithGet(db: Store, key: string)
    ensures Exists(db, key) == Integer(1) <==> Get(db, key).Some?
    ensures Exists(db, key) == Integer(0) <==> Get(db, key) == None
  {
  }

  /** DECR undoes INCR on a key that already holds an integer. */
  lemma DecrUndoesIncr(db: Store, key: string)
    requires key in db && db[key].Integer?
    requires NoOverflow(db, key, 1)
    ensures NoOverflow(Incr(db, key).store, key, -1)
    ensures Decr(Incr(db, key).store, key).store == db
  {
  }

  /** The store after `n` INCRs of `key`, one after another. */
  function IncrTimes(db: Store, key: string, n: nat): (r: Store)
    requires IsCounter(db, key)
    requires Counter(db, key) + n <= I64_MAX
    ensures IsCounter(r, key) && Counter(r, key) == Counter(db, key) + n
    ensures SameExcept(db, r, key)
    decreases n
  {
    if n == 0 then db
    else IncrTimes(Incr(db, key).store, key, n - 1)
  }

  /** `n` INCRs of a fresh key leave exactly `n` there: no update is lost. */
  lemma FreshCounter(db: Store, key: string, n: nat)
    requires key !in db
    requires 0 < n <= I64_MAX
    ensures var r := IncrTimes(db, key, n); key in r && r[key] == Integer(n as i64)
  {
  }

  /** The store's own test of SET, GET, DEL and EXISTS, replayed. */
  lemma BasicOperationsScenario()
    ensures var db0: Store := map[];
            var s1 := Set(db0, "key1", BulkString("value1"));
            var d := Del(s1.store, "key1");
            var s2 := Set(d.store, "key1", BulkString("value1"));
            && s1.reply == SimpleString("OK")
            && Get(s1.store, "key1") == Some(BulkString("value1"))
            && d.reply == Integer(1)
            && Get(d.store, "key1") == None
            && Exists(d.store, "key1") == Integer(0)
            && Exists(s2.store, "key1") == Integer(1)
  {
  }

  /** The store's own test of INCR and DECR on a fresh counter, replayed. */
  lemma IntegerOperationsScenario()
    ensures var db0: Store := map[];
            var i1 := Incr(db0, "counter");
            var i2 := Incr(i1.store, "counter");
            var d1 := Decr(i2.store, "counter");
            var d2 := Decr(d1.store, "counter");
            && i1.reply == Integer(1) && i2.reply == Integer(2)
            && d1.reply == Integer(1) && d2.reply == Integer(0)
  {
  }
}
