/**
  The cache-aside protocol that every cached read of models.ts repeats: look
  the key up; on a truthy hit return the cached value without touching the
  store; otherwise run the query, shape its rows, write the shaped value with
  the operation's TTL when the operation's fill condition holds, and return
  it. A query failure rejects the call and leaves the cache alone. Reads that
  are not cached go straight to the store.
 */
module CacheAside {
  import opened Wrappers
  import opened Json
  import opened CacheService
  import opened Store
  import opened Keys
  import opened Normalizer

  /** The current instant: whole seconds for TTL arithmetic, and the text
      `new Date().toISOString()` gives for it. */
  datatype Clock = Clock(secs: int, iso: string)

  /** The backing store and the instant at which an accessor runs. */
  datatype Env = Env(db: Db, clock: Clock)

  /** Whether the accessor's one `get` and one `set` meet a fault; both are
      swallowed by the cache port. */
  datatype Faults = Faults(onGet: bool, onSet: bool)

  /** How the promise an accessor returns settles. */
  datatype Outcome = Resolved(value: J) | Rejected

  /** One accessor call: its outcome, the cache afterwards, and the queries
      it sent to the store, in order. */
  datatype Reply = Reply(outcome: Outcome, cache: Cache, queries: seq<Query>)

  /** What `cache.get` answers for the key of a cached read. */
  function Cached(c: Cache, env: Env, f: Faults, q: Query): JsonValue
    requires KeyOf(q).Some?
  {
    Get(c, env.clock.secs, KeyOf(q).value, f.onGet)
  }

  /** `if (cached) return cached`: the hit test is JavaScript truthiness. */
  predicate Served(c: Cache, env: Env, f: Faults, q: Query)
    requires KeyOf(q).Some?
  {
    Truthy(Cached(c, env, f, q))
  }

  /** The cache after a miss answered with `rows`: the shaped value written
      under the read's key with its TTL when `fill` holds, else as it was. */
  function Filled(c: Cache, env: Env, f: Faults, q: Query, ttl: int,
                  shape: seq<Row> -> J, fill: seq<Row> -> bool, rows: seq<Row>): Cache
    requires KeyOf(q).Some?
  {
    if fill(rows) then Set(c, env.clock.secs, KeyOf(q).value, shape(rows), Some(ttl), f.onSet) else c
  }

  /** One cached read of query `q` with TTL `ttl`: `shape` turns the rows into
      the returned value, `fill` says whether that value is written back. */
  function Step(c: Cache, env: Env, f: Faults, q: Query, ttl: int,
                shape: seq<Row> -> J, fill: seq<Row> -> bool): (r: Reply)
    requires KeyOf(q).Some?
    ensures r.cache - {KeyOf(q).value} == c - {KeyOf(q).value}
    ensures Served(c, env, f, q) ==> r == Reply(Resolved(Cached(c, env, f, q)), c, [])
    ensures !Served(c, env, f, q) ==> r.queries == [q]
    ensures r.outcome.Rejected? <==> !Served(c, env, f, q) && env.db(q).QueryFailed?
    ensures r.outcome.Rejected? ==> r.cache == c
    ensures !Served(c, env, f, q) && env.db(q).Rows? ==>
              r.outcome == Resolved(shape(env.db(q).rows)) &&
              r.cache == Filled(c, env, f, q, ttl, shape, fill, env.db(q).rows)
  {
    var key := KeyOf(q).value;
    var hit := Get(c, env.clock.secs, key, f.onGet);
    if Truthy(hit) then Reply(Resolved(hit), c, [])
    else match env.db(q)
      case QueryFailed => Reply(Rejected, c, [q])
      case Rows(rows) => Reply(Resolved(shape(rows)), Filled(c, env, f, q, ttl, shape, fill, rows), [q])
  }

  /** A read that is not cached: it neither reads nor writes the cache. */
  function ReadThrough(c: Cache, env: Env, q: Query, shape: seq<Row> -> J): (r: Reply)
    ensures r.cache == c && r.queries == [q]
    ensures r.outcome.Rejected? <==> env.db(q).QueryFailed?
    ensures env.db(q).Rows? ==> r.outcome == Resolved(shape(env.db(q).rows))
  {
    match env.db(q)
    case QueryFailed => Reply(Rejected, c, [q])
    case Rows(rows) => Reply(Resolved(shape(rows)), c, [q])
  }

  // ---------------------------------------------------------------------
  // Shapes and fill conditions shared by several accessors

  /** The corrected normaliser applied to `rows[0] || null`: the first row
      normalised, or null. */
  function FirstNormalized(rows: seq<Row>): (v: J)
    ensures |rows| == 0 ==> v == JNull
    ensures |rows| > 0 ==> v.JObj? && v == Normalize(JObj(rows[0]))
  {
    Normalize(FirstOrNull(rows))
  }

  /** The corrected normaliser applied to the result set: the rows normalised
      one by one. */
  function NormalizedRows(rows: seq<Row>): (v: J)
    ensures v.JArr? && |v.items| == |rows|
    ensures forall i | 0 <= i < |rows| :: v.items[i] == Normalize(JObj(rows[i]))
  {
    Normalize(RowsValue(rows))
  }

  /** The fill condition `if (user)` of a point lookup: a row was found. */
  predicate Found(rows: seq<Row>) {
    |rows| > 0
  }

  /** The fill condition of every other cached read: none, the write is
      unconditional. */
  predicate Always(rows: seq<Row>) {
    true
  }

  /** Fail-open: when every cache call faults, a cached read answers exactly
      what reading the store directly answers, and the cache is untouched. */
  lemma StepFailOpen(c: Cache, env: Env, q: Query, ttl: int, shape: seq<Row> -> J, fill: seq<Row> -> bool)
    requires KeyOf(q).Some?
    ensures Step(c, env, Faults(true, true), q, ttl, shape, fill) == ReadThrough(c, env, q, shape)
  {
  }

  /** Coherence within the TTL: after a miss that filled the cache, the same
      read at any instant before the entry expires is served from the cache,
      sends no query, and returns the JSON image of what the miss returned.
      The second call's shape and fill condition play no part. */
  lemma StepRepeats(c: Cache, env: Env, f: Faults, q: Query, ttl: int,
                    shape: seq<Row> -> J, fill: seq<Row> -> bool,
                    env': Env, getFault': bool, shape': seq<Row> -> J, fill': seq<Row> -> bool)
    requires KeyOf(q).Some?
    requires !Served(c, env, f, q) && env.db(q).Rows?
    requires fill(env.db(q).rows) && !f.onSet && ttl > 0
    requires ToWire(shape(env.db(q).rows)).Some? && Truthy(ToWire(shape(env.db(q).rows)).value)
    requires env.clock.secs <= env'.clock.secs < env.clock.secs + ttl
    ensures var first := Step(c, env, f, q, ttl, shape, fill);
      Step(first.cache, env', Faults(false, getFault'), q, ttl, shape', fill')
      == Reply(Resolved(ToWire(shape(env.db(q).rows)).value), first.cache, [])
  {
    var first := Step(c, env, f, q, ttl, shape, fill);
    GetAfterSet(c, env.clock.secs, KeyOf(q).value, shape(env.db(q).rows), Some(ttl), env'.clock.secs);
  }

  // ---------------------------------------------------------------------
  // The cache holds what the accessors write

  /** The kind of value each read returns (for a point lookup: when found). */
  datatype Kind = Number | Array | Object

  function KindOf(q: Query): Kind {
    match q
    case UsersCount => Number
    case TotalBalance => Number
    case UsersPage(_, _) => Array
    case UsersByStatus => Array
    case WithdrawalsByUser(_) => Array
    case RecentWithdrawals(_) => Array
    case WithdrawalsByStatus => Array
    case _ => Object
  }

  predicate HasKind(v: J, k: Kind) {
    match k
    case Number => v.JNum?
    case Array => v.JArr?
    case Object => v.JObj?
  }

  /** Every entry under the key of a cached read holds the kind of value that
      read writes: what the TypeScript signatures of the accessors promise
      for a cache hit. */
  ghost predicate WellTyped(c: Cache) {
    forall q | KeyOf(q).Some? && KeyOf(q).value in c && c[KeyOf(q).value].wire.Text? ::
      HasKind(c[KeyOf(q).value].wire.doc, KindOf(q))
  }

  /** A write of a value of the right kind under a read's key keeps the cache
      well typed. */
  lemma SetKeepsWellTyped(c: Cache, now: int, q: Query, v: J, ttl: Option<int>, fault: bool)
    requires KeyOf(q).Some? && WellTyped(c) && HasKind(v, KindOf(q))
    ensures WellTyped(Set(c, now, KeyOf(q).value, v, ttl, fault))
  {
    var c' := Set(c, now, KeyOf(q).value, v, ttl, fault);
    forall q' | KeyOf(q').Some? && KeyOf(q').value in c' && c'[KeyOf(q').value].wire.Text?
      ensures HasKind(c'[KeyOf(q').value].wire.doc, KindOf(q'))
    {
      if KeyOf(q').value == KeyOf(q).value {
        KeyOfInjective(q, q');
      } else {
        assert c'[KeyOf(q').value] == c[KeyOf(q').value] by {
          assert c' - {KeyOf(q).value} == c - {KeyOf(q).value};
          assert KeyOf(q').value in c' - {KeyOf(q).value};
        }
      }
    }
  }

  /** A cached read keeps the cache well typed when every value it writes has
      its kind, and then a hit returns a value of that kind. */
  lemma StepKeepsWellTyped(c: Cache, env: Env, f: Faults, q: Query, ttl: int,
                           shape: seq<Row> -> J, fill: seq<Row> -> bool)
    requires KeyOf(q).Some? && WellTyped(c)
    requires forall rows | fill(rows) :: HasKind(shape(rows), KindOf(q))
    ensures WellTyped(Step(c, env, f, q, ttl, shape, fill).cache)
    ensures Served(c, env, f, q) ==> HasKind(Cached(c, env, f, q), KindOf(q))
  {
    if !Served(c, env, f, q) && env.db(q).Rows? && fill(env.db(q).rows) {
      SetKeepsWellTyped(c, env.clock.secs, q, shape(env.db(q).rows), Some(ttl), f.onSet);
    }
  }
}
