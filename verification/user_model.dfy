/**
  `UserModel` of src/core/database/models.ts: the point lookup by id, the
  lookup by email, a page of users, the user count and the count per status.
 */
module UserModel {
  import opened Wrappers
  import opened Json
  import opened Normalizer
  import opened CacheService
  import opened Store
  import opened Keys
  import opened CacheAside

  const FindByIdTtl: int := 300
  const CountTtl: int := 120
  const CountByStatusTtl: int := 120

  /** `findById(id)`: key `user:{id}`, TTL 300, and the cache is written
      only when a row was found; a user that does not exist comes back as null
      and leaves the cache as it was. */
  function FindById(c: Cache, env: Env, f: Faults, id: string): (r: Reply)
    ensures r.cache - {UserKey(id)} == c - {UserKey(id)}
    ensures Served(c, env, f, UserById(id)) ==> r == Reply(Resolved(Cached(c, env, f, UserById(id))), c, [])
    ensures !Served(c, env, f, UserById(id)) ==> r.queries == [UserById(id)]
    ensures !Served(c, env, f, UserById(id)) && env.db(UserById(id)) == Rows([]) ==>
              r.outcome == Resolved(JNull) && r.cache == c
    ensures !Served(c, env, f, UserById(id)) && env.db(UserById(id)).Rows? && |env.db(UserById(id)).rows| > 0 ==>
              var user := Normalize(JObj(env.db(UserById(id)).rows[0]));
              && r.outcome == Resolved(user)
              && r.cache == if f.onSet then c else c[UserKey(id) := Entry(Text(Encode(user)), FindByIdTtl, env.clock.secs)]
    ensures r.outcome.Rejected? <==> !Served(c, env, f, UserById(id)) && env.db(UserById(id)).QueryFailed?
    ensures r.outcome.Rejected? ==> r.cache == c
  {
    Step(c, env, f, UserById(id), FindByIdTtl, FirstNormalized, Found)
  }

  /** `findByEmail(email)`: not cached. */
  function FindByEmail(c: Cache, env: Env, email: string): (r: Reply)
    ensures r.cache == c && r.queries == [UserByEmail(email)]
    ensures env.db(UserByEmail(email)) == Rows([]) ==> r.outcome == Resolved(JNull)
    ensures env.db(UserByEmail(email)).Rows? && |env.db(UserByEmail(email)).rows| > 0 ==>
              r.outcome == Resolved(Normalize(JObj(env.db(UserByEmail(email)).rows[0])))
    ensures r.outcome.Rejected? <==> env.db(UserByEmail(email)).QueryFailed?
  {
    ReadThrough(c, env, UserByEmail(email), FirstNormalized)
  }

  /** `findPaginated(limit, offset)`: not cached; the page comes back as an
      array with one normalised object per row, in the store's order. */
  function FindPaginated(c: Cache, env: Env, limit: int, offset: int): (r: Reply)
    ensures r.cache == c && r.queries == [UsersPage(limit, offset)]
    ensures r.outcome.Rejected? <==> env.db(UsersPage(limit, offset)).QueryFailed?
    ensures r.outcome.Resolved? ==>
              var rows := env.db(UsersPage(limit, offset)).rows;
              && r.outcome.value.JArr?
              && |r.outcome.value.items| == |rows|
              && forall i | 0 <= i < |rows| :: r.outcome.value.items[i] == Normalize(JObj(rows[i]))
  {
    ReadThrough(c, env, UsersPage(limit, offset), NormalizedRows)
  }

  /** `parseInt(result[0]?.count?.toString() || '0')` for a count column
      holding a number, a bigint, null or nothing. */
  function CountOf(rows: seq<Row>): (n: int)
    ensures |rows| == 0 ==> n == 0
    ensures |rows| > 0 && Lookup(rows[0], "count").Some? && Lookup(rows[0], "count").value.JNum? ==>
              n == Lookup(rows[0], "count").value.n
    ensures |rows| > 0 && Lookup(rows[0], "count").Some? && Lookup(rows[0], "count").value.JBig? ==>
              n == Lookup(rows[0], "count").value.i
    ensures |rows| > 0 && Lookup(rows[0], "count") in {None, Some(JNull), Some(JUndef)} ==> n == 0
  {
    if |rows| == 0 then 0
    else match Lookup(rows[0], "count")
      case Some(JNum(k)) => k
      case Some(JBig(k)) => k
      case _ => 0
  }

  function CountValue(rows: seq<Row>): J {
    JNum(CountOf(rows))
  }

  /** `count()`: key `users_count`, TTL 120, and the parsed count is written
      whatever it is, zero included. */
  function Count(c: Cache, env: Env, f: Faults): (r: Reply)
    ensures r.cache - {UsersCountKey} == c - {UsersCountKey}
    ensures Served(c, env, f, UsersCount) ==> r == Reply(Resolved(Cached(c, env, f, UsersCount)), c, [])
    ensures !Served(c, env, f, UsersCount) ==> r.queries == [UsersCount]
    ensures !Served(c, env, f, UsersCount) && env.db(UsersCount).Rows? ==>
              var n := CountOf(env.db(UsersCount).rows);
              && r.outcome == Resolved(JNum(n))
              && r.cache == if f.onSet then c else c[UsersCountKey := Entry(Text(JNum(n)), CountTtl, env.clock.secs)]
    ensures r.outcome.Rejected? <==> !Served(c, env, f, UsersCount) && env.db(UsersCount).QueryFailed?
    ensures r.outcome.Rejected? ==> r.cache == c
  {
    Step(c, env, f, UsersCount, CountTtl, CountValue, Always)
  }

  /** `countByStatus()`: key `users_by_status`, TTL 120, and the normalised
      rows are written whatever they are, an empty array included. */
  function CountByStatus(c: Cache, env: Env, f: Faults): (r: Reply)
    ensures r.cache - {UsersByStatusKey} == c - {UsersByStatusKey}
    ensures Served(c, env, f, UsersByStatus) ==> r == Reply(Resolved(Cached(c, env, f, UsersByStatus)), c, [])
    ensures !Served(c, env, f, UsersByStatus) ==> r.queries == [UsersByStatus]
    ensures !Served(c, env, f, UsersByStatus) && env.db(UsersByStatus).Rows? ==>
              var v := NormalizedRows(env.db(UsersByStatus).rows);
              && r.outcome == Resolved(v)
              && r.cache == if f.onSet then c else c[UsersByStatusKey := Entry(Text(Encode(v)), CountByStatusTtl, env.clock.secs)]
    ensures r.outcome.Rejected? <==> !Served(c, env, f, UsersByStatus) && env.db(UsersByStatus).QueryFailed?
    ensures r.outcome.Rejected? ==> r.cache == c
  {
    Step(c, env, f, UsersByStatus, CountByStatusTtl, NormalizedRows, Always)
  }

  /** Coherence within the TTL: once a lookup has found and cached a user,
      the same lookup until the entry expires sends no query and returns what
      the first call returned, as the JSON the caller receives. */
  lemma FindByIdRepeats(c: Cache, env: Env, f: Faults, id: string, env': Env, getFault': bool)
    requires !Served(c, env, f, UserById(id)) && !f.onSet
    requires env.db(UserById(id)).Rows? && |env.db(UserById(id)).rows| > 0
    requires env.clock.secs <= env'.clock.secs < env.clock.secs + FindByIdTtl
    ensures var first := FindById(c, env, f, id);
      var second := FindById(first.cache, env', Faults(false, getFault'), id);
      && second.queries == []
      && second.cache == first.cache
      && first.outcome.Resolved? && second.outcome.Resolved?
      && ToWire(second.outcome.value) == ToWire(first.outcome.value)
  {
    var user := FirstNormalized(env.db(UserById(id)).rows);
    NormalizeStorable(FirstOrNull(env.db(UserById(id)).rows));
    StepRepeats(c, env, f, UserById(id), FindByIdTtl, FirstNormalized, Found, env', getFault', FirstNormalized, Found);
    ToWireOfJsonValue(ToWire(user).value);
  }

  /** Not-found results are not cached: after a lookup that found nothing
      (with a working cache), a lookup made once the user exists returns the
      user, however soon it comes. */
  lemma FindByIdNotFoundThenCreated(c: Cache, env: Env, setFault: bool, id: string,
                                    env': Env, f': Faults)
    requires !Served(c, env, Faults(false, setFault), UserById(id))
    requires env.db(UserById(id)) == Rows([])
    requires env.clock.secs <= env'.clock.secs
    requires env'.db(UserById(id)).Rows? && |env'.db(UserById(id)).rows| > 0
    ensures var first := FindById(c, env, Faults(false, setFault), id);
      && first.outcome == Resolved(JNull)
      && FindById(first.cache, env', f', id).outcome == Resolved(Normalize(JObj(env'.db(UserById(id)).rows[0])))
  {
    MissStaysMiss(c, env.clock.secs, env'.clock.secs, UserKey(id));
  }

  /** A count of zero is written but never served: JavaScript truthiness
      makes the cached `0` a miss, so the next call queries again. */
  lemma ZeroCountIsRefetched(c: Cache, env: Env, f: Faults, env': Env, getFault': bool)
    requires !Served(c, env, f, UsersCount) && !f.onSet
    requires env.db(UsersCount).Rows? && CountOf(env.db(UsersCount).rows) == 0
    requires env.clock.secs <= env'.clock.secs < env.clock.secs + CountTtl
    ensures var first := Count(c, env, f);
      && first.cache[UsersCountKey] == Entry(Text(JNum(0)), CountTtl, env.clock.secs)
      && Count(first.cache, env', Faults(false, getFault')).queries == [UsersCount]
  {
  }

  /** An empty status breakdown is cached like any other: `[]` is truthy, so
      until it expires it is served without a query. */
  lemma EmptyStatusCountsAreCached(c: Cache, env: Env, f: Faults, env': Env, getFault': bool)
    requires !Served(c, env, f, UsersByStatus) && !f.onSet
    requires env.db(UsersByStatus) == Rows([])
    requires env.clock.secs <= env'.clock.secs < env.clock.secs + CountByStatusTtl
    ensures var first := CountByStatus(c, env, f);
      CountByStatus(first.cache, env', Faults(false, getFault')) == Reply(Resolved(JArr([])), first.cache, [])
  {
    StepRepeats(c, env, f, UsersByStatus, CountByStatusTtl, NormalizedRows, Always, env', getFault', NormalizedRows, Always);
  }

  /** The reads by email and by page never look at the cache: their answer
      does not depend on its contents. */
  lemma UncachedUserReadsIgnoreCache(c1: Cache, c2: Cache, env: Env, email: string, limit: int, offset: int)
    ensures FindByEmail(c1, env, email).outcome == FindByEmail(c2, env, email).outcome
    ensures FindPaginated(c1, env, limit, offset).outcome == FindPaginated(c2, env, limit, offset).outcome
  {
  }

  /** The user reads keep the cache well typed, and then return what their
      signatures promise: a user object or null, a number, an array. */
  lemma UserReadsWellTyped(c: Cache, env: Env, f: Faults, id: string)
    requires WellTyped(c)
    ensures var r := FindById(c, env, f, id);
      WellTyped(r.cache) && (r.outcome.Resolved? ==> r.outcome.value.JObj? || r.outcome.value == JNull)
    ensures var r := Count(c, env, f);
      WellTyped(r.cache) && (r.outcome.Resolved? ==> r.outcome.value.JNum?)
    ensures var r := CountByStatus(c, env, f);
      WellTyped(r.cache) && (r.outcome.Resolved? ==> r.outcome.value.JArr?)
  {
    StepKeepsWellTyped(c, env, f, UserById(id), FindByIdTtl, FirstNormalized, Found);
    StepKeepsWellTyped(c, env, f, UsersCount, CountTtl, CountValue, Always);
    StepKeepsWellTyped(c, env, f, UsersByStatus, CountByStatusTtl, NormalizedRows, Always);
  }
}
