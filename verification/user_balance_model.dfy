/**
  `UserBalanceModel` of src/core/database/models.ts: the balance record of one
  user and the platform-wide total.
 */
module UserBalanceModel {
  import opened Wrappers
  import opened Json
  import opened Normalizer
  import opened CacheService
  import opened Store
  import opened Keys
  import opened CacheAside

  const TotalPlatformBalanceTtl: int := 300

  /** `findByUserId(userId)`: not cached; the first balance row normalised,
      or null when the user has none. */
  function FindByUserId(c: Cache, env: Env, userId: string): (r: Reply)
    ensures r.cache == c && r.queries == [BalanceByUser(userId)]
    ensures env.db(BalanceByUser(userId)) == Rows([]) ==> r.outcome == Resolved(JNull)
    ensures env.db(BalanceByUser(userId)).Rows? && |env.db(BalanceByUser(userId)).rows| > 0 ==>
              r.outcome == Resolved(Normalize(JObj(env.db(BalanceByUser(userId)).rows[0])))
    ensures r.outcome.Rejected? <==> env.db(BalanceByUser(userId)).QueryFailed?
  {
    ReadThrough(c, env, BalanceByUser(userId), FirstNormalized)
  }

  /** `Number(result[0]?.total || 0)` for a total column holding a number, a
      bigint, a boolean, null or nothing. */
  function TotalOf(rows: seq<Row>): (n: int)
    ensures |rows| == 0 ==> n == 0
    ensures |rows| > 0 && Lookup(rows[0], "total").Some? && Lookup(rows[0], "total").value.JNum? ==>
              n == Lookup(rows[0], "total").value.n
    ensures |rows| > 0 && Lookup(rows[0], "total").Some? && Lookup(rows[0], "total").value.JBig? ==>
              n == Lookup(rows[0], "total").value.i
    ensures |rows| > 0 && Lookup(rows[0], "total") == Some(JBool(true)) ==> n == 1
    ensures |rows| > 0 && (Lookup(rows[0], "total").None? || !Truthy(Lookup(rows[0], "total").value)) ==> n == 0
  {
    var total := if |rows| == 0 then JUndef else Lookup(rows[0], "total").GetOr(JUndef);
    if !Truthy(total) then 0
    else match total
      case JNum(k) => k
      case JBig(k) => k
      case JBool(_) => 1
      case _ => 0
  }

  function TotalValue(rows: seq<Row>): J {
    JNum(TotalOf(rows))
  }

  /** `getTotalPlatformBalance()`: key `total_platform_balance`, TTL 300, and
      the total is written whatever it is, zero included. */
  function GetTotalPlatformBalance(c: Cache, env: Env, f: Faults): (r: Reply)
    ensures r.cache - {TotalPlatformBalanceKey} == c - {TotalPlatformBalanceKey}
    ensures Served(c, env, f, TotalBalance) ==> r == Reply(Resolved(Cached(c, env, f, TotalBalance)), c, [])
    ensures !Served(c, env, f, TotalBalance) ==> r.queries == [TotalBalance]
    ensures !Served(c, env, f, TotalBalance) && env.db(TotalBalance).Rows? ==>
              var n := TotalOf(env.db(TotalBalance).rows);
              && r.outcome == Resolved(JNum(n))
              && r.cache == if f.onSet then c
                            else c[TotalPlatformBalanceKey := Entry(Text(JNum(n)), TotalPlatformBalanceTtl, env.clock.secs)]
    ensures r.outcome.Rejected? <==> !Served(c, env, f, TotalBalance) && env.db(TotalBalance).QueryFailed?
    ensures r.outcome.Rejected? ==> r.cache == c
  {
    Step(c, env, f, TotalBalance, TotalPlatformBalanceTtl, TotalValue, Always)
  }

  /** A total of zero is written but never served: the cached `0` is falsy,
      so every call queries again until the total becomes non-zero. */
  lemma ZeroTotalIsRefetched(c: Cache, env: Env, f: Faults, env': Env, getFault': bool)
    requires !Served(c, env, f, TotalBalance) && !f.onSet
    requires env.db(TotalBalance).Rows? && TotalOf(env.db(TotalBalance).rows) == 0
    requires env.clock.secs <= env'.clock.secs < env.clock.secs + TotalPlatformBalanceTtl
    ensures var first := GetTotalPlatformBalance(c, env, f);
      && first.cache[TotalPlatformBalanceKey] == Entry(Text(JNum(0)), TotalPlatformBalanceTtl, env.clock.secs)
      && GetTotalPlatformBalance(first.cache, env', Faults(false, getFault')).queries == [TotalBalance]
  {
  }

  /** A non-zero total is served from the cache until it expires. */
  lemma NonZeroTotalIsCached(c: Cache, env: Env, f: Faults, env': Env, getFault': bool)
    requires !Served(c, env, f, TotalBalance) && !f.onSet
    requires env.db(TotalBalance).Rows? && TotalOf(env.db(TotalBalance).rows) != 0
    requires env.clock.secs <= env'.clock.secs < env.clock.secs + TotalPlatformBalanceTtl
    ensures var first := GetTotalPlatformBalance(c, env, f);
      GetTotalPlatformBalance(first.cache, env', Faults(false, getFault'))
      == Reply(Resolved(JNum(TotalOf(env.db(TotalBalance).rows))), first.cache, [])
  {
    StepRepeats(c, env, f, TotalBalance, TotalPlatformBalanceTtl, TotalValue, Always,
                env', getFault', TotalValue, Always);
  }

  /** The total keeps the cache well typed and then returns a number. */
  lemma BalanceReadsWellTyped(c: Cache, env: Env, f: Faults)
    requires WellTyped(c)
    ensures var r := GetTotalPlatformBalance(c, env, f);
      WellTyped(r.cache) && (r.outcome.Resolved? ==> r.outcome.value.JNum?)
  {
    StepKeepsWellTyped(c, env, f, TotalBalance, TotalPlatformBalanceTtl, TotalValue, Always);
  }
}
