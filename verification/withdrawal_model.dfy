/**
  `WithdrawalModel` of src/core/database/models.ts: the withdrawals of one
  user, the most recent withdrawals, the count per status and the dashboard
  aggregate.
 */
module WithdrawalModel {
  import opened Wrappers
  import opened Json
  import opened Normalizer
  import opened CacheService
  import opened Store
  import opened Keys
  import opened CacheAside

  const FindRecentTtl: int := 60
  const CountByStatusTtl: int := 120
  const DashboardStatsTtl: int := 60

  /** `findByUserId(userId)`: not cached; one normalised object per row. */
  function FindByUserId(c: Cache, env: Env, userId: string): (r: Reply)
    ensures r.cache == c && r.queries == [WithdrawalsByUser(userId)]
    ensures r.outcome.Rejected? <==> env.db(WithdrawalsByUser(userId)).QueryFailed?
    ensures r.outcome.Resolved? ==>
              var rows := env.db(WithdrawalsByUser(userId)).rows;
              && r.outcome.value.JArr?
              && |r.outcome.value.items| == |rows|
              && forall i | 0 <= i < |rows| :: r.outcome.value.items[i] == Normalize(JObj(rows[i]))
  {
    ReadThrough(c, env, WithdrawalsByUser(userId), NormalizedRows)
  }

  /** `findRecent(limit)`: key `recent_withdrawals:{limit}`, TTL 60, and the
      normalised rows are written whatever they are, an empty array included. */
  function FindRecent(c: Cache, env: Env, f: Faults, limit: int): (r: Reply)
    ensures r.cache - {RecentWithdrawalsKey(limit)} == c - {RecentWithdrawalsKey(limit)}
    ensures Served(c, env, f, RecentWithdrawals(limit)) ==>
              r == Reply(Resolved(Cached(c, env, f, RecentWithdrawals(limit))), c, [])
    ensures !Served(c, env, f, RecentWithdrawals(limit)) ==> r.queries == [RecentWithdrawals(limit)]
    ensures !Served(c, env, f, RecentWithdrawals(limit)) && env.db(RecentWithdrawals(limit)).Rows? ==>
              var v := NormalizedRows(env.db(RecentWithdrawals(limit)).rows);
              && r.outcome == Resolved(v)
              && r.cache == if f.onSet then c
                            else c[RecentWithdrawalsKey(limit) := Entry(Text(Encode(v)), FindRecentTtl, env.clock.secs)]
    ensures r.outcome.Rejected? <==>
              !Served(c, env, f, RecentWithdrawals(limit)) && env.db(RecentWithdrawals(limit)).QueryFailed?
    ensures r.outcome.Rejected? ==> r.cache == c
  {
    Step(c, env, f, RecentWithdrawals(limit), FindRecentTtl, NormalizedRows, Always)
  }

  /** `countByStatus()`: key `withdrawals_by_status`, TTL 120, written
      unconditionally. */
  function CountByStatus(c: Cache, env: Env, f: Faults): (r: Reply)
    ensures r.cache - {WithdrawalsByStatusKey} == c - {WithdrawalsByStatusKey}
    ensures Served(c, env, f, WithdrawalsByStatus) ==>
              r == Reply(Resolved(Cached(c, env, f, WithdrawalsByStatus)), c, [])
    ensures !Served(c, env, f, WithdrawalsByStatus) ==> r.queries == [WithdrawalsByStatus]
    ensures !Served(c, env, f, WithdrawalsByStatus) && env.db(WithdrawalsByStatus).Rows? ==>
              var v := NormalizedRows(env.db(WithdrawalsByStatus).rows);
              && r.outcome == Resolved(v)
              && r.cache == if f.onSet then c
                            else c[WithdrawalsByStatusKey := Entry(Text(Encode(v)), CountByStatusTtl, env.clock.secs)]
    ensures r.outcome.Rejected? <==> !Served(c, env, f, WithdrawalsByStatus) && env.db(WithdrawalsByStatus).QueryFailed?
    ensures r.outcome.Rejected? ==> r.cache == c
  {
    Step(c, env, f, WithdrawalsByStatus, CountByStatusTtl, NormalizedRows, Always)
  }

  /** `{...stats[0]}`: the members of the first row, none when there is none. */
  function FirstRow(rows: seq<Row>): Row {
    if |rows| == 0 then [] else rows[0]
  }

  /** The corrected normaliser applied to
      `{...stats[0], timestamp: new Date().toISOString()}`: the aggregate row
      with the instant of the fill spread in. It is an object that can always
      be written to the cache. */
  function Snapshot(rows: seq<Row>, iso: string): (r: J)
    ensures r.JObj? && !HasBig(r) && ToWire(r).Some?
  {
    Normalize(JObj(Put(FirstRow(rows), "timestamp", JStr(iso))))
  }

  /** The snapshot is an object, bigint-free, whose `timestamp` is the
      instant it was taken. */
  lemma SnapshotTimestamp(rows: seq<Row>, iso: string)
    ensures Snapshot(rows, iso).JObj? && !HasBig(Snapshot(rows, iso))
    ensures Lookup(Snapshot(rows, iso).fields, "timestamp") == Some(JStr(iso))
  {
    PutLookup(FirstRow(rows), "timestamp", JStr(iso));
    NormalizeLookup(Put(FirstRow(rows), "timestamp", JStr(iso)), "timestamp");
  }

  /** Every column of the aggregate row other than `timestamp` reads as the
      normalised column. */
  lemma SnapshotColumns(rows: seq<Row>, iso: string, k: string)
    requires k != "timestamp"
    ensures Lookup(FirstRow(rows), k).None? ==> Lookup(Snapshot(rows, iso).fields, k).None?
    ensures Lookup(FirstRow(rows), k).Some? ==>
              Lookup(Snapshot(rows, iso).fields, k) == Some(Normalize(Lookup(FirstRow(rows), k).value))
  {
    var fs := Put(FirstRow(rows), "timestamp", JStr(iso));
    LookupPutOther(FirstRow(rows), "timestamp", JStr(iso), k);
    NormalizeLookup(fs, k);
  }

  /** The snapshot taken at the instant whose ISO text is `iso`. */
  function SnapshotAt(iso: string): seq<Row> -> J {
    rows => Snapshot(rows, iso)
  }

  /** `getDashboardStats()`: key `dashboard_stats`, TTL 60; the snapshot,
      stamped with the instant of the fill, is written unconditionally. */
  function GetDashboardStats(c: Cache, env: Env, f: Faults): (r: Reply)
    ensures r.cache - {DashboardStatsKey} == c - {DashboardStatsKey}
    ensures Served(c, env, f, DashboardStats) ==> r == Reply(Resolved(Cached(c, env, f, DashboardStats)), c, [])
    ensures !Served(c, env, f, DashboardStats) ==> r.queries == [DashboardStats]
    ensures !Served(c, env, f, DashboardStats) && env.db(DashboardStats).Rows? ==>
              var v := Snapshot(env.db(DashboardStats).rows, env.clock.iso);
              && r.outcome == Resolved(v)
              && r.cache == if f.onSet then c
                            else c[DashboardStatsKey := Entry(Text(Encode(v)), DashboardStatsTtl, env.clock.secs)]
    ensures r.outcome.Rejected? <==> !Served(c, env, f, DashboardStats) && env.db(DashboardStats).QueryFailed?
    ensures r.outcome.Rejected? ==> r.cache == c
  {
    assert KeyOf(DashboardStats) == Some(DashboardStatsKey);
    if !Served(c, env, f, DashboardStats) && env.db(DashboardStats).Rows? then
      DashboardFill(c, env, f);
      Step(c, env, f, DashboardStats, DashboardStatsTtl, SnapshotAt(env.clock.iso), Always)
    else
      Step(c, env, f, DashboardStats, DashboardStatsTtl, SnapshotAt(env.clock.iso), Always)
  }

  /** On a miss the snapshot, free of bigints, is what is written. */
  lemma DashboardFill(c: Cache, env: Env, f: Faults)
    requires !Served(c, env, f, DashboardStats) && env.db(DashboardStats).Rows?
    ensures var v := Snapshot(env.db(DashboardStats).rows, env.clock.iso);
      var r := Step(c, env, f, DashboardStats, DashboardStatsTtl, SnapshotAt(env.clock.iso), Always);
      && r.outcome == Resolved(v)
      && r.cache == if f.onSet then c
                    else c[DashboardStatsKey := Entry(Text(Encode(v)), DashboardStatsTtl, env.clock.secs)]
  {
    var rows := env.db(DashboardStats).rows;
    var v := Snapshot(rows, env.clock.iso);
    assert SnapshotAt(env.clock.iso)(rows) == v;
    SnapshotTimestamp(rows, env.clock.iso);
    assert ToWire(v) == Some(Encode(v));
  }

  /** The snapshot time is fixed when the cache is filled: until the entry
      expires, later calls report the instant of the fill, not their own. */
  lemma DashboardStatsKeepFillTime(c: Cache, env: Env, f: Faults, env': Env, getFault': bool)
    requires !Served(c, env, f, DashboardStats) && !f.onSet && env.db(DashboardStats).Rows?
    requires env.clock.secs <= env'.clock.secs < env.clock.secs + DashboardStatsTtl
    ensures var first := GetDashboardStats(c, env, f);
      var second := GetDashboardStats(first.cache, env', Faults(false, getFault'));
      && second.queries == []
      && second.outcome.Resolved? && second.outcome.value.JObj?
      && Lookup(second.outcome.value.fields, "timestamp") == Some(JStr(env.clock.iso))
  {
    var v := Snapshot(env.db(DashboardStats).rows, env.clock.iso);
    SnapshotTimestamp(env.db(DashboardStats).rows, env.clock.iso);
    EncodeLookup(v.fields, "timestamp");
    StepRepeats(c, env, f, DashboardStats, DashboardStatsTtl,
                SnapshotAt(env.clock.iso), Always, env', getFault', SnapshotAt(env'.clock.iso), Always);
  }

  /** An empty list of recent withdrawals is cached like any other: `[]` is
      truthy, so until it expires it is served without a query. */
  lemma EmptyRecentIsCached(c: Cache, env: Env, f: Faults, limit: int, env': Env, getFault': bool)
    requires !Served(c, env, f, RecentWithdrawals(limit)) && !f.onSet
    requires env.db(RecentWithdrawals(limit)) == Rows([])
    requires env.clock.secs <= env'.clock.secs < env.clock.secs + FindRecentTtl
    ensures var first := FindRecent(c, env, f, limit);
      FindRecent(first.cache, env', Faults(false, getFault'), limit) == Reply(Resolved(JArr([])), first.cache, [])
  {
    StepRepeats(c, env, f, RecentWithdrawals(limit), FindRecentTtl, NormalizedRows, Always,
                env', getFault', NormalizedRows, Always);
  }

  /** Each limit has its own entry: filling the recent withdrawals for one
      limit never changes what another limit reads. */
  lemma FindRecentSeparatesLimits(c: Cache, env: Env, f: Faults, a: int, b: int, now: int, g: bool)
    requires a != b
    ensures Get(FindRecent(c, env, f, a).cache, now, RecentWithdrawalsKey(b), g)
         == Get(c, now, RecentWithdrawalsKey(b), g)
  {
    if RecentWithdrawalsKey(a) == RecentWithdrawalsKey(b) {
      KeyOfInjective(RecentWithdrawals(a), RecentWithdrawals(b));
    }
    var c' := FindRecent(c, env, f, a).cache;
    assert RecentWithdrawalsKey(b) in c' - {RecentWithdrawalsKey(a)} <==> RecentWithdrawalsKey(b) in c - {RecentWithdrawalsKey(a)};
  }

  /** The withdrawal reads keep the cache well typed, and the cached ones
      then return arrays and an object. */
  lemma FindRecentWellTyped(c: Cache, env: Env, f: Faults, limit: int)
    requires WellTyped(c)
    ensures var r := FindRecent(c, env, f, limit);
      WellTyped(r.cache) && (r.outcome.Resolved? ==> r.outcome.value.JArr?)
  {
    StepKeepsWellTyped(c, env, f, RecentWithdrawals(limit), FindRecentTtl, NormalizedRows, Always);
  }

  lemma CountByStatusWellTyped(c: Cache, env: Env, f: Faults)
    requires WellTyped(c)
    ensures var r := CountByStatus(c, env, f);
      WellTyped(r.cache) && (r.outcome.Resolved? ==> r.outcome.value.JArr?)
  {
    StepKeepsWellTyped(c, env, f, WithdrawalsByStatus, CountByStatusTtl, NormalizedRows, Always);
  }

  lemma DashboardStatsWellTyped(c: Cache, env: Env, f: Faults)
    requires WellTyped(c)
    ensures var r := GetDashboardStats(c, env, f);
      WellTyped(r.cache) && (r.outcome.Resolved? ==> r.outcome.value.JObj?)
  {
    var shape := SnapshotAt(env.clock.iso);
    forall rows | Always(rows)
      ensures HasKind(shape(rows), KindOf(DashboardStats))
    {
      assert shape(rows) == Snapshot(rows, env.clock.iso);
    }
    StepKeepsWellTyped(c, env, f, DashboardStats, DashboardStatsTtl, shape, Always);
  }
}
