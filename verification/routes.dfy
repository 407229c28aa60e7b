/**
  The pure part of the dashboard route handlers of dist/index.js: the request
  arithmetic (page, limit, offset, page count), the status whitelist with its
  filter and truncation, the response bodies, and the `/cached-data` example
  endpoint. Each handler runs its accessors one after another over the same
  cache; a rejected accessor rejects the handler, whose error then goes to the
  framework's error hook.
 */
module Routes {
  import opened Wrappers
  import opened Json
  import opened Normalizer
  import opened CacheService
  import opened Store
  import opened Keys
  import opened CacheAside
  import UserModel
  import WithdrawalModel
  import UserBalanceModel

  function Min(a: int, b: int): int {
    if a < b then a else b
  }

  /** How a handler's promise settles: with a response body, or with the
      error of a rejected accessor, which the framework's error hook turns
      into an error response. */
  datatype Response<T> = Ok(body: T) | Failed

  /** One request: the response, the cache afterwards, and the queries sent
      to the store, in order. */
  datatype Handled<T> = Handled(response: Response<T>, cache: Cache, queries: seq<Query>)

  // ---------------------------------------------------------------------
  // GET /dashboard/users

  const DefaultPage: int := 1
  const DefaultUsersLimit: int := 50
  const MaxUsersLimit: int := 100

  datatype Paging = Paging(page: int, limit: int, offset: int)

  /** `page` and `limit` of the query string, already through `parseInt`;
      None when the parameter is absent or empty. The page defaults to 1, the
      limit to 50 and is capped at 100, and the offset skips the rows of every
      earlier page. */
  function PageParams(page: Option<int>, limit: Option<int>): (p: Paging)
    ensures p.page == page.GetOr(DefaultPage)
    ensures p.limit <= MaxUsersLimit && p.limit <= limit.GetOr(DefaultUsersLimit)
    ensures p.limit == limit.GetOr(DefaultUsersLimit) || p.limit == MaxUsersLimit
    ensures p.offset == (p.page - 1) * p.limit
  {
    var pg := page.GetOr(DefaultPage);
    var lim := Min(limit.GetOr(DefaultUsersLimit), MaxUsersLimit);
    Paging(pg, lim, (pg - 1) * lim)
  }

  /** Page `n + 1` starts exactly where page `n` ends. */
  lemma NextPageFollows(n: int, limit: Option<int>)
    ensures PageParams(Some(n + 1), limit).offset
         == PageParams(Some(n), limit).offset + PageParams(Some(n), limit).limit
  {
  }

  /** `Math.ceil(total / limit)` for a non-zero limit. */
  function CeilDiv(total: int, limit: int): (r: int)
    requires limit != 0
    ensures limit > 0 ==> (r - 1) * limit < total <= r * limit
    ensures limit < 0 ==> r * limit <= total < (r - 1) * limit
  {
    if limit > 0 then
      var q := (-total) / limit;
      assert (-q - 1) * limit == -(q * limit) - limit;
      -q
    else
      var q := total / (-limit);
      assert (-q - 1) * limit == q * (-limit) + (-limit);
      -q
  }

  /** `pages` of the pagination block: the page count, or null (what JSON
      makes of Infinity and NaN) when the limit is zero. */
  function Pages(total: int, limit: int): (r: J)
    ensures limit == 0 <==> r == JNull
    ensures limit != 0 ==> r.JNum?
    ensures limit > 0 ==> (r.n - 1) * limit < total <= r.n * limit
  {
    if limit == 0 then JNull else JNum(CeilDiv(total, limit))
  }

  /** No rows make no pages; any row makes at least one. */
  lemma PageCountSign(total: int, limit: int)
    requires limit > 0
    ensures total == 0 ==> Pages(total, limit) == JNum(0)
    ensures total > 0 ==> Pages(total, limit).n >= 1
  {
    var n := Pages(total, limit).n;
    if n >= 1 {
      assert n * limit >= limit by { assert n * limit - limit == (n - 1) * limit; PositiveProduct(n - 1, limit); }
    } else {
      assert n * limit <= 0 by { PositiveProduct(-n, limit); }
      if n <= -1 {
        assert (n - 1) * limit < 0 by { PositiveProduct(-n, limit); }
      }
    }
  }

  lemma PositiveProduct(a: int, b: int)
    requires a >= 0 && b > 0
    ensures a * b >= 0
  {
  }

  /** A page holds rows exactly when its number is at most the page count:
      page `p` skips `(p - 1) * limit` rows, fewer than the total precisely
      when `p <= ceil(total / limit)`. */
  lemma {:induction false} PageHoldsRows(total: int, limit: int, page: int)
    requires limit > 0
    ensures (page - 1) * limit < total <==> page <= Pages(total, limit).n
  {
    var n := Pages(total, limit).n;
    if page <= n {
      assert (page - 1) * limit <= (n - 1) * limit by {
        assert (n - 1) * limit - (page - 1) * limit == (n - page) * limit;
        PositiveProduct(n - page, limit);
      }
    } else {
      assert (page - 1) * limit >= n * limit by {
        assert (page - 1) * limit - n * limit == (page - 1 - n) * limit;
        PositiveProduct(page - 1 - n, limit);
      }
    }
  }

  /** The body of `/dashboard/users`. */
  datatype UsersListing = UsersListing(users: J, total: J, byStatus: J, paging: Paging, pages: J)

  /** `Math.ceil(total / limit)` of whatever the count read returned. The
      model gives null for a total that is not a number and does not compute
      JavaScript's coercion of such a total. */
  function PagesOf(total: J, limit: int): (r: J)
    ensures !total.JNum? || limit == 0 ==> r == JNull
    ensures total.JNum? && limit > 0 ==> r.JNum? && (r.n - 1) * limit < total.n <= r.n * limit
    ensures total.JNum? && limit < 0 ==> r.JNum? && r.n * limit <= total.n < (r.n - 1) * limit
  {
    if total.JNum? then Pages(total.n, limit) else JNull
  }

  /** `GET /dashboard/users`: a page of users, the user count and the count
      per status. */
  function UsersRoute(c: Cache, env: Env, fCount: Faults, fStatus: Faults,
                      page: Option<int>, limit: Option<int>): (r: Handled<UsersListing>)
    ensures var p := PageParams(page, limit);
      |r.queries| >= 1 && r.queries[0] == UsersPage(p.limit, p.offset)
    ensures var p := PageParams(page, limit);
      var users := UserModel.FindPaginated(c, env, p.limit, p.offset);
      var total := UserModel.Count(c, env, fCount);
      var byStatus := UserModel.CountByStatus(total.cache, env, fStatus);
      && r.cache == byStatus.cache
      && (r.response.Ok? <==> users.outcome.Resolved? && total.outcome.Resolved? && byStatus.outcome.Resolved?)
      && (r.response.Ok? ==>
            && users.outcome.Resolved? && total.outcome.Resolved? && byStatus.outcome.Resolved?
            && r.response.body.users == users.outcome.value
            && r.response.body.total == total.outcome.value
            && r.response.body.byStatus == byStatus.outcome.value)
    ensures r.cache - {UsersCountKey, UsersByStatusKey} == c - {UsersCountKey, UsersByStatusKey}
    ensures r.response.Ok? ==>
              var b := r.response.body;
              && b.paging == PageParams(page, limit)
              && (b.total.JNum? && b.paging.limit > 0 ==>
                    b.pages.JNum? && (b.pages.n - 1) * b.paging.limit < b.total.n <= b.pages.n * b.paging.limit)
              && (b.paging.limit == 0 ==> b.pages == JNull)
  {
    var p := PageParams(page, limit);
    var users := UserModel.FindPaginated(c, env, p.limit, p.offset);
    var total := UserModel.Count(users.cache, env, fCount);
    var byStatus := UserModel.CountByStatus(total.cache, env, fStatus);
    FrameTwoKeys(c, total.cache, byStatus.cache, UsersCountKey, UsersByStatusKey);
    var queries := users.queries + total.queries + byStatus.queries;
    if users.outcome.Rejected? || total.outcome.Rejected? || byStatus.outcome.Rejected? then
      Handled(Failed, byStatus.cache, queries)
    else
      var t := total.outcome.value;
      Handled(Ok(UsersListing(users.outcome.value, t, byStatus.outcome.value, p, PagesOf(t, p.limit))),
              byStatus.cache, queries)
  }

  /** Two writes, each confined to its own key, change nothing but those keys. */
  lemma FrameTwoKeys(c: Cache, c1: Cache, c2: Cache, a: string, b: string)
    requires c1 - {a} == c - {a} && c2 - {b} == c1 - {b}
    ensures c2 - {a, b} == c - {a, b}
  {
    assert c2 - {a, b} == (c2 - {b}) - {a};
    assert c - {a, b} == (c - {a}) - {b};
    assert c1 - {a, b} == (c1 - {a}) - {b} == (c1 - {b}) - {a};
  }

  /** The handler fails exactly when one of its three reads goes to the
      store and the store fails it. */
  lemma UsersRouteFails(c: Cache, env: Env, fCount: Faults, fStatus: Faults,
                        page: Option<int>, limit: Option<int>)
    ensures UsersRoute(c, env, fCount, fStatus, page, limit).response.Failed? <==>
              || env.db(UsersPage(PageParams(page, limit).limit, PageParams(page, limit).offset)).QueryFailed?
              || (!Served(c, env, fCount, UsersCount) && env.db(UsersCount).QueryFailed?)
              || (!Served(c, env, fStatus, UsersByStatus) && env.db(UsersByStatus).QueryFailed?)
  {
    StatusKeyUntouched(c, env, fCount, fStatus);
  }

  /** The count read does not change whether the status read is served. */
  lemma StatusKeyUntouched(c: Cache, env: Env, fCount: Faults, fStatus: Faults)
    ensures Served(UserModel.Count(c, env, fCount).cache, env, fStatus, UsersByStatus)
         == Served(c, env, fStatus, UsersByStatus)
  {
    var c' := UserModel.Count(c, env, fCount).cache;
    assert UsersByStatusKey in c' <==> UsersByStatusKey in c by {
      assert UsersByStatusKey in c' - {UsersCountKey} <==> UsersByStatusKey in c - {UsersCountKey};
    }
    if UsersByStatusKey in c {
      assert c'[UsersByStatusKey] == c[UsersByStatusKey] by {
        assert UsersByStatusKey in c' - {UsersCountKey};
      }
    }
  }

  /** With a well-typed cache the count is always a number and the status
      breakdown an array, so a positive limit always yields a page count. */
  lemma UsersRouteWellTyped(c: Cache, env: Env, fCount: Faults, fStatus: Faults,
                            page: Option<int>, limit: Option<int>)
    requires WellTyped(c)
    ensures var r := UsersRoute(c, env, fCount, fStatus, page, limit);
      && WellTyped(r.cache)
      && (r.response.Ok? ==>
            && r.response.body.total.JNum?
            && r.response.body.byStatus.JArr?
            && (r.response.body.paging.limit > 0 ==> r.response.body.pages.JNum?))
  {
    UserModel.UserReadsWellTyped(c, env, fCount, "");
    var total := UserModel.Count(c, env, fCount);
    UserModel.UserReadsWellTyped(total.cache, env, fStatus, "");
  }

  /** The two cached reads of the handler touch different keys and neither
      sees the other's write, so the order in which they run (they are
      started together) changes nothing. */
  lemma CountsCommute(c: Cache, env: Env, fCount: Faults, fStatus: Faults)
    ensures var a1 := UserModel.Count(c, env, fCount);
      var a2 := UserModel.CountByStatus(a1.cache, env, fStatus);
      var b2 := UserModel.CountByStatus(c, env, fStatus);
      var b1 := UserModel.Count(b2.cache, env, fCount);
      a2.cache == b1.cache && a1.outcome == b1.outcome && a2.outcome == b2.outcome
  {
    StatusKeyUntouched(c, env, fCount, fStatus);
    CountKeyUntouched(c, env, fCount, fStatus);
    if !Served(c, env, fCount, UsersCount) && env.db(UsersCount).Rows?
       && !Served(c, env, fStatus, UsersByStatus) && env.db(UsersByStatus).Rows? {
      SetsCommute(c, env.clock.secs, UsersCountKey, UserModel.CountValue(env.db(UsersCount).rows),
                  Some(UserModel.CountTtl), fCount.onSet,
                  UsersByStatusKey, NormalizedRows(env.db(UsersByStatus).rows),
                  Some(UserModel.CountByStatusTtl), fStatus.onSet);
    }
  }

  /** The status read does not change whether the count read is served. */
  lemma CountKeyUntouched(c: Cache, env: Env, fCount: Faults, fStatus: Faults)
    ensures Served(UserModel.CountByStatus(c, env, fStatus).cache, env, fCount, UsersCount)
         == Served(c, env, fCount, UsersCount)
  {
    var c' := UserModel.CountByStatus(c, env, fStatus).cache;
    assert UsersCountKey in c' <==> UsersCountKey in c by {
      assert UsersCountKey in c' - {UsersByStatusKey} <==> UsersCountKey in c - {UsersByStatusKey};
    }
    if UsersCountKey in c {
      assert c'[UsersCountKey] == c[UsersCountKey] by {
        assert UsersCountKey in c' - {UsersByStatusKey};
      }
    }
  }

  // ---------------------------------------------------------------------
  // GET /dashboard/withdrawals

  const DefaultRecentLimit: int := 100
  const MaxRecentLimit: int := 500

  /** The limit defaults to 100 and is capped at 500. */
  function RecentLimit(limit: Option<int>): (l: int)
    ensures l <= MaxRecentLimit && l <= limit.GetOr(DefaultRecentLimit)
    ensures l == limit.GetOr(DefaultRecentLimit) || l == MaxRecentLimit
  {
    Min(limit.GetOr(DefaultRecentLimit), MaxRecentLimit)
  }

  /** `v.length`: the element count of an array, the length of a string,
      the `length` property of an object (undefined when it has none), and
      undefined for a number or a boolean. */
  function LengthOf(v: J): (r: J)
    requires !Nullish(v)
    ensures v.JArr? ==> r == JNum(|v.items|)
    ensures v.JStr? ==> r == JNum(|v.s|)
    ensures v.JObj? ==> r == Lookup(v.fields, "length").GetOr(JUndef)
    ensures !v.JArr? && !v.JStr? && !v.JObj? ==> r == JUndef
  {
    match v
    case JArr(xs) => JNum(|xs|)
    case JStr(s) => JNum(|s|)
    case JObj(fs) => Lookup(fs, "length").GetOr(JUndef)
    case _ => JUndef
  }

  /** The body of `/dashboard/withdrawals`. */
  datatype RecentListing = RecentListing(withdrawals: J, total: J)

  /** `GET /dashboard/withdrawals`: the recent withdrawals and their number. */
  function WithdrawalsRoute(c: Cache, env: Env, f: Faults, limit: Option<int>): (r: Handled<RecentListing>)
    ensures var w := WithdrawalModel.FindRecent(c, env, f, RecentLimit(limit));
      && r.cache == w.cache && r.queries == w.queries
      && (r.response.Failed? <==> w.outcome.Rejected?)
      && (r.response.Ok? ==>
            && r.response.body.withdrawals == w.outcome.value
            && (w.outcome.value.JArr? ==> r.response.body.total == JNum(|w.outcome.value.items|)))
  {
    var w := WithdrawalModel.FindRecent(c, env, f, RecentLimit(limit));
    match w.outcome
    case Rejected => Handled(Failed, w.cache, w.queries)
    case Resolved(v) => Handled(Ok(RecentListing(v, LengthOf(v))), w.cache, w.queries)
  }

  /** With a well-typed cache the list is always an array, so `total` is
      always its length. */
  lemma WithdrawalsRouteTotal(c: Cache, env: Env, f: Faults, limit: Option<int>)
    requires WellTyped(c)
    ensures var r := WithdrawalsRoute(c, env, f, limit);
      r.response.Ok? ==>
        && r.response.body.withdrawals.JArr?
        && r.response.body.total == JNum(|r.response.body.withdrawals.items|)
  {
    WithdrawalModel.FindRecentWellTyped(c, env, f, RecentLimit(limit));
  }

  // ---------------------------------------------------------------------
  // GET /dashboard/withdrawals/status/:status

  const ValidStatuses: seq<string> := ["pending", "completed", "failed"]
  const StatusScanLimit: int := 1000
  const MaxStatusResults: int := 100

  /** `w.status === status`. */
  predicate HasStatus(w: J, status: string)
    ensures HasStatus(w, status) ==> w.JObj? && "status" in FieldNames(w.fields) && !Nullish(w)
  {
    w.JObj? && Lookup(w.fields, "status") == Some(JStr(status))
  }

  /** Reading a property of null or undefined throws. */
  predicate Nullish(w: J) {
    w == JNull || w == JUndef
  }

  /** `v.filter(w => w.status === status)` runs to the end: `v` is an array
      (anything else has no `filter`) and none of its elements is nullish. */
  predicate Filterable(v: J)
    ensures Filterable(v) <==> v.JArr? && JNull !in v.items && JUndef !in v.items
  {
    v.JArr? && forall i | 0 <= i < |v.items| :: !Nullish(v.items[i])
  }

  /** `xs.filter(w => w.status === status)` over elements that are not
      nullish: the elements with that status, in their order, each as often
      as in `xs`. */
  function FilterByStatus(xs: seq<J>, status: string): (r: seq<J>)
    ensures |r| <= |xs|
    ensures forall i | 0 <= i < |r| :: HasStatus(r[i], status)
    ensures forall x :: multiset(r)[x] == if HasStatus(x, status) then multiset(xs)[x] else 0
  {
    if |xs| == 0 then []
    else
      assert xs == [xs[0]] + xs[1..];
      if HasStatus(xs[0], status) then [xs[0]] + FilterByStatus(xs[1..], status)
      else FilterByStatus(xs[1..], status)
  }

  /** Filtering a concatenation filters each part. */
  lemma {:induction false} FilterConcat(xs: seq<J>, ys: seq<J>, status: string)
    ensures FilterByStatus(xs + ys, status) == FilterByStatus(xs, status) + FilterByStatus(ys, status)
  {
    if |xs| == 0 {
      assert xs + ys == ys;
    } else {
      var zs := xs + ys;
      assert zs[0] == xs[0] && zs[1..] == xs[1..] + ys;
      FilterConcat(xs[1..], ys, status);
      if HasStatus(xs[0], status) {
        calc {
          FilterByStatus(zs, status);
          [xs[0]] + FilterByStatus(xs[1..] + ys, status);
          [xs[0]] + (FilterByStatus(xs[1..], status) + FilterByStatus(ys, status));
          ([xs[0]] + FilterByStatus(xs[1..], status)) + FilterByStatus(ys, status);
        }
      }
    }
  }

  /** A list whose every element has the status is kept whole. */
  lemma {:induction false} FilterKeepsMatching(xs: seq<J>, status: string)
    requires forall i | 0 <= i < |xs| :: HasStatus(xs[i], status)
    ensures FilterByStatus(xs, status) == xs
  {
    if |xs| > 0 {
      FilterKeepsMatching(xs[1..], status);
    }
  }

  /** The body of `/dashboard/withdrawals/status/:status`. */
  datatype StatusListing =
    | InvalidStatus
    | ByStatus(status: string, withdrawals: seq<J>, total: int)

  /** The 1000 most recent withdrawals, as the status handler reads them. */
  function Scan(c: Cache, env: Env, f: Faults): Reply {
    WithdrawalModel.FindRecent(c, env, f, StatusScanLimit)
  }

  /** `GET /dashboard/withdrawals/status/:status`: an unknown status is
      refused without touching the cache or the store; a known one scans the
      1000 most recent withdrawals and returns the first 100 with that status,
      together with how many there were. */
  function StatusRoute(c: Cache, env: Env, f: Faults, status: string): (r: Handled<StatusListing>)
    ensures status !in ValidStatuses ==> r == Handled(Ok(InvalidStatus), c, [])
    ensures status in ValidStatuses ==>
              && r.cache == Scan(c, env, f).cache && r.queries == Scan(c, env, f).queries
              && (r.response.Failed? <==>
                    Scan(c, env, f).outcome.Rejected? || !Filterable(Scan(c, env, f).outcome.value))
    ensures status in ValidStatuses && r.response.Ok? ==>
              var matching := FilterByStatus(Scan(c, env, f).outcome.value.items, status);
              && r.response.body.ByStatus?
              && r.response.body.status == status
              && |r.response.body.withdrawals| <= MaxStatusResults
              && (forall i | 0 <= i < |r.response.body.withdrawals| :: HasStatus(r.response.body.withdrawals[i], status))
              && r.response.body.total == |matching|
              && r.response.body.withdrawals == matching[..Min(|matching|, MaxStatusResults)]
              && |r.response.body.withdrawals| == Min(|matching|, MaxStatusResults)
              && (|matching| <= MaxStatusResults ==> r.response.body.withdrawals == matching)
  {
    if status !in ValidStatuses then Handled(Ok(InvalidStatus), c, [])
    else
      var w := Scan(c, env, f);
      match w.outcome
      case Rejected => Handled(Failed, w.cache, w.queries)
      case Resolved(v) =>
        if !Filterable(v) then Handled(Failed, w.cache, w.queries)
        else
          var matching := FilterByStatus(v.items, status);
          var shown := matching[..Min(|matching|, MaxStatusResults)];
          FirstResults(matching, status);
          Handled(Ok(ByStatus(status, shown, |matching|)), w.cache, w.queries)
  }

  /** `slice(0, 100)` of a list of matches: at most 100 of them, the first
      ones, all of them when there are no more than 100. */
  lemma FirstResults(matching: seq<J>, status: string)
    requires forall i | 0 <= i < |matching| :: HasStatus(matching[i], status)
    ensures var shown := matching[..Min(|matching|, MaxStatusResults)];
      && |shown| <= MaxStatusResults
      && |shown| == (if |matching| < MaxStatusResults then |matching| else MaxStatusResults)
      && shown <= matching
      && (forall i | 0 <= i < |shown| :: HasStatus(shown[i], status))
      && (|matching| <= MaxStatusResults ==> shown == matching)
  {
  }

  /** On a miss the scan never fails on its elements: each is a normalised
      row, never null. */
  lemma StatusRouteMissResolves(c: Cache, env: Env, f: Faults, status: string)
    requires status in ValidStatuses
    requires !Served(c, env, f, RecentWithdrawals(StatusScanLimit))
    requires env.db(RecentWithdrawals(StatusScanLimit)).Rows?
    ensures StatusRoute(c, env, f, status).response.Ok?
  {
    var v := Scan(c, env, f).outcome.value;
    assert Filterable(v) by {
      assert forall i | 0 <= i < |v.items| :: v.items[i].JObj?;
    }
  }

  // ---------------------------------------------------------------------
  // GET /dashboard/users/:id

  const DefaultBalance: J :=
    JObj([("balance", JNum(0)), ("total_earned", JNum(0)), ("total_withdrawn", JNum(0))])

  /** The body of `/dashboard/users/:id`. */
  datatype UserDetails =
    | UserNotFound
    | UserFound(user: J, balance: J, withdrawals: J, withdrawalCount: J)

  /** `GET /dashboard/users/:id`: the user, their balance (all zeros when
      they have none) and their withdrawals with their number. */
  function UserDetailsRoute(c: Cache, env: Env, f: Faults, id: string): (r: Handled<UserDetails>)
    ensures var u := UserModel.FindById(c, env, f, id);
      && r.cache == u.cache
      && r.queries == u.queries + [BalanceByUser(id), WithdrawalsByUser(id)]
      && (r.response.Failed? <==>
            u.outcome.Rejected? || env.db(BalanceByUser(id)).QueryFailed? || env.db(WithdrawalsByUser(id)).QueryFailed?)
      && (r.response.Ok? ==> (r.response.body.UserNotFound? <==> !Truthy(u.outcome.value)))
    ensures r.response.Ok? && r.response.body.UserFound? ==>
              var balances := env.db(BalanceByUser(id)).rows;
              var withdrawals := env.db(WithdrawalsByUser(id)).rows;
              && r.response.body.user == UserModel.FindById(c, env, f, id).outcome.value
              && r.response.body.balance == (if |balances| == 0 then DefaultBalance else Normalize(JObj(balances[0])))
              && r.response.body.withdrawals == NormalizedRows(withdrawals)
              && r.response.body.withdrawals.JArr?
              && |r.response.body.withdrawals.items| == |withdrawals|
              && r.response.body.withdrawalCount == JNum(|withdrawals|)
  {
    var u := UserModel.FindById(c, env, f, id);
    assert KeyOf(UserById(id)) == Some(UserKey(id));
    var b := UserBalanceModel.FindByUserId(u.cache, env, id);
    var w := WithdrawalModel.FindByUserId(b.cache, env, id);
    var queries := u.queries + b.queries + w.queries;
    if u.outcome.Rejected? || b.outcome.Rejected? || w.outcome.Rejected? then Handled(Failed, w.cache, queries)
    else if !Truthy(u.outcome.value) then Handled(Ok(UserNotFound), w.cache, queries)
    else
      var balance := if Truthy(b.outcome.value) then b.outcome.value else DefaultBalance;
      Handled(Ok(UserFound(u.outcome.value, balance, w.outcome.value, LengthOf(w.outcome.value))), w.cache, queries)
  }

  /** A user that does not exist is reported as not found, and the lookup
      leaves nothing in the cache. */
  lemma UnknownUserNotFound(c: Cache, env: Env, f: Faults, id: string)
    requires !Served(c, env, f, UserById(id)) && env.db(UserById(id)) == Rows([])
    requires env.db(BalanceByUser(id)).Rows? && env.db(WithdrawalsByUser(id)).Rows?
    ensures UserDetailsRoute(c, env, f, id) ==
            Handled(Ok(UserNotFound), c, [UserById(id), BalanceByUser(id), WithdrawalsByUser(id)])
  {
  }

  // ---------------------------------------------------------------------
  // GET /cached-data

  const CachedDataTtl: int := 300

  /** The payload the example endpoint presents as fresh from the database. */
  const FreshData: JsonValue :=
    JObj([("message", JStr("This is fresh data from database")),
          ("items", JArr([JStr("item1"), JStr("item2"), JStr("item3")])),
          ("count", JNum(3))])

  datatype Source = FromCache | FromDatabase

  /** The body of `/cached-data`. */
  datatype CachedData = CachedData(source: Source, data: J, timestamp: string)

  /** `GET /cached-data`: a truthy hit under `cached_example_data` is returned
      as coming from the cache; otherwise the fixed payload is written with a
      TTL of 300 seconds and returned as coming from the database. */
  function CachedDataRoute(c: Cache, clock: Clock, f: Faults): (r: Handled<CachedData>)
    ensures r.queries == [] && r.response.Ok? && r.response.body.timestamp == clock.iso
    ensures r.cache - {ExampleDataKey} == c - {ExampleDataKey}
    ensures Truthy(Get(c, clock.secs, ExampleDataKey, f.onGet)) ==>
              && r.cache == c
              && r.response.body.source == FromCache
              && r.response.body.data == Get(c, clock.secs, ExampleDataKey, f.onGet)
    ensures !Truthy(Get(c, clock.secs, ExampleDataKey, f.onGet)) ==>
              && r.cache == (if f.onSet then c else c[ExampleDataKey := Entry(Text(FreshData), CachedDataTtl, clock.secs)])
              && r.response.body.source == FromDatabase
              && r.response.body.data == FreshData
  {
    var hit := Get(c, clock.secs, ExampleDataKey, f.onGet);
    if Truthy(hit) then Handled(Ok(CachedData(FromCache, hit, clock.iso)), c, [])
    else
      ToWireOfJsonValue(FreshData);
      Handled(Ok(CachedData(FromDatabase, FreshData, clock.iso)),
              Set(c, clock.secs, ExampleDataKey, FreshData, Some(CachedDataTtl), f.onSet), [])
  }

  /** After a miss that wrote the payload, every request until it expires is
      answered from the cache with that same payload. */
  lemma CachedDataRepeats(c: Cache, clock: Clock, f: Faults, clock': Clock, getFault': bool)
    requires !Truthy(Get(c, clock.secs, ExampleDataKey, f.onGet)) && !f.onSet
    requires clock.secs <= clock'.secs < clock.secs + CachedDataTtl
    ensures var first := CachedDataRoute(c, clock, f);
      var second := CachedDataRoute(first.cache, clock', Faults(false, getFault'));
      second == Handled(Ok(CachedData(FromCache, FreshData, clock'.iso)), first.cache, [])
  {
    ToWireOfJsonValue(FreshData);
    GetAfterSet(c, clock.secs, ExampleDataKey, FreshData, Some(CachedDataTtl), clock'.secs);
  }

  /** The example endpoint shares the cache with the accessors but never
      changes what any of them reads. */
  lemma CachedDataLeavesAccessorsAlone(c: Cache, clock: Clock, f: Faults, q: Query, env: Env, g: Faults)
    requires KeyOf(q).Some?
    ensures Cached(CachedDataRoute(c, clock, f).cache, env, g, q) == Cached(c, env, g, q)
  {
    ExampleKeyIsFree(q);
    KeptOutsideExampleKey(c, CachedDataRoute(c, clock, f).cache, KeyOf(q).value);
  }

  /** The example endpoint keeps the cache well typed. */
  lemma CachedDataKeepsWellTyped(c: Cache, clock: Clock, f: Faults)
    requires WellTyped(c)
    ensures WellTyped(CachedDataRoute(c, clock, f).cache)
  {
    var c' := CachedDataRoute(c, clock, f).cache;
    forall q | KeyOf(q).Some? && KeyOf(q).value in c' && c'[KeyOf(q).value].wire.Text?
      ensures HasKind(c'[KeyOf(q).value].wire.doc, KindOf(q))
    {
      ExampleKeyIsFree(q);
      KeptOutsideExampleKey(c, c', KeyOf(q).value);
    }
  }

  lemma KeptOutsideExampleKey(c: Cache, c': Cache, key: string)
    requires c' - {ExampleDataKey} == c - {ExampleDataKey} && key != ExampleDataKey
    ensures key in c' <==> key in c
    ensures key in c ==> c'[key] == c[key]
  {
    assert key in c' <==> key in c' - {ExampleDataKey};
    assert key in c <==> key in c - {ExampleDataKey};
  }
}
