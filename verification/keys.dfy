/**
  The cache-key scheme of the accessors: a key is derived from the query it
  caches, from the operation's name and its parameters, and no two cached
  reads share a key.
 */
module Keys {
  import opened Wrappers
  import opened Store

  function DigitChar(d: nat): char
    requires d < 10
  {
    "0123456789"[d]
  }

  /** Decimal digits of a natural number, most significant first. */
  function Digits(n: nat): (s: string)
    ensures |s| > 0
    ensures forall i | 0 <= i < |s| :: '0' <= s[i] <= '9'
    decreases n
  {
    if n < 10 then [DigitChar(n)] else Digits(n / 10) + [DigitChar(n % 10)]
  }

  /** Reads a string of decimal digits back as a number. */
  function ParseDigits(s: string): nat
    requires forall i | 0 <= i < |s| :: '0' <= s[i] <= '9'
  {
    if |s| == 0 then 0 else ParseDigits(s[..|s| - 1]) * 10 + (s[|s| - 1] - '0') as nat
  }

  /** `Digits` loses nothing: reading the digits back gives the number. */
  lemma {:induction false} ParseDigitsOfDigits(n: nat)
    ensures ParseDigits(Digits(n)) == n
  {
    var s := Digits(n);
    if n < 10 {
      assert s[..0] == [];
    } else {
      assert s[..|s| - 1] == Digits(n / 10);
      ParseDigitsOfDigits(n / 10);
    }
  }

  /** A template literal `${n}` of an integral number. */
  function Decimal(n: int): (s: string)
    ensures |s| > 0
    ensures s[0] == '-' <==> n < 0
  {
    if n < 0 then "-" + Digits(-n) else Digits(n)
  }

  /** Different natural numbers have different digits. */
  lemma DigitsInjective(x: nat, y: nat)
    requires Digits(x) == Digits(y)
    ensures x == y
  {
    ParseDigitsOfDigits(x);
    ParseDigitsOfDigits(y);
  }

  /** Different numbers render differently. */
  lemma DecimalInjective(a: int, b: int)
    requires Decimal(a) == Decimal(b)
    ensures a == b
  {
    if a < 0 {
      assert b < 0;
      NegativeDecimal(a);
      NegativeDecimal(b);
      DigitsInjective(-a, -b);
    } else {
      DigitsInjective(a, b);
    }
  }

  /** A negative number renders as a minus sign before its magnitude's digits. */
  lemma NegativeDecimal(n: int)
    requires n < 0
    ensures Decimal(n)[1..] == Digits(-n)
  {
    assert ("-" + Digits(-n))[1..] == Digits(-n);
  }

  function UserKey(id: string): string { "user:" + id }

  function RecentWithdrawalsKey(limit: int): string { "recent_withdrawals:" + Decimal(limit) }

  const UsersCountKey: string := "users_count"
  const UsersByStatusKey: string := "users_by_status"
  const WithdrawalsByStatusKey: string := "withdrawals_by_status"
  const DashboardStatsKey: string := "dashboard_stats"
  const TotalPlatformBalanceKey: string := "total_platform_balance"

  /** The key of the `/cached-data` example endpoint. */
  const ExampleDataKey: string := "cached_example_data"

  /** The cache key of a cached read; None for the reads that go straight to
      the store (by email, a page of users, and the per-user withdrawals and
      balance). */
  function KeyOf(q: Query): (k: Option<string>)
    ensures k.None? <==> q.UserByEmail? || q.UsersPage? || q.WithdrawalsByUser? || q.BalanceByUser?
  {
    match q
    case UserById(id) => Some(UserKey(id))
    case UsersCount => Some(UsersCountKey)
    case UsersByStatus => Some(UsersByStatusKey)
    case RecentWithdrawals(limit) => Some(RecentWithdrawalsKey(limit))
    case WithdrawalsByStatus => Some(WithdrawalsByStatusKey)
    case DashboardStats => Some(DashboardStatsKey)
    case TotalBalance => Some(TotalPlatformBalanceKey)
    case _ => None
  }

  /** No two cached reads share a key, so one read's fill can never be served
      as another read's hit. */
  lemma KeyOfInjective(a: Query, b: Query)
    requires KeyOf(a).Some? && KeyOf(a) == KeyOf(b)
    ensures a == b
  {
    // Each fixed key, "user:..." and "recent_withdrawals:..." already differ
    // from one another within their first five characters.
    var k := KeyOf(a).value;
    KeyHead(a);
    KeyHead(b);
    if a.UserById? {
      assert UserKey(a.id)[5..] == a.id && UserKey(b.id)[5..] == b.id;
    } else if a.RecentWithdrawals? {
      assert RecentWithdrawalsKey(a.limit)[19..] == Decimal(a.limit);
      assert RecentWithdrawalsKey(b.limit)[19..] == Decimal(b.limit);
      DecimalInjective(a.limit, b.limit);
    }
  }

  /** The first five characters of a cached read's key name its operation. */
  lemma KeyHead(q: Query)
    requires KeyOf(q).Some?
    ensures |KeyOf(q).value| >= 5
    ensures KeyOf(q).value[..5] == match q
      case UserById(_) => "user:"
      case UsersCount => "users"
      case UsersByStatus => "users"
      case RecentWithdrawals(_) => "recen"
      case WithdrawalsByStatus => "withd"
      case DashboardStats => "dashb"
      case _ => "total"
    ensures q.UsersCount? || q.UsersByStatus? ==> KeyOf(q).value[..6] == "users_" && KeyOf(q).value[6] == (if q.UsersCount? then 'c' else 'b')
  {
  }

  /** The example endpoint's key is not the key of any accessor. */
  lemma ExampleKeyIsFree(q: Query)
    ensures KeyOf(q) != Some(ExampleDataKey)
  {
    if q.UserById? {
      assert UserKey(q.id)[0] == 'u';
    } else if q.RecentWithdrawals? {
      assert RecentWithdrawalsKey(q.limit)[0] == 'r';
    }
  }
}
