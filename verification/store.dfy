/**
  The relational store as the accessors see it: every parameterised query of
  src/core/database/models.ts, and an uninterpreted answer per query. What a
  query returns (filtering, ordering, COUNT, GROUP BY, COALESCE(SUM(...))) is
  the database's business; the model takes it as given. A query may fail
  (connectivity or a rejected statement); models.ts catches nothing, so the
  failure rejects the accessor.
 */
module Store {
  import opened Json

  /** A result row: column name to driver value, in column order. */
  type Row = seq<(string, J)>

  datatype Query =
    | UserById(id: string)                      // SELECT * FROM users WHERE id = $1
    | UserByEmail(email: string)                // SELECT * FROM users WHERE email = $1
    | UsersPage(limit: int, offset: int)        // ... ORDER BY created_at DESC LIMIT $1 OFFSET $2
    | UsersCount                                // SELECT COUNT(*) as count FROM users
    | UsersByStatus                             // SELECT status, COUNT(*) ... GROUP BY status
    | WithdrawalsByUser(userId: string)         // SELECT * FROM withdrawals WHERE user_id = $1 ...
    | RecentWithdrawals(limit: int)             // SELECT * FROM withdrawals ... LIMIT $1
    | WithdrawalsByStatus                       // SELECT status, COUNT(*) ... GROUP BY status
    | DashboardStats                            // the six sub-select aggregate
    | BalanceByUser(userId: string)             // SELECT * FROM user_balances WHERE user_id = $1
    | TotalBalance                              // SELECT COALESCE(SUM(balance), 0) as total ...

  datatype Answer = Rows(rows: seq<Row>) | QueryFailed

  type Db = Query -> Answer

  /** `rows[0] || null`: the first row as an object, or null when there is none. */
  function FirstOrNull(rows: seq<Row>): (r: J)
    ensures r == JNull <==> |rows| == 0
    ensures |rows| > 0 ==> r == JObj(rows[0])
  {
    if |rows| == 0 then JNull else JObj(rows[0])
  }

  /** The result set as the array of row objects the driver hands back. */
  function RowsValue(rows: seq<Row>): (r: J)
    ensures r.JArr? && |r.items| == |rows|
    ensures forall i | 0 <= i < |rows| :: r.items[i] == JObj(rows[i])
  {
    JArr(seq(|rows|, i requires 0 <= i < |rows| => JObj(rows[i])))
  }
}
