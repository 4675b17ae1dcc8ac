/** The `linked_users` table: rows of (Discord id as `i64`, Geometry Dash
    account id). The table's schema makes each column unique on its own, so a
    Discord user links to at most one account and an account to at most one
    Discord user. The handler only ever inserts into it. */
module LinkStore {
  import opened Primitives

  datatype Row = Row(user: I64, account: I32)

  /** The schema's two uniqueness constraints. */
  ghost predicate Unique(rows: set<Row>)
  {
    forall r, s :: r in rows && s in rows && (r.user == s.user || r.account == s.account) ==> r == s
  }

  /** A new row for (user, account) would violate a uniqueness constraint. */
  predicate Clashes(rows: set<Row>, user: I64, account: I32)
  {
    exists r :: r in rows && (r.user == user || r.account == account)
  }

  /** Failures of the INSERT that are not uniqueness violations: a database
      error with some other message, or an sqlx error that is not a database
      error at all (pool, I/O, protocol). */
  datatype InsertFault = NoFault | DatabaseFault | ConnectionFault

  /** What the handler's INSERT reports. */
  datatype InsertResult = Inserted | UniqueViolation | DatabaseError | ConnectionError

  /** The outcome of inserting (user, account) into `rows`; a fault that stops
      the statement takes precedence over the constraint check. */
  function InsertResultOf(rows: set<Row>, user: I64, account: I32, fault: InsertFault): (r: InsertResult)
  {
    match fault
    case DatabaseFault => DatabaseError
    case ConnectionFault => ConnectionError
    case NoFault => if Clashes(rows, user, account) then UniqueViolation else Inserted
  }

  /** The rows after that insert: the new row on success, the old rows otherwise. */
  function RowsAfterInsert(rows: set<Row>, user: I64, account: I32, fault: InsertFault): (rows': set<Row>)
    ensures rows <= rows'
    ensures rows' - rows <= {Row(user, account)}
    ensures Row(user, account) in rows' <==> Row(user, account) in rows || InsertResultOf(rows, user, account, fault) == Inserted
    ensures Unique(rows) ==> Unique(rows')
  {
    if InsertResultOf(rows, user, account, fault) == Inserted then rows + {Row(user, account)} else rows
  }

  /** The answer of the owner query for `account` agrees with the table: no
      owner when no row holds the account, otherwise the Discord id whose
      `i64` form holds it. */
  predicate OwnerAnswers(rows: set<Row>, account: I32, owner: Option<U64>)
  {
    match owner
    case None => forall r :: r in rows ==> r.account != account
    case Some(o) => Row(AsI64(o), account) in rows
  }

  class Store {
    var rows: set<Row>

    ghost predicate Valid()
      reads this
    {
      Unique(rows)
    }

    constructor ()
      ensures Valid() && rows == {}
    {
      rows := {};
    }

    /** `INSERT INTO linked_users (id, gd_account_id) VALUES (?, ?)`, atomic:
        either the row is added or nothing changes. */
    method Insert(user: I64, account: I32, fault: InsertFault) returns (r: InsertResult)
      requires Valid()
      modifies this
      ensures Valid()
      ensures r == InsertResultOf(old(rows), user, account, fault)
      ensures rows == RowsAfterInsert(old(rows), user, account, fault)
      ensures r == Inserted <==> fault == NoFault && !Clashes(old(rows), user, account)
    {
      if fault == DatabaseFault {
        r := DatabaseError;
      } else if fault == ConnectionFault {
        r := ConnectionError;
      } else if exists row :: row in rows && (row.user == user || row.account == account) {
        r := UniqueViolation;
      } else {
        rows := rows + {Row(user, account)};
        r := Inserted;
      }
    }
  }
}
