/**
 * An abstract table store standing in for the database: named tables with a
 * column list and rows, the WHERE conditions the ORM issues, and the writes it
 * sends. A condition or a row that names a column the table does not have is
 * an SQL error, reported as a Failure.
 */
module Store {
  import opened Results
  import opened PhpValues

  type Row = map<string, Value>

  /** A column of a row; a missing column reads as NULL. */
  function Col(r: Row, c: string): Value {
    if c in r then r[c] else Null
  }

  /**
   * A WHERE condition. `Eq(c, Null)` is `c IS NULL`, as CodeIgniter writes
   * where($c, NULL); values compare with PHP's loose rules, standing in for the
   * database's own conversions.
   */
  datatype Cond =
    | Eq(col: string, v: Value)
    | NotEq(col: string, v: Value)
    | NotNull(col: string)
    | NotIn(col: string, vs: seq<Value>)

  function CondCol(c: Cond): string {
    c.col
  }

  /** `a = b` in SQL: NULL equals nothing. */
  predicate SqlEq(a: Value, b: Value) {
    !a.Null? && !b.Null? && LooseEq(a, b)
  }

  predicate Holds(r: Row, c: Cond) {
    match c
    case Eq(col, v) => if v.Null? then Col(r, col).Null? else SqlEq(Col(r, col), v)
    case NotEq(col, v) => !Col(r, col).Null? && !v.Null? && !LooseEq(Col(r, col), v)
    case NotNull(col) => !Col(r, col).Null?
    case NotIn(col, vs) => !Col(r, col).Null? && forall k :: 0 <= k < |vs| ==> !SqlEq(Col(r, col), vs[k])
  }

  predicate Matches(r: Row, conds: seq<Cond>) {
    forall k :: 0 <= k < |conds| ==> Holds(r, conds[k])
  }

  datatype Table = Table(columns: seq<string>, rows: seq<Row>)

  /** A write the ORM sends, kept in the order sent. */
  datatype Write =
    | Inserted(table: string, data: Row)
    | Updated(table: string, conds: seq<Cond>, data: Row)
    | Deleted(table: string, conds: seq<Cond>)

  /** The store: its tables, the last id handed out by an insert, and every write so far. */
  datatype Db = Db(tables: map<string, Table>, lastId: int, log: seq<Write>)

  /** Every column a list of conditions names is a column of the table. */
  predicate CondsFit(t: Table, conds: seq<Cond>) {
    forall k :: 0 <= k < |conds| ==> CondCol(conds[k]) in t.columns
  }

  predicate RowFits(t: Table, data: Row) {
    forall c :: c in data ==> c in t.columns
  }

  /** The rows satisfying every condition, in table order. */
  function Filter(rows: seq<Row>, conds: seq<Cond>): (r: seq<Row>)
    ensures |r| <= |rows|
    ensures forall i :: 0 <= i < |r| ==> Matches(r[i], conds) && r[i] in rows
    ensures forall i :: 0 <= i < |rows| && Matches(rows[i], conds) ==> rows[i] in r
  {
    if |rows| == 0 then []
    else if Matches(rows[0], conds) then [rows[0]] + Filter(rows[1..], conds)
    else Filter(rows[1..], conds)
  }

  /** SELECT * FROM table WHERE conds. */
  function Select(db: Db, table: string, conds: seq<Cond>): (r: Result<seq<Row>>)
    ensures r.Success? <==> table in db.tables && CondsFit(db.tables[table], conds)
    ensures r.Success? ==> r.value == Filter(db.tables[table].rows, conds)
  {
    if table !in db.tables then Failure("Table '" + table + "' doesn't exist")
    else if !CondsFit(db.tables[table], conds) then Failure("Unknown column in 'where clause'")
    else Success(Filter(db.tables[table].rows, conds))
  }

  /** SELECT COUNT(*) ... */
  function CountWhere(db: Db, table: string, conds: seq<Cond>): (r: Result<nat>)
    ensures r.Success? <==> Select(db, table, conds).Success?
    ensures r.Success? ==> r.value == |Select(db, table, conds).value|
  {
    var rows :- Select(db, table, conds);
    Success(|rows|)
  }

  /** INSERT: the row gets the next id unless it carries one; the insert id is returned. */
  function Insert(db: Db, table: string, data: Row): (r: Result<(Db, int)>)
    ensures r.Success? <==> table in db.tables && RowFits(db.tables[table], data)
    ensures r.Success? ==> var (db2, id) := r.value;
      db2.tables.Keys == db.tables.Keys
      && db2.tables[table].rows == db.tables[table].rows + [data[("id") := Int(id)]]
      && db2.tables[table].columns == db.tables[table].columns
      && (forall t :: t in db.tables && t != table ==> db2.tables[t] == db.tables[t])
      && db2.log == db.log + [Inserted(table, data)]
      && (("id" in data && data["id"].Int?) ==> id == data["id"].i)
  {
    if table !in db.tables then Failure("Table '" + table + "' doesn't exist")
    else if !RowFits(db.tables[table], data) then Failure("Unknown column in 'field list'")
    else
      var id := if "id" in data && data["id"].Int? then data["id"].i else db.lastId + 1;
      var t := db.tables[table];
      var t2 := Table(t.columns, t.rows + [data["id" := Int(id)]]);
      Success((Db(db.tables[table := t2], id, db.log + [Inserted(table, data)]), id))
  }

  /** Each row with `data` written over it where it matches. */
  function UpdateRows(rows: seq<Row>, conds: seq<Cond>, data: Row): (r: seq<Row>)
    ensures |r| == |rows|
    ensures forall i :: 0 <= i < |rows| ==> r[i] == (if Matches(rows[i], conds) then rows[i] + data else rows[i])
  {
    if |rows| == 0 then []
    else [if Matches(rows[0], conds) then rows[0] + data else rows[0]] + UpdateRows(rows[1..], conds, data)
  }

  /** UPDATE table SET data WHERE conds. */
  function Update(db: Db, table: string, conds: seq<Cond>, data: Row): (r: Result<Db>)
    ensures r.Success? <==> table in db.tables && CondsFit(db.tables[table], conds) && RowFits(db.tables[table], data)
    ensures r.Success? ==>
      r.value.tables.Keys == db.tables.Keys
      && r.value.tables[table] == Table(db.tables[table].columns, UpdateRows(db.tables[table].rows, conds, data))
      && (forall t :: t in db.tables && t != table ==> r.value.tables[t] == db.tables[t])
      && r.value.log == db.log + [Updated(table, conds, data)]
      && r.value.lastId == db.lastId
  {
    if table !in db.tables then Failure("Table '" + table + "' doesn't exist")
    else if !CondsFit(db.tables[table], conds) then Failure("Unknown column in 'where clause'")
    else if !RowFits(db.tables[table], data) then Failure("Unknown column in 'field list'")
    else
      var t := db.tables[table];
      Success(Db(db.tables[table := Table(t.columns, UpdateRows(t.rows, conds, data))], db.lastId, db.log + [Updated(table, conds, data)]))
  }

  /** The rows that do not match, in order. */
  function KeepRows(rows: seq<Row>, conds: seq<Cond>): (r: seq<Row>)
    ensures |r| <= |rows|
    ensures forall i :: 0 <= i < |r| ==> !Matches(r[i], conds) && r[i] in rows
    ensures forall i :: 0 <= i < |rows| && !Matches(rows[i], conds) ==> rows[i] in r
  {
    if |rows| == 0 then []
    else if Matches(rows[0], conds) then KeepRows(rows[1..], conds)
    else [rows[0]] + KeepRows(rows[1..], conds)
  }

  /** DELETE FROM table WHERE conds. */
  function Delete(db: Db, table: string, conds: seq<Cond>): (r: Result<Db>)
    ensures r.Success? <==> table in db.tables && CondsFit(db.tables[table], conds)
    ensures r.Success? ==>
      r.value.tables.Keys == db.tables.Keys
      && r.value.tables[table] == Table(db.tables[table].columns, KeepRows(db.tables[table].rows, conds))
      && (forall t :: t in db.tables && t != table ==> r.value.tables[t] == db.tables[t])
      && r.value.log == db.log + [Deleted(table, conds)]
  {
    if table !in db.tables then Failure("Table '" + table + "' doesn't exist")
    else if !CondsFit(db.tables[table], conds) then Failure("Unknown column in 'where clause'")
    else
      var t := db.tables[table];
      Success(Db(db.tables[table := Table(t.columns, KeepRows(t.rows, conds))], db.lastId, db.log + [Deleted(table, conds)]))
  }

  /** Filtering and keeping split a table: every row goes to exactly one side. */
  lemma {:induction false} FilterKeepPartition(rows: seq<Row>, conds: seq<Cond>)
    ensures |Filter(rows, conds)| + |KeepRows(rows, conds)| == |rows|
  {
    if |rows| > 0 {
      FilterKeepPartition(rows[1..], conds);
    }
  }

  /** After a delete nothing in the table matches the deleted conditions, and a count finds none. */
  lemma DeleteLeavesNoMatch(db: Db, table: string, conds: seq<Cond>)
    requires Delete(db, table, conds).Success?
    ensures CountWhere(Delete(db, table, conds).value, table, conds) == Success(0)
  {
    var rows := Delete(db, table, conds).value.tables[table].rows;
    NoneMatch(rows, conds);
  }

  lemma {:induction false} NoneMatch(rows: seq<Row>, conds: seq<Cond>)
    requires forall i :: 0 <= i < |rows| ==> !Matches(rows[i], conds)
    ensures Filter(rows, conds) == []
  {
    if |rows| > 0 {
      NoneMatch(rows[1..], conds);
    }
  }
}
