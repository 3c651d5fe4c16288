/**
 * The statement builders of `SQLiteDB` in db/db_tools.py. Each builder turns
 * a table name, an insertion-ordered column dictionary and a where-string into
 * SQL text plus the tuple of values bound to its `?` placeholders. Running
 * the statement is SQLite's business and is not modelled; only the shaping of
 * `select`'s result by `fetch_all` is.
 */
module SqlBuilder {
  import opened Wrappers

  /** A value bound to a placeholder. */
  datatype Value = Int(i: int) | Text(s: string) | Null

  /** A Python dict, in insertion order: a list of (key, value) pairs. */
  type Dict<V> = seq<(string, V)>

  ghost predicate DistinctKeys<V>(d: Dict<V>)
  {
    forall i, j :: 0 <= i < j < |d| ==> d[i].0 != d[j].0
  }

  /** `d.keys()`, in order. */
  function Keys<V>(d: Dict<V>): (ks: seq<string>)
    ensures |ks| == |d| && forall i :: 0 <= i < |d| ==> ks[i] == d[i].0
  {
    seq(|d|, i requires 0 <= i < |d| => d[i].0)
  }

  /** `tuple(d.values())`, in the same order as the keys. */
  function Values<V>(d: Dict<V>): (vs: seq<V>)
    ensures |vs| == |d| && forall i :: 0 <= i < |d| ==> vs[i] == d[i].1
  {
    seq(|d|, i requires 0 <= i < |d| => d[i].1)
  }

  /** An SQL text and the values bound to it, as passed to `cursor.execute`. */
  datatype Statement = Statement(sql: string, params: seq<Value>)

  /** An SQL text and one tuple of values per row, as passed to `cursor.executemany`. */
  datatype Batch = Batch(sql: string, rows: seq<seq<Value>>)

  // ---------------------------------------------------------------------------
  // Text helpers

  /** `sep.join(parts)`. */
  function Join(parts: seq<string>, sep: string): string
  {
    if |parts| == 0 then ""
    else if |parts| == 1 then parts[0]
    else parts[0] + sep + Join(parts[1..], sep)
  }

  /** The number of occurrences of `c` in `s`. */
  function Count(c: char, s: string): nat
  {
    if s == [] then 0 else (if s[0] == c then 1 else 0) + Count(c, s[1..])
  }

  /** A character that is not in the text occurs zero times. */
  lemma {:induction false} CountAbsent(c: char, s: string)
    requires c !in s
    ensures Count(c, s) == 0
  {
    if s != [] {
      assert c !in s[1..];
      CountAbsent(c, s[1..]);
    }
  }

  lemma {:induction false} CountConcat(c: char, a: string, b: string)
    ensures Count(c, a + b) == Count(c, a) + Count(c, b)
  {
    if a == [] {
      assert a + b == b;
    } else {
      assert (a + b)[1..] == a[1..] + b;
      CountConcat(c, a[1..], b);
    }
  }

  /** Text framed by fragments free of `c`: only the holes count. */
  lemma CountFrame2(c: char, k1: string, a: string, k2: string, b: string)
    requires Count(c, k1) == 0 && Count(c, k2) == 0
    ensures Count(c, k1 + a + k2 + b) == Count(c, a) + Count(c, b)
  {
    CountConcat(c, k1, a);
    CountConcat(c, k1 + a, k2);
    CountConcat(c, k1 + a + k2, b);
  }

  lemma CountFrame3(c: char, k1: string, a: string, k2: string, b: string, k3: string, d: string)
    requires Count(c, k1) == 0 && Count(c, k2) == 0 && Count(c, k3) == 0
    ensures Count(c, k1 + a + k2 + b + k3 + d) == Count(c, a) + Count(c, b) + Count(c, d)
  {
    CountFrame2(c, k1, a, k2, b);
    CountConcat(c, k1 + a + k2 + b, k3);
    CountConcat(c, k1 + a + k2 + b + k3, d);
  }

  /** Pieces holding `c` once each, joined by a separator free of `c`, hold it once per piece. */
  lemma {:induction false} CountJoinOnce(c: char, parts: seq<string>, sep: string)
    requires Count(c, sep) == 0
    requires forall i :: 0 <= i < |parts| ==> Count(c, parts[i]) == 1
    ensures Count(c, Join(parts, sep)) == |parts|
  {
    if |parts| > 1 {
      CountJoinOnce(c, parts[1..], sep);
      CountConcat(c, parts[0], sep);
      CountConcat(c, parts[0] + sep, Join(parts[1..], sep));
    }
  }

  /** Pieces and separator free of `c` join to a text free of `c`. */
  lemma {:induction false} CountJoinNone(c: char, parts: seq<string>, sep: string)
    requires Count(c, sep) == 0
    requires forall i :: 0 <= i < |parts| ==> Count(c, parts[i]) == 0
    ensures Count(c, Join(parts, sep)) == 0
  {
    if |parts| > 1 {
      CountJoinNone(c, parts[1..], sep);
      CountConcat(c, parts[0], sep);
      CountConcat(c, parts[0] + sep, Join(parts[1..], sep));
    }
  }

  /** A table name, column name or SQL fragment with no `?` in it. */
  predicate NoPlaceholder(s: string)
  {
    Count(Mark, s) == 0
  }

  /** Every `?` of the text has exactly one bound value, as SQLite demands. */
  predicate WellBound(st: Statement)
  {
    Count(Mark, st.sql) == |st.params|
  }

  // ---------------------------------------------------------------------------
  // The fixed fragments of the statements

  /** The placeholder character of SQLite's qmark parameter style. */
  const Mark: char := '?'
  const MarkText: string := [Mark]

  const CreateKw: string := "CREATE TABLE IF NOT EXISTS "
  const InsertKw: string := "INSERT INTO "
  const ValuesKw: string := ") VALUES ("
  const SelectKw: string := "SELECT "
  const FromKw: string := " FROM "
  const WhereKw: string := " WHERE "
  const UpdateKw: string := "UPDATE "
  const SetKw: string := " SET "
  const DeleteKw: string := "DELETE FROM "
  const Open: string := " ("
  const Close: string := ")"
  const Comma: string := ", "
  const Star: string := "*"
  const AssignMark: string := " = ?"
  const PrimaryMark: string := " PRIMARY KEY"

  /** The separator of every list carries no `?`. */
  lemma CommaPlain()
    ensures NoPlaceholder(Comma)
  {
    CountAbsent(Mark, Comma);
  }

  /** The fixed fragments of an insert carry no `?`. */
  lemma InsertFragmentsPlain()
    ensures NoPlaceholder(InsertKw) && NoPlaceholder(Open) && NoPlaceholder(ValuesKw)
    ensures NoPlaceholder(Close) && NoPlaceholder(Comma)
  {
    InsertHeadPlain();
    InsertTailPlain();
    CommaPlain();
  }

  lemma InsertHeadPlain()
    ensures NoPlaceholder(InsertKw) && NoPlaceholder(Open)
  {
    CountAbsent(Mark, InsertKw);
    CountAbsent(Mark, Open);
  }

  lemma InsertTailPlain()
    ensures NoPlaceholder(ValuesKw) && NoPlaceholder(Close)
  {
    CountAbsent(Mark, ValuesKw);
    CountAbsent(Mark, Close);
  }

  /** The fixed fragments of a select carry no `?`. */
  lemma SelectFragmentsPlain()
    ensures NoPlaceholder(SelectKw) && NoPlaceholder(FromKw) && NoPlaceholder(WhereKw)
    ensures NoPlaceholder(Star) && NoPlaceholder(Comma)
  {
    CountAbsent(Mark, SelectKw);
    CountAbsent(Mark, FromKw);
    CountAbsent(Mark, WhereKw);
    CountAbsent(Mark, Star);
    CountAbsent(Mark, Comma);
  }

  /** The fixed fragments of an update carry no `?`, except the one of each assignment. */
  lemma UpdateFragmentsPlain()
    ensures NoPlaceholder(UpdateKw) && NoPlaceholder(SetKw) && NoPlaceholder(WhereKw)
    ensures NoPlaceholder(Comma) && Count(Mark, AssignMark) == 1
  {
    CountAbsent(Mark, UpdateKw);
    CountAbsent(Mark, SetKw);
    CountAbsent(Mark, WhereKw);
    CountAbsent(Mark, Comma);
  }

  /** The fixed fragments of a delete carry no `?`. */
  lemma DeleteFragmentsPlain()
    ensures NoPlaceholder(DeleteKw) && NoPlaceholder(WhereKw)
  {
    CountAbsent(Mark, DeleteKw);
    CountAbsent(Mark, WhereKw);
  }

  // ---------------------------------------------------------------------------
  // create_table

  /** Python truthiness of `primary_key and name == primary_key`. */
  predicate IsPrimary(name: string, primaryKey: Option<string>): (b: bool)
    ensures b ==> primaryKey == Some(name)
    ensures primaryKey.None? || primaryKey == Some("") ==> !b
  {
    primaryKey.Some? && primaryKey.value != "" && name == primaryKey.value
  }

  /** One column definition, `"name TYPE"`, marked when it is the primary key. */
  function ColumnDef(name: string, typ: string, primaryKey: Option<string>): (d: string)
    ensures var head := name + " " + typ;
            |head| <= |d| && d[..|head|] == head
    ensures |d| == |name| + 1 + |typ| + (if IsPrimary(name, primaryKey) then |PrimaryMark| else 0)
  {
    name + " " + typ + (if IsPrimary(name, primaryKey) then PrimaryMark else "")
  }

  /** The column definitions of `columns`, in dict order. */
  function ColumnDefs(columns: Dict<string>, primaryKey: Option<string>): (defs: seq<string>)
    ensures |defs| == |columns|
  {
    seq(|columns|, i requires 0 <= i < |columns| => ColumnDef(columns[i].0, columns[i].1, primaryKey))
  }

  /** The statement `create_table` executes. */
  function CreateTableSql(table: string, columns: Dict<string>, primaryKey: Option<string>): (s: string)
    ensures var head := CreateKw + table + Open;
            |head| < |s| && s[..|head|] == head && s[|s| - 1..] == Close
  {
    CreateKw + table + Open + Join(ColumnDefs(columns, primaryKey), Comma) + Close
  }

  /** `create_table`: builds the column definitions with an appending loop, then the statement. */
  method CreateTable(table: string, columns: Dict<string>, primaryKey: Option<string>) returns (sql: string)
    ensures sql == CreateTableSql(table, columns, primaryKey)
  {
    var columnsDef: seq<string> := [];
    var i := 0;
    while i < |columns|
      invariant 0 <= i <= |columns|
      invariant |columnsDef| == i
      invariant forall j :: 0 <= j < i ==> columnsDef[j] == ColumnDef(columns[j].0, columns[j].1, primaryKey)
    {
      var (name, typ) := columns[i];
      var colDef := name + " " + typ;
      if primaryKey.Some? && primaryKey.value != "" && name == primaryKey.value {
        colDef := colDef + PrimaryMark;
      }
      columnsDef := columnsDef + [colDef];
      i := i + 1;
    }
    assert columnsDef == ColumnDefs(columns, primaryKey);
    sql := CreateKw + table + Open + Join(columnsDef, Comma) + Close;
  }

  /**
   * A column definition starts with the column's name and type and carries
   * the primary-key mark exactly when its name is the (non-empty) primary key:
   * no column is marked when the primary key is None.
   */
  lemma PrimaryKeyMarking(columns: Dict<string>, primaryKey: Option<string>, i: int)
    requires 0 <= i < |columns|
    ensures var def := ColumnDefs(columns, primaryKey)[i];
            var head := columns[i].0 + " " + columns[i].1;
            && |head| <= |def| && def[..|head|] == head
            && (def == head <==> !IsPrimary(columns[i].0, primaryKey))
            && (IsPrimary(columns[i].0, primaryKey) ==> def == head + PrimaryMark)
            && (primaryKey.None? ==> def == head)
  {
  }

  /** With distinct column names, at most one column is marked as the primary key. */
  lemma AtMostOnePrimary(columns: Dict<string>, primaryKey: Option<string>, i: int, j: int)
    requires DistinctKeys(columns)
    requires 0 <= i < |columns| && 0 <= j < |columns| && i != j
    ensures !(IsPrimary(columns[i].0, primaryKey) && IsPrimary(columns[j].0, primaryKey))
  {
    if i > j {
      assert columns[j].0 != columns[i].0;
    }
  }

  // ---------------------------------------------------------------------------
  // insert and insert_many

  /** `', '.join(['?'] * n)`. */
  function Placeholders(n: nat): (s: string)
    ensures Count(Mark, s) == n
  {
    var marks := seq(n, _ => MarkText);
    CommaPlain();
    assert Count(Mark, MarkText) == 1;
    CountJoinOnce(Mark, marks, Comma);
    Join(marks, Comma)
  }

  function InsertSql(table: string, columns: seq<string>, n: nat): (s: string)
    ensures var head := InsertKw + table + Open;
            |head| < |s| && s[..|head|] == head && s[|s| - 1..] == Close
  {
    InsertKw + table + Open + Join(columns, Comma) + ValuesKw + Placeholders(n) + Close
  }

  /** `insert`: one statement whose values are the dict's values, in key order. */
  function Insert(table: string, data: Dict<Value>): (st: Statement)
    ensures st.sql == InsertSql(table, Keys(data), |data|)
    ensures |st.params| == |data| && forall i :: 0 <= i < |data| ==> st.params[i] == data[i].1
  {
    Statement(InsertSql(table, Keys(data), |data|), Values(data))
  }

  /** Table and column names free of `?` leave exactly the `n` placeholders in an insert text. */
  lemma CountInsertSql(table: string, columns: seq<string>, n: nat)
    requires NoPlaceholder(table)
    requires forall i :: 0 <= i < |columns| ==> NoPlaceholder(columns[i])
    ensures Count(Mark, InsertSql(table, columns, n)) == n
  {
    InsertFragmentsPlain();
    CountJoinNone(Mark, columns, Comma);
    CountInsertShape(table, Join(columns, Comma), Placeholders(n));
  }

  /** The `?` of an insert text are those of its table name, column list and marks. */
  lemma CountInsertShape(table: string, cols: string, marks: string)
    ensures Count(Mark, InsertKw + table + Open + cols + ValuesKw + marks + Close)
         == Count(Mark, table) + Count(Mark, cols) + Count(Mark, marks)
  {
    InsertHeadPlain();
    InsertTailPlain();
    CountFrame3(Mark, InsertKw, table, Open, cols, ValuesKw, marks);
    CountConcat(Mark, InsertKw + table + Open + cols + ValuesKw + marks, Close);
  }

  /** Table and column names free of `?` leave exactly one placeholder per bound value. */
  lemma InsertWellBound(table: string, data: Dict<Value>)
    requires NoPlaceholder(table)
    requires forall i :: 0 <= i < |data| ==> NoPlaceholder(data[i].0)
    ensures WellBound(Insert(table, data))
  {
    CountInsertSql(table, Keys(data), |data|);
  }

  /**
   * `insert_many`: nothing on an empty list; otherwise one text built from
   * the FIRST dict's keys, and each dict's values bound positionally.
   */
  function InsertMany(table: string, dataList: seq<Dict<Value>>): (b: Option<Batch>)
    ensures b.None? <==> dataList == []
    ensures b.Some? ==> b.value.sql == InsertSql(table, Keys(dataList[0]), |dataList[0]|)
    ensures b.Some? ==> |b.value.rows| == |dataList|
                        && forall i :: 0 <= i < |dataList| ==> b.value.rows[i] == Values(dataList[i])
  {
    if dataList == [] then None
    else
      var first := dataList[0];
      Some(Batch(InsertSql(table, Keys(first), |first|),
                 seq(|dataList|, i requires 0 <= i < |dataList| => Values(dataList[i]))))
  }

  /**
   * A row of a batch fills the placeholders exactly when its dict has as many
   * entries as the first one.
   */
  lemma InsertManyWellBound(table: string, dataList: seq<Dict<Value>>, i: int)
    requires NoPlaceholder(table)
    requires dataList != [] && forall j :: 0 <= j < |dataList[0]| ==> NoPlaceholder(dataList[0][j].0)
    requires 0 <= i < |dataList|
    ensures var b := InsertMany(table, dataList).value;
            Count(Mark, b.sql) == |b.rows[i]| <==> |dataList[i]| == |dataList[0]|
  {
    CountInsertSql(table, Keys(dataList[0]), |dataList[0]|);
  }

  // ---------------------------------------------------------------------------
  // select

  /** Python truthiness of an optional string. */
  predicate Truthy(s: Option<string>): (b: bool)
    ensures b ==> s.Some? && |s.value| > 0
    ensures s.None? || s == Some("") ==> !b
  {
    s.Some? && s.value != ""
  }

  /** `params or ()`. */
  function ParamsOrEmpty(params: Option<seq<Value>>): (ps: seq<Value>)
    ensures params.None? ==> ps == []
    ensures params.Some? ==> ps == params.value
  {
    if params.Some? then params.value else []
  }

  /** The column list of a select: `*` when no list is given. */
  function SelectColumns(columns: Option<seq<string>>): (s: string)
    ensures columns.None? ==> s == Star
    ensures columns == Some([]) ==> s == ""
    ensures columns.Some? && |columns.value| == 1 ==> s == columns.value[0]
  {
    if columns.None? then Star else Join(columns.value, Comma)
  }

  /** `select`'s statement: a WHERE clause only for a non-empty condition. */
  function Select(table: string, columns: Option<seq<string>>, where: Option<string>,
                  params: Option<seq<Value>>): (st: Statement)
    ensures var head := SelectKw + SelectColumns(columns) + FromKw + table;
            st.sql == if Truthy(where) then head + WhereKw + where.value else head
    ensures st.params == ParamsOrEmpty(params)
  {
    var head := SelectKw + SelectColumns(columns) + FromKw + table;
    Statement(if Truthy(where) then head + WhereKw + where.value else head, ParamsOrEmpty(params))
  }

  /**
   * `select`'s result: every row when `fetch_all`, otherwise a list holding
   * the first row, or the empty list when nothing matched.
   */
  function FetchShape<R>(rows: seq<R>, fetchAll: bool): (r: seq<R>)
    ensures fetchAll ==> r == rows
    ensures !fetchAll ==> |r| <= 1 && (r == [] <==> rows == []) && (r != [] ==> r[0] == rows[0])
  {
    if fetchAll then rows
    else if rows == [] then []
    else [rows[0]]
  }

  /**
   * With table and columns free of `?`, a select is well bound exactly when the
   * params match the marks of the condition; a dropped empty condition has none.
   */
  lemma SelectWellBound(table: string, columns: Option<seq<string>>, where: Option<string>,
                        params: Option<seq<Value>>)
    requires NoPlaceholder(table)
    requires columns.Some? ==> forall i :: 0 <= i < |columns.value| ==> NoPlaceholder(columns.value[i])
    ensures var marks := if Truthy(where) then Count(Mark, where.value) else 0;
            WellBound(Select(table, columns, where, params)) <==> marks == |ParamsOrEmpty(params)|
  {
    SelectFragmentsPlain();
    var cols := SelectColumns(columns);
    if columns.Some? {
      CountJoinNone(Mark, columns.value, Comma);
    }
    CountFrame2(Mark, SelectKw, cols, FromKw, table);
    if Truthy(where) {
      var head := SelectKw + cols + FromKw + table;
      CountConcat(Mark, head, WhereKw);
      CountConcat(Mark, head + WhereKw, where.value);
    }
  }

  // ---------------------------------------------------------------------------
  // update and delete

  /** `', '.join([f"{k} = ?" for k in keys])`. */
  function SetClause(keys: seq<string>): (s: string)
    ensures s == "" <==> keys == []
    ensures |keys| == 1 ==> s == keys[0] + AssignMark
  {
    Join(seq(|keys|, i requires 0 <= i < |keys| => keys[i] + AssignMark), Comma)
  }

  /** One `?` per assigned column. */
  lemma CountSetClause(keys: seq<string>)
    requires forall i :: 0 <= i < |keys| ==> NoPlaceholder(keys[i])
    ensures Count(Mark, SetClause(keys)) == |keys|
  {
    UpdateFragmentsPlain();
    var assigns := seq(|keys|, i requires 0 <= i < |keys| => keys[i] + AssignMark);
    forall i | 0 <= i < |assigns|
      ensures Count(Mark, assigns[i]) == 1
    {
      CountConcat(Mark, keys[i], AssignMark);
    }
    CountJoinOnce(Mark, assigns, Comma);
  }

  /** `update`: the data values are bound first, then the condition's params. */
  function Update(table: string, data: Dict<Value>, where: string, params: Option<seq<Value>>): (st: Statement)
    ensures |st.params| == |data| + |ParamsOrEmpty(params)|
    ensures forall i :: 0 <= i < |data| ==> st.params[i] == data[i].1
    ensures st.params[|data|..] == ParamsOrEmpty(params)
  {
    Statement(UpdateKw + table + SetKw + SetClause(Keys(data)) + WhereKw + where,
              Values(data) + ParamsOrEmpty(params))
  }

  /** The update is well bound exactly when the condition's marks match its params. */
  lemma UpdateWellBound(table: string, data: Dict<Value>, where: string, params: Option<seq<Value>>)
    requires NoPlaceholder(table)
    requires forall i :: 0 <= i < |data| ==> NoPlaceholder(data[i].0)
    ensures WellBound(Update(table, data, where, params)) <==> Count(Mark, where) == |ParamsOrEmpty(params)|
  {
    UpdateFragmentsPlain();
    CountSetClause(Keys(data));
    CountFrame3(Mark, UpdateKw, table, SetKw, SetClause(Keys(data)), WhereKw, where);
  }

  /** `delete`: `DELETE FROM t WHERE w`, binding nothing when no params are given. */
  function Delete(table: string, where: string, params: Option<seq<Value>>): (st: Statement)
    ensures params.None? ==> st.params == []
    ensures params.Some? ==> st.params == params.value
  {
    Statement(DeleteKw + table + WhereKw + where, ParamsOrEmpty(params))
  }

  /** The `?` of a delete text are those of its condition. */
  lemma CountDeleteSql(table: string, where: string)
    requires NoPlaceholder(table)
    ensures Count(Mark, DeleteKw + table + WhereKw + where) == Count(Mark, where)
  {
    DeleteFragmentsPlain();
    CountFrame2(Mark, DeleteKw, table, WhereKw, where);
  }

  /** The delete is well bound exactly when the condition's marks match its params. */
  lemma DeleteWellBound(table: string, where: string, params: Option<seq<Value>>)
    requires NoPlaceholder(table)
    ensures WellBound(Delete(table, where, params)) <==> Count(Mark, where) == |ParamsOrEmpty(params)|
  {
    CountDeleteSql(table, where);
  }
}
