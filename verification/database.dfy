/** server/db/database.js: an in-memory store of named collections, each a
    sequence of records with an auto-increment counter, and the
    pseudo-SQL interpreter (`queryOne`, `queryAll`, `execute`) that every
    route handler goes through.

    A statement is first taken apart by the scanners of module Patterns
    into a `Stmt`, whose fields are exactly the outputs of the expressions
    and `includes` tests the interpreter consults; the interpreter then
    works on the `Stmt` alone. Saving to disk is a no-op here, and the
    clock is the parameter `now`. */
module Database {
  import opened Js
  import opened Patterns

  /** A record: a JavaScript object with string keys. */
  type Record = map<string, Value>

  /** `r[k]`: `undefined` when the key is absent. */
  function Field(r: Record, k: string): Value {
    if k in r then r[k] else Undefined
  }

  /** `params[i]`: `undefined` past either end. */
  function Param(params: seq<Value>, i: int): Value {
    if 0 <= i < |params| then params[i] else Undefined
  }

  /** The whole state: the collections, and the `_nextId` counters. A
      collection without a counter behaves as if its counter were NaN:
      `undefined++` and `NaN++` both yield NaN and leave NaN behind. */
  datatype Store = Store(tables: map<string, seq<Record>>, next: map<string, int>)

  // =====================================================================
  // Generic sequence helpers

  /** `rows.findIndex(p)`, as an option. */
  function FindIndex(rows: seq<Record>, p: Record -> bool): (r: Option<nat>)
    ensures r.Some? ==> r.value < |rows| && p(rows[r.value])
    ensures r.Some? ==> forall j :: 0 <= j < r.value ==> !p(rows[j])
    ensures r.None? ==> forall j :: 0 <= j < |rows| ==> !p(rows[j])
  {
    if |rows| == 0 then None
    else if p(rows[0]) then Some(0)
    else match FindIndex(rows[1..], p)
      case None => None
      case Some(i) => Some(i + 1)
  }

  /** `rows.filter(p)`: the records satisfying `p`, in their order. */
  function Filter(rows: seq<Record>, p: Record -> bool): (r: seq<Record>)
    ensures |r| <= |rows|
    ensures forall x :: x in r <==> x in rows && p(x)
  {
    if |rows| == 0 then []
    else (if p(rows[0]) then [rows[0]] else []) + Filter(rows[1..], p)
  }

  /** Filtering keeps everything when every record passes. */
  lemma {:induction false} FilterAll(rows: seq<Record>, p: Record -> bool)
    requires forall i :: 0 <= i < |rows| ==> p(rows[i])
    ensures Filter(rows, p) == rows
  {
    if |rows| > 0 {
      FilterAll(rows[1..], p);
    }
  }

  /** `r` lists the records of `rows` at the increasing positions `idx`,
      and the positions in `idx` are exactly those whose record passes
      `p`: `r` is `rows` with the failing records struck out, in stored
      order. */
  predicate Selects(r: seq<Record>, rows: seq<Record>, p: Record -> bool, idx: seq<nat>) {
    && |idx| == |r|
    && (forall k :: 0 <= k < |idx| ==> idx[k] < |rows| && r[k] == rows[idx[k]])
    && (forall k, l :: 0 <= k < l < |idx| ==> idx[k] < idx[l])
    && (forall i :: 0 <= i < |rows| ==> (i in idx <==> p(rows[i])))
  }

  /** A filter strikes out exactly the failing records and keeps the
      others in their stored order. */
  lemma {:induction false} FilterSelects(rows: seq<Record>, p: Record -> bool)
    ensures exists idx :: Selects(Filter(rows, p), rows, p, idx)
    decreases |rows|
  {
    if |rows| == 0 {
      assert Filter(rows, p) == [];
      assert Selects([], rows, p, []);
    } else {
      FilterSelects(rows[1..], p);
      var rest := Filter(rows[1..], p);
      var idx' :| Selects(rest, rows[1..], p, idx');
      var idx := SelectsCons(rows[0], rows[1..], rest, p, idx');
      assert [rows[0]] + rows[1..] == rows;
      assert Filter(rows, p) == (if p(rows[0]) then [rows[0]] else []) + rest;
    }
  }

  /** The positions of `idx`, one further on. */
  function Shift(idx: seq<nat>): (r: seq<nat>)
    ensures |r| == |idx| && forall k :: 0 <= k < |idx| ==> r[k] == idx[k] + 1
  {
    seq(|idx|, k requires 0 <= k < |idx| => idx[k] + 1)
  }

  /** Selecting from `[x] + rows`: position 0 when `x` passes, then the
      selection from `rows`, one position further on. */
  lemma SelectsCons(x: Record, rows: seq<Record>, r: seq<Record>, p: Record -> bool, idx: seq<nat>)
    returns (idx': seq<nat>)
    requires Selects(r, rows, p, idx)
    ensures idx' == (if p(x) then [0] else []) + Shift(idx)
    ensures Selects((if p(x) then [x] else []) + r, [x] + rows, p, idx')
  {
    idx' := (if p(x) then [0] else []) + Shift(idx);
    ConsPositions(x, rows, r, p, idx);
    ConsMembers(x, rows, p, idx);
  }

  /** The positions of the selection from `[x] + rows` point at the
      selected records, and increase. */
  lemma ConsPositions(x: Record, rows: seq<Record>, r: seq<Record>, p: Record -> bool, idx: seq<nat>)
    requires |idx| == |r|
    requires forall k :: 0 <= k < |idx| ==> idx[k] < |rows| && r[k] == rows[idx[k]]
    requires forall k, l :: 0 <= k < l < |idx| ==> idx[k] < idx[l]
    ensures var idx' := (if p(x) then [0] else []) + Shift(idx);
      var r' := (if p(x) then [x] else []) + r;
      && |idx'| == |r'|
      && (forall k :: 0 <= k < |idx'| ==> idx'[k] < |[x] + rows| && r'[k] == ([x] + rows)[idx'[k]])
      && (forall k, l :: 0 <= k < l < |idx'| ==> idx'[k] < idx'[l])
  {
    var head: seq<nat> := if p(x) then [0] else [];
    var idx' := head + Shift(idx);
    var r' := (if p(x) then [x] else []) + r;
    var rows' := [x] + rows;
    forall k | 0 <= k < |idx'| ensures idx'[k] < |rows'| && r'[k] == rows'[idx'[k]] {
      if k >= |head| {
        assert idx'[k] == idx[k - |head|] + 1;
        assert r'[k] == r[k - |head|];
        assert rows'[idx'[k]] == rows[idx[k - |head|]];
      }
    }
    ShiftIncreasing(head, idx);
  }

  /** A position 0 or nothing, then positions shifted by one: still
      increasing. */
  lemma ShiftIncreasing(head: seq<nat>, idx: seq<nat>)
    requires head == [] || head == [0]
    requires forall k, l :: 0 <= k < l < |idx| ==> idx[k] < idx[l]
    ensures var idx' := head + Shift(idx);
      forall k, l :: 0 <= k < l < |idx'| ==> idx'[k] < idx'[l]
  {
    var idx' := head + Shift(idx);
    forall k, l | 0 <= k < l < |idx'| ensures idx'[k] < idx'[l] {
      assert idx'[l] == idx[l - |head|] + 1;
      if k >= |head| {
        assert idx'[k] == idx[k - |head|] + 1;
      }
    }
  }

  /** The positions of the selection from `[x] + rows` are exactly those
      of the passing records. */
  lemma ConsMembers(x: Record, rows: seq<Record>, p: Record -> bool, idx: seq<nat>)
    requires forall i :: 0 <= i < |rows| ==> (i in idx <==> p(rows[i]))
    ensures var idx' := (if p(x) then [0] else []) + Shift(idx);
      forall i :: 0 <= i < |[x] + rows| ==> (i in idx' <==> p(([x] + rows)[i]))
  {
    var idx' := (if p(x) then [0] else []) + Shift(idx);
    var rows' := [x] + rows;
    forall i | 0 <= i < |rows'| ensures i in idx' <==> p(rows'[i]) {
      if i == 0 {
        assert 0 !in Shift(idx);
      } else {
        assert rows'[i] == rows[i - 1];
        assert i in Shift(idx) <==> i - 1 in idx;
      }
    }
  }

  /** Filtering distributes over concatenation. */
  lemma {:induction false} FilterAppend(a: seq<Record>, b: seq<Record>, p: Record -> bool)
    ensures Filter(a + b, p) == Filter(a, p) + Filter(b, p)
  {
    if |a| > 0 {
      assert (a + b)[0] == a[0];
      assert (a + b)[1..] == a[1..] + b;
      FilterAppend(a[1..], b, p);
    } else {
      assert a + b == b;
    }
  }

  // =====================================================================
  // Statements

  /** The command word `execute` dispatches on: the prefix of the
      lower-cased, trimmed statement. */
  datatype Verb = InsertVerb | UpdateVerb | DeleteVerb | SelectVerb | OtherVerb

  /** One `column = value` pair of a SET list. It is a placeholder
      assignment when the value part is present and contains `?`. */
  datatype Assign = Assign(column: string, placeholder: bool)

  /** Everything the interpreter reads off a statement text:
      - `table`: `getTableName`;
      - `verb`: the command word of `execute`;
      - `hasCount`, `hasWhere`: whether the lower-cased text contains
        `count(*)`, `where`;
      - `whereClause`: the trimmed capture of the count branch's where
        expression;
      - `eqColumn`: the column of `where <word> = ?` in the lower-cased text;
      - `columns`: the trimmed comma-separated pieces of the first
        parenthesised group, or none;
      - `assigns`: the pairs of the `set … where` capture, if it matches. */
  datatype Stmt = Stmt(
    table: Option<string>,
    verb: Verb,
    hasCount: bool,
    hasWhere: bool,
    whereClause: Option<string>,
    eqColumn: Option<string>,
    columns: seq<string>,
    assigns: Option<seq<Assign>>)

  /** The five command words are pairwise exclusive as prefixes, so each
      verb is decided by its own prefix alone, whatever the order the
      source tests them in. */
  function VerbOf(sql: string): (v: Verb)
    ensures v == InsertVerb <==> StartsWith(Trim(Lower(sql)), "insert")
    ensures v == UpdateVerb <==> StartsWith(Trim(Lower(sql)), "update")
    ensures v == DeleteVerb <==> StartsWith(Trim(Lower(sql)), "delete")
    ensures v == SelectVerb <==> StartsWith(Trim(Lower(sql)), "select")
  {
    var t := Trim(Lower(sql));
    VerbInitials(t);
    if StartsWith(t, "insert") then InsertVerb
    else if StartsWith(t, "update") then UpdateVerb
    else if StartsWith(t, "delete") then DeleteVerb
    else if StartsWith(t, "select") then SelectVerb
    else OtherVerb
  }

  /** A text starting with a command word starts with that word's letter;
      the four letters differ. */
  lemma VerbInitials(t: string)
    ensures StartsWith(t, "insert") ==> |t| > 0 && t[0] == 'i'
    ensures StartsWith(t, "update") ==> |t| > 0 && t[0] == 'u'
    ensures StartsWith(t, "delete") ==> |t| > 0 && t[0] == 'd'
    ensures StartsWith(t, "select") ==> |t| > 0 && t[0] == 's'
  {}

  /** One SET pair, split at `=` with both sides trimmed. */
  function AssignOf(pair: string): (a: Assign)
    ensures a.column == Trim(Split(pair, '=')[0])
    ensures a.placeholder <==> |Split(pair, '=')| > 1 && Includes(Trim(Split(pair, '=')[1]), "?")
  {
    var parts := SplitTrim(pair, '=');
    Assign(parts[0], |parts| > 1 && parts[1] != "" && Includes(parts[1], "?"))
  }

  function AssignsOf(pairs: seq<string>): (r: seq<Assign>)
    ensures |r| == |pairs|
    ensures forall i :: 0 <= i < |pairs| ==> r[i] == AssignOf(pairs[i])
  {
    if |pairs| == 0 then [] else [AssignOf(pairs[0])] + AssignsOf(pairs[1..])
  }

  /** Take a statement text apart. */
  function Parse(sql: string): (st: Stmt)
    ensures st.table == TableName(sql)
    ensures st.hasCount <==> Includes(Lower(sql), "count(*)")
    ensures st.hasWhere <==> Includes(Lower(sql), "where")
    ensures st.eqColumn == EqColumn(Lower(sql))
    ensures st.verb == VerbOf(sql)
    ensures st.whereClause.Some? <==> WhereClause(sql).Some?
    ensures WhereClause(sql).Some? ==> st.whereClause.value == Trim(WhereClause(sql).value)
    ensures st.assigns.None? <==> SetClause(sql).None?
    ensures SetClause(sql).Some? ==> st.assigns == Some(AssignsOf(SplitTrim(SetClause(sql).value, ',')))
    ensures ParenGroup(sql).None? ==> st.columns == []
    ensures ParenGroup(sql).Some? ==> st.columns == SplitTrim(ParenGroup(sql).value, ',')
  {
    var lower := Lower(sql);
    Stmt(
      TableName(sql),
      VerbOf(sql),
      Includes(lower, "count(*)"),
      Includes(lower, "where"),
      match WhereClause(sql) case None => None case Some(w) => Some(Trim(w)),
      EqColumn(lower),
      match ParenGroup(sql) case None => [] case Some(g) => SplitTrim(g, ','),
      match SetClause(sql) case None => None case Some(c) => Some(AssignsOf(SplitTrim(c, ','))))
  }

  // =====================================================================
  // queryOne

  /** What `queryOne` returns: `null`, a stored record, or `{ count }`. */
  datatype One = Nothing | Row(record: Record) | Count(count: nat)

  /** `result[k]` of a `queryOne` result; reading a field of `null` throws
      in the source and is guarded by every caller. */
  function FieldOf(o: One, k: string): Value {
    match o
    case Nothing => Undefined
    case Row(r) => Field(r, k)
    case Count(n) => if k == "count" then Num(n) else Undefined
  }

  /** The three predicate shapes the count branch recognises, tested in
      this order on the trimmed where clause. */
  datatype Shape = StatusIs | TypeIs | SlaBefore | Unfiltered

  function ShapeOf(clause: string): Shape {
    if Includes(clause, "status = ?") then StatusIs
    else if Includes(clause, "type = ?") then TypeIs
    else if Includes(clause, "sla_deadline") && Includes(clause, "< ?") then SlaBefore
    else Unfiltered
  }

  /** The row test of the SLA shape: with a truthy second parameter only
      pending rows pass; the row needs a truthy deadline strictly before
      the first parameter. */
  predicate SlaKeeps(row: Record, params: seq<Value>)
    requires |params| > 0
  {
    var statusFilter := if |params| > 1 then params[1] else Null;
    && !(Truthy(statusFilter) && !StrictEquals(Field(row, "status"), Str("pending")))
    && Truthy(Field(row, "sla_deadline"))
    && Before(Field(row, "sla_deadline"), params[0])
  }

  /** Whether a row counts under a predicate shape: its status, or its
      type, strictly equal to the first parameter; the SLA test; or, for
      an unrecognised shape, every row. */
  predicate CountsRow(row: Record, shape: Shape, params: seq<Value>)
    requires |params| > 0
  {
    match shape
    case StatusIs => StrictEquals(Field(row, "status"), params[0])
    case TypeIs => StrictEquals(Field(row, "type"), params[0])
    case SlaBefore => SlaKeeps(row, params)
    case Unfiltered => true
  }

  /** The rows the count branch counts. */
  function CountedRows(rows: seq<Record>, st: Stmt, params: seq<Value>): (r: seq<Record>)
    ensures !(st.hasWhere && st.whereClause.Some? && |params| > 0) ==> r == rows
    ensures st.hasWhere && st.whereClause.Some? && |params| > 0 ==>
      forall x :: x in r <==> x in rows && CountsRow(x, ShapeOf(st.whereClause.value), params)
  {
    if st.hasWhere && st.whereClause.Some? && |params| > 0 then
      match ShapeOf(st.whereClause.value)
      case StatusIs => Filter(rows, (row: Record) => StrictEquals(Field(row, "status"), params[0]))
      case TypeIs => Filter(rows, (row: Record) => StrictEquals(Field(row, "type"), params[0]))
      case SlaBefore => Filter(rows, (row: Record) => SlaKeeps(row, params))
      case Unfiltered => rows
    else rows
  }

  /** With a where expression and a parameter, the count branch counts
      exactly the rows its shape accepts, and no row twice: the rows it
      counts are the stored rows with the others struck out, in order. */
  lemma CountedRowsInOrder(rows: seq<Record>, st: Stmt, params: seq<Value>)
    requires st.hasWhere && st.whereClause.Some? && |params| > 0
    ensures var test := (x: Record) => CountsRow(x, ShapeOf(st.whereClause.value), params);
      exists idx :: Selects(CountedRows(rows, st, params), rows, test, idx)
  {
    var shape := ShapeOf(st.whereClause.value);
    var test := (x: Record) => CountsRow(x, shape, params);
    var r := CountedRows(rows, st, params);
    match shape
    case StatusIs =>
      var p := (row: Record) => StrictEquals(Field(row, "status"), params[0]);
      FilterSelects(rows, p);
      SelectsSame(r, rows, p, test);
    case TypeIs =>
      var p := (row: Record) => StrictEquals(Field(row, "type"), params[0]);
      FilterSelects(rows, p);
      SelectsSame(r, rows, p, test);
    case SlaBefore =>
      var p := (row: Record) => SlaKeeps(row, params);
      FilterSelects(rows, p);
      SelectsSame(r, rows, p, test);
    case Unfiltered =>
      FilterAll(rows, test);
      FilterSelects(rows, test);
  }

  /** A selection by one test is a selection by any test that agrees with
      it on every stored record. */
  lemma SelectsSame(r: seq<Record>, rows: seq<Record>, p: Record -> bool, q: Record -> bool)
    requires exists idx :: Selects(r, rows, p, idx)
    requires forall i :: 0 <= i < |rows| ==> p(rows[i]) == q(rows[i])
    ensures exists idx :: Selects(r, rows, q, idx)
  {
    var idx :| Selects(r, rows, p, idx);
    assert Selects(r, rows, q, idx);
  }

  /** The test the equality branch applies: strict equality of the column
      with the first parameter, which is parsed first for the column `id`. */
  function Matches(column: string, value: Value): Record -> bool {
    var v := if column == "id" then CoerceId(value) else value;
    (row: Record) => StrictEquals(Field(row, column), v)
  }

  /** The equality branch of `queryOne` on collection `t`: the first
      record passing `Matches(column, value)`, or `null`; `null` as well
      when the collection does not exist. */
  function LookupIn(s: Store, t: string, column: string, value: Value): (r: One)
    ensures !r.Count?
    ensures r.Row? ==> t in s.tables && r.record in s.tables[t] && Matches(column, value)(r.record)
    ensures r.Row? ==>
      && t in s.tables && FindIndex(s.tables[t], Matches(column, value)).Some?
      && r.record == s.tables[t][FindIndex(s.tables[t], Matches(column, value)).value]
    ensures r.Nothing? <==>
      t !in s.tables || forall i :: 0 <= i < |s.tables[t]| ==> !Matches(column, value)(s.tables[t][i])
  {
    if t !in s.tables then Nothing
    else match FindIndex(s.tables[t], Matches(column, value))
      case Some(i) => Row(s.tables[t][i])
      case None => Nothing
  }

  /** Some record of collection `t` passes `Matches(column, value)`. */
  predicate Found(s: Store, t: string, column: string, value: Value) {
    t in s.tables && exists i :: 0 <= i < |s.tables[t]| && Matches(column, value)(s.tables[t][i])
  }

  /** The fall-through of `queryOne`: the first record of collection `t`,
      or `null`. */
  function FirstIn(s: Store, t: string): (r: One)
    ensures !r.Count?
    ensures r.Nothing? <==> t !in s.tables || |s.tables[t]| == 0
    ensures r.Row? ==> r.record == s.tables[t][0]
  {
    if t in s.tables && |s.tables[t]| > 0 then Row(s.tables[t][0]) else Nothing
  }

  /** The count branch of `queryOne` when no filter applies: the size of
      collection `t`, or `null` when it does not exist. */
  function CountAll(s: Store, t: string): (r: One)
    ensures r.Nothing? <==> t !in s.tables
    ensures r.Count? ==> r.count == |s.tables[t]|
    ensures !r.Row?
  {
    if t in s.tables then Count(|s.tables[t]|) else Nothing
  }

  /** `queryOne` on a statement already taken apart. */
  function QueryOneStmt(s: Store, st: Stmt, params: seq<Value>): (r: One)
    ensures st.table.None? || st.table.value !in s.tables ==> r == Nothing
    ensures r.Row? ==> st.table.Some? && st.table.value in s.tables && r.record in s.tables[st.table.value]
    ensures r.Count? <==> st.hasCount && st.table.Some? && st.table.value in s.tables
    ensures r.Count? ==> r.count == |CountedRows(s.tables[st.table.value], st, params)|
    ensures st.table.Some? && st.table.value in s.tables && !st.hasCount
            && |params| > 0 && st.hasWhere && st.eqColumn.Some? ==>
      var rows := s.tables[st.table.value];
      var p := Matches(st.eqColumn.value, params[0]);
      match FindIndex(rows, p)
      case Some(i) => r == Row(rows[i])
      case None => r == Nothing
    ensures st.table.Some? && st.table.value in s.tables && !st.hasCount
            && !(|params| > 0 && st.hasWhere && st.eqColumn.Some?) ==>
      var rows := s.tables[st.table.value];
      r == if |rows| > 0 then Row(rows[0]) else Nothing
  {
    if st.table.None? || st.table.value !in s.tables then Nothing
    else
      var t := st.table.value;
      if st.hasCount then Count(|CountedRows(s.tables[t], st, params)|)
      else if |params| > 0 && st.hasWhere && st.eqColumn.Some? then LookupIn(s, t, st.eqColumn.value, params[0])
      else FirstIn(s, t)
  }

  /** `queryOne(sql, params)`. */
  function QueryOne(s: Store, sql: string, params: seq<Value>): (r: One)
    ensures (forall p: nat, a: nat, b: nat :: !TableMatch(sql, p, a, b)) ==> r == Nothing
    ensures TableName(sql).Some? && TableName(sql).value !in s.tables ==> r == Nothing
    ensures r == QueryOneStmt(s, Parse(sql), params)
  {
    QueryOneStmt(s, Parse(sql), params)
  }

  // =====================================================================
  // queryAll

  /** `queryAll` once the table name is resolved: every record of the
      collection, whatever else the statement says. */
  function QueryAllTable(s: Store, table: Option<string>): (r: seq<Record>)
    ensures table.None? || table.value !in s.tables ==> r == []
    ensures table.Some? && table.value in s.tables ==> r == s.tables[table.value]
  {
    if table.Some? && table.value in s.tables then s.tables[table.value] else []
  }

  /** `queryAll(sql, params)`; the params are not consulted at all. */
  function QueryAll(s: Store, sql: string, params: seq<Value>): (r: seq<Record>)
    ensures (forall p: nat, a: nat, b: nat :: !TableMatch(sql, p, a, b)) ==> r == []
    ensures TableName(sql).Some? ==>
      r == if TableName(sql).value in s.tables then s.tables[TableName(sql).value] else []
  {
    QueryAllTable(s, TableName(sql))
  }

  // =====================================================================
  // execute

  /** What `execute` returns: `{ changes, lastInsertRowid }` (the latter
      `undefined` when the source leaves it out), `{ count }`, or a thrown
      TypeError from reading a collection that does not exist. */
  datatype Outcome = Changes(changes: nat, lastId: Value) | Counted(count: nat) | Failed

  /** `params[i] !== undefined ? params[i] : null` */
  function Bound(params: seq<Value>, i: int): (v: Value)
    ensures v != Undefined
    ensures Param(params, i) != Undefined ==> v == params[i]
    ensures Param(params, i) == Undefined ==> v == Null
  {
    if Param(params, i) != Undefined then params[i] else Null
  }

  /** Column `i` is not named again later in the list: its binding is the
      one that survives. */
  predicate LastOf(columns: seq<string>, i: int)
    requires 0 <= i < |columns|
  {
    forall j :: i < j < |columns| ==> columns[j] != columns[i]
  }

  /** The `columns.forEach` loop of the insert branch, applied to `r`. */
  function Bind(r: Record, columns: seq<string>, params: seq<Value>): Record
    decreases |columns|
  {
    if |columns| == 0 then r
    else
      var n := |columns| - 1;
      Bind(r, columns[..n], params)[columns[n] := Bound(params, n)]
  }

  /** The loop adds exactly the listed columns, leaves the others alone,
      and leaves each column holding the parameter of its last
      occurrence. */
  lemma {:induction false} BindFacts(r: Record, columns: seq<string>, params: seq<Value>)
    ensures var b := Bind(r, columns, params);
      && (forall c :: c in b <==> c in r || c in columns)
      && (forall c :: c in r && c !in columns ==> b[c] == r[c])
      && (forall i :: 0 <= i < |columns| && LastOf(columns, i) ==> b[columns[i]] == Bound(params, i))
    decreases |columns|
  {
    if |columns| > 0 {
      var n := |columns| - 1;
      var init := columns[..n];
      BindFacts(r, init, params);
      var b := Bind(r, columns, params);
      assert columns == init + [columns[n]];
      forall i | 0 <= i < |columns| && LastOf(columns, i) ensures b[columns[i]] == Bound(params, i) {
        if i < n {
          assert columns[i] != columns[n];
          assert init[i] == columns[i];
          assert LastOf(init, i);
        }
      }
    }
  }

  /** `if (!record[k]) record[k] = new Date().toISOString()` */
  function Stamp(r: Record, k: string, now: int): Record {
    if Truthy(Field(r, k)) then r else r[k := Time(now)]
  }

  /** The record the insert branch builds for id `id`. */
  function NewRecord(id: Value, columns: seq<string>, params: seq<Value>, now: int): Record {
    Stamp(Stamp(Bind(map["id" := id], columns, params), "created_at", now), "updated_at", now)
  }

  /** A new record has exactly the id, the two dates and the listed
      columns; the id survives unless a column names it; a column holds the
      parameter of its last occurrence unless it is a date column; both
      dates are set. */
  lemma NewRecordFacts(id: Value, columns: seq<string>, params: seq<Value>, now: int)
    ensures var r := NewRecord(id, columns, params, now);
      && (forall c :: c in r <==> c == "id" || c == "created_at" || c == "updated_at" || c in columns)
      && ("id" !in columns ==> r["id"] == id)
      && (forall i :: 0 <= i < |columns| && LastOf(columns, i)
                      && columns[i] != "created_at" && columns[i] != "updated_at" ==>
            r[columns[i]] == Bound(params, i))
      && Truthy(r["created_at"]) && Truthy(r["updated_at"])
  {
    BindFacts(map["id" := id], columns, params);
  }

  /** A column that does not occur again later in the list is its own
      last occurrence. */
  lemma LastOfByMembership(columns: seq<string>, i: nat)
    requires i < |columns| && columns[i] !in columns[i + 1..]
    ensures LastOf(columns, i)
  {
    forall j | i < j < |columns| ensures columns[j] != columns[i] {
      assert columns[j] == columns[i + 1..][j - i - 1];
    }
  }

  /** Column `i` of a new record, when no later column repeats it, holds
      parameter `i` (or `null`). */
  lemma NewRecordField(id: Value, columns: seq<string>, params: seq<Value>, now: int, i: nat)
    requires i < |columns| && columns[i] !in columns[i + 1..]
    requires columns[i] != "created_at" && columns[i] != "updated_at"
    ensures Field(NewRecord(id, columns, params, now), columns[i]) == Bound(params, i)
  {
    LastOfByMembership(columns, i);
    NewRecordFacts(id, columns, params, now);
  }

  /** A new record carries the id it was given and, when the statement
      names neither date column, the insert time in both. */
  lemma NewRecordStamps(id: Value, columns: seq<string>, params: seq<Value>, now: int)
    requires "id" !in columns && "created_at" !in columns && "updated_at" !in columns
    ensures var r := NewRecord(id, columns, params, now);
      Field(r, "id") == id && Field(r, "created_at") == Time(now) && Field(r, "updated_at") == Time(now)
  {
    BindFacts(map["id" := id], columns, params);
    var b := Bind(map["id" := id], columns, params);
    assert "created_at" !in b && "updated_at" !in b;
  }

  /** The counter step `db._nextId[table]++`: the id handed out, and the
      counters afterwards. */
  function NextId(next: map<string, int>, t: string): (r: (Value, map<string, int>))
    ensures t in next ==> r.0 == Num(next[t]) && r.1 == next[t := next[t] + 1]
    ensures t !in next ==> r.0 == NaN && r.1 == next
  {
    if t in next then (Num(next[t]), next[t := next[t] + 1]) else (NaN, next)
  }

  /** The insert branch: hand out the next id, bind column `i` to
      `params[i]`, stamp the dates, append. The counter moves even when the
      append then throws. */
  function Insert(s: Store, t: string, columns: seq<string>, params: seq<Value>, now: int): (r: (Store, Outcome))
    ensures t in s.next ==> r.0.next == s.next[t := s.next[t] + 1]
    ensures t !in s.next ==> r.0.next == s.next
    ensures t !in s.tables ==> r.0.tables == s.tables && r.1 == Failed
    ensures t in s.tables ==>
      var id := if t in s.next then Num(s.next[t]) else NaN;
      && r.1 == Changes(1, id)
      && r.0.tables == s.tables[t := s.tables[t] + [NewRecord(id, columns, params, now)]]
  {
    var (id, next) := NextId(s.next, t);
    if t !in s.tables then (s.(next := next), Failed)
    else (Store(s.tables[t := s.tables[t] + [NewRecord(id, columns, params, now)]], next), Changes(1, id))
  }

  /** The number of placeholder assignments in `as`. */
  function Holes(sets: seq<Assign>): nat {
    if |sets| == 0 then 0 else (if sets[0].placeholder then 1 else 0) + Holes(sets[1..])
  }

  /** Some placeholder assignment of `sets` names column `c`. */
  predicate Writes(sets: seq<Assign>, c: string) {
    exists k :: 0 <= k < |sets| && sets[k].placeholder && sets[k].column == c
  }

  /** What the tail of an assignment list writes, the list writes. */
  lemma WritesTail(sets: seq<Assign>, c: string)
    requires |sets| > 0
    ensures Writes(sets[1..], c) ==> Writes(sets, c)
  {
    if Writes(sets[1..], c) {
      var k :| 0 <= k < |sets[1..]| && sets[1..][k].placeholder && sets[1..][k].column == c;
      assert sets[k + 1].placeholder && sets[k + 1].column == c;
    }
  }

  /** The columns the placeholder assignments of `sets` name, in order. */
  function Placeholders(sets: seq<Assign>): (r: seq<string>)
    ensures |r| == Holes(sets)
  {
    if |sets| == 0 then [] else (if sets[0].placeholder then [sets[0].column] else []) + Placeholders(sets[1..])
  }

  /** An assignment list writes exactly the columns it lists placeholders
      for. */
  lemma {:induction false} WritesPlaceholders(sets: seq<Assign>, c: string)
    ensures Writes(sets, c) <==> c in Placeholders(sets)
    decreases |sets|
  {
    if |sets| > 0 {
      WritesPlaceholders(sets[1..], c);
      WritesTail(sets, c);
      if Writes(sets, c) && !(sets[0].placeholder && sets[0].column == c) {
        var k :| 0 <= k < |sets| && sets[k].placeholder && sets[k].column == c;
        assert sets[1..][k - 1] == sets[k];
      }
    }
  }

  /** Placeholder assignment `k` is the last one to name its column. */
  predicate LastWrite(sets: seq<Assign>, k: int)
    requires 0 <= k < |sets|
  {
    forall j :: k < j < |sets| && sets[j].placeholder ==> sets[j].column != sets[k].column
  }

  /** The `setPairs.forEach` loop of the update branch, applied to `r` with
      the parameters from index `i` on: each placeholder assignment takes
      the next parameter and writes it unless it is `undefined`; literal
      assignments are skipped and consume nothing. */
  function Assigned(r: Record, sets: seq<Assign>, params: seq<Value>, i: nat): Record
    decreases |sets|
  {
    if |sets| == 0 then r
    else if sets[0].placeholder then
      var v := Param(params, i);
      Assigned(if v != Undefined then r[sets[0].column := v] else r, sets[1..], params, i + 1)
    else Assigned(r, sets[1..], params, i)
  }

  /** Columns no placeholder assignment names keep their value. */
  lemma {:induction false} AssignedKeeps(r: Record, sets: seq<Assign>, params: seq<Value>, i: nat, c: string)
    requires !Writes(sets, c)
    ensures (c in Assigned(r, sets, params, i) <==> c in r)
    ensures c in r ==> Assigned(r, sets, params, i)[c] == r[c]
    decreases |sets|
  {
    if |sets| > 0 {
      WritesTail(sets, c);
      if sets[0].placeholder {
        assert sets[0].column != c by {
          assert sets[0].placeholder;
        }
        var v := Param(params, i);
        AssignedKeeps(if v != Undefined then r[sets[0].column := v] else r, sets[1..], params, i + 1, c);
      } else {
        AssignedKeeps(r, sets[1..], params, i, c);
      }
    }
  }

  /** Every key `Assigned` produces was already there or is named by a
      placeholder assignment. */
  lemma {:induction false} AssignedKeys(r: Record, sets: seq<Assign>, params: seq<Value>, i: nat)
    ensures r.Keys <= Assigned(r, sets, params, i).Keys
    ensures forall c :: c in Assigned(r, sets, params, i) ==> c in r || Writes(sets, c)
    decreases |sets|
  {
    if |sets| > 0 {
      var r' := if sets[0].placeholder && Param(params, i) != Undefined then r[sets[0].column := Param(params, i)] else r;
      var i' := if sets[0].placeholder then i + 1 else i;
      AssignedKeys(r', sets[1..], params, i');
      assert Assigned(r, sets, params, i) == Assigned(r', sets[1..], params, i');
      forall c | Writes(sets[1..], c) ensures Writes(sets, c) {
        WritesTail(sets, c);
      }
      if sets[0].placeholder {
        assert Writes(sets, sets[0].column) by { assert sets[0].placeholder && sets[0].column == sets[0].column; }
      }
    }
  }

  /** The last placeholder assignment of a column decides its value: the
      parameter at its position among the placeholders, when defined. */
  lemma {:induction false} AssignedWrites(r: Record, sets: seq<Assign>, params: seq<Value>, i: nat, k: nat)
    requires k < |sets| && sets[k].placeholder && LastWrite(sets, k)
    requires Param(params, i + Holes(sets[..k])) != Undefined
    ensures sets[k].column in Assigned(r, sets, params, i)
    ensures Assigned(r, sets, params, i)[sets[k].column] == Param(params, i + Holes(sets[..k]))
    decreases |sets|
  {
    var r' := if sets[0].placeholder && Param(params, i) != Undefined then r[sets[0].column := Param(params, i)] else r;
    var i' := if sets[0].placeholder then i + 1 else i;
    assert Assigned(r, sets, params, i) == Assigned(r', sets[1..], params, i');
    if k == 0 {
      assert Holes(sets[..0]) == 0;
      assert !Writes(sets[1..], sets[0].column) by {
        forall j | 0 <= j < |sets[1..]| && sets[1..][j].placeholder
          ensures sets[1..][j].column != sets[0].column
        {
          assert sets[j + 1].placeholder;
        }
      }
      AssignedKeeps(r', sets[1..], params, i', sets[0].column);
    } else {
      assert sets[..k] == [sets[0]] + sets[1..][..k - 1];
      assert Holes(sets[..k]) == (if sets[0].placeholder then 1 else 0) + Holes(sets[1..][..k - 1]);
      assert LastWrite(sets[1..], k - 1) by {
        forall j | k - 1 < j < |sets[1..]| && sets[1..][j].placeholder
          ensures sets[1..][j].column != sets[1..][k - 1].column
        {
          assert sets[j + 1].placeholder;
        }
      }
      AssignedWrites(r', sets[1..], params, i', k - 1);
    }
  }

  /** The update branch. The target is the first record whose id strictly
      equals the last parameter (parsed when text); if there is none, or
      the `set … where` expression does not match, nothing changes and
      `changes` is 0. */
  function Update(s: Store, t: string, assigns: Option<seq<Assign>>, params: seq<Value>, now: int): (r: (Store, Outcome))
    ensures r.0.next == s.next && r.0.tables.Keys == s.tables.Keys
    ensures r.1.Failed? <==> t !in s.tables
    ensures r.1.Failed? || r.1 == Changes(0, Undefined) ==> r.0 == s
    ensures t in s.tables ==>
      (r.1 == Changes(0, Undefined) <==>
        FindIndex(s.tables[t], Matches("id", Param(params, |params| - 1))).None? || assigns.None?)
    ensures t in s.tables && FindIndex(s.tables[t], Matches("id", Param(params, |params| - 1))).None? ==>
      r == (s, Changes(0, Undefined))
    ensures t in s.tables && assigns.None? ==> r == (s, Changes(0, Undefined))
  {
    if t !in s.tables then (s, Failed)
    else
      var rows := s.tables[t];
      match FindIndex(rows, Matches("id", Param(params, |params| - 1)))
      case None => (s, Changes(0, Undefined))
      case Some(k) =>
        match assigns
        case None => (s, Changes(0, Undefined))
        case Some(sets) =>
          var rec := Assigned(rows[k], sets, params, 0)["updated_at" := Time(now)];
          (s.(tables := s.tables[t := rows[k := rec]]), Changes(1, Undefined))
  }

  /** The update of the first record whose id matches the last parameter:
      its placeholder assignments applied and `updated_at` stamped; the
      other records and collections stay as they were. */
  lemma UpdateEffect(s: Store, t: string, sets: seq<Assign>, params: seq<Value>, now: int, k: nat)
    requires t in s.tables && FindIndex(s.tables[t], Matches("id", Param(params, |params| - 1))) == Some(k)
    ensures var (s', o) := Update(s, t, Some(sets), params, now);
      && o == Changes(1, Undefined)
      && s'.tables == s.tables[t := s.tables[t][k := Assigned(s.tables[t][k], sets, params, 0)["updated_at" := Time(now)]]]
  {}

  /** The test the delete branch keeps a record by: its id is not strictly
      equal to `id` (parsed when text). */
  function Keeps(id: Value): Record -> bool {
    (row: Record) => !StrictEquals(Field(row, "id"), CoerceId(id))
  }

  /** The delete branch: drop every record whose id strictly equals the
      first parameter (parsed when text); `changes` counts them. */
  function Delete(s: Store, t: string, params: seq<Value>): (r: (Store, Outcome))
    ensures r.0.next == s.next && r.0.tables.Keys == s.tables.Keys
    ensures t !in s.tables ==> r == (s, Failed)
    ensures t in s.tables ==>
      var kept := Filter(s.tables[t], Keeps(Param(params, 0)));
      && r.0.tables == s.tables[t := kept]
      && r.1 == Changes(|s.tables[t]| - |kept|, Undefined)
  {
    if t !in s.tables then (s, Failed)
    else
      var rows := s.tables[t];
      var kept := Filter(rows, Keeps(Param(params, 0)));
      (s.(tables := s.tables[t := kept]), Changes(|rows| - |kept|, Undefined))
  }

  /** `execute` on a statement already taken apart. */
  function ExecuteStmt(s: Store, st: Stmt, params: seq<Value>, now: int): (r: (Store, Outcome))
    ensures st.table.None? ==> r == (s, Changes(0, Null))
    ensures st.table.Some? && st.verb == InsertVerb ==> r == Insert(s, st.table.value, st.columns, params, now)
    ensures st.table.Some? && st.verb == UpdateVerb ==> r == Update(s, st.table.value, st.assigns, params, now)
    ensures st.table.Some? && st.verb == DeleteVerb ==> r == Delete(s, st.table.value, params)
    ensures st.table.Some? && st.verb == SelectVerb && st.hasCount ==>
      r == (s, if st.table.value in s.tables then Counted(|s.tables[st.table.value]|) else Failed)
    ensures st.table.Some? && (st.verb == OtherVerb || (st.verb == SelectVerb && !st.hasCount)) ==>
      r == (s, Changes(0, Null))
  {
    if st.table.None? then (s, Changes(0, Null))
    else
      var t := st.table.value;
      match st.verb
      case InsertVerb => Insert(s, t, st.columns, params, now)
      case UpdateVerb => Update(s, t, st.assigns, params, now)
      case DeleteVerb => Delete(s, t, params)
      case SelectVerb =>
        if !st.hasCount then (s, Changes(0, Null))
        else if t in s.tables then (s, Counted(|s.tables[t]|))
        else (s, Failed)
      case OtherVerb => (s, Changes(0, Null))
  }

  /** `execute(sql, params)` */
  function Execute(s: Store, sql: string, params: seq<Value>, now: int): (r: (Store, Outcome))
    ensures (forall p: nat, a: nat, b: nat :: !TableMatch(sql, p, a, b)) ==> r == (s, Changes(0, Null))
    ensures r == ExecuteStmt(s, Parse(sql), params, now)
  {
    ExecuteStmt(s, Parse(sql), params, now)
  }

  /** `transaction(callback)`: the callback's store and result. Saving is a
      no-op here, and nothing is undone when the callback throws: whatever
      it wrote before throwing stays written. */
  function Transaction<R>(s: Store, callback: Store -> (Store, R)): (Store, R) {
    callback(s)
  }

  // =====================================================================
  // Identifier discipline

  /** The record's id is a number. */
  predicate HasNumId(r: Record) {
    Field(r, "id").Num?
  }

  /** The record's numeric id (0 when it has none). */
  function IdOf(r: Record): int {
    if HasNumId(r) then Field(r, "id").n else 0
  }

  /** Every record has a numeric id, and ids strictly increase along the
      collection. */
  predicate Increasing(rows: seq<Record>) {
    && (forall i :: 0 <= i < |rows| ==> HasNumId(rows[i]))
    && (forall i, j :: 0 <= i < j < |rows| ==> IdOf(rows[i]) < IdOf(rows[j]))
  }

  /** Ids increase and stay below `bound`. */
  predicate Ordered(rows: seq<Record>, bound: int) {
    Increasing(rows) && forall i :: 0 <= i < |rows| ==> IdOf(rows[i]) < bound
  }

  /** Every collection has a counter ahead of all its ids, which strictly
      increase: the condition under which ids never repeat. */
  predicate WellFormed(s: Store) {
    forall t :: t in s.tables ==> t in s.next && Ordered(s.tables[t], s.next[t])
  }

  /** A well-formed collection holds at most one record per id. */
  lemma UniqueIds(rows: seq<Record>, i: nat, j: nat)
    requires Increasing(rows) && i < |rows| && j < |rows|
    requires Field(rows[i], "id") == Field(rows[j], "id")
    ensures i == j
  {
  }

  /** In a well-formed collection the id lookup finds the record with that
      id, and only it. */
  lemma FindById(rows: seq<Record>, k: nat)
    requires Increasing(rows) && k < |rows|
    ensures FindIndex(rows, Matches("id", Field(rows[k], "id"))) == Some(k)
  {
    var p := Matches("id", Field(rows[k], "id"));
    assert p(rows[k]);
    match FindIndex(rows, p)
    case Some(i) =>
      UniqueIds(rows, i, k);
    case None =>
  }

  /** The lookup finds record `k` when it passes and no earlier one does. */
  lemma FindFirst(rows: seq<Record>, p: Record -> bool, k: nat)
    requires k < |rows| && p(rows[k])
    requires forall i :: 0 <= i < k ==> !p(rows[i])
    ensures FindIndex(rows, p) == Some(k)
  {
    match FindIndex(rows, p)
    case Some(i) =>
    case None =>
  }

  /** Dropping the first record keeps ids increasing. */
  lemma IncreasingTail(rows: seq<Record>)
    requires Increasing(rows) && |rows| > 0
    ensures Increasing(rows[1..])
    ensures forall x :: x in rows[1..] ==> IdOf(rows[0]) < IdOf(x)
  {
    forall i, j | 0 <= i < j < |rows[1..]| ensures IdOf(rows[1..][i]) < IdOf(rows[1..][j]) {
      assert rows[1..][i] == rows[i + 1] && rows[1..][j] == rows[j + 1];
    }
    forall x | x in rows[1..] ensures IdOf(rows[0]) < IdOf(x) {
      var j :| 0 <= j < |rows[1..]| && rows[1..][j] == x;
      assert rows[j + 1] == x;
    }
  }

  /** A record with a numeric id below all of `rest` can go in front. */
  lemma IncreasingCons(x: Record, rest: seq<Record>)
    requires HasNumId(x) && Increasing(rest)
    requires forall y :: y in rest ==> IdOf(x) < IdOf(y)
    ensures Increasing([x] + rest)
  {
    var r := [x] + rest;
    forall i, j | 0 <= i < j < |r| ensures IdOf(r[i]) < IdOf(r[j]) {
      assert r[j] == rest[j - 1] && r[j] in rest;
      if i > 0 { assert r[i] == rest[i - 1]; }
    }
  }

  /** Filtering keeps ids increasing. */
  lemma {:induction false} FilterIncreasing(rows: seq<Record>, p: Record -> bool)
    requires Increasing(rows)
    ensures Increasing(Filter(rows, p))
  {
    if |rows| > 0 {
      IncreasingTail(rows);
      FilterIncreasing(rows[1..], p);
      var rest := Filter(rows[1..], p);
      if p(rows[0]) {
        assert Filter(rows, p) == [rows[0]] + rest;
        IncreasingCons(rows[0], rest);
      } else {
        assert Filter(rows, p) == rest;
      }
    }
  }

  /** Insert keeps the store well-formed when the statement does not bind
      the `id` column itself, and the new id is fresh: no earlier record of
      the collection carries it. */
  lemma InsertKeepsWellFormed(s: Store, t: string, columns: seq<string>, params: seq<Value>, now: int)
    requires WellFormed(s) && t in s.tables && "id" !in columns
    ensures WellFormed(Insert(s, t, columns, params, now).0)
    ensures forall i :: 0 <= i < |s.tables[t]| ==> Field(s.tables[t][i], "id") != NextId(s.next, t).0
  {
    var s' := Insert(s, t, columns, params, now).0;
    var rows := s.tables[t];
    var rec := NewRecord(Num(s.next[t]), columns, params, now);
    NewRecordFacts(Num(s.next[t]), columns, params, now);
    assert Field(rec, "id") == Num(s.next[t]);
    var rows' := rows + [rec];
    assert s'.tables[t] == rows';
    assert Ordered(rows', s.next[t] + 1) by {
      forall i | 0 <= i < |rows'| ensures HasNumId(rows'[i]) && IdOf(rows'[i]) < s.next[t] + 1 {
        if i < |rows| { assert rows'[i] == rows[i]; }
      }
      forall i, j | 0 <= i < j < |rows'| ensures IdOf(rows'[i]) < IdOf(rows'[j]) {
        assert rows'[i] == rows[i];
        if j < |rows| { assert rows'[j] == rows[j]; }
      }
    }
  }

  /** Records that keep their ids keep the order of the ids. */
  lemma SameIdsOrdered(rows: seq<Record>, rows': seq<Record>, bound: int)
    requires Ordered(rows, bound) && |rows'| == |rows|
    requires forall i :: 0 <= i < |rows| ==> Field(rows'[i], "id") == Field(rows[i], "id")
    ensures Ordered(rows', bound)
  {
    assert forall i :: 0 <= i < |rows| ==> IdOf(rows'[i]) == IdOf(rows[i]);
  }

  /** Replacing one collection by one ordered under the same counter keeps
      the store well-formed. */
  lemma ReplaceKeepsWellFormed(s: Store, t: string, rows': seq<Record>)
    requires WellFormed(s) && t in s.tables && Ordered(rows', s.next[t])
    ensures WellFormed(s.(tables := s.tables[t := rows']))
  {
  }

  /** Update keeps the store well-formed when no placeholder assignment
      names `id`. */
  lemma UpdateKeepsWellFormed(s: Store, t: string, assigns: Option<seq<Assign>>, params: seq<Value>, now: int)
    requires WellFormed(s)
    requires assigns.Some? ==> !Writes(assigns.value, "id")
    ensures WellFormed(Update(s, t, assigns, params, now).0)
  {
    if t in s.tables && assigns.Some? {
      var rows := s.tables[t];
      match FindIndex(rows, Matches("id", Param(params, |params| - 1)))
      case None =>
      case Some(k) =>
        var rec := Assigned(rows[k], assigns.value, params, 0)["updated_at" := Time(now)];
        UpdateEffect(s, t, assigns.value, params, now, k);
        AssignedKeeps(rows[k], assigns.value, params, 0, "id");
        assert Field(rec, "id") == Field(rows[k], "id");
        SameIdsOrdered(rows, rows[k := rec], s.next[t]);
        ReplaceKeepsWellFormed(s, t, rows[k := rec]);
    }
  }

  /** Delete keeps the store well-formed. */
  lemma DeleteKeepsWellFormed(s: Store, t: string, params: seq<Value>)
    requires WellFormed(s)
    ensures WellFormed(Delete(s, t, params).0)
  {
    if t in s.tables {
      var rows := s.tables[t];
      var kept := Filter(rows, Keeps(Param(params, 0)));
      FilterIncreasing(rows, Keeps(Param(params, 0)));
      forall i | 0 <= i < |kept| ensures IdOf(kept[i]) < s.next[t] {
        assert kept[i] in rows;
      }
    }
  }

  // =====================================================================
  // What an update leaves alone

  /** The two stores have the same collections, and all but collection
      `t` hold the same records. */
  predicate Elsewhere(s: Store, s': Store, t: string) {
    && s'.tables.Keys == s.tables.Keys
    && forall u :: u in s.tables && u != t ==> s'.tables[u] == s.tables[u]
  }

  lemma ElsewhereTrans(a: Store, b: Store, d: Store, t: string)
    requires Elsewhere(a, b, t) && Elsewhere(b, d, t)
    ensures Elsewhere(a, d, t)
  {
  }

  /** An update touches no collection but its own. */
  lemma UpdateElsewhere(s: Store, t: string, assigns: Option<seq<Assign>>, params: seq<Value>, now: int)
    ensures Elsewhere(s, Update(s, t, assigns, params, now).0, t)
  {
  }

  /** The two stores have the same collections, of the same lengths, and
      agree on column `c` of every record. */
  predicate SameColumn(s: Store, s': Store, c: string) {
    && s'.tables.Keys == s.tables.Keys
    && forall t :: t in s.tables ==>
         && |s'.tables[t]| == |s.tables[t]|
         && forall i :: 0 <= i < |s.tables[t]| ==> Field(s'.tables[t][i], c) == Field(s.tables[t][i], c)
  }

  lemma SameColumnTrans(a: Store, b: Store, d: Store, c: string)
    requires SameColumn(a, b, c) && SameColumn(b, d, c)
    ensures SameColumn(a, d, c)
  {
  }

  /** An update changes no column other than `updated_at` and those its
      placeholder assignments name. */
  lemma UpdateKeepsColumn(s: Store, t: string, assigns: Option<seq<Assign>>, params: seq<Value>, now: int, c: string)
    requires c != "updated_at" && (assigns.Some? ==> !Writes(assigns.value, c))
    ensures SameColumn(s, Update(s, t, assigns, params, now).0, c)
  {
    if t in s.tables && assigns.Some? {
      match FindIndex(s.tables[t], Matches("id", Param(params, |params| - 1)))
      case None =>
      case Some(k) =>
        AssignedKeeps(s.tables[t][k], assigns.value, params, 0, c);
    }
  }

  // =====================================================================
  // Round trips

  /** The statement `SELECT * FROM t WHERE id = ?`, taken apart. */
  function ById(t: string): Stmt {
    Stmt(Some(t), SelectVerb, false, true, Some("id = ?"), Some("id"), [], None)
  }

  /** The statement `DELETE FROM t WHERE id = ?`, taken apart. */
  function DeleteById(t: string): Stmt {
    Stmt(Some(t), DeleteVerb, false, true, Some("id = ?"), Some("id"), [], None)
  }

  /** After an insert into a well-formed store, looking the new id up
      returns the new record. */
  lemma InsertThenFind(s: Store, t: string, columns: seq<string>, params: seq<Value>, now: int)
    requires WellFormed(s) && t in s.tables && "id" !in columns
    ensures var (s', o) := Insert(s, t, columns, params, now);
      && o.Changes? && o.lastId == Num(s.next[t])
      && QueryOneStmt(s', ById(t), [o.lastId]) == Row(NewRecord(Num(s.next[t]), columns, params, now))
  {
    InsertKeepsWellFormed(s, t, columns, params, now);
    var s' := Insert(s, t, columns, params, now).0;
    var rows' := s'.tables[t];
    var k := |rows'| - 1;
    NewRecordFacts(Num(s.next[t]), columns, params, now);
    assert rows'[k] == NewRecord(Num(s.next[t]), columns, params, now);
    FindById(rows', k);
  }

  /** Deleting by the counter value drops exactly a record appended under
      it. */
  lemma DropNewest(rows: seq<Record>, bound: int, rec: Record)
    requires Ordered(rows, bound) && Field(rec, "id") == Num(bound)
    ensures Filter(rows + [rec], Keeps(Param([Num(bound)], 0))) == rows
  {
    var p := Keeps(Param([Num(bound)], 0));
    assert !p(rec);
    assert Filter([rec], p) == [] by {
      assert Filter([rec], p) == (if p(rec) then [rec] else []) + Filter([rec][1..], p);
    }
    FilterAppend(rows, [rec], p);
    assert forall i :: 0 <= i < |rows| ==> p(rows[i]);
    FilterAll(rows, p);
  }

  /** Deleting the id an insert handed out gives back the collections as
      they were; only the counter has moved on. */
  lemma InsertThenDelete(s: Store, t: string, columns: seq<string>, params: seq<Value>, now: int)
    requires WellFormed(s) && t in s.tables && "id" !in columns
    ensures var (s1, o1) := Insert(s, t, columns, params, now);
      var (s2, o2) := ExecuteStmt(s1, DeleteById(t), [o1.lastId], now);
      && s2.tables == s.tables
      && s2.next == s.next[t := s.next[t] + 1]
      && o2 == Changes(1, Undefined)
  {
    var (s1, o1) := Insert(s, t, columns, params, now);
    var rec := NewRecord(Num(s.next[t]), columns, params, now);
    NewRecordFacts(Num(s.next[t]), columns, params, now);
    assert s1.tables[t] == s.tables[t] + [rec];
    DropNewest(s.tables[t], s.next[t], rec);
    assert Delete(s1, t, [o1.lastId]).0.tables == s1.tables[t := s.tables[t]];
  }

  /** After an update of a record of a well-formed store, looking its id up
      returns the record with the assignments applied and a fresh
      `updated_at`. */
  lemma UpdateThenFind(s: Store, t: string, assigns: seq<Assign>, params: seq<Value>, now: int, k: nat)
    requires WellFormed(s) && t in s.tables && k < |s.tables[t]| && !Writes(assigns, "id")
    requires |params| > 0 && params[|params| - 1] == Field(s.tables[t][k], "id")
    ensures var (s', o) := Update(s, t, Some(assigns), params, now);
      && o == Changes(1, Undefined)
      && QueryOneStmt(s', ById(t), [Field(s.tables[t][k], "id")])
         == Row(Assigned(s.tables[t][k], assigns, params, 0)["updated_at" := Time(now)])
  {
    FindById(s.tables[t], k);
    UpdateKeepsWellFormed(s, t, Some(assigns), params, now);
    var s' := Update(s, t, Some(assigns), params, now).0;
    AssignedKeeps(s.tables[t][k], assigns, params, 0, "id");
    FindById(s'.tables[t], k);
  }

  // =====================================================================
  // Loading and seeding

  /** `r.id || 0` as `Math.max` reads it, or None for NaN. Text ids are
      NaN here (see README). */
  function IdNumber(r: Record): (n: Option<int>)
    ensures Field(r, "id").Num? ==> n == Some(Field(r, "id").n)
    ensures !Truthy(Field(r, "id")) ==> n == Some(0)
  {
    match Or(Field(r, "id"), Num(0))
    case Num(n) => Some(n)
    case Bool(b) => Some(if b then 1 else 0)
    case Null => Some(0)
    case _ => None
  }

  /** `rows.length > 0 ? Math.max(...rows.map(r => r.id || 0)) : 0`, or
      None when the maximum is NaN. */
  function MaxId(rows: seq<Record>): (m: Option<int>)
    ensures m.Some? <==> forall i :: 0 <= i < |rows| ==> IdNumber(rows[i]).Some?
    ensures m.Some? ==> forall i :: 0 <= i < |rows| ==> IdNumber(rows[i]).value <= m.value
    ensures m.Some? && |rows| > 0 ==> exists i :: 0 <= i < |rows| && IdNumber(rows[i]).value == m.value
    ensures |rows| == 0 ==> m == Some(0)
  {
    if |rows| == 0 then Some(0)
    else if |rows| == 1 then IdNumber(rows[0])
    else
      match (IdNumber(rows[0]), MaxId(rows[1..]))
      case (Some(a), Some(b)) =>
        assert forall i :: 1 <= i < |rows| ==> rows[i] == rows[1..][i - 1];
        Some(if a < b then b else a)
      case (None, _) => None
      case (Some(_), None) =>
        assert forall i :: 0 <= i < |rows[1..]| ==> rows[1..][i] == rows[i + 1];
        None
  }

  /** The counters `loadDatabase` computes when the snapshot has none: max
      id plus one per collection (1 when empty), none where that is NaN. */
  function Recount(tables: map<string, seq<Record>>): (next: map<string, int>)
    ensures next.Keys <= tables.Keys
    ensures forall t :: t in tables ==> (t in next <==> MaxId(tables[t]).Some?)
    ensures forall t :: t in next ==> next[t] == MaxId(tables[t]).value + 1
  {
    map t | t in tables && MaxId(tables[t]).Some? :: MaxId(tables[t]).value + 1
  }

  /** `loadDatabase` after the snapshot is parsed: the counters are kept
      when the snapshot has them and recomputed otherwise. */
  function Load(tables: map<string, seq<Record>>, counters: Option<map<string, int>>): (s: Store)
    ensures s.tables == tables
    ensures counters.Some? ==> s.next == counters.value
    ensures counters.None? ==> s.next == Recount(tables)
  {
    Store(tables, if counters.Some? then counters.value else Recount(tables))
  }

  /** Recomputed counters are ahead of every numeric id, so the next insert
      into a loaded collection cannot repeat an id; an empty collection
      starts again at 1. */
  lemma LoadCountersAhead(tables: map<string, seq<Record>>, t: string)
    requires t in tables
    ensures var s := Load(tables, None);
      && (|tables[t]| == 0 ==> s.next[t] == 1)
      && (t in s.next ==> forall i :: 0 <= i < |tables[t]| && HasNumId(tables[t][i]) ==>
            IdOf(tables[t][i]) < s.next[t])
  {
  }

  /** A loaded snapshot whose ids are numeric and increasing is well-formed
      under recomputed counters. */
  lemma LoadWellFormed(tables: map<string, seq<Record>>)
    requires forall t :: t in tables ==> Increasing(tables[t])
    ensures WellFormed(Load(tables, None))
  {
    var s := Load(tables, None);
    forall t | t in tables ensures t in s.next && Ordered(tables[t], s.next[t]) {
      assert MaxId(tables[t]).Some?;
    }
  }

  const AdminEmail: string := "admin@adorch.local"

  /** The admin record `seedDatabase` creates, with the password hash and
      the counter value it is given. */
  function AdminRecord(id: Value, hash: string, now: int): Record {
    map[
      "id" := id,
      "email" := Str(AdminEmail),
      "password_hash" := Str(hash),
      "name" := Str("Admin User"),
      "role" := Str("admin"),
      "department" := Str("Management"),
      "status" := Str("active"),
      "avatar" := Null,
      "created_at" := Time(now),
      "updated_at" := Time(now)]
  }

  /** Some user has the admin e-mail address. */
  predicate HasAdmin(users: seq<Record>) {
    exists i :: 0 <= i < |users| && StrictEquals(Field(users[i], "email"), Str(AdminEmail))
  }

  /** `seedDatabase`: append the admin user unless one with its address
      exists; None when there is no users collection (the lookup throws). */
  function Seed(s: Store, hash: string, now: int): (r: Option<Store>)
    ensures "users" !in s.tables <==> r.None?
    ensures r.Some? && HasAdmin(s.tables["users"]) ==> r.value == s
    ensures r.Some? && !HasAdmin(s.tables["users"]) ==>
      && r.value.next == NextId(s.next, "users").1
      && r.value.tables == s.tables["users" := s.tables["users"] + [AdminRecord(NextId(s.next, "users").0, hash, now)]]
  {
    if "users" !in s.tables then None
    else
      var users := s.tables["users"];
      match FindIndex(users, (u: Record) => StrictEquals(Field(u, "email"), Str(AdminEmail)))
      case Some(_) => Some(s)
      case None =>
        var (id, next) := NextId(s.next, "users");
        Some(Store(s.tables["users" := users + [AdminRecord(id, hash, now)]], next))
  }

  /** Seeding twice is seeding once, and afterwards an admin exists. */
  lemma SeedIdempotent(s: Store, hash: string, now: int, hash': string, now': int)
    requires "users" in s.tables
    ensures Seed(s, hash, now).Some?
    ensures HasAdmin(Seed(s, hash, now).value.tables["users"])
    ensures Seed(Seed(s, hash, now).value, hash', now') == Seed(s, hash, now)
  {
    var s1 := Seed(s, hash, now).value;
    if !HasAdmin(s.tables["users"]) {
      var users' := s1.tables["users"];
      var k := |users'| - 1;
      assert Field(users'[k], "email") == Str(AdminEmail);
      assert HasAdmin(users');
    }
  }

  /** Seeding keeps the store well-formed. */
  lemma SeedKeepsWellFormed(s: Store, hash: string, now: int)
    requires WellFormed(s) && "users" in s.tables
    ensures WellFormed(Seed(s, hash, now).value)
  {
    if !HasAdmin(s.tables["users"]) {
      var s1 := Seed(s, hash, now).value;
      var rows := s.tables["users"];
      var rows' := s1.tables["users"];
      assert rows' == rows + [AdminRecord(Num(s.next["users"]), hash, now)];
      assert Ordered(rows', s.next["users"] + 1) by {
        forall i | 0 <= i < |rows'| ensures HasNumId(rows'[i]) && IdOf(rows'[i]) < s.next["users"] + 1 {
          if i < |rows| { assert rows'[i] == rows[i]; }
        }
        forall i, j | 0 <= i < j < |rows'| ensures IdOf(rows'[i]) < IdOf(rows'[j]) {
          assert rows'[i] == rows[i];
          if j < |rows| { assert rows'[j] == rows[j]; }
        }
      }
    }
  }
}
