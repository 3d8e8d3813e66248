/** The column-domain validator: a `WHERE` clause built from the column
    table selects the rows whose boolean columns hold something other than
    'true'/'false' or whose enumerated columns hold a value outside their
    list, under SQL's three-valued logic. */
module ColumnCheck {
  import opened Common
  import opened Schema

  /** SQL truth values: true, false, and unknown (from a NULL operand). */
  datatype Truth = True | False | Unknown

  function And(a: Truth, b: Truth): Truth
  {
    if a == False || b == False then False
    else if a == True && b == True then True
    else Unknown
  }

  function Or(a: Truth, b: Truth): Truth
  {
    if a == True || b == True then True
    else if a == False && b == False then False
    else Unknown
  }

  /** `v != 'lit'`. */
  function NotEqual(v: Option<string>, lit: string): Truth
  {
    match v
    case None => Unknown
    case Some(s) => if s != lit then True else False
  }

  /** `v NOT IN ('a', 'b', ...)` with a list free of NULLs. */
  function NotIn(v: Option<string>, lits: seq<string>): Truth
  {
    match v
    case None => Unknown
    case Some(s) => if s in lits then False else True
  }

  /** One condition of the clause. */
  datatype Condition = BoolCondition(col: string) | EnumCondition(col: string, allowed: seq<string>)

  /** The conditions, boolean columns first, then enumerations. */
  function Conditions(cols: seq<(string, ColType)>): (r: seq<Condition>)
    ensures |r| == |BoolColumnsOf(cols)| + |EnumColumnsOf(cols)|
    ensures forall i :: 0 <= i < |BoolColumnsOf(cols)| ==> r[i] == BoolCondition(BoolColumnsOf(cols)[i])
    ensures forall i :: 0 <= i < |EnumColumnsOf(cols)| ==>
      r[|BoolColumnsOf(cols)| + i] == EnumCondition(EnumColumnsOf(cols)[i].0, EnumColumnsOf(cols)[i].1)
  {
    BoolConditions(BoolColumnsOf(cols)) + EnumConditions(EnumColumnsOf(cols))
  }

  function BoolConditions(cols: seq<string>): (r: seq<Condition>)
    ensures |r| == |cols|
    ensures forall i :: 0 <= i < |cols| ==> r[i] == BoolCondition(cols[i])
  {
    if |cols| == 0 then [] else [BoolCondition(cols[0])] + BoolConditions(cols[1..])
  }

  function EnumConditions(cols: seq<(string, seq<string>)>): (r: seq<Condition>)
    ensures |r| == |cols|
    ensures forall i :: 0 <= i < |cols| ==> r[i] == EnumCondition(cols[i].0, cols[i].1)
  {
    if |cols| == 0 then [] else [EnumCondition(cols[0].0, cols[0].1)] + EnumConditions(cols[1..])
  }

  /** A row of the scraped table: the stored text of each column, or NULL. */
  type Row = map<string, Option<string>>

  function Value(row: Row, col: string): Option<string>
  {
    if col in row then row[col] else None
  }

  /** The truth of one condition on a row. */
  function Eval(c: Condition, row: Row): Truth
  {
    match c
    case BoolCondition(col) => And(NotEqual(Value(row, col), "true"), NotEqual(Value(row, col), "false"))
    case EnumCondition(col, allowed) => NotIn(Value(row, col), allowed)
  }

  /** The conditions joined with `OR`. */
  function EvalAll(cs: seq<Condition>, row: Row): Truth
    requires |cs| > 0
  {
    if |cs| == 1 then Eval(cs[0], row) else Or(Eval(cs[0], row), EvalAll(cs[1..], row))
  }

  /** Whether condition `c` holds a present, out-of-domain value. */
  predicate Violates(c: Condition, row: Row)
  {
    match c
    case BoolCondition(col) => Value(row, col).Some? && Value(row, col).value != "true" && Value(row, col).value != "false"
    case EnumCondition(col, allowed) => Value(row, col).Some? && Value(row, col).value !in allowed
  }

  /** A condition is true exactly when its column holds a present value
      outside the domain; a NULL makes it unknown, never true. */
  lemma EvalMeaning(c: Condition, row: Row)
    ensures Eval(c, row) == True <==> Violates(c, row)
    ensures Value(row, c.col).None? ==> Eval(c, row) == Unknown
  {
  }

  /** `WHERE` selects a row exactly when one of the conditions is violated. */
  lemma {:induction false} EvalAllMeaning(cs: seq<Condition>, row: Row)
    requires |cs| > 0
    ensures EvalAll(cs, row) == True <==> exists i :: 0 <= i < |cs| && Violates(cs[i], row)
  {
    EvalMeaning(cs[0], row);
    if |cs| > 1 {
      EvalAllMeaning(cs[1..], row);
      if exists i :: 0 <= i < |cs| && Violates(cs[i], row) {
        var i :| 0 <= i < |cs| && Violates(cs[i], row);
        if i > 0 {
          assert cs[1..][i - 1] == cs[i];
        }
      }
      if exists i :: 0 <= i < |cs[1..]| && Violates(cs[1..][i], row) {
        var i :| 0 <= i < |cs[1..]| && Violates(cs[1..][i], row);
        assert cs[i + 1] == cs[1..][i];
      }
    }
  }

  /** A row whose checked columns are all NULL is never selected. */
  lemma NullNeverFlags(cs: seq<Condition>, row: Row)
    requires |cs| > 0
    requires forall i :: 0 <= i < |cs| ==> Value(row, cs[i].col).None?
    ensures EvalAll(cs, row) != True
  {
    EvalAllMeaning(cs, row);
  }

  datatype CheckError =
    | EmptyWhereClause         // no typed column: `WHERE` followed by nothing
    | NoSuchColumn(col: string)

  const ErrorRowLimit: nat := 100

  /** The rows `WHERE` selects, in scan order. */
  function Selected(cs: seq<Condition>, rows: seq<Row>): (r: seq<Row>)
    requires |cs| > 0
    ensures |r| <= |rows|
    ensures forall x :: x in r ==> x in rows && EvalAll(cs, x) == True
  {
    if |rows| == 0 then []
    else (if EvalAll(cs, rows[0]) == True then [rows[0]] else []) + Selected(cs, rows[1..])
  }

  lemma {:induction false} SelectedComplete(cs: seq<Condition>, rows: seq<Row>)
    requires |cs| > 0
    ensures |Selected(cs, rows)| == 0 <==> forall i :: 0 <= i < |rows| ==> EvalAll(cs, rows[i]) != True
  {
    if |rows| > 0 {
      SelectedComplete(cs, rows[1..]);
      assert forall i :: 1 <= i < |rows| ==> rows[i] == rows[1..][i - 1];
    }
  }

  /** The first condition whose column the table lacks, if any. */
  function MissingColumn(cs: seq<Condition>, columns: set<string>): (r: Option<string>)
    ensures r.None? <==> forall i :: 0 <= i < |cs| ==> cs[i].col in columns
    ensures r.Some? ==> r.value !in columns
  {
    if |cs| == 0 then None
    else if cs[0].col !in columns then Some(cs[0].col)
    else
      var r := MissingColumn(cs[1..], columns);
      assert forall i :: 1 <= i < |cs| ==> cs[i] == cs[1..][i - 1];
      r
  }

  /** The query: `SELECT * … WHERE <conditions> LIMIT 100`. */
  function BadRows(cols: seq<(string, ColType)>, columns: set<string>, rows: seq<Row>): Result<seq<Row>, CheckError>
  {
    var cs := Conditions(cols);
    if |cs| == 0 then Err(EmptyWhereClause)
    else
      match MissingColumn(cs, columns)
      case Some(c) => Err(NoSuchColumn(c))
      case None =>
        var sel := Selected(cs, rows);
        Ok(sel[..if |sel| < ErrorRowLimit then |sel| else ErrorRowLimit])
  }

  /** `main`'s exit status. */
  function ExitStatus(cols: seq<(string, ColType)>, columns: set<string>, rows: seq<Row>): nat
  {
    match BadRows(cols, columns, rows)
    case Err(_) => 1
    case Ok(bad) => if |bad| > 0 then 1 else 0
  }

  /** At most 100 rows are reported, each with a violated condition; the
      status is 1 exactly when the query fails or some row of the table
      violates a condition, and 0 otherwise. */
  lemma CheckMeaning(cols: seq<(string, ColType)>, columns: set<string>, rows: seq<Row>)
    ensures BadRows(cols, columns, rows).Ok? ==>
      var cs := Conditions(cols);
      && |BadRows(cols, columns, rows).value| <= ErrorRowLimit
      && forall x :: x in BadRows(cols, columns, rows).value ==> x in rows && exists i :: 0 <= i < |cs| && Violates(cs[i], x)
    ensures ExitStatus(cols, columns, rows) == 1 <==>
      BadRows(cols, columns, rows).Err?
      || exists k, i :: 0 <= k < |rows| && 0 <= i < |Conditions(cols)| && Violates(Conditions(cols)[i], rows[k])
  {
    var cs := Conditions(cols);
    if |cs| > 0 && MissingColumn(cs, columns).None? {
      var sel := Selected(cs, rows);
      var bad := BadRows(cols, columns, rows).value;
      assert bad == sel[..if |sel| < ErrorRowLimit then |sel| else ErrorRowLimit];
      forall x | x in bad
        ensures x in rows && exists i :: 0 <= i < |cs| && Violates(cs[i], x)
      {
        assert x in sel;
        EvalAllMeaning(cs, x);
      }
      SelectedComplete(cs, rows);
      forall k | 0 <= k < |rows|
        ensures EvalAll(cs, rows[k]) == True <==> exists i :: 0 <= i < |cs| && Violates(cs[i], rows[k])
      {
        EvalAllMeaning(cs, rows[k]);
      }
    }
  }

  /** For the scraper's column table the clause checks `commercial`,
      `webadress` and `advertising` against 'true'/'false', and
      `recordtype` against single/parent/child. */
  lemma ScraperConditions(cols: seq<(string, ColType)>)
    requires cols == Columns
    ensures Conditions(cols) == [BoolCondition("commercial"), BoolCondition("webadress"),
                                 BoolCondition("advertising"), EnumCondition("recordtype", RecordTypes)]
  {
    TypedColumnsAre(cols);
  }
}
