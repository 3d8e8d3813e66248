/** Importing a `;`-separated CSV whose header names columns of the
    scraper's table and a `recordtype_int` column: each record gets the next
    rowid, and a child record is linked to the most recent parent record,
    predicted from the order of the file rather than stored in it. */
module CsvImport {
  import opened Common
  import opened Decimal

  /** The Python type a column is declared with. */
  datatype ColumnType = StrType | BoolType | IntType

  datatype Value = Text(s: string) | Flag(b: bool) | Number(n: int)

  /** A row to insert: the predicted `parent_id`, then the converted fields. */
  datatype ImportRow = ImportRow(parentId: Option<nat>, values: seq<Value>)

  /** What is carried from one batch to the next. */
  datatype BatchState = BatchState(next: nat, lastParent: Option<nat>)

  datatype Batch = Batch(rows: seq<ImportRow>, state: BatchState)

  datatype ImportError =
    | MissingRecordType        // the record is shorter than the record type column index
    | NotAnInteger(text: string) // `int(val)` raises ValueError
    | ExtraField               // more fields than header columns: IndexError
    | WrongBindings            // fewer fields than header columns: the insert's ProgrammingError

  const ParentType: int := 1
  const ChildType: int := 2

  /** Converting one field by its column type: booleans are true exactly for
      "1", integers are parsed, text is kept. */
  function ConvertField(t: ColumnType, v: string): (r: Result<Value, ImportError>)
    ensures t == StrType ==> r == Ok(Text(v))
    ensures t == BoolType ==> r == Ok(Flag(v == "1"))
    ensures t == IntType ==> (r.Ok? <==> IsIntText(v)) && (r.Ok? ==> r.value.Number? && Some(r.value.n) == ParseInt(v))
  {
    match t
    case StrType => Ok(Text(v))
    case BoolType => Ok(Flag(v == "1"))
    case IntType =>
      match ParseInt(v)
      case None => Err(NotAnInteger(v))
      case Some(n) => Ok(Number(n))
  }

  /** The field loop of `process_batch`: each field converted by the type
      of the header column at its position. */
  function ConvertRow(types: seq<ColumnType>, row: seq<string>): (r: Result<seq<Value>, ImportError>)
    ensures r.Ok? ==> |r.value| == |row| && |row| <= |types|
    ensures r.Ok? ==> forall i :: 0 <= i < |row| ==> ConvertField(types[i], row[i]) == Ok(r.value[i])
    ensures |row| > |types| ==> r.Err?
  {
    if |row| == 0 then Ok([])
    else if |types| == 0 then Err(ExtraField)
    else
      match ConvertField(types[0], row[0])
      case Err(e) => Err(e)
      case Ok(v) =>
        match ConvertRow(types[1..], row[1..])
        case Err(e) => Err(e)
        case Ok(vs) => Ok([v] + vs)
  }

  /** One record: the parent prediction step, then the conversion. */
  function ProcessRow(types: seq<ColumnType>, rtIndex: nat, row: seq<string>, st: BatchState): Result<(ImportRow, BatchState), ImportError>
  {
    if rtIndex >= |row| then Err(MissingRecordType)
    else
      match ParseInt(row[rtIndex])
      case None => Err(NotAnInteger(row[rtIndex]))
      case Some(rt) =>
        var parentId := if rt == ChildType then st.lastParent else None;
        var current := if rt == ParentType then Some(st.next) else st.lastParent;
        match ConvertRow(types, row)
        case Err(e) => Err(e)
        case Ok(vs) => Ok((ImportRow(parentId, vs), BatchState(st.next + 1, current)))
  }

  /** `process_batch(batch, start_rowid, last_parent)`. */
  function ProcessBatch(types: seq<ColumnType>, rtIndex: nat, batch: seq<seq<string>>, st: BatchState): (r: Result<Batch, ImportError>)
    ensures r.Ok? ==> |r.value.rows| == |batch| && r.value.state.next == st.next + |batch|
    decreases |batch|
  {
    if |batch| == 0 then Ok(Batch([], st))
    else
      match ProcessRow(types, rtIndex, batch[0], st)
      case Err(e) => Err(e)
      case Ok(step) =>
        match ProcessBatch(types, rtIndex, batch[1..], step.1)
        case Err(e) => Err(e)
        case Ok(b) => Ok(Batch([step.0] + b.rows, b.state))
  }

  /** Some record of the batch has a field count other than the header's,
      so its insert binds the wrong number of values. */
  predicate MisCounted(types: seq<ColumnType>, batch: seq<seq<string>>)
  {
    exists i :: 0 <= i < |batch| && |batch[i]| != |types|
  }

  /** The main loop: batches processed in turn, the state threaded through.
      A batch is converted in full before `executemany` inserts it, so a
      record with too few fields fails at the insert, after the conversion
      of its batch succeeded; nothing is committed then. */
  function ProcessBatches(types: seq<ColumnType>, rtIndex: nat, batches: seq<seq<seq<string>>>, st: BatchState): Result<Batch, ImportError>
    decreases |batches|
  {
    if |batches| == 0 then Ok(Batch([], st))
    else
      match ProcessBatch(types, rtIndex, batches[0], st)
      case Err(e) => Err(e)
      case Ok(b) =>
        if MisCounted(types, batches[0]) then Err(WrongBindings)
        else
        match ProcessBatches(types, rtIndex, batches[1..], b.state)
        case Err(e) => Err(e)
        case Ok(rest) => Ok(Batch(b.rows + rest.rows, rest.state))
  }

  // ---------------------------------------------------------------- reference

  /** The rowid of the last parent record among the first records of a
      file whose first rowid is `start`, or `init` when there is none. */
  function LastParent(rts: seq<int>, start: nat, init: Option<nat>): (r: Option<nat>)
    decreases |rts|
  {
    if |rts| == 0 then init
    else if rts[|rts| - 1] == ParentType then Some(start + |rts| - 1)
    else LastParent(rts[..|rts| - 1], start, init)
  }

  /** With no parent record `LastParent` falls back to `init`. */
  lemma {:induction false} LastParentNone(rts: seq<int>, start: nat, init: Option<nat>)
    requires forall k :: 0 <= k < |rts| ==> rts[k] != ParentType
    ensures LastParent(rts, start, init) == init
    decreases |rts|
  {
    if |rts| > 0 {
      var front := rts[..|rts| - 1];
      assert forall k :: 0 <= k < |front| ==> front[k] == rts[k];
      LastParentNone(front, start, init);
    }
  }

  /** When record `k` is the last parent record, `LastParent` is its
      rowid. */
  lemma {:induction false} LastParentIsLast(rts: seq<int>, start: nat, init: Option<nat>, k: nat)
    requires k < |rts| && rts[k] == ParentType
    requires forall m :: k < m < |rts| ==> rts[m] != ParentType
    ensures LastParent(rts, start, init) == Some(start + k)
    decreases |rts|
  {
    if k < |rts| - 1 {
      var front := rts[..|rts| - 1];
      assert forall m :: 0 <= m < |front| ==> front[m] == rts[m];
      LastParentIsLast(front, start, init, k);
    }
  }

  lemma LastParentSnoc(rts: seq<int>, rt: int, start: nat, init: Option<nat>)
    ensures LastParent(rts + [rt], start, init) == if rt == ParentType then Some(start + |rts|) else LastParent(rts, start, init)
  {
    assert (rts + [rt])[..|rts|] == rts;
  }

  /** The record types of a batch whose record type fields all parse. */
  function RecordTypes(rtIndex: nat, batch: seq<seq<string>>): (r: Option<seq<int>>)
    ensures r.Some? ==> |r.value| == |batch|
    ensures r.Some? ==> forall i :: 0 <= i < |batch| ==> rtIndex < |batch[i]| && ParseInt(batch[i][rtIndex]) == Some(r.value[i])
  {
    if |batch| == 0 then Some([])
    else if rtIndex >= |batch[0]| then None
    else
      match ParseInt(batch[0][rtIndex])
      case None => None
      case Some(rt) =>
        match RecordTypes(rtIndex, batch[1..])
        case None => None
        case Some(rest) => Some([rt] + rest)
  }

  /** Rowids and parent links of a processed batch against the reference:
      record `i` has rowid `start + i`; a child is linked to the last
      parent before it, carried over from earlier batches when the batch
      has none; other records have no parent; and the state handed on
      names the last parent. */
  predicate Predicted(rts: seq<int>, st: BatchState, b: Batch)
    requires |rts| == |b.rows|
  {
    && b.state == BatchState(st.next + |rts|, LastParent(rts, st.next, st.lastParent))
    && forall i :: 0 <= i < |rts| ==>
         b.rows[i].parentId == (if rts[i] == ChildType then LastParent(rts[..i], st.next, st.lastParent) else None)
  }

  /** A successful record parsed its record type; its parent link and the
      state after it are the prediction step. */
  lemma ProcessRowStep(types: seq<ColumnType>, rtIndex: nat, row: seq<string>, st: BatchState)
    requires ProcessRow(types, rtIndex, row, st).Ok?
    ensures rtIndex < |row| && ParseInt(row[rtIndex]).Some?
    ensures var rt := ParseInt(row[rtIndex]).value;
      var step := ProcessRow(types, rtIndex, row, st).value;
      && step.0.parentId == (if rt == ChildType then st.lastParent else None)
      && step.1 == BatchState(st.next + 1, if rt == ParentType then Some(st.next) else st.lastParent)
  {
  }

  /** A successful batch parsed every record type. */
  lemma {:induction false} ProcessBatchTypes(types: seq<ColumnType>, rtIndex: nat, batch: seq<seq<string>>, st: BatchState)
    requires ProcessBatch(types, rtIndex, batch, st).Ok?
    ensures RecordTypes(rtIndex, batch).Some?
    decreases |batch|
  {
    if |batch| > 0 {
      ProcessRowStep(types, rtIndex, batch[0], st);
      ProcessBatchTypes(types, rtIndex, batch[1..], ProcessRow(types, rtIndex, batch[0], st).value.1);
    }
  }

  /** A successful batch follows the reference prediction. */
  lemma ProcessBatchPredicts(types: seq<ColumnType>, rtIndex: nat, batch: seq<seq<string>>, st: BatchState)
    requires ProcessBatch(types, rtIndex, batch, st).Ok?
    ensures RecordTypes(rtIndex, batch).Some?
    ensures Predicted(RecordTypes(rtIndex, batch).value, st, ProcessBatch(types, rtIndex, batch, st).value)
  {
    ProcessBatchTypes(types, rtIndex, batch, st);
    var rts := RecordTypes(rtIndex, batch).value;
    PredictState(types, rtIndex, batch, rts, [], st, st);
    PredictLinks(types, rtIndex, batch, rts, [], st, st);
    assert [] + rts == rts;
    forall i | 0 <= i < |rts|
      ensures [] + rts[..i] == rts[..i]
    {
    }
  }

  /** The induction behind `ProcessBatchPredicts`, for the state handed
      on: after records with types `done` have been processed from `st0`,
      the rest follows on. */
  lemma {:induction false} PredictState(types: seq<ColumnType>, rtIndex: nat, batch: seq<seq<string>>, rts: seq<int>,
                                        done: seq<int>, st0: BatchState, st: BatchState)
    requires st == BatchState(st0.next + |done|, LastParent(done, st0.next, st0.lastParent))
    requires ProcessBatch(types, rtIndex, batch, st).Ok?
    requires RecordTypes(rtIndex, batch) == Some(rts)
    ensures ProcessBatch(types, rtIndex, batch, st).value.state
            == BatchState(st0.next + |done| + |rts|, LastParent(done + rts, st0.next, st0.lastParent))
    decreases |batch|
  {
    if |batch| == 0 {
      assert done + rts == done;
    } else {
      var step := ProcessRow(types, rtIndex, batch[0], st).value;
      FirstStep(types, rtIndex, batch, rts, done, st0, st);
      PredictState(types, rtIndex, batch[1..], rts[1..], done + [rts[0]], st0, step.1);
      AppendFirst(done, rts);
      ProcessBatchUnfold(types, rtIndex, batch, st);
    }
  }

  /** The state after the first record of a batch, in reference terms. */
  lemma FirstStep(types: seq<ColumnType>, rtIndex: nat, batch: seq<seq<string>>, rts: seq<int>,
                  done: seq<int>, st0: BatchState, st: BatchState)
    requires st == BatchState(st0.next + |done|, LastParent(done, st0.next, st0.lastParent))
    requires |batch| > 0 && ProcessBatch(types, rtIndex, batch, st).Ok?
    requires RecordTypes(rtIndex, batch) == Some(rts)
    ensures ProcessRow(types, rtIndex, batch[0], st).Ok?
    ensures ProcessBatch(types, rtIndex, batch[1..], ProcessRow(types, rtIndex, batch[0], st).value.1).Ok?
    ensures RecordTypes(rtIndex, batch[1..]) == Some(rts[1..])
    ensures ProcessRow(types, rtIndex, batch[0], st).value.1
            == BatchState(st0.next + |done + [rts[0]]|, LastParent(done + [rts[0]], st0.next, st0.lastParent))
  {
    ProcessRowStep(types, rtIndex, batch[0], st);
    LastParentSnoc(done, rts[0], st0.next, st0.lastParent);
  }

  /** A successful batch is its first record followed by the rest. */
  lemma ProcessBatchUnfold(types: seq<ColumnType>, rtIndex: nat, batch: seq<seq<string>>, st: BatchState)
    requires |batch| > 0 && ProcessBatch(types, rtIndex, batch, st).Ok?
    ensures ProcessRow(types, rtIndex, batch[0], st).Ok?
    ensures var step := ProcessRow(types, rtIndex, batch[0], st).value;
      var tail := ProcessBatch(types, rtIndex, batch[1..], step.1);
      && tail.Ok?
      && ProcessBatch(types, rtIndex, batch, st).value == Batch([step.0] + tail.value.rows, tail.value.state)
  {
  }

  lemma AppendFirst(done: seq<int>, rts: seq<int>)
    requires |rts| > 0
    ensures done + [rts[0]] + rts[1..] == done + rts
  {
    assert rts == [rts[0]] + rts[1..];
  }

  /** The same induction for the parent links. */
  lemma {:induction false} PredictLinks(types: seq<ColumnType>, rtIndex: nat, batch: seq<seq<string>>, rts: seq<int>,
                                        done: seq<int>, st0: BatchState, st: BatchState)
    requires st == BatchState(st0.next + |done|, LastParent(done, st0.next, st0.lastParent))
    requires ProcessBatch(types, rtIndex, batch, st).Ok?
    requires RecordTypes(rtIndex, batch) == Some(rts)
    ensures forall i :: 0 <= i < |rts| ==>
      ProcessBatch(types, rtIndex, batch, st).value.rows[i].parentId
        == (if rts[i] == ChildType then LastParent(done + rts[..i], st0.next, st0.lastParent) else None)
    decreases |batch|
  {
    if |batch| > 0 {
      ProcessRowStep(types, rtIndex, batch[0], st);
      var rt, rest := rts[0], rts[1..];
      var step := ProcessRow(types, rtIndex, batch[0], st).value;
      LastParentSnoc(done, rt, st0.next, st0.lastParent);
      PredictLinks(types, rtIndex, batch[1..], rest, done + [rt], st0, step.1);
      var tail := ProcessBatch(types, rtIndex, batch[1..], step.1).value.rows;
      assert ProcessBatch(types, rtIndex, batch, st).value.rows == [step.0] + tail;
      var rows := ProcessBatch(types, rtIndex, batch, st).value.rows;
      forall i | 0 <= i < |rts|
        ensures rows[i].parentId == (if rts[i] == ChildType then LastParent(done + rts[..i], st0.next, st0.lastParent) else None)
      {
        if i == 0 {
          assert done + rts[..0] == done;
        } else {
          PrefixShift(done, rts, i);
          assert rows[i] == tail[i - 1] && rts[i] == rest[i - 1];
        }
      }
    }
  }

  lemma PrefixShift(done: seq<int>, rts: seq<int>, i: nat)
    requires 0 < i <= |rts|
    ensures done + [rts[0]] + rts[1..][..i - 1] == done + rts[..i]
  {
    assert rts[..i] == [rts[0]] + rts[1..][..i - 1];
  }

  /** Processing two batches in turn, the state threaded between them,
      gives the rows and the state of processing them as one batch. */
  lemma {:induction false} ProcessBatchAppend(types: seq<ColumnType>, rtIndex: nat, a: seq<seq<string>>, b: seq<seq<string>>, st: BatchState)
    ensures ProcessBatch(types, rtIndex, a + b, st) ==
      match ProcessBatch(types, rtIndex, a, st)
      case Err(e) => Err(e)
      case Ok(x) =>
        match ProcessBatch(types, rtIndex, b, x.state)
        case Err(e) => Err(e)
        case Ok(y) => Ok(Batch(x.rows + y.rows, y.state))
    decreases |a|
  {
    if |a| == 0 {
      assert a + b == b;
      match ProcessBatch(types, rtIndex, b, st)
      case Err(e) =>
      case Ok(y) => assert [] + y.rows == y.rows;
    } else {
      assert (a + b)[0] == a[0] && (a + b)[1..] == a[1..] + b;
      match ProcessRow(types, rtIndex, a[0], st)
      case Err(e) =>
      case Ok(step) =>
        ProcessBatchAppend(types, rtIndex, a[1..], b, step.1);
        match ProcessBatch(types, rtIndex, a[1..], step.1)
        case Err(e) =>
        case Ok(x) =>
          match ProcessBatch(types, rtIndex, b, x.state)
          case Err(e) =>
          case Ok(y) => assert [step.0] + x.rows + y.rows == [step.0] + (x.rows + y.rows);
    }
  }

  lemma MisCountedAppend(types: seq<ColumnType>, a: seq<seq<string>>, b: seq<seq<string>>)
    ensures MisCounted(types, a + b) <==> MisCounted(types, a) || MisCounted(types, b)
  {
    if MisCounted(types, b) {
      var i :| 0 <= i < |b| && |b[i]| != |types|;
      assert (a + b)[|a| + i] == b[i];
    }
    if MisCounted(types, a) {
      var i :| 0 <= i < |a| && |a[i]| != |types|;
      assert (a + b)[i] == a[i];
    }
    if MisCounted(types, a + b) {
      var i :| 0 <= i < |a + b| && |(a + b)[i]| != |types|;
      if i >= |a| {
        assert (a + b)[i] == b[i - |a|];
      }
    }
  }

  /** The batch loop succeeds exactly when processing the whole file as one
      batch succeeds and every record has as many fields as the header, and
      then gives the same rows and final state. It fails with a conversion
      error exactly as the one batch would. */
  lemma {:induction false} BatchesAreOneBatch(types: seq<ColumnType>, rtIndex: nat, batches: seq<seq<seq<string>>>, st: BatchState)
    ensures ProcessBatches(types, rtIndex, batches, st).Ok? <==>
      ProcessBatch(types, rtIndex, Flatten(batches), st).Ok? && !MisCounted(types, Flatten(batches))
    ensures ProcessBatches(types, rtIndex, batches, st).Ok? ==>
      ProcessBatches(types, rtIndex, batches, st) == ProcessBatch(types, rtIndex, Flatten(batches), st)
    ensures ProcessBatches(types, rtIndex, batches, st).Err? && ProcessBatches(types, rtIndex, batches, st).error != WrongBindings ==>
      ProcessBatches(types, rtIndex, batches, st) == ProcessBatch(types, rtIndex, Flatten(batches), st)
    decreases |batches|
  {
    if |batches| > 0 {
      var rest := Flatten(batches[1..]);
      assert Flatten(batches) == batches[0] + rest;
      ProcessBatchAppend(types, rtIndex, batches[0], rest, st);
      MisCountedAppend(types, batches[0], rest);
      match ProcessBatch(types, rtIndex, batches[0], st)
      case Err(e) =>
      case Ok(x) =>
        if !MisCounted(types, batches[0]) {
          BatchesAreOneBatch(types, rtIndex, batches[1..], x.state);
        }
    }
  }

  /** Header `a;recordtype_int;b` and the record `x;0`: the record converts,
      but its insert binds two values for three columns and fails. */
  lemma ShortRecordExample()
    ensures ProcessBatches([StrType, IntType, StrType], 1, [[["x", "0"]]], BatchState(1, None)) == Err(WrongBindings)
  {
    var batch := [["x", "0"]];
    assert ParseInt("0") == Some(0) by {
      ParseIntNatToString(0);
      assert NatToString(0) == "0";
    }
    assert MisCounted([StrType, IntType, StrType], batch) by {
      assert |batch[0]| != 3;
    }
  }
}
