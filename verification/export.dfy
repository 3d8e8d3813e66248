/** The deduplicating export: source rows are copied into a temporary table
    as (record type, id, parent id, payload string); parents, children and
    singles are each grouped by payload; and the output lists parents and
    singles in payload order, each parent followed by its children. */
module Export {
  import opened Common
  import opened PayloadCodec
  import opened StrOrder

  const Single: nat := 0
  const Parent: nat := 1
  const Child: nat := 2

  /** A row of the source table: key, parent link, record type (when the
      table has that column) and the payload column values. */
  datatype SourceRow = SourceRow(id: int, parentId: Option<int>, recordType: Cell, values: seq<Cell>)

  /** A row of the `temp` table. */
  datatype TempRow = TempRow(recordType: nat, id: int, parentId: Option<int>, payload: string)

  /** A line handed to the CSV writer: the type column and the payload whose
      fields follow it. */
  datatype Line = Line(kind: nat, payload: string)

  // ---------------------------------------------------------------- stage 1

  /** Stage 1: one temp row per source row. A table without a `recordtype`
      column makes every row a single. */
  function CopyRows(src: seq<SourceRow>, cols: seq<string>, hasRecordType: bool): (r: Result<seq<TempRow>, CodecError>)
    requires forall i :: 0 <= i < |src| ==> |src[i].values| == |cols|
    ensures r.Ok? ==> |r.value| == |src|
    ensures r.Ok? ==> forall i :: 0 <= i < |src| ==>
      var t := r.value[i];
      t.id == src[i].id && t.parentId == src[i].parentId
      && t.recordType == (if hasRecordType then RecordTypeToInt(src[i].recordType) else Single)
      && Ok(t.payload) == SerializePayload(cols, src[i].values)
    ensures r.Err? <==> exists i :: 0 <= i < |src| && SerializePayload(cols, src[i].values).Err?
  {
    if |src| == 0 then Ok([])
    else
      var s := src[0];
      match SerializePayload(cols, s.values)
      case Err(e) => Err(e)
      case Ok(p) =>
        var rt := if hasRecordType then RecordTypeToInt(s.recordType) else Single;
        match CopyRows(src[1..], cols, hasRecordType)
        case Err(e) =>
          assert forall i :: 1 <= i < |src| ==> src[i] == src[1..][i - 1];
          Err(e)
        case Ok(rest) =>
          assert forall i :: 1 <= i < |src| ==> src[i] == src[1..][i - 1];
          Ok([TempRow(rt, s.id, s.parentId, p)] + rest)
  }

  // ---------------------------------------------------------------- stages 2-5

  /** The payloads of the rows of one record type, in table order. */
  function PayloadsOf(rows: seq<TempRow>, kind: nat): (r: seq<string>)
    ensures forall p :: p in r <==> exists i :: 0 <= i < |rows| && rows[i].recordType == kind && rows[i].payload == p
  {
    if |rows| == 0 then []
    else
      var rest := PayloadsOf(rows[1..], kind);
      assert forall i :: 1 <= i < |rows| ==> rows[i] == rows[1..][i - 1];
      (if rows[0].recordType == kind then [rows[0].payload] else []) + rest
  }

  /** Stage 3, `parents`: one row per distinct parent payload, ascending. */
  function Parents(rows: seq<TempRow>): seq<string>
  {
    Group(PayloadsOf(rows, Parent))
  }

  /** Stage 5, `singles`: one row per distinct single payload, ascending. */
  function Singles(rows: seq<TempRow>): seq<string>
  {
    Group(PayloadsOf(rows, Single))
  }

  /** `MIN(id)` over the parent rows with payload `p`. */
  function MinParentId(rows: seq<TempRow>, p: string): Option<int>
  {
    if |rows| == 0 then None
    else
      var rest := MinParentId(rows[1..], p);
      if rows[0].recordType == Parent && rows[0].payload == p then
        Some(if rest.Some? && rest.value < rows[0].id then rest.value else rows[0].id)
      else rest
  }

  /** The id kept for a parent payload is the least id among the parent
      rows carrying it, and exists exactly when one does. */
  lemma {:induction false} MinParentIdMeaning(rows: seq<TempRow>, p: string)
    ensures MinParentId(rows, p).Some? <==> exists i :: 0 <= i < |rows| && rows[i].recordType == Parent && rows[i].payload == p
    ensures MinParentId(rows, p).Some? ==>
      (exists i :: 0 <= i < |rows| && rows[i].recordType == Parent && rows[i].payload == p && rows[i].id == MinParentId(rows, p).value)
      && (forall i :: 0 <= i < |rows| && rows[i].recordType == Parent && rows[i].payload == p ==> MinParentId(rows, p).value <= rows[i].id)
  {
    if |rows| > 0 {
      MinParentIdMeaning(rows[1..], p);
      assert forall i :: 1 <= i < |rows| ==> rows[i] == rows[1..][i - 1];
      var rest := MinParentId(rows[1..], p);
      if rest.Some? {
        var k :| 0 <= k < |rows[1..]| && rows[1..][k].recordType == Parent && rows[1..][k].payload == p && rows[1..][k].id == rest.value;
        assert rows[k + 1] == rows[1..][k];
      }
      if rows[0].recordType == Parent && rows[0].payload == p {
        assert rows[0].recordType == Parent && rows[0].payload == p;
      }
    }
  }

  // ---------------------------------------------------------------- stage 2

  /** Two parent rows share an id. */
  predicate DuplicateParentIds(rows: seq<TempRow>)
  {
    exists i, j :: 0 <= i < j < |rows| && rows[i].recordType == Parent && rows[j].recordType == Parent
                   && rows[i].id == rows[j].id
  }

  /** Stage 2, `parent_map`: the parent rows' ids and payloads, inserted in
      table order under `id INTEGER PRIMARY KEY`. A parent whose id is
      already mapped makes the insert raise, which ends the export; the
      error names that id. */
  function ParentMap(rows: seq<TempRow>): Result<map<int, string>, int>
  {
    if |rows| == 0 then Ok(map[])
    else
      var last := rows[|rows| - 1];
      match ParentMap(rows[..|rows| - 1])
      case Err(id) => Err(id)
      case Ok(m) =>
        if last.recordType != Parent then Ok(m)
        else if last.id in m then Err(last.id)
        else Ok(m[last.id := last.payload])
  }

  /** `parent_map` is built exactly when no two parent rows share an id; it
      then maps every parent row's id to that row's payload and holds no
      other id. Otherwise the id it stops at belongs to two parent rows. */
  lemma {:induction false} ParentMapMeaning(rows: seq<TempRow>)
    ensures ParentMap(rows).Err? <==> DuplicateParentIds(rows)
    ensures ParentMap(rows).Err? ==>
      exists i, j :: 0 <= i < j < |rows| && rows[i].recordType == Parent && rows[j].recordType == Parent
                     && rows[i].id == ParentMap(rows).error && rows[j].id == ParentMap(rows).error
    ensures ParentMap(rows).Ok? ==> forall id :: id in ParentMap(rows).value <==>
      exists i :: 0 <= i < |rows| && rows[i].recordType == Parent && rows[i].id == id
    ensures ParentMap(rows).Ok? ==> forall i :: 0 <= i < |rows| && rows[i].recordType == Parent ==>
      rows[i].id in ParentMap(rows).value && ParentMap(rows).value[rows[i].id] == rows[i].payload
  {
    if |rows| > 0 {
      var n := |rows| - 1;
      var init, last := rows[..n], rows[n];
      ParentMapMeaning(init);
      assert forall i :: 0 <= i < n ==> init[i] == rows[i];
      match ParentMap(init)
      case Err(id) =>
        var i, j :| 0 <= i < j < n && init[i].recordType == Parent && init[j].recordType == Parent
                    && init[i].id == id && init[j].id == id;
        assert rows[i] == init[i] && rows[j] == init[j];
      case Ok(m) =>
        if last.recordType == Parent && last.id in m {
          var i :| 0 <= i < n && init[i].recordType == Parent && init[i].id == last.id;
          assert rows[i] == init[i];
        } else {
          forall i, j | 0 <= i < j < |rows| && rows[i].recordType == Parent && rows[j].recordType == Parent
            ensures rows[i].id != rows[j].id
          {
            assert rows[i] == init[i];
            if j < n {
              assert rows[j] == init[j];
            }
          }
        }
    }
  }

  /** Stage 4's join `JOIN parent_map pm ON t.parent_id = pm.id`, read off
      the parent rows directly: the payloads of the parent rows whose id is
      `pid`. */
  function ParentPayloadsWithId(rows: seq<TempRow>, pid: int): seq<string>
  {
    if |rows| == 0 then []
    else
      var here := if rows[0].recordType == Parent && rows[0].id == pid then [rows[0].payload] else [];
      here + ParentPayloadsWithId(rows[1..], pid)
  }

  lemma {:induction false} ParentPayloadsWithIdNone(rows: seq<TempRow>, pid: int)
    requires forall i :: 0 <= i < |rows| && rows[i].recordType == Parent ==> rows[i].id != pid
    ensures ParentPayloadsWithId(rows, pid) == []
  {
    if |rows| > 0 {
      assert forall i :: 0 <= i < |rows| - 1 ==> rows[1..][i] == rows[i + 1];
      ParentPayloadsWithIdNone(rows[1..], pid);
    }
  }

  /** The join finds exactly the payloads of the parent rows with that id,
      and, when no two parent rows share an id (the only case in which
      `parent_map` is built), at most one. */
  lemma {:induction false} ParentPayloadsWithIdMembers(rows: seq<TempRow>, pid: int, p: string)
    ensures p in ParentPayloadsWithId(rows, pid) <==>
      exists i :: 0 <= i < |rows| && rows[i].recordType == Parent && rows[i].id == pid && rows[i].payload == p
    ensures !DuplicateParentIds(rows) ==> |ParentPayloadsWithId(rows, pid)| <= 1
  {
    if |rows| > 0 {
      var tail := rows[1..];
      assert forall i :: 0 <= i < |tail| ==> tail[i] == rows[i + 1];
      if !DuplicateParentIds(rows) {
        forall i, j | 0 <= i < j < |tail| && tail[i].recordType == Parent && tail[j].recordType == Parent
          ensures tail[i].id != tail[j].id
        {
          assert tail[i] == rows[i + 1] && tail[j] == rows[j + 1];
        }
        if rows[0].recordType == Parent && rows[0].id == pid {
          forall i | 0 <= i < |tail| && tail[i].recordType == Parent
            ensures tail[i].id != pid
          {
            assert tail[i] == rows[i + 1];
          }
          ParentPayloadsWithIdNone(tail, pid);
        }
      }
      ParentPayloadsWithIdMembers(tail, pid, p);
      if rows[0].recordType == Parent && rows[0].id == pid && rows[0].payload == p {
        assert rows[0].recordType == Parent;
      }
    }
  }

  /** When `parent_map` is built, joining a child's parent id through it
      gives the same payload as the direct join above: the mapped payload
      when the id is mapped, and nothing otherwise. */
  lemma ParentMapJoin(rows: seq<TempRow>, pid: int)
    requires ParentMap(rows).Ok?
    ensures var m := ParentMap(rows).value;
      ParentPayloadsWithId(rows, pid) == if pid in m then [m[pid]] else []
  {
    var m := ParentMap(rows).value;
    ParentMapMeaning(rows);
    if pid in m {
      var i :| 0 <= i < |rows| && rows[i].recordType == Parent && rows[i].id == pid;
      ParentPayloadsWithIdMembers(rows, pid, m[pid]);
      var r := ParentPayloadsWithId(rows, pid);
      assert m[pid] in r;
      assert |r| == 1 && r[0] == m[pid];
    } else {
      forall i | 0 <= i < |rows| && rows[i].recordType == Parent
        ensures rows[i].id != pid
      {
      }
      ParentPayloadsWithIdNone(rows, pid);
    }
  }

  /** Whether child row `c` joins a parent row carrying payload `p`. */
  predicate ChildOf(all: seq<TempRow>, c: TempRow, p: string)
  {
    c.recordType == Child && c.parentId.Some? && p in ParentPayloadsWithId(all, c.parentId.value)
  }

  /** The payloads of the children (among `rows`) whose parent carries
      payload `p`; children without a matching parent join nothing. */
  function ChildPayloadsUnder(rows: seq<TempRow>, all: seq<TempRow>, p: string): (r: seq<string>)
    ensures forall q :: q in r <==> exists i :: 0 <= i < |rows| && ChildOf(all, rows[i], p) && rows[i].payload == q
  {
    if |rows| == 0 then []
    else
      var rest := ChildPayloadsUnder(rows[1..], all, p);
      assert forall i :: 1 <= i < |rows| ==> rows[i] == rows[1..][i - 1];
      (if ChildOf(all, rows[0], p) then [rows[0].payload] else []) + rest
  }

  /** Stage 4 then `WHERE parent_payload = ? ORDER BY payload_csv`: the
      distinct child payloads under parent payload `p`, ascending. */
  function ChildrenOf(rows: seq<TempRow>, p: string): seq<string>
  {
    Group(ChildPayloadsUnder(rows, rows, p))
  }

  /** A child payload is listed under `p` exactly when some child row with
      that payload points at a parent row with payload `p`; the list is
      strictly ascending, so each such pair appears once. Children of
      parents that share a payload are merged under it. */
  lemma ChildrenOfMeaning(rows: seq<TempRow>, p: string, q: string)
    ensures Sorted(ChildrenOf(rows, p))
    ensures q in ChildrenOf(rows, p) <==>
      exists i, j :: 0 <= i < |rows| && 0 <= j < |rows|
        && rows[i].recordType == Child && rows[i].payload == q
        && rows[j].recordType == Parent && rows[j].payload == p
        && rows[i].parentId == Some(rows[j].id)
  {
    GroupFacts(ChildPayloadsUnder(rows, rows, p));
    if q in ChildrenOf(rows, p) {
      var i :| 0 <= i < |rows| && ChildOf(rows, rows[i], p) && rows[i].payload == q;
      ParentPayloadsWithIdMembers(rows, rows[i].parentId.value, p);
    }
    if exists i, j :: 0 <= i < |rows| && 0 <= j < |rows|
        && rows[i].recordType == Child && rows[i].payload == q
        && rows[j].recordType == Parent && rows[j].payload == p
        && rows[i].parentId == Some(rows[j].id) {
      var i, j :| 0 <= i < |rows| && 0 <= j < |rows|
        && rows[i].recordType == Child && rows[i].payload == q
        && rows[j].recordType == Parent && rows[j].payload == p
        && rows[i].parentId == Some(rows[j].id);
      ParentPayloadsWithIdMembers(rows, rows[j].id, p);
      assert ChildOf(rows, rows[i], p);
    }
  }

  // ---------------------------------------------------------------- stage 6

  function LinesOf(kind: nat, ps: seq<string>): (r: seq<Line>)
    ensures |r| == |ps|
    ensures forall i :: 0 <= i < |ps| ==> r[i] == Line(kind, ps[i])
  {
    if |ps| == 0 then [] else [Line(kind, ps[0])] + LinesOf(kind, ps[1..])
  }

  /** `parent_single ORDER BY payload_csv`: parents and singles merged by
      payload. On equal payloads the parent comes first: it was inserted
      first, and the payload index breaks ties by row order. */
  function Merge(ps: seq<string>, ss: seq<string>): seq<Line>
    decreases |ps| + |ss|
  {
    if |ps| == 0 then LinesOf(Single, ss)
    else if |ss| == 0 then LinesOf(Parent, ps)
    else if Less(ss[0], ps[0]) then [Line(Single, ss[0])] + Merge(ps, ss[1..])
    else [Line(Parent, ps[0])] + Merge(ps[1..], ss)
  }

  /** The payloads of the lines of one kind, in order. */
  function OfKind(ls: seq<Line>, kind: nat): seq<string>
  {
    if |ls| == 0 then []
    else (if ls[0].kind == kind then [ls[0].payload] else []) + OfKind(ls[1..], kind)
  }

  lemma {:induction false} OfKindLines(kind: nat, ps: seq<string>, other: nat)
    requires other != kind
    ensures OfKind(LinesOf(kind, ps), kind) == ps
    ensures OfKind(LinesOf(kind, ps), other) == []
  {
    if |ps| > 0 {
      OfKindLines(kind, ps[1..], other);
      assert LinesOf(kind, ps)[1..] == LinesOf(kind, ps[1..]);
    }
  }

  /** Merging loses and invents nothing: the parent lines are the parents
      and the single lines the singles, each in their own order. */
  lemma {:induction false} MergeSplits(ps: seq<string>, ss: seq<string>)
    ensures OfKind(Merge(ps, ss), Parent) == ps
    ensures OfKind(Merge(ps, ss), Single) == ss
    ensures |Merge(ps, ss)| == |ps| + |ss|
    decreases |ps| + |ss|
  {
    if |ps| == 0 {
      OfKindLines(Single, ss, Parent);
    } else if |ss| == 0 {
      OfKindLines(Parent, ps, Single);
    } else if Less(ss[0], ps[0]) {
      MergeSplits(ps, ss[1..]);
      assert ([Line(Single, ss[0])] + Merge(ps, ss[1..]))[1..] == Merge(ps, ss[1..]);
    } else {
      MergeSplits(ps[1..], ss);
      assert ([Line(Parent, ps[0])] + Merge(ps[1..], ss))[1..] == Merge(ps[1..], ss);
    }
  }

  lemma {:induction false} MergeMembers(ps: seq<string>, ss: seq<string>, l: Line)
    ensures l in Merge(ps, ss) <==> (l.kind == Parent && l.payload in ps) || (l.kind == Single && l.payload in ss)
    decreases |ps| + |ss|
  {
    if |ps| == 0 {
    } else if |ss| == 0 {
    } else if Less(ss[0], ps[0]) {
      MergeMembers(ps, ss[1..], l);
      assert ss == [ss[0]] + ss[1..];
    } else {
      MergeMembers(ps[1..], ss, l);
      assert ps == [ps[0]] + ps[1..];
    }
  }

  /** Output order of parent/single lines: by payload, parent first on a tie. */
  predicate LineBefore(a: Line, b: Line)
  {
    Less(a.payload, b.payload) || (a.payload == b.payload && a.kind == Parent && b.kind == Single)
  }

  /** Merging two strictly ascending lists gives lines strictly ordered by
      payload, a parent before a single with the same payload. */
  lemma {:induction false} MergeOrdered(ps: seq<string>, ss: seq<string>)
    requires Sorted(ps) && Sorted(ss)
    ensures forall i, j :: 0 <= i < j < |Merge(ps, ss)| ==> LineBefore(Merge(ps, ss)[i], Merge(ps, ss)[j])
    decreases |ps| + |ss|
  {
    var m := Merge(ps, ss);
    if |ps| == 0 || |ss| == 0 {
    } else if Less(ss[0], ps[0]) {
      var t := Merge(ps, ss[1..]);
      MergeOrdered(ps, ss[1..]);
      assert m == [Line(Single, ss[0])] + t;
      forall j | 0 < j < |m|
        ensures LineBefore(m[0], m[j])
      {
        assert m[j] == t[j - 1] && m[j] in t;
        MergeMembers(ps, ss[1..], m[j]);
        if m[j].kind == Parent {
          var k :| 0 <= k < |ps| && ps[k] == m[j].payload;
          if k > 0 {
            LessTransitive(ss[0], ps[0], ps[k]);
          }
        } else {
          var k :| 0 <= k < |ss[1..]| && ss[1..][k] == m[j].payload;
          assert ss[k + 1] == m[j].payload;
        }
      }
      forall i, j | 0 <= i < j < |m|
        ensures LineBefore(m[i], m[j])
      {
        if i > 0 {
          assert m[i] == t[i - 1] && m[j] == t[j - 1];
        }
      }
    } else {
      var t := Merge(ps[1..], ss);
      MergeOrdered(ps[1..], ss);
      assert m == [Line(Parent, ps[0])] + t;
      if ss[0] != ps[0] {
        LessTotal(ss[0], ps[0]);
      }
      forall j | 0 < j < |m|
        ensures LineBefore(m[0], m[j])
      {
        assert m[j] == t[j - 1] && m[j] in t;
        MergeMembers(ps[1..], ss, m[j]);
        if m[j].kind == Parent {
          var k :| 0 <= k < |ps[1..]| && ps[1..][k] == m[j].payload;
          assert ps[k + 1] == m[j].payload;
        } else {
          var k :| 0 <= k < |ss| && ss[k] == m[j].payload;
          if k > 0 && ss[0] != ps[0] {
            LessTransitive(ps[0], ss[0], ss[k]);
          } else if k > 0 {
            assert Less(ss[0], ss[k]);
          }
        }
      }
      forall i, j | 0 <= i < j < |m|
        ensures LineBefore(m[i], m[j])
      {
        if i > 0 {
          assert m[i] == t[i - 1] && m[j] == t[j - 1];
        }
      }
    }
  }

  // ---------------------------------------------------------------- stage 7

  /** The lines written for one parent/single line: a parent is followed by
      its children. */
  function Block(l: Line, kidsOf: string -> seq<string>): seq<Line>
  {
    if l.kind == Parent then [l] + LinesOf(Child, kidsOf(l.payload)) else [Line(Single, l.payload)]
  }

  function Emit(ls: seq<Line>, kidsOf: string -> seq<string>): seq<Line>
  {
    if |ls| == 0 then [] else Block(ls[0], kidsOf) + Emit(ls[1..], kidsOf)
  }

  lemma {:induction false} EmitAppend(a: seq<Line>, b: seq<Line>, kidsOf: string -> seq<string>)
    ensures Emit(a + b, kidsOf) == Emit(a, kidsOf) + Emit(b, kidsOf)
  {
    if |a| == 0 {
      assert a + b == b;
    } else {
      assert (a + b)[0] == a[0] && (a + b)[1..] == a[1..] + b;
      EmitAppend(a[1..], b, kidsOf);
    }
  }

  lemma EmitCons(l: Line, b: seq<Line>, kidsOf: string -> seq<string>)
    ensures Emit([l] + b, kidsOf) == Block(l, kidsOf) + Emit(b, kidsOf)
  {
    assert ([l] + b)[0] == l && ([l] + b)[1..] == b;
  }

  /** Every parent line is written immediately followed by exactly its
      children's lines. */
  lemma ParentThenChildren(ls: seq<Line>, i: nat, kidsOf: string -> seq<string>)
    requires i < |ls| && ls[i].kind == Parent
    ensures Emit(ls, kidsOf) == Emit(ls[..i], kidsOf) + ([ls[i]] + LinesOf(Child, kidsOf(ls[i].payload))) + Emit(ls[i + 1..], kidsOf)
  {
    assert ls[..i] + ls[i..] == ls;
    EmitAppend(ls[..i], ls[i..], kidsOf);
    EmitAt(ls, i, kidsOf);
    assert Block(ls[i], kidsOf) == [ls[i]] + LinesOf(Child, kidsOf(ls[i].payload));
  }

  lemma EmitAt(ls: seq<Line>, i: nat, kidsOf: string -> seq<string>)
    requires i < |ls|
    ensures Emit(ls[i..], kidsOf) == Block(ls[i], kidsOf) + Emit(ls[i + 1..], kidsOf)
  {
    assert ls[i..][0] == ls[i] && ls[i..][1..] == ls[i + 1..];
  }

  /** Removing the child lines from the output gives back the parent and
      single lines, in order. */
  lemma EmitWithoutChildren(ls: seq<Line>, kidsOf: string -> seq<string>)
    requires forall i :: 0 <= i < |ls| ==> ls[i].kind == Parent || ls[i].kind == Single
    ensures OfKind(Emit(ls, kidsOf), Parent) == OfKind(ls, Parent)
    ensures OfKind(Emit(ls, kidsOf), Single) == OfKind(ls, Single)
  {
    EmitKeeps(ls, kidsOf, Parent);
    EmitKeeps(ls, kidsOf, Single);
  }

  lemma {:induction false} EmitKeeps(ls: seq<Line>, kidsOf: string -> seq<string>, kind: nat)
    requires kind != Child
    requires forall i :: 0 <= i < |ls| ==> ls[i].kind == Parent || ls[i].kind == Single
    ensures OfKind(Emit(ls, kidsOf), kind) == OfKind(ls, kind)
  {
    if |ls| > 0 {
      var rest := Emit(ls[1..], kidsOf);
      EmitKeeps(ls[1..], kidsOf, kind);
      assert Emit(ls, kidsOf) == Block(ls[0], kidsOf) + rest;
      OfKindAppend(Block(ls[0], kidsOf), rest, kind);
      BlockKeeps(ls[0], kidsOf, kind);
      assert OfKind(ls, kind) == OfKind([ls[0]], kind) + OfKind(ls[1..], kind);
    }
  }

  lemma BlockKeeps(l: Line, kidsOf: string -> seq<string>, kind: nat)
    requires kind != Child
    requires l.kind == Parent || l.kind == Single
    ensures OfKind(Block(l, kidsOf), kind) == OfKind([l], kind)
  {
    if l.kind == Parent {
      var kids := LinesOf(Child, kidsOf(l.payload));
      OfKindAppend([l], kids, kind);
      OfKindLines(Child, kidsOf(l.payload), kind);
    }
  }

  lemma {:induction false} OfKindAppend(a: seq<Line>, b: seq<Line>, kind: nat)
    ensures OfKind(a + b, kind) == OfKind(a, kind) + OfKind(b, kind)
  {
    if |a| == 0 {
      assert a + b == b;
    } else {
      assert (a + b)[0] == a[0] && (a + b)[1..] == a[1..] + b;
      OfKindAppend(a[1..], b, kind);
    }
  }

  /** The header row: `type`, then the payload columns. */
  function Header(payloadCols: seq<string>): (r: seq<string>)
    ensures |r| == |payloadCols| + 1 && r[0] == "type" && r[1..] == payloadCols
  {
    ["type"] + payloadCols
  }

  /** The header of a table with columns `all` is `type` followed by every
      table column except the ids and the scrape bookkeeping, in table
      order, and by nothing else. */
  lemma HeaderColumns(all: seq<string>)
    ensures var h := Header(PayloadColumns(all));
      && |h| <= |all| + 1 && h[0] == "type" && h[1..] == PayloadColumns(all)
      && (forall c :: c in h[1..] <==> c in all && !IsMetaOrIgnored(c))
      && (forall c :: c in h[1..] ==> c != "id" && c != "parent_id" && c != "recordtype")
  {
    forall c ensures c in PayloadColumns(all) <==> c in all && !IsMetaOrIgnored(c) {
      PayloadColumnsMembers(all, c);
    }
  }

  /** Stages 3 to 7 on the temp table: the lines written after the header. */
  function Export(rows: seq<TempRow>): seq<Line>
  {
    Emit(Merge(Parents(rows), Singles(rows)), p => ChildrenOf(rows, p))
  }

  /** The parent lines of the export are the distinct parent payloads and
      the single lines the distinct single payloads, each strictly
      ascending; together they are ordered by payload, parent first on a
      tie, and each parent line is followed by its children. */
  lemma ExportShape(rows: seq<TempRow>)
    ensures OfKind(Export(rows), Parent) == Parents(rows)
    ensures OfKind(Export(rows), Single) == Singles(rows)
    ensures Sorted(Parents(rows)) && Sorted(Singles(rows))
    ensures forall p :: p in Parents(rows) <==> exists i :: 0 <= i < |rows| && rows[i].recordType == Parent && rows[i].payload == p
    ensures forall s :: s in Singles(rows) <==> exists i :: 0 <= i < |rows| && rows[i].recordType == Single && rows[i].payload == s
    ensures var m := Merge(Parents(rows), Singles(rows));
      Export(rows) == Emit(m, p => ChildrenOf(rows, p))
      && forall i, j :: 0 <= i < j < |m| ==> LineBefore(m[i], m[j])
  {
    var ps, ss := Parents(rows), Singles(rows);
    GroupFacts(PayloadsOf(rows, Parent));
    GroupFacts(PayloadsOf(rows, Single));
    var m := Merge(ps, ss);
    MergeSplits(ps, ss);
    MergeOrdered(ps, ss);
    forall i | 0 <= i < |m|
      ensures m[i].kind == Parent || m[i].kind == Single
    {
      MergeMembers(ps, ss, m[i]);
    }
    EmitWithoutChildren(m, p => ChildrenOf(rows, p));
  }

  // ---------------------------------------------------------------- all stages

  /** Why the export stops: a payload that cannot be serialized (stage 1),
      or a parent id already in `parent_map` (stage 2). */
  datatype ExportError = Payload(cause: CodecError) | ParentIdTaken(id: int)

  /** The second `convert_sqlite_to_csv` after its header: stage 1, stage 2
      (which only decides whether the export goes on, as the child join
      reads the parent rows directly), and stages 3 to 7. */
  function Convert(src: seq<SourceRow>, cols: seq<string>, hasRecordType: bool): Result<seq<Line>, ExportError>
    requires forall i :: 0 <= i < |src| ==> |src[i].values| == |cols|
  {
    match CopyRows(src, cols, hasRecordType)
    case Err(e) => Err(Payload(e))
    case Ok(rows) =>
      match ParentMap(rows)
      case Err(id) => Err(ParentIdTaken(id))
      case Ok(_) => Ok(Export(rows))
  }

  /** The export fails exactly when some source row's payload cannot be
      serialized or two parent rows share an id; otherwise it writes the
      lines of `Export` for the copied rows, and every child's parent is
      found through `parent_map`. */
  lemma ConvertMeaning(src: seq<SourceRow>, cols: seq<string>, hasRecordType: bool)
    requires forall i :: 0 <= i < |src| ==> |src[i].values| == |cols|
    ensures var copied := CopyRows(src, cols, hasRecordType);
      && (Convert(src, cols, hasRecordType).Err? <==>
            (exists i :: 0 <= i < |src| && SerializePayload(cols, src[i].values).Err?)
            || DuplicateParentIds(copied.value))
      && (Convert(src, cols, hasRecordType).Ok? ==>
            && Convert(src, cols, hasRecordType).value == Export(copied.value)
            && forall pid :: ParentPayloadsWithId(copied.value, pid) ==
                 if pid in ParentMap(copied.value).value then [ParentMap(copied.value).value[pid]] else [])
  {
    var copied := CopyRows(src, cols, hasRecordType);
    if copied.Ok? {
      ParentMapMeaning(copied.value);
      if ParentMap(copied.value).Ok? {
        forall pid
          ensures ParentPayloadsWithId(copied.value, pid) ==
                  if pid in ParentMap(copied.value).value then [ParentMap(copied.value).value[pid]] else []
        {
          ParentMapJoin(copied.value, pid);
        }
      }
    }
  }
}
