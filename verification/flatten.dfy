/** `parse_address` and the numbering pass of the scraper: an `<address>`
    tree becomes flat rows in pre-order, with ids handed out by a counter
    that is threaded through the walk, and every row of a page then gets its
    `query_offset` and `query_child_num`. */
module Flatten {
  import opened Common
  import opened Xml
  import opened Schema

  /** One row of `parse_address`: its id, its parent's id (None at top level)
      and one value per column of the column table. */
  datatype FlatRow = FlatRow(id: int, parentId: Option<int>, fields: seq<Option<string>>)

  // ---------------------------------------------------------------- fields

  /** The value stored for column `col`: the stripped text of the first child
      element named `col`, or None when there is no such child or its text is
      missing or empty. Text made of whitespace only becomes "". */
  function FieldValue(e: Element, col: string): (v: Option<string>)
    ensures v.None? <==> Find(e, col).None? || Find(e, col).value.text.None?
                         || Find(e, col).value.text.value == ""
    ensures v.Some? ==> v.value == Strip(Find(e, col).value.text.value)
  {
    match Find(e, col)
    case None => None
    case Some(c) =>
      if c.text.None? || c.text.value == "" then None else Some(Strip(c.text.value))
  }

  /** An element with no child of the column's name stores None. */
  lemma FieldValueMissing(e: Element, col: string)
    requires forall i :: 0 <= i < |e.kids| ==> e.kids[i].tag != col
    ensures FieldValue(e, col) == None
  {
  }

  /** Whitespace-only text is stored as the empty string, not as None. */
  lemma FieldValueBlank(e: Element, col: string, t: string)
    requires |e.kids| > 0 && e.kids[0] == Element(col, Some(t), [])
    requires |t| > 0 && forall i :: 0 <= i < |t| ==> IsSpace(t[i])
    ensures FieldValue(e, col) == Some("")
  {
    StripAllSpace(t);
  }

  /** The values of the given columns, in order. The scraper passes the names
      of the whole column table (`ColumnNames()`); the walk below is the same
      for any list of names, so it takes the list as a parameter. */
  function Fields(e: Element, names: seq<string>): seq<Option<string>>
  {
    if |names| == 0 then [] else [FieldValue(e, names[0])] + Fields(e, names[1..])
  }

  /** One value per column, the i-th being the i-th column's value. */
  lemma {:induction false} FieldsAt(e: Element, names: seq<string>)
    ensures |Fields(e, names)| == |names|
    ensures forall i :: 0 <= i < |names| ==> Fields(e, names)[i] == FieldValue(e, names[i])
  {
    if |names| > 0 {
      FieldsAt(e, names[1..]);
    }
  }

  // ---------------------------------------------------------------- tree

  /** `elem.findall("address")`: the nested addresses, in document order. */
  function Nested(e: Element): (r: seq<Element>)
  {
    FindAll(e, "address")
  }

  lemma NestedMember(e: Element, i: nat)
    requires i < |Nested(e)|
    ensures Nested(e)[i] in e.kids
  {
    ChildrenMembers(e.kids, "address");
    assert Nested(e)[i] in Nested(e);
  }

  /** The address nodes of a tree in pre-order: the node, then each nested
      address's subtree in turn. This is the reference order the flattening
      is measured against. */
  function PreOrder(e: Element): (r: seq<Element>)
    ensures |r| >= 1 && r[0] == e
    decreases e, 1
  {
    [e] + PreOrderFrom(e, 0)
  }

  function PreOrderFrom(e: Element, i: nat): seq<Element>
    requires i <= |Nested(e)|
    decreases e, 0, |Nested(e)| - i
  {
    if i == |Nested(e)| then []
    else
      NestedMember(e, i);
      PreOrder(Nested(e)[i]) + PreOrderFrom(e, i + 1)
  }

  /** `c` is one of the addresses nested directly in `p`. */
  predicate NestedIn(c: Element, p: Element)
  {
    c in Nested(p)
  }

  /** The number of rows whose parent is `pid`. */
  function CountParent(rows: seq<FlatRow>, pid: int): nat
  {
    if |rows| == 0 then 0
    else (if rows[0].parentId == Some(pid) then 1 else 0) + CountParent(rows[1..], pid)
  }

  lemma {:induction false} CountParentAppend(a: seq<FlatRow>, b: seq<FlatRow>, pid: int)
    ensures CountParent(a + b, pid) == CountParent(a, pid) + CountParent(b, pid)
  {
    if |a| == 0 {
      assert a + b == b;
    } else {
      assert (a + b)[1..] == a[1..] + b;
      CountParentAppend(a[1..], b, pid);
    }
  }

  lemma {:induction false} CountParentNone(rows: seq<FlatRow>, pid: int)
    requires forall k :: 0 <= k < |rows| ==> rows[k].parentId != Some(pid)
    ensures CountParent(rows, pid) == 0
  {
    if |rows| > 0 {
      CountParentNone(rows[1..], pid);
    }
  }

  // ---------------------------------------------------------------- flattening

  /** `parse_address(e, counter, parent_id)` with the counter at `next`: the
      node takes id `next` before its nested addresses are visited, and they
      take the following ids, one per address node. */
  function ParseAddress(e: Element, names: seq<string>, next: int, parent: Option<int>): (r: seq<FlatRow>)
    ensures |r| == |PreOrder(e)|
    ensures r[0].parentId == parent
    ensures forall k :: 0 <= k < |r| ==> r[k].id == next + k
    decreases e, 1
  {
    [FlatRow(next, parent, Fields(e, names))] + ParseNested(e, names, 0, next + 1, next)
  }

  /** The loop over `elem.findall("address")` from the i-th nested address on,
      with the counter at `next` and `pid` the id of `e`'s own row. */
  function ParseNested(e: Element, names: seq<string>, i: nat, next: int, pid: int): (r: seq<FlatRow>)
    requires i <= |Nested(e)|
    ensures |r| == |PreOrderFrom(e, i)|
    ensures forall k :: 0 <= k < |r| ==> r[k].id == next + k
    decreases e, 0, |Nested(e)| - i
  {
    if i == |Nested(e)| then []
    else
      var kid := Nested(e)[i];
      NestedMember(e, i);
      var head := ParseAddress(kid, names, next, Some(pid));
      head + ParseNested(e, names, i + 1, next + |head|, pid)
  }

  /** Row k holds the fields of the k-th address node in pre-order. */
  lemma {:induction false} ParseAddressFieldAt(e: Element, names: seq<string>, next: int, parent: Option<int>, k: nat)
    requires k < |ParseAddress(e, names, next, parent)|
    ensures ParseAddress(e, names, next, parent)[k].fields == Fields(PreOrder(e)[k], names)
    decreases e, 1
  {
    if k > 0 {
      var kids := ParseNested(e, names, 0, next + 1, next);
      assert ParseAddress(e, names, next, parent)[k] == kids[k - 1];
      assert PreOrder(e)[k] == PreOrderFrom(e, 0)[k - 1];
      ParseNestedFieldAt(e, names, 0, next + 1, next, k - 1);
    }
  }

  lemma {:induction false} ParseNestedFieldAt(e: Element, names: seq<string>, i: nat, next: int, pid: int, k: nat)
    requires i <= |Nested(e)|
    requires k < |ParseNested(e, names, i, next, pid)|
    ensures ParseNested(e, names, i, next, pid)[k].fields == Fields(PreOrderFrom(e, i)[k], names)
    decreases e, 0, |Nested(e)| - i
  {
    NestedMember(e, i);
    var kid := Nested(e)[i];
    var head, preHead := ParseAddress(kid, names, next, Some(pid)), PreOrder(kid);
    var tail, preTail := ParseNested(e, names, i + 1, next + |head|, pid), PreOrderFrom(e, i + 1);
    var r, pre := ParseNested(e, names, i, next, pid), PreOrderFrom(e, i);
    assert r == head + tail;
    assert pre == preHead + preTail;
    if k < |head| {
      ParseAddressFieldAt(kid, names, next, Some(pid), k);
    } else {
      ParseNestedFieldAt(e, names, i + 1, next + |head|, pid, k - |head|);
    }
    FieldsFromParts(r, pre, head, tail, preHead, preTail, names, k);
  }

  /** Row k of a concatenation holds the fields of node k when the part it
      comes from does. */
  lemma FieldsFromParts(r: seq<FlatRow>, pre: seq<Element>, head: seq<FlatRow>, tail: seq<FlatRow>,
                        preHead: seq<Element>, preTail: seq<Element>, names: seq<string>, k: nat)
    requires r == head + tail && pre == preHead + preTail && |head| == |preHead|
    requires k < |r| && k < |pre|
    requires k < |head| ==> head[k].fields == Fields(preHead[k], names)
    requires |head| <= k ==> tail[k - |head|].fields == Fields(preTail[k - |head|], names)
    ensures r[k].fields == Fields(pre[k], names)
  {
  }

  /** Flattening is a pre-order walk: row k holds the fields of the k-th
      address node in pre-order. */
  lemma ParseAddressFields(e: Element, names: seq<string>, next: int, parent: Option<int>)
    ensures var r := ParseAddress(e, names, next, parent);
            forall k :: 0 <= k < |r| ==> r[k].fields == Fields(PreOrder(e)[k], names)
  {
    forall k | 0 <= k < |ParseAddress(e, names, next, parent)|
      ensures ParseAddress(e, names, next, parent)[k].fields == Fields(PreOrder(e)[k], names)
    {
      ParseAddressFieldAt(e, names, next, parent, k);
    }
  }

  /** Row k of `r` (whose first row has id `next`, holding node `pre[0]`)
      names as parent an earlier row of `r`, and the node of that row is the
      address that `pre[k]` is nested in. */
  predicate LinkIn(r: seq<FlatRow>, pre: seq<Element>, next: int, k: nat)
  {
    && k < |r| && k < |pre|
    && r[k].parentId.Some?
    && next <= r[k].parentId.value < next + k
    && NestedIn(pre[k], pre[r[k].parentId.value - next])
  }

  /** Row k of the loop over `e`'s nested addresses (`e`'s own row having
      id `pid`) names `e` as parent exactly for an address nested in `e`,
      and an earlier row of the loop otherwise, as `LinkIn` says. */
  predicate LinkOk(r: seq<FlatRow>, pre: seq<Element>, next: int, pid: int, e: Element, k: nat)
  {
    && k < |r| && k < |pre|
    && r[k].parentId.Some?
    && ((r[k].parentId.value == pid && NestedIn(pre[k], e)) || LinkIn(r, pre, next, k))
  }

  /** Row k > 0 names as parent an earlier row of the same subtree, and the
      node of that row is the address the k-th node is nested in. */
  lemma {:induction false} ParseAddressParentAt(e: Element, names: seq<string>, next: int, parent: Option<int>, k: nat)
    requires 1 <= k < |ParseAddress(e, names, next, parent)|
    ensures LinkIn(ParseAddress(e, names, next, parent), PreOrder(e), next, k)
    decreases e, 1
  {
    var r := ParseAddress(e, names, next, parent);
    var kids := ParseNested(e, names, 0, next + 1, next);
    var pre, preKids := PreOrder(e), PreOrderFrom(e, 0);
    assert r[1..] == kids;
    assert pre[1..] == preKids;
    ParseNestedParentAt(e, names, 0, next + 1, next, k - 1);
    LinkUnder(r, pre, kids, preKids, e, next, k);
  }

  /** In the loop over the addresses nested in `e` (whose row has id `pid`),
      a row's parent is `e` itself exactly for those nested addresses, and an
      earlier row of the loop's output otherwise. */
  lemma {:induction false} ParseNestedParentAt(e: Element, names: seq<string>, i: nat, next: int, pid: int, k: nat)
    requires i <= |Nested(e)|
    requires pid < next
    requires k < |ParseNested(e, names, i, next, pid)|
    ensures LinkOk(ParseNested(e, names, i, next, pid), PreOrderFrom(e, i), next, pid, e, k)
    decreases e, 0, |Nested(e)| - i
  {
    NestedMember(e, i);
    var kid := Nested(e)[i];
    var head, preHead := ParseAddress(kid, names, next, Some(pid)), PreOrder(kid);
    var tail, preTail := ParseNested(e, names, i + 1, next + |head|, pid), PreOrderFrom(e, i + 1);
    var r, pre := ParseNested(e, names, i, next, pid), PreOrderFrom(e, i);
    assert r == head + tail;
    assert pre == preHead + preTail;
    if k == 0 {
      LinkFirst(r, pre, head, tail, preHead, preTail, next, pid, e);
    } else if k < |head| {
      ParseAddressParentAt(kid, names, next, Some(pid), k);
      LinkFromHead(r, pre, head, tail, preHead, preTail, next, pid, e, k);
    } else {
      ParseNestedParentAt(e, names, i + 1, next + |head|, pid, k - |head|);
      LinkFromTail(r, pre, head, tail, preHead, preTail, next, pid, e, k);
    }
  }

  /** A subtree's links, read one row further on below its root. */
  lemma LinkUnder(r: seq<FlatRow>, pre: seq<Element>, kids: seq<FlatRow>, preKids: seq<Element>,
                  e: Element, next: int, k: nat)
    requires 1 <= k
    requires |r| > 0 && r[1..] == kids
    requires |pre| > 0 && pre[0] == e && pre[1..] == preKids
    requires LinkOk(kids, preKids, next + 1, next, e, k - 1)
    ensures LinkIn(r, pre, next, k)
  {
    assert r[k] == kids[k - 1] && pre[k] == preKids[k - 1];
    var v := r[k].parentId.value;
    if v != next {
      assert pre[v - next] == preKids[v - (next + 1)];
    }
  }

  /** The first row of the loop is the i-th nested address, whose parent
      is `e`. */
  lemma LinkFirst(r: seq<FlatRow>, pre: seq<Element>, head: seq<FlatRow>, tail: seq<FlatRow>,
                  preHead: seq<Element>, preTail: seq<Element>, next: int, pid: int, e: Element)
    requires r == head + tail && pre == preHead + preTail
    requires |head| > 0 && |preHead| > 0
    requires head[0].parentId == Some(pid) && NestedIn(preHead[0], e)
    ensures LinkOk(r, pre, next, pid, e, 0)
  {
    assert r[0] == head[0] && pre[0] == preHead[0];
  }

  /** A link inside the i-th nested address's subtree stays a link of the
      whole loop. */
  lemma LinkFromHead(r: seq<FlatRow>, pre: seq<Element>, head: seq<FlatRow>, tail: seq<FlatRow>,
                     preHead: seq<Element>, preTail: seq<Element>, next: int, pid: int, e: Element, k: nat)
    requires r == head + tail && pre == preHead + preTail && |head| == |preHead|
    requires LinkIn(head, preHead, next, k)
    ensures LinkOk(r, pre, next, pid, e, k)
  {
    assert r[k] == head[k] && pre[k] == preHead[k];
    var v := r[k].parentId.value;
    assert pre[v - next] == preHead[v - next];
  }

  /** A link of the rest of the loop, which starts `|head|` rows on, moved
      to the whole loop. */
  lemma LinkFromTail(r: seq<FlatRow>, pre: seq<Element>, head: seq<FlatRow>, tail: seq<FlatRow>,
                     preHead: seq<Element>, preTail: seq<Element>, next: int, pid: int, e: Element, k: nat)
    requires r == head + tail && pre == preHead + preTail && |head| == |preHead|
    requires |head| <= k
    requires LinkOk(tail, preTail, next + |head|, pid, e, k - |head|)
    ensures LinkOk(r, pre, next, pid, e, k)
  {
    var t := k - |head|;
    assert r[k] == tail[t] && pre[k] == preTail[t];
    var v := r[k].parentId.value;
    if !(v == pid && NestedIn(pre[k], e)) {
      assert pre[v - next] == preTail[v - (next + |head|)];
    }
  }

  /** Every row after the first has a parent inside the subtree, so a
      subtree's rows other than its first are never top-level. */
  lemma NestedRowsHaveParents(e: Element, names: seq<string>, next: int, parent: Option<int>, r: seq<FlatRow>)
    requires r == ParseAddress(e, names, next, parent)
    ensures forall k :: 1 <= k < |r| ==> r[k].parentId.Some? && next <= r[k].parentId.value < next + k
  {
    forall k | 1 <= k < |r|
      ensures r[k].parentId.Some? && next <= r[k].parentId.value < next + k
    {
      ParseAddressParentAt(e, names, next, parent, k);
    }
  }

  /** Exactly the addresses nested directly in `e` name `e`'s row as parent. */
  lemma {:induction false} ParseAddressChildCount(e: Element, names: seq<string>, next: int, parent: Option<int>)
    ensures CountParent(ParseAddress(e, names, next, parent)[1..], next) == |Nested(e)|
  {
    var r := ParseAddress(e, names, next, parent);
    assert r[1..] == ParseNested(e, names, 0, next + 1, next);
    ParseNestedChildCount(e, names, 0, next + 1, next);
  }

  lemma {:induction false} ParseNestedChildCount(e: Element, names: seq<string>, i: nat, next: int, pid: int)
    requires i <= |Nested(e)|
    requires pid < next
    ensures CountParent(ParseNested(e, names, i, next, pid), pid) == |Nested(e)| - i
    decreases |Nested(e)| - i
  {
    if i < |Nested(e)| {
      var kid := Nested(e)[i];
      var head := ParseAddress(kid, names, next, Some(pid));
      var tail := ParseNested(e, names, i + 1, next + |head|, pid);
      NestedRowsHaveParents(kid, names, next, Some(pid), head);
      ParseNestedChildCount(e, names, i + 1, next + |head|, pid);
      assert head == [head[0]] + head[1..];
      CountParentAppend([head[0]], head[1..], pid);
      forall k | 0 <= k < |head[1..]| ensures head[1..][k].parentId != Some(pid) {
        assert head[1..][k] == head[k + 1];
      }
      CountParentNone(head[1..], pid);
      CountParentAppend(head, tail, pid);
    }
  }

  /** The top-level loop of one page: `parse_address(addr, counter)` for each
      address found under `entries`, extending one row list. */
  function FlattenPage(tops: seq<Element>, names: seq<string>, next: int): (r: seq<FlatRow>)
    ensures forall k :: 0 <= k < |r| ==> r[k].id == next + k
    ensures forall k :: 0 <= k < |r| ==> r[k].parentId.None? || next <= r[k].parentId.value < next + k
    ensures |r| > 0 ==> r[0].parentId.None?
    ensures |r| == 0 <==> |tops| == 0
    ensures CountTops(r) == |tops|
  {
    if |tops| == 0 then []
    else
      var head := ParseAddress(tops[0], names, next, None);
      var tail := FlattenPage(tops[1..], names, next + |head|);
      NestedRowsHaveParents(tops[0], names, next, None, head);
      assert forall k :: 1 <= k < |head| ==> head[k].parentId.Some?;
      CountTopsOnlyFirst(head);
      CountTopsAppend(head, tail);
      var r := head + tail;
      assert forall k :: |head| <= k < |r| ==> r[k] == tail[k - |head|];
      r
  }

  // ---------------------------------------------------------------- numbering

  /** The number of top-level rows (`parent_id` None). */
  function CountTops(rows: seq<FlatRow>): nat
  {
    if |rows| == 0 then 0 else (if rows[0].parentId.None? then 1 else 0) + CountTops(rows[1..])
  }

  lemma {:induction false} CountTopsAppend(a: seq<FlatRow>, b: seq<FlatRow>)
    ensures CountTops(a + b) == CountTops(a) + CountTops(b)
  {
    if |a| == 0 {
      assert a + b == b;
    } else {
      assert (a + b)[1..] == a[1..] + b;
      CountTopsAppend(a[1..], b);
    }
  }

  lemma {:induction false} CountTopsOnlyFirst(rows: seq<FlatRow>)
    requires |rows| > 0 && rows[0].parentId.None?
    requires forall k :: 1 <= k < |rows| ==> rows[k].parentId.Some?
    ensures CountTops(rows) == 1
  {
    CountTopsNone(rows[1..]);
  }

  lemma {:induction false} CountTopsNone(rows: seq<FlatRow>)
    requires forall k :: 0 <= k < |rows| ==> rows[k].parentId.Some?
    ensures CountTops(rows) == 0
  {
    if |rows| > 0 {
      CountTopsNone(rows[1..]);
    }
  }

  /** The numbering pass over one page's rows: a top-level row takes the
      current offset with child number 0 and then advances the offset; a
      nested row takes the current (already advanced) offset and the next
      child number. The result pairs `(query_offset, query_child_num)` are
      distinct, and every pair lies at or after the starting position in the
      sense of `AtOrAfter`. */
  function Number(rows: seq<FlatRow>, offset: int, childNum: nat): (r: seq<(int, nat)>)
    ensures |r| == |rows|
    ensures forall k :: 0 <= k < |r| ==> AtOrAfter(r[k], offset, childNum)
    ensures forall i, j :: 0 <= i < j < |r| ==> r[i] != r[j]
  {
    if |rows| == 0 then []
    else if rows[0].parentId.None? then [(offset, 0)] + Number(rows[1..], offset + 1, 0)
    else [(offset, childNum + 1)] + Number(rows[1..], offset, childNum + 1)
  }

  /** A key that the numbering can still hand out once it stands at
      `(offset, childNum)`. */
  predicate AtOrAfter(key: (int, nat), offset: int, childNum: nat)
  {
    key.0 > offset || (key.0 == offset && (key.1 > childNum || key.1 == 0))
  }

  /** The numbering of a page, starting at the page offset with child number 0. */
  function NumberPage(rows: seq<FlatRow>, pageOffset: int): seq<(int, nat)>
  {
    Number(rows, pageOffset, 0)
  }

  /** After the first row the numbering goes on from the position that row
      leaves behind. */
  lemma NumberStep(rows: seq<FlatRow>, offset: int, childNum: nat, k: nat)
    requires 1 <= k < |rows|
    ensures var o := if rows[0].parentId.None? then offset + 1 else offset;
            var c := if rows[0].parentId.None? then 0 else childNum + 1;
            Number(rows, offset, childNum)[k] == Number(rows[1..], o, c)[k - 1]
  {
  }

  /** Row k's offset is the starting offset plus the number of top-level
      rows before it. */
  lemma {:induction false} NumberOffsetAt(rows: seq<FlatRow>, offset: int, childNum: nat, k: nat)
    requires k < |rows|
    ensures Number(rows, offset, childNum)[k].0 == offset + CountTops(rows[..k])
    decreases k
  {
    if k == 0 {
      assert rows[..0] == [];
    } else {
      var o := if rows[0].parentId.None? then offset + 1 else offset;
      var c := if rows[0].parentId.None? then 0 else childNum + 1;
      NumberStep(rows, offset, childNum, k);
      NumberOffsetAt(rows[1..], o, c, k - 1);
      assert rows[..k][1..] == rows[1..][..k - 1];
    }
  }

  /** A top-level row has child number 0; a nested row has one more than
      the row before it, or than the starting child number. */
  lemma {:induction false} NumberChildAt(rows: seq<FlatRow>, offset: int, childNum: nat, k: nat)
    requires k < |rows|
    ensures rows[k].parentId.None? ==> Number(rows, offset, childNum)[k].1 == 0
    ensures rows[k].parentId.Some? && k == 0 ==> Number(rows, offset, childNum)[k].1 == childNum + 1
    ensures rows[k].parentId.Some? && k > 0 ==>
              Number(rows, offset, childNum)[k].1 == Number(rows, offset, childNum)[k - 1].1 + 1
    decreases k
  {
    if k > 0 {
      var o := if rows[0].parentId.None? then offset + 1 else offset;
      var c := if rows[0].parentId.None? then 0 else childNum + 1;
      NumberStep(rows, offset, childNum, k);
      NumberChildAt(rows[1..], o, c, k - 1);
      assert rows[1..][k - 1] == rows[k];
      if k > 1 {
        NumberStep(rows, offset, childNum, k - 1);
      }
    }
  }

  /** On a page, a nested row's offset is one more than the offset of the
      top-level row it follows. */
  lemma NestedRowOffset(rows: seq<FlatRow>, offset: int, childNum: nat, top: nat, k: nat)
    requires top < k < |rows|
    requires rows[top].parentId.None?
    requires forall m :: top < m <= k ==> rows[m].parentId.Some?
    ensures Number(rows, offset, childNum)[k].0 == Number(rows, offset, childNum)[top].0 + 1
    ensures Number(rows, offset, childNum)[k].1 == k - top
  {
    NumberOffsetAt(rows, offset, childNum, top);
    NumberOffsetAt(rows, offset, childNum, k);
    assert rows[..k] == rows[..top] + [rows[top]] + rows[top + 1..k];
    CountTopsAppend(rows[..top] + [rows[top]], rows[top + 1..k]);
    CountTopsAppend(rows[..top], [rows[top]]);
    assert [rows[top]][1..] == [];
    CountTopsNone(rows[top + 1..k]);
    ChildRun(rows, offset, childNum, top, k);
  }

  lemma {:induction false} ChildRun(rows: seq<FlatRow>, offset: int, childNum: nat, top: nat, k: nat)
    requires top <= k < |rows|
    requires rows[top].parentId.None?
    requires forall m :: top < m <= k ==> rows[m].parentId.Some?
    ensures Number(rows, offset, childNum)[k].1 == k - top
    decreases k - top
  {
    NumberChildAt(rows, offset, childNum, k);
    if k > top {
      ChildRun(rows, offset, childNum, top, k - 1);
    }
  }

  /** A page's numbering: one top-level row per address under `entries`,
      so the offset after the page has advanced by exactly that count. */
  lemma PageAdvance(tops: seq<Element>, names: seq<string>, next: int, pageOffset: int)
    ensures CountTops(FlattenPage(tops, names, next)) == |tops|
    ensures var rows := FlattenPage(tops, names, next);
            |rows| > 0 ==> NumberPage(rows, pageOffset)[0] == (pageOffset, 0)
  {
  }
}
