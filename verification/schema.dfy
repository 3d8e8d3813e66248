/** The column table shared by the scraper, the export and the validator:
    22 text columns, 3 boolean columns and the `recordtype` enumeration. */
module Schema {

  datatype ColType = TextCol | BoolCol | EnumCol(values: seq<string>)

  const RecordTypes: seq<string> := ["single", "parent", "child"]

  /** `telefonbuch_columns`, in declaration order: the text columns, then
      the typed ones. */
  const Columns: seq<(string, ColType)> := TextColumns + TypedColumns

  const TextColumns: seq<(string, ColType)> := TextOf(TextNames)

  const TextNames: seq<string> := [
    "name0", "firstname0", "nameextension0", "profession0",
    "nameconnection1", "name1", "firstname1", "nameextension1", "profession1",
    "nameconnection2", "name2", "firstname2", "nameextension2", "profession2",
    "extendedtext", "street", "housenumber", "zipcode", "city", "areacode",
    "phonenumber", "callrate"
  ]

  /** Text columns of the given names. */
  function TextOf(names: seq<string>): (r: seq<(string, ColType)>)
    ensures |r| == |names|
    ensures forall i :: 0 <= i < |r| ==> r[i] == (names[i], TextCol)
  {
    seq(|names|, i requires 0 <= i < |names| => (names[i], TextCol))
  }

  const TypedColumns: seq<(string, ColType)> := [
    ("commercial", BoolCol), ("webadress", BoolCol), ("advertising", BoolCol),
    ("recordtype", EnumCol(RecordTypes))
  ]

  /** The 26 column names in declaration order; no name appears twice, so
      each names one column of `telefonbuch`. */
  function ColumnNames(): (names: seq<string>)
    ensures names == [
      "name0", "firstname0", "nameextension0", "profession0",
      "nameconnection1", "name1", "firstname1", "nameextension1", "profession1",
      "nameconnection2", "name2", "firstname2", "nameextension2", "profession2",
      "extendedtext", "street", "housenumber", "zipcode", "city", "areacode",
      "phonenumber", "callrate", "commercial", "webadress", "advertising", "recordtype"
    ]
    ensures forall i, j :: 0 <= i < j < |names| ==> names[i] != names[j]
  {
    seq(|Columns|, i requires 0 <= i < |Columns| => Columns[i].0)
  }

  /** The columns whose declared type is `bool`, in table order. */
  function BoolColumnsOf(cols: seq<(string, ColType)>): seq<string>
  {
    if |cols| == 0 then []
    else (if cols[0].1 == BoolCol then [cols[0].0] else []) + BoolColumnsOf(cols[1..])
  }

  /** The enumerated columns with their allowed values, in table order. */
  function EnumColumnsOf(cols: seq<(string, ColType)>): seq<(string, seq<string>)>
  {
    if |cols| == 0 then []
    else (if cols[0].1.EnumCol? then [(cols[0].0, cols[0].1.values)] else []) + EnumColumnsOf(cols[1..])
  }

  lemma {:induction false} BoolColumnsAppend(a: seq<(string, ColType)>, b: seq<(string, ColType)>)
    ensures BoolColumnsOf(a + b) == BoolColumnsOf(a) + BoolColumnsOf(b)
  {
    if |a| == 0 {
      assert a + b == b;
    } else {
      var ab := a + b;
      assert ab[0] == a[0] && ab[1..] == a[1..] + b;
      BoolColumnsAppend(a[1..], b);
      var h := if a[0].1 == BoolCol then [a[0].0] else [];
      var x, y := BoolColumnsOf(a[1..]), BoolColumnsOf(b);
      assert BoolColumnsOf(ab) == h + (x + y);
      assert h + (x + y) == (h + x) + y;
    }
  }

  lemma {:induction false} EnumColumnsAppend(a: seq<(string, ColType)>, b: seq<(string, ColType)>)
    ensures EnumColumnsOf(a + b) == EnumColumnsOf(a) + EnumColumnsOf(b)
  {
    if |a| == 0 {
      assert a + b == b;
    } else {
      var ab := a + b;
      assert ab[0] == a[0] && ab[1..] == a[1..] + b;
      EnumColumnsAppend(a[1..], b);
      var h := if a[0].1.EnumCol? then [(a[0].0, a[0].1.values)] else [];
      var x, y := EnumColumnsOf(a[1..]), EnumColumnsOf(b);
      assert EnumColumnsOf(ab) == h + (x + y);
      assert h + (x + y) == (h + x) + y;
    }
  }

  /** Text columns contribute no boolean and no enumerated column. */
  lemma {:induction false} TextOnly(cols: seq<(string, ColType)>)
    requires forall i :: 0 <= i < |cols| ==> cols[i].1 == TextCol
    ensures BoolColumnsOf(cols) == [] && EnumColumnsOf(cols) == []
  {
    if |cols| > 0 {
      TextOnly(cols[1..]);
    }
  }

  /** The boolean columns are exactly `commercial`, `webadress` and
      `advertising`; the only enumeration is `recordtype`. */
  lemma TypedColumnsAre(cols: seq<(string, ColType)>)
    requires cols == Columns
    ensures BoolColumnsOf(cols) == ["commercial", "webadress", "advertising"]
    ensures EnumColumnsOf(cols) == [("recordtype", RecordTypes)]
  {
    BoolColumnsAppend(TextColumns, TypedColumns);
    EnumColumnsAppend(TextColumns, TypedColumns);
    TextOnly(TextColumns);
    TypedPart(TypedColumns);
  }

  lemma TypedPart(typed: seq<(string, ColType)>)
    requires typed == TypedColumns
    ensures BoolColumnsOf(typed) == ["commercial", "webadress", "advertising"]
    ensures EnumColumnsOf(typed) == [("recordtype", RecordTypes)]
  {
    var t1, t2, t3 := typed[1..], typed[2..], typed[3..];
    assert t2 == t1[1..] && t3 == t2[1..] && t3[1..] == [];
    assert BoolColumnsOf(t3) == [] && EnumColumnsOf(t3) == [("recordtype", RecordTypes)];
    assert BoolColumnsOf(t2) == ["advertising"] && EnumColumnsOf(t2) == EnumColumnsOf(t3);
    assert BoolColumnsOf(t1) == ["webadress", "advertising"] && EnumColumnsOf(t1) == EnumColumnsOf(t2);
  }
}
