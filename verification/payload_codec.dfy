/** The export's cell encoding: newline escaping, the boolean and record
    type conversions, the quoted `;`-separated payload string that stands
    for a row's content, and the `csv.reader` that splits it back into
    fields (delimiter `;`, quote `"`, doubled quotes, non-strict). */
module PayloadCodec {
  import opened Common

  /** A value read from SQLite: TEXT, or NULL (`None`). */
  type Cell = Option<string>

  const CR: char := '\r'
  const LF: char := '\n'
  const Quote: char := '"'
  const Delimiter: char := ';'

  /** The two characters backslash and `n` that stand for a line break. */
  const EscapedNewline: string := ['\\', 'n']

  // ---------------------------------------------------------------- str.replace

  /** `s.replace(pat, rep)`: occurrences found left to right, never
      overlapping. */
  function Replace(s: string, pat: string, rep: string): string
    requires |pat| >= 1
    decreases |s|
  {
    if |s| < |pat| then s
    else if s[..|pat|] == pat then rep + Replace(s[|pat|..], pat, rep)
    else [s[0]] + Replace(s[1..], pat, rep)
  }

  /** Replacing one character works character by character, so it
      distributes over concatenation. */
  lemma {:induction false} ReplaceCharAppend(a: string, b: string, c: char, rep: string)
    ensures Replace(a + b, [c], rep) == Replace(a, [c], rep) + Replace(b, [c], rep)
    decreases |a|
  {
    if |a| > 0 {
      assert (a + b)[1..] == a[1..] + b;
      assert (a + b)[..1] == a[..1];
      ReplaceCharAppend(a[1..], b, c, rep);
    } else {
      assert a + b == b;
    }
  }

  /** A string in which the pattern's first character never occurs is left
      as it is. */
  lemma {:induction false} ReplaceAbsent(s: string, pat: string, rep: string)
    requires |pat| >= 1
    requires forall i :: 0 <= i < |s| ==> s[i] != pat[0]
    ensures Replace(s, pat, rep) == s
    decreases |s|
  {
    if |s| >= |pat| {
      assert s[..|pat|][0] == s[0];
      ReplaceAbsent(s[1..], pat, rep);
    }
  }

  // ---------------------------------------------------------------- escape_newlines

  /** `escape_newlines` on a string: CRLF, then CR, then LF become `\n`. */
  function EscapeText(s: string): string
  {
    Replace(Replace(Replace(s, [CR, LF], EscapedNewline), [CR], EscapedNewline), [LF], EscapedNewline)
  }

  /** `escape_newlines`: strings are escaped, NULL passes through. */
  function EscapeNewlines(v: Cell): Cell
  {
    match v
    case None => None
    case Some(s) => Some(EscapeText(s))
  }

  /** The escaping as one left-to-right scan: a CRLF pair, a lone CR and a
      lone LF each become `\n`; every other character is kept. */
  function EscapeScan(s: string): string
    decreases |s|
  {
    if |s| == 0 then []
    else if |s| >= 2 && s[0] == CR && s[1] == LF then EscapedNewline + EscapeScan(s[2..])
    else if s[0] == CR || s[0] == LF then EscapedNewline + EscapeScan(s[1..])
    else [s[0]] + EscapeScan(s[1..])
  }

  predicate NoLineBreak(s: string)
  {
    forall i :: 0 <= i < |s| ==> s[i] != CR && s[i] != LF
  }

  /** The three chained replacements are the one scan. */
  lemma {:induction false} EscapeIsScan(s: string)
    ensures EscapeText(s) == EscapeScan(s)
    decreases |s|
  {
    var e := EscapedNewline;
    ReplaceAbsent(e, [CR], e);
    ReplaceAbsent(e, [LF], e);
    if |s| == 1 {
      assert s[..1] == [s[0]] && s[1..] == [];
      assert Replace(s, [CR, LF], e) == s;
      if s[0] == CR {
        assert Replace(s, [CR], e) == e + Replace([], [CR], e) == e;
        assert EscapeScan(s) == e + EscapeScan([]) == e;
      } else if s[0] == LF {
        assert Replace(s, [CR], e) == s;
        assert Replace(s, [LF], e) == e + Replace([], [LF], e);
      } else {
        assert Replace(s, [CR], e) == s;
        assert Replace(s, [LF], e) == s;
      }
    } else if |s| >= 2 {
      if s[0] == CR && s[1] == LF {
        assert s[..2] == [CR, LF];
        var rest := Replace(s[2..], [CR, LF], e);
        assert Replace(s, [CR, LF], e) == e + rest;
        ReplaceCharAppend(e, rest, CR, e);
        var rest2 := Replace(rest, [CR], e);
        ReplaceCharAppend(e, rest2, LF, e);
        EscapeIsScan(s[2..]);
      } else {
        assert s[..2] != [CR, LF];
        var rest := Replace(s[1..], [CR, LF], e);
        assert Replace(s, [CR, LF], e) == [s[0]] + rest;
        ReplaceCharAppend([s[0]], rest, CR, e);
        var head := Replace([s[0]], [CR], e);
        var rest2 := Replace(rest, [CR], e);
        ReplaceCharAppend(head, rest2, LF, e);
        EscapeIsScan(s[1..]);
        if s[0] == CR {
          assert head == e + Replace([], [CR], e);
        } else if s[0] == LF {
          assert head == [s[0]];
          assert Replace(head, [LF], e) == e + Replace([], [LF], e);
        } else {
          assert head == [s[0]];
          assert Replace(head, [LF], e) == [s[0]];
        }
      }
    }
  }

  /** The scan leaves no CR or LF behind. */
  lemma {:induction false} EscapeScanClean(s: string)
    ensures NoLineBreak(EscapeScan(s))
    decreases |s|
  {
    if |s| >= 2 && s[0] == CR && s[1] == LF {
      EscapeScanClean(s[2..]);
    } else if |s| > 0 {
      EscapeScanClean(s[1..]);
    }
  }

  /** Text without line breaks is not changed by the scan. */
  lemma {:induction false} EscapeScanIdentity(s: string)
    requires NoLineBreak(s)
    ensures EscapeScan(s) == s
    decreases |s|
  {
    if |s| > 0 {
      EscapeScanIdentity(s[1..]);
    }
  }

  /** `escape_newlines` removes every line break, and changes nothing in a
      value without one (NULL included). */
  lemma EscapeNewlinesMeaning(v: Cell)
    ensures EscapeNewlines(v).Some? <==> v.Some?
    ensures EscapeNewlines(v).Some? ==> NoLineBreak(EscapeNewlines(v).value)
    ensures v.Some? && NoLineBreak(v.value) ==> EscapeNewlines(v) == v
  {
    if v.Some? {
      EscapeIsScan(v.value);
      EscapeScanClean(v.value);
      if NoLineBreak(v.value) {
        EscapeScanIdentity(v.value);
      }
    }
  }

  // ---------------------------------------------------------------- conversions

  /** `bool_columns`: the columns declared `bool` in the column table. */
  predicate IsBoolColumn(col: string)
  {
    col == "commercial" || col == "webadress" || col == "advertising"
  }

  datatype CodecError =
    | NullInBoolColumn(col: string)     // `None[0]`: TypeError
    | EmptyInBoolColumn(col: string)    // `""[0]`: IndexError

  /** `bool_to_int`: in a boolean column a value starting with `t` becomes
      the integer 1 (written "1") and any other value `None`; other columns
      pass through. Indexing a NULL or empty value raises. */
  function BoolToInt(col: string, v: Cell): (r: Result<Cell, CodecError>)
    ensures !IsBoolColumn(col) ==> r == Ok(v)
    ensures IsBoolColumn(col) ==>
      (r.Ok? <==> v.Some? && |v.value| > 0)
      && (r.Ok? ==> (r.value == Some("1") <==> v.value[0] == 't'))
      && (r.Ok? ==> r.value == Some("1") || r.value.None?)
  {
    if !IsBoolColumn(col) then Ok(v)
    else
      match v
      case None => Err(NullInBoolColumn(col))
      case Some(s) =>
        if |s| == 0 then Err(EmptyInBoolColumn(col))
        else Ok(if s[0] == 't' then Some("1") else None)
  }

  /** `recordtype_to_int`: the first letter of single/parent/child chooses
      0/1/2; NULL, the empty string and anything else give 0. */
  function RecordTypeToInt(v: Cell): (r: nat)
    ensures r <= 2
    ensures r == 1 <==> v.Some? && |v.value| > 0 && v.value[0] == 'p'
    ensures r == 2 <==> v.Some? && |v.value| > 0 && v.value[0] == 'c'
  {
    match v
    case None => 0
    case Some(s) =>
      if |s| == 0 then 0
      else if s[0] == 's' then 0
      else if s[0] == 'p' then 1
      else if s[0] == 'c' then 2
      else 0
  }

  /** The three record types map to their positions 0, 1, 2. */
  lemma RecordTypeNames()
    ensures RecordTypeToInt(Some("single")) == 0
    ensures RecordTypeToInt(Some("parent")) == 1
    ensures RecordTypeToInt(Some("child")) == 2
  {
  }

  // ---------------------------------------------------------------- serialize_payload

  /** The text of one payload field before quoting: the escaped and
      converted value, with NULL and "0" both written as the empty field. */
  function FieldText(col: string, v: Cell): (r: Result<string, CodecError>)
    ensures r.Ok? ==> NoLineBreak(r.value) && r.value != "0"
    ensures r.Ok? && (v.None? || v == Some("0")) ==> r.value == ""
  {
    EscapeNewlinesMeaning(v);
    match BoolToInt(col, EscapeNewlines(v))
    case Err(e) => Err(e)
    case Ok(w) =>
      var s := if w.None? then "" else w.value;
      if s == "0" then Ok("") else Ok(s)
  }

  predicate NeedsQuotes(s: string)
  {
    exists i :: 0 <= i < |s| && (s[i] == Delimiter || s[i] == LF || s[i] == Quote)
  }

  /** Quoting as `serialize_payload` does it: only when the field holds the
      delimiter, a line feed or a quote, and then with quotes doubled. */
  function QuoteField(s: string): string
  {
    if NeedsQuotes(s) then [Quote] + Replace(s, [Quote], [Quote, Quote]) + [Quote] else s
  }

  /** The field texts of a row, in payload column order. */
  function PayloadTexts(cols: seq<string>, values: seq<Cell>): (r: Result<seq<string>, CodecError>)
    requires |cols| == |values|
    ensures r.Ok? ==> |r.value| == |cols|
    ensures r.Ok? ==> forall i :: 0 <= i < |cols| ==> FieldText(cols[i], values[i]) == Ok(r.value[i])
    ensures r.Err? ==> exists i :: 0 <= i < |cols| && FieldText(cols[i], values[i]).Err?
  {
    if |cols| == 0 then Ok([])
    else
      match FieldText(cols[0], values[0])
      case Err(e) => Err(e)
      case Ok(t) =>
        match PayloadTexts(cols[1..], values[1..])
        case Err(e) => Err(e)
        case Ok(ts) => Ok([t] + ts)
  }

  function QuoteAll(ts: seq<string>): (r: seq<string>)
    ensures |r| == |ts|
    ensures forall i :: 0 <= i < |ts| ==> r[i] == QuoteField(ts[i])
  {
    if |ts| == 0 then [] else [QuoteField(ts[0])] + QuoteAll(ts[1..])
  }

  /** `serialize_payload(row, payload_cols)`: the quoted field texts joined
      with `;`. */
  function SerializePayload(cols: seq<string>, values: seq<Cell>): Result<string, CodecError>
    requires |cols| == |values|
  {
    match PayloadTexts(cols, values)
    case Err(e) => Err(e)
    case Ok(ts) => Ok(Join(QuoteAll(ts), [Delimiter]))
  }

  // ---------------------------------------------------------------- csv.reader

  datatype ParseState = StartField | InField | InQuoted | QuoteInQuoted | EatCrnl

  datatype CsvError = NewlineInUnquotedField

  predicate IsLineBreak(c: char)
  {
    c == CR || c == LF
  }

  /** The reader's state machine over the rest `s` of the line, with the
      field being read and the fields saved so far. The end of the line
      saves the pending field unless a line break already ended the
      record. */
  function ParseFrom(s: string, st: ParseState, field: string, fields: seq<string>): Result<seq<string>, CsvError>
    decreases |s|
  {
    if |s| == 0 then Ok(if st == EatCrnl then fields else fields + [field])
    else
      match Step(st, s[0], field, fields)
      case Err(e) => Err(e)
      case Ok(next) => ParseFrom(s[1..], next.st, next.field, next.fields)
  }

  datatype Reader = Reader(st: ParseState, field: string, fields: seq<string>)

  /** One character of the reader's state machine. */
  function Step(st: ParseState, c: char, field: string, fields: seq<string>): Result<Reader, CsvError>
  {
    match st
    case StartField =>
      if c == Quote then Ok(Reader(InQuoted, "", fields))
      else if c == Delimiter then Ok(Reader(StartField, "", fields + [field]))
      else if IsLineBreak(c) then Ok(Reader(EatCrnl, "", fields + [field]))
      else Ok(Reader(InField, [c], fields))
    case InField =>
      if c == Delimiter then Ok(Reader(StartField, "", fields + [field]))
      else if IsLineBreak(c) then Ok(Reader(EatCrnl, "", fields + [field]))
      else Ok(Reader(InField, field + [c], fields))
    case InQuoted =>
      if c == Quote then Ok(Reader(QuoteInQuoted, field, fields))
      else Ok(Reader(InQuoted, field + [c], fields))
    case QuoteInQuoted =>
      if c == Quote then Ok(Reader(InQuoted, field + [Quote], fields))
      else if c == Delimiter then Ok(Reader(StartField, "", fields + [field]))
      else if IsLineBreak(c) then Ok(Reader(EatCrnl, "", fields + [field]))
      else Ok(Reader(InField, field + [c], fields))
    case EatCrnl =>
      if IsLineBreak(c) then Ok(Reader(EatCrnl, "", fields))
      else Err(NewlineInUnquotedField)
  }

  /** `deserialize_payload`: `next(csv.reader([line], delimiter=";"))`. An
      empty line is a record without fields. */
  function ParseRecord(line: string): Result<seq<string>, CsvError>
  {
    if |line| == 0 then Ok([])
    else if IsLineBreak(line[0]) then ParseFrom(line[1..], EatCrnl, "", [])
    else ParseFrom(line, StartField, "", [])
  }

  predicate Plain(s: string)
  {
    forall i :: 0 <= i < |s| ==> s[i] != Delimiter && s[i] != Quote && !IsLineBreak(s[i])
  }

  /** Reading the characters of an unquoted field. */
  lemma {:induction false} ReadPlain(u: string, tail: string, field: string, fields: seq<string>)
    requires Plain(u)
    ensures ParseFrom(u + tail, InField, field, fields) == ParseFrom(tail, InField, field + u, fields)
    decreases |u|
  {
    if |u| == 0 {
      assert u + tail == tail && field + u == field;
    } else {
      assert (u + tail)[0] == u[0] && (u + tail)[1..] == u[1..] + tail;
      ReadPlain(u[1..], tail, field + [u[0]], fields);
      assert field + [u[0]] + u[1..] == field + u;
    }
  }

  /** Reading the inside of a quoted field, up to its closing quote. */
  lemma {:induction false} ReadQuoted(t: string, tail: string, field: string, fields: seq<string>)
    ensures ParseFrom(Replace(t, [Quote], [Quote, Quote]) + [Quote] + tail, InQuoted, field, fields)
         == ParseFrom(tail, QuoteInQuoted, field + t, fields)
    decreases |t|
  {
    var d := Replace(t, [Quote], [Quote, Quote]);
    if |t| == 0 {
      assert d == [];
      assert d + [Quote] + tail == [Quote] + tail;
      assert field + t == field;
    } else {
      var dr := Replace(t[1..], [Quote], [Quote, Quote]);
      assert t[..1] == [t[0]];
      if t[0] == Quote {
        assert d == [Quote, Quote] + dr;
        var s := d + [Quote] + tail;
        assert s[0] == Quote && s[1..] == [Quote] + dr + [Quote] + tail;
        assert s[1..][0] == Quote && s[1..][1..] == dr + [Quote] + tail;
      } else {
        assert d == [t[0]] + dr;
        var s := d + [Quote] + tail;
        assert s[0] == t[0] && s[1..] == dr + [Quote] + tail;
      }
      ReadQuoted(t[1..], tail, field + [t[0]], fields);
      assert field + [t[0]] + t[1..] == field + t;
    }
  }

  /** Reading one quoted-or-plain field from the start of a field; the
      reader ends in a state from which the delimiter or the end of the
      line saves exactly that field. */
  lemma ReadField(t: string, tail: string, fields: seq<string>)
    requires NoLineBreak(t)
    ensures |t| > 0 || NeedsQuotes(t) ==>
      ParseFrom(QuoteField(t) + tail, StartField, "", fields)
        == ParseFrom(tail, if NeedsQuotes(t) then QuoteInQuoted else InField, t, fields)
  {
    if NeedsQuotes(t) {
      var d := Replace(t, [Quote], [Quote, Quote]);
      var s := QuoteField(t) + tail;
      assert s == [Quote] + (d + [Quote] + tail);
      assert s[0] == Quote && s[1..] == d + [Quote] + tail;
      ReadQuoted(t, tail, "", fields);
      assert "" + t == t;
    } else if |t| > 0 {
      assert Plain(t);
      var s := t + tail;
      assert s[0] == t[0] && s[1..] == t[1..] + tail;
      ReadPlain(t[1..], tail, [t[0]], fields);
      assert [t[0]] + t[1..] == t;
    }
  }

  /** After a field, the delimiter saves it and the end of the line saves
      it as the last one. */
  lemma FieldEnd(t: string, st: ParseState, rest: string, fields: seq<string>)
    requires st == InField || st == QuoteInQuoted
    ensures ParseFrom([Delimiter] + rest, st, t, fields) == ParseFrom(rest, StartField, "", fields + [t])
    ensures ParseFrom([], st, t, fields) == Ok(fields + [t])
  {
    assert ([Delimiter] + rest)[1..] == rest;
  }

  /** A field followed by the delimiter is saved, and reading goes on at
      the start of the next field. */
  lemma ReadFieldThenDelimiter(t: string, rest: string, fields: seq<string>)
    requires NoLineBreak(t)
    ensures ParseFrom(QuoteField(t) + [Delimiter] + rest, StartField, "", fields)
         == ParseFrom(rest, StartField, "", fields + [t])
  {
    var tail := [Delimiter] + rest;
    assert QuoteField(t) + [Delimiter] + rest == QuoteField(t) + tail;
    if |t| > 0 || NeedsQuotes(t) {
      ReadField(t, tail, fields);
      FieldEnd(t, if NeedsQuotes(t) then QuoteInQuoted else InField, rest, fields);
    } else {
      assert QuoteField(t) == [] && t == "";
      assert QuoteField(t) + tail == tail;
      assert tail[0] == Delimiter && tail[1..] == rest;
    }
  }

  /** A non-empty field at the end of the line is saved as the last one. */
  lemma ReadLastField(t: string, fields: seq<string>)
    requires NoLineBreak(t)
    ensures ParseFrom(QuoteField(t), StartField, "", fields) == Ok(fields + [t])
  {
    if |t| > 0 || NeedsQuotes(t) {
      ReadField(t, [], fields);
      assert QuoteField(t) + [] == QuoteField(t);
      FieldEnd(t, if NeedsQuotes(t) then QuoteInQuoted else InField, [], fields);
    } else {
      assert QuoteField(t) == [] && t == "";
    }
  }

  lemma JoinQuotedFirst(ts: seq<string>)
    requires |ts| >= 2
    ensures Join(QuoteAll(ts), [Delimiter]) == QuoteField(ts[0]) + [Delimiter] + Join(QuoteAll(ts[1..]), [Delimiter])
  {
    assert QuoteAll(ts)[1..] == QuoteAll(ts[1..]);
  }

  /** Reading the quoted fields of a joined record saves exactly those
      fields. */
  lemma {:induction false} ReadFields(ts: seq<string>, fields: seq<string>)
    requires |ts| >= 1
    requires forall i :: 0 <= i < |ts| ==> NoLineBreak(ts[i])
    ensures ParseFrom(Join(QuoteAll(ts), [Delimiter]), StartField, "", fields) == Ok(fields + ts)
    decreases |ts|
  {
    if |ts| == 1 {
      assert Join(QuoteAll(ts), [Delimiter]) == QuoteField(ts[0]);
      ReadLastField(ts[0], fields);
      assert fields + ts == fields + [ts[0]];
    } else {
      assert fields + [ts[0]] + ts[1..] == fields + ts by {
        assert ts == [ts[0]] + ts[1..];
      }
      JoinQuotedFirst(ts);
      ReadFieldThenDelimiter(ts[0], Join(QuoteAll(ts[1..]), [Delimiter]), fields);
      ReadFields(ts[1..], fields + [ts[0]]);
    }
  }

  /** `deserialize_payload` undoes the quoting and joining of
      `serialize_payload`: the reader gives back the field texts. The one
      exception is a single empty field, whose line is empty and reads as
      a record without fields. */
  lemma PayloadRoundTrip(ts: seq<string>)
    requires |ts| >= 1 && ts != [""]
    requires forall i :: 0 <= i < |ts| ==> NoLineBreak(ts[i])
    ensures ParseRecord(Join(QuoteAll(ts), [Delimiter])) == Ok(ts)
  {
    var line := Join(QuoteAll(ts), [Delimiter]);
    LineStart(ts);
    ReadFields(ts, []);
    assert [] + ts == ts;
    assert ParseRecord(line) == ParseFrom(line, StartField, "", []);
  }

  /** A joined record of fields without line breaks, other than the one
      empty field, does not start with a line break. */
  lemma LineStart(ts: seq<string>)
    requires |ts| >= 1 && ts != [""]
    requires forall i :: 0 <= i < |ts| ==> NoLineBreak(ts[i])
    ensures var line := Join(QuoteAll(ts), [Delimiter]);
      |line| > 0 && !IsLineBreak(line[0])
  {
    var line := Join(QuoteAll(ts), [Delimiter]);
    var t := ts[0];
    if |ts| == 1 {
      assert line == QuoteField(t);
      assert |t| > 0;
      if !NeedsQuotes(t) {
        assert line[0] == t[0];
      }
    } else {
      JoinQuotedFirst(ts);
      if |QuoteField(t)| == 0 {
        assert line[0] == Delimiter;
      } else if !NeedsQuotes(t) {
        assert line[0] == t[0];
      } else {
        assert line[0] == Quote;
      }
    }
  }

  /** A serialized row reads back as its field texts: one per payload
      column (when there are at least two columns). */
  lemma SerializeRoundTrip(cols: seq<string>, values: seq<Cell>)
    requires |cols| == |values| && |cols| >= 2
    requires SerializePayload(cols, values).Ok?
    ensures PayloadTexts(cols, values).Ok?
    ensures ParseRecord(SerializePayload(cols, values).value) == Ok(PayloadTexts(cols, values).value)
  {
    var ts := PayloadTexts(cols, values).value;
    assert forall i :: 0 <= i < |ts| ==> NoLineBreak(ts[i]) by {
      forall i | 0 <= i < |ts| ensures NoLineBreak(ts[i]) {
        assert FieldText(cols[i], values[i]) == Ok(ts[i]);
      }
    }
    PayloadRoundTrip(ts);
  }

  // ---------------------------------------------------------------- payload columns

  predicate IsMetaOrIgnored(c: string)
  {
    c == "id" || c == "parent_id" || c == "query_name" || c == "query_offset"
    || c == "query_child_num" || c == "recordtype"
  }

  /** `payload_cols`: the table's columns without the key, the parent link,
      the query bookkeeping and the record type, in table order. */
  function PayloadColumns(all: seq<string>): (r: seq<string>)
    ensures |r| <= |all|
    ensures forall i :: 0 <= i < |r| ==> r[i] in all && !IsMetaOrIgnored(r[i])
    ensures forall i :: 0 <= i < |all| && !IsMetaOrIgnored(all[i]) ==> all[i] in r
  {
    if |all| == 0 then []
    else
      var rest := PayloadColumns(all[1..]);
      assert forall i :: 1 <= i < |all| ==> all[i] == all[1..][i - 1];
      (if IsMetaOrIgnored(all[0]) then [] else [all[0]]) + rest
  }

  /** A column is a payload column exactly when it is a table column that
      is neither meta nor ignored. */
  lemma {:induction false} PayloadColumnsMembers(all: seq<string>, c: string)
    ensures c in PayloadColumns(all) <==> c in all && !IsMetaOrIgnored(c)
    decreases |all|
  {
    if |all| > 0 {
      PayloadColumnsMembers(all[1..], c);
      assert all == [all[0]] + all[1..];
    }
  }

  /** Filtering keeps order: the payload columns of a concatenation are
      the payload columns of each part, in turn. */
  lemma {:induction false} PayloadColumnsAppend(a: seq<string>, b: seq<string>)
    ensures PayloadColumns(a + b) == PayloadColumns(a) + PayloadColumns(b)
    decreases |a|
  {
    if |a| == 0 {
      assert a + b == b;
    } else {
      assert (a + b)[0] == a[0] && (a + b)[1..] == a[1..] + b;
      PayloadColumnsAppend(a[1..], b);
    }
  }
}
