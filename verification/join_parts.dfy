/** Joining the parts back into one file: the parts are ordered by the
    number after "part" in their names and concatenated, each completed
    with a newline byte when it lacks one. */
module JoinParts {
  import opened Common
  import opened Decimal
  import opened SplitFile

  // ---------------------------------------------------------------- sort key

  /** The longest run of digits that `s` starts with. */
  function DigitRun(s: string): (r: string)
    ensures AllDigits(r) && |r| <= |s| && r == s[..|r|]
    ensures |r| < |s| ==> !IsDigit(s[|r|])
  {
    if |s| == 0 || !IsDigit(s[0]) then [] else [s[0]] + DigitRun(s[1..])
  }

  /** A match of `part(\d+)` starting at `i`. */
  predicate MatchAt(name: string, i: nat)
  {
    i + 5 <= |name| && name[i..i + 4] == "part" && IsDigit(name[i + 4])
  }

  /** `re.search(r"part(\d+)", name)` from position `i`: the value of the
      digits of the leftmost match, if there is one. */
  function KeyFrom(name: string, i: nat): (r: Option<nat>)
    ensures r.None? <==> forall j :: i <= j < |name| ==> !MatchAt(name, j)
    decreases |name| - i
  {
    if i + 5 > |name| then None
    else if MatchAt(name, i) then Some(DigitsValue(DigitRun(name[i + 4..])))
    else KeyFrom(name, i + 1)
  }

  /** The sort key of a part's name; `None` stands for `float('inf')`. */
  function SortKey(name: string): Option<nat>
  {
    KeyFrom(name, 0)
  }

  /** Key order: every number comes before infinity. */
  predicate KeyLe(a: Option<nat>, b: Option<nat>)
  {
    b.None? || (a.Some? && a.value <= b.value)
  }

  /** No match may straddle the end of `base` when the rest starts with a
      dot, so a base without a match leaves the search to the rest. */
  lemma {:induction false} SkipBase(base: string, rest: string, i: nat)
    requires i <= |base|
    requires SortKey(base).None?
    requires |rest| > 0 && rest[0] == '.'
    ensures KeyFrom(base + rest, i) == KeyFrom(base + rest, |base|)
    decreases |base| - i
  {
    if i < |base| {
      if i + 5 <= |base| {
        NoMatchInBase(base, rest, i);
      } else {
        NoStraddle(base + rest, |base|, i);
      }
      SkipBase(base, rest, i + 1);
    }
  }

  lemma NoMatchInBase(base: string, rest: string, i: nat)
    requires i + 5 <= |base|
    requires SortKey(base).None?
    ensures !MatchAt(base + rest, i)
  {
    var name := base + rest;
    assert name[i..i + 4] == base[i..i + 4];
    assert name[i + 4] == base[i + 4];
    assert !MatchAt(base, i);
  }

  /** A dot at `d` rules out every match overlapping it. */
  lemma NoStraddle(name: string, d: nat, i: nat)
    requires d < |name| && name[d] == '.'
    requires i <= d < i + 5
    ensures !MatchAt(name, i)
  {
    var k := d - i;
    if k < 4 && i + 4 <= |name| {
      assert name[i..i + 4][k] == '.';
      assert "part"[k] != '.';
    }
  }

  lemma {:induction false} DigitRunStops(z: string, e: string)
    requires AllDigits(z)
    requires |e| == 0 || !IsDigit(e[0])
    ensures DigitRun(z + e) == z
    decreases |z|
  {
    if |z| > 0 {
      assert (z + e)[0] == z[0] && (z + e)[1..] == z[1..] + e;
      DigitRunStops(z[1..], e);
      assert [z[0]] + z[1..] == z;
    } else {
      assert z + e == e;
    }
  }

  /** The key of part `n`'s name is `n`, however it is padded, when the
      base holds no `part` followed by a digit and the extension is empty
      or starts with a dot (as `os.path.splitext` gives it). */
  lemma PartNameKey(base: string, ext: string, n: nat, digits: nat)
    requires SortKey(base).None?
    requires |ext| == 0 || ext[0] == '.'
    ensures SortKey(PartName(base, ext, n, digits)) == Some(n)
  {
    var z := ZFill(NatToString(n), digits);
    var name := PartName(base, ext, n, digits);
    var k := |base| + 1;
    PartNameShape(base, ext, n, digits);
    SkipBase(base, ".part" + z + ext, 0);
    NoStraddle(name, |base|, |base|);
    assert KeyFrom(name, |base|) == KeyFrom(name, k);
    assert KeyFrom(name, k) == Some(DigitsValue(DigitRun(z + ext)));
    DigitRunStops(z, ext);
    ZFillValue(NatToString(n), digits);
    NatToStringRoundTrip(n);
  }

  lemma PartNameShape(base: string, ext: string, n: nat, digits: nat)
    ensures var z := ZFill(NatToString(n), digits);
      var name := PartName(base, ext, n, digits);
      && name == base + (".part" + z + ext)
      && name[|base|] == '.'
      && MatchAt(name, |base| + 1)
      && name[|base| + 5..] == z + ext
  {
    var z := ZFill(NatToString(n), digits);
    ZFillValue(NatToString(n), digits);
    NameShape(base, z, ext);
  }

  lemma NameShape(base: string, z: string, ext: string)
    requires |z| > 0 && IsDigit(z[0])
    ensures var name := base + ".part" + z + ext;
      && name == base + (".part" + z + ext)
      && name[|base|] == '.'
      && MatchAt(name, |base| + 1)
      && name[|base| + 5..] == z + ext
  {
    var name := base + ".part" + z + ext;
    var k := |base| + 1;
    assert name == (base + ".part") + (z + ext);
    assert |base + ".part"| == k + 4;
    assert name[k..k + 4] == "part";
    assert name[k + 4] == z[0];
  }

  // ---------------------------------------------------------------- sorting

  predicate SortedByKey(s: seq<Part>)
  {
    forall i, j :: 0 <= i < j < |s| ==> KeyLe(SortKey(s[i].name), SortKey(s[j].name))
  }

  /** Puts `x` after every element whose key is not larger: the insertion
      step of a stable sort. */
  function InsertByKey(s: seq<Part>, x: Part): (r: seq<Part>)
    ensures |r| == |s| + 1
    ensures multiset(r) == multiset(s) + multiset{x}
    decreases |s|
  {
    if |s| == 0 || KeyLe(SortKey(s[|s| - 1].name), SortKey(x.name)) then s + [x]
    else
      assert s == s[..|s| - 1] + [s[|s| - 1]];
      InsertByKey(s[..|s| - 1], x) + [s[|s| - 1]]
  }

  /** `sorted(parts, key=...)`. */
  function SortParts(s: seq<Part>): (r: seq<Part>)
    ensures multiset(r) == multiset(s)
    decreases |s|
  {
    if |s| == 0 then []
    else
      assert s == s[..|s| - 1] + [s[|s| - 1]];
      InsertByKey(SortParts(s[..|s| - 1]), s[|s| - 1])
  }

  /** Every key of `s` is at most `k`. */
  predicate AllAtMost(s: seq<Part>, k: Option<nat>)
  {
    forall i :: 0 <= i < |s| ==> KeyLe(SortKey(s[i].name), k)
  }

  /** Key order is a total preorder. */
  lemma KeyLeTotal(a: Option<nat>, b: Option<nat>, c: Option<nat>)
    ensures KeyLe(a, b) || KeyLe(b, a)
    ensures KeyLe(a, b) && KeyLe(b, c) ==> KeyLe(a, c)
  {
  }

  /** Inserting a key at most `k` keeps every key at most `k`. */
  lemma {:induction false} InsertAtMost(s: seq<Part>, x: Part, k: Option<nat>)
    requires AllAtMost(s, k) && KeyLe(SortKey(x.name), k)
    ensures AllAtMost(InsertByKey(s, x), k)
    decreases |s|
  {
    if |s| > 0 && !KeyLe(SortKey(s[|s| - 1].name), SortKey(x.name)) {
      var init := s[..|s| - 1];
      assert AllAtMost(init, k) by {
        forall i | 0 <= i < |init| ensures KeyLe(SortKey(init[i].name), k) {
          assert init[i] == s[i];
        }
      }
      InsertAtMost(init, x, k);
    }
  }

  /** A key-ordered sequence stays ordered when an element with a key at
      least as large as all of its keys is put at the end. */
  lemma SortedSnoc(r: seq<Part>, y: Part)
    requires SortedByKey(r) && AllAtMost(r, SortKey(y.name))
    ensures SortedByKey(r + [y])
  {
  }

  lemma {:induction false} InsertSorted(s: seq<Part>, x: Part)
    requires SortedByKey(s)
    ensures SortedByKey(InsertByKey(s, x))
    decreases |s|
  {
    if |s| == 0 {
      SortedSnoc(s, x);
    } else {
      var init, last := s[..|s| - 1], s[|s| - 1];
      var kl, kx := SortKey(last.name), SortKey(x.name);
      if KeyLe(kl, kx) {
        forall i | 0 <= i < |s| ensures KeyLe(SortKey(s[i].name), kx) {
          KeyLeTotal(SortKey(s[i].name), kl, kx);
        }
        SortedSnoc(s, x);
      } else {
        assert SortedByKey(init);
        InsertSorted(init, x);
        KeyLeTotal(kx, kl, kl);
        assert AllAtMost(init, kl);
        InsertAtMost(init, x, kl);
        SortedSnoc(InsertByKey(init, x), last);
      }
    }
  }

  /** The parts come out in key order, and as a permutation of the input. */
  lemma {:induction false} SortPartsSorted(s: seq<Part>)
    ensures SortedByKey(SortParts(s))
    ensures multiset(SortParts(s)) == multiset(s)
    decreases |s|
  {
    if |s| > 0 {
      SortPartsSorted(s[..|s| - 1]);
      InsertSorted(SortParts(s[..|s| - 1]), s[|s| - 1]);
    }
  }

  /** Parts already in key order are left as they are. */
  lemma {:induction false} SortPartsSortedInput(s: seq<Part>)
    requires SortedByKey(s)
    ensures SortParts(s) == s
    decreases |s|
  {
    if |s| > 0 {
      var init, last := s[..|s| - 1], s[|s| - 1];
      SortedInit(s);
      SortPartsSortedInput(init);
      InsertLast(s);
    }
  }

  lemma SortedInit(s: seq<Part>)
    requires |s| > 0 && SortedByKey(s)
    ensures SortedByKey(s[..|s| - 1])
  {
    var init := s[..|s| - 1];
    forall i, j | 0 <= i < j < |init|
      ensures KeyLe(SortKey(init[i].name), SortKey(init[j].name))
    {
      assert init[i] == s[i] && init[j] == s[j];
    }
  }

  /** The last element of a key-ordered sequence goes back to the end. */
  lemma InsertLast(s: seq<Part>)
    requires |s| > 0 && SortedByKey(s)
    ensures InsertByKey(s[..|s| - 1], s[|s| - 1]) == s
  {
    var init, last := s[..|s| - 1], s[|s| - 1];
    if |init| > 0 {
      assert init[|init| - 1] == s[|s| - 2];
    }
    assert InsertByKey(init, last) == init + [last];
  }

  // ---------------------------------------------------------------- joining

  /** A part's content as written: a newline byte is added when missing. */
  function WithNewline(c: seq<Byte>): (r: seq<Byte>)
    ensures |r| == |c| + (if EndsWithNewline(c) then 0 else 1)
    ensures EndsWithNewline(r)
    ensures r[..|c|] == c
  {
    if EndsWithNewline(c) then c else c + [Newline]
  }

  function Blocks(cs: seq<seq<Byte>>): (r: seq<seq<Byte>>)
    ensures |r| == |cs|
    ensures forall i :: 0 <= i < |cs| ==> r[i] == WithNewline(cs[i])
  {
    if |cs| == 0 then [] else [WithNewline(cs[0])] + Blocks(cs[1..])
  }

  /** The number of parts lacking a final newline. */
  function MissingNewlines(cs: seq<seq<Byte>>): nat
  {
    if |cs| == 0 then 0 else (if EndsWithNewline(cs[0]) then 0 else 1) + MissingNewlines(cs[1..])
  }

  /** The output is as long as the parts plus one byte per part lacking a
      final newline. */
  lemma {:induction false} JoinedLength(cs: seq<seq<Byte>>)
    ensures |Flatten(Blocks(cs))| == |Flatten(cs)| + MissingNewlines(cs)
  {
    if |cs| > 0 {
      JoinedLength(cs[1..]);
      assert Blocks(cs)[1..] == Blocks(cs[1..]);
    }
  }

  /** When every part ends with a newline the output is the parts joined
      as they are. */
  lemma {:induction false} JoinedPlain(cs: seq<seq<Byte>>)
    requires forall i :: 0 <= i < |cs| ==> EndsWithNewline(cs[i])
    ensures Flatten(Blocks(cs)) == Flatten(cs)
  {
    if |cs| > 0 {
      JoinedPlain(cs[1..]);
      assert Blocks(cs)[1..] == Blocks(cs[1..]);
    }
  }

  datatype JoinError = OutputExists

  /** `join_parts()`: an existing output file is an error; no part file
      means nothing is written (`None`); otherwise the bytes written. */
  function Join(outputExists: bool, parts: seq<Part>): (r: Result<Option<seq<Byte>>, JoinError>)
    ensures r.Err? <==> outputExists
    ensures r.Ok? ==> (r.value.None? <==> |parts| == 0)
    ensures r.Ok? && r.value.Some? ==> EndsWithNewline(r.value.value)
  {
    if outputExists then Err(OutputExists)
    else if |parts| == 0 then Ok(None)
    else
      var out := Flatten(Blocks(Contents(SortParts(parts))));
      JoinedEnds(Contents(SortParts(parts)));
      Ok(Some(out))
  }

  lemma {:induction false} JoinedEnds(cs: seq<seq<Byte>>)
    requires |cs| > 0
    ensures EndsWithNewline(Flatten(Blocks(cs)))
  {
    if |cs| > 1 {
      JoinedEnds(cs[1..]);
      assert Blocks(cs)[1..] == Blocks(cs[1..]);
    } else {
      assert Flatten(Blocks(cs)) == WithNewline(cs[0]) + Flatten([]);
    }
  }

  /** What is written is, part by part in key order, each part's content
      followed by a newline byte when it lacks one. */
  lemma JoinMeaning(parts: seq<Part>)
    requires |parts| > 0
    ensures var s := SortParts(parts);
      && SortedByKey(s) && multiset(s) == multiset(parts)
      && Join(false, parts) == Ok(Some(Flatten(Blocks(Contents(s)))))
      && |Join(false, parts).value.value| == |Flatten(Contents(s))| + MissingNewlines(Contents(s))
  {
    SortPartsSorted(parts);
    JoinedLength(Contents(SortParts(parts)));
  }

  // ---------------------------------------------------------------- round trip

  /** The parts of a split are numbered 1, 2, ... and so already in key
      order. */
  lemma PartsInOrder(base: string, ext: string, gs: seq<seq<seq<Byte>>>, digits: nat)
    requires SortKey(base).None?
    requires |ext| == 0 || ext[0] == '.'
    ensures SortedByKey(PartsFrom(base, ext, gs, 1, digits))
  {
    var parts := PartsFrom(base, ext, gs, 1, digits);
    forall i | 0 <= i < |parts|
      ensures SortKey(parts[i].name) == Some(1 + i)
    {
      assert parts[i].name == PartName(base, ext, 1 + i, digits);
      PartNameKey(base, ext, 1 + i, digits);
    }
    NumberedInOrder(parts);
  }

  /** Parts whose keys are their positions counted from 1 are in key
      order. */
  lemma NumberedInOrder(parts: seq<Part>)
    requires forall i :: 0 <= i < |parts| ==> SortKey(parts[i].name) == Some(1 + i)
    ensures SortedByKey(parts)
  {
  }

  /** A group of whole lines, each ending with a newline, ends with one
      when it is not empty. */
  lemma {:induction false} GroupEndsWithNewline(g: seq<seq<Byte>>)
    requires |g| > 0
    requires forall i :: 0 <= i < |g| ==> EndsWithNewline(g[i])
    ensures EndsWithNewline(Flatten(g))
  {
    if |g| > 1 {
      GroupEndsWithNewline(g[1..]);
    } else {
      assert Flatten(g) == g[0] + Flatten([]);
    }
  }

  /** Joining the parts of a split gives back the data, provided no part
      is empty and the data ends with a newline. */
  lemma JoinSplitWith(base: string, ext: string, data: seq<Byte>, chunkSize: nat, guard: bool)
    requires chunkSize > 0
    requires SortKey(base).None?
    requires |ext| == 0 || ext[0] == '.'
    requires |data| > 0 && EndsWithNewline(data)
    requires var gs := ChunkFrom(Lines(data), chunkSize, guard, Acc([], [], 0));
      forall i :: 0 <= i < |gs| ==> |gs[i]| > 0
    ensures Join(false, SplitWith(base, ext, data, chunkSize, guard).value) == Ok(Some(data))
  {
    var parts := SplitWith(base, ext, data, chunkSize, guard).value;
    SplitParts(base, ext, data, chunkSize, guard);
    SplitConcat(base, ext, data, chunkSize, guard);
    JoinedPlain(Contents(parts));
    assert Join(false, parts) == Ok(Some(Flatten(Blocks(Contents(parts)))));
  }

  /** The parts of a split, when none is empty and the data ends with a
      newline: there is one at least, they are in key order, and each ends
      with a newline. */
  lemma SplitParts(base: string, ext: string, data: seq<Byte>, chunkSize: nat, guard: bool)
    requires chunkSize > 0
    requires SortKey(base).None?
    requires |ext| == 0 || ext[0] == '.'
    requires EndsWithNewline(data)
    requires var gs := ChunkFrom(Lines(data), chunkSize, guard, Acc([], [], 0));
      forall i :: 0 <= i < |gs| ==> |gs[i]| > 0
    ensures SplitWith(base, ext, data, chunkSize, guard).Ok?
    ensures var parts := SplitWith(base, ext, data, chunkSize, guard).value;
      && |parts| > 0
      && SortParts(parts) == parts
      && forall i :: 0 <= i < |parts| ==> EndsWithNewline(Contents(parts)[i])
  {
    var gs := ChunkFrom(Lines(data), chunkSize, guard, Acc([], [], 0));
    var digits := |NatToString(CeilDiv(|data|, chunkSize))|;
    var parts := PartsFrom(base, ext, gs, 1, digits);
    assert SplitWith(base, ext, data, chunkSize, guard) == Ok(parts);
    PartsInOrder(base, ext, gs, digits);
    SortPartsSortedInput(parts);
    GroupsAreLines(data, chunkSize, guard);
    ChunksEndWithNewline(data, gs);
    FirstPartStays(Lines(data), chunkSize, guard, Acc([], [], 0));
  }

  lemma GroupsAreLines(data: seq<Byte>, chunkSize: nat, guard: bool)
    ensures Flatten(ChunkFrom(Lines(data), chunkSize, guard, Acc([], [], 0))) == Lines(data)
  {
    var gs := ChunkFrom(Lines(data), chunkSize, guard, Acc([], [], 0));
    ChunkFromConcat(Lines(data), chunkSize, guard, Acc([], [], 0));
    assert Flatten<seq<Byte>>([]) == [];
    assert Flatten(gs) == [] + [] + Lines(data);
  }

  /** Every part of newline-terminated data ends with a newline. */
  lemma ChunksEndWithNewline(data: seq<Byte>, gs: seq<seq<seq<Byte>>>)
    requires EndsWithNewline(data)
    requires Flatten(gs) == Lines(data)
    requires forall i :: 0 <= i < |gs| ==> |gs[i]| > 0
    ensures forall i :: 0 <= i < |gs| ==> EndsWithNewline(Flatten(gs[i]))
  {
    LinesEndWithNewline(data);
    forall i | 0 <= i < |gs|
      ensures EndsWithNewline(Flatten(gs[i]))
    {
      ChunkEndsWithNewline(gs, i);
    }
  }

  lemma ChunkEndsWithNewline(gs: seq<seq<seq<Byte>>>, i: nat)
    requires forall k :: 0 <= k < |Flatten(gs)| ==> EndsWithNewline(Flatten(gs)[k])
    requires i < |gs| && |gs[i]| > 0
    ensures EndsWithNewline(Flatten(gs[i]))
  {
    forall j | 0 <= j < |gs[i]|
      ensures EndsWithNewline(gs[i][j])
    {
      LineOfGroup(gs, i, j);
    }
    GroupEndsWithNewline(gs[i]);
  }

  /** Every line of every group is one of the lines grouped. */
  lemma {:induction false} LineOfGroup<T>(gs: seq<seq<T>>, i: nat, j: nat)
    requires i < |gs| && j < |gs[i]|
    ensures gs[i][j] in Flatten(gs)
  {
    if i == 0 {
      assert Flatten(gs) == gs[0] + Flatten(gs[1..]);
      assert Flatten(gs)[j] == gs[0][j];
    } else {
      LineOfGroup(gs[1..], i - 1, j);
      assert gs[1..][i - 1] == gs[i];
    }
  }

  /** With the corrected loop, joining the parts of a split gives back any
      non-empty data that ends with a newline. */
  lemma JoinSplitFixed(base: string, ext: string, data: seq<Byte>, chunkSize: nat)
    requires chunkSize > 0
    requires SortKey(base).None?
    requires |ext| == 0 || ext[0] == '.'
    requires |data| > 0 && EndsWithNewline(data)
    ensures Join(false, SplitFixed(base, ext, data, chunkSize).value) == Ok(Some(data))
  {
    LinesFacts(data);
    ChunksFixedNonEmpty(Lines(data), chunkSize);
    JoinSplitWith(base, ext, data, chunkSize, true);
  }

  /** As written, the round trip holds when the first line fits a part. */
  lemma JoinSplit(base: string, ext: string, data: seq<Byte>, chunkSize: nat)
    requires chunkSize > 0
    requires SortKey(base).None?
    requires |ext| == 0 || ext[0] == '.'
    requires |data| > 0 && EndsWithNewline(data)
    requires |Lines(data)[0]| <= chunkSize
    ensures Join(false, Split(base, ext, data, chunkSize).value) == Ok(Some(data))
  {
    var lines := Lines(data);
    LinesFacts(data);
    FirstChunkEmpty(lines, chunkSize);
    ChunkFromWellChunked(lines, chunkSize, false, Acc([], [], 0));
    JoinSplitWith(base, ext, data, chunkSize, false);
  }

  /** As written, a first line longer than the chunk size leaves part 1
      empty; joining then writes a lone newline byte for it, so the joined
      file starts with an extra newline. */
  lemma JoinSplitExtraNewline(base: string, ext: string, data: seq<Byte>, chunkSize: nat)
    requires chunkSize > 0
    requires SortKey(base).None?
    requires |ext| == 0 || ext[0] == '.'
    requires |data| > 0
    requires |Lines(data)[0]| > chunkSize
    ensures Split(base, ext, data, chunkSize).Ok? && |Split(base, ext, data, chunkSize).value| > 0
    ensures Split(base, ext, data, chunkSize).value[0].content == []
    ensures var out := Join(false, Split(base, ext, data, chunkSize).value).value.value;
      |out| > 0 && out[0] == Newline
  {
    var lines := Lines(data);
    LinesFacts(data);
    FirstChunkEmpty(lines, chunkSize);
    var gs := ChunkFrom(lines, chunkSize, false, Acc([], [], 0));
    var digits := |NatToString(CeilDiv(|data|, chunkSize))|;
    var parts := PartsFrom(base, ext, gs, 1, digits);
    assert Split(base, ext, data, chunkSize) == Ok(parts);
    assert Flatten<seq<Byte>>([]) == [];
    PartsInOrder(base, ext, gs, digits);
    SortPartsSortedInput(parts);
    var blocks := Blocks(Contents(parts));
    assert blocks[0] == [Newline];
    assert Flatten(blocks) == blocks[0] + Flatten(blocks[1..]);
  }

  /** The smallest instance: "ab\n" split with a chunk size of 1 joins back
      as "\nab\n". */
  lemma ExtraNewlineExample()
    ensures var data: seq<Byte> := [97, 98, 10];
      var out := Join(false, Split("t", ".csv", data, 1).value).value.value;
      out != data
  {
    var data: seq<Byte> := [97, 98, 10];
    assert LineEnd(data, 0) == 3;
    assert Lines(data) == [data] by {
      assert data[..3] == data && data[3..] == [];
      assert Lines(data[3..]) == [];
    }
    assert SortKey("t") == None;
    JoinSplitExtraNewline("t", ".csv", data, 1);
  }
}
