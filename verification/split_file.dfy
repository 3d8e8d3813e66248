/** Splitting a large text file into parts of at most `chunk_size` bytes
    without breaking lines: lines are written to the current part until the
    next one would overflow it, which starts a new part. */
module SplitFile {
  import opened Common
  import opened Decimal

  type Byte = bv8

  const Newline: Byte := 10

  // ---------------------------------------------------------------- lines

  /** The end (exclusive) of the line starting at `i`: just after the next
      newline byte, or the end of the data. */
  function LineEnd(data: seq<Byte>, i: nat): (k: nat)
    requires i < |data|
    ensures i < k <= |data|
    ensures forall j :: i <= j < k - 1 ==> data[j] != Newline
    ensures k < |data| ==> data[k - 1] == Newline
    decreases |data| - i
  {
    if data[i] == Newline || i + 1 == |data| then i + 1 else LineEnd(data, i + 1)
  }

  /** `for line in f` on a binary file: every line ends with its newline
      byte, except perhaps the last. */
  function Lines(data: seq<Byte>): seq<seq<Byte>>
    decreases |data|
  {
    if |data| == 0 then []
    else
      var k := LineEnd(data, 0);
      [data[..k]] + Lines(data[k..])
  }

  /** The lines are the data cut up: none is empty, and joined they are the
      data again. */
  lemma {:induction false} LinesFacts(data: seq<Byte>)
    ensures Flatten(Lines(data)) == data
    ensures forall i :: 0 <= i < |Lines(data)| ==> |Lines(data)[i]| > 0
    decreases |data|
  {
    if |data| > 0 {
      var k := LineEnd(data, 0);
      LinesFacts(data[k..]);
      assert Lines(data)[1..] == Lines(data[k..]);
      assert data == data[..k] + data[k..];
    }
  }

  /** When the data ends with a newline, so does every line. */
  lemma {:induction false} LinesEndWithNewline(data: seq<Byte>)
    requires |data| > 0 ==> data[|data| - 1] == Newline
    ensures forall i :: 0 <= i < |Lines(data)| ==> EndsWithNewline(Lines(data)[i])
    decreases |data|
  {
    if |data| > 0 {
      var k := LineEnd(data, 0);
      LinesEndWithNewline(data[k..]);
      assert Lines(data)[1..] == Lines(data[k..]);
      assert data[..k][k - 1] == data[k - 1];
    }
  }

  predicate EndsWithNewline(s: seq<Byte>)
  {
    |s| > 0 && s[|s| - 1] == Newline
  }

  // ---------------------------------------------------------------- chunking

  /** The number of bytes of a group of lines. */
  function Size(g: seq<seq<Byte>>): nat
  {
    |Flatten(g)|
  }

  /** The chunking loop's state: finished parts, the lines of the open
      part, and `bytes_written` to it. */
  datatype Acc = Acc(done: seq<seq<seq<Byte>>>, current: seq<seq<Byte>>, written: nat)

  /** One line of the loop. With `guard`, a new part is started only when
      the open part already holds something. */
  function Step(acc: Acc, line: seq<Byte>, chunkSize: nat, guard: bool): Acc
  {
    if acc.written + |line| > chunkSize && (!guard || acc.written > 0) then
      Acc(acc.done + [acc.current], [line], |line|)
    else
      Acc(acc.done, acc.current + [line], acc.written + |line|)
  }

  function ChunkFrom(lines: seq<seq<Byte>>, chunkSize: nat, guard: bool, acc: Acc): seq<seq<seq<Byte>>>
    decreases |lines|
  {
    if |lines| == 0 then acc.done + [acc.current]
    else ChunkFrom(lines[1..], chunkSize, guard, Step(acc, lines[0], chunkSize, guard))
  }

  /** The lines of each part, as `split_file` writes them: part 1 is opened
      before the first line is read. */
  function Chunks(lines: seq<seq<Byte>>, chunkSize: nat): seq<seq<seq<Byte>>>
  {
    ChunkFrom(lines, chunkSize, false, Acc([], [], 0))
  }

  /** The same loop, starting a new part only when the open one is not
      empty. */
  function ChunksFixed(lines: seq<seq<Byte>>, chunkSize: nat): seq<seq<seq<Byte>>>
  {
    ChunkFrom(lines, chunkSize, true, Acc([], [], 0))
  }

  /** Chunking loses, duplicates and reorders no line, and splits none. */
  lemma {:induction false} ChunkFromConcat(lines: seq<seq<Byte>>, chunkSize: nat, guard: bool, acc: Acc)
    ensures Flatten(ChunkFrom(lines, chunkSize, guard, acc)) == Flatten(acc.done) + acc.current + lines
    decreases |lines|
  {
    if |lines| == 0 {
      FlattenAppend(acc.done, [acc.current]);
      assert Flatten([acc.current]) == acc.current + Flatten([]);
      assert acc.current + lines == acc.current;
    } else {
      var next := Step(acc, lines[0], chunkSize, guard);
      ChunkFromConcat(lines[1..], chunkSize, guard, next);
      assert lines == [lines[0]] + lines[1..];
      if next.done != acc.done {
        FlattenAppend(acc.done, [acc.current]);
        assert Flatten([acc.current]) == acc.current + Flatten([]);
      }
    }
  }

  /** What every part satisfies: parts after the first are not empty; a
      part fits `chunk_size` unless it is one oversized line; each line of
      a part fitted when it was added; and each part after the first was
      started because its first line did not fit the part before. */
  predicate WellChunked(gs: seq<seq<seq<Byte>>>, chunkSize: nat)
  {
    && (forall i :: 0 < i < |gs| ==> |gs[i]| > 0)
    && (forall i :: 0 <= i < |gs| ==> Size(gs[i]) <= chunkSize || |gs[i]| == 1)
    && (forall i, j :: 0 <= i < |gs| && 0 < j < |gs[i]| ==> Size(gs[i][..j]) + |gs[i][j]| <= chunkSize)
    && (forall i :: 0 < i < |gs| ==> Size(gs[i - 1]) + |gs[i][0]| > chunkSize)
  }

  predicate Inv(acc: Acc, chunkSize: nat)
  {
    acc.written == Size(acc.current) && WellChunked(acc.done + [acc.current], chunkSize)
  }

  lemma SizeSnoc(g: seq<seq<Byte>>, line: seq<Byte>)
    ensures Size(g + [line]) == Size(g) + |line|
  {
    FlattenAppend(g, [line]);
    assert Flatten([line]) == line + Flatten([]);
  }

  /** Starting a new part keeps the parts well formed. */
  lemma StepNewPart(acc: Acc, line: seq<Byte>, chunkSize: nat)
    requires Inv(acc, chunkSize)
    requires acc.written + |line| > chunkSize
    requires |acc.done| > 0 ==> |acc.current| > 0
    ensures Inv(Acc(acc.done + [acc.current], [line], |line|), chunkSize)
  {
    var gs := acc.done + [acc.current];
    var gs' := gs + [[line]];
    assert Size([line]) == |line| by {
      assert Flatten([line]) == line + Flatten([]);
    }
    assert gs'[..|gs|] == gs;
    forall i, j | 0 <= i < |gs'| && 0 < j < |gs'[i]|
      ensures Size(gs'[i][..j]) + |gs'[i][j]| <= chunkSize
    {
      assert i < |gs| && gs'[i] == gs[i];
    }
  }

  /** Adding a line to the open part keeps the parts well formed. */
  lemma StepSamePart(acc: Acc, line: seq<Byte>, chunkSize: nat)
    requires Inv(acc, chunkSize)
    requires acc.written + |line| <= chunkSize || (|acc.current| == 0 && |acc.done| == 0)
    requires |acc.done| > 0 ==> |acc.current| > 0
    ensures Inv(Acc(acc.done, acc.current + [line], acc.written + |line|), chunkSize)
  {
    var gs := acc.done + [acc.current];
    var cur := acc.current + [line];
    var gs' := acc.done + [cur];
    var n := |acc.done|;
    SizeSnoc(acc.current, line);
    assert cur[..|acc.current|] == acc.current;
    assert forall i :: 0 <= i < n ==> gs'[i] == gs[i];
    assert gs'[n] == cur;
    forall i | 0 < i < |gs'|
      ensures |gs'[i]| > 0
    {
    }
    forall i | 0 <= i < |gs'|
      ensures Size(gs'[i]) <= chunkSize || |gs'[i]| == 1
    {
      if i == n && acc.written + |line| > chunkSize {
        assert cur == [line];
      }
    }
    forall i, j | 0 <= i < |gs'| && 0 < j < |gs'[i]|
      ensures Size(gs'[i][..j]) + |gs'[i][j]| <= chunkSize
    {
      if i < n {
      } else if j < |acc.current| {
        assert gs'[i][..j] == gs[i][..j] && gs'[i][j] == gs[i][j];
      } else {
        assert gs'[i][..j] == acc.current && gs'[i][j] == line;
      }
    }
    forall i | 0 < i < |gs'|
      ensures Size(gs'[i - 1]) + |gs'[i][0]| > chunkSize
    {
      if i == n {
        assert gs'[i][0] == gs[i][0];
      }
    }
    assert WellChunked(gs', chunkSize);
  }

  /** Lines that flatten to nothing are all empty. */
  lemma {:induction false} EmptyFlatten(g: seq<seq<Byte>>)
    requires |Flatten(g)| == 0
    ensures forall i :: 0 <= i < |g| ==> |g[i]| == 0
  {
    if |g| > 0 {
      EmptyFlatten(g[1..]);
      assert forall i :: 1 <= i < |g| ==> g[i] == g[1..][i - 1];
    }
  }

  /** The loop keeps every part well formed, with or without the guard,
      provided no line is empty (which `for line in f` never yields). */
  lemma {:induction false} ChunkFromWellChunked(lines: seq<seq<Byte>>, chunkSize: nat, guard: bool, acc: Acc)
    requires Inv(acc, chunkSize)
    requires |acc.done| > 0 ==> |acc.current| > 0
    requires guard && |acc.current| == 0 ==> |acc.done| == 0
    requires |acc.current| > 0 ==> acc.written > 0
    requires forall i :: 0 <= i < |lines| ==> |lines[i]| > 0
    ensures WellChunked(ChunkFrom(lines, chunkSize, guard, acc), chunkSize)
    decreases |lines|
  {
    if |lines| > 0 {
      var line := lines[0];
      if acc.written + |line| > chunkSize && (!guard || acc.written > 0) {
        StepNewPart(acc, line, chunkSize);
      } else {
        StepSamePart(acc, line, chunkSize);
      }
      assert forall i :: 0 <= i < |lines[1..]| ==> |lines[1..][i]| > 0;
      ChunkFromWellChunked(lines[1..], chunkSize, guard, Step(acc, line, chunkSize, guard));
    }
  }

  /** Part 1 comes out empty exactly when there is no line or the first
      line alone is larger than `chunk_size`. */
  lemma FirstChunkEmpty(lines: seq<seq<Byte>>, chunkSize: nat)
    requires forall i :: 0 <= i < |lines| ==> |lines[i]| > 0
    ensures |Chunks(lines, chunkSize)| > 0
    ensures |Chunks(lines, chunkSize)[0]| == 0 <==> |lines| == 0 || |lines[0]| > chunkSize
  {
    if |lines| > 0 {
      var acc := Step(Acc([], [], 0), lines[0], chunkSize, false);
      FirstPartStays(lines[1..], chunkSize, false, acc);
    }
  }

  /** Once a part is finished it stays as it is. */
  lemma {:induction false} FirstPartStays(lines: seq<seq<Byte>>, chunkSize: nat, guard: bool, acc: Acc)
    ensures |ChunkFrom(lines, chunkSize, guard, acc)| >= |acc.done| + 1
    ensures ChunkFrom(lines, chunkSize, guard, acc)[..|acc.done|] == acc.done
    ensures |acc.current| > 0 ==> |ChunkFrom(lines, chunkSize, guard, acc)[|acc.done|]| > 0
    decreases |lines|
  {
    if |lines| > 0 {
      var next := Step(acc, lines[0], chunkSize, guard);
      FirstPartStays(lines[1..], chunkSize, guard, next);
      var r := ChunkFrom(lines, chunkSize, guard, acc);
      if next.done == acc.done + [acc.current] {
        assert r[..|acc.done|] == r[..|next.done|][..|acc.done|];
      }
    }
  }

  /** With the guard no part is empty once there is at least one line. */
  lemma ChunksFixedNonEmpty(lines: seq<seq<Byte>>, chunkSize: nat)
    requires |lines| > 0
    requires forall i :: 0 <= i < |lines| ==> |lines[i]| > 0
    ensures forall i :: 0 <= i < |ChunksFixed(lines, chunkSize)| ==> |ChunksFixed(lines, chunkSize)[i]| > 0
    ensures WellChunked(ChunksFixed(lines, chunkSize), chunkSize)
  {
    var acc := Step(Acc([], [], 0), lines[0], chunkSize, true);
    assert acc == Acc([], [lines[0]], |lines[0]|);
    assert Size([lines[0]]) == |lines[0]| by {
      assert Flatten([lines[0]]) == lines[0] + Flatten([]);
    }
    assert Inv(acc, chunkSize);
    assert forall i :: 0 <= i < |lines[1..]| ==> |lines[1..][i]| > 0;
    ChunkFromWellChunked(lines[1..], chunkSize, true, acc);
    FirstPartStays(lines[1..], chunkSize, true, acc);
  }

  // ---------------------------------------------------------------- part names

  /** `math.ceil(file_size / chunk_size)`. */
  function CeilDiv(a: nat, b: nat): nat
    requires b > 0
  {
    (a + b - 1) / b
  }

  /** `base + ".part" + str(n).zfill(digits) + ext`. */
  function PartName(base: string, ext: string, n: nat, digits: nat): string
  {
    base + ".part" + ZFill(NatToString(n), digits) + ext
  }

  datatype Part = Part(name: string, content: seq<Byte>)

  datatype SplitError = ZeroChunkSize   // `file_size / chunk_size` divides by zero

  function PartsFrom(base: string, ext: string, gs: seq<seq<seq<Byte>>>, first: nat, digits: nat): (r: seq<Part>)
    ensures |r| == |gs|
    ensures forall i :: 0 <= i < |gs| ==> r[i] == Part(PartName(base, ext, first + i, digits), Flatten(gs[i]))
  {
    if |gs| == 0 then []
    else [Part(PartName(base, ext, first, digits), Flatten(gs[0]))] + PartsFrom(base, ext, gs[1..], first + 1, digits)
  }

  /** `split_file(input_file, chunk_size)` on the file's bytes, with its
      path already split into `base` and `ext`: the parts written, numbered
      from 1, their numbers padded to the digit count of the estimated
      number of parts. */
  function Split(base: string, ext: string, data: seq<Byte>, chunkSize: nat): Result<seq<Part>, SplitError>
  {
    SplitWith(base, ext, data, chunkSize, false)
  }

  /** The same with a new part started only when the open one holds
      something. */
  function SplitFixed(base: string, ext: string, data: seq<Byte>, chunkSize: nat): Result<seq<Part>, SplitError>
  {
    SplitWith(base, ext, data, chunkSize, true)
  }

  function SplitWith(base: string, ext: string, data: seq<Byte>, chunkSize: nat, guard: bool): Result<seq<Part>, SplitError>
  {
    if chunkSize == 0 then Err(ZeroChunkSize)
    else
      var digits := |NatToString(CeilDiv(|data|, chunkSize))|;
      Ok(PartsFrom(base, ext, ChunkFrom(Lines(data), chunkSize, guard, Acc([], [], 0)), 1, digits))
  }

  /** Splitting fails only for a zero chunk size, and the parts then hold
      the input: concatenated in order they are the data. */
  lemma SplitConcat(base: string, ext: string, data: seq<Byte>, chunkSize: nat, guard: bool)
    ensures SplitWith(base, ext, data, chunkSize, guard).Err? <==> chunkSize == 0
    ensures chunkSize > 0 ==> Flatten(Contents(SplitWith(base, ext, data, chunkSize, guard).value)) == data
  {
    if chunkSize > 0 {
      var gs := ChunkFrom(Lines(data), chunkSize, guard, Acc([], [], 0));
      var digits := |NatToString(CeilDiv(|data|, chunkSize))|;
      ChunkFromConcat(Lines(data), chunkSize, guard, Acc([], [], 0));
      assert Flatten<seq<Byte>>([]) == [];
      assert Flatten(gs) == [] + [] + Lines(data);
      assert Flatten(gs) == Lines(data);
      LinesFacts(data);
      var parts := PartsFrom(base, ext, gs, 1, digits);
      assert SplitWith(base, ext, data, chunkSize, guard) == Ok(parts);
      ContentsOfParts(base, ext, gs, 1, digits);
      FlattenFlattenEach(gs);
      assert Flatten(Flatten(gs)) == data;
    }
  }

  lemma ContentsOfParts(base: string, ext: string, gs: seq<seq<seq<Byte>>>, first: nat, digits: nat)
    ensures Contents(PartsFrom(base, ext, gs, first, digits)) == FlattenEach(gs)
  {
  }

  function Contents(parts: seq<Part>): (r: seq<seq<Byte>>)
    ensures |r| == |parts|
    ensures forall i :: 0 <= i < |parts| ==> r[i] == parts[i].content
  {
    if |parts| == 0 then [] else [parts[0].content] + Contents(parts[1..])
  }

  function FlattenEach(gs: seq<seq<seq<Byte>>>): (r: seq<seq<Byte>>)
    ensures |r| == |gs|
    ensures forall i :: 0 <= i < |gs| ==> r[i] == Flatten(gs[i])
  {
    if |gs| == 0 then [] else [Flatten(gs[0])] + FlattenEach(gs[1..])
  }

  lemma {:induction false} FlattenFlattenEach(gs: seq<seq<seq<Byte>>>)
    ensures Flatten(FlattenEach(gs)) == Flatten(Flatten(gs))
  {
    if |gs| > 0 {
      FlattenFlattenEach(gs[1..]);
      assert FlattenEach(gs)[1..] == FlattenEach(gs[1..]);
      FlattenAppend([gs[0]], gs[1..]);
      assert [gs[0]] + gs[1..] == gs;
      assert Flatten([gs[0]]) == gs[0] + Flatten([]);
      FlattenAppend(gs[0], Flatten(gs[1..]));
      assert Flatten(gs[0] + Flatten(gs[1..])) == Flatten(gs[0]) + Flatten(Flatten(gs[1..]));
    }
  }
}
