/** The shipping-label sheet: labels fill a grid of 2 columns by 5 rows
    per page, row by row; the page, table and row wrappers are opened and
    closed around them as the grid position advances. */
module Labels {
  import opened Common
  import opened AddressPairs

  const Width: nat := 2
  const Height: nat := 5
  /** Labels per page, `Width * Height`. */
  const PerPage: nat := 10

  /** `next_label_x`, `next_label_y`. */
  datatype Grid = Grid(x: nat, y: nat)

  predicate Valid(g: Grid)
  {
    g.x < Width && g.y < Height
  }

  /** The label's place on its page, counted row by row. */
  function Index(g: Grid): nat
  {
    g.y * Width + g.x
  }

  /** What one call writes, piece by piece: the position comment, the page
      opening (page div, spacer, `<table>`), `<tr>`, the label cell with
      its two `<br>`-joined addresses, `</tr>`, and the page closing
      (`</table>`, spacer, closing div). */
  datatype Piece =
    | Comment(x: nat, y: nat)
    | PageOpen
    | RowOpen
    | Label(from: string, to: string)
    | RowClose
    | PageClose

  const BreakTag: string := "<br>"

  function AddressText(row: AddressRow): string
  {
    FormatAddress(row, Some(BreakTag)).text
  }

  /** `render_address_pair`: the pieces written and the next position. */
  function RenderPair(g: Grid, pair: (AddressRow, AddressRow)): (Grid, seq<Piece>)
  {
    var opening := if g.x == 0 && g.y == 0 then [PageOpen] else [];
    var row := if g.x == 0 then [RowOpen] else [];
    var cell := [Label(AddressText(pair.0), AddressText(pair.1))];
    var endRow := g.x == Width - 1;
    var x, y := if endRow then 0 else g.x + 1, if endRow then g.y + 1 else g.y;
    var closing := if y == Height then [PageClose] else [];
    var y' := if y == Height then 0 else y;
    (Grid(x, y'), [Comment(g.x, g.y)] + opening + row + cell + (if endRow then [RowClose] else []) + closing)
  }

  /** One call keeps the position on the grid and moves it one place on,
      row by row, back to the first place after the last; it opens a page
      exactly at the first place and closes one exactly at the last; it
      opens a row exactly in the first column and closes one exactly in
      the last; and the label shows the first address as sender and the
      second as recipient. */
  lemma RenderPairFacts(g: Grid, pair: (AddressRow, AddressRow))
    requires Valid(g)
    ensures var (g', out) := RenderPair(g, pair);
      && Valid(g')
      && Index(g') == (Index(g) + 1) % PerPage
      && (PageOpen in out <==> Index(g) == 0)
      && (PageClose in out <==> Index(g) == PerPage - 1)
      && (RowOpen in out <==> g.x == 0)
      && (RowClose in out <==> g.x == Width - 1)
      && Label(AddressText(pair.0), AddressText(pair.1)) in out
  {
  }

  function Count(out: seq<Piece>, p: Piece): nat
  {
    if |out| == 0 then 0 else (if out[0] == p then 1 else 0) + Count(out[1..], p)
  }

  lemma {:induction false} CountAppend(a: seq<Piece>, b: seq<Piece>, p: Piece)
    ensures Count(a + b, p) == Count(a, p) + Count(b, p)
  {
    if |a| == 0 {
      assert a + b == b;
    } else {
      assert (a + b)[0] == a[0] && (a + b)[1..] == a[1..] + b;
      CountAppend(a[1..], b, p);
    }
  }

  /** The page openings and closings of one call, as counts. */
  lemma RenderPairCounts(g: Grid, pair: (AddressRow, AddressRow))
    requires Valid(g)
    ensures Count(RenderPair(g, pair).1, PageOpen) == if Index(g) == 0 then 1 else 0
    ensures Count(RenderPair(g, pair).1, PageClose) == if Index(g) == PerPage - 1 then 1 else 0
  {
    var out := RenderPair(g, pair).1;
    var isOpen := g.x == 0 && g.y == 0;
    var endRow := g.x == Width - 1;
    var isClose := endRow && g.y + 1 == Height;
    var a := [Comment(g.x, g.y)];
    var b := if isOpen then [PageOpen] else [];
    var c := if g.x == 0 then [RowOpen] else [];
    var d := [Label(AddressText(pair.0), AddressText(pair.1))];
    var e := if endRow then [RowClose] else [];
    var f := if isClose then [PageClose] else [];
    assert out == a + b + c + d + e + f;
    CountAppend(a + b + c + d + e, f, PageOpen);
    CountAppend(a + b + c + d, e, PageOpen);
    CountAppend(a + b + c, d, PageOpen);
    CountAppend(a + b, c, PageOpen);
    CountAppend(a, b, PageOpen);
    CountAppend(a + b + c + d + e, f, PageClose);
    CountAppend(a + b + c + d, e, PageClose);
    CountAppend(a + b + c, d, PageClose);
    CountAppend(a + b, c, PageClose);
    CountAppend(a, b, PageClose);
  }

  /** The main loop: every pair rendered in turn from position `g`. */
  function RenderAll(g: Grid, pairs: seq<(AddressRow, AddressRow)>): (Grid, seq<Piece>)
    decreases |pairs|
  {
    if |pairs| == 0 then (g, [])
    else
      var (g1, out1) := RenderPair(g, pairs[0]);
      var (g2, out2) := RenderAll(g1, pairs[1..]);
      (g2, out1 + out2)
  }

  /** The pages opened by labels on places `0 .. i - 1`: `ceil(i / 10)`. */
  function Opened(i: nat): nat
  {
    (i + PerPage - 1) / PerPage
  }

  /** The pages closed by labels on places `0 .. i - 1`: `floor(i / 10)`. */
  function Closed(i: nat): nat
  {
    i / PerPage
  }

  /** After `k` labels starting on place `i` of a page (`i` counted on from
      earlier pages), the position is place `i + k`. */
  lemma {:induction false} RenderAllPlace(g: Grid, pairs: seq<(AddressRow, AddressRow)>, i: nat)
    requires Valid(g) && Index(g) == i % PerPage
    ensures Valid(RenderAll(g, pairs).0)
    ensures Index(RenderAll(g, pairs).0) == (i + |pairs|) % PerPage
    decreases |pairs|
  {
    if |pairs| > 0 {
      var (g1, out1) := RenderPair(g, pairs[0]);
      RenderPairFacts(g, pairs[0]);
      PlaceStep(i);
      RenderAllPlace(g1, pairs[1..], i + 1);
      assert i + 1 + |pairs[1..]| == i + |pairs|;
    }
  }

  /** ... and the pages opened and closed on the way are those whose first
      and last places were passed. */
  lemma {:induction false} RenderAllCounts(g: Grid, pairs: seq<(AddressRow, AddressRow)>, i: nat)
    requires Valid(g) && Index(g) == i % PerPage
    ensures Count(RenderAll(g, pairs).1, PageOpen) == Opened(i + |pairs|) - Opened(i)
    ensures Count(RenderAll(g, pairs).1, PageClose) == Closed(i + |pairs|) - Closed(i)
    decreases |pairs|
  {
    if |pairs| > 0 {
      var (g1, out1) := RenderPair(g, pairs[0]);
      var rest := RenderAll(g1, pairs[1..]);
      RenderPairFacts(g, pairs[0]);
      RenderPairCounts(g, pairs[0]);
      PlaceStep(i);
      RenderAllCounts(g1, pairs[1..], i + 1);
      assert i + 1 + |pairs[1..]| == i + |pairs|;
      assert RenderAll(g, pairs) == (rest.0, out1 + rest.1);
      CountAppend(out1, rest.1, PageOpen);
      CountAppend(out1, rest.1, PageClose);
    }
  }

  /** Moving on from place `i` opens a page exactly when `i` is the first
      place of one, and closes a page exactly when it is the last. */
  lemma PlaceStep(i: nat)
    ensures (i % PerPage + 1) % PerPage == (i + 1) % PerPage
    ensures Opened(i + 1) == Opened(i) + if i % PerPage == 0 then 1 else 0
    ensures Closed(i + 1) == Closed(i) + if i % PerPage == PerPage - 1 then 1 else 0
  {
    assert PerPage == 10;
    var q, r := i / 10, i % 10;
    assert i == 10 * q + r;
    assert (i + 10) / 10 == q + 1;
    assert (i + 9) / 10 == if r == 0 then q else q + 1;
    assert (i + 1) / 10 == if r == 9 then q + 1 else q;
  }

  /** From an empty sheet (the first place, `Grid(0, 0)`), after `k`
      labels `ceil(k / 10)` pages have been opened and `floor(k / 10)`
      closed: the last page stays open unless it is full. */
  lemma RenderPages(g: Grid, pairs: seq<(AddressRow, AddressRow)>)
    requires g == Grid(0, 0)
    ensures Count(RenderAll(g, pairs).1, PageOpen) == (|pairs| + PerPage - 1) / PerPage
    ensures Count(RenderAll(g, pairs).1, PageClose) == |pairs| / PerPage
    ensures Index(RenderAll(g, pairs).0) == |pairs| % PerPage
  {
    RenderAllPlace(g, pairs, 0);
    RenderAllCounts(g, pairs, 0);
    assert Opened(0) == 0 && Closed(0) == 0;
    assert 0 + |pairs| == |pairs|;
  }
}
