/** De-interlacing of PNG images: seven passes, each of which fills a grid of pixels. */
module Interlacing {
  import opened Wrappers

  function XOrig(p: nat): nat {
    match p
    case 1 => 4 case 3 => 2 case 5 => 1 case _ => 0
  }

  function YOrig(p: nat): nat {
    match p
    case 2 => 4 case 4 => 2 case 6 => 1 case _ => 0
  }

  function XSpc(p: nat): (s: nat)
    ensures s > XOrig(p)
  {
    match p
    case 0 => 8 case 1 => 8 case 2 => 4 case 3 => 4 case 4 => 2 case 5 => 2 case _ => 1
  }

  function YSpc(p: nat): (s: nat)
    ensures s > YOrig(p)
  {
    match p
    case 0 => 8 case 1 => 8 case 2 => 8 case 3 => 4 case 4 => 4 case 5 => 2 case _ => 2
  }

  /** The number of columns of a pass over an image of width w. */
  function Columns(w: nat, p: nat): nat {
    (w - XOrig(p) + XSpc(p) - 1) / XSpc(p)
  }

  function Rows(h: nat, p: nat): nat {
    (h - YOrig(p) + YSpc(p) - 1) / YSpc(p)
  }

  /** The pass to which a pixel belongs: the 8 by 8 pattern in section 8.2 of the PNG specification, counted from 0. */
  function Pattern(a: nat, b: nat): nat {
    match b
    case 0 => (match a case 0 => 0 case 4 => 1 case 2 => 3 case 6 => 3 case _ => 5)
    case 4 => (match a case 0 => 2 case 4 => 2 case 2 => 3 case 6 => 3 case _ => 5)
    case 2 => (match a case 0 => 4 case 4 => 4 case 2 => 4 case 6 => 4 case _ => 5)
    case 6 => (match a case 0 => 4 case 4 => 4 case 2 => 4 case 6 => 4 case _ => 5)
    case _ => 6
  }

  function PassOf(x: nat, y: nat): nat {
    Pattern(x % 8, y % 8)
  }

  function OutX(i: nat, p: nat): nat {
    i * XSpc(p) + XOrig(p)
  }

  function OutY(j: nat, p: nat): nat {
    j * YSpc(p) + YOrig(p)
  }

  /** Whether a column with this rest by 8 is one of the pass. */
  predicate InColumns(a: nat, p: nat) {
    match p
    case 0 => a == 0
    case 1 => a == 4
    case 2 => a == 0 || a == 4
    case 3 => a == 2 || a == 6
    case 4 => a == 0 || a == 2 || a == 4 || a == 6
    case 5 => a == 1 || a == 3 || a == 5 || a == 7
    case _ => true
  }

  predicate InRows(b: nat, p: nat) {
    match p
    case 0 => b == 0
    case 1 => b == 0
    case 2 => b == 4
    case 3 => b == 0 || b == 4
    case 4 => b == 2 || b == 6
    case 5 => b == 0 || b == 2 || b == 4 || b == 6
    case _ => b == 1 || b == 3 || b == 5 || b == 7
  }

  lemma PatternIsPass(a: nat, b: nat, p: nat)
    requires a < 8 && b < 8 && p < 7
    ensures Pattern(a, b) == p <==> InColumns(a, p) && InRows(b, p)
  {
  }

  lemma ColumnOfPass(i: nat, p: nat)
    requires p < 7
    ensures InColumns(OutX(i, p) % 8, p)
  {
    match p
    case 0 => RestIs(OutX(i, p), i, 0);
    case 1 => RestIs(OutX(i, p), i, 4);
    case 2 => RestIs(OutX(i, p), i / 2, 4 * (i % 2));
    case 3 => RestIs(OutX(i, p), i / 2, 4 * (i % 2) + 2);
    case 4 => RestIs(OutX(i, p), i / 4, 2 * (i % 4));
    case 5 => RestIs(OutX(i, p), i / 4, 2 * (i % 4) + 1);
    case 6 =>
  }

  lemma RowOfPass(j: nat, p: nat)
    requires p < 7
    ensures InRows(OutY(j, p) % 8, p)
  {
    match p
    case 0 => RestIs(OutY(j, p), j, 0);
    case 1 => RestIs(OutY(j, p), j, 0);
    case 2 => RestIs(OutY(j, p), j, 4);
    case 3 => RestIs(OutY(j, p), j / 2, 4 * (j % 2));
    case 4 => RestIs(OutY(j, p), j / 2, 4 * (j % 2) + 2);
    case 5 => RestIs(OutY(j, p), j / 4, 2 * (j % 4));
    case 6 => RestIs(OutY(j, p), j / 4, 2 * (j % 4) + 1);
  }

  lemma RestIs(x: nat, q: nat, r: nat)
    requires x == 8 * q + r && r < 8
    ensures x % 8 == r
  {
  }

  /** The areas of the passes add up to that of the image. */
  lemma AreasAddUp(w: nat, h: nat)
    ensures Columns(w, 0) * Rows(h, 0) + Columns(w, 1) * Rows(h, 1) + Columns(w, 2) * Rows(h, 2)
            + Columns(w, 3) * Rows(h, 3) + Columns(w, 4) * Rows(h, 4) + Columns(w, 5) * Rows(h, 5)
            + Columns(w, 6) * Rows(h, 6) == w * h
  {
    hide *;
    ColumnCounts(w);
    RowCounts(h);
    Telescope(w, h, Columns(w, 0), Columns(w, 2), Columns(w, 4), Rows(h, 0), Rows(h, 3), Rows(h, 5));
  }

  lemma ColumnCounts(w: nat)
    ensures Columns(w, 1) == Columns(w, 2) - Columns(w, 0)
    ensures Columns(w, 3) == Columns(w, 4) - Columns(w, 2)
    ensures Columns(w, 5) == w - Columns(w, 4) && Columns(w, 6) == w
  {
    Halves(w);
    assert Columns(w, 0) == (w + 7) / 8 && Columns(w, 1) == (w + 3) / 8 && Columns(w, 2) == (w + 3) / 4;
    assert Columns(w, 3) == (w + 1) / 4 && Columns(w, 4) == (w + 1) / 2 && Columns(w, 5) == w / 2;
    hide Columns;
  }

  lemma RowCounts(h: nat)
    ensures Rows(h, 1) == Rows(h, 0) && Rows(h, 2) == Rows(h, 3) - Rows(h, 0)
    ensures Rows(h, 4) == Rows(h, 5) - Rows(h, 3) && Rows(h, 6) == h - Rows(h, 5)
  {
    Halves(h);
    assert Rows(h, 0) == (h + 7) / 8 && Rows(h, 2) == (h + 3) / 8 && Rows(h, 3) == (h + 3) / 4;
    assert Rows(h, 4) == (h + 1) / 4 && Rows(h, 5) == (h + 1) / 2 && Rows(h, 6) == h / 2;
    hide Rows;
  }

  lemma Halves(n: nat)
    ensures (n + 7) / 8 + (n + 3) / 8 == (n + 3) / 4
    ensures (n + 3) / 4 + (n + 1) / 4 == (n + 1) / 2
    ensures (n + 1) / 2 + n / 2 == n
  {
    EighthsAreQuarters(n);
    QuartersAreHalves(n);
  }

  lemma EighthsAreQuarters(n: nat)
    ensures (n + 7) / 8 + (n + 3) / 8 == (n + 3) / 4
  {
  }

  lemma QuartersAreHalves(n: nat)
    ensures (n + 3) / 4 + (n + 1) / 4 == (n + 1) / 2
  {
  }

  lemma Telescope(w: int, h: int, c8: int, c4: int, c2: int, r8: int, r4: int, r2: int)
    ensures c8 * r8 + (c4 - c8) * r8 + c4 * (r4 - r8) + (c2 - c4) * r4 + c2 * (r2 - r4) + (w - c2) * r2 + w * (h - r2)
            == w * h
  {
  }

  // ----- every pixel belongs to one place in one pass

  lemma ColumnInImage(w: nat, i: nat, p: nat)
    requires p < 7
    ensures i < Columns(w, p) <==> OutX(i, p) < w
  {
    match p
    case 0 => case 1 => case 2 => case 3 => case 4 => case 5 => case 6 =>
  }

  lemma RowInImage(h: nat, j: nat, p: nat)
    requires p < 7
    ensures j < Rows(h, p) <==> OutY(j, p) < h
  {
    match p
    case 0 => case 1 => case 2 => case 3 => case 4 => case 5 => case 6 =>
  }

  function ColumnOf(x: nat, p: nat): int {
    (x - XOrig(p)) / XSpc(p)
  }

  function RowOf(y: nat, p: nat): int {
    (y - YOrig(p)) / YSpc(p)
  }

  lemma ColumnIsOf(i: nat, p: nat)
    requires p < 7
    ensures ColumnOf(OutX(i, p), p) == i
  {
    match p
    case 0 => case 1 => case 2 => case 3 => case 4 => case 5 => case 6 =>
  }

  lemma RowIsOf(j: nat, p: nat)
    requires p < 7
    ensures RowOf(OutY(j, p), p) == j
  {
    match p
    case 0 => case 1 => case 2 => case 3 => case 4 => case 5 => case 6 =>
  }

  lemma ColumnOfIsColumn(x: nat, p: nat)
    requires p < 7 && InColumns(x % 8, p)
    ensures ColumnOf(x, p) >= 0 && OutX(ColumnOf(x, p), p) == x
  {
    Eighths(x);
    match p
    case 0 => assert ColumnOf(x, p) == x / 8;
    case 1 => assert ColumnOf(x, p) == (x - 4) / 8;
    case 2 => assert ColumnOf(x, p) == x / 4;
    case 3 => assert ColumnOf(x, p) == (x - 2) / 4;
    case 4 => assert ColumnOf(x, p) == x / 2;
    case 5 => assert ColumnOf(x, p) == (x - 1) / 2;
    case 6 =>
  }

  lemma RowOfIsRow(y: nat, p: nat)
    requires p < 7 && InRows(y % 8, p)
    ensures RowOf(y, p) >= 0 && OutY(RowOf(y, p), p) == y
  {
    Eighths(y);
    match p
    case 0 => assert RowOf(y, p) == y / 8;
    case 1 => assert RowOf(y, p) == y / 8;
    case 2 => assert RowOf(y, p) == (y - 4) / 8;
    case 3 => assert RowOf(y, p) == y / 4;
    case 4 => assert RowOf(y, p) == (y - 2) / 4;
    case 5 => assert RowOf(y, p) == y / 2;
    case 6 => assert RowOf(y, p) == (y - 1) / 2;
  }

  /** Exact quotients by the rest by 8. */
  lemma Eighths(x: nat)
    ensures x % 8 == 0 ==> x == 8 * (x / 8) && x == 4 * (x / 4) && x == 2 * (x / 2)
    ensures x % 8 == 4 ==> x >= 4 && x == 8 * ((x - 4) / 8) + 4 && x == 4 * (x / 4) && x == 2 * (x / 2)
    ensures x % 8 == 2 || x % 8 == 6 ==> x >= 2 && x == 4 * ((x - 2) / 4) + 2 && x == 2 * (x / 2)
    ensures x % 8 == 1 || x % 8 == 3 || x % 8 == 5 || x % 8 == 7 ==> x >= 1 && x == 2 * ((x - 1) / 2) + 1
  {
    var q, r := x / 8, x % 8;
    if r == 0 {
      QuarterOf(x, 2 * q);
      HalfOf(x, 4 * q);
    } else if r == 4 {
      EighthOf(x - 4, q);
      QuarterOf(x, 2 * q + 1);
      HalfOf(x, 4 * q + 2);
    } else if r == 2 || r == 6 {
      QuarterOf(x - 2, if r == 2 then 2 * q else 2 * q + 1);
      HalfOf(x, if r == 2 then 4 * q + 1 else 4 * q + 3);
    } else {
      HalfOf(x - 1, if r == 1 then 4 * q else if r == 3 then 4 * q + 1 else if r == 5 then 4 * q + 2 else 4 * q + 3);
    }
  }

  lemma EighthOf(x: nat, k: nat)
    requires x == 8 * k
    ensures x / 8 == k
  {
  }

  lemma QuarterOf(x: nat, k: nat)
    requires x == 4 * k
    ensures x / 4 == k
  {
  }

  lemma HalfOf(x: nat, k: nat)
    requires x == 2 * k
    ensures x / 2 == k
  {
  }

  /** A pixel of the image comes from exactly one place of exactly one pass: the pass of its pattern. */
  lemma EveryPixelHasOnePlace(w: nat, h: nat, x: nat, y: nat, p: nat, j: nat, i: nat)
    requires p < 7
    ensures x < w && y < h && p == PassOf(x, y) && i == ColumnOf(x, p) && j == RowOf(y, p)
            <==> i < Columns(w, p) && j < Rows(h, p) && x == OutX(i, p) && y == OutY(j, p)
  {
    hide *;
    PassIs(x, y, p);
    ColumnInImage(w, i, p);
    RowInImage(h, j, p);
    if x == OutX(i, p) && y == OutY(j, p) {
      ColumnOfPass(i, p);
      RowOfPass(j, p);
      ColumnIsOf(i, p);
      RowIsOf(j, p);
    } else if p == PassOf(x, y) {
      ColumnOfIsColumn(x, p);
      RowOfIsRow(y, p);
    }
  }

  lemma PassIs(x: nat, y: nat, p: nat)
    requires p < 7
    ensures p == PassOf(x, y) <==> InColumns(x % 8, p) && InRows(y % 8, p)
  {
    PatternIsPass(x % 8, y % 8, p);
  }

  // ----- the loops

  /** The index at which pixel i of row j of a pass is stored. */
  function Cell(w: nat, p: nat, j: nat, i: nat): nat {
    OutY(j, p) * w + OutX(i, p)
  }

  function Lookup<T>(s: seq<T>, k: nat): Option<T> {
    if k < |s| then Some(s[k]) else None
  }

  predicate Before(q: nat, b: nat, a: nat, p: nat, j: nat, i: nat) {
    q < p || (q == p && (b < j || (b == j && a < i)))
  }

  /** All pixels before pixel i of row j of pass p are where they belong. */
  ghost predicate Placed<T(!new)>(s: seq<T>, passes: seq<seq<T>>, w: nat, h: nat, p: nat, j: nat, i: nat)
    requires |passes| == 7
  {
    forall q: nat, b: nat, a: nat :: q < 7 && b < Rows(h, q) && a < Columns(w, q) && Before(q, b, a, p, j, i)
      ==> Lookup(s, Cell(w, q, b, a)) == Lookup(passes[q], b * Columns(w, q) + a)
  }

  lemma CellsAreInImage(w: nat, h: nat, p: nat, j: nat, i: nat)
    requires p < 7 && j < Rows(h, p) && i < Columns(w, p)
    ensures Cell(w, p, j, i) < w * h && j * Columns(w, p) + i < Columns(w, p) * Rows(h, p)
  {
    ColumnInImage(w, i, p);
    RowInImage(h, j, p);
    hide Columns, Rows, OutX, OutY;
    InGrid(OutX(i, p), OutY(j, p), w, h);
    InGrid(i, j, Columns(w, p), Rows(h, p));
  }

  lemma InGrid(x: nat, y: nat, w: nat, h: nat)
    requires x < w && y < h
    ensures y * w + x < w * h
  {
    assert (y + 1) * w <= h * w;
  }

  lemma RowsAreApart(y: nat, v: nat, w: nat)
    requires y < v
    ensures y * w + w <= v * w
  {
    assert (y + 1) * w <= v * w;
  }

  lemma GridIsInjective(x: nat, y: nat, u: nat, v: nat, w: nat)
    requires x < w && u < w && y * w + x == v * w + u
    ensures x == u && y == v
  {
    if y < v {
      RowsAreApart(y, v, w);
    } else if v < y {
      RowsAreApart(v, y, w);
    }
  }

  /** Different places are stored at different indices. */
  lemma CellsDiffer(w: nat, h: nat, q: nat, b: nat, a: nat, p: nat, j: nat, i: nat)
    requires q < 7 && b < Rows(h, q) && a < Columns(w, q) && p < 7 && j < Rows(h, p) && i < Columns(w, p)
    requires Cell(w, q, b, a) == Cell(w, p, j, i)
    ensures q == p && b == j && a == i
  {
    var x, y, u, v := OutX(a, q), OutY(b, q), OutX(i, p), OutY(j, p);
    hide Columns, Rows, OutX, OutY, PassOf, ColumnOf, RowOf;
    EveryPixelHasOnePlace(w, h, x, y, q, b, a);
    EveryPixelHasOnePlace(w, h, u, v, p, j, i);
    GridIsInjective(x, y, u, v, w);
  }

  lemma PixelPlaced<T(!new)>(s: seq<T>, passes: seq<seq<T>>, w: nat, h: nat, p: nat, j: nat, i: nat)
    requires |passes| == 7 && p < 7 && j < Rows(h, p) && i < Columns(w, p) && |s| == w * h
    requires Placed(s, passes, w, h, p, j, i) && j * Columns(w, p) + i < |passes[p]|
    ensures Cell(w, p, j, i) < |s|
    ensures Placed(s[Cell(w, p, j, i) := passes[p][j * Columns(w, p) + i]], passes, w, h, p, j, i + 1)
  {
    hide Columns, Rows, Cell;
    CellsAreInImage(w, h, p, j, i);
    var t := s[Cell(w, p, j, i) := passes[p][j * Columns(w, p) + i]];
    forall q: nat, b: nat, a: nat | q < 7 && b < Rows(h, q) && a < Columns(w, q) && Before(q, b, a, p, j, i + 1)
      ensures Lookup(t, Cell(w, q, b, a)) == Lookup(passes[q], b * Columns(w, q) + a)
    {
      if Cell(w, q, b, a) == Cell(w, p, j, i) {
        CellsDiffer(w, h, q, b, a, p, j, i);
      } else {
        assert Lookup(s, Cell(w, q, b, a)) == Lookup(passes[q], b * Columns(w, q) + a);
      }
    }
  }

  lemma RowPlaced<T(!new)>(s: seq<T>, passes: seq<seq<T>>, w: nat, h: nat, p: nat, j: nat)
    requires |passes| == 7 && Placed(s, passes, w, h, p, j, Columns(w, p))
    ensures Placed(s, passes, w, h, p, j + 1, 0)
  {
    hide Columns, Rows, Cell, Lookup;
  }

  lemma PassPlaced<T(!new)>(s: seq<T>, passes: seq<seq<T>>, w: nat, h: nat, p: nat, j: nat)
    requires |passes| == 7 && Placed(s, passes, w, h, p, j, 0) && (j == Rows(h, p) || Columns(w, p) == 0)
    ensures Placed(s, passes, w, h, p + 1, 0, 0)
  {
    hide Columns, Rows, Cell, Lookup;
  }

  lemma NonePlaced<T(!new)>(s: seq<T>, passes: seq<seq<T>>, w: nat, h: nat)
    requires |passes| == 7
    ensures Placed(s, passes, w, h, 0, 0, 0)
  {
    hide Columns, Rows, Cell, Lookup;
  }

  /** The pixels of the seven passes, each in rows from the top, are put into one image. */
  method Deinterlace<T(0, !new)>(w: nat, h: nat, passes: seq<seq<T>>) returns (final: array<T>)
    requires |passes| == 7 && forall p :: 0 <= p < 7 ==> |passes[p]| == Columns(w, p) * Rows(h, p)
    ensures fresh(final) && final.Length == w * h
    ensures Placed(final[..], passes, w, h, 7, 0, 0)
  {
    hide *;
    final := new T[w * h];
    NonePlaced(final[..], passes, w, h);
    for p := 0 to 7
      invariant Placed(final[..], passes, w, h, p, 0, 0)
    {
      var x, y := Columns(w, p), Rows(h, p);
      if x != 0 && y != 0 {
        for j := 0 to y
          invariant Placed(final[..], passes, w, h, p, j, 0)
        {
          for i := 0 to x
            invariant Placed(final[..], passes, w, h, p, j, i)
          {
            CellsAreInImage(w, h, p, j, i);
            PixelPlaced(final[..], passes, w, h, p, j, i);
            CellIs(w, p, j, i);
            var outY := j * YSpc(p) + YOrig(p);
            var outX := i * XSpc(p) + XOrig(p);
            final[outY * w + outX] := passes[p][j * x + i];
          }
          RowPlaced(final[..], passes, w, h, p, j);
        }
        PassPlaced(final[..], passes, w, h, p, y);
      } else {
        PassPlaced(final[..], passes, w, h, p, 0);
      }
    }
  }

  lemma CellIs(w: nat, p: nat, j: nat, i: nat)
    ensures Cell(w, p, j, i) == (j * YSpc(p) + YOrig(p)) * w + (i * XSpc(p) + XOrig(p))
  {
  }
}
