/** The binary image of src/bin_image.rs: a grid of rows of booleans
    (`true` = foreground), with bounds-checked access, the nine-cell
    neighbourhood, the default deletion rule, a row-major cursor and the
    pixelwise difference. Row y is the y-th sequence, column x its x-th element. */
module BinImages {
  import opened Wrappers
  import opened Common

  type Pixels = seq<seq<bool>>

  /** Every row is as long as the first one; an empty grid qualifies. */
  predicate IsRect(p: Pixels) {
    forall y :: 0 <= y < |p| ==> |p[y]| == |p[0]|
  }

  /** `get_width`: the length of row 0, or 0 when there is no row. */
  function Width(p: Pixels): nat {
    if |p| == 0 then 0 else |p[0]|
  }

  /** `get_height`: the number of rows. */
  function Height(p: Pixels): nat {
    |p|
  }

  /** The pixel at signed coordinates (x, y), with every position outside the
      grid reading as background. */
  predicate At(p: Pixels, x: int, y: int) {
    0 <= y < |p| && 0 <= x < |p[y]| && p[y][x]
  }

  /** `get_value`: the pixel, or `InvalidInput` when y is not a row or x is
      not a column of row y. */
  function GetValue(p: Pixels, x: nat, y: nat): (r: Result<bool>)
    ensures r.Ok? <==> y < |p| && x < |p[y]|
    ensures r.Ok? ==> r.value == p[y][x]
    ensures r.Err? ==> r.error == InvalidInput
  {
    if y < |p| then
      if x < |p[y]| then Ok(p[y][x]) else Err(InvalidInput)
    else
      Err(InvalidInput)
  }

  /** `unwrap_or(false)` on a `get_value` result. */
  function ValueOr(r: Result<bool>): bool {
    match r
    case Ok(v) => v
    case Err(_) => false
  }

  /** The nine values returned by `get_neighbors`: the pixel P1 itself and its
      neighbours P2 (north) to P9 (north-west), clockwise. */
  datatype Neighbors = Neighbors(p1: bool, p2: bool, p3: bool, p4: bool, p5: bool,
                                 p6: bool, p7: bool, p8: bool, p9: bool)
  {
    /** The ring P2..P9 classified by `calculate_ap_and_bp`. */
    function Ring(): seq<bool> {
      [p2, p3, p4, p5, p6, p7, p8, p9]
    }
  }

  /** `get_neighbors`: never fails; the `y == 0` and `x == 0` guards keep the
      subtraction in range, and every other off-grid read becomes `false`. */
  function GetNeighbors(p: Pixels, x: nat, y: nat): (n: Neighbors)
    ensures n.p1 == At(p, x, y)
    ensures n.p2 == At(p, x, y - 1)
    ensures n.p3 == At(p, x + 1, y - 1)
    ensures n.p4 == At(p, x + 1, y)
    ensures n.p5 == At(p, x + 1, y + 1)
    ensures n.p6 == At(p, x, y + 1)
    ensures n.p7 == At(p, x - 1, y + 1)
    ensures n.p8 == At(p, x - 1, y)
    ensures n.p9 == At(p, x - 1, y - 1)
  {
    Neighbors(
      ValueOr(GetValue(p, x, y)),
      if y == 0 then false else ValueOr(GetValue(p, x, y - 1)),
      if y == 0 then false else ValueOr(GetValue(p, x + 1, y - 1)),
      ValueOr(GetValue(p, x + 1, y)),
      ValueOr(GetValue(p, x + 1, y + 1)),
      ValueOr(GetValue(p, x, y + 1)),
      if x == 0 then false else ValueOr(GetValue(p, x - 1, y + 1)),
      if x == 0 then false else ValueOr(GetValue(p, x - 1, y)),
      if x == 0 || y == 0 then false else ValueOr(GetValue(p, x - 1, y - 1)))
  }

  /** The corner condition of the default rule for each sub-iteration. */
  predicate Corners(mode: SubIter, n: Neighbors) {
    match mode
    case First => !(n.p2 && n.p4 && n.p6) && !(n.p4 && n.p6 && n.p8)
    case Second => !(n.p2 && n.p4 && n.p8) && !(n.p2 && n.p6 && n.p8)
  }

  /** `BinImage::sub_iter`: the default (Zhang-Suen) deletion test at (x, y).
      A pixel it deletes lies on the boundary: one of its 4-neighbours is
      background, and at least two of its neighbours are foreground. */
  predicate Deletable(p: Pixels, mode: SubIter, x: nat, y: nat): (d: bool)
    ensures d ==> !At(p, x, y - 1) || !At(p, x + 1, y) || !At(p, x, y + 1) || !At(p, x - 1, y)
    ensures d ==> Count(GetNeighbors(p, x, y).Ring()) >= 2
  {
    var n := GetNeighbors(p, x, y);
    var ap := CrossingNumber(n.Ring());
    var bp := Count(n.Ring());
    2 <= bp && bp <= 6 && ap == 1 && Corners(mode, n)
  }

  /** The default rule read off the grid: 2 <= B_p <= 6, A_p = 1 and the
      corner condition, with off-grid neighbours counted as background. */
  lemma DeletableAt(p: Pixels, mode: SubIter, x: nat, y: nat)
    ensures
      var r := [At(p, x, y - 1), At(p, x + 1, y - 1), At(p, x + 1, y), At(p, x + 1, y + 1),
                At(p, x, y + 1), At(p, x - 1, y + 1), At(p, x - 1, y), At(p, x - 1, y - 1)];
      Deletable(p, mode, x, y) <==>
        2 <= Count(r) <= 6 && CrossingNumber(r) == 1 &&
        match mode
        case First => !(r[0] && r[2] && r[4]) && !(r[2] && r[4] && r[6])
        case Second => !(r[0] && r[2] && r[6]) && !(r[0] && r[4] && r[6])
  {
  }

  /** The decision does not look at P1: two grids that agree on the eight
      neighbours of (x, y) give the same decision there. */
  lemma DeletableIgnoresCenter(p: Pixels, q: Pixels, mode: SubIter, x: nat, y: nat)
    requires forall i: int, j: int :: (i != x || j != y) ==> At(p, i, j) == At(q, i, j)
    ensures Deletable(p, mode, x, y) == Deletable(q, mode, x, y)
  {
    assert GetNeighbors(p, x, y).Ring() == GetNeighbors(q, x, y).Ring();
  }

  /** The corner conditions say which boundary a sub-iteration peels: the
      first removes south or east boundary points and north-west corners,
      the second north or west boundary points and south-east corners. */
  lemma CornersMeaning(n: Neighbors)
    ensures Corners(First, n) <==> !n.p4 || !n.p6 || (!n.p2 && !n.p8)
    ensures Corners(Second, n) <==> !n.p2 || !n.p8 || (!n.p4 && !n.p6)
  {
  }

  /** The boundary rule of `get_neighbors` on a one-pixel foreground image. */
  lemma SinglePixelNeighbors()
    ensures GetNeighbors([[true]], 0, 0) ==
            Neighbors(true, false, false, false, false, false, false, false, false)
  {
  }

  // ---------------------------------------------------------------------
  // Whole-grid relations

  /** The number of foreground pixels. */
  function CountPixels(p: Pixels): nat {
    if |p| == 0 then 0 else CountPixels(p[..|p| - 1]) + Count(p[|p| - 1])
  }

  predicate SameShape(p: Pixels, q: Pixels) {
    |p| == |q| && forall y :: 0 <= y < |p| ==> |p[y]| == |q[y]|
  }

  /** `p` has the shape of `q` and no foreground pixel that `q` lacks. */
  predicate SubsetOf(p: Pixels, q: Pixels) {
    SameShape(p, q) &&
    forall y, x :: 0 <= y < |p| && 0 <= x < |p[y]| && p[y][x] ==> q[y][x]
  }

  /** The grid of h rows of w copies of `fill`. */
  function Filled(w: nat, h: nat, fill: bool): Pixels {
    seq(h, _ => seq(w, _ => fill))
  }

  /** `self - rhs`: `self` with every pixel that is foreground in `rhs` turned off. */
  function Minus(p: Pixels, m: Pixels): (r: Pixels)
    ensures SubsetOf(r, p)
    ensures forall y, x :: 0 <= y < |p| && 0 <= x < |p[y]| ==>
              (r[y][x] <==> p[y][x] && !At(m, x, y))
  {
    seq(|p|, y requires 0 <= y < |p| =>
      seq(|p[y]|, x requires 0 <= x < |p[y]| => p[y][x] && !At(m, x, y)))
  }

  lemma SubsetTransitive(a: Pixels, b: Pixels, c: Pixels)
    requires SubsetOf(a, b) && SubsetOf(b, c)
    ensures SubsetOf(a, c)
  {
  }

  /** Removing a mask that lies inside the image removes exactly as many
      pixels as the mask holds. */
  lemma {:induction false} MinusCount(p: Pixels, m: Pixels)
    requires SubsetOf(m, p)
    ensures CountPixels(Minus(p, m)) + CountPixels(m) == CountPixels(p)
  {
    if |p| > 0 {
      var n := |p| - 1;
      forall y | 0 <= y < n
        ensures Minus(p, m)[..n][y] == Minus(p[..n], m[..n])[y]
      {
        assert forall x :: 0 <= x < |p[y]| ==> At(m, x, y) == At(m[..n], x, y);
      }
      assert Minus(p, m)[..n] == Minus(p[..n], m[..n]);
      MinusCount(p[..n], m[..n]);
      RowMinusCount(p[n], m[n], Minus(p, m)[n]);
    }
  }

  lemma {:induction false} RowMinusCount(a: seq<bool>, b: seq<bool>, r: seq<bool>)
    requires |a| == |b| == |r|
    requires forall k :: 0 <= k < |a| ==> (b[k] ==> a[k]) && (r[k] == (a[k] && !b[k]))
    ensures Count(r) + Count(b) == Count(a)
  {
    if |a| > 0 {
      var n := |a| - 1;
      RowMinusCount(a[..n], b[..n], r[..n]);
    }
  }

  /** Count of a grid that is a subset of another is no larger, and equal
      only if the grids are equal. */
  lemma {:induction false} SubsetCount(p: Pixels, q: Pixels)
    requires SubsetOf(p, q)
    ensures CountPixels(p) <= CountPixels(q)
    ensures CountPixels(p) == CountPixels(q) ==> p == q
  {
    if |p| > 0 {
      var n := |p| - 1;
      SubsetCount(p[..n], q[..n]);
      CountMonotone(p[n], q[n]);
      if CountPixels(p) == CountPixels(q) {
        var d := seq(|q[n]|, k requires 0 <= k < |q[n]| => q[n][k] && !p[n][k]);
        RowMinusCount(q[n], d, p[n]);
        CountExtremes(d);
        assert p[n] == q[n];
        assert p == p[..n] + [p[n]] && q == q[..n] + [q[n]];
      }
    }
  }

  // ---------------------------------------------------------------------
  // Row-major order

  /** The triples (x, y, value) that a cursor at (x, y) still has to yield,
      row by row and, within a row, column by column. */
  function TriplesFrom(p: Pixels, x: nat, y: nat): seq<(nat, nat, bool)>
    requires IsRect(p)
    decreases |p| - y, Width(p) - x
  {
    if y >= |p| || x >= Width(p) then []
    else [(x, y, p[y][x])] + (if x + 1 < Width(p) then TriplesFrom(p, x + 1, y)
                              else TriplesFrom(p, 0, y + 1))
  }

  lemma MulSucc(a: nat, w: nat)
    ensures (a + 1) * w == a * w + w
  {
  }

  /** A cursor at (x, y) inside the image has (h - y) * w - x triples left. */
  lemma {:induction false} TriplesFromLength(p: Pixels, x: nat, y: nat)
    requires IsRect(p) && x < Width(p) && y < |p|
    ensures |TriplesFrom(p, x, y)| == (|p| - y) * Width(p) - x
    decreases |p| - y, Width(p) - x
  {
    var w := Width(p);
    if x + 1 < w {
      TriplesFromLength(p, x + 1, y);
    } else if y + 1 < |p| {
      TriplesFromLength(p, 0, y + 1);
      MulSucc(|p| - (y + 1), w);
    } else {
      assert TriplesFrom(p, 0, y + 1) == [];
    }
  }

  /** How many steps a row-major cursor of row width w takes from (x, y)
      to (xx, yy): the rest of the current row, then whole rows. */
  function Offset(w: nat, x: nat, y: nat, xx: nat, yy: nat): nat
    requires x <= w && xx < w && (yy > y || (yy == y && xx >= x))
    decreases yy - y
  {
    if yy == y then xx - x else (w - x) + Offset(w, 0, y + 1, xx, yy)
  }

  lemma {:induction false} OffsetFromRowStart(w: nat, y: nat, xx: nat, yy: nat)
    requires xx < w && yy >= y
    ensures Offset(w, 0, y, xx, yy) == (yy - y) * w + xx
    decreases yy - y
  {
    if yy > y {
      OffsetFromRowStart(w, y + 1, xx, yy);
      MulSucc(yy - (y + 1), w);
    }
  }

  /** The pixel (xx, yy) at or after the cursor (x, y) is Offset steps ahead
      in what the cursor has left. */
  lemma {:induction false} TriplesFromAt(p: Pixels, x: nat, y: nat, xx: nat, yy: nat)
    requires IsRect(p) && x < Width(p) && y < |p|
    requires xx < Width(p) && yy < |p| && (yy > y || (yy == y && xx >= x))
    ensures Offset(Width(p), x, y, xx, yy) < |TriplesFrom(p, x, y)|
    ensures TriplesFrom(p, x, y)[Offset(Width(p), x, y, xx, yy)] == (xx, yy, p[yy][xx])
    decreases |p| - y, Width(p) - x
  {
    var w := Width(p);
    var t := TriplesFrom(p, x, y);
    if yy == y && xx == x {
    } else if x + 1 < w {
      TriplesFromAt(p, x + 1, y, xx, yy);
      assert t == [t[0]] + TriplesFrom(p, x + 1, y);
    } else {
      TriplesFromAt(p, 0, y + 1, xx, yy);
      assert t == [t[0]] + TriplesFrom(p, 0, y + 1);
    }
  }

  /** Row-major order from the start of row y0 (y0 = 0: the whole image):
      (h - y0) * w triples, the pixel (x, y) at position (y - y0) * w + x, so
      each coordinate appears exactly once. */
  lemma RowMajorFrom(p: Pixels, y0: nat, x: nat, y: nat)
    requires IsRect(p) && x < Width(p) && y0 <= y < |p|
    ensures |TriplesFrom(p, 0, y0)| == (|p| - y0) * Width(p)
    ensures (y - y0) * Width(p) + x < |TriplesFrom(p, 0, y0)|
    ensures TriplesFrom(p, 0, y0)[(y - y0) * Width(p) + x] == (x, y, p[y][x])
  {
    TriplesFromLength(p, 0, y0);
    TriplesFromAt(p, 0, y0, x, y);
    OffsetFromRowStart(Width(p), y0, x, y);
  }

  /** Every triple a cursor yields is an in-grid coordinate with its value. */
  lemma {:induction false} TriplesInGrid(p: Pixels, x: nat, y: nat, k: nat)
    requires IsRect(p) && k < |TriplesFrom(p, x, y)|
    ensures var t := TriplesFrom(p, x, y)[k];
            t.1 < |p| && t.0 < Width(p) && t.2 == p[t.1][t.0]
    decreases |p| - y, Width(p) - x
  {
    if k > 0 {
      if x + 1 < Width(p) {
        TriplesInGrid(p, x + 1, y, k - 1);
      } else {
        TriplesInGrid(p, 0, y + 1, k - 1);
      }
    }
  }

  // ---------------------------------------------------------------------
  // The image object

  /** `BinImage`: owns its rows; `set_value` updates them in place. */
  class BinImage {
    var pixels: Pixels

    /** `BinImage::new`: h rows of w copies of `fill`, built row by row. */
    constructor New(width: nat, height: nat, fill: bool)
      ensures pixels == Filled(width, height, fill)
      ensures IsRect(pixels) && Height(pixels) == height
      ensures Width(pixels) == if height > 0 then width else 0
    {
      var rows: Pixels := [];
      for i := 0 to height
        invariant rows == Filled(width, i, fill)
      {
        var row: seq<bool> := [];
        for j := 0 to width
          invariant row == seq(j, _ => fill)
        {
          row := row + [fill];
        }
        rows := rows + [row];
      }
      pixels := rows;
    }

    /** Wraps rows that are already known to be rectangular. */
    constructor Wrap(rows: Pixels)
      requires IsRect(rows)
      ensures pixels == rows
    {
      pixels := rows;
    }

    /** `TryFrom<Vec<Vec<bool>>>`: records the first row's length and rejects
        the grid at the first row of another length; accepts an empty grid. */
    static method TryFrom(rows: Pixels) returns (r: Result<BinImage>)
      ensures r.Err? <==> !IsRect(rows)
      ensures r.Err? ==> r.error == InvalidInput
      ensures r.Ok? ==> fresh(r.value) && r.value.pixels == rows
    {
      var first := true;
      var width := 0;
      for i := 0 to |rows|
        invariant first <==> i == 0
        invariant !first ==> width == |rows[0]|
        invariant forall k :: 0 <= k < i ==> |rows[k]| == |rows[0]|
      {
        if first {
          width := |rows[i]|;
        } else {
          if width != |rows[i]| {
            return Err(InvalidInput);
          }
        }
        first := false;
      }
      var img := new BinImage.Wrap(rows);
      return Ok(img);
    }

    /** `clone`. */
    method Clone() returns (c: BinImage)
      requires IsRect(pixels)
      ensures fresh(c) && c.pixels == pixels
    {
      c := new BinImage.Wrap(pixels);
    }

    /** `set_value`: in range, changes exactly pixel (x, y); out of range,
        reports `InvalidInput` and changes nothing. */
    method SetValue(x: nat, y: nat, value: bool) returns (r: Result<()>)
      modifies this
      ensures r.Ok? <==> y < |old(pixels)| && x < |old(pixels)[y]|
      ensures r.Err? ==> r.error == InvalidInput && pixels == old(pixels)
      ensures r.Ok? ==> pixels == old(pixels)[y := old(pixels)[y][x := value]]
    {
      if y < |pixels| {
        if x < |pixels[y]| {
          pixels := pixels[y := pixels[y][x := value]];
          return Ok(());
        }
        return Err(InvalidInput);
      }
      return Err(InvalidInput);
    }

    /** `Sub`: clones `self`, then walks `rhs` in row-major order and turns
        off every pixel that is foreground in `rhs`. The walk needs a
        non-empty `rhs`, and each of its foreground pixels must exist in
        `self` (the source unwraps `set_value`). */
    method Sub(rhs: BinImage) returns (r: BinImage)
      requires IsRect(pixels)
      requires IsRect(rhs.pixels) && Width(rhs.pixels) > 0
      requires forall y, x :: 0 <= y < |rhs.pixels| && 0 <= x < |rhs.pixels[y]| && rhs.pixels[y][x] ==>
                 y < |pixels| && x < |pixels[y]|
      ensures fresh(r)
      ensures r.pixels == Minus(pixels, rhs.pixels)
    {
      r := Clone();
      var it := new BinImageIntoIter(rhs.pixels);
      while true
        invariant fresh(r) && fresh(it) && it.Valid() && it.image == rhs.pixels
        invariant SameShape(r.pixels, pixels)
        invariant forall yy, xx :: 0 <= yy < |pixels| && 0 <= xx < |pixels[yy]| ==>
                    r.pixels[yy][xx] == (pixels[yy][xx] && !(At(rhs.pixels, xx, yy) && Before(xx, yy, it.x, it.y)))
        decreases |it.Remaining()|
      {
        var next := it.Next();
        if next.None? {
          break;
        }
        var (x, y, val) := next.value;
        if val {
          var res := r.SetValue(x, y, false);
        }
      }
      forall yy | 0 <= yy < |pixels|
        ensures r.pixels[yy] == Minus(pixels, rhs.pixels)[yy]
      {
      }
    }
  }

  /** Position (xx, yy) comes strictly before position (x, y) in row-major order. */
  predicate Before(xx: nat, yy: nat, x: nat, y: nat) {
    yy < y || (yy == y && xx < x)
  }

  /** `BinImageIntoIter`: a cursor (x, y) over an image it owns. The source
      subtracts 1 from the height and the width and unwraps `get_value`, so
      the image must have at least one row and one column. */
  class BinImageIntoIter {
    const image: Pixels
    var x: nat
    var y: nat

    ghost predicate Valid()
      reads this
    {
      IsRect(image) && Width(image) > 0 &&
      x < Width(image) && y <= |image| && (y == |image| ==> x == 0)
    }

    /** What the cursor has left to yield. */
    ghost function Remaining(): seq<(nat, nat, bool)>
      reads this
      requires Valid()
    {
      TriplesFrom(image, x, y)
    }

    /** `into_iter`: a cursor at (0, 0) that will yield the whole image. */
    constructor (img: Pixels)
      requires IsRect(img) && Width(img) > 0
      ensures Valid() && image == img && x == 0 && y == 0
      ensures Remaining() == TriplesFrom(img, 0, 0)
    {
      image := img;
      x, y := 0, 0;
    }

    /** `next`: yields the pixel under the cursor and advances it along the
        row, wrapping to the start of the next row; past the last row it
        yields `None` and stays put, so it yields `None` forever after. */
    method Next() returns (r: Option<(nat, nat, bool)>)
      requires Valid()
      modifies this
      ensures Valid()
      ensures r.None? <==> old(y) == |image|
      ensures r.None? ==> x == old(x) && y == old(y)
      ensures r.Some? ==> r.value == (old(x), old(y), image[old(y)][old(x)])
      ensures r.Some? ==> if old(x) + 1 < Width(image) then x == old(x) + 1 && y == old(y)
                          else x == 0 && y == old(y) + 1
      ensures old(Remaining()) == [] ==> r.None?
      ensures old(Remaining()) != [] ==> r == Some(old(Remaining())[0]) && Remaining() == old(Remaining())[1..]
    {
      var height := Height(image);
      var width := Width(image);
      if height - 1 < y && x == 0 {
        return None;
      }
      var ret := (x, y, GetValue(image, x, y).Extract());
      if x >= width - 1 {
        y := y + 1;
        x := 0;
      } else {
        x := x + 1;
      }
      return Some(ret);
    }
  }
}
