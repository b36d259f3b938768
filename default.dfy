/** The default engine of src/default.rs: each pass runs the First and then
    the Second sub-iteration; a sub-iteration marks pixels in a fresh mask,
    deciding every pixel from the image as it was when the sub-iteration
    began, and then subtracts the mask. The engine stops as soon as a
    sub-iteration removes nothing, and otherwise starts another pass. */
module DefaultThinning {
  import opened Wrappers
  import opened Common
  import opened BinImages

  /** The mask of one sub-iteration: the foreground pixels of `p` that the
      default rule deletes, every decision read from `p` itself. */
  function Marks(p: Pixels, mode: SubIter): (m: Pixels)
    ensures SubsetOf(m, p)
  {
    seq(|p|, y requires 0 <= y < |p| =>
      seq(|p[y]|, x requires 0 <= x < |p[y]| => Deletable(p, mode, x, y) && p[y][x]))
  }

  /** One sub-iteration: the image minus its mask. A pixel survives exactly
      when it was foreground and the rule, evaluated on the image before the
      sub-iteration, does not delete it. */
  function Step(p: Pixels, mode: SubIter): (r: Pixels)
    ensures SameShape(r, p)
    ensures forall y, x :: 0 <= y < |p| && 0 <= x < |p[y]| ==>
              r[y][x] == (p[y][x] && !Deletable(p, mode, x, y))
  {
    Minus(p, Marks(p, mode))
  }

  /** What `recursive` computes. A pass whose First sub-iteration marks
      nothing ends there; so does one whose Second sub-iteration marks
      nothing; only when both removed pixels does another pass run. */
  function Thin(p: Pixels): (r: Pixels)
    ensures SubsetOf(r, p)
    decreases CountPixels(p)
  {
    var m1 := Marks(p, First);
    var p1 := Minus(p, m1);
    if CountPixels(m1) == 0 then p1
    else
      var m2 := Marks(p1, Second);
      var p2 := Minus(p1, m2);
      if CountPixels(m2) == 0 then p2
      else
        MinusCount(p, m1);
        MinusCount(p1, m2);
        SubsetTransitive(p2, p1, p);
        var r := Thin(p2);
        SubsetTransitive(r, p2, p);
        r
  }

  // ---------------------------------------------------------------------
  // Properties of the specification

  /** A grid with no foreground pixel. */
  predicate Blank(m: Pixels) {
    forall y, x :: 0 <= y < |m| && 0 <= x < |m[y]| ==> !m[y][x]
  }

  lemma {:induction false} CountPixelsZero(m: Pixels)
    ensures CountPixels(m) == 0 <==> Blank(m)
  {
    if |m| > 0 {
      var n := |m| - 1;
      CountPixelsZero(m[..n]);
      CountExtremes(m[n]);
      assert forall y :: 0 <= y < n ==> m[..n][y] == m[y];
    }
  }

  /** Subtracting an empty mask changes nothing. */
  lemma MinusBlank(p: Pixels, m: Pixels)
    requires Blank(m) && SameShape(m, p)
    ensures Minus(p, m) == p
  {
    forall y | 0 <= y < |p|
      ensures Minus(p, m)[y] == p[y]
    {
    }
  }

  /** The early exit: the engine returns right after the first sub-iteration
      that removes nothing, without running the other one, and only recurses
      after both removed pixels, on an image at least two pixels smaller. */
  lemma ThinEarlyExit(p: Pixels)
    ensures CountPixels(Marks(p, First)) == 0 ==> Thin(p) == p
    ensures CountPixels(Marks(p, First)) > 0 && CountPixels(Marks(Step(p, First), Second)) == 0 ==>
              Thin(p) == Step(p, First)
    ensures CountPixels(Marks(p, First)) > 0 && CountPixels(Marks(Step(p, First), Second)) > 0 ==>
              Thin(p) == Thin(Step(Step(p, First), Second)) &&
              CountPixels(Step(Step(p, First), Second)) + 2 <= CountPixels(p)
  {
    var m1 := Marks(p, First);
    var p1 := Minus(p, m1);
    if CountPixels(m1) == 0 {
      CountPixelsZero(m1);
      MinusBlank(p, m1);
    } else {
      var m2 := Marks(p1, Second);
      MinusCount(p, m1);
      MinusCount(p1, m2);
      if CountPixels(m2) == 0 {
        CountPixelsZero(m2);
        MinusBlank(p1, m2);
      }
    }
  }

  /** On return, no foreground pixel of the result is deleted by the rule of
      the sub-iteration that ended the run. */
  lemma {:induction false} ThinIsStable(p: Pixels)
    ensures var r := Thin(p);
            Blank(Marks(r, First)) || Blank(Marks(r, Second))
    decreases CountPixels(p)
  {
    var m1 := Marks(p, First);
    var p1 := Minus(p, m1);
    if CountPixels(m1) == 0 {
      CountPixelsZero(m1);
      MinusBlank(p, m1);
    } else {
      var m2 := Marks(p1, Second);
      var p2 := Minus(p1, m2);
      if CountPixels(m2) == 0 {
        CountPixelsZero(m2);
        MinusBlank(p1, m2);
      } else {
        MinusCount(p, m1);
        MinusCount(p1, m2);
        ThinIsStable(p2);
      }
    }
  }

  /** The result has the input's height and row lengths and only foreground
      pixels the input had. */
  lemma ThinShapeAndErosion(p: Pixels)
    requires IsRect(p)
    ensures IsRect(Thin(p)) && Height(Thin(p)) == Height(p) && Width(Thin(p)) == Width(p)
    ensures forall y, x :: 0 <= y < |p| && 0 <= x < |p[y]| && Thin(p)[y][x] ==> p[y][x]
  {
  }

  // ---------------------------------------------------------------------
  // The engine

  /** How many foreground pixels of `m` come before (x, y) in row-major order. */
  function PrefixCount(m: Pixels, x: nat, y: nat): nat
    requires y <= |m| && (y < |m| ==> x <= |m[y]|)
  {
    if y == |m| then CountPixels(m) else CountPixels(m[..y]) + Count(m[y][..x])
  }

  /** Advancing a row-major cursor over one pixel adds that pixel to the count. */
  lemma PrefixCountStep(m: Pixels, x: nat, y: nat, nx: nat, ny: nat)
    requires IsRect(m) && y < |m| && x < Width(m)
    requires if x + 1 < Width(m) then nx == x + 1 && ny == y else nx == 0 && ny == y + 1
    ensures ny <= |m| && (ny < |m| ==> nx <= |m[ny]|)
    ensures PrefixCount(m, nx, ny) == PrefixCount(m, x, y) + Ind(m[y][x])
  {
    CountPrefix(m[y], x);
    if x + 1 >= Width(m) {
      assert m[y][..x + 1] == m[y];
      assert m[..y + 1][..y] == m[..y];
      if y + 1 == |m| {
        assert m[..y + 1] == m;
      }
    }
  }

  /** The mask `mp` equals `mk` on the pixels before (x, y) in row-major
      order and is clear from there on. */
  ghost predicate MaskUpTo(mp: Pixels, mk: Pixels, x: nat, y: nat) {
    SameShape(mp, mk) &&
    forall yy, xx :: 0 <= yy < |mk| && 0 <= xx < |mk[yy]| ==>
      mp[yy][xx] == (mk[yy][xx] && Before(xx, yy, x, y))
  }

  /** Marking the pixel under the cursor, when it is marked in `mk`, keeps the
      mask equal to `mk` on everything the cursor has passed. */
  lemma MaskStep(mp: Pixels, mk: Pixels, x: nat, y: nat, nx: nat, ny: nat)
    requires IsRect(mk) && y < |mk| && x < Width(mk)
    requires if x + 1 < Width(mk) then nx == x + 1 && ny == y else nx == 0 && ny == y + 1
    requires MaskUpTo(mp, mk, x, y)
    ensures MaskUpTo(if mk[y][x] then mp[y := mp[y][x := true]] else mp, mk, nx, ny)
  {
  }

  /** A mask equal to `mk` before the end of the grid is `mk`. */
  lemma MaskDone(mp: Pixels, mk: Pixels, x: nat)
    requires MaskUpTo(mp, mk, x, |mk|)
    ensures mp == mk
  {
    forall yy | 0 <= yy < |mk|
      ensures mp[yy] == mk[yy]
    {
    }
  }

  /** One turn of the mask-filling loop: the pixel (x, y) the cursor has just
      passed is set in the mask and counted when the rule deletes it. */
  method MarkPixel(p: Pixels, mode: SubIter, m: BinImage, c: nat, x: nat, y: nat,
                   ghost nx: nat, ghost ny: nat) returns (c': nat)
    requires IsRect(p) && y < |p| && x < Width(p)
    requires if x + 1 < Width(p) then nx == x + 1 && ny == y else nx == 0 && ny == y + 1
    requires MaskUpTo(m.pixels, Marks(p, mode), x, y)
    requires c == PrefixCount(Marks(p, mode), x, y)
    modifies m
    ensures MaskUpTo(m.pixels, Marks(p, mode), nx, ny)
    ensures c' == PrefixCount(Marks(p, mode), nx, ny)
  {
    ghost var marks := Marks(p, mode);
    PrefixCountStep(marks, x, y, nx, ny);
    var marked := Deletable(p, mode, x, y) && GetValue(p, x, y).Extract();
    assert marked == marks[y][x];
    MaskStep(m.pixels, marks, x, y, nx, ny);
    c' := c;
    if marked {
      var _ := m.SetValue(x, y, true);
      c' := c + 1;
    }
  }

  /** The body of the `for sub_iter in sub_iters` loop up to the
      subtraction: walk a clone of the image, setting in a blank mask `m`
      every pixel the rule deletes and counting them in `c`. */
  method FillMask(p: Pixels, mode: SubIter) returns (m: BinImage, c: nat)
    requires IsRect(p) && Width(p) > 0
    ensures fresh(m)
    ensures m.pixels == Marks(p, mode)
    ensures c == CountPixels(Marks(p, mode))
  {
    ghost var marks := Marks(p, mode);
    m := new BinImage.New(Width(p), Height(p), false);
    c := 0;
    var it := new BinImageIntoIter(p);  // iterates a clone of the image
    while true
      invariant fresh(m) && fresh(it) && it.Valid() && it.image == p
      invariant MaskUpTo(m.pixels, marks, it.x, it.y)
      invariant c == PrefixCount(marks, it.x, it.y)
      decreases |it.Remaining()|
    {
      var t := it.Next();
      if t.None? {
        break;
      }
      var (x, y, _) := t.value;
      c := MarkPixel(p, mode, m, c, x, y, it.x, it.y);
    }
    MaskDone(m.pixels, marks, it.x);
    assert m.pixels == marks;
  }

  /** One pass of the `for sub_iter in sub_iters` loop: fill the mask, then
      subtract it from the image. */
  method SubIteration(image: BinImage, mode: SubIter) returns (next: BinImage, c: nat)
    requires IsRect(image.pixels) && Width(image.pixels) > 0
    ensures fresh(next)
    ensures next.pixels == Step(image.pixels, mode)
    ensures c == CountPixels(Marks(image.pixels, mode))
  {
    var m;
    m, c := FillMask(image.pixels, mode);
    next := image.Sub(m);
  }

  /** `recursive`: the tail call is the loop; each iteration is one pass of
      the First and the Second sub-iteration, returning as soon as one of
      them removes nothing. The foreground count decreases at every pass. */
  method Recursive(image: BinImage) returns (r: BinImage)
    requires IsRect(image.pixels) && Width(image.pixels) > 0
    ensures r.pixels == Thin(image.pixels)
  {
    var img := image;
    while true
      invariant IsRect(img.pixels) && Width(img.pixels) == Width(image.pixels)
      invariant Height(img.pixels) == Height(image.pixels)
      invariant Thin(img.pixels) == Thin(image.pixels)
      decreases CountPixels(img.pixels)
    {
      ghost var p := img.pixels;
      var c;
      img, c := SubIteration(img, First);
      if c == 0 {
        ThinEarlyExit(p);
        return img;
      }
      ghost var p1 := img.pixels;
      img, c := SubIteration(img, Second);
      ThinEarlyExit(p);
      if c == 0 {
        return img;
      }
    }
  }

  /** `imgthin`: a ragged grid is returned as `InvalidInput` untouched;
      otherwise the thinned rows, of the same shape, eroded only. The walk
      over the image needs at least one row and one column. */
  method ImgThin(pixels: Pixels) returns (r: Result<Pixels>)
    requires IsRect(pixels) ==> Width(pixels) > 0
    ensures !IsRect(pixels) <==> r == Err(InvalidInput)
    ensures r.Ok? ==> r.value == Thin(pixels)
    ensures r.Ok? ==> SameShape(r.value, pixels) &&
                      forall y, x :: 0 <= y < |pixels| && 0 <= x < |pixels[y]| && r.value[y][x] ==> pixels[y][x]
  {
    var created := BinImage.TryFrom(pixels);
    match created {
      case Ok(image) =>
        var thinned := Recursive(image);
        return Ok(thinned.pixels);
      case Err(e) =>
        return Err(e);
    }
  }
}
