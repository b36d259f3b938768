/** The table-driven engine of src/ysc_whh.rs: a broadened deletion rule
    (B_p up to 7 and an extra A_p = 2 branch) is baked into two 16 x 16
    tables indexed by two nibbles of the neighbour ring, and `imgthin` looks
    pixels up in place, reading neighbours that earlier lookups in the same
    pass may already have cleared. */
module TableThinning {
  import opened Wrappers
  import opened Common
  import opened BinImages

  /** `sub_iter` of the table engine on the ring [P2, ..., P9], with the
      A_p = 2 lines parsed as Rust parses them: (a && X) || Y. A deleted
      pixel has A_p of 1 or 2 and between 2 and 7 foreground neighbours;
      any other A_p (0, 3 or 4) keeps it. */
  predicate ChenHsu(mode: SubIter, r: seq<bool>): (d: bool)
    requires |r| == 8
    ensures d ==> CrossingNumber(r) == 1 || CrossingNumber(r) == 2
    ensures d ==> 2 <= Count(r) <= 7
  {
    RingBounds(r);
    var p2, p3, p4, p5, p6, p7, p8, p9 := r[0], r[1], r[2], r[3], r[4], r[5], r[6], r[7];
    var ap := CrossingNumber(r);
    var bp := Count(r);
    var a := 2 <= bp && bp <= 7;
    match mode
    case First =>
      if ap == 1 then a && !(p2 && p4 && p6) && !(p4 && p6 && p8)
      else if ap == 2 then (a && ((p2 && p4) && !(p6 || p7 || p8))) || ((p4 && p6) && !(p2 || p8 || p9))
      else false
    case Second =>
      if ap == 1 then a && !(p2 && p4 && p8) && !(p2 && p6 && p8)
      else if ap == 2 then (a && ((p2 && p8) && !(p4 || p5 || p6))) || ((p6 && p8) && !(p2 || p3 || p4))
      else false
  }

  /** With A_p = 2 the bound 2 <= B_p <= 7 always holds, so the missing
      parentheses do not matter: the rule is a && (X || Y) there as well. */
  lemma ChenHsuPrecedence(mode: SubIter, r: seq<bool>)
    requires |r| == 8 && CrossingNumber(r) == 2
    ensures 2 <= Count(r) <= 6
    ensures ChenHsu(mode, r) <==>
      match mode
      case First => (r[0] && r[2] && !(r[4] || r[5] || r[6])) || (r[2] && r[4] && !(r[0] || r[6] || r[7]))
      case Second => (r[0] && r[6] && !(r[2] || r[3] || r[4])) || (r[4] && r[6] && !(r[0] || r[1] || r[2]))
  {
    RingBounds(r);
  }

  /** Where A_p = 1 and B_p != 7 the table engine's rule is the default
      rule; it differs only at B_p = 7 and in the A_p = 2 branch. */
  lemma ChenHsuAgreesOnSimplePoints(p: Pixels, mode: SubIter, x: nat, y: nat)
    requires var r := GetNeighbors(p, x, y).Ring();
             CrossingNumber(r) == 1 && Count(r) != 7
    ensures ChenHsu(mode, GetNeighbors(p, x, y).Ring()) == Deletable(p, mode, x, y)
  {
    RingBounds(GetNeighbors(p, x, y).Ring());
  }

  /** The cases of `test_subiter` of the table engine: all neighbours
      foreground is kept, B_p = 7 is accepted, and the A_p = 2 branch
      deletes in both sub-iterations. */
  lemma ChenHsuExamples()
    ensures !ChenHsu(First, [true, true, true, true, true, true, true, true])
    ensures ChenHsu(First, [true, true, false, true, true, true, true, true])
    ensures ChenHsu(First, [true, false, true, true, false, false, false, false])
    ensures ChenHsu(First, [true, true, true, true, false, false, false, true])
    ensures ChenHsu(First, [true, false, true, false, false, false, false, false])
    ensures ChenHsu(First, [false, false, true, false, true, false, false, false])
    ensures ChenHsu(First, [false, true, true, true, true, true, false, false])
    ensures ChenHsu(Second, [false, false, false, false, true, false, true, false])
    ensures ChenHsu(Second, [false, false, false, true, true, true, true, true])
  {
    var r0 := [true, true, true, true, true, true, true, true];
    CountEight(r0);
    CountEight(Rises(r0));
    var r1 := [true, true, false, true, true, true, true, true];
    CountEight(r1);
    CountEight(Rises(r1));
    var r2 := [true, false, true, true, false, false, false, false];
    CountEight(r2);
    CountEight(Rises(r2));
    var r3 := [true, true, true, true, false, false, false, true];
    CountEight(r3);
    CountEight(Rises(r3));
    var r4 := [true, false, true, false, false, false, false, false];
    CountEight(r4);
    CountEight(Rises(r4));
    var r5 := [false, false, true, false, true, false, false, false];
    CountEight(r5);
    CountEight(Rises(r5));
    var r6 := [false, true, true, true, true, true, false, false];
    CountEight(r6);
    CountEight(Rises(r6));
    var r7 := [false, false, false, false, true, false, true, false];
    CountEight(r7);
    CountEight(Rises(r7));
    var r8 := [false, false, false, true, true, true, true, true];
    CountEight(r8);
    CountEight(Rises(r8));
  }

  // ---------------------------------------------------------------------
  // Nibbles and tables

  /** `bin_to_dec`: the first flag is the most significant bit. */
  function BinToDec(b: seq<bool>): (n: nat)
    requires |b| == 4
    ensures n < 16
  {
    Ind(b[3]) * 1 + Ind(b[2]) * 2 + Ind(b[1]) * 4 + Ind(b[0]) * 8
  }

  /** The digits of `format!("{:04b}", n)` read back as flags, most
      significant first. */
  function Bits4(n: nat): (b: seq<bool>)
    requires n < 16
    ensures b == [Bit(n, 3), Bit(n, 2), Bit(n, 1), Bit(n, 0)]
  {
    assert n / 2 / 2 == n / 4;
    assert n / 2 / 2 / 2 == n / 8;
    assert Bit(n, 3) == Bit(n / 2, 2) == Bit(n / 2 / 2, 1) == Bit(n / 2 / 2 / 2, 0);
    assert Bit(n, 2) == Bit(n / 2, 1) == Bit(n / 2 / 2, 0);
    [n / 8 % 2 == 1, n / 4 % 2 == 1, n / 2 % 2 == 1, n % 2 == 1]
  }

  /** `bin_to_dec` and the formatting used by `make_table` are inverse. */
  lemma NibbleRoundTrip(b: seq<bool>, n: nat)
    requires |b| == 4 && n < 16
    ensures Bits4(BinToDec(b)) == b
    ensures BinToDec(Bits4(n)) == n
  {
  }

  /** The cases of `test_bin_to_dec`. */
  lemma BinToDecExamples()
    ensures BinToDec([true, false, false, false]) == 8
    ensures BinToDec([true, true, false, false]) == 12
    ensures BinToDec([true, true, true, false]) == 14
  {
  }

  /** The entry of `make_table(mode)` in row i, column j: the digits of j
      followed by those of i, handed to the rule in the order 3, 2, 1, 0, 7,
      6, 5, 4, and negated, so the table says whether to keep the pixel.
      Read as bits, the rule sees bits 0..3 of j and then bits 0..3 of i,
      least significant first. */
  predicate TableEntry(mode: SubIter, i: nat, j: nat): (keep: bool)
    requires i < 16 && j < 16
    ensures keep ==
            !ChenHsu(mode, [Bit(j, 0), Bit(j, 1), Bit(j, 2), Bit(j, 3), Bit(i, 0), Bit(i, 1), Bit(i, 2), Bit(i, 3)])
  {
    var nb := Bits4(j) + Bits4(i);
    !ChenHsu(mode, [nb[3], nb[2], nb[1], nb[0], nb[7], nb[6], nb[5], nb[4]])
  }

  /** Bit k of n, counting from the least significant. */
  function Bit(n: nat, k: nat): bool {
    if k == 0 then n % 2 == 1 else Bit(n / 2, k - 1)
  }

  /** The lookup of `imgthin` (j from P2..P5, i from P6..P9) lands on the
      rule applied to the reflected ring (P5, P4, P3, P2, P9, P8, P7, P6);
      A_p and B_p are the same for both rings, only the corner tests differ. */
  lemma LookupIsReflectedRule(mode: SubIter, r: seq<bool>)
    requires |r| == 8
    ensures TableEntry(mode, BinToDec(r[4..8]), BinToDec(r[0..4])) == !ChenHsu(mode, Reflect(r))
    ensures CrossingNumber(Reflect(r)) == CrossingNumber(r) && Count(Reflect(r)) == Count(r)
  {
    NibbleRoundTrip(r[0..4], 0);
    NibbleRoundTrip(r[4..8], 0);
    ReflectKeepsClassification(r);
  }

  /** `test_direct_computation_vs_table`: row 12, column 7 of the Second
      table says keep, and the direct First rule on P2..P9 = 0,1,1,1,1,1,0,0
      says delete; the test compares the two and they agree. */
  lemma TableExample()
    ensures BinToDec([false, true, true, true]) == 7 && BinToDec([true, true, false, false]) == 12
    ensures TableEntry(Second, 12, 7)
    ensures TableEntry(Second, 12, 7) == ChenHsu(First, [false, true, true, true, true, true, false, false])
  {
    var r := [true, true, true, false, false, false, true, true];
    assert Bits4(7) + Bits4(12) == [false, true, true, true, true, true, false, false];
    CountEight(r);
    CountEight(Rises(r));
    var q := [false, true, true, true, true, true, false, false];
    CountEight(q);
    CountEight(Rises(q));
  }

  /** The inner loop of `make_table`: row i, one entry per column j. */
  method MakeRow(mode: SubIter, i: nat) returns (row: seq<bool>)
    requires i < 16
    ensures |row| == 16
    ensures forall j :: 0 <= j < 16 ==> row[j] == TableEntry(mode, i, j)
  {
    var iBin := Bits4(i);
    row := [];
    for j := 0 to 16
      invariant |row| == j
      invariant forall b :: 0 <= b < j ==> row[b] == TableEntry(mode, i, b)
    {
      var jBin := Bits4(j);
      var neighbors := jBin + iBin;
      var keep := !ChenHsu(mode, [neighbors[3], neighbors[2], neighbors[1], neighbors[0],
                                  neighbors[7], neighbors[6], neighbors[5], neighbors[4]]);
      row := row + [keep];
    }
  }

  /** `make_table`: sixteen rows of sixteen entries. */
  method MakeTable(mode: SubIter) returns (table: seq<seq<bool>>)
    ensures |table| == 16
    ensures forall i :: 0 <= i < 16 ==> |table[i]| == 16
    ensures forall i, j :: 0 <= i < 16 && 0 <= j < 16 ==> table[i][j] == TableEntry(mode, i, j)
  {
    table := [];
    for i := 0 to 16
      invariant |table| == i
      invariant forall a :: 0 <= a < i ==> |table[a]| == 16
      invariant forall a, b :: 0 <= a < i && 0 <= b < 16 ==> table[a][b] == TableEntry(mode, a, b)
    {
      var row := MakeRow(mode, i);
      table := table + [row];
    }
  }

  // ---------------------------------------------------------------------
  // The in-place pass

  /** The "keep" decision for pixel (x, y) of `s` under `mode`: its current
      neighbours packed into the column nibble P2..P5 and the row nibble
      P6..P9 and looked up. */
  predicate Lookup(mode: SubIter, s: Pixels, x: nat, y: nat): (keep: bool)
    ensures keep == !ChenHsu(mode, Reflect(GetNeighbors(s, x, y).Ring()))
  {
    var n := GetNeighbors(s, x, y);
    var r := n.Ring();
    assert r[0..4] == [n.p2, n.p3, n.p4, n.p5] && r[4..8] == [n.p6, n.p7, n.p8, n.p9];
    LookupIsReflectedRule(mode, r);
    TableEntry(mode, BinToDec([n.p6, n.p7, n.p8, n.p9]), BinToDec([n.p2, n.p3, n.p4, n.p5]))
  }

  /** The rest of a pass from the cursor (x, y): `k` is the image being
      walked, `s` the image written in place. A foreground pixel of `k`
      becomes the looked-up value, computed from `s` as earlier steps left
      it; a background pixel is written `false`. */
  function PassFrom(k: Pixels, s: Pixels, mode: SubIter, x: nat, y: nat): (r: Pixels)
    requires IsRect(k) && SameShape(s, k)
    ensures SameShape(r, k)
    decreases |k| - y, Width(k) - x
  {
    if y >= |k| || x >= Width(k) then s
    else
      var v := if k[y][x] then Lookup(mode, s, x, y) else false;
      var s' := s[y := s[y][x := v]];
      if x + 1 < Width(k) then PassFrom(k, s', mode, x + 1, y)
      else PassFrom(k, s', mode, 0, y + 1)
  }

  /** One step of a pass: the pixel under the cursor gets its value, then
      the cursor moves on. */
  lemma PassStep(k: Pixels, s: Pixels, mode: SubIter, x: nat, y: nat, nx: nat, ny: nat, v: bool)
    requires IsRect(k) && SameShape(s, k) && y < |k| && x < Width(k)
    requires v == if k[y][x] then Lookup(mode, s, x, y) else false
    requires if x + 1 < Width(k) then nx == x + 1 && ny == y else nx == 0 && ny == y + 1
    ensures SameShape(s[y := s[y][x := v]], k)
    ensures PassFrom(k, s, mode, x, y) == PassFrom(k, s[y := s[y][x := v]], mode, nx, ny)
  {
  }

  /** A pass only clears pixels: starting from an image inside `k`, the
      result stays inside `k`, so background stays background. */
  lemma {:induction false} PassErodes(k: Pixels, s: Pixels, mode: SubIter, x: nat, y: nat)
    requires IsRect(k) && SubsetOf(s, k)
    ensures SubsetOf(PassFrom(k, s, mode, x, y), k)
    decreases |k| - y, Width(k) - x
  {
    if y < |k| && x < Width(k) {
      var v := if k[y][x] then Lookup(mode, s, x, y) else false;
      var s' := s[y := s[y][x := v]];
      assert SubsetOf(s', k);
      if x + 1 < Width(k) {
        PassErodes(k, s', mode, x + 1, y);
      } else {
        PassErodes(k, s', mode, 0, y + 1);
      }
    }
  }

  /** A pass leaves every pixel before the cursor as it found it. */
  lemma {:induction false} PassKeepsDone(k: Pixels, s: Pixels, mode: SubIter, x: nat, y: nat, xx: nat, yy: nat)
    requires IsRect(k) && SameShape(s, k)
    requires yy < |k| && xx < Width(k) && Before(xx, yy, x, y)
    ensures PassFrom(k, s, mode, x, y)[yy][xx] == s[yy][xx]
    decreases |k| - y, Width(k) - x
  {
    if y < |k| && x < Width(k) {
      var v := if k[y][x] then Lookup(mode, s, x, y) else false;
      var s' := s[y := s[y][x := v]];
      if x + 1 < Width(k) {
        PassKeepsDone(k, s', mode, x + 1, y, xx, yy);
      } else {
        PassKeepsDone(k, s', mode, 0, y + 1, xx, yy);
      }
    }
  }

  /** What `imgthin` returns on a rectangular grid: one in-place pass over
      the image with the First table; the result has the input's shape and
      only foreground pixels the input had. */
  function TableThin(k: Pixels): (r: Pixels)
    requires IsRect(k)
    ensures SubsetOf(r, k)
  {
    PassErodes(k, k, First, 0, 0);
    PassFrom(k, k, First, 0, 0)
  }

  /** The pass changes the image exactly when it clears some foreground
      pixel, which is what `flag` reports after the pass that starts at
      (0, 0) (see `RunPass`). */
  lemma {:induction false} TableThinChanges(k: Pixels)
    requires IsRect(k)
    ensures TableThin(k) != k <==>
            exists yy, xx :: 0 <= yy < |k| && 0 <= xx < |k[yy]| && k[yy][xx] && !TableThin(k)[yy][xx]
  {
    var r := TableThin(k);
    if !exists yy, xx :: 0 <= yy < |k| && 0 <= xx < |k[yy]| && k[yy][xx] && !r[yy][xx] {
      forall yy | 0 <= yy < |k|
        ensures r[yy] == k[yy]
      {
        forall xx | 0 <= xx < |k[yy]|
          ensures r[yy][xx] == k[yy][xx]
        {
          assert !(k[yy][xx] && !r[yy][xx]);
        }
      }
    }
  }

  /** Some foreground pixel of `k` at or after cursor (x0, y0) and before
      cursor (x, y), in row-major order, is background in `s`. */
  ghost predicate ClearedBetween(k: Pixels, s: Pixels, x0: nat, y0: nat, x: nat, y: nat)
    requires SameShape(s, k)
  {
    exists yy, xx :: 0 <= yy < |k| && 0 <= xx < |k[yy]| && !Before(xx, yy, x0, y0) &&
                     Before(xx, yy, x, y) && k[yy][xx] && !s[yy][xx]
  }

  /** Writing v at the cursor and moving on adds exactly that pixel to the
      range the cleared test looks at. */
  lemma ClearedStep(k: Pixels, s: Pixels, x0: nat, y0: nat, x: nat, y: nat, nx: nat, ny: nat, v: bool)
    requires IsRect(k) && SameShape(s, k) && y < |k| && x < Width(k)
    requires !Before(x, y, x0, y0)
    requires if x + 1 < Width(k) then nx == x + 1 && ny == y else nx == 0 && ny == y + 1
    ensures SameShape(s[y := s[y][x := v]], k)
    ensures ClearedBetween(k, s[y := s[y][x := v]], x0, y0, nx, ny) <==>
            ClearedBetween(k, s, x0, y0, x, y) || (k[y][x] && !v)
  {
    var s' := s[y := s[y][x := v]];
    if ClearedBetween(k, s', x0, y0, nx, ny) {
      var yy, xx :| 0 <= yy < |k| && 0 <= xx < |k[yy]| && !Before(xx, yy, x0, y0) &&
                    Before(xx, yy, nx, ny) && k[yy][xx] && !s'[yy][xx];
      if yy != y || xx != x {
        assert Before(xx, yy, x, y) && s[yy][xx] == s'[yy][xx];
      }
    }
    if ClearedBetween(k, s, x0, y0, x, y) {
      var yy, xx :| 0 <= yy < |k| && 0 <= xx < |k[yy]| && !Before(xx, yy, x0, y0) &&
                    Before(xx, yy, x, y) && k[yy][xx] && !s[yy][xx];
      assert Before(xx, yy, nx, ny) && s'[yy][xx] == s[yy][xx];
    }
    if k[y][x] && !v {
      assert Before(x, y, nx, ny) && !s'[y][x];
    }
  }

  /** The `while let Some((x, y, val)) = k_t_iter.next()` loop of
      `imgthin`: runs the cursor to the end, writing each looked-up value
      into `st` at once; the result says whether some pixel was cleared. */
  method RunPass(ktIter: BinImageIntoIter, st: BinImage, k: SubIter,
                 sub1Table: seq<seq<bool>>, sub2Table: seq<seq<bool>>)
    returns (flag: bool)
    requires ktIter.Valid() && SameShape(st.pixels, ktIter.image)
    requires k == First || ktIter.y == |ktIter.image|
    requires |sub1Table| == 16 && forall i :: 0 <= i < 16 ==> |sub1Table[i]| == 16
    requires |sub2Table| == 16 && forall i :: 0 <= i < 16 ==> |sub2Table[i]| == 16
    requires forall i, j :: 0 <= i < 16 && 0 <= j < 16 ==> sub1Table[i][j] == TableEntry(First, i, j)
    modifies ktIter, st
    ensures ktIter.Valid() && ktIter.y == |ktIter.image|
    ensures SameShape(st.pixels, ktIter.image)
    ensures st.pixels == old(PassFrom(ktIter.image, st.pixels, k, ktIter.x, ktIter.y))
    ensures flag ==> old(|ktIter.Remaining()|) > 0
    ensures flag <==> exists yy, xx :: 0 <= yy < |ktIter.image| && 0 <= xx < |ktIter.image[yy]| &&
                                       !Before(xx, yy, old(ktIter.x), old(ktIter.y)) &&
                                       ktIter.image[yy][xx] && !st.pixels[yy][xx]
  {
    var image := ktIter.image;
    ghost var x0, y0 := ktIter.x, ktIter.y;
    ghost var expected := PassFrom(image, st.pixels, k, ktIter.x, ktIter.y);
    ghost var before := |ktIter.Remaining()|;
    flag := false;
    while true
      invariant ktIter.Valid() && ktIter.image == image
      invariant SameShape(st.pixels, image)
      invariant k == First || ktIter.y == |image|
      invariant PassFrom(image, st.pixels, k, ktIter.x, ktIter.y) == expected
      invariant !Before(ktIter.x, ktIter.y, x0, y0)
      invariant flag <==> ClearedBetween(image, st.pixels, x0, y0, ktIter.x, ktIter.y)
      invariant flag ==> |ktIter.Remaining()| < before
      invariant |ktIter.Remaining()| <= before
      decreases |ktIter.Remaining()|
    {
      var t := ktIter.Next();
      if t.None? {
        break;
      }
      var (x, y, val) := t.value;
      ghost var s0 := st.pixels;
      ghost var v := if val then Lookup(k, s0, x, y) else false;
      PassStep(image, s0, k, x, y, ktIter.x, ktIter.y, v);
      ClearedStep(image, s0, x0, y0, x, y, ktIter.x, ktIter.y, v);
      if val {
        var neighbors := GetNeighbors(st.pixels, x, y);
        var j := BinToDec([neighbors.p2, neighbors.p3, neighbors.p4, neighbors.p5]);
        var i := BinToDec([neighbors.p6, neighbors.p7, neighbors.p8, neighbors.p9]);
        var table := match k
          case First => sub1Table
          case Second => sub2Table;
        var dOut := table[i][j];
        assert dOut == v;
        var _ := st.SetValue(x, y, dOut);
        if !dOut {
          flag := true;
        }
      } else {
        var _ := st.SetValue(x, y, false);
      }
    }
  }

  /** `imgthin`: the iterator over the input is made once, so the first run
      of the inner loop exhausts it; the second run of the outer loop finds
      nothing, leaves `flag` false and ends. Only the First table is ever
      consulted. Errors of `try_from` propagate. */
  method ImgThin(pixels: Pixels) returns (r: Result<Pixels>)
    requires IsRect(pixels) ==> Width(pixels) > 0
    ensures !IsRect(pixels) <==> r == Err(InvalidInput)
    ensures r.Ok? ==> r.value == TableThin(pixels)
  {
    var kt :- BinImage.TryFrom(pixels);
    var st := kt.Clone();
    var ktIter := new BinImageIntoIter(kt.pixels);
    var sub1Table := MakeTable(First);
    var sub2Table := MakeTable(Second);
    var k, s := First, Second;
    var flag := true;
    ghost var expected := TableThin(pixels);

    while flag
      invariant fresh(st) && fresh(ktIter) && ktIter.Valid() && ktIter.image == pixels
      invariant SameShape(st.pixels, pixels)
      invariant k == First || ktIter.y == |pixels|
      invariant !flag ==> ktIter.y == |pixels|
      invariant PassFrom(pixels, st.pixels, k, ktIter.x, ktIter.y) == expected
      decreases |ktIter.Remaining()| + (if flag then 1 else 0)
    {
      flag := RunPass(ktIter, st, k, sub1Table, sub2Table);
      var t := k;
      k := s;
      s := t;
    }
    return Ok(st.pixels);
  }
}
