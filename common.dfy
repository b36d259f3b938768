/** The pieces shared by both thinning engines: the sub-iteration selector and
    the classification of the eight-neighbour ring P2..P9 of a pixel into the
    crossing number A_p and the neighbour count B_p (src/common.rs).

    A ring is a `seq<bool>` holding P2, P3, ..., P9 in this clockwise order
    starting north; the ring is circular, so P9 is followed by P2 again. */
module Common {

  /** Which of the two sub-iterations of a thinning pass is running. */
  datatype SubIter = First | Second

  /** 1 for `true`, 0 for `false`. */
  function Ind(b: bool): nat { if b then 1 else 0 }

  /** The number of `true` values in `s`; B_p when `s` is a ring. */
  function Count(s: seq<bool>): (n: nat)
    ensures n <= |s|
  {
    if |s| == 0 then 0 else Count(s[..|s| - 1]) + Ind(s[|s| - 1])
  }

  /** Rises(r)[k] holds iff position k of the circular sequence `r` starts a
      background-to-foreground (0 -> 1) transition. */
  function Rises(r: seq<bool>): seq<bool> {
    seq(|r|, k requires 0 <= k < |r| => !r[k] && r[Next(k, |r|)])
  }

  /** The position after k on a circle of n positions, i.e. (k + 1) mod n. */
  function Next(k: nat, n: nat): nat {
    if k + 1 < n then k + 1 else 0
  }

  /** Falls(r)[k] holds iff position k starts a 1 -> 0 transition. */
  function Falls(r: seq<bool>): seq<bool> {
    seq(|r|, k requires 0 <= k < |r| => r[k] && !r[Next(k, |r|)])
  }

  /** A_p: the number of circular 0 -> 1 transitions around the ring. */
  function CrossingNumber(r: seq<bool>): nat {
    Count(Rises(r))
  }

  /** The ring shifted one place: position k holds what position k + 1 held. */
  function Rotate(s: seq<bool>): seq<bool> {
    if |s| == 0 then [] else s[1..] + [s[0]]
  }

  function Reverse(s: seq<bool>): seq<bool> {
    seq(|s|, k requires 0 <= k < |s| => s[|s| - 1 - k])
  }

  function Not(s: seq<bool>): seq<bool> {
    seq(|s|, k requires 0 <= k < |s| => !s[k])
  }

  /** The order in which the table engine presents a ring to the rule:
      (P5, P4, P3, P2, P9, P8, P7, P6), see src/ysc_whh.rs. */
  function Reflect(r: seq<bool>): seq<bool>
    requires |r| == 8
  {
    [r[3], r[2], r[1], r[0], r[7], r[6], r[5], r[4]]
  }

  /** `calculate_ap_and_bp`: B_p is summed over the eight neighbours, then P2 is
      pushed once more and the transitions are counted with a running
      previous value that starts out `true`, so nothing is counted before P2. */
  method CalculateApAndBp(p2: bool, p3: bool, p4: bool, p5: bool,
                          p6: bool, p7: bool, p8: bool, p9: bool)
    returns (ap: nat, bp: nat)
    ensures bp == Count([p2, p3, p4, p5, p6, p7, p8, p9])
    ensures ap == CrossingNumber([p2, p3, p4, p5, p6, p7, p8, p9])
  {
    var arr := [p2, p3, p4, p5, p6, p7, p8, p9];
    ghost var ring := arr;
    bp := 0;
    for i := 0 to |arr|
      invariant bp == Count(arr[..i])
    {
      CountPrefix(arr, i);
      bp := bp + Ind(arr[i]);
    }
    assert arr[..|arr|] == arr;

    arr := arr + [p2];
    ghost var rises := Rises(ring);
    ap := 0;
    var prev := true;
    for i := 0 to |arr|
      invariant arr == ring + [ring[0]]
      invariant prev == (i == 0 || arr[i - 1])
      invariant ap == Count(rises[..if i == 0 then 0 else i - 1])
    {
      if i > 0 {
        RiseInExtended(ring, i - 1);
        CountPrefix(rises, i - 1);
      }
      if !prev && arr[i] {
        ap := ap + 1;
      }
      prev := arr[i];
    }
    assert rises[..8] == rises;
  }

  /** Extending a prefix by one element adds that element's indicator. */
  lemma CountPrefix(s: seq<bool>, i: nat)
    requires i < |s|
    ensures Count(s[..i + 1]) == Count(s[..i]) + Ind(s[i])
  {
    assert s[..i + 1][..i] == s[..i];
  }

  /** In the ring extended by its first element, consecutive elements k and
      k + 1 form a rise exactly when position k of the ring does. */
  lemma RiseInExtended(ring: seq<bool>, k: nat)
    requires k < |ring|
    ensures Rises(ring)[k] == (!(ring + [ring[0]])[k] && (ring + [ring[0]])[k + 1])
  {
  }

  // ---------------------------------------------------------------------
  // Counting lemmas

  lemma {:induction false} CountAppend(a: seq<bool>, b: seq<bool>)
    ensures Count(a + b) == Count(a) + Count(b)
  {
    if |b| > 0 {
      assert (a + b)[..|a + b| - 1] == a + b[..|b| - 1];
      CountAppend(a, b[..|b| - 1]);
    } else {
      assert a + b == a;
    }
  }

  /** Counting is linear: if a[k] - b[k] == c[k] - d[k] at every position,
      the counts differ in the same way. */
  lemma {:induction false} CountDifference(a: seq<bool>, b: seq<bool>, c: seq<bool>, d: seq<bool>)
    requires |a| == |b| == |c| == |d|
    requires forall k :: 0 <= k < |a| ==> Ind(a[k]) + Ind(d[k]) == Ind(c[k]) + Ind(b[k])
    ensures Count(a) + Count(d) == Count(c) + Count(b)
  {
    if |a| > 0 {
      var n := |a| - 1;
      CountDifference(a[..n], b[..n], c[..n], d[..n]);
    }
  }

  /** A pointwise smaller sequence has no larger count. */
  lemma {:induction false} CountMonotone(a: seq<bool>, b: seq<bool>)
    requires |a| == |b|
    requires forall k :: 0 <= k < |a| ==> a[k] ==> b[k]
    ensures Count(a) <= Count(b)
  {
    if |a| > 0 {
      var n := |a| - 1;
      CountMonotone(a[..n], b[..n]);
    }
  }

  /** Count(s) is 0 exactly when every element is false, and |s| exactly when
      every element is true. */
  lemma {:induction false} CountExtremes(s: seq<bool>)
    ensures Count(s) == 0 <==> forall k :: 0 <= k < |s| ==> !s[k]
    ensures Count(s) == |s| <==> forall k :: 0 <= k < |s| ==> s[k]
  {
    if |s| > 0 {
      var n := |s| - 1;
      CountExtremes(s[..n]);
      assert forall k :: 0 <= k < n ==> s[..n][k] == s[k];
    }
  }

  lemma {:induction false} CountNot(s: seq<bool>)
    ensures Count(Not(s)) == |s| - Count(s)
  {
    if |s| > 0 {
      var n := |s| - 1;
      assert Not(s)[..n] == Not(s[..n]);
      CountNot(s[..n]);
    }
  }

  lemma RotateAt(s: seq<bool>, k: nat)
    requires k < |s|
    ensures |Rotate(s)| == |s| && Rotate(s)[k] == s[Next(k, |s|)]
  {
  }

  lemma CountRotate(s: seq<bool>)
    ensures Count(Rotate(s)) == Count(s)
  {
    if |s| > 0 {
      CountAppend(s[1..], [s[0]]);
      CountAppend([s[0]], s[1..]);
      assert [s[0]] + s[1..] == s;
      assert [s[0]][..0] == [];
    }
  }

  lemma {:induction false} CountReverse(s: seq<bool>)
    ensures Count(Reverse(s)) == Count(s)
  {
    if |s| > 0 {
      var n := |s| - 1;
      assert Reverse(s)[..n] == Reverse(s[1..]);
      CountReverse(s[1..]);
      CountAppend([s[0]], s[1..]);
      assert [s[0]] + s[1..] == s;
      assert [s[0]][..0] == [];
    }
  }

  // ---------------------------------------------------------------------
  // Properties of the classification

  /** Around a circle there are as many 1 -> 0 as 0 -> 1 transitions. */
  lemma RisesEqualFalls(r: seq<bool>)
    ensures Count(Rises(r)) == Count(Falls(r))
  {
    if |r| > 0 {
      forall k | 0 <= k < |r|
        ensures Ind(Rises(r)[k]) + Ind(r[k]) == Ind(Rotate(r)[k]) + Ind(Falls(r)[k])
      {
        RotateAt(r, k);
      }
      CountDifference(Rises(r), Falls(r), Rotate(r), r);
      CountRotate(r);
    }
  }

  /** Each counted transition ends on its own foreground neighbour and starts
      on its own background neighbour: A_p <= B_p and A_p <= |r| - B_p. */
  lemma CrossingBound(r: seq<bool>)
    ensures CrossingNumber(r) <= Count(r)
    ensures CrossingNumber(r) <= |r| - Count(r)
  {
    if |r| > 0 {
      forall k | 0 <= k < |r|
        ensures Rises(r)[k] ==> Rotate(r)[k]
      {
        RotateAt(r, k);
      }
      CountMonotone(Rises(r), Rotate(r));
      CountRotate(r);
      CountMonotone(Rises(r), Not(r));
      CountNot(r);
    }
  }

  /** For the eight-neighbour ring: 0 <= B_p <= 8 and A_p <= min(B_p, 8 - B_p) <= 4. */
  lemma RingBounds(r: seq<bool>)
    requires |r| == 8
    ensures Count(r) <= 8
    ensures CrossingNumber(r) <= Count(r) && CrossingNumber(r) <= 8 - Count(r)
    ensures CrossingNumber(r) <= 4
  {
    CrossingBound(r);
  }

  /** A_p is 0 exactly when all neighbours are equal, i.e. when B_p is 0 or
      the full ring (so eight foreground neighbours give A_p = 0, not 1). */
  lemma CrossingZeroIffUniform(r: seq<bool>)
    ensures CrossingNumber(r) == 0 <==> (Count(r) == 0 || Count(r) == |r|)
  {
    CountExtremes(r);
    CountExtremes(Rises(r));
    if CrossingNumber(r) == 0 {
      RisesEqualFalls(r);
      CountExtremes(Falls(r));
      if |r| > 0 {
        AllEqualFirst(r, |r| - 1);
        if r[0] {
          assert forall k :: 0 <= k < |r| ==> r[k];
        } else {
          assert forall k :: 0 <= k < |r| ==> !r[k];
        }
      }
    }
  }

  /** With no transition of either kind, every element equals the first. */
  lemma {:induction false} AllEqualFirst(r: seq<bool>, n: nat)
    requires n < |r|
    requires forall k :: 0 <= k < |r| ==> !Rises(r)[k] && !Falls(r)[k]
    ensures forall k :: 0 <= k <= n ==> r[k] == r[0]
  {
    if n > 0 {
      AllEqualFirst(r, n - 1);
      assert !Rises(r)[n - 1] && !Falls(r)[n - 1];
    }
  }

  /** Rotating the ring leaves (A_p, B_p) unchanged. */
  lemma RotateKeepsClassification(r: seq<bool>)
    ensures Count(Rotate(r)) == Count(r)
    ensures CrossingNumber(Rotate(r)) == CrossingNumber(r)
  {
    CountRotate(r);
    if |r| > 0 {
      forall k | 0 <= k < |r|
        ensures Rises(Rotate(r))[k] == Rotate(Rises(r))[k]
      {
        RotateAt(r, k);
        RotateAt(r, Next(k, |r|));
        RotateAt(Rises(r), k);
      }
      assert Rises(Rotate(r)) == Rotate(Rises(r));
      CountRotate(Rises(r));
    }
  }

  /** Reversing the ring leaves (A_p, B_p) unchanged: the rises of the
      reversed ring are the falls of the original, read backwards. */
  lemma ReverseKeepsClassification(r: seq<bool>)
    ensures Count(Reverse(r)) == Count(r)
    ensures CrossingNumber(Reverse(r)) == CrossingNumber(r)
  {
    CountReverse(r);
    if |r| > 0 {
      var f := Falls(r);
      forall k | 0 <= k < |r|
        ensures Rises(Reverse(r))[k] == Rotate(Reverse(f))[k]
      {
        ReversedRiseAt(r, k);
        RotateAt(Reverse(f), k);
      }
      assert Rises(Reverse(r)) == Rotate(Reverse(f));
      CountRotate(Reverse(f));
      CountReverse(f);
      RisesEqualFalls(r);
    }
  }

  lemma ReversedRiseAt(r: seq<bool>, k: nat)
    requires k < |r|
    ensures Rises(Reverse(r))[k] == Falls(r)[|r| - 1 - Next(k, |r|)]
  {
  }

  /** The table engine's reflected ring has the same A_p and B_p. */
  lemma ReflectKeepsClassification(r: seq<bool>)
    requires |r| == 8
    ensures Count(Reflect(r)) == Count(r)
    ensures CrossingNumber(Reflect(r)) == CrossingNumber(r)
  {
    var r0 := Reverse(r);
    ReverseEight(r);
    var r1 := Rotate(r0);
    RotateEight(r0);
    var r2 := Rotate(r1);
    RotateEight(r1);
    var r3 := Rotate(r2);
    RotateEight(r2);
    var r4 := Rotate(r3);
    RotateEight(r3);
    assert r4 == Reflect(r);
    ReverseKeepsClassification(r);
    RotateKeepsClassification(r0);
    RotateKeepsClassification(r1);
    RotateKeepsClassification(r2);
    RotateKeepsClassification(r3);
  }

  lemma ReverseEight(s: seq<bool>)
    requires |s| == 8
    ensures Reverse(s) == [s[7], s[6], s[5], s[4], s[3], s[2], s[1], s[0]]
  {
  }

  lemma RotateEight(s: seq<bool>)
    requires |s| == 8
    ensures Rotate(s) == [s[1], s[2], s[3], s[4], s[5], s[6], s[7], s[0]]
  {
  }

  /** Count of an eight-element sequence, element by element. */
  lemma CountEight(s: seq<bool>)
    requires |s| == 8
    ensures Count(s) == Ind(s[0]) + Ind(s[1]) + Ind(s[2]) + Ind(s[3])
                      + Ind(s[4]) + Ind(s[5]) + Ind(s[6]) + Ind(s[7])
  {
    assert s[..0] == [];
    CountPrefix(s, 0);
    CountPrefix(s, 1);
    CountPrefix(s, 2);
    CountPrefix(s, 3);
    CountPrefix(s, 4);
    CountPrefix(s, 5);
    CountPrefix(s, 6);
    CountPrefix(s, 7);
    assert s[..8] == s;
  }

  /** The unit cases of `test_calculate_ap_bp` (src/default.rs). */
  lemma ClassificationExamples()
    ensures CrossingNumber([true, true, true, true, true, true, true, true]) == 0
    ensures Count([true, true, true, true, true, true, true, true]) == 8
    ensures CrossingNumber([true, true, false, false, true, false, true, true]) == 2
    ensures Count([true, true, false, false, true, false, true, true]) == 5
    ensures CrossingNumber([false, false, false, false, false, false, false, false]) == 0
    ensures Count([false, false, false, false, false, false, false, false]) == 0
  {
    var full := [true, true, true, true, true, true, true, true];
    var mixed := [true, true, false, false, true, false, true, true];
    var empty := [false, false, false, false, false, false, false, false];
    CountEight(full);
    CountEight(mixed);
    CountEight(empty);
    CountEight(Rises(full));
    CountEight(Rises(mixed));
    CountEight(Rises(empty));
  }
}
