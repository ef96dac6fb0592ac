/**
 * What HandleAction does to the local positions of the selected objects,
 * written as functions on sequences, and the properties the window promises
 * of each action. Positions are listed in selection order: object `k` of the
 * selection is at `ps[k]`, and an order of the selection is a sequence of
 * such indices.
 */
module Alignment {
  import opened Vectors
  import opened Sorting

  /** The buttons of the window; None is a frame where no button was pressed. */
  datatype AlignAction = None | ToMinimum | ToMaximum | ToMiddle | Distribute

  /** How HandleAction ends: normally, or by reading selectedObjs[0] of an empty selection. */
  datatype Outcome = Completed | IndexOutOfRange

  // ---------------------------------------------------------------------
  // Extents: the min, max and sum the foreach loop accumulates
  // ---------------------------------------------------------------------

  /** The smallest coordinate on `a`, found as the loop finds it: last object against the rest. */
  function MinCoord(ps: seq<Vec>, a: Axis): real
    requires |ps| > 0
  {
    if |ps| == 1 then Coord(ps[0], a)
    else
      var m, c := MinCoord(ps[..|ps| - 1], a), Coord(ps[|ps| - 1], a);
      if c < m then c else m
  }

  /** The largest coordinate on `a`. */
  function MaxCoord(ps: seq<Vec>, a: Axis): real
    requires |ps| > 0
  {
    if |ps| == 1 then Coord(ps[0], a)
    else
      var m, c := MaxCoord(ps[..|ps| - 1], a), Coord(ps[|ps| - 1], a);
      if c > m then c else m
  }

  /** The minimum is a lower bound of the coordinates on `a`, and some object attains it. */
  lemma {:induction false} MinCoordIsLeast(ps: seq<Vec>, a: Axis)
    requires |ps| > 0
    ensures forall k :: 0 <= k < |ps| ==> MinCoord(ps, a) <= Coord(ps[k], a)
    ensures exists k :: 0 <= k < |ps| && MinCoord(ps, a) == Coord(ps[k], a)
  {
    if |ps| > 1 {
      var n := |ps| - 1;
      MinCoordIsLeast(ps[..n], a);
      assert forall k :: 0 <= k < n ==> ps[..n][k] == ps[k];
      var j :| 0 <= j < n && MinCoord(ps[..n], a) == Coord(ps[..n][j], a);
      if Coord(ps[n], a) >= MinCoord(ps[..n], a) {
        assert MinCoord(ps, a) == Coord(ps[j], a);
      } else {
        assert MinCoord(ps, a) == Coord(ps[n], a);
      }
    } else {
      assert MinCoord(ps, a) == Coord(ps[0], a);
    }
  }

  /** The maximum is an upper bound of the coordinates on `a`, and some object attains it. */
  lemma {:induction false} MaxCoordIsGreatest(ps: seq<Vec>, a: Axis)
    requires |ps| > 0
    ensures forall k :: 0 <= k < |ps| ==> Coord(ps[k], a) <= MaxCoord(ps, a)
    ensures exists k :: 0 <= k < |ps| && MaxCoord(ps, a) == Coord(ps[k], a)
  {
    if |ps| > 1 {
      var n := |ps| - 1;
      MaxCoordIsGreatest(ps[..n], a);
      assert forall k :: 0 <= k < n ==> ps[..n][k] == ps[k];
      var j :| 0 <= j < n && MaxCoord(ps[..n], a) == Coord(ps[..n][j], a);
      if Coord(ps[n], a) <= MaxCoord(ps[..n], a) {
        assert MaxCoord(ps, a) == Coord(ps[j], a);
      } else {
        assert MaxCoord(ps, a) == Coord(ps[n], a);
      }
    } else {
      assert MaxCoord(ps, a) == Coord(ps[0], a);
    }
  }

  /** `min` after the loop: the per-axis minimum, not the position of any one object. */
  function Minimum(ps: seq<Vec>): (r: Vec)
    requires |ps| > 0
    ensures forall a, k :: 0 <= k < |ps| ==> Coord(r, a) <= Coord(ps[k], a)
  {
    forall a
      ensures forall k :: 0 <= k < |ps| ==> MinCoord(ps, a) <= Coord(ps[k], a)
    {
      MinCoordIsLeast(ps, a);
    }
    Vec(MinCoord(ps, X), MinCoord(ps, Y), MinCoord(ps, Z))
  }

  /** `max` after the loop: the per-axis maximum. */
  function Maximum(ps: seq<Vec>): (r: Vec)
    requires |ps| > 0
    ensures forall a, k :: 0 <= k < |ps| ==> Coord(ps[k], a) <= Coord(r, a)
  {
    forall a
      ensures forall k :: 0 <= k < |ps| ==> Coord(ps[k], a) <= MaxCoord(ps, a)
    {
      MaxCoordIsGreatest(ps, a);
    }
    Vec(MaxCoord(ps, X), MaxCoord(ps, Y), MaxCoord(ps, Z))
  }

  /** One more object seen by the loop: each extent moves only if the object lies beyond it. */
  lemma ExtentsStep(ps: seq<Vec>, i: nat)
    requires 0 < i < |ps|
    ensures var m, p := Minimum(ps[..i]), ps[i];
      Minimum(ps[..i + 1]) == Vec(if p.x < m.x then p.x else m.x,
                                  if p.y < m.y then p.y else m.y,
                                  if p.z < m.z then p.z else m.z)
    ensures var m, p := Maximum(ps[..i]), ps[i];
      Maximum(ps[..i + 1]) == Vec(if p.x > m.x then p.x else m.x,
                                  if p.y > m.y then p.y else m.y,
                                  if p.z > m.z then p.z else m.z)
  {
    assert ps[..i + 1][..i] == ps[..i];
  }

  /** After the first object, both extents are that object's position. */
  lemma ExtentsFirst(ps: seq<Vec>)
    requires 0 < |ps|
    ensures Minimum(ps[..1]) == ps[0] && Maximum(ps[..1]) == ps[0]
  {
  }

  /** On every axis the minimum is at most the maximum. */
  lemma ExtentsOrdered(ps: seq<Vec>)
    requires |ps| > 0
    ensures forall a :: MinCoord(ps, a) <= MaxCoord(ps, a)
  {
    forall a
      ensures MinCoord(ps, a) <= MaxCoord(ps, a)
    {
      MinCoordIsLeast(ps, a);
      MaxCoordIsGreatest(ps, a);
    }
  }

  /** `sum` after the loop: the positions added up in selection order, from zero. */
  function Sum(ps: seq<Vec>): Vec
  {
    if |ps| == 0 then Zero else Add(Sum(ps[..|ps| - 1]), ps[|ps| - 1])
  }

  /** `m` added up `n` times. */
  function Times(n: nat, m: real): real
  {
    if n == 0 then 0.0 else Times(n - 1, m) + m
  }

  lemma {:induction false} TimesIsProduct(n: nat, m: real)
    ensures Times(n, m) == (n as real) * m
  {
    if n > 0 {
      TimesIsProduct(n - 1, m);
      assert ((n - 1) as real) * m + m == (n as real) * m;
    }
  }

  lemma TimesQuotient(n: nat, c: real, s: real)
    requires 0 < n && c * (n as real) == s
    ensures Times(n, c) == s
  {
    TimesIsProduct(n, c);
  }

  /** Adding up more of a smaller amount gives strictly less. */
  lemma {:induction false} TimesStrict(n: nat, c: real, d: real)
    requires 0 < n && c < d
    ensures Times(n, c) < Times(n, d)
  {
    if n > 1 {
      TimesStrict(n - 1, c, d);
    }
  }

  lemma {:induction false} SumAtLeast(ps: seq<Vec>, a: Axis, m: real)
    requires forall k :: 0 <= k < |ps| ==> m <= Coord(ps[k], a)
    ensures Times(|ps|, m) <= Coord(Sum(ps), a)
  {
    if |ps| > 0 {
      var n := |ps| - 1;
      assert forall k :: 0 <= k < n ==> ps[..n][k] == ps[k];
      SumAtLeast(ps[..n], a, m);
      assert Coord(Sum(ps), a) == Coord(Sum(ps[..n]), a) + Coord(ps[n], a);
    }
  }

  lemma {:induction false} SumAtMost(ps: seq<Vec>, a: Axis, m: real)
    requires forall k :: 0 <= k < |ps| ==> Coord(ps[k], a) <= m
    ensures Coord(Sum(ps), a) <= Times(|ps|, m)
  {
    if |ps| > 0 {
      var n := |ps| - 1;
      assert forall k :: 0 <= k < n ==> ps[..n][k] == ps[k];
      SumAtMost(ps[..n], a, m);
      assert Coord(Sum(ps), a) == Coord(Sum(ps[..n]), a) + Coord(ps[n], a);
    }
  }

  /** A coordinate whose multiple by the count is the sum lies between the extents. */
  lemma AverageAtLeast(ps: seq<Vec>, a: Axis, c: real, lo: real)
    requires |ps| > 0 && Times(|ps|, c) == Coord(Sum(ps), a)
    requires forall k :: 0 <= k < |ps| ==> lo <= Coord(ps[k], a)
    ensures lo <= c
  {
    SumAtLeast(ps, a, lo);
    if c < lo {
      TimesStrict(|ps|, c, lo);
    }
  }

  lemma AverageAtMost(ps: seq<Vec>, a: Axis, c: real, hi: real)
    requires |ps| > 0 && Times(|ps|, c) == Coord(Sum(ps), a)
    requires forall k :: 0 <= k < |ps| ==> Coord(ps[k], a) <= hi
    ensures c <= hi
  {
    SumAtMost(ps, a, hi);
    if hi < c {
      TimesStrict(|ps|, hi, c);
    }
  }

  /**
   * `sum /= selectedObjs.Length`: the mean position. Each coordinate, added up
   * once per object, gives the summed coordinate, and lies between the extents.
   */
  function Mean(ps: seq<Vec>): (r: Vec)
    requires |ps| > 0
    ensures forall a :: Times(|ps|, Coord(r, a)) == Coord(Sum(ps), a)
    ensures forall a :: MinCoord(ps, a) <= Coord(r, a) <= MaxCoord(ps, a)
  {
    var r := DivBy(Sum(ps), |ps| as real);
    forall a
      ensures Times(|ps|, Coord(r, a)) == Coord(Sum(ps), a)
      ensures MinCoord(ps, a) <= Coord(r, a) <= MaxCoord(ps, a)
    {
      TimesQuotient(|ps|, Coord(r, a), Coord(Sum(ps), a));
      MinCoordIsLeast(ps, a);
      MaxCoordIsGreatest(ps, a);
      AverageAtLeast(ps, a, Coord(r, a), MinCoord(ps, a));
      AverageAtMost(ps, a, Coord(r, a), MaxCoord(ps, a));
    }
    r
  }

  /** When every object has coordinate `c` on `a`, min, max and mean there are all `c`. */
  lemma ConstantExtents(ps: seq<Vec>, a: Axis, c: real)
    requires |ps| > 0
    requires forall k :: 0 <= k < |ps| ==> Coord(ps[k], a) == c
    ensures MinCoord(ps, a) == c && MaxCoord(ps, a) == c && Coord(Mean(ps), a) == c
  {
    MinCoordIsLeast(ps, a);
    MaxCoordIsGreatest(ps, a);
    var i :| 0 <= i < |ps| && MinCoord(ps, a) == Coord(ps[i], a);
    var j :| 0 <= j < |ps| && MaxCoord(ps, a) == Coord(ps[j], a);
  }

  // ---------------------------------------------------------------------
  // ToMinimum / ToMaximum / ToMiddle
  // ---------------------------------------------------------------------

  /** `pos` with the toggled axes taken from `t`. */
  function Masked(v: Vec, mask: AxisMask, t: Vec): (r: Vec)
    ensures forall a :: Coord(r, a) == if mask.On(a) then Coord(t, a) else Coord(v, a)
  {
    Vec(if mask.alignX then t.x else v.x,
        if mask.alignY then t.y else v.y,
        if mask.alignZ then t.z else v.z)
  }

  /** Every object moved onto `t` along the toggled axes. */
  function AlignTo(ps: seq<Vec>, mask: AxisMask, t: Vec): (r: seq<Vec>)
    ensures |r| == |ps|
    ensures forall k, a :: 0 <= k < |r| ==>
      Coord(r[k], a) == if mask.On(a) then Coord(t, a) else Coord(ps[k], a)
  {
    seq(|ps|, k requires 0 <= k < |ps| => Masked(ps[k], mask, t))
  }

  // ---------------------------------------------------------------------
  // Distribute
  // ---------------------------------------------------------------------

  /** An order of the selection: each object index exactly once. */
  predicate IsOrder(order: seq<nat>, n: nat)
  {
    |order| == n && Indexes(order, n) && Distinct(order)
  }

  /** The selection order Selection.gameObjects hands over. */
  function Identity(n: nat): (r: seq<nat>)
    ensures IsOrder(r, n)
  {
    seq(n, i => i)
  }

  lemma InsertionSortIsOrder(s: seq<nat>, ps: seq<Vec>, a: Axis)
    requires IsOrder(s, |ps|)
    ensures IsOrder(InsertionSort(s, ps, a), |ps|)
  {
    var r := InsertionSort(s, ps, a);
    InsertionSortPermutation(s, ps, a);
    InsertionSortDistinct(s, ps, a);
    forall i | 0 <= i < |r|
      ensures r[i] < |ps|
    {
      assert r[i] in multiset(s);
    }
  }

  /** The position of `x` in `s`: its first occurrence. */
  function IndexOf(s: seq<nat>, x: nat): (r: nat)
    requires x in s
    ensures r < |s| && s[r] == x && x !in s[..r]
  {
    if s[0] == x then 0 else 1 + IndexOf(s[1..], x)
  }

  lemma IndexOfAt(s: seq<nat>, i: nat)
    requires Distinct(s) && i < |s|
    ensures IndexOf(s, s[i]) == i
  {
  }

  /** `(float)i / (float)(n - 1)`: how far along the line rank `i` sits. */
  function Fraction(i: nat, d: nat): (f: real)
    requires 0 < d && i <= d
    ensures 0.0 <= f <= 1.0
    ensures i == 0 <==> f == 0.0
    ensures i == d <==> f == 1.0
  {
    i as real / d as real
  }

  lemma FractionMonotone(i: nat, j: nat, d: nat)
    requires 0 < d && i <= j <= d
    ensures Fraction(i, d) <= Fraction(j, d)
    ensures i < j ==> Fraction(i, d) < Fraction(j, d)
  {
    assert Fraction(j, d) - Fraction(i, d) == (j - i) as real / d as real;
  }

  /**
   * The coordinate on `a` that the object of rank `r` in `order` receives:
   * the interpolation between the first and the last object of the order.
   */
  function Slot(ps: seq<Vec>, order: seq<nat>, a: Axis, r: nat): real
    requires Indexes(order, |ps|) && 2 <= |order| && r < |order|
  {
    Lerp(Coord(ps[order[0]], a), Coord(ps[order[|order| - 1]], a), Fraction(r, |order| - 1))
  }

  /** The slot as the loop computes it, from the positions read at the two ends. */
  lemma SlotFromEnds(ps: seq<Vec>, order: seq<nat>, a: Axis, r: nat, first: Vec, last: Vec)
    requires Indexes(order, |ps|) && 2 <= |order| && r < |order|
    requires first == ps[order[0]] && last == ps[order[|order| - 1]]
    ensures Lerp(Coord(first, a), Coord(last, a), Fraction(r, |order| - 1)) == Slot(ps, order, a, r)
  {
  }

  /** The positions once the ranks `1 .. m - 1` of `order` have been moved to their slots. */
  function SpreadBelow(ps: seq<Vec>, order: seq<nat>, a: Axis, m: nat): (r: seq<Vec>)
    requires Indexes(order, |ps|) && 2 <= |order| && m < |order|
    ensures |r| == |ps|
  {
    seq(|ps|, k requires 0 <= k < |ps| =>
      if k in order && 0 < IndexOf(order, k) < m
      then WithCoord(ps[k], a, Slot(ps, order, a, IndexOf(order, k)))
      else ps[k])
  }

  /** The `for (i = 1; i < Length - 1; ++i)` loop of one Distribute pass, over the sorted order. */
  function Spread(ps: seq<Vec>, order: seq<nat>, a: Axis): (r: seq<Vec>)
    requires Indexes(order, |ps|) && 2 <= |order|
    ensures |r| == |ps|
  {
    SpreadBelow(ps, order, a, |order| - 1)
  }

  /** Before the loop nothing has moved. */
  lemma SpreadBelowStart(ps: seq<Vec>, order: seq<nat>, a: Axis)
    requires Indexes(order, |ps|) && 2 <= |order|
    ensures SpreadBelow(ps, order, a, 1) == ps
  {
  }

  /** One more iteration of the loop: rank `m` moves to its slot, nothing else changes. */
  lemma SpreadBelowStep(ps: seq<Vec>, order: seq<nat>, a: Axis, m: nat)
    requires IsOrder(order, |ps|) && 2 <= |order| && 0 < m < |order| - 1
    ensures SpreadBelow(ps, order, a, m)[order[m]] == ps[order[m]]
    ensures SpreadBelow(ps, order, a, m + 1)
         == SpreadBelow(ps, order, a, m)[order[m] := WithCoord(ps[order[m]], a, Slot(ps, order, a, m))]
  {
    IndexOfAt(order, m);
    var u, v := SpreadBelow(ps, order, a, m + 1), SpreadBelow(ps, order, a, m);
    forall k | 0 <= k < |ps| && k != order[m]
      ensures u[k] == v[k]
    {
      if k in order {
        assert IndexOf(order, k) != m;
      }
    }
  }

  /** The first and the last object of the order keep their positions. */
  lemma SpreadKeepsEnds(ps: seq<Vec>, order: seq<nat>, a: Axis)
    requires IsOrder(order, |ps|) && 2 <= |order|
    ensures Spread(ps, order, a)[order[0]] == ps[order[0]]
    ensures Spread(ps, order, a)[order[|order| - 1]] == ps[order[|order| - 1]]
  {
    IndexOfAt(order, 0);
    IndexOfAt(order, |order| - 1);
  }

  /**
   * An interior object of rank `i` gets coordinate
   * Lerp(first, last, i / (n - 1)) on `a` and keeps its other coordinates.
   */
  lemma SpreadInterior(ps: seq<Vec>, order: seq<nat>, a: Axis, i: nat)
    requires IsOrder(order, |ps|) && 2 <= |order| && 0 < i < |order| - 1
    ensures var r := Spread(ps, order, a)[order[i]];
      && Coord(r, a) == Lerp(Coord(ps[order[0]], a), Coord(ps[order[|order| - 1]], a), Fraction(i, |order| - 1))
      && forall b :: b != a ==> Coord(r, b) == Coord(ps[order[i]], b)
  {
    IndexOfAt(order, i);
  }

  /** A pass changes no coordinate off its own axis. */
  lemma SpreadOtherAxes(ps: seq<Vec>, order: seq<nat>, a: Axis, b: Axis, k: nat)
    requires IsOrder(order, |ps|) && 2 <= |order| && k < |ps| && b != a
    ensures Coord(Spread(ps, order, a)[k], b) == Coord(ps[k], b)
  {
  }

  /** Every rank, ends included, gets Lerp(first, last, rank / (n - 1)) on `a`. */
  lemma SpreadAt(ps: seq<Vec>, order: seq<nat>, a: Axis, i: nat)
    requires IsOrder(order, |ps|) && 2 <= |order| && i < |order|
    ensures Coord(Spread(ps, order, a)[order[i]], a)
      == Lerp(Coord(ps[order[0]], a), Coord(ps[order[|order| - 1]], a), Fraction(i, |order| - 1))
  {
    if 0 < i < |order| - 1 {
      SpreadInterior(ps, order, a, i);
    } else {
      SpreadKeepsEnds(ps, order, a);
    }
  }

  /** The coordinate on `a` of every rank after a pass, read through `Key`. */
  lemma SpreadKeys(ps: seq<Vec>, order: seq<nat>, a: Axis)
    requires IsOrder(order, |ps|) && 2 <= |order|
    ensures var r, n := Spread(ps, order, a), |order|;
      forall i :: 0 <= i < n ==>
        Key(r, a, order[i]) == Lerp(Coord(ps[order[0]], a), Coord(ps[order[n - 1]], a), Fraction(i, n - 1))
  {
    forall i | 0 <= i < |order|
      ensures Key(Spread(ps, order, a), a, order[i])
        == Lerp(Coord(ps[order[0]], a), Coord(ps[order[|order| - 1]], a), Fraction(i, |order| - 1))
    {
      SpreadAt(ps, order, a, i);
    }
  }

  /** Along an order sorted on `a`, the new coordinates stay sorted and within the two ends. */
  lemma SpreadOrdered(ps: seq<Vec>, order: seq<nat>, a: Axis)
    requires IsOrder(order, |ps|) && 2 <= |order| && SortedBy(order, ps, a)
    ensures var r, n := Spread(ps, order, a), |order|;
      && SortedBy(order, r, a)
      && forall i :: 0 <= i < n ==>
           Coord(ps[order[0]], a) <= Key(r, a, order[i]) <= Coord(ps[order[n - 1]], a)
  {
    var r, n := Spread(ps, order, a), |order|;
    var lo, hi := Coord(ps[order[0]], a), Coord(ps[order[n - 1]], a);
    assert lo <= hi by {
      assert Key(ps, a, order[0]) <= Key(ps, a, order[n - 1]);
    }
    SpreadKeys(ps, order, a);
    forall i, j | 0 <= i < j < n
      ensures Key(r, a, order[i]) <= Key(r, a, order[j])
    {
      FractionMonotone(i, j, n - 1);
      LerpMonotone(lo, hi, Fraction(i, n - 1), Fraction(j, n - 1));
    }
  }

  /**
   * The new coordinates strictly increase along the order exactly when the
   * first object lies strictly below the last one on `a`; otherwise two
   * ranks share a coordinate.
   */
  lemma SpreadStrict(ps: seq<Vec>, order: seq<nat>, a: Axis)
    requires IsOrder(order, |ps|) && 2 <= |order|
    ensures var r, n := Spread(ps, order, a), |order|;
      (forall i, j :: 0 <= i < j < n ==> Key(r, a, order[i]) < Key(r, a, order[j]))
        <==> Coord(ps[order[0]], a) < Coord(ps[order[n - 1]], a)
  {
    var r, n := Spread(ps, order, a), |order|;
    var lo, hi := Coord(ps[order[0]], a), Coord(ps[order[n - 1]], a);
    SpreadKeys(ps, order, a);
    if lo < hi {
      forall i, j | 0 <= i < j < n
        ensures Key(r, a, order[i]) < Key(r, a, order[j])
      {
        FractionMonotone(i, j, n - 1);
        LerpMonotone(lo, hi, Fraction(i, n - 1), Fraction(j, n - 1));
      }
    } else {
      assert Key(r, a, order[0]) == lo && Key(r, a, order[n - 1]) == hi;
    }
  }

  /** With two objects there is no interior: a pass moves nothing. */
  lemma SpreadPair(ps: seq<Vec>, order: seq<nat>, a: Axis)
    requires IsOrder(order, |ps|) && |order| == 2
    ensures Spread(ps, order, a) == ps
  {
  }

  /** The positions together with the order the last Sort left them in. */
  datatype Arrangement = Arrangement(ps: seq<Vec>, order: seq<nat>)
  {
    predicate Valid()
    {
      2 <= |ps| && IsOrder(order, |ps|)
    }
  }

  /**
   * One Distribute pass on axis `a`: the order is re-sorted on `a`, then the
   * interior objects are spread. The new order is a permutation of the old,
   * sorted on `a` by the new positions too, and the other axes are untouched.
   */
  function Pass(st: Arrangement, a: Axis): (r: Arrangement)
    requires st.Valid()
    ensures r.Valid() && |r.ps| == |st.ps|
    ensures multiset(r.order) == multiset(st.order)
    ensures SortedBy(r.order, r.ps, a)
    ensures forall k, b :: 0 <= k < |st.ps| && b != a ==> Coord(r.ps[k], b) == Coord(st.ps[k], b)
  {
    var sorted := InsertionSort(st.order, st.ps, a);
    InsertionSortIsOrder(st.order, st.ps, a);
    InsertionSortPermutation(st.order, st.ps, a);
    InsertionSortSorted(st.order, st.ps, a);
    SpreadOrdered(st.ps, sorted, a);
    var r := Arrangement(Spread(st.ps, sorted, a), sorted);
    assert forall k, b :: 0 <= k < |st.ps| && b != a ==> Coord(r.ps[k], b) == Coord(st.ps[k], b) by {
      forall k, b | 0 <= k < |st.ps| && b != a {
        SpreadOtherAxes(st.ps, sorted, a, b, k);
      }
    }
    r
  }

  /** The positions a pass leaves are those of Spread along its re-sorted order. */
  lemma PassSpreads(st: Arrangement, a: Axis)
    requires st.Valid()
    ensures IsOrder(InsertionSort(st.order, st.ps, a), |st.ps|)
    ensures Pass(st, a).ps == Spread(st.ps, InsertionSort(st.order, st.ps, a), a)
  {
    InsertionSortIsOrder(st.order, st.ps, a);
  }

  /** After a pass, rank `i` of its order sits at Lerp(first, last, i / (n - 1)) on `a`. */
  lemma PassRank(st: Arrangement, a: Axis, i: nat)
    requires st.Valid() && i < |st.ps|
    ensures var order, n := InsertionSort(st.order, st.ps, a), |st.ps|;
      && IsOrder(order, n)
      && Coord(Pass(st, a).ps[order[i]], a)
           == Lerp(Coord(st.ps[order[0]], a), Coord(st.ps[order[n - 1]], a), Fraction(i, n - 1))
  {
    PassSpreads(st, a);
    SpreadAt(st.ps, InsertionSort(st.order, st.ps, a), a, i);
  }

  /** `if (alignA) { ... }`: a pass on `a` only when that axis is toggled on. */
  function PassIf(st: Arrangement, on: bool, a: Axis): (r: Arrangement)
    requires st.Valid()
    ensures r.Valid() && |r.ps| == |st.ps|
    ensures forall k, b :: 0 <= k < |st.ps| && b != a ==> Coord(r.ps[k], b) == Coord(st.ps[k], b)
    ensures !on ==> r == st
  {
    if on then Pass(st, a) else st
  }

  /**
   * Distribute: passes on X, then Y, then Z, each starting from the order
   * the previous one left, the first from the selection order. No unmasked
   * coordinate changes.
   */
  function Distributed(ps: seq<Vec>, mask: AxisMask): (r: seq<Vec>)
    requires 2 <= |ps|
    ensures |r| == |ps|
    ensures forall k, b :: 0 <= k < |ps| && !mask.On(b) ==> Coord(r[k], b) == Coord(ps[k], b)
  {
    var s0 := Arrangement(ps, Identity(|ps|));
    var s1 := PassIf(s0, mask.alignX, X);
    var s2 := PassIf(s1, mask.alignY, Y);
    var s3 := PassIf(s2, mask.alignZ, Z);
    s3.ps
  }

  /**
   * The arrangement the pass on `a` starts from: the positions and the order
   * left by the passes on the axes before `a`.
   */
  function Before(ps: seq<Vec>, mask: AxisMask, a: Axis): (r: Arrangement)
    requires 2 <= |ps|
    ensures r.Valid() && |r.ps| == |ps|
    ensures a == X ==> r == Arrangement(ps, Identity(|ps|))
  {
    var s0 := Arrangement(ps, Identity(|ps|));
    match a
    case X => s0
    case Y => PassIf(s0, mask.alignX, X)
    case Z => PassIf(PassIf(s0, mask.alignX, X), mask.alignY, Y)
  }

  /**
   * On a toggled axis, Distribute leaves each coordinate where the pass on
   * that axis put it: the later passes do not touch it.
   */
  lemma DistributedOnAxis(ps: seq<Vec>, mask: AxisMask, a: Axis, k: nat)
    requires 2 <= |ps| && mask.On(a) && k < |ps|
    ensures Coord(Distributed(ps, mask)[k], a) == Coord(Pass(Before(ps, mask, a), a).ps[k], a)
  {
  }

  /** With exactly two objects, Distribute leaves every position where it was. */
  lemma DistributedPair(ps: seq<Vec>, mask: AxisMask)
    requires |ps| == 2
    ensures Distributed(ps, mask) == ps
  {
    var s0 := Arrangement(ps, Identity(|ps|));
    var s1 := PassIf(s0, mask.alignX, X);
    var s2 := PassIf(s1, mask.alignY, Y);
    var s3 := PassIf(s2, mask.alignZ, Z);
    if mask.alignX {
      SpreadPair(ps, InsertionSort(s0.order, ps, X), X);
    }
    if mask.alignY {
      SpreadPair(s1.ps, InsertionSort(s1.order, s1.ps, Y), Y);
    }
    if mask.alignZ {
      SpreadPair(s2.ps, InsertionSort(s2.order, s2.ps, Z), Z);
    }
  }

  // ---------------------------------------------------------------------
  // HandleAction
  // ---------------------------------------------------------------------

  /**
   * `targetPos` after the switch: the minimum, the maximum or the mean; for
   * the other actions it keeps its first value, the first object's position.
   */
  function Target(ps: seq<Vec>, action: AlignAction): (r: Vec)
    requires |ps| > 0
    ensures action in {ToMinimum, ToMaximum, ToMiddle} ==>
      forall a :: MinCoord(ps, a) <= Coord(r, a) <= MaxCoord(ps, a)
  {
    ExtentsOrdered(ps);
    match action
    case ToMinimum => Minimum(ps)
    case ToMaximum => Maximum(ps)
    case ToMiddle => Mean(ps)
    case _ => ps[0]
  }

  /**
   * The positions after HandleAction(action). Nothing moves for None or a
   * selection of at most one object (an empty one ends in an error before
   * anything moves), and an unmasked coordinate never changes.
   */
  function Handled(ps: seq<Vec>, mask: AxisMask, action: AlignAction): (r: seq<Vec>)
    ensures |r| == |ps|
    ensures forall k, b :: 0 <= k < |ps| && !mask.On(b) ==> Coord(r[k], b) == Coord(ps[k], b)
  {
    if action == None || |ps| <= 1 then ps
    else if action == Distribute then Distributed(ps, mask)
    else AlignTo(ps, mask, Target(ps, action))
  }

  /** None, and any action on a selection of one object, change nothing. */
  lemma HandledNoOp(ps: seq<Vec>, mask: AxisMask, action: AlignAction)
    requires action == None || |ps| <= 1
    ensures Handled(ps, mask, action) == ps
  {
  }

  /**
   * The three align buttons put every object on the minimum, the maximum or
   * the mean of the selection along each toggled axis.
   */
  lemma HandledAligns(ps: seq<Vec>, mask: AxisMask, action: AlignAction, k: nat, a: Axis)
    requires 2 <= |ps| && k < |ps| && mask.On(a)
    requires action in {ToMinimum, ToMaximum, ToMiddle}
    ensures var c := Coord(Handled(ps, mask, action)[k], a);
      && (action == ToMinimum ==> c == MinCoord(ps, a))
      && (action == ToMaximum ==> c == MaxCoord(ps, a))
      && (action == ToMiddle ==> c == Coord(Mean(ps), a))
  {
  }

  lemma VecByCoords(u: Vec, v: Vec)
    requires Coord(u, X) == Coord(v, X) && Coord(u, Y) == Coord(v, Y) && Coord(u, Z) == Coord(v, Z)
    ensures u == v
  {
  }

  /** Along a toggled axis, an aligned selection has min, max and mean all on the target. */
  lemma AlignedExtents(ps: seq<Vec>, mask: AxisMask, t: Vec, a: Axis)
    requires |ps| > 0 && mask.On(a)
    ensures var r := AlignTo(ps, mask, t);
      MinCoord(r, a) == Coord(t, a) && MaxCoord(r, a) == Coord(t, a) && Coord(Mean(r), a) == Coord(t, a)
  {
    ConstantExtents(AlignTo(ps, mask, t), a, Coord(t, a));
  }

  /** Aligning again onto a target that agrees on the toggled axes changes nothing. */
  lemma RealignSame(ps: seq<Vec>, mask: AxisMask, t: Vec, t': Vec)
    requires forall a :: mask.On(a) ==> Coord(t', a) == Coord(t, a)
    ensures AlignTo(AlignTo(ps, mask, t), mask, t') == AlignTo(ps, mask, t)
  {
    var r := AlignTo(ps, mask, t);
    var r2 := AlignTo(r, mask, t');
    forall k | 0 <= k < |r|
      ensures r2[k] == r[k]
    {
      VecByCoords(r2[k], r[k]);
    }
  }

  /** The target of an aligned selection agrees with the original target on the toggled axes. */
  lemma RealignedTarget(ps: seq<Vec>, mask: AxisMask, action: AlignAction, a: Axis)
    requires |ps| > 0 && mask.On(a) && action in {ToMinimum, ToMaximum, ToMiddle}
    ensures Coord(Target(AlignTo(ps, mask, Target(ps, action)), action), a) == Coord(Target(ps, action), a)
  {
    AlignedExtents(ps, mask, Target(ps, action), a);
  }

  /** Pressing an align button twice is the same as pressing it once. */
  lemma HandledAlignIdempotent(ps: seq<Vec>, mask: AxisMask, action: AlignAction)
    requires action in {ToMinimum, ToMaximum, ToMiddle}
    ensures Handled(Handled(ps, mask, action), mask, action) == Handled(ps, mask, action)
  {
    if 2 <= |ps| {
      var t := Target(ps, action);
      var r := AlignTo(ps, mask, t);
      forall a | mask.On(a)
        ensures Coord(Target(r, action), a) == Coord(t, a)
      {
        RealignedTarget(ps, mask, action, a);
      }
      RealignSame(ps, mask, t, Target(r, action));
    }
  }
}
