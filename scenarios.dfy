/**
 * Worked selections: what HandleAction does to a few concrete sets of
 * positions, with the X toggle on and Y, Z off.
 */
module Scenarios {
  import opened Vectors
  import opened Sorting
  import opened Alignment

  const OnlyX := AxisMask(true, false, false)

  function Row(): seq<Vec>
  {
    [Vec(0.0, 0.0, 0.0), Vec(5.0, 0.0, 0.0), Vec(10.0, 0.0, 0.0)]
  }

  /** Three objects on the X axis, aligned to the minimum, all go to x = 0. */
  lemma RowToMinimum()
    ensures Handled(Row(), OnlyX, ToMinimum) == [Zero, Zero, Zero]
  {
    var ps := Row();
    assert MinCoord(ps, X) == 0.0 by {
      assert ps[..2][..1] == [ps[0]];
    }
    var r := Handled(ps, OnlyX, ToMinimum);
    forall k | 0 <= k < 3
      ensures r[k] == Zero
    {
      VecByCoords(r[k], Zero);
    }
  }

  /** The same objects aligned to the middle all go to x = 5. */
  lemma RowToMiddle()
    ensures Handled(Row(), OnlyX, ToMiddle) == [Vec(5.0, 0.0, 0.0), Vec(5.0, 0.0, 0.0), Vec(5.0, 0.0, 0.0)]
  {
    var ps := Row();
    assert Sum(ps) == Vec(15.0, 0.0, 0.0) by {
      assert ps[..2][..1] == [ps[0]];
      assert ps[..2] == [ps[0], ps[1]];
      assert Sum([ps[0]]) == ps[0] by {
        assert [ps[0]][..0] == [];
      }
      assert Sum(ps[..2]) == Vec(5.0, 0.0, 0.0);
    }
    var t := Vec(5.0, 0.0, 0.0);
    assert Coord(Mean(ps), X) == 5.0;
    var r := Handled(ps, OnlyX, ToMiddle);
    forall k | 0 <= k < 3
      ensures r[k] == t
    {
      VecByCoords(r[k], t);
    }
  }

  function Scattered(): seq<Vec>
  {
    [Vec(0.0, 0.0, 0.0), Vec(10.0, 0.0, 0.0), Vec(2.0, 0.0, 0.0), Vec(8.0, 0.0, 0.0)]
  }

  /** Sorting the selection order of Scattered on X gives x = 0, 2, 8, 10. */
  lemma ScatteredSorted()
    ensures InsertionSort(Identity(4), Scattered(), X) == [0, 2, 3, 1]
  {
    var ps, s := Scattered(), [0, 1, 2, 3];
    assert Identity(4) == s;
    assert InsertionPoint([], ps, X, 0.0) == 0;
    assert Placed(s, ps, X, 1) == [0];
    assert InsertionPoint([0], ps, X, 10.0) == 1 by {
      assert [0][1..] == [];
    }
    assert Placed(s, ps, X, 2) == [0, 1];
    assert InsertionPoint([0, 1], ps, X, 2.0) == 1 by {
      assert [0, 1][1..] == [1];
    }
    assert Placed(s, ps, X, 3) == [0, 2, 1];
    assert InsertionPoint([0, 2, 1], ps, X, 8.0) == 2 by {
      assert [0, 2, 1][1..] == [2, 1];
      assert [2, 1][1..] == [1];
    }
  }

  /** With only X toggled, Distribute is a single pass: sort the selection on X, then spread. */
  lemma OnlyXOnePass(ps: seq<Vec>)
    requires 2 <= |ps|
    ensures IsOrder(InsertionSort(Identity(|ps|), ps, X), |ps|)
    ensures Handled(ps, OnlyX, Distribute) == Spread(ps, InsertionSort(Identity(|ps|), ps, X), X)
  {
    InsertionSortIsOrder(Identity(|ps|), ps, X);
    var s0 := Arrangement(ps, Identity(|ps|));
    assert Handled(ps, OnlyX, Distribute) == PassIf(s0, true, X).ps;
  }

  lemma ScatteredOnePass()
    ensures Handled(Scattered(), OnlyX, Distribute) == Spread(Scattered(), [0, 2, 3, 1], X)
  {
    OnlyXOnePass(Scattered());
    ScatteredSorted();
  }

  lemma ScatteredOrder()
    ensures IsOrder([0, 2, 3, 1], |Scattered()|)
  {
  }

  /** The interior objects of the sorted order land a third and two thirds of the way. */
  lemma ScatteredSpread()
    ensures Spread(Scattered(), [0, 2, 3, 1], X)
         == [Vec(0.0, 0.0, 0.0), Vec(10.0, 0.0, 0.0), Vec(10.0 / 3.0, 0.0, 0.0), Vec(20.0 / 3.0, 0.0, 0.0)]
  {
    var ps, order := Scattered(), [0, 2, 3, 1];
    ScatteredOrder();
    var r := Spread(ps, order, X);
    SpreadKeepsEnds(ps, order, X);
    SpreadInterior(ps, order, X, 1);
    SpreadInterior(ps, order, X, 2);
    assert Coord(ps[order[0]], X) == 0.0 && Coord(ps[order[3]], X) == 10.0;
    assert Fraction(1, 3) == 1.0 / 3.0 && Fraction(2, 3) == 2.0 / 3.0;
    assert Lerp(0.0, 10.0, 1.0 / 3.0) == 10.0 / 3.0;
    assert Lerp(0.0, 10.0, 2.0 / 3.0) == 20.0 / 3.0;
    var want := [Vec(0.0, 0.0, 0.0), Vec(10.0, 0.0, 0.0), Vec(10.0 / 3.0, 0.0, 0.0), Vec(20.0 / 3.0, 0.0, 0.0)];
    VecByCoords(r[2], want[2]);
    VecByCoords(r[3], want[3]);
    assert r[0] == want[0] && r[1] == want[1];
    assert forall i :: 0 <= i < 4 ==> r[i] == want[i];
  }

  /**
   * Distributing Scattered on X keeps the objects at x = 0 and x = 10 and
   * moves the other two to a third and two thirds of the way.
   */
  lemma ScatteredDistribute()
    ensures Handled(Scattered(), OnlyX, Distribute)
         == [Vec(0.0, 0.0, 0.0), Vec(10.0, 0.0, 0.0), Vec(10.0 / 3.0, 0.0, 0.0), Vec(20.0 / 3.0, 0.0, 0.0)]
  {
    ScatteredOnePass();
    ScatteredSpread();
  }

  /**
   * Two objects tied on Y, at x = 2 and x = 1, and one below them. The Y pass
   * sorts the order the X pass left, and the sort keeps ties in that order,
   * so toggling X as well changes which tied object ends the Y order.
   */
  function Tied(): seq<Vec>
  {
    [Vec(0.0, 0.0, 0.0), Vec(2.0, 5.0, 0.0), Vec(1.0, 5.0, 0.0)]
  }

  const OnlyY := AxisMask(false, true, false)
  const XAndY := AxisMask(true, true, false)

  /** The selection order sorts on X into 0, 2, 1. */
  lemma TiedSortedX()
    ensures InsertionSort(Identity(3), Tied(), X) == [0, 2, 1]
  {
    var ps, s := Tied(), [0, 1, 2];
    assert Identity(3) == s;
    assert Placed(s, ps, X, 1) == [0];
    assert InsertionPoint([0], ps, X, 2.0) == 1 by {
      assert [0][1..] == [];
    }
    assert Placed(s, ps, X, 2) == [0, 1];
    assert InsertionPoint([0, 1], ps, X, 1.0) == 1 by {
      assert [0, 1][1..] == [1];
    }
  }

  /** Objects 1 and 2 tie on Y, so sorting on Y keeps whichever order it is given. */
  lemma TiedSortedY()
    ensures InsertionSort(Identity(3), Tied(), Y) == [0, 1, 2]
    ensures InsertionSort([0, 2, 1], Tied(), Y) == [0, 2, 1]
  {
    var ps, s, t := Tied(), [0, 1, 2], [0, 2, 1];
    assert Identity(3) == s;
    assert Placed(s, ps, Y, 1) == [0];
    assert InsertionPoint([0], ps, Y, 5.0) == 1 by {
      assert [0][1..] == [];
    }
    assert Placed(s, ps, Y, 2) == [0, 1];
    assert InsertionPoint([0, 1], ps, Y, 5.0) == 2 by {
      assert [0, 1][1..] == [1];
      assert [1][1..] == [];
    }
    assert Placed(t, ps, Y, 1) == [0];
    assert InsertionPoint([0], ps, Y, 5.0) == 1 by {
      assert [0][1..] == [];
    }
    assert Placed(t, ps, Y, 2) == [0, 2];
    assert InsertionPoint([0, 2], ps, Y, 5.0) == 2 by {
      assert [0, 2][1..] == [2];
      assert [2][1..] == [];
    }
  }

  /** Object 2 already sits halfway between x = 0 and x = 2: the X spread moves nothing. */
  lemma TiedSpreadX()
    ensures Spread(Tied(), [0, 2, 1], X) == Tied()
  {
    var ps, order := Tied(), [0, 2, 1];
    var r := Spread(ps, order, X);
    SpreadKeepsEnds(ps, order, X);
    SpreadInterior(ps, order, X, 1);
    assert Fraction(1, 2) == 0.5;
    VecByCoords(r[2], ps[2]);
    assert forall i :: 0 <= i < 3 ==> r[i] == ps[i];
  }

  /** Spreading on Y moves the middle object of the order to y = 2.5. */
  lemma TiedSpreadY(order: seq<nat>, m: nat, e: nat)
    requires order == [0, m, e] && {m, e} == {1, 2}
    ensures Spread(Tied(), order, Y) == Tied()[m := Tied()[m].(y := 2.5)]
  {
    var ps := Tied();
    assert IsOrder(order, 3);
    var r, want := Spread(ps, order, Y), ps[m := ps[m].(y := 2.5)];
    SpreadKeepsEnds(ps, order, Y);
    SpreadInterior(ps, order, Y, 1);
    assert Fraction(1, 2) == 0.5;
    VecByCoords(r[m], want[m]);
    assert forall i :: 0 <= i < 3 ==> r[i] == want[i];
  }

  /** A pass whose sort gives `order` leaves that order and Spread along it. */
  lemma PassAlong(st: Arrangement, a: Axis, order: seq<nat>)
    requires st.Valid() && InsertionSort(st.order, st.ps, a) == order
    ensures IsOrder(order, |st.ps|)
    ensures Pass(st, a) == Arrangement(Spread(st.ps, order, a), order)
  {
    InsertionSortIsOrder(st.order, st.ps, a);
  }

  /** With Y alone toggled, Distribute is the Y pass from the selection order. */
  lemma OnlyYOnePass(ps: seq<Vec>)
    requires 2 <= |ps|
    ensures Handled(ps, OnlyY, Distribute) == Pass(Arrangement(ps, Identity(|ps|)), Y).ps
  {
    var s0 := Arrangement(ps, Identity(|ps|));
    assert Distributed(ps, OnlyY) == PassIf(PassIf(s0, false, X), true, Y).ps;
  }

  /** With X and Y toggled, Distribute is the Y pass from what the X pass left. */
  lemma XAndYTwoPasses(ps: seq<Vec>)
    requires 2 <= |ps|
    ensures var s0 := Arrangement(ps, Identity(|ps|));
      Handled(ps, XAndY, Distribute) == Pass(Pass(s0, X), Y).ps
  {
    var s0 := Arrangement(ps, Identity(|ps|));
    assert Distributed(ps, XAndY) == PassIf(PassIf(s0, true, X), true, Y).ps;
  }

  /** With Y alone toggled, the sort on Y keeps selection order and object 1 is spread. */
  lemma TiedOnlyY()
    ensures Handled(Tied(), OnlyY, Distribute)
         == [Vec(0.0, 0.0, 0.0), Vec(2.0, 2.5, 0.0), Vec(1.0, 5.0, 0.0)]
  {
    var ps := Tied();
    calc {
      Handled(ps, OnlyY, Distribute);
    == { OnlyYOnePass(ps); }
      Pass(Arrangement(ps, Identity(3)), Y).ps;
    == { TiedSortedY(); PassAlong(Arrangement(ps, Identity(3)), Y, [0, 1, 2]); }
      Spread(ps, [0, 1, 2], Y);
    == { TiedSpreadY([0, 1, 2], 1, 2); }
      ps[1 := ps[1].(y := 2.5)];
    }
  }

  /** With X toggled too, the Y pass starts from 0, 2, 1 and object 2 is spread instead. */
  lemma TiedXAndY()
    ensures Handled(Tied(), XAndY, Distribute)
         == [Vec(0.0, 0.0, 0.0), Vec(2.0, 5.0, 0.0), Vec(1.0, 2.5, 0.0)]
  {
    var ps := Tied();
    var s0, s1 := Arrangement(ps, Identity(3)), Arrangement(ps, [0, 2, 1]);
    calc {
      Handled(ps, XAndY, Distribute);
    == { XAndYTwoPasses(ps); }
      Pass(Pass(s0, X), Y).ps;
    == { TiedSortedX(); TiedSpreadX(); PassAlong(s0, X, [0, 2, 1]); }
      Pass(s1, Y).ps;
    == { TiedSortedY(); PassAlong(s1, Y, [0, 2, 1]); }
      Spread(ps, [0, 2, 1], Y);
    == { TiedSpreadY([0, 2, 1], 2, 1); }
      ps[2 := ps[2].(y := 2.5)];
    }
  }

  /** Distributing two objects moves neither. */
  lemma PairDistribute(u: Vec, v: Vec, mask: AxisMask)
    ensures Handled([u, v], mask, Distribute) == [u, v]
  {
    DistributedPair([u, v], mask);
  }
}
