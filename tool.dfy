/**
 * The editor window itself: its three axis toggles and HandleAction, which
 * moves the selected objects in place. The selection is handed in as the
 * array of the selected objects' local positions, in selection order; each
 * element stands for one object's transform.
 */
module AlignmentTool {
  import opened Vectors
  import opened Sorting
  import opened Alignment

  /**
   * The foreach loop of HandleAction: `min` and `max` start at the first
   * position and are lowered or raised axis by axis, `sum` starts at zero;
   * the mean is the sum divided by the count.
   */
  method Bounds(ps: array<Vec>) returns (min: Vec, max: Vec, mean: Vec)
    requires ps.Length > 0
    ensures min == Minimum(ps[..]) && max == Maximum(ps[..]) && mean == Mean(ps[..])
  {
    ghost var s := ps[..];
    min := ps[0];
    max := min;
    var sum := Zero;
    var i := 0;
    while i < ps.Length
      invariant 0 <= i <= ps.Length
      invariant i == 0 ==> min == max == s[0]
      invariant 0 < i ==> min == Minimum(s[..i]) && max == Maximum(s[..i])
      invariant sum == Sum(s[..i])
    {
      var pos := ps[i];
      if 0 < i {
        ExtentsStep(s, i);
      } else {
        ExtentsFirst(s);
      }
      assert s[..i + 1][..i] == s[..i];
      sum := Add(sum, pos);
      if pos.x < min.x { min := min.(x := pos.x); }
      if pos.y < min.y { min := min.(y := pos.y); }
      if pos.z < min.z { min := min.(z := pos.z); }
      assert min == Minimum(s[..i + 1]);
      if pos.x > max.x { max := max.(x := pos.x); }
      if pos.y > max.y { max := max.(y := pos.y); }
      if pos.z > max.z { max := max.(z := pos.z); }
      assert max == Maximum(s[..i + 1]);
      i := i + 1;
    }
    assert s[..ps.Length] == s;
    mean := DivBy(sum, ps.Length as real);
  }

  /**
   * One `if (alignA) { ... }` block of Distribute: re-sort the current order
   * on `a`, then spread the interior objects along it.
   */
  method DistributePass(positions: array<Vec>, order: seq<nat>, a: Axis) returns (sorted: seq<nat>)
    requires 2 <= positions.Length && IsOrder(order, positions.Length)
    modifies positions
    ensures Arrangement(positions[..], sorted) == Pass(Arrangement(old(positions[..]), order), a)
  {
    sorted := Sort(order, positions[..], a);
    InsertionSortIsOrder(order, positions[..], a);
    SpreadAlong(positions, sorted, a);
  }

  /**
   * The `for (i = 1; i < Length - 1; ++i)` loop of a Distribute block: read
   * the first and the last object of `sorted`, then move every interior
   * object to its interpolated coordinate on `a`, keeping its other two.
   */
  method SpreadAlong(positions: array<Vec>, sorted: seq<nat>, a: Axis)
    requires 2 <= positions.Length && IsOrder(sorted, positions.Length)
    modifies positions
    ensures positions[..] == Spread(old(positions[..]), sorted, a)
  {
    ghost var ps := positions[..];
    var n := |sorted|;
    var min := positions[sorted[0]];
    var max := positions[sorted[n - 1]];
    SpreadBelowStart(ps, sorted, a);
    var i := 1;
    while i < n - 1
      invariant 1 <= i <= n - 1
      invariant min == ps[sorted[0]] && max == ps[sorted[n - 1]]
      invariant positions[..] == SpreadBelow(ps, sorted, a, i)
    {
      SpreadBelowStep(ps, sorted, a, i);
      ghost var before := positions[..];
      var iPos := positions[sorted[i]];
      assert iPos == ps[sorted[i]];
      var c := Lerp(Coord(min, a), Coord(max, a), Fraction(i, n - 1));
      SlotFromEnds(ps, sorted, a, i, min, max);
      var moved := WithCoord(iPos, a, c);
      positions[sorted[i]] := moved;
      assert positions[..] == before[sorted[i] := moved];
      i := i + 1;
    }
  }

  class ObjectAlignment {
    var alignX: bool
    var alignY: bool
    var alignZ: bool

    /** A new window has all three axes toggled on. */
    constructor ()
      ensures alignX && alignY && alignZ
    {
      alignX, alignY, alignZ := true, true, true;
    }

    function Mask(): AxisMask
      reads this
    {
      AxisMask(alignX, alignY, alignZ)
    }

    /**
     * The Distribute branch: a pass on X, then on Y, then on Z, each for a
     * toggled axis only, each starting from the order the previous one left
     * and the first from the selection order.
     */
    method DistributeAll(positions: array<Vec>)
      requires 2 <= positions.Length
      modifies positions
      ensures positions[..] == Distributed(old(positions[..]), Mask())
    {
      var selected := Identity(positions.Length);
      ghost var st := Arrangement(positions[..], selected);
      if alignX {
        selected := DistributePass(positions, selected, X);
      }
      st := PassIf(st, alignX, X);
      assert st == Arrangement(positions[..], selected);
      if alignY {
        selected := DistributePass(positions, selected, Y);
      }
      st := PassIf(st, alignY, Y);
      assert st == Arrangement(positions[..], selected);
      if alignZ {
        selected := DistributePass(positions, selected, Z);
      }
      st := PassIf(st, alignZ, Z);
    }

    /** The align branch: every object's toggled coordinates are set to the target's. */
    method AlignAll(positions: array<Vec>, targetPos: Vec)
      modifies positions
      ensures positions[..] == AlignTo(old(positions[..]), Mask(), targetPos)
    {
      ghost var ps := positions[..];
      ghost var mask := Mask();
      for i := 0 to positions.Length
        invariant forall k :: 0 <= k < i ==> positions[k] == Masked(ps[k], mask, targetPos)
        invariant forall k :: i <= k < positions.Length ==> positions[k] == ps[k]
      {
        var pos := positions[i];
        if alignX { pos := pos.(x := targetPos.x); }
        if alignY { pos := pos.(y := targetPos.y); }
        if alignZ { pos := pos.(z := targetPos.z); }
        assert pos == Masked(ps[i], mask, targetPos);
        positions[i] := pos;
      }
      assert positions[..] == AlignTo(ps, mask, targetPos);
    }

    /**
     * HandleAction(action) on the selection whose positions are `positions`.
     * An empty selection with an action other than None fails at the read
     * of the first object, before anything moves.
     */
    method HandleAction(action: AlignAction, positions: array<Vec>) returns (outcome: Outcome)
      modifies positions
      ensures outcome == if action != None && positions.Length == 0 then IndexOutOfRange else Completed
      ensures positions[..] == Handled(old(positions[..]), Mask(), action)
    {
      var n := positions.Length;
      if action == None || n == 1 {
        return Completed;
      }
      if n == 0 {
        return IndexOutOfRange;
      }
      ghost var ps := positions[..];
      var min, max, mean := Bounds(positions);
      var targetPos := positions[0];
      match action {
        case ToMinimum => targetPos := min;
        case ToMaximum => targetPos := max;
        case ToMiddle => targetPos := mean;
        case Distribute =>
      }
      assert action != Distribute ==> targetPos == Target(ps, action);
      if action == Distribute {
        DistributeAll(positions);
      } else {
        AlignAll(positions, targetPos);
      }
      return Completed;
    }
  }
}
