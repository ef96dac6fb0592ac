/**
 * The alignment window's `Sort`: a stable insertion sort of the selected
 * objects by one coordinate of their positions. An object is an index into
 * the sequence `ps` of positions.
 */
module Sorting {
  import opened Vectors

  /** Every object names a position in `ps`. */
  predicate Indexes(s: seq<nat>, n: nat)
  {
    forall i :: 0 <= i < |s| ==> s[i] < n
  }

  predicate Distinct(s: seq<nat>)
  {
    forall i, j :: 0 <= i < j < |s| ==> s[i] != s[j]
  }

  /**
   * The sort key of object `o`: its coordinate on axis `a`. Objects are always
   * given with a position; the `0.0` for an object without one is never read.
   */
  function Key(ps: seq<Vec>, a: Axis, o: nat): real
  {
    if o < |ps| then Coord(ps[o], a) else 0.0
  }

  /** Objects appear in non-decreasing order of their coordinate on `a`. */
  predicate SortedBy(s: seq<nat>, ps: seq<Vec>, a: Axis)
  {
    forall i, j :: 0 <= i < j < |s| ==> Key(ps, a, s[i]) <= Key(ps, a, s[j])
  }

  /** The objects of `s` whose coordinate on `a` is exactly `k`, in their order in `s`. */
  function WithKey(s: seq<nat>, ps: seq<Vec>, a: Axis, k: real): seq<nat>
  {
    if s == [] then []
    else (if Key(ps, a, s[0]) == k then [s[0]] else []) + WithKey(s[1..], ps, a, k)
  }

  /**
   * Where an object with key `k` goes: in front of the first placed object
   * whose key is strictly greater, or at the end if there is none.
   */
  function InsertionPoint(t: seq<nat>, ps: seq<Vec>, a: Axis, k: real): (p: nat)
    ensures p <= |t|
  {
    if t == [] then 0
    else if k < Key(ps, a, t[0]) then 0
    else 1 + InsertionPoint(t[1..], ps, a, k)
  }

  /**
   * Every object in front of the insertion point has a key no greater than
   * `k`, and the object at it (if any) has a strictly greater key.
   */
  lemma {:induction false} InsertionPointSplits(t: seq<nat>, ps: seq<Vec>, a: Axis, k: real)
    ensures var p := InsertionPoint(t, ps, a, k);
      && (forall m :: 0 <= m < p ==> Key(ps, a, t[m]) <= k)
      && (p < |t| ==> k < Key(ps, a, t[p]))
  {
    if t != [] && Key(ps, a, t[0]) <= k {
      InsertionPointSplits(t[1..], ps, a, k);
      var p := InsertionPoint(t, ps, a, k);
      forall m | 0 < m < p ensures Key(ps, a, t[m]) <= k {
        assert t[m] == t[1..][m - 1];
      }
    }
  }

  /** The insertion point is the only index with no greater key before it and a greater key at it. */
  lemma InsertionPointUnique(t: seq<nat>, ps: seq<Vec>, a: Axis, k: real, j: nat)
    requires j <= |t|
    requires forall m :: 0 <= m < j ==> Key(ps, a, t[m]) <= k
    requires j < |t| ==> k < Key(ps, a, t[j])
    ensures InsertionPoint(t, ps, a, k) == j
  {
    InsertionPointSplits(t, ps, a, k);
  }

  function Insert(t: seq<nat>, ps: seq<Vec>, a: Axis, o: nat): seq<nat>
  {
    var p := InsertionPoint(t, ps, a, Key(ps, a, o));
    t[..p] + [o] + t[p..]
  }

  /** Putting `o` between the two halves of `t` split at `p`. */
  lemma Splice(t: seq<nat>, p: nat, o: nat)
    requires p <= |t|
    ensures var r := t[..p] + [o] + t[p..];
      && |r| == |t| + 1
      && (forall i :: 0 <= i < |r| ==> r[i] == if i < p then t[i] else if i == p then o else t[i - 1])
      && multiset(r) == multiset(t) + multiset{o}
  {
    assert t == t[..p] + t[p..];
  }

  /** Inserting adds exactly the one object. */
  lemma InsertMultiset(t: seq<nat>, ps: seq<Vec>, a: Axis, o: nat)
    ensures multiset(Insert(t, ps, a, o)) == multiset(t) + multiset{o}
  {
    var p := InsertionPoint(t, ps, a, Key(ps, a, o));
    assert t == t[..p] + t[p..];
  }

  /** The order `Sort` has built once the first `n` objects of `s` are placed. */
  function Placed(s: seq<nat>, ps: seq<Vec>, a: Axis, n: nat): (r: seq<nat>)
    requires n <= |s|
    ensures |r| == n
  {
    if n == 0 then []
    else Insert(Placed(s, ps, a, n - 1), ps, a, s[n - 1])
  }

  /** The order `Sort` returns: every object of `s` placed, first to last. */
  function InsertionSort(s: seq<nat>, ps: seq<Vec>, a: Axis): seq<nat>
  {
    Placed(s, ps, a, |s|)
  }

  lemma {:induction false} PlacedPermutation(s: seq<nat>, ps: seq<Vec>, a: Axis, n: nat)
    requires n <= |s|
    ensures multiset(Placed(s, ps, a, n)) == multiset(s[..n])
  {
    if n > 0 {
      PlacedPermutation(s, ps, a, n - 1);
      assert s[..n] == s[..n - 1] + [s[n - 1]];
      InsertMultiset(Placed(s, ps, a, n - 1), ps, a, s[n - 1]);
    }
  }

  /** `Sort` returns a permutation of its input; in particular, nothing from nothing. */
  lemma InsertionSortPermutation(s: seq<nat>, ps: seq<Vec>, a: Axis)
    ensures |InsertionSort(s, ps, a)| == |s|
    ensures multiset(InsertionSort(s, ps, a)) == multiset(s)
  {
    PlacedPermutation(s, ps, a, |s|);
    assert s[..|s|] == s;
  }

  lemma InsertSorted(t: seq<nat>, ps: seq<Vec>, a: Axis, o: nat)
    requires SortedBy(t, ps, a)
    ensures SortedBy(Insert(t, ps, a, o), ps, a)
  {
    var p := InsertionPoint(t, ps, a, Key(ps, a, o));
    Splice(t, p, o);
    InsertionPointSplits(t, ps, a, Key(ps, a, o));
  }

  lemma {:induction false} PlacedSorted(s: seq<nat>, ps: seq<Vec>, a: Axis, n: nat)
    requires n <= |s|
    ensures SortedBy(Placed(s, ps, a, n), ps, a)
  {
    if n > 0 {
      PlacedSorted(s, ps, a, n - 1);
      InsertSorted(Placed(s, ps, a, n - 1), ps, a, s[n - 1]);
    }
  }

  /** `Sort`'s output is in non-decreasing order of the chosen coordinate. */
  lemma InsertionSortSorted(s: seq<nat>, ps: seq<Vec>, a: Axis)
    ensures SortedBy(InsertionSort(s, ps, a), ps, a)
  {
    PlacedSorted(s, ps, a, |s|);
  }

  lemma {:induction false} WithKeyAppend(s: seq<nat>, u: seq<nat>, ps: seq<Vec>, a: Axis, k: real)
    ensures WithKey(s + u, ps, a, k) == WithKey(s, ps, a, k) + WithKey(u, ps, a, k)
  {
    if s != [] {
      assert (s + u)[0] == s[0] && (s + u)[1..] == s[1..] + u;
      WithKeyAppend(s[1..], u, ps, a, k);
      var head := if Key(ps, a, s[0]) == k then [s[0]] else [];
      calc {
        WithKey(s + u, ps, a, k);
        head + WithKey(s[1..] + u, ps, a, k);
        head + (WithKey(s[1..], ps, a, k) + WithKey(u, ps, a, k));
        (head + WithKey(s[1..], ps, a, k)) + WithKey(u, ps, a, k);
      }
    } else {
      assert s + u == u;
    }
  }

  /** No object of a sequence whose keys all exceed `k` has key `k`. */
  lemma {:induction false} WithKeyAbove(u: seq<nat>, ps: seq<Vec>, a: Axis, k: real)
    requires forall i :: 0 <= i < |u| ==> k < Key(ps, a, u[i])
    ensures WithKey(u, ps, a, k) == []
  {
    if u != [] {
      WithKeyAbove(u[1..], ps, a, k);
    }
  }

  lemma SortedSuffixAbove(t: seq<nat>, ps: seq<Vec>, a: Axis, p: nat, k: real)
    requires SortedBy(t, ps, a)
    requires p <= |t| && (p < |t| ==> k < Key(ps, a, t[p]))
    ensures forall i :: 0 <= i < |t[p..]| ==> k < Key(ps, a, t[p..][i])
  {
    forall i | 0 <= i < |t[p..]|
      ensures k < Key(ps, a, t[p..][i])
    {
      assert t[p..][i] == t[p + i];
      if i > 0 {
        assert Key(ps, a, t[p]) <= Key(ps, a, t[p + i]);
      }
    }
  }

  lemma WithKeySingle(o: nat, ps: seq<Vec>, a: Axis, k: real)
    ensures WithKey([o], ps, a, k) == if Key(ps, a, o) == k then [o] else []
  {
    assert [o][1..] == [];
  }

  /** Splicing `o` between `lo` and `hi` adds it after `lo`'s matches when `hi` has none. */
  lemma WithKeySplice(lo: seq<nat>, o: nat, hi: seq<nat>, ps: seq<Vec>, a: Axis, k: real)
    requires Key(ps, a, o) == k ==> WithKey(hi, ps, a, k) == []
    ensures WithKey(lo + [o] + hi, ps, a, k) == WithKey(lo + hi, ps, a, k) + WithKey([o], ps, a, k)
  {
    var fl, fo, fh := WithKey(lo, ps, a, k), WithKey([o], ps, a, k), WithKey(hi, ps, a, k);
    WithKeyAppend(lo, [o], ps, a, k);
    WithKeyAppend(lo + [o], hi, ps, a, k);
    WithKeyAppend(lo, hi, ps, a, k);
    WithKeySingle(o, ps, a, k);
    if Key(ps, a, o) == k {
      assert fl + fo + fh == fl + fo && fl + fh == fl;
    } else {
      assert fo == [];
      assert fl + fh + fo == fl + fh;
    }
  }

  /**
   * Inserting `o` into a sorted sequence puts it after every object with the
   * same key: each equal-key subsequence only grows at its end.
   */
  lemma InsertWithKey(t: seq<nat>, ps: seq<Vec>, a: Axis, o: nat, k: real)
    requires SortedBy(t, ps, a)
    ensures WithKey(Insert(t, ps, a, o), ps, a, k)
         == WithKey(t, ps, a, k) + WithKey([o], ps, a, k)
  {
    var p := InsertionPoint(t, ps, a, Key(ps, a, o));
    var lo, hi := t[..p], t[p..];
    assert t == lo + hi;
    if Key(ps, a, o) == k {
      InsertionPointSplits(t, ps, a, k);
      SortedSuffixAbove(t, ps, a, p, k);
      WithKeyAbove(hi, ps, a, k);
    }
    WithKeySplice(lo, o, hi, ps, a, k);
  }

  lemma {:induction false} PlacedStable(s: seq<nat>, ps: seq<Vec>, a: Axis, n: nat, k: real)
    requires n <= |s|
    ensures WithKey(Placed(s, ps, a, n), ps, a, k) == WithKey(s[..n], ps, a, k)
  {
    if n > 0 {
      assert s[..n] == s[..n - 1] + [s[n - 1]];
      PlacedStable(s, ps, a, n - 1, k);
      PlacedSorted(s, ps, a, n - 1);
      InsertWithKey(Placed(s, ps, a, n - 1), ps, a, s[n - 1], k);
      WithKeyAppend(s[..n - 1], [s[n - 1]], ps, a, k);
    }
  }

  /**
   * `Sort` is stable: for every key value, the objects having it appear in
   * the output in the same relative order as in the input.
   */
  lemma InsertionSortStable(s: seq<nat>, ps: seq<Vec>, a: Axis, k: real)
    ensures WithKey(InsertionSort(s, ps, a), ps, a, k) == WithKey(s, ps, a, k)
  {
    PlacedStable(s, ps, a, |s|, k);
    assert s[..|s|] == s;
  }

  lemma SpliceDistinct(lo: seq<nat>, o: nat, hi: seq<nat>)
    requires Distinct(lo + hi) && o !in lo + hi
    ensures Distinct(lo + [o] + hi)
  {
    var t, r := lo + hi, lo + [o] + hi;
    forall i, j | 0 <= i < j < |r|
      ensures r[i] != r[j]
    {
      var ti := if i < |lo| then i else i - 1;
      var tj := if j <= |lo| then j else j - 1;
      if i == |lo| {
        assert r[j] == t[tj];
      } else if j == |lo| {
        assert r[i] == t[ti];
      } else {
        assert r[i] == t[ti] && r[j] == t[tj] && ti < tj;
      }
    }
  }

  /** Among objects that are all different, the next one is not yet placed. */
  lemma PlacedFresh(s: seq<nat>, ps: seq<Vec>, a: Axis, n: nat)
    requires Distinct(s) && 0 < n <= |s|
    ensures s[n - 1] !in Placed(s, ps, a, n - 1)
  {
    PlacedPermutation(s, ps, a, n - 1);
    assert s[n - 1] !in s[..n - 1];
    assert s[n - 1] !in multiset(s[..n - 1]);
  }

  lemma {:induction false} PlacedDistinct(s: seq<nat>, ps: seq<Vec>, a: Axis, n: nat)
    requires Distinct(s) && n <= |s|
    ensures Distinct(Placed(s, ps, a, n))
  {
    if n > 0 {
      PlacedDistinct(s, ps, a, n - 1);
      PlacedFresh(s, ps, a, n);
      var t, o := Placed(s, ps, a, n - 1), s[n - 1];
      var p := InsertionPoint(t, ps, a, Key(ps, a, o));
      assert t == t[..p] + t[p..];
      SpliceDistinct(t[..p], o, t[p..]);
      assert Placed(s, ps, a, n) == t[..p] + [o] + t[p..];
    }
  }

  /** Sorting objects that are all different gives objects that are all different. */
  lemma InsertionSortDistinct(s: seq<nat>, ps: seq<Vec>, a: Axis)
    requires Distinct(s)
    ensures Distinct(InsertionSort(s, ps, a))
  {
    PlacedDistinct(s, ps, a, |s|);
  }

  lemma InsertIndexes(t: seq<nat>, ps: seq<Vec>, a: Axis, o: nat)
    requires Indexes(t, |ps|) && o < |ps|
    ensures Indexes(Insert(t, ps, a, o), |ps|)
  {
    Splice(t, InsertionPoint(t, ps, a, Key(ps, a, o)), o);
  }

  /** Everything `Sort` promises about the order it returns. */
  lemma SortSpec(s: seq<nat>, ps: seq<Vec>, a: Axis)
    ensures var r := InsertionSort(s, ps, a);
      && |r| == |s| && multiset(r) == multiset(s)
      && SortedBy(r, ps, a)
      && forall k :: WithKey(r, ps, a, k) == WithKey(s, ps, a, k)
  {
    InsertionSortPermutation(s, ps, a);
    InsertionSortSorted(s, ps, a);
    forall k {
      InsertionSortStable(s, ps, a, k);
    }
  }

  /**
   * One step of `Sort`'s outer loop: the next object goes in front of the
   * first placed object with a strictly greater key.
   */
  lemma PlacedStep(s: seq<nat>, ps: seq<Vec>, a: Axis, i: nat, j: nat)
    requires i < |s| && j <= i
    requires forall m :: 0 <= m < j ==> Key(ps, a, Placed(s, ps, a, i)[m]) <= Key(ps, a, s[i])
    requires j < i ==> Key(ps, a, s[i]) < Key(ps, a, Placed(s, ps, a, i)[j])
    ensures Placed(s, ps, a, i + 1) == Placed(s, ps, a, i)[..j] + [s[i]] + Placed(s, ps, a, i)[j..]
  {
    InsertionPointUnique(Placed(s, ps, a, i), ps, a, Key(ps, a, s[i]), j);
  }

  /** The comparison `Sort` makes: the new object's key is strictly below the placed one's. */
  predicate Precedes(pos: Vec, jPos: Vec, so: Axis)
    ensures Precedes(pos, jPos, so) <==> Coord(pos, so) < Coord(jPos, so)
  {
    || (so == X && pos.x < jPos.x)
    || (so == Y && pos.y < jPos.y)
    || (so == Z && pos.z < jPos.z)
  }

  /**
   * Sort(objs, so) in the window: `sorted` starts with the first object and
   * each later object is inserted in front of the first placed object whose
   * key is strictly greater (PlaceNext).
   */
  method Sort(objs: seq<nat>, ps: seq<Vec>, so: Axis) returns (sorted: seq<nat>)
    requires Indexes(objs, |ps|)
    ensures sorted == InsertionSort(objs, ps, so)
    ensures |sorted| == |objs| && multiset(sorted) == multiset(objs)
    ensures SortedBy(sorted, ps, so)
    ensures forall k :: WithKey(sorted, ps, so, k) == WithKey(objs, ps, so, k)
  {
    SortSpec(objs, ps, so);
    sorted := [];
    if |objs| == 0 {
      return;
    }
    sorted := [objs[0]];
    assert sorted == Placed(objs, ps, so, 1) by {
      assert Placed(objs, ps, so, 0) == [];
    }
    var i := 1;
    while i < |objs|
      invariant 1 <= i <= |objs|
      invariant sorted == Placed(objs, ps, so, i)
      invariant Indexes(sorted, |ps|)
    {
      sorted := PlaceNext(objs, ps, so, i, sorted);
      i := i + 1;
    }
    assert sorted == InsertionSort(objs, ps, so);
  }

  /**
   * One pass of Sort's outer loop: the inner loop scans `sorted` for the
   * first placed object whose key is strictly greater than that of
   * `objs[i]` and inserts it there; at `j == i` it is appended. The zero
   * vector read at `j == i` is never compared, because the `j == i` test
   * comes first.
   */
  method PlaceNext(objs: seq<nat>, ps: seq<Vec>, so: Axis, i: nat, placed: seq<nat>) returns (sorted: seq<nat>)
    requires Indexes(objs, |ps|) && 0 < i < |objs|
    requires placed == Placed(objs, ps, so, i) && Indexes(placed, |ps|)
    ensures sorted == Placed(objs, ps, so, i + 1) && Indexes(sorted, |ps|)
  {
    sorted := placed;
    var pos := ps[objs[i]];
    var j := 0;
    while j <= i
      invariant 0 <= j <= i && sorted == placed && |placed| == i
      invariant forall m :: 0 <= m < j ==> Key(ps, so, placed[m]) <= Coord(pos, so)
    {
      var jPos := if j < i then ps[sorted[j]] else Zero;
      if j == i || Precedes(pos, jPos, so) {
        PlacedStep(objs, ps, so, i, j);
        sorted := sorted[..j] + [objs[i]] + sorted[j..];
        break;
      }
      assert Key(ps, so, placed[j]) <= Coord(pos, so);
      j := j + 1;
    }
    InsertIndexes(placed, ps, so, objs[i]);
  }
}
