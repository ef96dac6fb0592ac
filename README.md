# Object alignment, modelled in Dafny

A Unity editor window, `ObjectAlignment`, lines up the selected scene objects.
It works on their local positions. Three toggles choose the axes (x, y, z), and
four buttons choose the action:

- **ToMinimum**, **ToMaximum**, **ToMiddle** move every selected object onto the
  per-axis minimum, maximum or mean of the selection, along each toggled axis.
- **Distribute** works one toggled axis at a time, in the order X, Y, Z. Each
  pass insertion-sorts the selection on that axis, keeps the first and the last
  object in place, and spaces the interior objects evenly between them. Each
  pass sorts the order the previous pass left, and the sort is stable, so the
  passes are not independent: objects tied on Y keep the order the X pass gave
  them (`Scenarios.TiedXAndY`).

This project models `HandleAction` and its `Sort` helper, and proves what they
promise.

- `vectors.dfy` (module `Vectors`) is a stand-in for `Vector3` and `Mathf.Lerp`
  over exact reals.
- `sorting.dfy` (module `Sorting`) models `Sort` as a method. The outer loop
  stays in `Sort`. One pass of it, the inner loop with its `break`, is the method
  `PlaceNext`. The method is proved equal to a functional insertion sort,
  `InsertionSort`. The proofs show that this sort is a permutation, that it is
  ordered, and that it is stable.
- `alignment.dfy` (module `Alignment`) states what `HandleAction` computes as
  functions on the sequence of positions: `Handled`, `AlignTo`, `Distributed`,
  `Pass` and `Spread`. It proves the properties of each action.
- `tool.dfy` (module `AlignmentTool`) holds the class `ObjectAlignment`, whose
  fields are the axis toggles. `HandleAction` updates an array of positions in
  place and is proved to leave exactly `Handled(old positions, toggles, action)`.
  The loops of the source are kept: the extents loop (`Bounds`), the align loop
  (`AlignAll`) and the interior loop of a Distribute pass (`SpreadAlong`).
- `scenarios.dfy` (module `Scenarios`) works through concrete selections.

Modelling choices:

- Object `k` of the selection (`Selection.gameObjects[k]`) is index `k`; its
  local position is `positions[k]`.
- An ordering of the selection is a sequence of distinct indices (`IsOrder`).
- The three copy-pasted Distribute blocks (lines 105-140) are one method,
  `DistributePass`, called per toggled axis.
- The two branches of `HandleAction` are the class methods `DistributeAll` and
  `AlignAll`.

**Empty selection.** On an empty selection with an action other than None, the
source does not return early: line 66 tests `Length == 1`, not `<= 1`. It then
reads `selectedObjs[0]` at line 69, which throws. The model follows the code.
`HandleAction` returns the outcome `IndexOutOfRange` and leaves the positions
unchanged. An empty selection is therefore not a silent no-op.

## Model

| member | source | states |
|---|---|---|
| Vectors.Add | Assets/ObjectAlignment/Editor/ObjectAlignment.cs:76 | `sum += pos`: on every axis, the coordinate of the sum is the sum of the two coordinates |
| Vectors.WithCoord | Assets/ObjectAlignment/Editor/ObjectAlignment.cs:113-114 | the new Vector3 built in a Distribute pass takes the given coordinate on the pass axis and keeps the other two of `iPos` |
| Vectors.DivBy | Assets/ObjectAlignment/Editor/ObjectAlignment.cs:84 | `sum /= Length`: every coordinate of the quotient times the count is the coordinate of the sum |
| Vectors.Lerp | Assets/ObjectAlignment/Editor/ObjectAlignment.cs:114 | Mathf.Lerp for a fraction in [0, 1]: it gives the first end at 0 and the second at 1, and lies between ordered ends |
| Vectors.LerpMonotone | Assets/ObjectAlignment/Editor/ObjectAlignment.cs:110-114 | between ordered ends, a larger fraction never gives a smaller coordinate, and between distinct ends it gives a strictly larger one |
| Sorting.Key | Assets/ObjectAlignment/Editor/ObjectAlignment.cs:164-167 | an object's coordinate on the sort axis, the value the comparison reads. It has no contract; `Precedes` ties it to the three-clause test |
| Sorting.Precedes | Assets/ObjectAlignment/Editor/ObjectAlignment.cs:169-171 | the three-clause comparison holds exactly when the new object's key on the sort axis is strictly below the placed object's |
| Sorting.InsertionPoint | Assets/ObjectAlignment/Editor/ObjectAlignment.cs:165-175 | where the inner loop breaks: never past the end of `sorted`. `InsertionPointSplits` and `InsertionPointUnique` prove it is the first placed object with a strictly greater key |
| Sorting.Insert | Assets/ObjectAlignment/Editor/ObjectAlignment.cs:173 | `sorted.Insert(j, objs[i])` at that point. It has no contract of its own; `InsertMultiset`, `InsertSorted` and `InsertWithKey` state what it does |
| Sorting.InsertionPointSplits | Assets/ObjectAlignment/Editor/ObjectAlignment.cs:165-175 | every placed object before the insertion point has a key no greater than the new one; the object at it has a strictly greater key |
| Sorting.InsertionPointUnique | Assets/ObjectAlignment/Editor/ObjectAlignment.cs:165-175 | any index with that split property is the insertion point: the inner loop's first `break` position is unique |
| Sorting.InsertMultiset | Assets/ObjectAlignment/Editor/ObjectAlignment.cs:173 | `sorted.Insert(j, objs[i])` adds exactly that one object |
| Sorting.PlacedStep | Assets/ObjectAlignment/Editor/ObjectAlignment.cs:162-176 | one pass of the outer loop splices the next object in front of the first placed object with a strictly greater key, or appends it when there is none |
| Sorting.Placed | Assets/ObjectAlignment/Editor/ObjectAlignment.cs:161-177 | `sorted` after the first `n` objects have been placed holds exactly `n` objects; the lemmas below prove it is a permutation of them, ordered and stable |
| Sorting.PlacedPermutation | Assets/ObjectAlignment/Editor/ObjectAlignment.cs:161-177 | after `i` objects are placed, `sorted` holds exactly those `i` objects |
| Sorting.InsertionSort | Assets/ObjectAlignment/Editor/ObjectAlignment.cs:156-179 | the value `Sort` returns. It has no contract of its own; `SortSpec` gathers what is proved about it |
| Sorting.InsertionSortPermutation | Assets/ObjectAlignment/Editor/ObjectAlignment.cs:156-179 | Sort returns a permutation of its input, of the same length; nothing comes from nothing (line 159) |
| Sorting.InsertSorted | Assets/ObjectAlignment/Editor/ObjectAlignment.cs:165-175 | inserting at the insertion point keeps a sorted order sorted |
| Sorting.PlacedSorted | Assets/ObjectAlignment/Editor/ObjectAlignment.cs:161-177 | `sorted` is non-decreasing on the sort axis after every outer iteration |
| Sorting.InsertionSortSorted | Assets/ObjectAlignment/Editor/ObjectAlignment.cs:156-179 | Sort's result is non-decreasing on the chosen axis |
| Sorting.WithKeyAppend | Assets/ObjectAlignment/Editor/ObjectAlignment.cs:162-177 | the objects with a given key in a concatenation are those of each part, in order |
| Sorting.InsertWithKey | Assets/ObjectAlignment/Editor/ObjectAlignment.cs:168-174 | because the test is strict (`<`), a new object lands after every placed object with an equal key |
| Sorting.PlacedStable | Assets/ObjectAlignment/Editor/ObjectAlignment.cs:161-177 | after each outer iteration, the objects sharing any one key appear in their input order |
| Sorting.InsertionSortStable | Assets/ObjectAlignment/Editor/ObjectAlignment.cs:156-179 | Sort is stable: for every key value, the objects with that key keep their input order |
| Sorting.PlacedDistinct | Assets/ObjectAlignment/Editor/ObjectAlignment.cs:161-177 | when the input objects are all different, no object is ever placed twice |
| Sorting.InsertionSortDistinct | Assets/ObjectAlignment/Editor/ObjectAlignment.cs:156-179 | a selection of distinct objects is sorted into distinct objects |
| Sorting.SortSpec | Assets/ObjectAlignment/Editor/ObjectAlignment.cs:156-179 | the insertion sort has the input's length and elements, is ordered on the axis, and keeps each key's objects in input order |
| Sorting.Sort | Assets/ObjectAlignment/Editor/ObjectAlignment.cs:156-179 | the method returns the insertion sort of its input: a permutation, ordered on the axis, stable. An empty input gives an empty result |
| Sorting.PlaceNext | Assets/ObjectAlignment/Editor/ObjectAlignment.cs:163-176 | one outer iteration takes `sorted` from the first `i` placed objects to the first `i + 1`. The zero vector read at `j == i` is never compared, so it cannot change the result |
| Alignment.MinCoord | Assets/ObjectAlignment/Editor/ObjectAlignment.cs:69-83 | `min` on one axis after the foreach loop. It has no contract of its own; `MinCoordIsLeast` proves it is the least coordinate |
| Alignment.MaxCoord | Assets/ObjectAlignment/Editor/ObjectAlignment.cs:69-83 | `max` on one axis after the foreach loop. It has no contract of its own; `MaxCoordIsGreatest` proves it is the greatest coordinate |
| Alignment.MinCoordIsLeast | Assets/ObjectAlignment/Editor/ObjectAlignment.cs:69-83 | `min` on an axis is at most every object's coordinate there and equals some object's coordinate |
| Alignment.MaxCoordIsGreatest | Assets/ObjectAlignment/Editor/ObjectAlignment.cs:69-83 | `max` on an axis is at least every object's coordinate there and equals some object's coordinate |
| Alignment.Minimum | Assets/ObjectAlignment/Editor/ObjectAlignment.cs:69-83 | `min` after the loop is at most every object's position on every axis |
| Alignment.Maximum | Assets/ObjectAlignment/Editor/ObjectAlignment.cs:69-83 | `max` after the loop is at least every object's position on every axis |
| Alignment.ExtentsOrdered | Assets/ObjectAlignment/Editor/ObjectAlignment.cs:69-83 | on every axis, `min` is at most `max` |
| Alignment.ExtentsFirst | Assets/ObjectAlignment/Editor/ObjectAlignment.cs:69-70 | starting both extents from the first object agrees with the extents of the first object alone |
| Alignment.ExtentsStep | Assets/ObjectAlignment/Editor/ObjectAlignment.cs:77-82 | one foreach iteration lowers `min` and raises `max` axis by axis only where the new position lies beyond them |
| Alignment.Sum | Assets/ObjectAlignment/Editor/ObjectAlignment.cs:71-76 | `sum` after the loop: the positions added up from zero. It has no contract of its own; `SumAtLeast`, `SumAtMost` and `Mean` bound it |
| Alignment.TimesIsProduct | Assets/ObjectAlignment/Editor/ObjectAlignment.cs:84 | adding a coordinate up `n` times is multiplying it by `n`, so `Mean`'s contract says that the mean times the count is the sum |
| Alignment.SumAtLeast | Assets/ObjectAlignment/Editor/ObjectAlignment.cs:71-76 | the accumulated sum is at least the count times any lower bound of the coordinates |
| Alignment.SumAtMost | Assets/ObjectAlignment/Editor/ObjectAlignment.cs:71-76 | the accumulated sum is at most the count times any upper bound of the coordinates |
| Alignment.Mean | Assets/ObjectAlignment/Editor/ObjectAlignment.cs:84 | the mean added up once per object (the count times the mean, by `TimesIsProduct`) gives the sum on every axis, and the mean lies between the minimum and the maximum there |
| Alignment.ConstantExtents | Assets/ObjectAlignment/Editor/ObjectAlignment.cs:69-84 | when all objects share a coordinate on an axis, min, max and mean there all equal it |
| Alignment.Target | Assets/ObjectAlignment/Editor/ObjectAlignment.cs:86-102 | the switch on the action: ToMinimum, ToMaximum and ToMiddle each pick a target that lies between `min` and `max` on every axis; Distribute keeps the initial `targetPos` of line 72, which goes unused |
| Alignment.Masked | Assets/ObjectAlignment/Editor/ObjectAlignment.cs:147-151 | a toggled axis takes the target's coordinate, an untoggled one keeps the object's |
| Alignment.AlignTo | Assets/ObjectAlignment/Editor/ObjectAlignment.cs:144-152 | every object ends on the target along each toggled axis and keeps its other coordinates |
| Alignment.Identity | Assets/ObjectAlignment/Editor/ObjectAlignment.cs:64 | the selection order lists every object exactly once |
| Alignment.InsertionSortIsOrder | Assets/ObjectAlignment/Editor/ObjectAlignment.cs:107 | re-sorting an ordering of the selection gives an ordering of the selection again |
| Alignment.IndexOfAt | Assets/ObjectAlignment/Editor/ObjectAlignment.cs:110-114 | in an order of distinct objects, the object at rank `i` has rank `i` |
| Alignment.Fraction | Assets/ObjectAlignment/Editor/ObjectAlignment.cs:114 | `i / (n - 1)` lies in [0, 1], is 0 exactly at the first rank and 1 exactly at the last |
| Alignment.FractionMonotone | Assets/ObjectAlignment/Editor/ObjectAlignment.cs:110-114 | a later rank never gets a smaller fraction, and a strictly later rank gets a strictly larger one |
| Alignment.Slot | Assets/ObjectAlignment/Editor/ObjectAlignment.cs:114 | the value `Mathf.Lerp(min, max, i / (n - 1))` for rank `i`. It has no contract; `SlotFromEnds` and `SpreadInterior` state it in terms of the two ends |
| Alignment.SlotFromEnds | Assets/ObjectAlignment/Editor/ObjectAlignment.cs:108-114 | interpolating between the positions read before the loop gives each rank's slot |
| Alignment.SpreadBelow | Assets/ObjectAlignment/Editor/ObjectAlignment.cs:110-115 | the positions after the interior loop has run below rank `m`: the number of objects does not change |
| Alignment.Spread | Assets/ObjectAlignment/Editor/ObjectAlignment.cs:108-115 | the positions after the whole interior loop: the number of objects does not change. `SpreadKeepsEnds`, `SpreadInterior`, `SpreadAt` and `SpreadOtherAxes` state the positions |
| Alignment.SpreadBelowStart | Assets/ObjectAlignment/Editor/ObjectAlignment.cs:110 | before the interior loop runs, no object has moved |
| Alignment.SpreadBelowStep | Assets/ObjectAlignment/Editor/ObjectAlignment.cs:110-115 | iteration `i` moves the object of rank `i` to its slot and changes nothing else; that object has not moved before |
| Alignment.SpreadKeepsEnds | Assets/ObjectAlignment/Editor/ObjectAlignment.cs:108-110 | the first and the last object of the sorted order keep their positions |
| Alignment.SpreadInterior | Assets/ObjectAlignment/Editor/ObjectAlignment.cs:113-114 | the object of interior rank `i` gets Lerp(first, last, i / (n - 1)) on the pass axis and keeps its other two coordinates |
| Alignment.SpreadAt | Assets/ObjectAlignment/Editor/ObjectAlignment.cs:108-114 | every rank of the sorted order, ends included, ends at Lerp(first, last, rank / (n - 1)) on the pass axis |
| Alignment.SpreadKeys | Assets/ObjectAlignment/Editor/ObjectAlignment.cs:108-114 | the same for every rank at once, read as the sort key the next pass compares |
| Alignment.SpreadOtherAxes | Assets/ObjectAlignment/Editor/ObjectAlignment.cs:114 | a pass changes no coordinate off its own axis |
| Alignment.SpreadOrdered | Assets/ObjectAlignment/Editor/ObjectAlignment.cs:107-115 | after a pass, the objects in sorted order are still non-decreasing on that axis and all lie between the two ends (strictness is `SpreadStrict`) |
| Alignment.SpreadStrict | Assets/ObjectAlignment/Editor/ObjectAlignment.cs:108-115 | after a pass, the coordinates strictly increase along the order exactly when the first object lies strictly below the last; otherwise two ranks share a coordinate |
| Alignment.SpreadPair | Assets/ObjectAlignment/Editor/ObjectAlignment.cs:110 | with two objects there is no interior rank, so a pass moves nothing |
| Alignment.Pass | Assets/ObjectAlignment/Editor/ObjectAlignment.cs:105-116 | a pass leaves a permutation of the previous order that is sorted on its axis by the new positions, and changes no other axis |
| Alignment.PassSpreads | Assets/ObjectAlignment/Editor/ObjectAlignment.cs:105-116 | a pass's positions are `Spread` of the previous positions along the order `Sort` returns |
| Alignment.PassRank | Assets/ObjectAlignment/Editor/ObjectAlignment.cs:107-115 | after a pass, rank `i` of its sorted order sits at Lerp(first, last, i / (n - 1)) on the pass axis |
| Alignment.PassIf | Assets/ObjectAlignment/Editor/ObjectAlignment.cs:117-128 | an untoggled axis's block is skipped entirely; a toggled one changes no other axis |
| Alignment.Distributed | Assets/ObjectAlignment/Editor/ObjectAlignment.cs:104-141 | the X, Y and Z passes, each re-sorting the order the previous one left, change no untoggled coordinate |
| Alignment.Before | Assets/ObjectAlignment/Editor/ObjectAlignment.cs:104-141 | the order and positions a Distribute pass starts from: a valid arrangement of every object, which for X is the selection order and the original positions (for Y and Z, what the earlier blocks left) |
| Alignment.DistributedOnAxis | Assets/ObjectAlignment/Editor/ObjectAlignment.cs:104-141 | on every toggled axis, Distribute's final coordinate of each object is the one that axis's own pass gave it; the later passes do not disturb it |
| Alignment.DistributedPair | Assets/ObjectAlignment/Editor/ObjectAlignment.cs:104-141 | Distribute on two objects leaves both where they were |
| Alignment.Handled | Assets/ObjectAlignment/Editor/ObjectAlignment.cs:62-154 | HandleAction keeps the number of objects and never changes a coordinate on an untoggled axis |
| Alignment.HandledNoOp | Assets/ObjectAlignment/Editor/ObjectAlignment.cs:66-67 | None, or a selection of at most one object, changes nothing |
| Alignment.HandledAligns | Assets/ObjectAlignment/Editor/ObjectAlignment.cs:86-98 | ToMinimum, ToMaximum and ToMiddle put each object's toggled coordinates on the minimum, maximum and mean respectively |
| Alignment.AlignedExtents | Assets/ObjectAlignment/Editor/ObjectAlignment.cs:144-152 | after aligning along a toggled axis, min, max and mean there all equal the target's coordinate |
| Alignment.RealignedTarget | Assets/ObjectAlignment/Editor/ObjectAlignment.cs:86-98 | the target of an aligned selection agrees with the original target on the toggled axes |
| Alignment.RealignSame | Assets/ObjectAlignment/Editor/ObjectAlignment.cs:144-152 | aligning again onto a target that agrees on the toggled axes changes nothing |
| Alignment.HandledAlignIdempotent | Assets/ObjectAlignment/Editor/ObjectAlignment.cs:86-152 | pressing ToMinimum, ToMaximum or ToMiddle twice has the same effect as pressing it once |
| AlignmentTool.Bounds | Assets/ObjectAlignment/Editor/ObjectAlignment.cs:69-84 | the foreach loop leaves `min`, `max` and `sum / Length` equal to the per-axis minimum, maximum and mean |
| AlignmentTool.SpreadAlong | Assets/ObjectAlignment/Editor/ObjectAlignment.cs:108-115 | the interior loop leaves the positions that `Spread` describes |
| AlignmentTool.DistributePass | Assets/ObjectAlignment/Editor/ObjectAlignment.cs:105-116 | one Distribute block leaves the new order and positions of `Pass` |
| AlignmentTool.ObjectAlignment.constructor | Assets/ObjectAlignment/Editor/ObjectAlignment.cs:8-10 | all three axes start toggled on |
| AlignmentTool.ObjectAlignment.DistributeAll | Assets/ObjectAlignment/Editor/ObjectAlignment.cs:104-141 | the Distribute branch leaves the positions of `Distributed` for the current toggles |
| AlignmentTool.ObjectAlignment.AlignAll | Assets/ObjectAlignment/Editor/ObjectAlignment.cs:142-153 | the align loop leaves every position aligned onto the target along the toggled axes |
| AlignmentTool.ObjectAlignment.HandleAction | Assets/ObjectAlignment/Editor/ObjectAlignment.cs:62-154 | an empty selection with an action fails with IndexOutOfRange and moves nothing; otherwise the positions become `Handled` of the old ones |
| Scenarios.RowToMinimum | Assets/ObjectAlignment/Editor/ObjectAlignment.cs:88-90 | objects at x = 0, 5, 10 aligned to the minimum on X all end at the origin |
| Scenarios.RowToMiddle | Assets/ObjectAlignment/Editor/ObjectAlignment.cs:96-98 | the same objects aligned to the middle on X all end at x = 5 |
| Scenarios.ScatteredSorted | Assets/ObjectAlignment/Editor/ObjectAlignment.cs:156-179 | objects at x = 0, 10, 2, 8 sort on X into the order 0, 2, 8, 10 |
| Scenarios.OnlyXOnePass | Assets/ObjectAlignment/Editor/ObjectAlignment.cs:104-116 | with only X toggled, Distribute is one sort on X followed by one spread |
| Scenarios.ScatteredSpread | Assets/ObjectAlignment/Editor/ObjectAlignment.cs:108-115 | spreading that order moves x = 2 to 10/3 and x = 8 to 20/3 and keeps 0 and 10 |
| Scenarios.ScatteredDistribute | Assets/ObjectAlignment/Editor/ObjectAlignment.cs:104-116 | Distribute on X of x = 0, 10, 2, 8 yields x = 0, 10, 10/3, 20/3 |
| Scenarios.TiedSortedX | Assets/ObjectAlignment/Editor/ObjectAlignment.cs:156-179 | objects at x = 0, 2, 1 sort on X into the order 0, 2, 1 |
| Scenarios.TiedSortedY | Assets/ObjectAlignment/Editor/ObjectAlignment.cs:156-179 | objects 1 and 2 tie at y = 5, so the sort on Y keeps them in whichever order it is given: 0, 1, 2 stays, and so does 0, 2, 1 |
| Scenarios.TiedSpreadX | Assets/ObjectAlignment/Editor/ObjectAlignment.cs:108-115 | object 2 already lies halfway between x = 0 and x = 2, so the X spread moves nothing |
| Scenarios.TiedSpreadY | Assets/ObjectAlignment/Editor/ObjectAlignment.cs:120-127 | spreading on Y with either tied object in the middle moves that object to y = 2.5 and nothing else |
| Scenarios.PassAlong | Assets/ObjectAlignment/Editor/ObjectAlignment.cs:105-116 | a pass whose sort gives `order` leaves that order and Spread along it |
| Scenarios.OnlyYOnePass | Assets/ObjectAlignment/Editor/ObjectAlignment.cs:117-128 | with only Y toggled, Distribute is one Y pass from the selection order |
| Scenarios.XAndYTwoPasses | Assets/ObjectAlignment/Editor/ObjectAlignment.cs:104-128 | with X and Y toggled, Distribute is the Y pass started from the order the X pass left |
| Scenarios.TiedOnlyY | Assets/ObjectAlignment/Editor/ObjectAlignment.cs:117-128 | with only Y toggled, the tie keeps selection order and object 1 moves to y = 2.5 |
| Scenarios.TiedXAndY | Assets/ObjectAlignment/Editor/ObjectAlignment.cs:107-128 | with X toggled too, the Y pass starts from 0, 2, 1: object 2 moves to y = 2.5 and object 1 stays at y = 5. The X toggle changes the Y result even though X moved nothing |
| Scenarios.PairDistribute | Assets/ObjectAlignment/Editor/ObjectAlignment.cs:104-141 | Distribute on any two objects leaves both where they were |

## Left out

- `OnGUI` (lines 34-60) is left out: the toggles, buttons, labels and layout are UI. The toggles are the class fields; the button becomes the `action` parameter.
- `ShowWindow` and the `MenuItem` attribute (lines 28-32) open the window and are left out.
- The Cmd+Z hotkey that calls `Undo.PerformUndo` (lines 51-57) is editor global state and is left out.
- `Undo.RecordObject` (lines 112, 124, 136 and 146) only records state for undo; it does not change positions and is left out.
- `Selection.gameObjects` (line 64) is host state. The selection comes in as the array of the selected objects' positions, in selection order. Index `k` stands for the `k`-th object, so the selected objects are distinct by construction.
- Transforms are separate objects. The model takes the positions to be independent cells of one array, so writing one object's position never affects another's.
- Floating point is not modelled: coordinates, the mean, `(float)i / (float)(n - 1)` and `Mathf.Lerp` are exact reals. Rounding, NaN and infinities are not captured.
- Vectors.Lerp: Unity clamps the fraction to [0, 1]; every call here passes a fraction already in that range, so the clamp is left out.
- `min`, `max` and the mean are also computed for Distribute, where they go unused. The model computes them too, so this has no effect on the result.
- With exactly two objects, Distribute still sorts but moves nothing. The model's result is the same.
- `Bounds`, `DistributePass`, `SpreadAlong`, `DistributeAll`, `AlignAll` and `PlaceNext` are not separate functions in the source. They are blocks of `HandleAction` and `Sort` factored out so that each loop is proved on its own.
