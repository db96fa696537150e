# Set-combination engine, modelled in Dafny

The repository draws Euler-style diagrams of overlapping named sets. Its
algorithmic core is the package `setworking`:

- `functions.py` holds two pairwise operations: `intersection`, which builds
  the items two sets share item by item, and `are_neighbors`, which tells
  whether two sets differ in size by one and the smaller one sits inside the
  larger.
- `SetSystem.py` holds the class `SetSystem`. It keeps an ordered list of
  named sets and a dictionary `intersections`. Its method `all_intersections`
  is meant to visit every non-empty combination of the members. For each one
  it folds `intersection` over the chosen members, starting from the first
  chosen member, and records the result under the list of their names.

The model has three modules:

- `Functions` (`functions.dfy`). A member is `NamedSet(name, content)`.
  `Common` is the intersection as a function. The method `Intersection`
  builds it with the source's loop and is proved equal to `Common`.
  `AreNeighbors` is the source's size-gap predicate. The lemmas state what it
  means: one set is a strict subset of the other, one element smaller.
- `Combinations` (`combinations.dfy`). This is the specification of the
  enumeration. A combination is a bitmask over member indices. `Selected`
  lists the chosen indices in ascending order. `Key` lists their names.
  `FoldOver` and `Combined` fold the intersection from the first chosen member
  on. `Table` records the masks 1 .. m - 1 in order, and `AllCombinations`
  covers all masks 1 .. 2^n - 1. The lemmas prove the following: each value
  holds exactly the items every chosen member holds; with distinct names there
  are exactly 2^n - 1 entries, one per non-empty combination, none lost to an
  overwrite; a single-member combination holds that member's content; larger
  combinations hold no more than the smaller ones they contain; and the fold
  does not depend on the order of the members.
- `SetSystem` (`set_system.dfy`). The class `SetSystem` has the fields `sets`
  (a `seq<NamedSet<T>>`) and `intersections` (a `map<seq<string>, set<T>>`).
  `AllIntersections` runs a bitmask counter from 1 to 2^n - 1. For each mask,
  `Combination` runs the source's fold loop with its `first` flag, its running
  `res` and its appended name list. The method leaves `sets` alone and ends
  with `intersections == old(intersections) + AllCombinations(sets)`. The
  module also models the carry loop the source actually runs, which is the
  subject of the finding below.

Where the source is silent or lenient, the model does what the source does:

- The source checks neither for duplicate member names nor for an empty group.
  `AllIntersections` therefore has no precondition. With no members it records
  nothing. With duplicate names a later combination overwrites an earlier one
  that has the same key. Its postcondition states this exactly, because
  `Table` applies the updates in mask order. Only the completeness lemmas
  assume distinct names.
- A key collision overwrites the earlier entry silently, as a Python
  dictionary assignment does. Nothing fails.
- Keys list the names in member index order, as the source appends them. They
  are not sorted by name.

## Model

| member | source | states |
|---|---|---|
| Functions.AreNeighbors | setworking/functions.py:10-14 | the size-gap test itself: sizes differ by one and the intersection is as large as the smaller set; what it means is proved in `NeighborsIffOneElementGap` |
| Functions.Common | setworking/functions.py:3-8 | the intersection lies inside the first set, and an item of the first set is in it exactly when the second set holds it |
| Functions.Intersection | setworking/functions.py:3-8 | the item-by-item loop over the first set returns exactly the items both sets hold |
| Functions.CommonWithin | setworking/functions.py:4-7 | the intersection is a subset of each argument and no larger than either |
| Functions.CommonCommutative | setworking/functions.py:5-7 | swapping the arguments gives the same items |
| Functions.CommonAssociative | setworking/functions.py:5-7 | intersecting three sets gives the same items however they are grouped |
| Functions.CommonIdempotent | setworking/functions.py:5-7 | a set intersected with itself gives back its content |
| Functions.CommonEmptyIffDisjoint | setworking/functions.py:4-8 | the result is empty exactly when the arguments share nothing; disjoint sets yield an empty value, not an error |
| Functions.NeighborsIffOneElementGap | setworking/functions.py:10-14 | two sets are neighbours exactly when one is a strict subset of the other and has one element fewer |
| Functions.NeighborsSymmetric | setworking/functions.py:11-12 | being neighbours does not depend on the order of the arguments |
| Functions.EqualSizesNotNeighbors | setworking/functions.py:11-12 | two sets of the same size are never neighbours |
| Combinations.Key | setworking/SetSystem.py:19-28 | the key of a combination: the chosen members' names in index order; its positions are described by `NamesAt` and its uniqueness by `KeysDiffer` |
| Combinations.FoldOver | setworking/SetSystem.py:18-27 | the intersection folded over a list of members from the first on; its items are described by `FoldMembers` |
| Combinations.Combined | setworking/SetSystem.py:18-27 | the value of a combination: the fold over its chosen members; its items are described by `CombinedMembers` |
| Combinations.Table | setworking/SetSystem.py:29 | the store after the masks 1 .. m - 1 are recorded in order; its keys, values and size are described by `TableKeys`, `TableValue` and `TableSize` |
| Combinations.AllCombinations | setworking/SetSystem.py:10-29 | the store after every mask from 1 to 2^n - 1 is recorded; it is described by `Complete` and `OnlyCombinationKeys` |
| Combinations.CombinedMembers | setworking/SetSystem.py:21-27 | an item is in a combination's value exactly when every member whose bit is set holds it |
| Combinations.SelectedFacts | setworking/SetSystem.py:21-22 | the chosen members are exactly those whose bit is set, each once, in ascending index order |
| Combinations.NamesAt | setworking/SetSystem.py:28 | the key holds one name per chosen member, in the order the members were chosen |
| Combinations.FoldMembers | setworking/SetSystem.py:23-27 | an item survives the fold from the first chosen member on exactly when every chosen member holds it |
| Combinations.SelectionStep | setworking/SetSystem.py:21-28 | scanning member i appends its name to the key and intersects the running value with its content exactly when it is chosen; the first chosen member starts the value |
| Combinations.NonZeroMaskSelects | setworking/SetSystem.py:20-25 | every mask from 1 to 2^n - 1 chooses at least one member, so the running value is always set before it is recorded |
| Combinations.NamesInjective | setworking/SetSystem.py:28-29 | with distinct names, equal name lists come from equal member lists |
| Combinations.KeysDiffer | setworking/SetSystem.py:28-29 | with distinct names, two different combinations are recorded under different keys |
| Combinations.TableKeys | setworking/SetSystem.py:29 | a key is recorded exactly when some combination processed so far has that key |
| Combinations.TableValue | setworking/SetSystem.py:29 | with distinct names, no later combination overwrites the value of an earlier one |
| Combinations.TableSize | setworking/SetSystem.py:29 | with distinct names, processing m - 1 combinations records m - 1 entries |
| Combinations.Complete | setworking/SetSystem.py:11-29 | with distinct names there are exactly 2^n - 1 entries, and each combination's key maps to its folded value |
| Combinations.OnlyCombinationKeys | setworking/SetSystem.py:29 | every recorded key belongs to some non-empty combination |
| Combinations.MaskOf | setworking/SetSystem.py:11-22 | the source's 0/1 flag array over the members corresponds to a mask below 2^n whose bit i is set exactly when flag i is 1 |
| Combinations.EveryCombinationRecorded | setworking/SetSystem.py:18-29 | every flag array with some member taken has an entry, and that entry holds exactly the items common to all taken members |
| Combinations.Singleton | setworking/SetSystem.py:23-25 | a single-member combination is keyed by that member's name alone and holds that member's whole content |
| Combinations.ValueWithinMembers | setworking/SetSystem.py:25-27 | each recorded value is a subset of the content of every member named in its key |
| Combinations.CombinedAntitone | setworking/SetSystem.py:25-27 | if combination S is contained in combination T, the value for T is a subset of the value for S |
| Combinations.FoldShrinksWithMoreMembers | setworking/SetSystem.py:21-27 | folding over a list that contains every member of another list gives a subset of that list's fold |
| Combinations.FoldOrderIndependent | setworking/SetSystem.py:21-27 | folding the intersection over the same members in any order gives the same items |
| Combinations.ExampleAllThree | setworking/SetSystem.py:18-29 | for A = {1,2,3}, B = {2,3,4}, C = {3,4,5}, the combination ABC is keyed ["A","B","C"] and holds {3} |
| Combinations.ExampleFirstTwo | setworking/SetSystem.py:18-29 | in the same group, AB is keyed ["A","B"] and holds {2,3} |
| Combinations.ExampleLastTwo | setworking/SetSystem.py:18-29 | in the same group, BC is keyed ["B","C"] and holds {3,4} |
| Combinations.ExampleOuterTwo | setworking/SetSystem.py:18-29 | in the same group, AC is keyed ["A","C"] and holds {3} |
| SetSystem.SetSystem.constructor | setworking/SetSystem.py:6-8 | a new engine holds exactly the given members and has recorded nothing |
| SetSystem.SetSystem.AllIntersections | setworking/SetSystem.py:10-29 | the members are left unchanged, and the store becomes the old store extended by one entry per mask from 1 to 2^n - 1 |
| SetSystem.SetSystem.Combination | setworking/SetSystem.py:18-28 | the fold loop with its first flag returns the chosen members' names in index order and the items they all share |
| SetSystem.ComputeAll | setworking/SetSystem.py:5-29 | a fresh engine with distinctly named members, run once, holds exactly 2^n - 1 entries, each the folded value of its combination |
| SetSystem.TogglePass | setworking/SetSystem.py:13-17 | one pass of the carry loop over the flag array keeps its length; its effect is described by `PassClearsFromLastTaken` |
| SetSystem.VisitedAsWritten | setworking/SetSystem.py:11-17 | the flag arrays the `while` loop reads, one per pass; described by `AsWrittenNeverTakesLast` and `AsWrittenEndsWithNothingTaken` |
| SetSystem.SumZeroIffNoneTaken | setworking/SetSystem.py:12 | the loop's test `sum(...) != 0` fails exactly when no flag is 1 |
| SetSystem.PassClearsFromLastTaken | setworking/SetSystem.py:13-17 | after one pass exactly the flags below p - 1 are 1, where p is the last flag that was 1 before the pass; all others are 0 |
| SetSystem.AsWrittenNeverTakesLast | setworking/SetSystem.py:11-22 | for any number of members and any start, no flag array the loop reads takes the last member, so the combination of all members is never recorded |
| SetSystem.AsWrittenEndsWithNothingTaken | setworking/SetSystem.py:11-29 | given enough passes, the last flag array the loop reads is all zero, so the empty combination is recorded |
| SetSystem.AsWrittenThreeMembers | setworking/SetSystem.py:11-17 | with three members the carry loop as written records only the flag arrays [1,0,0] and [0,0,0], then stops |

## Findings

| source | as written | input that shows it | evidently intended | confidence | as-written member | corrected member |
|---|---|---|---|---|---|---|
| setworking/SetSystem.py:11-17 | the carry loop has no `break`, so one pass clears every set flag; it sets again only the flags below `i - 1`; the combination is read after the pass, so the all-members combination is never read and the empty one is | three members: the loop records the flag arrays [1,0,0] and [0,0,0] and stops, so six of the seven non-empty combinations are missing and the empty combination (with `res = None`) is recorded | every non-empty combination recorded exactly once, 2^n - 1 entries in all (proved as `Combinations.Complete`) | high; not executed | SetSystem.AsWrittenThreeMembers | SetSystem.SetSystem.AllIntersections |

`VisitedAsWritten` lists the flag arrays the source's `while` loop records.
`TogglePass` is one pass of its `for` loop, and its helper `ResetBelow` is
the inner `range(i - 1)` loop. The general lemmas `AsWrittenNeverTakesLast`
and `AsWrittenEndsWithNothingTaken` show the same defect for any number of
members: the last member is never taken, and the empty combination is always
recorded last. The corrected enumeration is the bitmask counter in
`AllIntersections`. The rest of the model uses only that counter.

## Left out

- The `Set` class (imported at setworking/functions.py:1) is not part of this model. A member is reduced to its name and content. `intersection` returns a new `Set(res)` whose name is unknown, so the model returns the bare content. The source stores the member object itself for a single-member combination and a new `Set` built from the content alone otherwise; the model stores content in both cases.
- Using a Python list as a dictionary key (setworking/SetSystem.py:29) raises `TypeError` at the first insertion. The model keys by `seq<string>`, which is how the key is evidently meant to work. The failure itself is not modelled.
- The carry loop at setworking/SetSystem.py:11-17 is modelled only to exhibit the finding above. `VisitedAsWritten` runs for a given number of passes (`fuel`) instead of until the flags sum to zero, so it says nothing about inputs that would need more passes.
- The unused `more_itertools` import (setworking/SetSystem.py:1) has no behaviour and is left out.
- The order in which `intersection` walks its first argument is not modelled. Only the resulting set is, and it does not depend on that order.
- `app.py` (web routes, sessions, SQLite storage, password hashing) and `testing.py` (HTTP tests against a live server) are input/output around the core and are not modelled.
- Python integers are unbounded, and so are Dafny's. The bitmask counter needs no width or wrap-around.
