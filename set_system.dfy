/** The combination engine: an ordered group of named sets and the store
    that maps each combination of them to the items the combination shares. */
module SetSystem {
  import opened Functions
  import opened Combinations

  class SetSystem<T(==)> {
    var sets: seq<NamedSet<T>>
    var intersections: map<seq<string>, set<T>>

    /** A new engine holds the given members and has recorded nothing yet. */
    constructor (sets: seq<NamedSet<T>>)
      ensures this.sets == sets
      ensures intersections == map[]
    {
      this.sets := sets;
      intersections := map[];
    }

    /** Records every non-empty combination of the members, chosen by a bitmask
        counter running over 1 .. 2^n - 1, under the names of its members. */
    method AllIntersections()
      modifies this
      ensures sets == old(sets)
      ensures intersections == old(intersections) + AllCombinations(sets)
    {
      var limit := Pow2(|sets|);
      var mask := 1;
      while mask < limit
        invariant sets == old(sets)
        invariant 1 <= mask <= limit
        invariant intersections == old(intersections) + Table(sets, mask)
      {
        var setsInvolved, res := Combination(mask);
        TableExtend(old(intersections), sets, mask);
        intersections := intersections[setsInvolved := res];
        mask := mask + 1;
      }
    }

    /** The key and the value of one combination: the chosen members' names in
        index order, and the intersection folded over them starting from the
        first chosen member's content. */
    method Combination(mask: nat) returns (setsInvolved: seq<string>, res: set<T>)
      requires 1 <= mask < Pow2(|sets|)
      ensures setsInvolved == Key(sets, mask)
      ensures res == Combined(sets, mask)
    {
      var n := |sets|;
      var first := true;
      setsInvolved := [];
      res := {};
      var i := 0;
      while i < n
        invariant 0 <= i <= n
        invariant ValidIndices(Selected(mask, i), n)
        invariant setsInvolved == NamesOf(sets, Selected(mask, i))
        invariant first <==> Selected(mask, i) == []
        invariant !first ==> res == FoldOver(sets, Selected(mask, i))
      {
        SelectionStep(sets, mask, i);
        if Bit(mask, i) {
          if first {
            first := false;
            res := sets[i].content;
          } else {
            res := Intersection(res, sets[i].content);
          }
          setsInvolved := setsInvolved + [sets[i].name];
        }
        i := i + 1;
      }
      NonZeroMaskSelects(mask, n);
    }
  }

  /** Running the engine once on a fresh instance with distinctly named
      members yields exactly 2^n - 1 entries, each holding the items its
      members share. */
  method ComputeAll<T>(sets: seq<NamedSet<T>>) returns (table: map<seq<string>, set<T>>)
    requires DistinctNames(sets)
    ensures |table| == Pow2(|sets|) - 1
    ensures forall mask :: 1 <= mask < Pow2(|sets|) ==>
              Key(sets, mask) in table && table[Key(sets, mask)] == Combined(sets, mask)
  {
    var system := new SetSystem(sets);
    system.AllIntersections();
    table := system.intersections;
    assert table == AllCombinations(sets);
    Complete(sets);
  }

  // The enumeration loop as the source writes it, on its flag array: a flag is
  // 1 when the member is taken, 0 when it is not. It is used only to exhibit
  // what that loop visits.

  /** Every flag is 0 or 1, as in the source's flag array. */
  predicate IsFlags(flags: seq<int>)
  {
    forall k :: 0 <= k < |flags| ==> flags[k] == 0 || flags[k] == 1
  }

  /** The inner `range(i - 1)` loop: flags[0 .. k - 1] become 1; for k <= 0
      nothing changes. */
  function ResetBelow(flags: seq<int>, k: int): seq<int>
  {
    seq(|flags|, j requires 0 <= j < |flags| => if j < k then 1 else flags[j])
  }

  /** One pass of the carry loop from index i on: every taken flag met is
      cleared and the flags below the one before it are set again. */
  function TogglePass(flags: seq<int>, i: nat): (r: seq<int>)
    ensures |r| == |flags|
    decreases |flags| - i
  {
    if i >= |flags| then flags
    else if flags[i] == 1 then TogglePass(ResetBelow(flags[i := 0], i - 1), i + 1)
    else TogglePass(flags, i + 1)
  }

  /** The sum of the flags, which the loop tests against zero. */
  function Sum(flags: seq<int>): int
  {
    if flags == [] then 0 else flags[0] + Sum(flags[1..])
  }

  /** The flag arrays the loop as written records, one per pass, for at most
      `fuel` passes. */
  function VisitedAsWritten(flags: seq<int>, fuel: nat): seq<seq<int>>
    decreases fuel
  {
    if fuel == 0 || Sum(flags) == 0 then []
    else
      var next := TogglePass(flags, 0);
      [next] + VisitedAsWritten(next, fuel - 1)
  }

  /** The index of the last taken flag, or -1 when no flag is taken. */
  function LastTaken(flags: seq<int>): (p: int)
    ensures -1 <= p < |flags|
    ensures p >= 0 ==> flags[p] == 1
    ensures forall k :: p < k < |flags| ==> flags[k] != 1
  {
    if flags == [] then -1
    else if flags[|flags| - 1] == 1 then |flags| - 1
    else LastTaken(flags[..|flags| - 1])
  }

  /** A flag array sums to zero exactly when no member is taken. */
  lemma {:induction false} SumZeroIffNoneTaken(flags: seq<int>)
    requires IsFlags(flags)
    ensures Sum(flags) >= 0
    ensures Sum(flags) == 0 <==> LastTaken(flags) == -1
  {
    if flags != [] {
      var rest := flags[1..];
      assert IsFlags(rest) by {
        assert forall k :: 0 <= k < |rest| ==> rest[k] == flags[k + 1];
      }
      SumZeroIffNoneTaken(rest);
      if LastTaken(rest) >= 0 {
        assert flags[LastTaken(rest) + 1] == 1;
      } else if flags[0] != 1 {
        assert forall k :: 0 <= k < |flags| ==> flags[k] != 1 by {
          assert forall k :: 1 <= k < |flags| ==> flags[k] == rest[k - 1];
        }
      }
    }
  }

  /** A pass from index i that finds nothing taken leaves the flags alone. */
  lemma {:induction false} PassNothingTaken(flags: seq<int>, i: nat)
    requires forall k :: i <= k < |flags| ==> flags[k] != 1
    ensures TogglePass(flags, i) == flags
    decreases |flags| - i
  {
    if i < |flags| {
      PassNothingTaken(flags, i + 1);
    }
  }

  /** A pass from index i, where p >= i is the last taken flag, clears every
      flag from max(i, p - 1) on and leaves the flags below p - 1 set. */
  lemma {:induction false} PassFrom(flags: seq<int>, i: nat, p: nat)
    requires IsFlags(flags)
    requires i <= p < |flags| && flags[p] == 1
    requires forall k :: p < k < |flags| ==> flags[k] == 0
    ensures forall k :: 0 <= k < |flags| ==>
              TogglePass(flags, i)[k] == (if k < p - 1 then 1 else if k < i then flags[k] else 0)
    decreases |flags| - i
  {
    if flags[i] == 1 {
      var g := ResetBelow(flags[i := 0], i - 1);
      if i == p {
        PassNothingTaken(g, i + 1);
      } else {
        PassFrom(g, i + 1, p);
      }
    } else {
      PassFrom(flags, i + 1, p);
    }
  }

  /** One whole pass leaves exactly the flags below p - 1 taken, where p is
      the last flag taken before the pass: so flag p - 1, flag p and every
      flag after them end up cleared. */
  lemma PassClearsFromLastTaken(flags: seq<int>)
    requires IsFlags(flags)
    ensures forall k :: 0 <= k < |flags| ==>
              TogglePass(flags, 0)[k] == (if k < LastTaken(flags) - 1 then 1 else 0)
  {
    var p := LastTaken(flags);
    if p >= 0 {
      PassFrom(flags, 0, p);
    } else {
      PassNothingTaken(flags, 0);
    }
  }

  /** Whatever flags the loop starts from, no array it records takes the last
      member: the combination of all members is never recorded. */
  lemma {:induction false} AsWrittenNeverTakesLast(flags: seq<int>, fuel: nat)
    requires IsFlags(flags) && |flags| > 0
    ensures forall v :: v in VisitedAsWritten(flags, fuel) ==>
              |v| == |flags| && IsFlags(v) && v[|flags| - 1] == 0
    decreases fuel
  {
    if fuel > 0 && Sum(flags) != 0 {
      var next := TogglePass(flags, 0);
      PassClearsFromLastTaken(flags);
      AsWrittenNeverTakesLast(next, fuel - 1);
    }
  }

  /** Given enough passes, the loop as written stops only after recording the
      all-zero flag array, that is, the empty combination. */
  lemma {:induction false} AsWrittenEndsWithNothingTaken(flags: seq<int>, fuel: nat)
    requires IsFlags(flags) && LastTaken(flags) >= 0
    requires fuel > LastTaken(flags)
    ensures VisitedAsWritten(flags, fuel) != []
    ensures |Last(VisitedAsWritten(flags, fuel))| == |flags|
    ensures forall k :: 0 <= k < |flags| ==> Last(VisitedAsWritten(flags, fuel))[k] == 0
    decreases fuel
  {
    var p := LastTaken(flags);
    SumZeroIffNoneTaken(flags);
    var next := TogglePass(flags, 0);
    PassClearsFromLastTaken(flags);
    assert IsFlags(next);
    SumZeroIffNoneTaken(next);
    if p <= 1 {
      assert LastTaken(next) == -1;
      assert VisitedAsWritten(flags, fuel) == [next];
    } else {
      assert next[p - 2] == 1;
      assert LastTaken(next) == p - 2;
      AsWrittenEndsWithNothingTaken(next, fuel - 1);
      assert VisitedAsWritten(flags, fuel) == [next] + VisitedAsWritten(next, fuel - 1);
    }
  }

  function Last<X>(xs: seq<X>): X
    requires xs != []
  {
    xs[|xs| - 1]
  }

  /** With three members the loop as written records only the combination of
      the first member and the empty combination, then stops: six of the seven
      non-empty combinations, the full one among them, are never recorded. */
  lemma AsWrittenThreeMembers()
    ensures VisitedAsWritten([1, 1, 1], 5) == [[1, 0, 0], [0, 0, 0]]
  {
    assert ResetBelow([0, 0, 0], 1) == [1, 0, 0];
    assert TogglePass([0, 0, 1], 2) == [1, 0, 0] by {
      assert [0, 0, 1][2 := 0] == [0, 0, 0];
      assert ResetBelow([0, 0, 0], 1) == [1, 0, 0];
    }
    assert TogglePass([0, 1, 1], 1) == [1, 0, 0] by {
      assert [0, 1, 1][1 := 0] == [0, 0, 1];
      assert ResetBelow([0, 0, 1], 0) == [0, 0, 1];
    }
    assert TogglePass([1, 1, 1], 0) == [1, 0, 0] by {
      assert [1, 1, 1][0 := 0] == [0, 1, 1];
      assert ResetBelow([0, 1, 1], -1) == [0, 1, 1];
    }
    assert TogglePass([1, 0, 0], 0) == [0, 0, 0] by {
      assert [1, 0, 0][0 := 0] == [0, 0, 0];
      assert ResetBelow([0, 0, 0], -1) == [0, 0, 0];
      assert TogglePass([0, 0, 0], 1) == [0, 0, 0];
    }
    assert VisitedAsWritten([0, 0, 0], 3) == [];
    assert VisitedAsWritten([1, 0, 0], 4) == [[0, 0, 0]];
  }
}
