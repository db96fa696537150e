/** What the combination enumeration of a set system is meant to produce:
    every non-empty combination of members, chosen by a bitmask over the
    member indices, keyed by the names of the chosen members and mapped to
    the items all of them share. */
module Combinations {
  import opened Functions

  function Pow2(k: nat): (r: nat)
    ensures r >= 1
  {
    if k == 0 then 1 else 2 * Pow2(k - 1)
  }

  /** Bit `i` of `mask` is set: member `i` takes part in the combination. */
  predicate Bit(mask: nat, i: nat)
  {
    if i == 0 then mask % 2 == 1 else Bit(mask / 2, i - 1)
  }

  /** No member of a set system has the same name as another. */
  predicate DistinctNames<T>(sets: seq<NamedSet<T>>)
  {
    forall i, j :: 0 <= i < j < |sets| ==> sets[i].name != sets[j].name
  }

  predicate ValidIndices(idx: seq<nat>, n: nat)
  {
    forall k :: 0 <= k < |idx| ==> idx[k] < n
  }

  /** The members among the first `n` that `mask` selects, in ascending index order. */
  function Selected(mask: nat, n: nat): seq<nat>
  {
    if n == 0 then [] else Selected(mask, n - 1) + (if Bit(mask, n - 1) then [n - 1] else [])
  }

  /** The selection holds exactly the members below n whose bit is set, each
      once and in ascending index order. */
  lemma {:induction false} SelectedFacts(mask: nat, n: nat)
    ensures ValidIndices(Selected(mask, n), n)
    ensures forall j: nat :: j in Selected(mask, n) <==> j < n && Bit(mask, j)
    ensures forall k, l :: 0 <= k < l < |Selected(mask, n)| ==> Selected(mask, n)[k] < Selected(mask, n)[l]
  {
    if n > 0 {
      SelectedFacts(mask, n - 1);
    }
  }

  /** The names of the members at `idx`, one per index and in the same order. */
  function NamesOf<T>(sets: seq<NamedSet<T>>, idx: seq<nat>): (names: seq<string>)
    requires ValidIndices(idx, |sets|)
    ensures |names| == |idx|
  {
    if idx == [] then [] else NamesOf(sets, idx[..|idx| - 1]) + [sets[idx[|idx| - 1]].name]
  }

  /** Position k of the name list holds the name of the member at idx[k]. */
  lemma {:induction false} NamesAt<T>(sets: seq<NamedSet<T>>, idx: seq<nat>)
    requires ValidIndices(idx, |sets|)
    ensures forall k :: 0 <= k < |idx| ==> NamesOf(sets, idx)[k] == sets[idx[k]].name
  {
    if idx != [] {
      NamesAt(sets, idx[..|idx| - 1]);
    }
  }

  /** Intersection folded over the members at `idx`, starting from the first
      one's content: an item survives exactly when every member holds it. */
  function FoldOver<T>(sets: seq<NamedSet<T>>, idx: seq<nat>): set<T>
    requires |idx| > 0 && ValidIndices(idx, |sets|)
  {
    if |idx| == 1 then sets[idx[0]].content
    else Common(FoldOver(sets, idx[..|idx| - 1]), sets[idx[|idx| - 1]].content)
  }

  /** An item survives the fold exactly when every member at idx holds it. */
  lemma {:induction false} FoldMembers<T>(sets: seq<NamedSet<T>>, idx: seq<nat>, x: T)
    requires |idx| > 0 && ValidIndices(idx, |sets|)
    ensures x in FoldOver(sets, idx) <==> forall k :: 0 <= k < |idx| ==> x in sets[idx[k]].content
  {
    if |idx| > 1 {
      var front := idx[..|idx| - 1];
      FoldMembers(sets, front, x);
      assert forall k :: 0 <= k < |front| ==> front[k] == idx[k];
    }
  }

  /** Scanning member i extends the selection, its names and its fold by that
      member exactly when its bit is set. */
  lemma SelectionStep<T>(sets: seq<NamedSet<T>>, mask: nat, i: nat)
    requires i < |sets|
    ensures ValidIndices(Selected(mask, i), |sets|) && ValidIndices(Selected(mask, i + 1), |sets|)
    ensures !Bit(mask, i) ==> Selected(mask, i + 1) == Selected(mask, i)
    ensures Bit(mask, i) ==> Selected(mask, i + 1) == Selected(mask, i) + [i]
    ensures Bit(mask, i) ==>
              NamesOf(sets, Selected(mask, i + 1)) == NamesOf(sets, Selected(mask, i)) + [sets[i].name]
    ensures Bit(mask, i) && Selected(mask, i) == [] ==>
              FoldOver(sets, Selected(mask, i + 1)) == sets[i].content
    ensures Bit(mask, i) && Selected(mask, i) != [] ==>
              FoldOver(sets, Selected(mask, i + 1)) ==
              Common(FoldOver(sets, Selected(mask, i)), sets[i].content)
  {
    SelectedFacts(mask, i);
    SelectedFacts(mask, i + 1);
    if Bit(mask, i) {
      AppendStep(sets, Selected(mask, i), i);
    } else {
      assert Selected(mask, i) + [] == Selected(mask, i);
    }
  }

  /** Appending index i to an index list appends its name and intersects the fold with its content. */
  lemma AppendStep<T>(sets: seq<NamedSet<T>>, idx: seq<nat>, i: nat)
    requires ValidIndices(idx, |sets|) && i < |sets|
    ensures ValidIndices(idx + [i], |sets|)
    ensures NamesOf(sets, idx + [i]) == NamesOf(sets, idx) + [sets[i].name]
    ensures idx == [] ==> FoldOver(sets, idx + [i]) == sets[i].content
    ensures idx != [] ==> FoldOver(sets, idx + [i]) == Common(FoldOver(sets, idx), sets[i].content)
  {
    var after := idx + [i];
    assert after[..|after| - 1] == idx && after[|after| - 1] == i;
  }

  /** The key under which the combination `mask` is recorded. */
  function Key<T>(sets: seq<NamedSet<T>>, mask: nat): seq<string>
  {
    SelectedFacts(mask, |sets|);
    NamesOf(sets, Selected(mask, |sets|))
  }

  /** The value recorded for the combination `mask`. */
  function Combined<T>(sets: seq<NamedSet<T>>, mask: nat): set<T>
    requires 1 <= mask < Pow2(|sets|)
  {
    SelectedFacts(mask, |sets|);
    NonZeroMaskSelects(mask, |sets|);
    FoldOver(sets, Selected(mask, |sets|))
  }

  /** The entries recorded for the masks 1 .. m - 1, in that order. */
  function Table<T>(sets: seq<NamedSet<T>>, m: nat): map<seq<string>, set<T>>
    requires m <= Pow2(|sets|)
  {
    if m <= 1 then map[] else Table(sets, m - 1)[Key(sets, m - 1) := Combined(sets, m - 1)]
  }

  /** Every non-empty combination of the members: the masks 1 .. 2^n - 1. */
  function AllCombinations<T>(sets: seq<NamedSet<T>>): map<seq<string>, set<T>>
  {
    Table(sets, Pow2(|sets|))
  }

  lemma {:induction false} ZeroHasNoBits(i: nat)
    ensures !Bit(0, i)
  {
    if i > 0 {
      ZeroHasNoBits(i - 1);
    }
  }

  /** Below 2^n, a mask is determined by its lowest n bits. */
  lemma {:induction false} BitsDetermineMask(m1: nat, m2: nat, n: nat)
    requires m1 < Pow2(n) && m2 < Pow2(n)
    requires forall j :: 0 <= j < n ==> Bit(m1, j) == Bit(m2, j)
    ensures m1 == m2
  {
    if n > 0 {
      assert Bit(m1, 0) == Bit(m2, 0);
      forall j | 0 <= j < n - 1
        ensures Bit(m1 / 2, j) == Bit(m2 / 2, j)
      {
        assert Bit(m1, j + 1) == Bit(m2, j + 1);
      }
      BitsDetermineMask(m1 / 2, m2 / 2, n - 1);
    }
  }

  /** A mask in 1 .. 2^n - 1 selects at least one of the n members. */
  lemma NonZeroMaskSelects(mask: nat, n: nat)
    requires 1 <= mask < Pow2(n)
    ensures Selected(mask, n) != []
  {
    if Selected(mask, n) == [] {
      SelectedFacts(mask, n);
      forall j | 0 <= j < n
        ensures Bit(mask, j) == Bit(0, j)
      {
        ZeroHasNoBits(j);
      }
      BitsDetermineMask(mask, 0, n);
    }
  }

  /** Bit j of 2^k is set exactly when j == k. */
  lemma {:induction false} PowerBits(k: nat, j: nat)
    ensures Bit(Pow2(k), j) <==> j == k
  {
    if k == 0 {
      if j > 0 {
        ZeroHasNoBits(j - 1);
      }
    } else if j > 0 {
      assert Pow2(k) / 2 == Pow2(k - 1);
      PowerBits(k - 1, j - 1);
    }
  }

  /** With distinct names, equal name lists come from equal index lists. */
  lemma NamesInjective<T>(sets: seq<NamedSet<T>>, a: seq<nat>, b: seq<nat>)
    requires DistinctNames(sets)
    requires ValidIndices(a, |sets|) && ValidIndices(b, |sets|)
    requires NamesOf(sets, a) == NamesOf(sets, b)
    ensures a == b
  {
    NamesAt(sets, a);
    NamesAt(sets, b);
    forall k | 0 <= k < |a|
      ensures a[k] == b[k]
    {
      assert sets[a[k]].name == sets[b[k]].name;
    }
  }

  /** With distinct names, two different masks below 2^n get different keys. */
  lemma KeysDiffer<T>(sets: seq<NamedSet<T>>, m1: nat, m2: nat)
    requires DistinctNames(sets)
    requires m1 < Pow2(|sets|) && m2 < Pow2(|sets|)
    requires m1 != m2
    ensures Key(sets, m1) != Key(sets, m2)
  {
    var n := |sets|;
    if Key(sets, m1) == Key(sets, m2) {
      SelectedFacts(m1, n);
      SelectedFacts(m2, n);
      NamesInjective(sets, Selected(m1, n), Selected(m2, n));
      forall j | 0 <= j < n
        ensures Bit(m1, j) == Bit(m2, j)
      {
        if Bit(m1, j) {
          assert j in Selected(m2, n);
        }
        if Bit(m2, j) {
          assert j in Selected(m1, n);
        }
      }
      BitsDetermineMask(m1, m2, n);
    }
  }

  /** The keys of the table are exactly the keys of the masks 1 .. m - 1. */
  lemma {:induction false} TableKeys<T>(sets: seq<NamedSet<T>>, m: nat, key: seq<string>)
    requires m <= Pow2(|sets|)
    ensures key in Table(sets, m) <==> exists mask :: 1 <= mask < m && Key(sets, mask) == key
  {
    if m > 1 {
      TableKeys(sets, m - 1, key);
      var t := Table(sets, m - 1);
      var last := Key(sets, m - 1);
      assert Table(sets, m) == t[last := Combined(sets, m - 1)];
      if key in Table(sets, m) && key != last {
        assert key in t;
        var mask :| 1 <= mask < m - 1 && Key(sets, mask) == key;
      }
      if exists mask :: 1 <= mask < m && Key(sets, mask) == key {
        var mask :| 1 <= mask < m && Key(sets, mask) == key;
        if mask < m - 1 {
          assert key in t;
        }
      }
    }
  }

  /** The newest mask's entry is its own combination. */
  lemma TableNewest<T>(sets: seq<NamedSet<T>>, m: nat)
    requires 2 <= m <= Pow2(|sets|)
    ensures Key(sets, m - 1) in Table(sets, m)
    ensures Table(sets, m)[Key(sets, m - 1)] == Combined(sets, m - 1)
  {
  }

  /** Recording the newest mask leaves the entry of any other key as it was. */
  lemma TableKeeps<T>(sets: seq<NamedSet<T>>, m: nat, key: seq<string>)
    requires 2 <= m <= Pow2(|sets|)
    requires key in Table(sets, m - 1) && key != Key(sets, m - 1)
    ensures key in Table(sets, m) && Table(sets, m)[key] == Table(sets, m - 1)[key]
  {
  }

  /** Recording one more mask on top of earlier entries extends the table by that mask. */
  lemma TableExtend<T>(earlier: map<seq<string>, set<T>>, sets: seq<NamedSet<T>>, m: nat)
    requires 1 <= m < Pow2(|sets|)
    ensures (earlier + Table(sets, m))[Key(sets, m) := Combined(sets, m)] == earlier + Table(sets, m + 1)
  {
  }

  /** With distinct names, each mask 1 .. m - 1 keeps its own value: no later mask overwrites it. */
  lemma {:induction false} TableValue<T>(sets: seq<NamedSet<T>>, m: nat, mask: nat)
    requires DistinctNames(sets)
    requires 1 <= mask < m <= Pow2(|sets|)
    ensures Key(sets, mask) in Table(sets, m)
    ensures Table(sets, m)[Key(sets, mask)] == Combined(sets, mask)
  {
    var prev := m - 1;
    if mask == prev {
      TableNewest(sets, m);
    } else {
      assert prev < Pow2(|sets|);
      TableValue(sets, prev, mask);
      KeysDiffer(sets, prev, mask);
      TableKeeps(sets, m, Key(sets, mask));
    }
  }

  /** With distinct names, the masks 1 .. m - 1 give m - 1 distinct entries. */
  lemma {:induction false} TableSize<T>(sets: seq<NamedSet<T>>, m: nat)
    requires DistinctNames(sets)
    requires 1 <= m <= Pow2(|sets|)
    ensures |Table(sets, m)| == m - 1
  {
    if m > 1 {
      var prev := m - 1;
      assert prev < Pow2(|sets|);
      TableSize(sets, prev);
      var key := Key(sets, prev);
      TableKeys(sets, prev, key);
      forall mask | 1 <= mask < prev
        ensures Key(sets, mask) != key
      {
        KeysDiffer(sets, mask, prev);
      }
      assert key !in Table(sets, prev);
    }
  }

  /** With distinct names there are exactly 2^n - 1 entries, one per non-empty combination. */
  lemma Complete<T>(sets: seq<NamedSet<T>>)
    requires DistinctNames(sets)
    ensures |AllCombinations(sets)| == Pow2(|sets|) - 1
    ensures forall mask :: 1 <= mask < Pow2(|sets|) ==>
              Key(sets, mask) in AllCombinations(sets) &&
              AllCombinations(sets)[Key(sets, mask)] == Combined(sets, mask)
  {
    TableSize(sets, Pow2(|sets|));
    forall mask | 1 <= mask < Pow2(|sets|)
      ensures Key(sets, mask) in AllCombinations(sets)
      ensures AllCombinations(sets)[Key(sets, mask)] == Combined(sets, mask)
    {
      TableValue(sets, Pow2(|sets|), mask);
    }
  }

  /** No key is recorded that does not come from a non-empty combination. */
  lemma OnlyCombinationKeys<T>(sets: seq<NamedSet<T>>, key: seq<string>)
    requires key in AllCombinations(sets)
    ensures exists mask :: 1 <= mask < Pow2(|sets|) && Key(sets, mask) == key
  {
    TableKeys(sets, Pow2(|sets|), key);
  }

  /** The mask whose bits are the 0/1 flag array of the source: flag i equal
      to 1 means member i is taken, and sets bit i. */
  function MaskOf(flags: seq<int>): (mask: nat)
    ensures mask < Pow2(|flags|)
    ensures forall i :: 0 <= i < |flags| ==> (Bit(mask, i) <==> flags[i] == 1)
  {
    if flags == [] then 0
    else
      var rest := MaskOf(flags[1..]);
      var mask := (if flags[0] == 1 then 1 else 0) + 2 * rest;
      assert forall i :: 1 <= i < |flags| ==> (Bit(mask, i) <==> Bit(rest, i - 1));
      mask
  }

  /** Every flag array with at least one member taken has its entry, and the
      entry holds exactly the items common to every taken member. */
  lemma EveryCombinationRecorded<T>(sets: seq<NamedSet<T>>, flags: seq<int>, x: T)
    requires DistinctNames(sets)
    requires |flags| == |sets|
    requires exists i :: 0 <= i < |flags| && flags[i] == 1
    ensures Key(sets, MaskOf(flags)) in AllCombinations(sets)
    ensures x in AllCombinations(sets)[Key(sets, MaskOf(flags))] <==>
              forall i :: 0 <= i < |sets| && flags[i] == 1 ==> x in sets[i].content
  {
    var n := |sets|;
    var mask := MaskOf(flags);
    var i0 :| 0 <= i0 < n && flags[i0] == 1;
    if mask == 0 {
      ZeroHasNoBits(i0);
      assert false;
    }
    Complete(sets);
    CombinedMembers(sets, mask, x);
  }

  /** An item is in a combination's value exactly when every member whose bit
      is set holds it. */
  lemma CombinedMembers<T>(sets: seq<NamedSet<T>>, mask: nat, x: T)
    requires 1 <= mask < Pow2(|sets|)
    ensures x in Combined(sets, mask) <==>
              forall i :: 0 <= i < |sets| && Bit(mask, i) ==> x in sets[i].content
  {
    var n := |sets|;
    var idx := Selected(mask, n);
    SelectedFacts(mask, n);
    NonZeroMaskSelects(mask, n);
    FoldMembers(sets, idx, x);
    assert Combined(sets, mask) == FoldOver(sets, idx);
    if forall k :: 0 <= k < |idx| ==> x in sets[idx[k]].content {
      forall i | 0 <= i < n && Bit(mask, i)
        ensures x in sets[i].content
      {
        assert i in idx;
        var k :| 0 <= k < |idx| && idx[k] == i;
      }
    }
  }

  /** A one-member combination is keyed by that member's name and holds its whole content. */
  lemma Singleton<T>(sets: seq<NamedSet<T>>, k: nat)
    requires DistinctNames(sets)
    requires k < |sets|
    ensures [sets[k].name] in AllCombinations(sets)
    ensures AllCombinations(sets)[[sets[k].name]] == sets[k].content
  {
    var n := |sets|;
    var mask := Pow2(k);
    SelectedPower(k, n);
    assert [k][..0] == [];
    assert Key(sets, mask) == [sets[k].name];
    BitsBelowPower(k, n);
    Complete(sets);
    assert Combined(sets, mask) == FoldOver(sets, [k]);
  }

  /** The mask 2^k selects member k alone. */
  lemma {:induction false} SelectedPower(k: nat, n: nat)
    ensures Selected(Pow2(k), n) == if k < n then [k] else []
  {
    if n > 0 {
      SelectedPower(k, n - 1);
      PowerBits(k, n - 1);
    }
  }

  lemma {:induction false} BitsBelowPower(k: nat, n: nat)
    requires k < n
    ensures Pow2(k) < Pow2(n)
  {
    if k < n - 1 {
      BitsBelowPower(k, n - 1);
    }
  }

  /** Every recorded value lies inside each member its combination selects. */
  lemma ValueWithinMembers<T>(sets: seq<NamedSet<T>>, mask: nat, j: nat)
    requires 1 <= mask < Pow2(|sets|)
    requires j < |sets| && Bit(mask, j)
    ensures Combined(sets, mask) <= sets[j].content
  {
    var idx := Selected(mask, |sets|);
    SelectedFacts(mask, |sets|);
    NonZeroMaskSelects(mask, |sets|);
    var k :| 0 <= k < |idx| && idx[k] == j;
    forall x | x in Combined(sets, mask)
      ensures x in sets[j].content
    {
      FoldMembers(sets, idx, x);
    }
  }

  /** A larger combination records no more than a smaller one it contains. */
  lemma CombinedAntitone<T>(sets: seq<NamedSet<T>>, s: nat, t: nat)
    requires 1 <= s < Pow2(|sets|) && 1 <= t < Pow2(|sets|)
    requires forall j :: 0 <= j < |sets| && Bit(s, j) ==> Bit(t, j)
    ensures Combined(sets, t) <= Combined(sets, s)
  {
    var n := |sets|;
    var sel := Selected(s, n);
    SelectedFacts(s, n);
    NonZeroMaskSelects(s, n);
    forall k | 0 <= k < |sel|
      ensures Combined(sets, t) <= sets[sel[k]].content
    {
      ValueWithinMembers(sets, t, sel[k]);
    }
    forall x | x in Combined(sets, t)
      ensures x in Combined(sets, s)
    {
      FoldMembers(sets, sel, x);
    }
  }

  /** Folding the same members in any order yields the same items. */
  lemma FoldOrderIndependent<T>(sets: seq<NamedSet<T>>, idx: seq<nat>, perm: seq<nat>)
    requires |idx| > 0 && ValidIndices(idx, |sets|)
    requires multiset(perm) == multiset(idx)
    ensures ValidIndices(perm, |sets|) && |perm| > 0
    ensures FoldOver(sets, perm) == FoldOver(sets, idx)
  {
    forall k | 0 <= k < |perm|
      ensures perm[k] in idx
    {
      assert perm[k] in multiset(perm);
    }
    forall k | 0 <= k < |idx|
      ensures idx[k] in perm
    {
      assert idx[k] in multiset(idx);
    }
    assert |perm| == |multiset(perm)| == |multiset(idx)| == |idx|;
    FoldShrinksWithMoreMembers(sets, idx, perm);
    FoldShrinksWithMoreMembers(sets, perm, idx);
  }

  /** If every member at `b` also appears at `a`, the fold over `a` lies inside the fold over `b`. */
  lemma FoldShrinksWithMoreMembers<T>(sets: seq<NamedSet<T>>, a: seq<nat>, b: seq<nat>)
    requires |a| > 0 && ValidIndices(a, |sets|)
    requires |b| > 0 && ValidIndices(b, |sets|)
    requires forall k :: 0 <= k < |b| ==> b[k] in a
    ensures FoldOver(sets, a) <= FoldOver(sets, b)
  {
    forall x | x in FoldOver(sets, a)
      ensures x in FoldOver(sets, b)
    {
      FoldMembers(sets, a, x);
      FoldMembers(sets, b, x);
      forall k | 0 <= k < |b|
        ensures x in sets[b[k]].content
      {
        var l :| 0 <= l < |a| && a[l] == b[k];
      }
    }
  }

  /** The example group A = {1, 2, 3}, B = {2, 3, 4}, C = {3, 4, 5}. */
  predicate IsExampleGroup(sets: seq<NamedSet<int>>)
  {
    sets == [NamedSet("A", {1, 2, 3}), NamedSet("B", {2, 3, 4}), NamedSet("C", {3, 4, 5})]
  }

  /** In the example group, all three sets share only 3. */
  lemma ExampleAllThree(sets: seq<NamedSet<int>>)
    requires IsExampleGroup(sets)
    ensures Key(sets, 7) == ["A", "B", "C"] && Combined(sets, 7) == {3}
  {
    assert Selected(7, 3) == [0, 1, 2];
    NamesAt(sets, [0, 1, 2]);
    forall x: int
      ensures x in Combined(sets, 7) <==> x == 3
    {
      var idx: seq<nat> := [0, 1, 2];
      FoldMembers(sets, idx, x);
      if x in Combined(sets, 7) {
        assert x in sets[idx[0]].content && x in sets[idx[1]].content && x in sets[idx[2]].content;
      }
    }
  }

  /** In the example group, A and B share 2 and 3. */
  lemma ExampleFirstTwo(sets: seq<NamedSet<int>>)
    requires IsExampleGroup(sets)
    ensures Key(sets, 3) == ["A", "B"] && Combined(sets, 3) == {2, 3}
  {
    assert Selected(3, 3) == [0, 1];
    NamesAt(sets, [0, 1]);
    forall x: int
      ensures x in Combined(sets, 3) <==> x == 2 || x == 3
    {
      FoldMembers(sets, [0, 1], x);
    }
  }

  /** In the example group, B and C share 3 and 4. */
  lemma ExampleLastTwo(sets: seq<NamedSet<int>>)
    requires IsExampleGroup(sets)
    ensures Key(sets, 6) == ["B", "C"] && Combined(sets, 6) == {3, 4}
  {
    assert Selected(6, 3) == [1, 2];
    NamesAt(sets, [1, 2]);
    forall x: int
      ensures x in Combined(sets, 6) <==> x == 3 || x == 4
    {
      FoldMembers(sets, [1, 2], x);
    }
  }

  /** In the example group, A and C share only 3. */
  lemma ExampleOuterTwo(sets: seq<NamedSet<int>>)
    requires IsExampleGroup(sets)
    ensures Key(sets, 5) == ["A", "C"] && Combined(sets, 5) == {3}
  {
    assert Selected(5, 3) == [0, 2];
    NamesAt(sets, [0, 2]);
    forall x: int
      ensures x in Combined(sets, 5) <==> x == 3
    {
      FoldMembers(sets, [0, 2], x);
    }
  }
}
