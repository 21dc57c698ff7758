/** The query layer of `src/services/driverService.js`: sorting by current
    standing with "no standing" last, and selecting the world champions. */
module DriverService {
  import opened DriverData
  import opened Seqs

  // ---------------------------------------------------------------------------
  // sortDriversByStanding

  /** The order the comparator means: a real standing beats "no standing", and
      a smaller real standing beats a larger one. */
  predicate StandsBefore(a: Driver, b: Driver)
  {
    a.currentStanding != 0 && (b.currentStanding == 0 || a.currentStanding < b.currentStanding)
  }

  /** The comparator handed to `Array.prototype.sort`: negative when `a` goes
      first, positive when `b` goes first, zero when they tie. */
  function CompareByStanding(a: Driver, b: Driver): (r: int)
    ensures r < 0 <==> StandsBefore(a, b)
    ensures r == 0 <==> a.currentStanding == b.currentStanding
  {
    if a.currentStanding == 0 && b.currentStanding == 0 then 0
    else if a.currentStanding == 0 then 1
    else if b.currentStanding == 0 then -1
    else a.currentStanding - b.currentStanding
  }

  /** The comparator is consistent in the sense `Array.prototype.sort`
      requires: swapping the arguments flips the sign, and both "not after"
      and "tie" are transitive. */
  lemma CompareByStandingIsConsistent(a: Driver, b: Driver, c: Driver)
    ensures CompareByStanding(a, b) < 0 <==> CompareByStanding(b, a) > 0
    ensures CompareByStanding(a, b) == 0 <==> CompareByStanding(b, a) == 0
    ensures CompareByStanding(a, b) <= 0 && CompareByStanding(b, c) <= 0 ==> CompareByStanding(a, c) <= 0
    ensures CompareByStanding(a, b) == 0 && CompareByStanding(b, c) == 0 ==> CompareByStanding(a, c) == 0
  {
  }

  /** Every pair in order: no later driver stands strictly before an earlier one. */
  ghost predicate OrderedByStanding(s: seq<Driver>)
  {
    forall i, j :: 0 <= i < j < |s| ==> CompareByStanding(s[i], s[j]) <= 0
  }

  /** The drivers of `s` with standing `v`, in their order in `s`: the class of
      drivers the comparator treats as equal. */
  function OfStanding(s: seq<Driver>, v: nat): seq<Driver>
  {
    Filter(s, (d: Driver) => d.currentStanding == v)
  }

  lemma OfStandingSnoc(s: seq<Driver>, x: Driver, v: nat)
    ensures OfStanding(s + [x], v) == OfStanding(s, v) + (if x.currentStanding == v then [x] else [])
  {
    FilterSnoc(s, x, (d: Driver) => d.currentStanding == v);
  }

  /** Inserting `x` into an already sorted prefix as the shifting loop does:
      walk left past every driver that compares greater than `x`. */
  function Insert(s: seq<Driver>, x: Driver): seq<Driver>
    decreases |s|
  {
    if s == [] then [x]
    else if CompareByStanding(s[|s| - 1], x) > 0 then Insert(s[..|s| - 1], x) + [s[|s| - 1]]
    else s + [x]
  }

  /** The order a stable sort with `CompareByStanding` produces, built by
      inserting the elements one by one from the front. */
  function SortByStanding(s: seq<Driver>): seq<Driver>
    decreases |s|
  {
    if s == [] then []
    else Insert(SortByStanding(s[..|s| - 1]), s[|s| - 1])
  }

  lemma {:induction false} InsertPermutes(s: seq<Driver>, x: Driver)
    ensures multiset(Insert(s, x)) == multiset(s) + multiset{x}
    decreases |s|
  {
    if s != [] && CompareByStanding(s[|s| - 1], x) > 0 {
      assert s == s[..|s| - 1] + [s[|s| - 1]];
      InsertPermutes(s[..|s| - 1], x);
    }
  }

  /** The model sort only reorders: same drivers, same multiplicities. */
  lemma {:induction false} SortByStandingPermutes(s: seq<Driver>)
    ensures multiset(SortByStanding(s)) == multiset(s)
    decreases |s|
  {
    if s != [] {
      assert s == s[..|s| - 1] + [s[|s| - 1]];
      SortByStandingPermutes(s[..|s| - 1]);
      InsertPermutes(SortByStanding(s[..|s| - 1]), s[|s| - 1]);
    }
  }

  /** Appending a driver that no earlier driver stands after keeps the order. */
  lemma OrderedSnoc(r: seq<Driver>, y: Driver)
    requires OrderedByStanding(r)
    requires forall i :: 0 <= i < |r| ==> CompareByStanding(r[i], y) <= 0
    ensures OrderedByStanding(r + [y])
  {
    var t := r + [y];
    forall i, j | 0 <= i < j < |t| ensures CompareByStanding(t[i], t[j]) <= 0 {
      if j < |r| {
        assert t[i] == r[i] && t[j] == r[j];
      } else {
        assert t[i] == r[i] && t[j] == y;
      }
    }
  }

  lemma {:induction false} InsertOrdered(s: seq<Driver>, x: Driver)
    requires OrderedByStanding(s)
    ensures OrderedByStanding(Insert(s, x))
    decreases |s|
  {
    if s != [] {
      var init, last := s[..|s| - 1], s[|s| - 1];
      if CompareByStanding(last, x) > 0 {
        assert OrderedByStanding(init);
        InsertOrdered(init, x);
        var r0 := Insert(init, x);
        InsertPermutes(init, x);
        forall i | 0 <= i < |r0| ensures CompareByStanding(r0[i], last) <= 0 {
          var y := r0[i];
          assert y in multiset(r0);
          if y != x {
            assert y in multiset(init);
            var k :| 0 <= k < |init| && init[k] == y;
            assert s[k] == y;
          }
        }
        OrderedSnoc(r0, last);
      } else {
        forall i | 0 <= i < |s| ensures CompareByStanding(s[i], x) <= 0 {
          assert CompareByStanding(s[i], last) <= 0 || i == |s| - 1;
        }
        OrderedSnoc(s, x);
      }
    }
  }

  /** Inserting `x` appends it to its own standing class and leaves every other
      class as it was: the insertion never moves `x` past an equal driver. */
  lemma {:induction false} InsertOfStanding(s: seq<Driver>, x: Driver, v: nat)
    ensures OfStanding(Insert(s, x), v) == OfStanding(s, v) + (if x.currentStanding == v then [x] else [])
    decreases |s|
  {
    var X := if x.currentStanding == v then [x] else [];
    if s == [] {
      OfStandingSnoc([], x, v);
    } else {
      var init, last := s[..|s| - 1], s[|s| - 1];
      assert s == init + [last];
      var L := if last.currentStanding == v then [last] else [];
      if CompareByStanding(last, x) > 0 {
        assert Insert(s, x) == Insert(init, x) + [last];
        assert last.currentStanding != x.currentStanding;
        assert X + L == L + X;
        calc {
          OfStanding(Insert(s, x), v);
          { OfStandingSnoc(Insert(init, x), last, v); }
          OfStanding(Insert(init, x), v) + L;
          { InsertOfStanding(init, x, v); }
          OfStanding(init, v) + X + L;
          OfStanding(init, v) + (L + X);
          (OfStanding(init, v) + L) + X;
          { OfStandingSnoc(init, last, v); }
          OfStanding(s, v) + X;
        }
      } else {
        assert Insert(s, x) == s + [x];
        OfStandingSnoc(s, x, v);
      }
    }
  }

  /** The model sort puts the drivers in standing order. */
  lemma {:induction false} SortByStandingOrdered(s: seq<Driver>)
    ensures OrderedByStanding(SortByStanding(s))
    decreases |s|
  {
    if s != [] {
      SortByStandingOrdered(s[..|s| - 1]);
      InsertOrdered(SortByStanding(s[..|s| - 1]), s[|s| - 1]);
    }
  }

  /** The model sort is stable: within each standing the input order is kept. */
  lemma {:induction false} SortByStandingStable(s: seq<Driver>, v: nat)
    ensures OfStanding(SortByStanding(s), v) == OfStanding(s, v)
    decreases |s|
  {
    if s != [] {
      var init, last := s[..|s| - 1], s[|s| - 1];
      assert s == init + [last];
      SortByStandingStable(init, v);
      InsertOfStanding(SortByStanding(init), last, v);
      OfStandingSnoc(init, last, v);
    }
  }

  /** A driver is among those of its own standing exactly when it is in the
      list. */
  lemma InOfStanding(s: seq<Driver>, x: Driver, v: nat)
    ensures x in OfStanding(s, v) <==> x in s && x.currentStanding == v
  {
    FilterCount(s, (d: Driver) => d.currentStanding == v, x);
    assert x in OfStanding(s, v) <==> multiset(OfStanding(s, v))[x] > 0;
  }

  /** In an ordered list nobody stands after the last driver. */
  lemma LastStandsLast(r: seq<Driver>, x: Driver)
    requires OrderedByStanding(r) && x in r
    ensures CompareByStanding(x, r[|r| - 1]) <= 0
  {
    var i :| 0 <= i < |r| && r[i] == x;
    if i < |r| - 1 {
      assert CompareByStanding(r[i], r[|r| - 1]) <= 0;
    }
  }

  /** Two ordered lists with the same standing classes end with drivers of
      the same standing: each last driver occurs in the other list, so
      neither stands before the other. */
  lemma LastsShareStanding(r1: seq<Driver>, r2: seq<Driver>)
    requires OrderedByStanding(r1) && OrderedByStanding(r2)
    requires r1 != [] && r2 != []
    requires forall v :: OfStanding(r1, v) == OfStanding(r2, v)
    ensures r1[|r1| - 1].currentStanding == r2[|r2| - 1].currentStanding
  {
    var a, b := r1[|r1| - 1], r2[|r2| - 1];
    InOfStanding(r2, b, b.currentStanding);
    InOfStanding(r1, b, b.currentStanding);
    LastStandsLast(r1, b);
    InOfStanding(r1, a, a.currentStanding);
    InOfStanding(r2, a, a.currentStanding);
    LastStandsLast(r2, a);
  }

  /** Removing last drivers of one standing from lists with the same
      standing classes: the removed drivers are the same, and the classes of
      what remains still agree. */
  lemma DropLastKeepsClasses(init1: seq<Driver>, a: Driver, init2: seq<Driver>, b: Driver)
    requires a.currentStanding == b.currentStanding
    requires forall v :: OfStanding(init1 + [a], v) == OfStanding(init2 + [b], v)
    ensures a == b
    ensures forall w :: OfStanding(init1, w) == OfStanding(init2, w)
  {
    forall w ensures OfStanding(init1, w) == OfStanding(init2, w) {
      OfStandingSnoc(init1, a, w);
      OfStandingSnoc(init2, b, w);
      assert OfStanding(init1 + [a], w) == OfStanding(init2 + [b], w);
      var f1, f2 := OfStanding(init1, w), OfStanding(init2, w);
      if w == a.currentStanding {
        assert f1 + [a] == f2 + [b];
        assert f1 == (f1 + [a])[..|f1|] && f2 == (f2 + [b])[..|f2|];
      } else {
        assert f1 + [] == f1 && f2 + [] == f2;
      }
    }
    var v := a.currentStanding;
    OfStandingSnoc(init1, a, v);
    OfStandingSnoc(init2, b, v);
    var g1, g2 := OfStanding(init1, v) + [a], OfStanding(init2, v) + [b];
    assert g1 == g2;
    assert a == g1[|g1| - 1] == g2[|g2| - 1] == b;
  }

  /** Dropping the last driver of an ordered list keeps it ordered. */
  lemma OrderedInit(r: seq<Driver>)
    requires OrderedByStanding(r) && r != []
    ensures OrderedByStanding(r[..|r| - 1])
  {
    var init := r[..|r| - 1];
    forall i, j | 0 <= i < j < |init| ensures CompareByStanding(init[i], init[j]) <= 0 {
      assert init[i] == r[i] && init[j] == r[j];
    }
  }

  /** The order is determined: two lists in standing order whose standing
      classes agree are equal. */
  lemma {:induction false} StableOrderIsUnique(r1: seq<Driver>, r2: seq<Driver>)
    requires OrderedByStanding(r1) && OrderedByStanding(r2)
    requires forall v :: OfStanding(r1, v) == OfStanding(r2, v)
    ensures r1 == r2
    decreases |r1|
  {
    if r1 == [] || r2 == [] {
      var r := if r1 == [] then r2 else r1;
      var other := if r1 == [] then r1 else r2;
      if r != [] {
        var b := r[|r| - 1];
        InOfStanding(r, b, b.currentStanding);
        InOfStanding(other, b, b.currentStanding);
        assert false;
      }
    } else {
      var init1, a := r1[..|r1| - 1], r1[|r1| - 1];
      var init2, b := r2[..|r2| - 1], r2[|r2| - 1];
      assert r1 == init1 + [a] && r2 == init2 + [b];
      LastsShareStanding(r1, r2);
      DropLastKeepsClasses(init1, a, init2, b);
      OrderedInit(r1);
      OrderedInit(r2);
      StableOrderIsUnique(init1, init2);
    }
  }

  /** Any stable sort by the standing comparator, whatever its algorithm,
      produces exactly `SortByStanding`. */
  lemma StableSortIsSortByStanding(s: seq<Driver>, r: seq<Driver>)
    requires OrderedByStanding(r)
    requires forall v :: OfStanding(r, v) == OfStanding(s, v)
    ensures r == SortByStanding(s)
  {
    SortByStandingOrdered(s);
    forall v ensures OfStanding(r, v) == OfStanding(SortByStanding(s), v) {
      SortByStandingStable(s, v);
    }
    StableOrderIsUnique(r, SortByStanding(s));
  }

  /** What "in standing order" promises: real standings ascend, and every
      driver without a standing comes after every driver with one. */
  lemma OrderedByStandingMeans(s: seq<Driver>, i: int, j: int)
    requires OrderedByStanding(s)
    requires 0 <= i < j < |s|
    ensures s[i].currentStanding != 0 && s[j].currentStanding != 0 ==> s[i].currentStanding <= s[j].currentStanding
    ensures s[j].currentStanding != 0 ==> s[i].currentStanding != 0
  {
  }

  /** Splitting `init + [last]` at a position inside `init`. */
  lemma SplitSnoc(init: seq<Driver>, last: Driver, j: nat)
    requires j <= |init|
    ensures (init + [last])[..j] == init[..j]
    ensures (init + [last])[j..] == init[j..] + [last]
  {
  }

  /** One step of `InsertAt`: a last driver that compares greater than `x`
      stays behind `x`, after the rest of the prefix. */
  lemma InsertAtSnoc(init: seq<Driver>, last: Driver, x: Driver, j: nat)
    requires j <= |init|
    requires Insert(init, x) == init[..j] + [x] + init[j..]
    requires CompareByStanding(last, x) > 0
    ensures Insert(init + [last], x) == (init + [last])[..j] + [x] + (init + [last])[j..]
  {
    var s := init + [last];
    assert s[..|s| - 1] == init && s[|s| - 1] == last;
    SplitSnoc(init, last, j);
    calc {
      Insert(s, x);
      Insert(init, x) + [last];
      init[..j] + [x] + init[j..] + [last];
      s[..j] + [x] + (init[j..] + [last]);
      s[..j] + [x] + s[j..];
    }
  }

  /** Shifting loop, one step: when every element of `s` from `j` on compares
      greater than `x` and the one before `j` (if any) does not, the insertion
      puts `x` at position `j`. */
  lemma {:induction false} InsertAt(s: seq<Driver>, x: Driver, j: nat)
    requires j <= |s|
    requires forall k :: j <= k < |s| ==> CompareByStanding(s[k], x) > 0
    requires j > 0 ==> CompareByStanding(s[j - 1], x) <= 0
    ensures Insert(s, x) == s[..j] + [x] + s[j..]
    decreases |s|
  {
    if |s| > j {
      var init, last := s[..|s| - 1], s[|s| - 1];
      assert s == init + [last];
      forall k | j <= k < |init| ensures CompareByStanding(init[k], x) > 0 {
        assert init[k] == s[k];
      }
      assert j > 0 ==> init[j - 1] == s[j - 1];
      InsertAt(init, x, j);
      InsertAtSnoc(init, last, x, j);
    } else if j == 0 {
      assert s == [];
    } else {
      assert s[..j] == s && s[j..] == [];
    }
  }

  /** The shifting loop of one insertion pass: moves every driver of the
      prefix `a[..i]` that compares greater than `a[i]` one place right, and
      returns the gap `j` that is left. */
  method ShiftGreater(a: array<Driver>, i: nat) returns (j: nat)
    requires i < a.Length
    modifies a
    ensures j <= i
    ensures forall k :: 0 <= k < j ==> a[k] == old(a[k])
    ensures forall k :: j <= k < i ==> a[k + 1] == old(a[k])
    ensures a[i + 1..] == old(a[i + 1..])
    ensures forall k :: j <= k < i ==> CompareByStanding(old(a[k]), old(a[i])) > 0
    ensures j > 0 ==> CompareByStanding(old(a[j - 1]), old(a[i])) <= 0
  {
    ghost var before := a[..];
    var x := a[i];
    j := i;
    while j > 0 && CompareByStanding(a[j - 1], x) > 0
      invariant 0 <= j <= i
      invariant forall k :: 0 <= k < j ==> a[k] == before[k]
      invariant forall k :: j <= k < i ==> a[k + 1] == before[k]
      invariant a[i + 1..] == before[i + 1..]
      invariant forall k :: j <= k < i ==> CompareByStanding(before[k], x) > 0
    {
      a[j] := a[j - 1];
      j := j - 1;
    }
  }

  /** One pass of the insertion sort: moves `a[i]` left past every driver of
      the prefix `a[..i]` that compares greater than it. */
  method InsertInPlace(a: array<Driver>, i: nat)
    requires i < a.Length
    modifies a
    ensures a[..i + 1] == Insert(old(a[..i]), old(a[i]))
    ensures forall k :: i < k < a.Length ==> a[k] == old(a[k])
  {
    ghost var before := a[..];
    var x := a[i];
    var j := ShiftGreater(a, i);
    ghost var shifted := a[..];
    a[j] := x;
    assert a[..] == shifted[j := x];
    ShiftedIsInsertion(shifted[j := x], before, i, j);
    assert before[..i] == old(a[..i]);
    assert a[i + 1..] == before[i + 1..];
  }

  /** The array after the shifting loop, read as a sequence `t`: the prefix up
      to `j` as it was, then the moved driver, then the rest of the prefix one
      place right. Where the loop stopped, this is `Insert` of the prefix. */
  lemma ShiftedIsInsertion(t: seq<Driver>, before: seq<Driver>, i: nat, j: nat)
    requires j <= i < |before| == |t|
    requires forall k :: 0 <= k < j ==> t[k] == before[k]
    requires t[j] == before[i]
    requires forall k :: j <= k < i ==> t[k + 1] == before[k]
    requires forall k :: j <= k < i ==> CompareByStanding(before[k], before[i]) > 0
    requires j > 0 ==> CompareByStanding(before[j - 1], before[i]) <= 0
    ensures t[..i + 1] == Insert(before[..i], before[i])
  {
    var prefix, x := before[..i], before[i];
    var inserted := prefix[..j] + [x] + prefix[j..];
    forall k | 0 <= k <= i ensures t[k] == inserted[k] {
      if k < j {
        assert inserted[k] == prefix[..j][k];
      } else if k > j {
        assert t[(k - 1) + 1] == before[k - 1];
        assert inserted[k] == prefix[j..][k - j - 1];
      }
    }
    InsertAt(prefix, x, j);
  }

  /** Sorts `a` in place by the standing comparator, stably: an insertion sort
      that shifts greater drivers right and drops each new driver into the gap. */
  method SortInPlace(a: array<Driver>)
    modifies a
    ensures a[..] == SortByStanding(old(a[..]))
  {
    ghost var input := a[..];
    var i := 0;
    while i < a.Length
      invariant 0 <= i <= a.Length
      invariant a[..i] == SortByStanding(input[..i])
      invariant forall k :: i <= k < a.Length ==> a[k] == input[k]
    {
      InsertInPlace(a, i);
      assert input[..i + 1] == input[..i] + [input[i]];
      i := i + 1;
    }
    assert a[..] == a[..a.Length];
    assert input == input[..a.Length];
  }

  /** `sortDriversByStanding`: `[]` for anything that is not an array;
      otherwise a copy of the array, sorted stably by the standing comparator.
      The caller's array is a value here, so only the copy is sorted. */
  method SortDriversByStanding(drivers: Input<Driver>) returns (sorted: seq<Driver>)
    ensures drivers.NotAnArray? ==> sorted == []
    ensures drivers.Array? ==> sorted == SortByStanding(drivers.items)
    ensures drivers.Array? ==> multiset(sorted) == multiset(drivers.items)
    ensures OrderedByStanding(sorted)
    ensures forall i, j :: 0 <= i < j < |sorted| && sorted[j].currentStanding != 0 ==>
              sorted[i].currentStanding != 0 && sorted[i].currentStanding <= sorted[j].currentStanding
    ensures drivers.Array? ==> forall v :: OfStanding(sorted, v) == OfStanding(drivers.items, v)
  {
    match drivers
    case NotAnArray =>
      sorted := [];
    case Array(items) =>
      var copy := new Driver[|items|](k requires 0 <= k < |items| => items[k]);
      assert copy[..] == items;
      SortInPlace(copy);
      sorted := copy[..];
      SortByStandingOrdered(items);
      SortByStandingPermutes(items);
      forall v ensures OfStanding(sorted, v) == OfStanding(items, v) {
        SortByStandingStable(items, v);
      }
  }

  // ---------------------------------------------------------------------------
  // filterChampions

  predicate IsChampion(d: Driver)
  {
    d.isWorldChampion
  }

  /** `filterChampions`: `[]` for anything that is not an array; otherwise the
      drivers whose `isWorldChampion` is true, in order. */
  function FilterChampions(drivers: Input<Driver>): (r: seq<Driver>)
    ensures drivers.NotAnArray? ==> r == []
    ensures drivers.Array? ==> |r| <= |drivers.items|
    ensures forall i :: 0 <= i < |r| ==> r[i].isWorldChampion
  {
    match drivers
    case NotAnArray => []
    case Array(items) => Filter(items, IsChampion)
  }

  /** The result is exactly the champions of the input: an in-order
      subsequence, with each champion as often as in the input and no one
      else. */
  lemma FilterChampionsExact(items: seq<Driver>)
    ensures IsSubsequence(FilterChampions(Array(items)), items)
    ensures forall d :: multiset(FilterChampions(Array(items)))[d]
                        == if d.isWorldChampion then multiset(items)[d] else 0
  {
    FilterIsSubsequence(items, IsChampion);
    forall d ensures multiset(FilterChampions(Array(items)))[d]
                     == if d.isWorldChampion then multiset(items)[d] else 0 {
      FilterCount(items, IsChampion, d);
    }
  }

  /** Applying `filterChampions` to its own result changes nothing. */
  lemma FilterChampionsIdempotent(drivers: Input<Driver>)
    ensures FilterChampions(Array(FilterChampions(drivers))) == FilterChampions(drivers)
  {
    if drivers.Array? {
      FilterIdempotent(drivers.items, IsChampion);
    }
  }

  /** An array is returned element for element exactly when it holds only
      champions. */
  lemma FilterChampionsKeepsAllChampions(items: seq<Driver>)
    ensures FilterChampions(Array(items)) == items <==> forall i :: 0 <= i < |items| ==> items[i].isWorldChampion
  {
    FilterIdentity(items, IsChampion);
  }
}
