/**
 * The acknowledgement list (src/raknet/rangelist.rs): a sorted vector of inclusive ranges that
 * stands for a set of message numbers.
 */
module RangeLists {
  import opened Words

  datatype Range = Range(min: u32, max: u32)

  /** The ranges after one insertion into an arbitrary list, branch by branch. */
  function Inserted(rs: seq<Range>, item: u32): seq<Range> {
    if rs == [] then [Range(item, item)]
    else if rs[0].min <= item then
      if rs[0].max >= item then rs
      else if rs[0].max == item - 1 then
        var grown := [rs[0].(max := item)];
        if |rs| > 1 && rs[1].min == item - 1 then grown + rs[2..] else grown + rs[1..]
      else [rs[0]] + Inserted(rs[1..], item)
    else if rs[0].min - item == 1 then [rs[0].(min := item)] + rs[1..]
    else [Range(item, item)] + rs
  }

  function InsertedAll(rs: seq<Range>, items: seq<u32>): seq<Range> {
    if items == [] then rs
    else Inserted(InsertedAll(rs, items[..|items| - 1]), items[|items| - 1])
  }

  lemma InsertedAllAppend(rs: seq<Range>, items: seq<u32>, item: u32)
    ensures InsertedAll(rs, items + [item]) == Inserted(InsertedAll(rs, items), item)
  {
    assert (items + [item])[..|items|] == items;
  }

  /** The numbers `min..=max`, in order. */
  function Span(min: int, max: int): (s: seq<u32>)
    requires 0 <= min && max < 0x1_0000_0000
    ensures |s| == if min > max then 0 else max - min + 1
    ensures forall i :: 0 <= i < |s| ==> s[i] == min + i
    decreases max - min
  {
    if min > max then [] else [min] + Span(min + 1, max)
  }

  /** What iterating the list yields. */
  function Enumerated(rs: seq<Range>): seq<u32> {
    if rs == [] then [] else Span(rs[0].min, rs[0].max) + Enumerated(rs[1..])
  }

  /** Whether `x` is one of the numbers the list stands for. */
  predicate Has(rs: seq<Range>, x: u32) {
    rs != [] && (rs[0].min <= x <= rs[0].max || Has(rs[1..], x))
  }

  predicate Before(r: Range, rest: seq<Range>) {
    rest != [] ==> r.min < rest[0].min && r.max <= rest[0].min
  }

  /**
   * What every run of insertions keeps: mins strictly increase and neighbours share at most one
   * number.
   */
  predicate Sorted(rs: seq<Range>) {
    rs != [] ==> rs[0].min <= rs[0].max && Before(rs[0], rs[1..]) && Sorted(rs[1..])
  }

  /** The stronger form that holds as long as no number is inserted twice. */
  predicate Disjoint(rs: seq<Range>) {
    rs != [] ==> rs[0].min <= rs[0].max && (|rs| > 1 ==> rs[0].max < rs[1].min) && Disjoint(rs[1..])
  }

  ghost predicate Distinct<T>(s: seq<T>) {
    forall i, j :: 0 <= i < j < |s| ==> s[i] != s[j]
  }

  ghost predicate StrictlyIncreasing(s: seq<int>) {
    forall i, j :: 0 <= i < j < |s| ==> s[i] < s[j]
  }

  /**
   * The numbers the removal branch throws away: it deletes the successor of the range it has just
   * grown, when that successor already shared the number `item - 1`.
   */
  predicate Drops(rs: seq<Range>, item: u32, x: u32) {
    |rs| > 1 &&
    if rs[0].max == item - 1 then
      rs[1].min == item - 1 && item < x <= rs[1].max && (|rs| > 2 ==> x < rs[2].min)
    else Drops(rs[1..], item, x)
  }

  lemma HasCons(r: Range, rs: seq<Range>, x: u32)
    ensures Has([r] + rs, x) <==> r.min <= x <= r.max || Has(rs, x)
    ensures Sorted([r] + rs) <==> r.min <= r.max && Before(r, rs) && Sorted(rs)
    ensures Disjoint([r] + rs) <==> r.min <= r.max && (rs != [] ==> r.max < rs[0].min) && Disjoint(rs)
  {
    assert ([r] + rs)[1..] == rs;
  }

  lemma {:induction false} HasAtLeastMin(rs: seq<Range>, x: u32)
    requires rs != [] && Sorted(rs) && Has(rs, x)
    ensures rs[0].min <= x
  {
    if !(rs[0].min <= x <= rs[0].max) {
      HasAtLeastMin(rs[1..], x);
    }
  }

  /** The branch that grows a range, and perhaps removes its successor. */
  lemma GrownMembers(rs: seq<Range>, item: u32, x: u32)
    requires rs != [] && Sorted(rs) && rs[0].max == item - 1
    ensures Sorted(Inserted(rs, item))
    ensures Has(Inserted(rs, item), x) <==> x == item || (Has(rs, x) && !Drops(rs, item, x))
  {
    var grown := rs[0].(max := item);
    if |rs| > 1 && rs[1].min == item - 1 {
      HasCons(grown, rs[2..], x);
      assert rs[1..][1..] == rs[2..] && Sorted(rs[1..]) && Sorted(rs[2..]);
      assert Has(rs[1..], x) <==> rs[1].min <= x <= rs[1].max || Has(rs[2..], x);
      if |rs| > 2 {
        assert rs[1..][1] == rs[2] == rs[2..][0];
        assert x == rs[2].min ==> Has(rs[2..], x);
        if Has(rs[2..], x) {
          HasAtLeastMin(rs[2..], x);
        }
      }
    } else {
      HasCons(grown, rs[1..], x);
    }
  }

  /** One insertion keeps the order, and changes membership by exactly `item` and what it drops. */
  lemma {:induction false} InsertedMembers(rs: seq<Range>, item: u32, x: u32)
    requires Sorted(rs)
    ensures Sorted(Inserted(rs, item))
    ensures Inserted(rs, item) != []
    ensures Inserted(rs, item)[0].min == item || (rs != [] && Inserted(rs, item)[0].min == rs[0].min)
    ensures Has(Inserted(rs, item), x) <==> x == item || (Has(rs, x) && !Drops(rs, item, x))
  {
    if rs == [] {
    } else if rs[0].max == item - 1 {
      GrownMembers(rs, item, x);
    } else if rs[0].max < item - 1 {
      InsertedMembers(rs[1..], item, x);
      DropsAbove(rs[1..], item, x);
      HasCons(rs[0], Inserted(rs[1..], item), x);
    } else {
      NoDropBelow(rs, item, x);
      HasCons(rs[0].(min := item), rs[1..], x);
      HasCons(Range(item, item), rs, x);
    }
  }

  lemma {:induction false} NoDropBelow(rs: seq<Range>, item: u32, x: u32)
    requires Sorted(rs) && (rs != [] ==> item <= rs[0].max)
    ensures !Drops(rs, item, x)
  {
    if |rs| > 1 {
      NoDropBelow(rs[1..], item, x);
    }
  }

  lemma {:induction false} DropsAbove(rs: seq<Range>, item: u32, x: u32)
    ensures Drops(rs, item, x) ==> item < x && Has(rs, x)
  {
    if |rs| > 1 && rs[0].max != item - 1 {
      DropsAbove(rs[1..], item, x);
    }
  }

  /**
   * The guard of the failing case: two touching ranges share the number `item - 1`, the second
   * reaches beyond `item`, and no third range starts right there.
   */
  predicate Touching(rs: seq<Range>, item: u32, i: nat)
    requires i < |rs| - 1
  {
    && rs[i].max == item - 1 == rs[i + 1].min
    && rs[i + 1].max > item
    && (i + 2 < |rs| ==> rs[i + 2].min > item + 1)
  }

  lemma {:induction false} SortedMins(rs: seq<Range>, i: nat, j: nat)
    requires Sorted(rs) && i < j < |rs|
    ensures rs[i].max <= rs[j].min && rs[i].min < rs[j].min
  {
    if i > 0 {
      SortedMins(rs[1..], i - 1, j - 1);
    } else if j > 1 {
      SortedMins(rs[1..], 0, j - 1);
      SortedNonEmpty(rs);
    }
  }

  /** If anything is dropped then `item + 1` is, and the guard holds somewhere. */
  lemma {:induction false} DropsOnlyTouching(rs: seq<Range>, item: u32, x: u32) returns (i: nat)
    requires Drops(rs, item, x)
    ensures i < |rs| - 1 && Touching(rs, item, i)
  {
    if rs[0].max == item - 1 {
      i := 0;
    } else {
      var j := DropsOnlyTouching(rs[1..], item, x);
      i := j + 1;
      assert rs[1..][j] == rs[i] && rs[1..][j + 1] == rs[i + 1];
    }
  }

  lemma {:induction false} TouchingDrops(rs: seq<Range>, item: u32, i: nat)
    requires Sorted(rs) && i < |rs| - 1 && Touching(rs, item, i)
    ensures item < 0xffff_ffff && Drops(rs, item, item + 1)
  {
    if i > 0 {
      SortedMins(rs, 0, i);
      SortedMins(rs, 0, i + 1);
      SortedMins(rs, i, i + 1);
      assert rs[0].max != item - 1;
      assert rs[1..][i - 1] == rs[i] && rs[1..][i] == rs[i + 1];
      TouchingDrops(rs[1..], item, i - 1);
    }
  }

  /**
   * Exactly when one insertion does what a set would do: unless two touching ranges share `item - 1`
   * and the second reaches beyond `item`.
   */
  lemma InsertIsSetInsertIff(rs: seq<Range>, item: u32)
    requires Sorted(rs)
    ensures (forall x: u32 :: Has(Inserted(rs, item), x) <==> x == item || Has(rs, x))
       <==> !exists i :: 0 <= i < |rs| - 1 && Touching(rs, item, i)
  {
    hide Touching, Inserted, Has, Sorted;
    if i :| 0 <= i < |rs| - 1 && Touching(rs, item, i) {
      TouchingDrops(rs, item, i);
      InsertedMembers(rs, item, item + 1);
      DropsAbove(rs, item, item + 1);
      assert !Has(Inserted(rs, item), item + 1) && Has(rs, item + 1);
    } else {
      forall x: u32
        ensures Has(Inserted(rs, item), x) <==> x == item || Has(rs, x)
      {
        InsertedMembers(rs, item, x);
        if Drops(rs, item, x) {
          var i := DropsOnlyTouching(rs, item, x);
        }
      }
    }
  }

  /** The number inserted at step `n` of a run is not dropped by any later step. */
  ghost predicate Survives(items: seq<u32>, x: u32, n: nat)
    requires n < |items|
  {
    items[n] == x &&
    forall m :: n < m < |items| ==> !Drops(InsertedAll([], items[..m]), items[m], x)
  }

  /** Exactly which numbers a run ends with: those inserted by some step and dropped by none after it. */
  lemma {:induction false} MembersAfterRun(items: seq<u32>, x: u32)
    ensures Has(InsertedAll([], items), x) <==> exists n :: 0 <= n < |items| && Survives(items, x, n)
  {
    hide *;
    if items == [] {
      NothingInserted(x);
    } else {
      var k := |items| - 1;
      var before, item := items[..k], items[k];
      MembersAfterRun(before, x);
      InsertedAllLast([], items);
      EveryRun(before);
      InsertedMembers(InsertedAll([], before), item, x);
      DropsAbove(InsertedAll([], before), item, x);
      forall n | 0 <= n < |items|
        ensures n < k ==>
                  (Survives(items, x, n) <==> Survives(before, x, n) && !Drops(InsertedAll([], before), item, x))
        ensures n == k ==> (Survives(items, x, n) <==> x == item)
      {
        SurvivesNext(items, x, n);
      }
      if x == item {
        assert Survives(items, x, k);
      } else if n :| 0 <= n < k && Survives(before, x, n) {
        assert Survives(items, x, n) <==> !Drops(InsertedAll([], before), item, x);
      }
    }
  }

  lemma NothingInserted(x: u32)
    ensures !Has(InsertedAll([], []), x)
  {
  }

  lemma SurvivesNext(items: seq<u32>, x: u32, n: nat)
    requires n < |items|
    ensures n < |items| - 1 ==>
              var before := items[..|items| - 1];
              Survives(items, x, n) <==>
              Survives(before, x, n) && !Drops(InsertedAll([], before), items[|items| - 1], x)
    ensures n == |items| - 1 ==> (Survives(items, x, n) <==> items[n] == x)
  {
    hide InsertedAll, Drops;
    var before := items[..|items| - 1];
    assert forall m :: 0 <= m < |before| ==> before[..m] == items[..m];
  }

  lemma InsertedAllLast(rs: seq<Range>, items: seq<u32>)
    requires items != []
    ensures InsertedAll(rs, items) == Inserted(InsertedAll(rs, items[..|items| - 1]), items[|items| - 1])
  {
  }

  /** Every run, repeats included: sorted, last item present, nothing present that was not inserted. */
  lemma {:induction false} EveryRun(items: seq<u32>)
    ensures Sorted(InsertedAll([], items))
    ensures items != [] ==> Has(InsertedAll([], items), items[|items| - 1])
    ensures forall x: u32 :: Has(InsertedAll([], items), x) ==> x in items
  {
    if items != [] {
      var before, item := items[..|items| - 1], items[|items| - 1];
      EveryRun(before);
      forall x: u32
        ensures Has(InsertedAll([], items), x) ==> x in items
      {
        InsertedMembers(InsertedAll([], before), item, x);
      }
      InsertedMembers(InsertedAll([], before), item, item);
    }
  }

  lemma {:induction false} DisjointIsSorted(rs: seq<Range>)
    requires Disjoint(rs)
    ensures Sorted(rs)
  {
    if rs != [] {
      DisjointIsSorted(rs[1..]);
    }
  }

  /** A new number keeps the ranges disjoint, drops nothing, and adds one to the length. */
  lemma {:induction false} InsertNew(rs: seq<Range>, item: u32)
    requires Disjoint(rs) && !Has(rs, item)
    ensures Disjoint(Inserted(rs, item))
    ensures Inserted(rs, item) != []
    ensures Inserted(rs, item)[0].min == item || (rs != [] && Inserted(rs, item)[0].min == rs[0].min)
    ensures |Enumerated(Inserted(rs, item))| == |Enumerated(rs)| + 1
    ensures forall x: u32 :: !Drops(rs, item, x)
  {
    if rs == [] {
    } else if rs[0].max < item - 1 {
      InsertNew(rs[1..], item);
      HasCons(rs[0], Inserted(rs[1..], item), item);
      assert ([rs[0]] + Inserted(rs[1..], item))[1..] == Inserted(rs[1..], item);
    } else if rs[0].max == item - 1 {
      var grown := rs[0].(max := item);
      HasCons(grown, rs[1..], item);
      assert ([grown] + rs[1..])[1..] == rs[1..];
    } else {
      DisjointIsSorted(rs);
      forall x: u32 ensures !Drops(rs, item, x) { NoDropBelow(rs, item, x); }
      var lowered := rs[0].(min := item);
      HasCons(lowered, rs[1..], item);
      assert ([lowered] + rs[1..])[1..] == rs[1..];
      HasCons(Range(item, item), rs, item);
      assert ([Range(item, item)] + rs)[1..] == rs;
    }
  }

  /** Enumerating a list yields its members; disjoint ranges come out in strictly increasing order. */
  lemma {:induction false} EnumeratedIsSorted(rs: seq<Range>)
    ensures forall x: u32 :: x in Enumerated(rs) <==> Has(rs, x)
    ensures Disjoint(rs) ==> StrictlyIncreasing(Enumerated(rs))
  {
    if rs != [] {
      var first, rest := Span(rs[0].min, rs[0].max), Enumerated(rs[1..]);
      EnumeratedIsSorted(rs[1..]);
      forall x: u32 ensures x in first <==> rs[0].min <= x <= rs[0].max {
        if rs[0].min <= x <= rs[0].max {
          assert first[x - rs[0].min] == x;
        }
      }
      if Disjoint(rs) && rs[1..] != [] {
        DisjointIsSorted(rs[1..]);
        forall i, j | 0 <= i < |first| && 0 <= j < |rest|
          ensures first[i] < rest[j]
        {
          assert rest[j] in rest;
          HasAtLeastMin(rs[1..], rest[j]);
        }
      }
    }
  }

  lemma {:induction false} DuplicateFreeIsSet(items: seq<u32>)
    requires Distinct(items)
    ensures Disjoint(InsertedAll([], items))
    ensures forall x: u32 :: Has(InsertedAll([], items), x) <==> x in items
  {
    if items != [] {
      var before, item := items[..|items| - 1], items[|items| - 1];
      DuplicateFreeIsSet(before);
      var rs := InsertedAll([], before);
      DisjointIsSorted(rs);
      InsertNew(rs, item);
      forall x: u32
        ensures Has(InsertedAll([], items), x) <==> x in items
      {
        InsertedMembers(rs, item, x);
      }
    }
  }

  /**
   * As long as no number is repeated the list is exactly the set of inserted numbers: disjoint
   * ranges, enumerated in increasing order, each number once.
   */
  lemma DuplicateFreeRun(items: seq<u32>)
    requires Distinct(items)
    ensures Disjoint(InsertedAll([], items))
    ensures StrictlyIncreasing(Enumerated(InsertedAll([], items)))
    ensures multiset(Enumerated(InsertedAll([], items))) == multiset(items)
  {
    DuplicateFreeIsSet(items);
    EnumeratedIsSorted(InsertedAll([], items));
    SameElementsOnce(Enumerated(InsertedAll([], items)), items);
  }

  lemma SameElementsOnce(a: seq<u32>, b: seq<u32>)
    requires Distinct(a) && Distinct(b)
    requires forall x: u32 :: x in a <==> x in b
    ensures multiset(a) == multiset(b)
  {
    forall x: u32
      ensures multiset(a)[x] == multiset(b)[x]
    {
      DistinctCount(a, x);
      DistinctCount(b, x);
    }
  }

  lemma {:induction false} DistinctCount(s: seq<u32>, x: u32)
    requires Distinct(s)
    ensures multiset(s)[x] == if x in s then 1 else 0
  {
    if s != [] {
      var t := s[..|s| - 1];
      DistinctCount(t, x);
      assert s == t + [s[|s| - 1]];
    }
  }

  // How often a number is enumerated

  /** The number of ranges that contain `x`. */
  function Copies(rs: seq<Range>, x: u32): nat {
    if rs == [] then 0 else (if rs[0].min <= x <= rs[0].max then 1 else 0) + Copies(rs[1..], x)
  }

  lemma {:induction false} CopiesAreEnumerated(rs: seq<Range>, x: u32)
    ensures multiset(Enumerated(rs))[x] == Copies(rs, x)
  {
    if rs != [] {
      CopiesAreEnumerated(rs[1..], x);
      var first := Span(rs[0].min, rs[0].max);
      DistinctCount(first, x);
      assert rs[0].min <= x <= rs[0].max ==> first[x - rs[0].min] == x;
    }
  }

  lemma CopiesCons(r: Range, rs: seq<Range>, x: u32)
    ensures Copies([r] + rs, x) == (if r.min <= x <= r.max then 1 else 0) + Copies(rs, x)
  {
    assert ([r] + rs)[1..] == rs;
  }

  /** An insertion adds at most one copy, and only of the item, to any list at all. */
  lemma {:induction false} InsertedCopies(rs: seq<Range>, item: u32, x: u32)
    ensures Copies(Inserted(rs, item), x) <= Copies(rs, x) + if x == item then 1 else 0
  {
    if rs == [] {
      CopiesCons(Range(item, item), [], x);
    } else {
      CopiesCons(rs[0].(max := item), rs[1..], x);
      CopiesCons(rs[0].(min := item), rs[1..], x);
      CopiesCons(Range(item, item), rs, x);
      InsertedCopies(rs[1..], item, x);
      CopiesCons(rs[0], Inserted(rs[1..], item), x);
      if |rs| > 1 {
        CopiesCons(rs[0].(max := item), rs[2..], x);
        assert rs[1..][1..] == rs[2..];
      }
    }
  }

  lemma {:induction false} RunCopies(items: seq<u32>, x: u32)
    ensures Copies(InsertedAll([], items), x) <= multiset(items)[x]
  {
    hide Inserted, Copies;
    if items == [] {
      NoCopies(x);
    } else {
      var before, item := items[..|items| - 1], items[|items| - 1];
      RunCopies(before, x);
      InsertedCopies(InsertedAll([], before), item, x);
      assert items == before + [item];
    }
  }

  lemma NoCopies(x: u32)
    ensures Copies([], x) == 0
  {
  }

  /** Over every run, repeats included, no number is enumerated more often than it was inserted. */
  lemma NoMoreThanInserted(items: seq<u32>)
    ensures multiset(Enumerated(InsertedAll([], items))) <= multiset(items)
  {
    hide Enumerated, InsertedAll, Copies;
    var rs := InsertedAll([], items);
    forall x: u32 ensures multiset(Enumerated(rs))[x] <= multiset(items)[x] {
      CopiesAreEnumerated(rs, x);
      RunCopies(items, x);
    }
  }

  /** The merge test compares with `item - 1`, so repeats can lose a number: here 5. */
  lemma RepeatsLoseMembers()
    ensures InsertedAll([], [1, 3, 4, 5, 2, 3, 4]) == [Range(1, 4)]
  {
    var items := [1, 3, 4, 5, 2, 3, 4];
    assert InsertedAll([], items[..1]) == [Range(1, 1)];
    InsertedAllNext([], items, 1);
    InsertedAllNext([], items, 2);
    InsertedAllNext([], items, 3);
    InsertedAllNext([], items, 4);
    InsertedAllNext([], items, 5);
    InsertedAllNext([], items, 6);
    assert items[..7] == items;
  }

  /** The scan passes a range that ends before the item and does not touch it. */
  lemma InsertedBehind(r: Range, rs: seq<Range>, item: u32)
    requires r.min <= item && r.max < item - 1
    ensures Inserted([r] + rs, item) == [r] + Inserted(rs, item)
  {
    assert ([r] + rs)[1..] == rs;
  }

  lemma BehindThree(last: seq<Range>, item: u32)
    requires item > 9
    ensures Inserted([Range(1, 3), Range(5, 6), Range(8, 8)] + last, item) ==
            [Range(1, 3), Range(5, 6), Range(8, 8)] + Inserted(last, item)
  {
    var a, b, c := Range(1, 3), Range(5, 6), Range(8, 8);
    InsertedBehind(c, last, item);
    InsertedBehind(b, [c] + last, item);
    InsertedBehind(a, [b] + ([c] + last), item);
    hide Inserted;
    assert [a, b, c] + last == [a] + ([b] + ([c] + last));
    assert [a] + ([b] + ([c] + Inserted(last, item))) == [a, b, c] + Inserted(last, item);
  }

  lemma SmallSteps()
    ensures InsertedAll([], []) == []
    ensures Inserted([], 1) == [Range(1, 1)] && Inserted([Range(1, 1)], 2) == [Range(1, 2)]
    ensures Inserted([Range(1, 2)], 3) == [Range(1, 3)]
    ensures Inserted([Range(1, 3)], 5) == [Range(1, 3), Range(5, 5)]
    ensures Inserted([Range(1, 3), Range(5, 5)], 6) == [Range(1, 3), Range(5, 6)]
    ensures Inserted([Range(1, 3), Range(5, 6)], 8) == [Range(1, 3), Range(5, 6), Range(8, 8)]
  {
    InsertedBehind(Range(1, 3), [], 5);
    InsertedBehind(Range(1, 3), [Range(5, 5)], 6);
    InsertedBehind(Range(5, 6), [], 8);
    InsertedBehind(Range(1, 3), [Range(5, 6)], 8);
  }

  lemma FirstThree()
    ensures InsertedAll([], [1, 2, 3, 5, 6, 8]) == [Range(1, 3), Range(5, 6), Range(8, 8)]
  {
    hide *;
    SmallSteps();
    InsertedAllAppend([], [], 1);
    InsertedAllAppend([], [1], 2);
    InsertedAllAppend([], [1, 2], 3);
    InsertedAllAppend([], [1, 2, 3], 5);
    InsertedAllAppend([], [1, 2, 3, 5], 6);
    InsertedAllAppend([], [1, 2, 3, 5, 6], 8);
    assert [] + [1] == [1] && [1] + [2] == [1, 2] && [1, 2] + [3] == [1, 2, 3] && [1, 2, 3] + [5] == [1, 2, 3, 5];
    assert [1, 2, 3, 5] + [6] == [1, 2, 3, 5, 6] && [1, 2, 3, 5, 6] + [8] == [1, 2, 3, 5, 6, 8];
  }

  /** The list of the program's tests (src/raknet/rangelist.rs:191-198). */
  lemma FourRanges()
    ensures InsertedAll([], [1, 2, 3, 5, 6, 8, 14, 15, 16, 17]) ==
            [Range(1, 3), Range(5, 6), Range(8, 8), Range(14, 17)]
  {
    assert Inserted([], 14) == [Range(14, 14)] && Inserted([Range(14, 14)], 15) == [Range(14, 15)];
    assert Inserted([Range(14, 15)], 16) == [Range(14, 16)] && Inserted([Range(14, 16)], 17) == [Range(14, 17)];
    hide *;
    FirstThree();
    BehindThree([], 14);
    BehindThree([Range(14, 14)], 15);
    BehindThree([Range(14, 15)], 16);
    BehindThree([Range(14, 16)], 17);
    InsertedAllAppend([], [1, 2, 3, 5, 6, 8], 14);
    InsertedAllAppend([], [1, 2, 3, 5, 6, 8] + [14], 15);
    InsertedAllAppend([], [1, 2, 3, 5, 6, 8] + [14] + [15], 16);
    InsertedAllAppend([], [1, 2, 3, 5, 6, 8] + [14] + [15] + [16], 17);
    var three := [Range(1, 3), Range(5, 6), Range(8, 8)];
    assert three + [] == three;
    assert three + [Range(14, 17)] == [Range(1, 3), Range(5, 6), Range(8, 8), Range(14, 17)];
    assert [1, 2, 3, 5, 6, 8] + [14] + [15] + [16] + [17] == [1, 2, 3, 5, 6, 8, 14, 15, 16, 17];
  }

  // New ranges are made only where there is a gap

  /** The item is in the range, or right before or behind it. */
  predicate Touches(r: Range, item: u32) {
    r.min <= item + 1 && item <= r.max + 1
  }

  /** An insertion makes a new range if and only if the item touches none of those there are. */
  lemma {:induction false} NewRangeIff(rs: seq<Range>, item: u32)
    requires Sorted(rs)
    ensures |Inserted(rs, item)| <= |rs| + 1
    ensures |Inserted(rs, item)| == |rs| + 1 <==> forall i :: 0 <= i < |rs| ==> !Touches(rs[i], item)
  {
    if rs == [] {
    } else if rs[0].min > item + 1 {
      forall i | 0 <= i < |rs| ensures !Touches(rs[i], item) {
        if i > 0 {
          SortedMins(rs, 0, i);
        }
      }
    } else if rs[0].max < item - 1 {
      NewRangeIff(rs[1..], item);
      assert forall i :: 0 < i < |rs| ==> rs[i] == rs[1..][i - 1];
      assert forall i :: 0 <= i < |rs| - 1 ==> rs[1..][i] == rs[i + 1];
    } else {
      assert Touches(rs[0], item);
    }
  }

  lemma InsertedAllNext(rs: seq<Range>, items: seq<u32>, n: nat)
    requires n < |items|
    ensures InsertedAll(rs, items[..n + 1]) == Inserted(InsertedAll(rs, items[..n]), items[n])
  {
    assert items[..n + 1][..n] == items[..n];
  }

  lemma InsertedIntoNone(item: u32)
    ensures Inserted([], item) == [Range(item, item)]
  {
  }

  /** How the position `i` reached by the scan decides the result. */
  lemma InsertedSkips(rs: seq<Range>, i: nat, item: u32)
    requires i < |rs| && rs[i].min <= item && (item <= rs[i].max || rs[i].max < item - 1)
    requires Inserted(rs, item) == rs[..i] + Inserted(rs[i..], item)
    ensures item <= rs[i].max ==> Inserted(rs, item) == rs
    ensures rs[i].max < item - 1 ==> Inserted(rs, item) == rs[..i + 1] + Inserted(rs[i + 1..], item)
  {
    var t := rs[i..];
    assert t[0] == rs[i] && t[1..] == rs[i + 1..];
    if rs[i].max < item - 1 {
      var rest := Inserted(t[1..], item);
      assert rs[..i] + ([t[0]] + rest) == rs[..i + 1] + rest;
    } else {
      assert rs == rs[..i] + t;
    }
  }

  lemma InsertedBelow(rs: seq<Range>, i: nat, item: u32)
    requires i < |rs| && item < rs[i].min
    requires Inserted(rs, item) == rs[..i] + Inserted(rs[i..], item)
    ensures item == rs[i].min - 1 ==> Inserted(rs, item) == rs[i := rs[i].(min := item)]
    ensures item < rs[i].min - 1 ==> Inserted(rs, item) == rs[..i] + [Range(item, item)] + rs[i..]
  {
    var t := rs[i..];
    assert t[0] == rs[i] && t[1..] == rs[i + 1..];
    if item == rs[i].min - 1 {
      assert rs[i := rs[i].(min := item)] == rs[..i] + ([t[0].(min := item)] + t[1..]);
    } else {
      assert rs[..i] + ([Range(item, item)] + t) == rs[..i] + [Range(item, item)] + t;
    }
  }

  lemma InsertedGrows(rs: seq<Range>, i: nat, item: u32)
    requires i < |rs| && rs[i].min <= item && rs[i].max == item - 1
    requires Inserted(rs, item) == rs[..i] + Inserted(rs[i..], item)
    ensures var grown := rs[i := rs[i].(max := item)];
            Inserted(rs, item) ==
            if i + 1 < |rs| && rs[i + 1].min == item - 1 then grown[..i + 1] + grown[i + 2..] else grown
  {
    var t, g := rs[i..], rs[i].(max := item);
    var grown := rs[i := g];
    assert t[0] == rs[i] && t[1..] == rs[i + 1..];
    assert grown[..i + 1] == rs[..i] + [g];
    if i + 1 < |rs| && rs[i + 1].min == item - 1 {
      assert t[1] == rs[i + 1] && t[2..] == rs[i + 2..] == grown[i + 2..];
      assert rs[..i] + ([g] + t[2..]) == grown[..i + 1] + grown[i + 2..];
    } else {
      assert grown == rs[..i] + ([g] + t[1..]);
    }
  }

  lemma {:induction false} SortedNonEmpty(rs: seq<Range>)
    requires Sorted(rs)
    ensures forall i :: 0 <= i < |rs| ==> rs[i].min <= rs[i].max
  {
    if rs != [] {
      SortedNonEmpty(rs[1..]);
    }
  }

  class RangeList {
    var ranges: seq<Range>

    constructor ()
      ensures ranges == []
    {
      ranges := [];
    }

    /** The number of members counted range by range; the sum overflows on the one full range. */
    method Len() returns (len: nat)
      requires Sorted(ranges)
      requires Range(0, 0xffff_ffff) !in ranges
      ensures len == |Enumerated(ranges)|
    {
      SortedNonEmpty(ranges);
      var total := 0;
      for i := 0 to |ranges|
        invariant total + |Enumerated(ranges[i..])| == |Enumerated(ranges)|
      {
        assert ranges[i..][1..] == ranges[i + 1..];
        var size: u32 := ranges[i].max - ranges[i].min + 1;
        total := total + size;
      }
      len := total;
    }

    method IsEmpty() returns (empty: bool)
      ensures empty <==> ranges == []
    {
      empty := |ranges| == 0;
    }

    method Clear()
      modifies this
      ensures ranges == []
    {
      ranges := [];
    }

    method Insert(item: u32)
      modifies this
      ensures ranges == Inserted(old(ranges), item)
    {
      hide Inserted;
      var tryRemove: Option<nat> := None;
      var insert: Option<nat> := None;
      var i := 0;
      while i < |ranges|
        invariant 0 <= i <= |ranges| && ranges == old(ranges)
        invariant Inserted(ranges, item) == ranges[..i] + Inserted(ranges[i..], item)
      {
        var range := ranges[i];
        if range.min <= item {
          if range.max >= item {
            InsertedSkips(ranges, i, item);
            return;
          }
          var previous: u32 := item - 1;
          if range.max == previous {
            InsertedGrows(ranges, i, item);
            ranges := ranges[i := range.(max := item)];
            if i == |ranges| - 1 {
              return;
            }
            tryRemove := Some(i + 1);
            break;
          }
          InsertedSkips(ranges, i, item);
        } else {
          InsertedBelow(ranges, i, item);
          if range.min - item == 1 {
            ranges := ranges[i := range.(min := item)];
            return;
          }
          insert := Some(i);
          break;
        }
        i := i + 1;
      }
      if tryRemove.Some? {
        if ranges[tryRemove.value].min == item - 1 {
          ranges := ranges[..tryRemove.value] + ranges[tryRemove.value + 1..];
        }
        return;
      }
      if insert.Some? {
        ranges := ranges[..insert.value] + [Range(item, item)] + ranges[insert.value..];
        return;
      }
      assert ranges[..i] == ranges && ranges[i..] == [];
      InsertedIntoNone(item);
      ranges := ranges + [Range(item, item)];
    }
  }

  /** The numbers still to come: of the current range, given by its first number and its end, then the rest. */
  function Rest(range: Option<(nat, u32)>, rangeIter: seq<Range>): seq<u32> {
    (if range.Some? then Span(range.value.0, range.value.1) else []) + Enumerated(rangeIter)
  }

  lemma RestAtRangeEnd(rangeIter: seq<Range>)
    ensures Rest(None, rangeIter) ==
            if rangeIter == [] then [] else Rest(Some((rangeIter[0].min, rangeIter[0].max)), rangeIter[1..])
  {
    hide Span;
  }

  lemma RestInRange(first: nat, last: u32, rangeIter: seq<Range>)
    ensures first > last ==> Rest(Some((first, last)), rangeIter) == Rest(None, rangeIter)
    ensures first <= last ==>
              var rest := Rest(Some((first, last)), rangeIter);
              rest != [] && rest[0] == first && rest[1..] == Rest(Some((first + 1, last)), rangeIter)
  {
    hide Enumerated;
    if first <= last {
      assert Span(first, last) == [first] + Span(first + 1, last);
    }
  }

  /** The consuming iterator over a list's numbers. */
  class Items {
    var rangeIter: seq<Range>
    // the part of the current range still to come, as first number and end (inclusive)
    var range: Option<(nat, u32)>

    constructor (list: RangeList)
      ensures range == None && rangeIter == list.ranges
      ensures Remaining() == Enumerated(list.ranges)
    {
      rangeIter := list.ranges;
      range := None;
    }

    ghost function Remaining(): seq<u32>
      reads this
    {
      Rest(range, rangeIter)
    }

    method Next() returns (x: Option<u32>)
      modifies this
      ensures x == if old(Remaining()) == [] then None else Some(old(Remaining())[0])
      ensures Remaining() == if old(Remaining()) == [] then [] else old(Remaining())[1..]
    {
      hide Rest;
      while true
        invariant Remaining() == old(Remaining())
        decreases |rangeIter|, range.Some?
      {
        if range.None? {
          RestAtRangeEnd(rangeIter);
          if |rangeIter| == 0 {
            return None;
          }
          range, rangeIter := Some((rangeIter[0].min, rangeIter[0].max)), rangeIter[1..];
        }
        var (first, last) := range.value;
        RestInRange(first, last, rangeIter);
        if first > last {
          range := None;
        } else {
          range := Some((first + 1, last));
          return Some(first);
        }
      }
    }
  }
}
