/** Centrality ranking of seats within a row (`seat_sort_order` in booking.py). */
module Ranking {
  import opened Seqs
  import opened Seats

  function Abs(x: int): nat { if x < 0 then -x else x }

  /** Twice the distance `seat_sort_order` gives seat number `col` in a row of
      `seatsPerRow` seats: the two middle seats of an even row count as distance 0,
      every other seat as its distance from the row's midpoint. Doubling keeps
      the half-unit distances of even rows integral. */
  function Dist2(col: int, seatsPerRow: int): nat
  {
    if seatsPerRow % 2 == 0 && (col == seatsPerRow / 2 || col == seatsPerRow / 2 + 1) then 0
    else Abs(2 * col - (seatsPerRow + 1))
  }

  /** `Dist2` is exactly twice the `dist` component the source computes, in both
      the even-row branch (floating-point midpoint `seats_per_row / 2 + 0.5`) and
      the odd-row branch (integer centre `(seats_per_row + 1) // 2`). */
  lemma Dist2IsTwiceDistance(col: int, seatsPerRow: int)
    ensures seatsPerRow % 2 == 0 && col != seatsPerRow / 2 && col != seatsPerRow / 2 + 1 ==>
      var d := col as real - (seatsPerRow as real / 2.0 + 0.5);
      Dist2(col, seatsPerRow) as real == 2.0 * (if d < 0.0 then -d else d)
    ensures seatsPerRow % 2 == 1 ==>
      Dist2(col, seatsPerRow) == 2 * Abs(col - (seatsPerRow + 1) / 2)
  {
  }

  /** The sort key `(dist, -seat_num, label)` compared lexicographically: nearer the
      centre first, then the higher seat number (rightmost), then the label. Two
      labels with the same number differ only in their row letter, so the label
      comparison is a comparison of rows. */
  predicate KeyLe(a: Seat, b: Seat, seatsPerRow: nat) {
    var da, db := Dist2(a.col, seatsPerRow), Dist2(b.col, seatsPerRow);
    da < db || (da == db && (a.col > b.col || (a.col == b.col && a.row <= b.row)))
  }

  /** Lexicographic order on strings, as Python compares `str`. */
  predicate StrLt(s: string, t: string) {
    if s == [] then t != []
    else t != [] && (s[0] < t[0] || (s[0] == t[0] && StrLt(s[1..], t[1..])))
  }

  /** For seats with equal numbers, the row component of `KeyLe` is Python's
      comparison of their labels. */
  lemma RowOrderIsLabelOrder(a: Seat, b: Seat)
    requires a.row < MaxRows && b.row < MaxRows && a.col == b.col
    ensures a.row < b.row <==> StrLt(Label(a), Label(b))
  {
    var la, lb := Label(a), Label(b);
    assert la[0] == RowLetter(a.row) && lb[0] == RowLetter(b.row);
    if a.row == b.row {
      assert la == lb;
      StrLtIrreflexive(la);
    }
  }

  lemma {:induction false} StrLtIrreflexive(s: string)
    ensures !StrLt(s, s)
  {
    if s != [] {
      StrLtIrreflexive(s[1..]);
    }
  }

  lemma KeyLeTotalOrder(a: Seat, b: Seat, c: Seat, seatsPerRow: nat)
    ensures KeyLe(a, b, seatsPerRow) || KeyLe(b, a, seatsPerRow)
    ensures KeyLe(a, b, seatsPerRow) && KeyLe(b, a, seatsPerRow) ==> a == b
    ensures KeyLe(a, b, seatsPerRow) && KeyLe(b, c, seatsPerRow) ==> KeyLe(a, c, seatsPerRow)
  {
  }

  predicate Sorted(s: seq<Seat>, seatsPerRow: nat) {
    forall i, j :: 0 <= i < j < |s| ==> KeyLe(s[i], s[j], seatsPerRow)
  }

  /** Insert `x` before the first element it ranks no worse than. */
  function Insert(x: Seat, s: seq<Seat>, seatsPerRow: nat): seq<Seat>
  {
    if s == [] then [x]
    else if KeyLe(x, s[0], seatsPerRow) then [x] + s
    else [s[0]] + Insert(x, s[1..], seatsPerRow)
  }

  /** Insertion adds `x` to the collection. */
  lemma {:induction false} InsertMultiset(x: Seat, s: seq<Seat>, seatsPerRow: nat)
    ensures multiset(Insert(x, s, seatsPerRow)) == multiset(s) + multiset{x}
  {
    if s != [] && !KeyLe(x, s[0], seatsPerRow) {
      InsertMultiset(x, s[1..], seatsPerRow);
      assert s == [s[0]] + s[1..];
    }
  }

  /** A seat ranking no worse than every seat of a sorted list can go in front of it. */
  lemma SortedCons(a: Seat, t: seq<Seat>, seatsPerRow: nat)
    requires Sorted(t, seatsPerRow)
    requires forall y :: y in t ==> KeyLe(a, y, seatsPerRow)
    ensures Sorted([a] + t, seatsPerRow)
  {
    var r := [a] + t;
    forall i, j | 0 <= i < j < |r| ensures KeyLe(r[i], r[j], seatsPerRow) {
      assert r[j] == t[j - 1] && t[j - 1] in t;
      if i > 0 {
        assert r[i] == t[i - 1];
      }
    }
  }

  /** Insertion keeps a sorted list sorted. */
  lemma {:induction false} InsertSorted(x: Seat, s: seq<Seat>, seatsPerRow: nat)
    requires Sorted(s, seatsPerRow)
    ensures Sorted(Insert(x, s, seatsPerRow), seatsPerRow)
  {
    if s == [] {
    } else if KeyLe(x, s[0], seatsPerRow) {
      forall y | y in s ensures KeyLe(x, y, seatsPerRow) {
        var j :| 0 <= j < |s| && s[j] == y;
        KeyLeTotalOrder(x, s[0], y, seatsPerRow);
      }
      SortedCons(x, s, seatsPerRow);
    } else {
      var t := Insert(x, s[1..], seatsPerRow);
      assert Sorted(s[1..], seatsPerRow);
      InsertSorted(x, s[1..], seatsPerRow);
      InsertMultiset(x, s[1..], seatsPerRow);
      forall y | y in t ensures KeyLe(s[0], y, seatsPerRow) {
        assert y in multiset(t);
        if y != x {
          assert y in s[1..];
          var j :| 0 <= j < |s[1..]| && s[1..][j] == y;
          assert s[j + 1] == y;
        } else {
          KeyLeTotalOrder(x, s[0], x, seatsPerRow);
        }
      }
      SortedCons(s[0], t, seatsPerRow);
    }
  }

  /** The seats ordered by `KeyLe`: what `seat_tuples.sort()` produces. */
  function Sort(s: seq<Seat>, seatsPerRow: nat): seq<Seat>
  {
    if s == [] then [] else Insert(s[|s| - 1], Sort(s[..|s| - 1], seatsPerRow), seatsPerRow)
  }

  /** Sorting reorders the seats and leaves them ordered by `KeyLe`. */
  lemma {:induction false} SortSpec(s: seq<Seat>, seatsPerRow: nat)
    ensures multiset(Sort(s, seatsPerRow)) == multiset(s)
    ensures Sorted(Sort(s, seatsPerRow), seatsPerRow)
  {
    if s != [] {
      SortSpec(s[..|s| - 1], seatsPerRow);
      InsertMultiset(s[|s| - 1], Sort(s[..|s| - 1], seatsPerRow), seatsPerRow);
      InsertSorted(s[|s| - 1], Sort(s[..|s| - 1], seatsPerRow), seatsPerRow);
      assert s == s[..|s| - 1] + [s[|s| - 1]];
    }
  }

  /** There is only one sorted arrangement of a collection of seats, so any
      correct sort (Python's included) returns `Sort(s, seatsPerRow)`. */
  lemma {:induction false} SortedUnique(a: seq<Seat>, b: seq<Seat>, seatsPerRow: nat)
    requires Sorted(a, seatsPerRow) && Sorted(b, seatsPerRow)
    requires multiset(a) == multiset(b)
    ensures a == b
  {
    if a != [] {
      assert |b| == |multiset(b)| == |a|;
      assert a[0] == b[0] by {
        assert a[0] in multiset(b) && b[0] in multiset(a);
        SortedHeadLeast(a, b[0], seatsPerRow);
        SortedHeadLeast(b, a[0], seatsPerRow);
        KeyLeTotalOrder(a[0], b[0], a[0], seatsPerRow);
      }
      var ta, tb := a[1..], b[1..];
      assert a == [a[0]] + ta && b == [b[0]] + tb;
      assert multiset(ta) == multiset(tb) by {
        assert multiset(a) == multiset([a[0]]) + multiset(ta);
        assert multiset(b) == multiset([b[0]]) + multiset(tb);
        forall y ensures multiset(ta)[y] == multiset(tb)[y] {
          assert multiset(a)[y] == multiset([a[0]])[y] + multiset(ta)[y];
          assert multiset(b)[y] == multiset([a[0]])[y] + multiset(tb)[y];
        }
      }
      assert Sorted(ta, seatsPerRow) && Sorted(tb, seatsPerRow);
      SortedUnique(ta, tb, seatsPerRow);
    }
  }

  /** The first seat of a sorted sequence ranks no worse than any of its seats. */
  lemma SortedHeadLeast(s: seq<Seat>, x: Seat, seatsPerRow: nat)
    requires Sorted(s, seatsPerRow) && x in s
    ensures KeyLe(s[0], x, seatsPerRow)
  {
    var k :| 0 <= k < |s| && s[k] == x;
    if k == 0 {
      KeyLeTotalOrder(x, x, x, seatsPerRow);
    }
  }

  lemma SortElements(s: seq<Seat>, seatsPerRow: nat)
    ensures forall x :: x in Sort(s, seatsPerRow) <==> x in s
    ensures |Sort(s, seatsPerRow)| == |s|
    ensures Distinct(s) ==> Distinct(Sort(s, seatsPerRow))
  {
    var r := Sort(s, seatsPerRow);
    SortSpec(s, seatsPerRow);
    assert forall x :: x in r <==> x in multiset(r);
    assert |r| == |multiset(r)|;
    if Distinct(s) {
      DistinctMultiset(s, r);
    }
  }

  /** Without truncation, `seat_sort_order` only reorders its input. */
  lemma SeatSortOrderAll(seats: seq<Seat>, seatsPerRow: nat)
    ensures forall x :: x in SeatSortOrder(seats, seatsPerRow, 0) <==> x in seats
    ensures |SeatSortOrder(seats, seatsPerRow, 0)| == |seats|
    ensures Distinct(seats) ==> Distinct(SeatSortOrder(seats, seatsPerRow, 0))
  {
    SortElements(seats, seatsPerRow);
    SeatSortOrderSpec(seats, seatsPerRow, 0);
  }

  /** The first `n` seats of a sorted sequence rank no worse than any seat after them. */
  lemma SortedPrefixBest(s: seq<Seat>, n: nat, seatsPerRow: nat)
    requires Sorted(s, seatsPerRow)
    ensures forall i, j :: 0 <= i < |Prefix(s, n)| <= j < |s| ==> KeyLe(s[i], s[j], seatsPerRow)
  {
  }

  /** `seat_sort_order(seats, seats_per_row, take)`: the seats ordered by
      `KeyLe`, truncated as `if take: result[:take]`. */
  function SeatSortOrder(seats: seq<Seat>, seatsPerRow: nat, take: int): seq<Seat>
  {
    var sorted := Sort(seats, seatsPerRow);
    if take != 0 then Slice(sorted, take) else sorted
  }

  /** `seat_sort_order` lists its seats most central first, rightmost first
      among equally central seats; with `take == 0` it only reorders them, and
      a positive `take` keeps the `take` best of them. */
  lemma SeatSortOrderSpec(seats: seq<Seat>, seatsPerRow: nat, take: int)
    ensures var r := SeatSortOrder(seats, seatsPerRow, take);
      (take == 0 ==> multiset(r) == multiset(seats)) &&
      (take > 0 ==> |r| == (if take < |seats| then take else |seats|)) &&
      Sorted(r, seatsPerRow) &&
      (forall x :: x in r ==> x in seats)
  {
    var sorted := Sort(seats, seatsPerRow);
    SortElements(seats, seatsPerRow);
    SortSpec(seats, seatsPerRow);
    var r := SeatSortOrder(seats, seatsPerRow, take);
    assert forall x :: x in r ==> x in sorted;
  }

  /** The best `take` seats: no seat left out ranks better than one kept. */
  lemma SeatSortOrderBest(seats: seq<Seat>, seatsPerRow: nat, take: nat)
    requires take > 0
    ensures var r := SeatSortOrder(seats, seatsPerRow, take);
      forall x, y :: x in r && y in seats && y !in r ==> KeyLe(x, y, seatsPerRow)
  {
    var sorted := Sort(seats, seatsPerRow);
    var r := SeatSortOrder(seats, seatsPerRow, take);
    SortElements(seats, seatsPerRow);
    SortSpec(seats, seatsPerRow);
    forall x, y | x in r && y in seats && y !in r ensures KeyLe(x, y, seatsPerRow) {
      var i :| 0 <= i < |r| && r[i] == x;
      var j :| 0 <= j < |sorted| && sorted[j] == y;
      assert sorted[i] == x;
    }
  }

  /** The loop of `seat_sort_order`: each seat is keyed and placed into the
      ordered list; the result is then truncated as `if take: result[:take]`. */
  method SortSeats(seats: seq<Seat>, seatsPerRow: nat, take: int) returns (result: seq<Seat>)
    ensures result == SeatSortOrder(seats, seatsPerRow, take)
  {
    if seats == [] {
      return [];
    }
    result := [];
    for i := 0 to |seats|
      invariant result == Sort(seats[..i], seatsPerRow)
    {
      assert seats[..i + 1][..i] == seats[..i];
      result := Insert(seats[i], result, seatsPerRow);
    }
    assert seats[..|seats|] == seats;
    if take != 0 {
      result := Slice(result, take);
    }
  }
}
