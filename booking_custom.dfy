/** Custom seat allocation from a chosen starting seat (`fill_right_in_row`,
    `fill_next_rows_by_centrality`, `fill_left_in_row`,
    `fill_prev_rows_by_centrality`, `custom_seating` in booking.py). Seats are
    taken rightwards from the anchor in its row, then from the rows behind it by
    centrality, then leftwards from the anchor, then from the rows in front of it
    (nearest first) by centrality. */
module CustomSeating {
  import opened Wrappers
  import opened Seqs
  import opened Text
  import opened Seats
  import opened MovieClasses
  import opened Grid
  import opened Ranking

  /** Seats `lo .. hi - 1` of row `r`, left to right. */
  function Run(r: nat, lo: nat, hi: nat): (s: seq<Seat>)
    ensures |s| == (if lo < hi then hi - lo else 0)
    ensures forall k :: 0 <= k < |s| ==> s[k] == Seat(r, lo + k)
  {
    if lo < hi then seq(hi - lo, k requires 0 <= k < hi - lo => Seat(r, lo + k)) else []
  }

  lemma RunSnoc(r: nat, lo: nat, hi: nat)
    requires lo <= hi
    ensures Run(r, lo, hi + 1) == Run(r, lo, hi) + [Seat(r, hi)]
  {
    assert |Run(r, lo, hi + 1)| == |Run(r, lo, hi) + [Seat(r, hi)]|;
  }

  /** Seats `hi, hi - 1, .., 1` of row `r`, right to left. */
  function RunDown(r: nat, hi: nat): (s: seq<Seat>)
    ensures |s| == hi
    ensures forall k :: 0 <= k < hi ==> s[k] == Seat(r, hi - k)
  {
    seq(hi, k requires 0 <= k < hi => Seat(r, hi - k))
  }

  /** `fill_right_in_row`: the free seats of row `r` from `startNum` to the end of the row. */
  function FillRight(r: nat, startNum: nat, seatsPerRow: nat, booked: set<Seat>, taken: seq<Seat>): seq<Seat>
  {
    Unassigned(Run(r, startNum, seatsPerRow + 1), booked, taken)
  }

  /** `fill_left_in_row`: the free seats of row `r` left of `startNum`, nearest first. */
  function FillLeft(r: nat, startNum: nat, booked: set<Seat>, taken: seq<Seat>): seq<Seat>
  {
    Unassigned(RunDown(r, if startNum >= 1 then startNum - 1 else 0), booked, taken)
  }

  /** `fill_next_rows_by_centrality` after the rows `lo .. hi - 1` (`lo` is the
      row after the anchor's): the rows in order, each one's free seats by
      centrality; a seat already filled is not taken again. */
  function NextRows(seatMap: seq<seq<Seat>>, lo: nat, hi: nat, seatsPerRow: nat, booked: set<Seat>, taken: seq<Seat>): seq<Seat>
    requires hi <= |seatMap|
    decreases hi
  {
    if hi <= lo then []
    else
      var filled := NextRows(seatMap, lo, hi - 1, seatsPerRow, booked, taken);
      filled + SeatSortOrder(Unassigned(seatMap[hi - 1], booked, taken + filled), seatsPerRow, 0)
  }

  /** `fill_prev_rows_by_centrality` after `k` steps back from row `top`: rows
      `top - 1, .., top - k`, each one's free seats by centrality. */
  function PrevRows(seatMap: seq<seq<Seat>>, top: nat, k: nat, seatsPerRow: nat, booked: set<Seat>, taken: seq<Seat>): seq<Seat>
    requires k <= top <= |seatMap|
  {
    if k == 0 then []
    else
      var filled := PrevRows(seatMap, top, k - 1, seatsPerRow, booked, taken);
      filled + SeatSortOrder(Unassigned(seatMap[top - k], booked, taken + filled), seatsPerRow, 0)
  }

  lemma NextRowsUnfold(seatMap: seq<seq<Seat>>, lo: nat, hi: nat, seatsPerRow: nat, booked: set<Seat>, taken: seq<Seat>)
    requires lo < hi <= |seatMap|
    ensures NextRows(seatMap, lo, hi, seatsPerRow, booked, taken) ==
      NextRows(seatMap, lo, hi - 1, seatsPerRow, booked, taken) +
      SeatSortOrder(Unassigned(seatMap[hi - 1], booked, taken + NextRows(seatMap, lo, hi - 1, seatsPerRow, booked, taken)), seatsPerRow, 0)
  {
  }

  lemma PrevRowsUnfold(seatMap: seq<seq<Seat>>, top: nat, k: nat, seatsPerRow: nat, booked: set<Seat>, taken: seq<Seat>)
    requires 0 < k <= top <= |seatMap|
    ensures PrevRows(seatMap, top, k, seatsPerRow, booked, taken) ==
      PrevRows(seatMap, top, k - 1, seatsPerRow, booked, taken) +
      SeatSortOrder(Unassigned(seatMap[top - k], booked, taken + PrevRows(seatMap, top, k - 1, seatsPerRow, booked, taken)), seatsPerRow, 0)
  {
  }

  /** Seat numbers strictly increase along `s`. */
  predicate ColsAscending(s: seq<Seat>) {
    forall i, j :: 0 <= i < j < |s| ==> s[i].col < s[j].col
  }

  lemma ColsAscendingCons(x: Seat, rest: seq<Seat>)
    requires ColsAscending(rest) && forall y :: y in rest ==> x.col < y.col
    ensures ColsAscending([x] + rest)
  {
    var r := [x] + rest;
    forall i, j | 0 <= i < j < |r| ensures r[i].col < r[j].col {
      assert r[j] == rest[j - 1] && rest[j - 1] in rest;
      if i > 0 {
        assert r[i] == rest[i - 1];
      }
    }
  }

  /** Filtering keeps the seats of an ascending run in ascending column order. */
  lemma {:induction false} UnassignedOrder(run: seq<Seat>, booked: set<Seat>, taken: seq<Seat>)
    requires ColsAscending(run)
    ensures ColsAscending(Unassigned(run, booked, taken))
  {
    if run != [] {
      var tail := run[1..];
      assert ColsAscending(tail);
      UnassignedOrder(tail, booked, taken);
      var rest := Unassigned(tail, booked, taken);
      forall y | y in rest ensures run[0].col < y.col {
        var k :| 0 <= k < |tail| && tail[k] == y;
        assert run[k + 1] == y;
      }
      if run[0] !in booked && run[0] !in taken {
        ColsAscendingCons(run[0], rest);
      }
    }
  }

  /** Filling rightwards yields each free seat from the anchor to the row's end once. */
  lemma FillRightElements(r: nat, startNum: nat, seatsPerRow: nat, booked: set<Seat>, taken: seq<Seat>)
    ensures Distinct(FillRight(r, startNum, seatsPerRow, booked, taken))
    ensures forall s :: s in FillRight(r, startNum, seatsPerRow, booked, taken) <==>
      s.row == r && startNum <= s.col <= seatsPerRow && s !in booked && s !in taken
  {
    var run := Run(r, startNum, seatsPerRow + 1);
    assert Distinct(run);
    UnassignedDistinct(run, booked, taken);
    forall s: Seat | s.row == r && startNum <= s.col <= seatsPerRow ensures s in run {
      assert run[s.col - startNum] == s;
    }
  }

  /** Filling leftwards yields each free seat left of the anchor once. */
  lemma FillLeftElements(r: nat, startNum: nat, booked: set<Seat>, taken: seq<Seat>)
    ensures Distinct(FillLeft(r, startNum, booked, taken))
    ensures forall s :: s in FillLeft(r, startNum, booked, taken) <==>
      s.row == r && 1 <= s.col < startNum && s !in booked && s !in taken
  {
    var top := if startNum >= 1 then startNum - 1 else 0;
    var run := RunDown(r, top);
    assert Distinct(run);
    UnassignedDistinct(run, booked, taken);
    forall s: Seat | s.row == r && 1 <= s.col < startNum ensures s in run {
      assert run[top - s.col] == s;
    }
  }

  /** Seat numbers strictly decrease along `s`. */
  predicate ColsDescending(s: seq<Seat>) {
    forall i, j :: 0 <= i < j < |s| ==> s[i].col > s[j].col
  }

  lemma ColsDescendingCons(x: Seat, rest: seq<Seat>)
    requires ColsDescending(rest) && forall y :: y in rest ==> x.col > y.col
    ensures ColsDescending([x] + rest)
  {
    var r := [x] + rest;
    forall i, j | 0 <= i < j < |r| ensures r[i].col > r[j].col {
      assert r[j] == rest[j - 1] && rest[j - 1] in rest;
      if i > 0 {
        assert r[i] == rest[i - 1];
      }
    }
  }

  /** Filtering keeps the seats of a descending run in descending column order. */
  lemma {:induction false} UnassignedOrderDown(run: seq<Seat>, booked: set<Seat>, taken: seq<Seat>)
    requires ColsDescending(run)
    ensures ColsDescending(Unassigned(run, booked, taken))
  {
    if run != [] {
      var tail := run[1..];
      assert ColsDescending(tail);
      UnassignedOrderDown(tail, booked, taken);
      var rest := Unassigned(tail, booked, taken);
      forall y | y in rest ensures run[0].col > y.col {
        var k :| 0 <= k < |tail| && tail[k] == y;
        assert run[k + 1] == y;
      }
      if run[0] !in booked && run[0] !in taken {
        ColsDescendingCons(run[0], rest);
      }
    }
  }

  /** Filling leftwards goes from the seat next to the anchor towards seat 1. */
  lemma FillLeftDescending(r: nat, startNum: nat, booked: set<Seat>, taken: seq<Seat>)
    ensures ColsDescending(FillLeft(r, startNum, booked, taken))
  {
    UnassignedOrderDown(RunDown(r, if startNum >= 1 then startNum - 1 else 0), booked, taken);
  }

  method FillRightInRow(r: nat, startNum: nat, seatsPerRow: nat, booked: set<Seat>, taken: seq<Seat>)
    returns (filled: seq<Seat>)
    ensures filled == FillRight(r, startNum, seatsPerRow, booked, taken)
  {
    filled := [];
    var n := startNum;
    while n <= seatsPerRow
      invariant startNum <= n
      invariant n <= seatsPerRow + 1 || n == startNum
      invariant filled == Unassigned(Run(r, startNum, n), booked, taken)
      decreases seatsPerRow + 1 - n
    {
      var seat := Seat(r, n);
      RunSnoc(r, startNum, n);
      UnassignedConcat(Run(r, startNum, n), [seat], booked, taken);
      UnassignedSingle(seat, booked, taken);
      assert seat !in filled;
      if seat !in booked && seat !in taken && seat !in filled {
        filled := filled + [seat];
      }
      n := n + 1;
    }
    if n == startNum {
      assert Run(r, startNum, n) == Run(r, startNum, seatsPerRow + 1) == [];
    }
  }

  method FillLeftInRow(r: nat, startNum: nat, booked: set<Seat>, taken: seq<Seat>)
    returns (filled: seq<Seat>)
    ensures filled == FillLeft(r, startNum, booked, taken)
  {
    filled := [];
    var top := if startNum >= 1 then startNum - 1 else 0;
    var run := RunDown(r, top);
    var n := top;
    while n > 0
      invariant 0 <= n <= top
      invariant filled == Unassigned(run[..top - n], booked, taken)
    {
      var seat := Seat(r, n);
      assert run[..top - n + 1] == run[..top - n] + [seat];
      UnassignedConcat(run[..top - n], [seat], booked, taken);
      UnassignedSingle(seat, booked, taken);
      assert seat !in filled;
      if seat !in booked && seat !in taken && seat !in filled {
        filled := filled + [seat];
      }
      n := n - 1;
    }
    assert run[..top] == run;
  }

  method FillNextRowsByCentrality(rowIdx: nat, seatMap: seq<seq<Seat>>, seatsPerRow: nat, booked: set<Seat>, taken: seq<Seat>)
    returns (filled: seq<Seat>)
    ensures filled == NextRows(seatMap, rowIdx + 1, |seatMap|, seatsPerRow, booked, taken)
  {
    filled := [];
    var i := rowIdx + 1;
    if i > |seatMap| {
      return;
    }
    while i < |seatMap|
      invariant rowIdx + 1 <= i <= |seatMap|
      invariant filled == NextRows(seatMap, rowIdx + 1, i, seatsPerRow, booked, taken)
    {
      var available := Unassigned(seatMap[i], booked, taken + filled);
      var ordered := SortSeats(available, seatsPerRow, 0);
      filled := filled + ordered;
      i := i + 1;
    }
  }

  method FillPrevRowsByCentrality(rowIdx: nat, seatMap: seq<seq<Seat>>, seatsPerRow: nat, booked: set<Seat>, taken: seq<Seat>)
    returns (filled: seq<Seat>)
    requires rowIdx <= |seatMap|
    ensures filled == PrevRows(seatMap, rowIdx, rowIdx, seatsPerRow, booked, taken)
  {
    filled := [];
    var k := 0;
    while k < rowIdx
      invariant k <= rowIdx
      invariant filled == PrevRows(seatMap, rowIdx, k, seatsPerRow, booked, taken)
    {
      var prevRowIdx := rowIdx - 1 - k;
      var available := Unassigned(seatMap[prevRowIdx], booked, taken + filled);
      var ordered := SortSeats(available, seatsPerRow, 0);
      PrevRowsUnfold(seatMap, rowIdx, k + 1, seatsPerRow, booked, taken);
      filled := filled + ordered;
      k := k + 1;
    }
  }

  /** One row's contribution to the row-by-row phases: its seats that are
      neither booked nor taken, in centrality order, each once. */
  lemma RowBlock(row: seq<Seat>, seatsPerRow: nat, booked: set<Seat>, taken: seq<Seat>)
    ensures forall x :: x in SeatSortOrder(Unassigned(row, booked, taken), seatsPerRow, 0) <==>
      x in row && x !in booked && x !in taken
  {
    SeatSortOrderAll(Unassigned(row, booked, taken), seatsPerRow);
  }

  lemma RowBlockDistinct(row: seq<Seat>, seatsPerRow: nat, booked: set<Seat>, taken: seq<Seat>)
    requires Distinct(row)
    ensures Distinct(SeatSortOrder(Unassigned(row, booked, taken), seatsPerRow, 0))
  {
    UnassignedDistinct(row, booked, taken);
    SeatSortOrderAll(Unassigned(row, booked, taken), seatsPerRow);
  }

  /** A row of the grid's seat map contributes a seat exactly when it is a
      seat of that row that is neither booked nor taken. */
  lemma GridRowFree(rows: nat, r: nat, seatsPerRow: nat, booked: set<Seat>, taken: seq<Seat>, s: Seat)
    requires r < rows
    ensures s in SeatSortOrder(Unassigned(SeatMap(rows, seatsPerRow)[r], booked, taken), seatsPerRow, 0) <==>
      s.row == r && 1 <= s.col <= seatsPerRow && s !in booked && s !in taken
  {
    RowBlock(SeatMap(rows, seatsPerRow)[r], seatsPerRow, booked, taken);
    RowSeatsElements(r, seatsPerRow);
  }

  /** One step of the row-by-row fill: the rows filled so far plus the free
      seats of a neighbouring row `r`. */
  lemma RowStep(s: Seat, all: seq<Seat>, filled: seq<Seat>, block: seq<Seat>, booked: set<Seat>, taken: seq<Seat>,
                lo: nat, hi: nat, r: nat, seatsPerRow: nat)
    requires r + 1 == lo || r == hi
    requires s in all <==> s in filled || s in block
    requires s in filled <==> s !in booked && s !in taken && lo <= s.row < hi && 1 <= s.col <= seatsPerRow
    requires s in block <==> s.row == r && 1 <= s.col <= seatsPerRow && s !in booked && s !in taken + filled
    ensures s in all <==> s !in booked && s !in taken && (lo <= s.row < hi || s.row == r) && 1 <= s.col <= seatsPerRow
  {
    assert s in taken + filled <==> s in taken || s in filled;
  }

  /** On the grid's seat map, the rows after the anchor's contribute exactly the
      free, not yet taken seats of rows `lo .. hi - 1`. */
  lemma {:induction false} NextRowsElements(rows: nat, lo: nat, hi: nat, seatsPerRow: nat,
                                            booked: set<Seat>, taken: seq<Seat>, s: Seat)
    requires hi <= rows
    ensures s in NextRows(SeatMap(rows, seatsPerRow), lo, hi, seatsPerRow, booked, taken) <==>
      s !in booked && s !in taken && lo <= s.row < hi && 1 <= s.col <= seatsPerRow
  {
    if lo < hi {
      var seatMap := SeatMap(rows, seatsPerRow);
      var filled := NextRows(seatMap, lo, hi - 1, seatsPerRow, booked, taken);
      NextRowsElements(rows, lo, hi - 1, seatsPerRow, booked, taken, s);
      assert s in filled <==> s !in booked && s !in taken && lo <= s.row < hi - 1 && 1 <= s.col <= seatsPerRow;
      var r: nat := hi - 1;
      var block := SeatSortOrder(Unassigned(seatMap[r], booked, taken + filled), seatsPerRow, 0);
      NextRowsUnfold(seatMap, lo, hi, seatsPerRow, booked, taken);
      assert s in NextRows(seatMap, lo, hi, seatsPerRow, booked, taken) <==> s in filled || s in block;
      GridRowFree(rows, r, seatsPerRow, booked, taken + filled, s);
      RowStep(s, NextRows(seatMap, lo, hi, seatsPerRow, booked, taken), filled, block, booked, taken, lo, hi - 1, r, seatsPerRow);
    }
  }

  lemma {:induction false} NextRowsDistinct(seatMap: seq<seq<Seat>>, lo: nat, hi: nat, seatsPerRow: nat,
                                            booked: set<Seat>, taken: seq<Seat>)
    requires hi <= |seatMap|
    requires forall i :: lo <= i < hi ==> Distinct(seatMap[i])
    ensures Distinct(NextRows(seatMap, lo, hi, seatsPerRow, booked, taken))
  {
    if lo < hi {
      var filled := NextRows(seatMap, lo, hi - 1, seatsPerRow, booked, taken);
      var block := SeatSortOrder(Unassigned(seatMap[hi - 1], booked, taken + filled), seatsPerRow, 0);
      NextRowsUnfold(seatMap, lo, hi, seatsPerRow, booked, taken);
      NextRowsDistinct(seatMap, lo, hi - 1, seatsPerRow, booked, taken);
      RowBlockDistinct(seatMap[hi - 1], seatsPerRow, booked, taken + filled);
      RowBlock(seatMap[hi - 1], seatsPerRow, booked, taken + filled);
      DistinctAppend(filled, block);
    }
  }

  /** On the grid's seat map, the rows in front of the anchor's contribute
      exactly the free, not yet taken seats of rows `top - k .. top - 1`. */
  lemma {:induction false} PrevRowsElements(rows: nat, top: nat, k: nat, seatsPerRow: nat,
                                            booked: set<Seat>, taken: seq<Seat>, s: Seat)
    requires k <= top <= rows
    ensures s in PrevRows(SeatMap(rows, seatsPerRow), top, k, seatsPerRow, booked, taken) <==>
      s !in booked && s !in taken && top - k <= s.row < top && 1 <= s.col <= seatsPerRow
  {
    if k > 0 {
      var seatMap := SeatMap(rows, seatsPerRow);
      var filled := PrevRows(seatMap, top, k - 1, seatsPerRow, booked, taken);
      PrevRowsElements(rows, top, k - 1, seatsPerRow, booked, taken, s);
      assert s in filled <==> s !in booked && s !in taken && top - (k - 1) <= s.row < top && 1 <= s.col <= seatsPerRow;
      var r: nat := top - k;
      var block := SeatSortOrder(Unassigned(seatMap[r], booked, taken + filled), seatsPerRow, 0);
      PrevRowsUnfold(seatMap, top, k, seatsPerRow, booked, taken);
      assert s in PrevRows(seatMap, top, k, seatsPerRow, booked, taken) <==> s in filled || s in block;
      GridRowFree(rows, r, seatsPerRow, booked, taken + filled, s);
      RowStep(s, PrevRows(seatMap, top, k, seatsPerRow, booked, taken), filled, block, booked, taken, top - (k - 1), top, r, seatsPerRow);
    }
  }

  lemma {:induction false} PrevRowsDistinct(seatMap: seq<seq<Seat>>, top: nat, k: nat, seatsPerRow: nat,
                                            booked: set<Seat>, taken: seq<Seat>)
    requires k <= top <= |seatMap|
    requires forall i :: top - k <= i < top ==> Distinct(seatMap[i])
    ensures Distinct(PrevRows(seatMap, top, k, seatsPerRow, booked, taken))
  {
    if k > 0 {
      var filled := PrevRows(seatMap, top, k - 1, seatsPerRow, booked, taken);
      var block := SeatSortOrder(Unassigned(seatMap[top - k], booked, taken + filled), seatsPerRow, 0);
      PrevRowsUnfold(seatMap, top, k, seatsPerRow, booked, taken);
      PrevRowsDistinct(seatMap, top, k - 1, seatsPerRow, booked, taken);
      RowBlockDistinct(seatMap[top - k], seatsPerRow, booked, taken + filled);
      RowBlock(seatMap[top - k], seatsPerRow, booked, taken + filled);
      DistinctAppend(filled, block);
    }
  }

  /** Row by row from the front, each row's seats by centrality. */
  predicate FrontToBack(s: seq<Seat>, seatsPerRow: nat) {
    forall i, j :: 0 <= i < j < |s| ==>
      s[i].row < s[j].row || (s[i].row == s[j].row && KeyLe(s[i], s[j], seatsPerRow))
  }

  /** Row by row towards the front, each row's seats by centrality. */
  predicate BackToFront(s: seq<Seat>, seatsPerRow: nat) {
    forall i, j :: 0 <= i < j < |s| ==>
      s[i].row > s[j].row || (s[i].row == s[j].row && KeyLe(s[i], s[j], seatsPerRow))
  }

  lemma FrontToBackAppend(prev: seq<Seat>, block: seq<Seat>, r: nat, seatsPerRow: nat)
    requires FrontToBack(prev, seatsPerRow) && Sorted(block, seatsPerRow)
    requires forall s :: s in prev ==> s.row < r
    requires forall s :: s in block ==> s.row == r
    ensures FrontToBack(prev + block, seatsPerRow)
  {
    var q := prev + block;
    forall i, j | 0 <= i < j < |q|
      ensures q[i].row < q[j].row || (q[i].row == q[j].row && KeyLe(q[i], q[j], seatsPerRow))
    {
      if j < |prev| {
        assert q[i] == prev[i] && q[j] == prev[j];
      } else if i < |prev| {
        assert q[i] in prev && q[j] in block;
      } else {
        assert q[i] == block[i - |prev|] && q[j] == block[j - |prev|];
      }
    }
  }

  lemma BackToFrontAppend(prev: seq<Seat>, block: seq<Seat>, r: nat, seatsPerRow: nat)
    requires BackToFront(prev, seatsPerRow) && Sorted(block, seatsPerRow)
    requires forall s :: s in prev ==> s.row > r
    requires forall s :: s in block ==> s.row == r
    ensures BackToFront(prev + block, seatsPerRow)
  {
    var q := prev + block;
    forall i, j | 0 <= i < j < |q|
      ensures q[i].row > q[j].row || (q[i].row == q[j].row && KeyLe(q[i], q[j], seatsPerRow))
    {
      if j < |prev| {
        assert q[i] == prev[i] && q[j] == prev[j];
      } else if i < |prev| {
        assert q[i] in prev && q[j] in block;
      } else {
        assert q[i] == block[i - |prev|] && q[j] == block[j - |prev|];
      }
    }
  }

  /** The rows behind the anchor's are filled in ascending row order, and
      within a row from the most central seat outwards. */
  lemma {:induction false} NextRowsOrder(rows: nat, lo: nat, hi: nat, seatsPerRow: nat,
                                         booked: set<Seat>, taken: seq<Seat>)
    requires hi <= rows
    ensures FrontToBack(NextRows(SeatMap(rows, seatsPerRow), lo, hi, seatsPerRow, booked, taken), seatsPerRow)
  {
    if lo < hi {
      var seatMap := SeatMap(rows, seatsPerRow);
      var filled := NextRows(seatMap, lo, hi - 1, seatsPerRow, booked, taken);
      NextRowsOrder(rows, lo, hi - 1, seatsPerRow, booked, taken);
      var r: nat := hi - 1;
      var free := Unassigned(seatMap[r], booked, taken + filled);
      var block := SeatSortOrder(free, seatsPerRow, 0);
      NextRowsUnfold(seatMap, lo, hi, seatsPerRow, booked, taken);
      SeatSortOrderSpec(free, seatsPerRow, 0);
      forall s | s in filled ensures s.row < r {
        NextRowsElements(rows, lo, hi - 1, seatsPerRow, booked, taken, s);
      }
      forall s | s in block ensures s.row == r {
        GridRowFree(rows, r, seatsPerRow, booked, taken + filled, s);
      }
      FrontToBackAppend(filled, block, r, seatsPerRow);
    }
  }

  /** The rows in front of the anchor's are filled nearest row first, and
      within a row from the most central seat outwards. */
  lemma {:induction false} PrevRowsOrder(rows: nat, top: nat, k: nat, seatsPerRow: nat,
                                         booked: set<Seat>, taken: seq<Seat>)
    requires k <= top <= rows
    ensures BackToFront(PrevRows(SeatMap(rows, seatsPerRow), top, k, seatsPerRow, booked, taken), seatsPerRow)
  {
    if k > 0 {
      var seatMap := SeatMap(rows, seatsPerRow);
      var filled := PrevRows(seatMap, top, k - 1, seatsPerRow, booked, taken);
      PrevRowsOrder(rows, top, k - 1, seatsPerRow, booked, taken);
      var r: nat := top - k;
      var free := Unassigned(seatMap[r], booked, taken + filled);
      var block := SeatSortOrder(free, seatsPerRow, 0);
      PrevRowsUnfold(seatMap, top, k, seatsPerRow, booked, taken);
      SeatSortOrderSpec(free, seatsPerRow, 0);
      forall s | s in filled ensures s.row > r {
        PrevRowsElements(rows, top, k - 1, seatsPerRow, booked, taken, s);
      }
      forall s | s in block ensures s.row == r {
        GridRowFree(rows, r, seatsPerRow, booked, taken + filled, s);
      }
      BackToFrontAppend(filled, block, r, seatsPerRow);
    }
  }

  /** Phase 1 of `custom_seating`: rightwards from the anchor in its row. */
  function AfterRight(m: MovieRec, anchor: Seat): seq<Seat>
  {
    FillRight(anchor.row, anchor.col, m.seatsPerRow, Occupied(m.bookings), [])
  }

  /** Phase 2: then the rows behind the anchor's, skipping seats already assigned. */
  function AfterNext(m: MovieRec, anchor: Seat): seq<Seat>
  {
    var prev := AfterRight(m, anchor);
    prev + NextRows(SeatMap(m.rows, m.seatsPerRow), anchor.row + 1, m.rows, m.seatsPerRow, Occupied(m.bookings), prev)
  }

  lemma AfterNextUnfold(m: MovieRec, anchor: Seat)
    ensures AfterNext(m, anchor) == AfterRight(m, anchor) +
      NextRows(SeatMap(m.rows, m.seatsPerRow), anchor.row + 1, m.rows, m.seatsPerRow, Occupied(m.bookings), AfterRight(m, anchor))
  {
  }

  /** Phase 3: then leftwards from the anchor in its row. */
  function AfterLeft(m: MovieRec, anchor: Seat): seq<Seat>
  {
    var prev := AfterNext(m, anchor);
    prev + FillLeft(anchor.row, anchor.col, Occupied(m.bookings), prev)
  }

  lemma AfterLeftUnfold(m: MovieRec, anchor: Seat)
    ensures AfterLeft(m, anchor) == AfterNext(m, anchor) +
      FillLeft(anchor.row, anchor.col, Occupied(m.bookings), AfterNext(m, anchor))
  {
  }

  /** Phase 4: then the rows in front of the anchor's, nearest first. */
  function AfterPrev(m: MovieRec, anchor: Seat): seq<Seat>
    requires anchor.row < m.rows
  {
    var prev := AfterLeft(m, anchor);
    prev + PrevRows(SeatMap(m.rows, m.seatsPerRow), anchor.row, anchor.row, m.seatsPerRow, Occupied(m.bookings), prev)
  }

  lemma AfterPrevUnfold(m: MovieRec, anchor: Seat)
    requires anchor.row < m.rows
    ensures AfterPrev(m, anchor) == AfterLeft(m, anchor) +
      PrevRows(SeatMap(m.rows, m.seatsPerRow), anchor.row, anchor.row, m.seatsPerRow, Occupied(m.bookings), AfterLeft(m, anchor))
  {
  }

  /** `custom_seating`: after each phase, stop as soon as enough seats are
      assigned and return the first `num_tickets` of them. */
  function CustomSeats(m: MovieRec, numTickets: int, anchor: Seat): seq<Seat>
    requires anchor.row < m.rows
  {
    if |AfterRight(m, anchor)| >= numTickets then Slice(AfterRight(m, anchor), numTickets)
    else if |AfterNext(m, anchor)| >= numTickets then Slice(AfterNext(m, anchor), numTickets)
    else if |AfterLeft(m, anchor)| >= numTickets then Slice(AfterLeft(m, anchor), numTickets)
    else Slice(AfterPrev(m, anchor), numTickets)
  }

  lemma StopAfterRight(m: MovieRec, numTickets: int, anchor: Seat)
    requires anchor.row < m.rows && |AfterRight(m, anchor)| >= numTickets
    ensures CustomSeats(m, numTickets, anchor) == Slice(AfterRight(m, anchor), numTickets)
  {
  }

  lemma StopAfterNext(m: MovieRec, numTickets: int, anchor: Seat)
    requires anchor.row < m.rows && |AfterRight(m, anchor)| < numTickets <= |AfterNext(m, anchor)|
    ensures CustomSeats(m, numTickets, anchor) == Slice(AfterNext(m, anchor), numTickets)
  {
  }

  lemma StopAfterLeft(m: MovieRec, numTickets: int, anchor: Seat)
    requires anchor.row < m.rows && |AfterRight(m, anchor)| < numTickets && |AfterNext(m, anchor)| < numTickets
    requires numTickets <= |AfterLeft(m, anchor)|
    ensures CustomSeats(m, numTickets, anchor) == Slice(AfterLeft(m, anchor), numTickets)
  {
  }

  lemma StopAfterPrev(m: MovieRec, numTickets: int, anchor: Seat)
    requires anchor.row < m.rows && |AfterRight(m, anchor)| < numTickets && |AfterNext(m, anchor)| < numTickets
    requires |AfterLeft(m, anchor)| < numTickets
    ensures CustomSeats(m, numTickets, anchor) == Slice(AfterPrev(m, anchor), numTickets)
  {
  }

  /** Each phase only extends what the earlier ones assigned. */
  lemma PhasesGrow(m: MovieRec, anchor: Seat)
    requires anchor.row < m.rows
    ensures AfterRight(m, anchor) <= AfterPrev(m, anchor)
    ensures AfterNext(m, anchor) <= AfterPrev(m, anchor)
    ensures AfterLeft(m, anchor) <= AfterPrev(m, anchor)
  {
    var s1, s2, s3, s4 := AfterRight(m, anchor), AfterNext(m, anchor), AfterLeft(m, anchor), AfterPrev(m, anchor);
    assert s1 <= s2;
    assert s2 <= s3;
    assert s3 <= s4;
  }

  lemma PrefixOfPrefix(a: seq<Seat>, b: seq<Seat>, n: nat)
    requires a <= b && n <= |a|
    ensures Prefix(a, n) == Prefix(b, n)
  {
  }

  /** Stopping early never changes the answer: for a non-negative ticket count
      the result is the first `num_tickets` seats of the full four-phase order. */
  lemma CustomSeatsPrefix(m: MovieRec, numTickets: nat, anchor: Seat)
    requires anchor.row < m.rows
    ensures CustomSeats(m, numTickets, anchor) == Prefix(AfterPrev(m, anchor), numTickets)
  {
    PhasesGrow(m, anchor);
    var s1, s2, s3, s4 := AfterRight(m, anchor), AfterNext(m, anchor), AfterLeft(m, anchor), AfterPrev(m, anchor);
    if |s1| >= numTickets {
      PrefixOfPrefix(s1, s4, numTickets);
    } else if |s2| >= numTickets {
      PrefixOfPrefix(s2, s4, numTickets);
    } else if |s3| >= numTickets {
      PrefixOfPrefix(s3, s4, numTickets);
    }
  }

  lemma AfterRightFacts(m: MovieRec, anchor: Seat)
    ensures Distinct(AfterRight(m, anchor))
    ensures forall x :: x in AfterRight(m, anchor) <==>
      (x !in Occupied(m.bookings) && x.row == anchor.row && anchor.col <= x.col <= m.seatsPerRow)
  {
    FillRightElements(anchor.row, anchor.col, m.seatsPerRow, Occupied(m.bookings), []);
  }

  lemma AfterNextFacts(m: MovieRec, anchor: Seat)
    ensures Distinct(AfterNext(m, anchor))
    ensures forall x :: x in AfterNext(m, anchor) <==>
      (x !in Occupied(m.bookings) &&
       ((x.row == anchor.row && anchor.col <= x.col <= m.seatsPerRow) ||
        (anchor.row < x.row < m.rows && 1 <= x.col <= m.seatsPerRow)))
  {
    var booked, seatMap, s1 := Occupied(m.bookings), SeatMap(m.rows, m.seatsPerRow), AfterRight(m, anchor);
    var next := NextRows(seatMap, anchor.row + 1, m.rows, m.seatsPerRow, booked, s1);
    AfterNextUnfold(m, anchor);
    AfterRightFacts(m, anchor);
    NextPhase(m, anchor.row + 1, booked, s1);
    DistinctAppend(s1, next);
  }

  /** The rows-behind phase on the grid's seat map: duplicate-free, and exactly
      the free seats of those rows that earlier phases did not take. */
  lemma NextPhase(m: MovieRec, lo: nat, booked: set<Seat>, taken: seq<Seat>)
    ensures var next := NextRows(SeatMap(m.rows, m.seatsPerRow), lo, m.rows, m.seatsPerRow, booked, taken);
      Distinct(next) &&
      forall x :: x in next <==> x !in booked && x !in taken && lo <= x.row < m.rows && 1 <= x.col <= m.seatsPerRow
  {
    var seatMap := SeatMap(m.rows, m.seatsPerRow);
    forall i | 0 <= i < m.rows ensures Distinct(seatMap[i]) {
      RowSeatsElements(i, m.seatsPerRow);
    }
    NextRowsDistinct(seatMap, lo, m.rows, m.seatsPerRow, booked, taken);
    forall x ensures x in NextRows(seatMap, lo, m.rows, m.seatsPerRow, booked, taken) <==>
      x !in booked && x !in taken && lo <= x.row < m.rows && 1 <= x.col <= m.seatsPerRow
    {
      NextRowsElements(m.rows, lo, m.rows, m.seatsPerRow, booked, taken, x);
    }
  }

  lemma AfterLeftFacts(m: MovieRec, anchor: Seat)
    ensures Distinct(AfterLeft(m, anchor))
    ensures forall x :: x in AfterLeft(m, anchor) <==>
      (x !in Occupied(m.bookings) &&
       ((x.row == anchor.row && anchor.col <= x.col <= m.seatsPerRow) ||
        (anchor.row < x.row < m.rows && 1 <= x.col <= m.seatsPerRow) ||
        (x.row == anchor.row && 1 <= x.col < anchor.col)))
  {
    var booked, s2 := Occupied(m.bookings), AfterNext(m, anchor);
    AfterNextFacts(m, anchor);
    FillLeftElements(anchor.row, anchor.col, booked, s2);
    AfterLeftUnfold(m, anchor);
    DistinctAppend(s2, FillLeft(anchor.row, anchor.col, booked, s2));
  }

  lemma AfterPrevFacts(m: MovieRec, anchor: Seat)
    requires anchor.row < m.rows
    ensures Distinct(AfterPrev(m, anchor))
    ensures forall x :: x in AfterPrev(m, anchor) <==>
      (x !in Occupied(m.bookings) &&
       ((x.row == anchor.row && anchor.col <= x.col <= m.seatsPerRow) ||
        (anchor.row < x.row < m.rows && 1 <= x.col <= m.seatsPerRow) ||
        (x.row == anchor.row && 1 <= x.col < anchor.col) ||
        (x.row < anchor.row && 1 <= x.col <= m.seatsPerRow)))
  {
    var booked, seatMap, s3 := Occupied(m.bookings), SeatMap(m.rows, m.seatsPerRow), AfterLeft(m, anchor);
    var prev := PrevRows(seatMap, anchor.row, anchor.row, m.seatsPerRow, booked, s3);
    AfterLeftFacts(m, anchor);
    forall i | 0 <= i < m.rows ensures Distinct(seatMap[i]) {
      RowSeatsElements(i, m.seatsPerRow);
    }
    PrevRowsDistinct(seatMap, anchor.row, anchor.row, m.seatsPerRow, booked, s3);
    forall x ensures x in prev <==> x !in booked && x !in s3 && 0 <= x.row < anchor.row && 1 <= x.col <= m.seatsPerRow {
      PrevRowsElements(m.rows, anchor.row, anchor.row, m.seatsPerRow, booked, s3, x);
    }
    AfterPrevUnfold(m, anchor);
    DistinctAppend(s3, prev);
  }

  /** The order of the four phases: rightwards from the anchor, then the rows
      behind it front to back, then leftwards from the anchor, then the rows in
      front of it nearest first; within every further row by centrality. */
  lemma CustomOrder(m: MovieRec, anchor: Seat)
    requires anchor.row < m.rows
    ensures var booked, seatMap := Occupied(m.bookings), SeatMap(m.rows, m.seatsPerRow);
      var right := AfterRight(m, anchor);
      var next := NextRows(seatMap, anchor.row + 1, m.rows, m.seatsPerRow, booked, right);
      var left := FillLeft(anchor.row, anchor.col, booked, AfterNext(m, anchor));
      var prev := PrevRows(seatMap, anchor.row, anchor.row, m.seatsPerRow, booked, AfterLeft(m, anchor));
      AfterPrev(m, anchor) == right + next + left + prev &&
      ColsAscending(right) && (forall x :: x in right ==> x.row == anchor.row) &&
      FrontToBack(next, m.seatsPerRow) && (forall x :: x in next ==> x.row > anchor.row) &&
      ColsDescending(left) && (forall x :: x in left ==> x.row == anchor.row) &&
      BackToFront(prev, m.seatsPerRow) && (forall x :: x in prev ==> x.row < anchor.row)
  {
    var booked, seatMap := Occupied(m.bookings), SeatMap(m.rows, m.seatsPerRow);
    var right := AfterRight(m, anchor);
    var next := NextRows(seatMap, anchor.row + 1, m.rows, m.seatsPerRow, booked, right);
    var left := FillLeft(anchor.row, anchor.col, booked, AfterNext(m, anchor));
    var prev := PrevRows(seatMap, anchor.row, anchor.row, m.seatsPerRow, booked, AfterLeft(m, anchor));
    AfterNextUnfold(m, anchor);
    AfterLeftUnfold(m, anchor);
    AfterPrevUnfold(m, anchor);
    UnassignedOrder(Run(anchor.row, anchor.col, m.seatsPerRow + 1), booked, []);
    FillRightElements(anchor.row, anchor.col, m.seatsPerRow, booked, []);
    NextRowsOrder(m.rows, anchor.row + 1, m.rows, m.seatsPerRow, booked, right);
    forall x | x in next ensures x.row > anchor.row {
      NextRowsElements(m.rows, anchor.row + 1, m.rows, m.seatsPerRow, booked, right, x);
    }
    FillLeftDescending(anchor.row, anchor.col, booked, AfterNext(m, anchor));
    FillLeftElements(anchor.row, anchor.col, booked, AfterNext(m, anchor));
    PrevRowsOrder(m.rows, anchor.row, anchor.row, m.seatsPerRow, booked, AfterLeft(m, anchor));
    forall x | x in prev ensures x.row < anchor.row {
      PrevRowsElements(m.rows, anchor.row, anchor.row, m.seatsPerRow, booked, AfterLeft(m, anchor), x);
    }
  }

  /** From an anchor on the grid, the four phases together list every free seat
      of the theatre exactly once. */
  lemma CustomWhole(m: MovieRec, anchor: Seat)
    requires InGrid(anchor, m.rows, m.seatsPerRow)
    ensures Distinct(AfterPrev(m, anchor))
    ensures forall s :: s in AfterPrev(m, anchor) <==> s in FreeSeats(m)
  {
    AfterPrevFacts(m, anchor);
  }

  /** From an anchor on the grid, custom seating assigns as many seats as asked
      for (all free seats when fewer are left), each a free seat and none twice. */
  lemma CustomSeatsCount(m: MovieRec, numTickets: nat, anchor: Seat)
    requires InGrid(anchor, m.rows, m.seatsPerRow)
    ensures var r := CustomSeats(m, numTickets, anchor);
      |r| == (if numTickets < |FreeSeats(m)| then numTickets else |FreeSeats(m)|) &&
      Distinct(r) &&
      forall s :: s in r ==> s in FreeSeats(m)
  {
    var whole := AfterPrev(m, anchor);
    CustomSeatsPrefix(m, numTickets, anchor);
    CustomWhole(m, anchor);
    assert Elements(whole) == FreeSeats(m);
    DistinctCardinality(whole);
    DistinctPrefix(whole, numTickets);
  }

  /** A free anchor is the first seat assigned. */
  lemma CustomAnchorFirst(m: MovieRec, numTickets: nat, anchor: Seat)
    requires InGrid(anchor, m.rows, m.seatsPerRow) && anchor !in Occupied(m.bookings)
    requires numTickets >= 1
    ensures |CustomSeats(m, numTickets, anchor)| >= 1 && CustomSeats(m, numTickets, anchor)[0] == anchor
  {
    var s1 := AfterRight(m, anchor);
    var run := Run(anchor.row, anchor.col, m.seatsPerRow + 1);
    assert run[0] == anchor;
    assert s1[0] == anchor;
    CustomSeatsPrefix(m, numTickets, anchor);
    PhasesGrow(m, anchor);
  }

  /** When the anchor's row has enough free seats from the anchor rightwards,
      those are the seats assigned, left to right. */
  lemma CustomRightSuffices(m: MovieRec, numTickets: nat, anchor: Seat)
    requires anchor.row < m.rows
    requires |AfterRight(m, anchor)| >= numTickets
    ensures CustomSeats(m, numTickets, anchor) == AfterRight(m, anchor)[..numTickets]
    ensures forall x :: x in AfterRight(m, anchor) ==>
      x.row == anchor.row && anchor.col <= x.col <= m.seatsPerRow
    ensures forall i, j :: 0 <= i < j < |AfterRight(m, anchor)| ==>
      AfterRight(m, anchor)[i].col < AfterRight(m, anchor)[j].col
  {
    AfterRightFacts(m, anchor);
    UnassignedOrder(Run(anchor.row, anchor.col, m.seatsPerRow + 1), Occupied(m.bookings), []);
  }

  /** `seat_input[0]` names the row and `int(seat_input[1:])` the starting seat
      number; `row_letters.index(row)` finds the row. None where the source
      raises: an empty input, a rest that is not a number, or a row letter not on
      the seat map. */
  function ParseAnchor(seatInput: string, rows: nat): (r: Option<Seat>)
    ensures r.Some? ==> r.value.row < rows && r.value.row < MaxRows
  {
    if |seatInput| >= 1 && 'A' <= seatInput[0] <= 'Z' && seatInput[0] as int - 'A' as int < rows
       && IsDecimal(seatInput[1..])
    then Some(Seat(seatInput[0] as int - 'A' as int, DecimalValue(seatInput[1..])))
    else None
  }

  /** Every seat label on the map is read back as its own seat. */
  lemma ParseAnchorOfLabel(s: Seat, rows: nat)
    requires s.row < rows && s.row < MaxRows
    ensures ParseAnchor(Label(s), rows) == Some(s)
  {
    var t := Label(s);
    assert t[1..] == DecimalString(s.col);
    DecimalRoundTrip(s.col);
  }

  /** `custom_seating(movie, num_tickets, seat_input)`; `None` where it raises. */
  method CustomSeating(m: Movie, numTickets: int, seatInput: string) returns (r: Option<seq<Seat>>)
    requires m.row <= MaxRows
    ensures ParseAnchor(seatInput, m.row).None? ==> r.None?
    ensures ParseAnchor(seatInput, m.row).Some? ==>
      r == Some(CustomSeats(m.ToRecord(), numTickets, ParseAnchor(seatInput, m.row).value))
  {
    var seatMap := BuildSeatMap(m.row, m.seatsPerRow);
    var booked := GetBookedSeats(m);
    var anchor := ParseAnchor(seatInput, m.row);
    if anchor.None? {
      return None;
    }
    var chosen := AssignFromAnchor(seatMap, booked, m.seatsPerRow, anchor.value, numTickets, m.ToRecord());
    return Some(chosen);
  }

  /** The body of `custom_seating` once the seat map, the booked seats and the
      anchor are known: the four phases, each followed by the early stop. */
  method AssignFromAnchor(seatMap: seq<seq<Seat>>, booked: set<Seat>, seatsPerRow: nat, anchor: Seat,
                          numTickets: int, ghost rec: MovieRec) returns (chosen: seq<Seat>)
    requires anchor.row < rec.rows && seatsPerRow == rec.seatsPerRow
    requires booked == Occupied(rec.bookings) && seatMap == SeatMap(rec.rows, rec.seatsPerRow)
    ensures chosen == CustomSeats(rec, numTickets, anchor)
  {
    var rowIdx, startNum := anchor.row, anchor.col;
    chosen := [];
    var right := FillRightInRow(rowIdx, startNum, seatsPerRow, booked, chosen);
    assert [] + right == right;
    chosen := chosen + right;
    assert chosen == AfterRight(rec, anchor);
    if |chosen| >= numTickets {
      StopAfterRight(rec, numTickets, anchor);
      return Slice(chosen, numTickets);
    }

    var nextRows := FillNextRowsByCentrality(rowIdx, seatMap, seatsPerRow, booked, chosen);
    AfterNextUnfold(rec, anchor);
    chosen := chosen + nextRows;
    assert chosen == AfterNext(rec, anchor);
    if |chosen| >= numTickets {
      StopAfterNext(rec, numTickets, anchor);
      return Slice(chosen, numTickets);
    }

    var left := FillLeftInRow(rowIdx, startNum, booked, chosen);
    AfterLeftUnfold(rec, anchor);
    chosen := chosen + left;
    assert chosen == AfterLeft(rec, anchor);
    if |chosen| >= numTickets {
      StopAfterLeft(rec, numTickets, anchor);
      return Slice(chosen, numTickets);
    }

    var prevRows := FillPrevRowsByCentrality(rowIdx, seatMap, seatsPerRow, booked, chosen);
    AfterPrevUnfold(rec, anchor);
    chosen := chosen + prevRows;
    assert chosen == AfterPrev(rec, anchor);
    StopAfterPrev(rec, numTickets, anchor);
    return Slice(chosen, numTickets);
  }
}
