/** Contiguous-block seat allocation (booking_advanced.py): a group is seated
    in one unbroken run of free seats of the frontmost row that has one, the
    most central such run winning; when no row has a long enough run, seats are
    handed out row by row by centrality. */
module AdvancedSeating {
  import opened Wrappers
  import opened Seqs
  import opened Seats
  import opened MovieClasses
  import opened Grid
  import opened Ranking
  import opened DefaultSeating

  /** A distance that may be `float('inf')`. */
  datatype Distance = Finite(value: real) | Infinite

  function RealAbs(x: real): real {
    if x < 0.0 then -x else x
  }

  /** `sum(int(s[1:]) for s in block)` */
  function SumCols(block: seq<Seat>): int {
    if block == [] then 0 else SumCols(block[..|block| - 1]) + block[|block| - 1].col
  }

  /** `d` multiplied by `n` is `x`. */
  predicate ScaledBy(d: real, n: int, x: int) {
    d * n as real == x as real
  }

  /** `abs(c - total / n)`: the distance of a mean from a centre, which scaled
      by the positive count is the integer `|c * n - total|`. */
  function MeanDistance(c: int, total: int, n: int): (r: real)
    requires n > 0
    ensures r >= 0.0 && ScaledBy(r, n, Abs(c * n - total))
  {
    var q := total as real / n as real;
    var nr := n as real;
    assert q * nr == total as real;
    assert (c * n) as real == c as real * nr;
    assert (c as real - q) * nr == (c * n - total) as real;
    if c as real - q < 0.0 then
      assert (q - c as real) * nr > 0.0;
      q - c as real
    else
      assert (c as real - q) * nr >= 0.0;
      c as real - q
  }

  /** `block_center(block, seats_per_row)`: how far the mean seat number of the
      block lies from the row centre; an empty block is infinitely far. Scaled
      by the block's size this is the integer `|centre * size - sum|`. */
  function BlockCenter(block: seq<Seat>, seatsPerRow: nat): (d: Distance)
    ensures d.Infinite? <==> block == []
    ensures d.Finite? ==> d.value >= 0.0
    ensures d.Finite? ==> ScaledBy(d.value, |block|, Abs(RowCenter(seatsPerRow) * |block| - SumCols(block)))
  {
    if block == [] then Infinite
    else Finite(MeanDistance(RowCenter(seatsPerRow), SumCols(block), |block|))
  }

  function Last<T>(s: seq<T>): T
    requires s != []
  {
    s[|s| - 1]
  }

  /** `find_contiguous_blocks(available)`: the list cut wherever a seat number
      is not one more than the previous one. */
  function Runs(s: seq<Seat>): (r: seq<seq<Seat>>)
    ensures s == [] <==> r == []
    ensures forall t :: 0 <= t < |r| ==> r[t] != []
  {
    if s == [] then []
    else
      var r := Runs(s[..|s| - 1]);
      var x := s[|s| - 1];
      if r != [] && x.col == Last(Last(r)).col + 1 then r[..|r| - 1] + [Last(r) + [x]]
      else r + [[x]]
  }

  lemma RunsSnoc(s: seq<Seat>, i: nat)
    requires i < |s|
    ensures Runs(s[..i + 1]) ==
      if Runs(s[..i]) != [] && s[i].col == Last(Last(Runs(s[..i]))).col + 1
      then Runs(s[..i])[..|Runs(s[..i])| - 1] + [Last(Runs(s[..i])) + [s[i]]]
      else Runs(s[..i]) + [[s[i]]]
  {
    assert s[..i + 1][..i] == s[..i];
  }

  /** The first `n` blocks joined back together, in order. */
  function Flatten<T>(ss: seq<seq<T>>, n: nat): seq<T>
    requires n <= |ss|
  {
    if n == 0 then [] else Flatten(ss, n - 1) + ss[n - 1]
  }

  /** Joining depends only on the blocks joined. */
  lemma {:induction false} FlattenAgree<T>(a: seq<seq<T>>, b: seq<seq<T>>, n: nat)
    requires n <= |a| && n <= |b| && forall i :: 0 <= i < n ==> a[i] == b[i]
    ensures Flatten(a, n) == Flatten(b, n)
  {
    if n > 0 {
      FlattenAgree(a, b, n - 1);
    }
  }

  /** Extending the last block extends the joined list. */
  lemma FlattenJoin<T>(r: seq<seq<T>>, init: seq<T>, x: T)
    requires r != [] && Flatten(r, |r|) == init
    ensures var q := r[..|r| - 1] + [Last(r) + [x]]; Flatten(q, |q|) == init + [x]
  {
    var q := r[..|r| - 1] + [Last(r) + [x]];
    var n := |r| - 1;
    FlattenAgree(q, r, n);
    assert Flatten(q, |q|) == Flatten(r, n) + (Last(r) + [x]);
    assert Flatten(r, n) + (Last(r) + [x]) == (Flatten(r, n) + Last(r)) + [x];
  }

  /** Starting a new block extends the joined list. */
  lemma FlattenNew<T>(r: seq<seq<T>>, init: seq<T>, x: T)
    requires Flatten(r, |r|) == init
    ensures var q := r + [[x]]; Flatten(q, |q|) == init + [x]
  {
    var q := r + [[x]];
    FlattenAgree(q, r, |r|);
  }

  /** Cutting into blocks loses and reorders nothing. */
  lemma {:induction false} RunsFlatten(s: seq<Seat>)
    ensures Flatten(Runs(s), |Runs(s)|) == s
  {
    if s != [] {
      var init, x := s[..|s| - 1], s[|s| - 1];
      RunsFlatten(init);
      var r := Runs(init);
      assert Flatten(r, |r|) == init;
      RunsUnfold(s);
      assert s == init + [x];
      if r != [] && x.col == Last(Last(r)).col + 1 {
        FlattenJoin(r, init, x);
      } else {
        FlattenNew(r, init, x);
      }
    }
  }

  /** Seat numbers that go up by exactly one from each seat to the next. */
  predicate Stepwise(b: seq<Seat>) {
    forall j :: 0 <= j < |b| - 1 ==> b[j + 1].col == b[j].col + 1
  }

  lemma RunsUnfold(s: seq<Seat>)
    requires s != []
    ensures var r, x := Runs(s[..|s| - 1]), s[|s| - 1];
      Runs(s) == if r != [] && x.col == Last(Last(r)).col + 1 then r[..|r| - 1] + [Last(r) + [x]] else r + [[x]]
  {
  }

  lemma StepwiseSnoc(b: seq<Seat>, x: Seat)
    requires b != [] && Stepwise(b) && x.col == Last(b).col + 1
    ensures Stepwise(b + [x])
  {
    var c := b + [x];
    forall j | 0 <= j < |c| - 1 ensures c[j + 1].col == c[j].col + 1 {
      if j < |b| - 1 {
        assert c[j] == b[j] && c[j + 1] == b[j + 1];
      }
    }
  }

  lemma StepwiseExtend(r: seq<seq<Seat>>, x: Seat)
    requires r != [] && Last(r) != [] && x.col == Last(Last(r)).col + 1
    requires forall t :: 0 <= t < |r| ==> Stepwise(r[t])
    ensures var q := r[..|r| - 1] + [Last(r) + [x]]; forall t :: 0 <= t < |q| ==> Stepwise(q[t])
  {
    var q := r[..|r| - 1] + [Last(r) + [x]];
    StepwiseSnoc(Last(r), x);
    forall t | 0 <= t < |q| ensures Stepwise(q[t]) {
      if t < |r| - 1 {
        assert q[t] == r[t];
      }
    }
  }

  lemma StepwiseNew(r: seq<seq<Seat>>, x: Seat)
    requires forall t :: 0 <= t < |r| ==> Stepwise(r[t])
    ensures var q := r + [[x]]; forall t :: 0 <= t < |q| ==> Stepwise(q[t])
  {
    var q := r + [[x]];
    forall t | 0 <= t < |q| ensures Stepwise(q[t]) {
      if t < |r| {
        assert q[t] == r[t];
      }
    }
  }

  /** Inside a block the seat numbers go up by exactly one. */
  lemma {:induction false} RunsInside(s: seq<Seat>)
    ensures forall t :: 0 <= t < |Runs(s)| ==> Stepwise(Runs(s)[t])
  {
    if s != [] {
      var init, x := s[..|s| - 1], s[|s| - 1];
      var r := Runs(init);
      RunsInside(init);
      RunsUnfold(s);
      if r != [] && x.col == Last(Last(r)).col + 1 {
        StepwiseExtend(r, x);
      } else {
        StepwiseNew(r, x);
      }
    }
  }

  /** Between two neighbouring blocks the seat numbers do not go up by one:
      every block is as long as it can be. */
  lemma {:induction false} RunsBetween(s: seq<Seat>)
    ensures forall t :: 0 <= t < |Runs(s)| - 1 ==> Last(Runs(s)[t]).col + 1 != Runs(s)[t + 1][0].col
  {
    if s != [] {
      var init, x := s[..|s| - 1], s[|s| - 1];
      var r := Runs(init);
      RunsBetween(init);
      if r != [] && x.col == Last(Last(r)).col + 1 {
        var q: seq<seq<Seat>> := r[..|r| - 1] + [Last(r) + [x]];
        assert Runs(s) == q;
        forall t: nat | t < |q| - 1
          ensures Last(q[t]).col + 1 != q[t + 1][0].col
        {
          assert q[t] == r[t];
          if t + 1 < |r| - 1 {
            assert q[t + 1] == r[t + 1];
          } else {
            assert q[t + 1][0] == Last(r)[0];
          }
        }
      } else {
        var q: seq<seq<Seat>> := r + [[x]];
        assert Runs(s) == q;
        forall t: nat | t < |q| - 1
          ensures Last(q[t]).col + 1 != q[t + 1][0].col
        {
          assert q[t] == r[t];
          if t + 1 < |r| {
            assert q[t + 1] == r[t + 1];
          }
        }
      }
    }
  }

  /** Every seat of every block is one of the input seats. */
  lemma {:induction false} RunsMembers(s: seq<Seat>)
    ensures forall t, j :: 0 <= t < |Runs(s)| && 0 <= j < |Runs(s)[t]| ==> Runs(s)[t][j] in s
  {
    if s != [] {
      var init, x := s[..|s| - 1], s[|s| - 1];
      var r := Runs(init);
      RunsMembers(init);
      if r != [] && x.col == Last(Last(r)).col + 1 {
        var q: seq<seq<Seat>> := r[..|r| - 1] + [Last(r) + [x]];
        assert Runs(s) == q;
        forall t: nat, j: nat | t < |q| && j < |q[t]|
          ensures q[t][j] in s
        {
          if t < |r| - 1 {
            assert q[t] == r[t] && r[t][j] in init;
          } else if j < |Last(r)| {
            assert q[t][j] == Last(r)[j] && Last(r)[j] in init;
          }
        }
      } else {
        var q: seq<seq<Seat>> := r + [[x]];
        assert Runs(s) == q;
        forall t: nat, j: nat | t < |q| && j < |q[t]|
          ensures q[t][j] in s
        {
          if t < |r| {
            assert q[t] == r[t] && r[t][j] in init;
          }
        }
      }
    }
  }

  /** `find_contiguous_blocks(available)`, which grows the current block seat by seat. */
  method FindContiguousBlocks(available: seq<Seat>) returns (blocks: seq<seq<Seat>>)
    ensures blocks == Runs(available)
  {
    blocks := [];
    var block: seq<Seat> := [];
    for i := 0 to |available|
      invariant i == 0 ==> blocks == [] && block == []
      invariant i > 0 ==> block != [] && blocks + [block] == Runs(available[..i])
    {
      var seat := available[i];
      RunsSnoc(available, i);
      ghost var r := Runs(available[..i]);
      assert i == 0 ==> r == [];
      if block == [] {
        assert Runs(available[..i + 1]) == [[seat]];
        block := [seat];
      } else if seat.col == block[|block| - 1].col + 1 {
        assert r == blocks + [block];
        assert r[..|r| - 1] == blocks && Last(r) == block;
        block := block + [seat];
        assert Runs(available[..i + 1]) == blocks + [block];
      } else {
        assert r == blocks + [block] && Last(r) == block;
        blocks := blocks + [block];
        block := [seat];
        assert Runs(available[..i + 1]) == blocks + [block];
      }
    }
    if block != [] {
      blocks := blocks + [block];
    }
    assert available[..|available|] == available;
  }

  /** A candidate window of `_find_best_block_in_row`: its score
      `(centrality, -rightmost, -start_seat)` and its seats. */
  datatype Candidate = Candidate(centrality: int, rightmost: int, start: int, seats: seq<Seat>)

  /** Strictly better score: lower centrality, then higher rightmost seat,
      then higher starting seat (Python's tuple order on the score). */
  predicate KeyBefore(a: Candidate, b: Candidate) {
    || a.centrality < b.centrality
    || (a.centrality == b.centrality && a.rightmost > b.rightmost)
    || (a.centrality == b.centrality && a.rightmost == b.rightmost && a.start > b.start)
  }

  /** `[int(s[1:]) for s in block]` */
  function Cols(block: seq<Seat>): (ns: seq<nat>)
    ensures |ns| == |block| && forall j :: 0 <= j < |block| ==> ns[j] == block[j].col
  {
    seq(|block|, j requires 0 <= j < |block| => block[j].col)
  }

  /** `sum(abs(n - center) for n in ns)` */
  function SumDist(ns: seq<nat>, center: int): (d: nat) {
    if ns == [] then 0 else SumDist(ns[..|ns| - 1], center) + Abs(Last(ns) - center)
  }

  /** `max(ns)` */
  function MaxOf(ns: seq<nat>): (m: nat)
    requires ns != []
    ensures m in ns && forall j :: 0 <= j < |ns| ==> ns[j] <= m
  {
    if |ns| == 1 then ns[0]
    else
      var m := MaxOf(ns[..|ns| - 1]);
      assert forall j :: 0 <= j < |ns| - 1 ==> ns[..|ns| - 1][j] == ns[j];
      if Last(ns) > m then Last(ns) else m
  }

  /** `[f"{row_letter}{n}" for n in ns]` */
  function Relabel(row: nat, ns: seq<nat>): (seats: seq<Seat>)
    ensures |seats| == |ns| && forall j :: 0 <= j < |ns| ==> seats[j] == Seat(row, ns[j])
  {
    seq(|ns|, j requires 0 <= j < |ns| => Seat(row, ns[j]))
  }

  /** The window of `k` seats of `block` starting at position `i`, relabelled
      with the row letter of the block's first seat. */
  function Window(block: seq<Seat>, center: int, k: nat, i: nat): (c: Candidate)
    requires k >= 1 && i + k <= |block|
    ensures |c.seats| == k
    ensures forall j :: 0 <= j < k ==> c.seats[j] == Seat(block[0].row, block[i + j].col)
  {
    var sub := Cols(block)[i..i + k];
    Candidate(SumDist(sub, center), MaxOf(sub), sub[0], Relabel(block[0].row, sub))
  }

  /** Every window of a block at least `k` long, by starting position; none
      for a shorter block. */
  function BlockCandidates(block: seq<Seat>, center: int, k: nat): (ws: seq<Candidate>)
    requires k >= 1
    ensures |block| >= k ==> |ws| == |block| - k + 1
    ensures |block| < k ==> ws == []
  {
    if |block| >= k then seq(|block| - k + 1, i requires 0 <= i < |block| - k + 1 => Window(block, center, k, i))
    else []
  }

  /** The candidate list, block by block in order. */
  function Candidates(blocks: seq<seq<Seat>>, center: int, k: nat): seq<Candidate>
    requires k >= 1
  {
    if blocks == [] then []
    else Candidates(blocks[..|blocks| - 1], center, k) + BlockCandidates(Last(blocks), center, k)
  }

  /** `candidates.sort(key=...)` followed by `candidates[0]`: the position of
      the first candidate with the best score. Nothing scores better than it,
      and every candidate before it scores strictly worse, which is what a
      stable sort puts first. */
  function BestIndex(cands: seq<Candidate>): (b: nat)
    requires cands != []
    ensures b < |cands|
    ensures forall j :: 0 <= j < |cands| ==> !KeyBefore(cands[j], cands[b])
    ensures forall j :: 0 <= j < b ==> KeyBefore(cands[b], cands[j])
  {
    if |cands| == 1 then 0
    else
      var init := cands[..|cands| - 1];
      var i := BestIndex(init);
      assert forall j :: 0 <= j < |init| ==> init[j] == cands[j];
      if KeyBefore(Last(cands), cands[i]) then |cands| - 1 else i
  }

  /** The winning candidate of the blocks of `available`, if any block is long enough. */
  function BestCandidate(available: seq<Seat>, seatsPerRow: nat, k: nat): (r: Option<Candidate>)
    requires k >= 1
  {
    var blocks := Runs(available);
    if blocks == [] then None
    else
      var cands := Candidates(blocks, RowCenter(seatsPerRow), k);
      if cands == [] then None else Some(cands[BestIndex(cands)])
  }

  /** `_find_best_block_in_row(available, seats_per_row, seats_needed)` */
  function BestBlockInRow(available: seq<Seat>, seatsPerRow: nat, k: nat): Option<seq<Seat>>
    requires k >= 1
  {
    var c := BestCandidate(available, seatsPerRow, k);
    if c.Some? then Some(c.value.seats) else None
  }

  lemma CandidatesSnoc(blocks: seq<seq<Seat>>, center: int, k: nat, b: nat)
    requires k >= 1 && b < |blocks|
    ensures Candidates(blocks[..b + 1], center, k) ==
      Candidates(blocks[..b], center, k) + BlockCandidates(blocks[b], center, k)
  {
    assert blocks[..b + 1][..b] == blocks[..b];
  }

  lemma {:induction false} CandidatesEmpty(blocks: seq<seq<Seat>>, center: int, k: nat)
    requires k >= 1
    ensures Candidates(blocks, center, k) == [] <==> forall t :: 0 <= t < |blocks| ==> |blocks[t]| < k
  {
    if blocks != [] {
      var init := blocks[..|blocks| - 1];
      CandidatesEmpty(init, center, k);
      assert forall t :: 0 <= t < |init| ==> init[t] == blocks[t];
    }
  }

  lemma CandidatesUnfold(blocks: seq<seq<Seat>>, center: int, k: nat)
    requires k >= 1 && blocks != []
    ensures Candidates(blocks, center, k) ==
      Candidates(blocks[..|blocks| - 1], center, k) + BlockCandidates(Last(blocks), center, k)
  {
  }

  lemma WindowInBlock(block: seq<Seat>, center: int, k: nat, i: nat)
    requires k >= 1 && i + k <= |block|
    ensures Window(block, center, k, i) in BlockCandidates(block, center, k)
  {
    assert BlockCandidates(block, center, k)[i] == Window(block, center, k, i);
  }

  lemma InConcat<T>(x: T, a: seq<T>, b: seq<T>)
    ensures x in a ==> x in a + b
    ensures x in b ==> x in a + b
  {
  }

  /** Candidates of the earlier blocks stay candidates. */
  lemma CandidatesGrow(blocks: seq<seq<Seat>>, center: int, k: nat, c: Candidate)
    requires k >= 1 && blocks != [] && c in Candidates(blocks[..|blocks| - 1], center, k)
    ensures c in Candidates(blocks, center, k)
  {
    CandidatesUnfold(blocks, center, k);
    InConcat(c, Candidates(blocks[..|blocks| - 1], center, k), BlockCandidates(Last(blocks), center, k));
  }

  /** The windows of the last block are candidates. */
  lemma CandidatesLast(blocks: seq<seq<Seat>>, center: int, k: nat, i: nat)
    requires k >= 1 && blocks != [] && i + k <= |Last(blocks)|
    ensures Window(Last(blocks), center, k, i) in Candidates(blocks, center, k)
  {
    CandidatesUnfold(blocks, center, k);
    WindowInBlock(Last(blocks), center, k, i);
    InConcat(Window(Last(blocks), center, k, i), Candidates(blocks[..|blocks| - 1], center, k),
      BlockCandidates(Last(blocks), center, k));
  }

  /** Every window of every long enough block is a candidate. */
  lemma {:induction false} CandidatesHave(blocks: seq<seq<Seat>>, center: int, k: nat, t: nat, i: nat)
    requires k >= 1 && t < |blocks| && i + k <= |blocks[t]|
    ensures Window(blocks[t], center, k, i) in Candidates(blocks, center, k)
  {
    if t < |blocks| - 1 {
      var init := blocks[..|blocks| - 1];
      assert init[t] == blocks[t];
      CandidatesHave(init, center, k, t, i);
      CandidatesGrow(blocks, center, k, Window(blocks[t], center, k, i));
    } else {
      CandidatesLast(blocks, center, k, i);
    }
  }

  /** Every candidate is a window of a long enough block. */
  lemma {:induction false} CandidatesFrom(blocks: seq<seq<Seat>>, center: int, k: nat, c: Candidate)
    requires k >= 1 && c in Candidates(blocks, center, k)
    ensures exists t: nat, i: nat :: t < |blocks| && i + k <= |blocks[t]| && c == Window(blocks[t], center, k, i)
  {
    var init := blocks[..|blocks| - 1];
    var last := Last(blocks);
    assert Candidates(blocks, center, k) == Candidates(init, center, k) + BlockCandidates(last, center, k);
    if c in Candidates(init, center, k) {
      CandidatesFrom(init, center, k, c);
      var t: nat, i: nat :| t < |init| && i + k <= |init[t]| && c == Window(init[t], center, k, i);
      assert init[t] == blocks[t];
    } else {
      var ws := BlockCandidates(last, center, k);
      assert c in ws;
      var i: nat :| i < |ws| && ws[i] == c;
      assert c == Window(blocks[|blocks| - 1], center, k, i);
    }
  }

  /** A row has no block to offer exactly when every run of its available
      seats is shorter than the group. */
  lemma BestBlockNone(available: seq<Seat>, seatsPerRow: nat, k: nat)
    requires k >= 1
    ensures BestBlockInRow(available, seatsPerRow, k).None? <==>
      forall t :: 0 <= t < |Runs(available)| ==> |Runs(available)[t]| < k
  {
    CandidatesEmpty(Runs(available), RowCenter(seatsPerRow), k);
  }

  /** Relabelling with the row letter of the block's first seat gives the
      block's own seats back when the whole block lies in one row. */
  lemma WindowSeats(block: seq<Seat>, center: int, k: nat, i: nat)
    requires k >= 1 && i + k <= |block|
    requires forall j :: 0 <= j < |block| ==> block[j].row == block[0].row
    ensures Window(block, center, k, i).seats == block[i..i + k]
  {
    var w := Window(block, center, k, i).seats;
    assert forall j :: 0 <= j < k ==> w[j] == block[i + j];
  }

  /** Any window of a run of a one-row list of available seats is `k` of
      those seats, side by side. */
  lemma RunWindowShape(available: seq<Seat>, center: int, k: nat, r: nat, t: nat, i: nat)
    requires k >= 1 && t < |Runs(available)| && i + k <= |Runs(available)[t]|
    requires forall j :: 0 <= j < |available| ==> available[j].row == r
    ensures var b := Window(Runs(available)[t], center, k, i).seats;
      |b| == k &&
      (forall j :: 0 <= j < k ==> b[j] in available && b[j].row == r) &&
      (forall j :: 0 < j < k ==> b[j].col == b[j - 1].col + 1)
  {
    var block := Runs(available)[t];
    RunsMembers(available);
    RunsInside(available);
    assert forall j :: 0 <= j < |block| ==> block[j] in available;
    WindowSeats(block, center, k, i);
  }

  /** The block offered is `k` available seats of the row, side by side. */
  lemma BestBlockShape(available: seq<Seat>, seatsPerRow: nat, k: nat, r: nat)
    requires k >= 1
    requires forall j :: 0 <= j < |available| ==> available[j].row == r
    ensures BestBlockInRow(available, seatsPerRow, k).Some? ==>
      var b := BestBlockInRow(available, seatsPerRow, k).value;
      |b| == k &&
      (forall j :: 0 <= j < k ==> b[j] in available && b[j].row == r) &&
      (forall j :: 0 < j < k ==> b[j].col == b[j - 1].col + 1)
  {
    var c := BestCandidate(available, seatsPerRow, k);
    if c.Some? {
      var blocks := Runs(available);
      var center := RowCenter(seatsPerRow);
      CandidatesFrom(blocks, center, k, c.value);
      var t: nat, i: nat :| t < |blocks| && i + k <= |blocks[t]| && c.value == Window(blocks[t], center, k, i);
      RunWindowShape(available, center, k, r, t, i);
    }
  }

  /** No window of any run scores better than the block offered: it is the
      most central one, and the rightmost among equally central ones. */
  lemma BestBlockOptimal(available: seq<Seat>, seatsPerRow: nat, k: nat, t: nat, i: nat)
    requires k >= 1 && t < |Runs(available)| && i + k <= |Runs(available)[t]|
    ensures BestCandidate(available, seatsPerRow, k).Some?
    ensures var w := Window(Runs(available)[t], RowCenter(seatsPerRow), k, i);
      var best := BestCandidate(available, seatsPerRow, k).value;
      !KeyBefore(w, best) && BestBlockInRow(available, seatsPerRow, k) == Some(best.seats)
  {
    var blocks := Runs(available);
    var center := RowCenter(seatsPerRow);
    CandidatesHave(blocks, center, k, t, i);
  }

  /** Seat numbers that go up by one at each step are `first, first + 1, ...`. */
  lemma {:induction false} ConsecutiveCols(block: seq<Seat>)
    requires Stepwise(block)
    ensures forall j :: 0 <= j < |block| ==> block[j].col == block[0].col + j
  {
    if |block| > 1 {
      var init := block[..|block| - 1];
      assert forall j :: 0 <= j < |init| ==> init[j] == block[j];
      ConsecutiveCols(init);
      assert block[|block| - 1].col == init[|init| - 1].col + 1;
    }
  }

  /** The seat numbers of a run are already ascending, so the
      `seat_nums.sort()` of `_find_best_block_in_row` leaves them as they are. */
  lemma RunAscending(s: seq<Seat>, t: nat)
    requires t < |Runs(s)|
    ensures forall j, j' :: 0 <= j < j' < |Runs(s)[t]| ==> Runs(s)[t][j].col < Runs(s)[t][j'].col
  {
    RunsInside(s);
    ConsecutiveCols(Runs(s)[t]);
  }

  /** Appending the next window keeps the list of windows so far. */
  lemma WindowsSnoc(ws: seq<Candidate>, block: seq<Seat>, center: int, k: nat, c: Candidate)
    requires k >= 1 && |ws| + k <= |block|
    requires forall j :: 0 <= j < |ws| ==> ws[j] == Window(block, center, k, j)
    requires c == Window(block, center, k, |ws|)
    ensures forall j :: 0 <= j < |ws| + 1 ==> (ws + [c])[j] == Window(block, center, k, j)
  {
  }

  /** The inner loop of `_find_best_block_in_row`: one candidate per window of
      a block at least `seatsNeeded` long. */
  method BlockWindows(block: seq<Seat>, center: int, seatsNeeded: nat) returns (ws: seq<Candidate>)
    requires 1 <= seatsNeeded <= |block|
    ensures ws == BlockCandidates(block, center, seatsNeeded)
  {
    // the seat numbers of a run are ascending already (RunAscending)
    var seatNums := Cols(block);
    ws := [];
    for i := 0 to |seatNums| - seatsNeeded + 1
      invariant |ws| == i && forall j :: 0 <= j < i ==> ws[j] == Window(block, center, seatsNeeded, j)
    {
      var c := ScoreWindow(block, seatNums, center, seatsNeeded, i);
      WindowsSnoc(ws, block, center, seatsNeeded, c);
      ws := ws + [c];
    }
    assert forall j :: 0 <= j < |ws| ==> ws[j] == BlockCandidates(block, center, seatsNeeded)[j];
  }

  /** One pass of the inner loop: the window's seat numbers, their total
      distance from the centre, the rightmost and first seat numbers, and the
      relabelled seats. */
  method ScoreWindow(block: seq<Seat>, seatNums: seq<nat>, center: int, seatsNeeded: nat, i: nat) returns (c: Candidate)
    requires seatsNeeded >= 1 && i + seatsNeeded <= |block| && seatNums == Cols(block)
    ensures c == Window(block, center, seatsNeeded, i)
  {
    var subblock := seatNums[i..i + seatsNeeded];
    var centrality := SumDist(subblock, center);
    var rightmost := MaxOf(subblock);
    var startSeat := subblock[0];
    var seats := Relabel(block[0].row, subblock);
    c := Candidate(centrality, rightmost, startSeat, seats);
  }

  /** `_find_best_block_in_row(available, seats_per_row, seats_needed)` */
  method FindBestBlockInRow(available: seq<Seat>, seatsPerRow: nat, seatsNeeded: nat)
    returns (r: Option<seq<Seat>>)
    requires seatsNeeded >= 1
    ensures r == BestBlockInRow(available, seatsPerRow, seatsNeeded)
  {
    var blocks := FindContiguousBlocks(available);
    if blocks == [] {
      return None;
    }
    var center := RowCenter(seatsPerRow);
    var candidates: seq<Candidate> := [];
    for b := 0 to |blocks|
      invariant candidates == Candidates(blocks[..b], center, seatsNeeded)
    {
      var block := blocks[b];
      CandidatesSnoc(blocks, center, seatsNeeded, b);
      if |block| >= seatsNeeded {
        var ws := BlockWindows(block, center, seatsNeeded);
        candidates := candidates + ws;
      }
    }
    assert blocks[..|blocks|] == blocks;
    if candidates == [] {
      return None;
    }
    r := Some(candidates[BestIndex(candidates)].seats);
  }

  /** The block offered always has exactly `k` seats. */
  lemma BestBlockLength(available: seq<Seat>, seatsPerRow: nat, k: nat)
    requires k >= 1
    ensures BestBlockInRow(available, seatsPerRow, k).Some? ==> |BestBlockInRow(available, seatsPerRow, k).value| == k
  {
    var c := BestCandidate(available, seatsPerRow, k);
    if c.Some? {
      CandidatesFrom(Runs(available), RowCenter(seatsPerRow), k, c.value);
    }
  }

  /** The first truthy answer (`Some` and not empty) from position `i` on, if any. */
  function FirstBlock<T>(answers: seq<Option<seq<T>>>, i: nat): Option<seq<T>>
    decreases |answers| - i
  {
    if i >= |answers| then None
    else if answers[i].Some? && answers[i].value != [] then answers[i]
    else FirstBlock(answers, i + 1)
  }

  /** An answer is falsy in Python: `None` or an empty list. */
  predicate Falsy<T>(a: Option<seq<T>>) {
    a.None? || a.value == []
  }

  /** The search finds nothing exactly when every answer from `i` on is falsy. */
  lemma {:induction false} FirstBlockNone<T>(answers: seq<Option<seq<T>>>, i: nat)
    ensures FirstBlock(answers, i).None? <==> forall j :: i <= j < |answers| ==> Falsy(answers[j])
    decreases |answers| - i
  {
    if i < |answers| {
      FirstBlockNone(answers, i + 1);
    }
  }

  /** What the search finds is the first truthy answer from `i` on. */
  lemma {:induction false} FirstBlockFirst<T>(answers: seq<Option<seq<T>>>, i: nat)
    ensures var r := FirstBlock(answers, i);
      r.Some? ==>
        exists j :: i <= j < |answers| && r == answers[j] && !Falsy(answers[j]) &&
          forall j' :: i <= j' < j ==> Falsy(answers[j'])
    decreases |answers| - i
  {
    if i < |answers| && Falsy(answers[i]) {
      FirstBlockFirst(answers, i + 1);
      var r := FirstBlock(answers, i);
      if r.Some? {
        var j :| i + 1 <= j < |answers| && r == answers[j] && !Falsy(answers[j]) &&
          forall j' :: i + 1 <= j' < j ==> Falsy(answers[j']);
        assert forall j' :: i <= j' < j ==> Falsy(answers[j']);
      }
    }
  }

  /** When answer `r` is truthy, the search stops at a truthy answer no later
      than `r`, with only falsy answers before it. */
  lemma FirstBlockAt<T>(answers: seq<Option<seq<T>>>, r: nat) returns (q: nat)
    requires r < |answers| && !Falsy(answers[r])
    ensures q <= r && FirstBlock(answers, 0) == answers[q] && !Falsy(answers[q])
    ensures forall j :: 0 <= j < q ==> Falsy(answers[j])
  {
    FirstBlockNone(answers, 0);
    FirstBlockFirst(answers, 0);
    q :| 0 <= q < |answers| && FirstBlock(answers, 0) == answers[q] && !Falsy(answers[q]) &&
      forall j' :: 0 <= j' < q ==> Falsy(answers[j']);
  }

  /** The block row `j` of the map offers, if any. */
  function RowBlock(seatMap: seq<seq<Seat>>, booked: set<Seat>, taken: seq<Seat>, seatsPerRow: nat, k: nat, j: nat)
    : Option<seq<Seat>>
    requires k >= 1 && j < |seatMap|
  {
    BestBlockInRow(Unassigned(seatMap[j], booked, taken), seatsPerRow, k)
  }

  /** The answer of `_find_best_block_in_row` for each of the first `rows` rows. */
  function RowBlocks(rows: nat, seatMap: seq<seq<Seat>>, booked: set<Seat>, taken: seq<Seat>, seatsPerRow: nat, k: nat)
    : (bs: seq<Option<seq<Seat>>>)
    requires k >= 1 && rows <= |seatMap|
    ensures |bs| == rows && forall j :: 0 <= j < rows ==> bs[j] == RowBlock(seatMap, booked, taken, seatsPerRow, k, j)
  {
    seq(rows, j requires 0 <= j < rows => RowBlock(seatMap, booked, taken, seatsPerRow, k, j))
  }

  /** `_find_first_row_with_block(rows, seat_map, booked, assigned, seats_per_row, seats_needed)`:
      the first row's block, front to back. */
  function FirstRowWithBlock(rows: nat, seatMap: seq<seq<Seat>>, booked: set<Seat>, taken: seq<Seat>,
                             seatsPerRow: nat, k: nat): Option<seq<Seat>>
    requires k >= 1 && rows <= |seatMap|
  {
    FirstBlock(RowBlocks(rows, seatMap, booked, taken, seatsPerRow, k), 0)
  }

  /** A row's answer is never an empty block. */
  lemma RowBlocksTruthy(rows: nat, seatMap: seq<seq<Seat>>, booked: set<Seat>, taken: seq<Seat>, seatsPerRow: nat, k: nat)
    requires k >= 1 && rows <= |seatMap|
    ensures var bs := RowBlocks(rows, seatMap, booked, taken, seatsPerRow, k);
      forall j :: 0 <= j < rows ==> (Falsy(bs[j]) <==> bs[j].None?)
  {
    var bs := RowBlocks(rows, seatMap, booked, taken, seatsPerRow, k);
    forall j | 0 <= j < rows ensures Falsy(bs[j]) <==> bs[j].None? {
      BestBlockLength(Unassigned(seatMap[j], booked, taken), seatsPerRow, k);
    }
  }

  /** `_find_first_row_with_block(rows, seat_map, booked, assigned, seats_per_row, seats_needed)` */
  method FindFirstRowWithBlock(rows: nat, seatMap: seq<seq<Seat>>, booked: set<Seat>, taken: seq<Seat>,
                               seatsPerRow: nat, seatsNeeded: nat) returns (r: Option<seq<Seat>>)
    requires seatsNeeded >= 1 && rows <= |seatMap|
    ensures r == FirstRowWithBlock(rows, seatMap, booked, taken, seatsPerRow, seatsNeeded)
  {
    ghost var answers := RowBlocks(rows, seatMap, booked, taken, seatsPerRow, seatsNeeded);
    for i := 0 to rows
      invariant FirstBlock(answers, 0) == FirstBlock(answers, i)
    {
      var available := Unassigned(seatMap[i], booked, taken);
      var bestBlock := FindBestBlockInRow(available, seatsPerRow, seatsNeeded);
      assert bestBlock == answers[i];
      if bestBlock.Some? && bestBlock.value != [] {
        return bestBlock;
      }
    }
    return None;
  }

  /** The free seats of rows `0 .. rows - 1` of the map, row by row in map order. */
  function AllAvailable(seatMap: seq<seq<Seat>>, booked: set<Seat>, taken: seq<Seat>, rows: nat): seq<Seat>
    requires rows <= |seatMap|
  {
    if rows == 0 then []
    else AllAvailable(seatMap, booked, taken, rows - 1) + Unassigned(seatMap[rows - 1], booked, taken)
  }

  /** `default_seating_advanced(movie, num_tickets)` as intended, on the
      state of the movie (the code as written is `DefaultAdvancedAsWritten`):
      the block of the first row that has `num_tickets` free seats side by side; failing that, for a
      single ticket the best free seat of the whole house, and for a group the
      row-by-row fill, which picks the same seats as default seating
      (`FillRowByRow` proves that). */
  function DefaultAdvanced(m: MovieRec, numTickets: nat): seq<Seat>
    requires numTickets >= 1
  {
    var seatMap := SeatMap(m.rows, m.seatsPerRow);
    var booked := Occupied(m.bookings);
    var best := FirstRowWithBlock(m.rows, seatMap, booked, [], m.seatsPerRow, numTickets);
    if best.Some? && best.value != [] then best.value
    else if numTickets == 1 then BestSingle(seatMap, booked, m.rows, m.seatsPerRow)
    else DefaultSeats(m, numTickets)
  }

  /** The single-ticket fallback of `default_seating_advanced`: the most
      central free seat of the house, or nothing when every seat is taken. */
  function BestSingle(seatMap: seq<seq<Seat>>, booked: set<Seat>, rows: nat, seatsPerRow: nat): seq<Seat>
    requires rows <= |seatMap|
  {
    var all := AllAvailable(seatMap, booked, [], rows);
    if all == [] then []
    else
      var sorted := SeatSortOrder(all, seatsPerRow, 1);
      if sorted != [] then [sorted[0]] else []
  }

  /** The single-ticket branch of `default_seating_advanced`: list every free
      seat, rank them and take the first. */
  method PickBestSingle(seatMap: seq<seq<Seat>>, booked: set<Seat>, rows: nat, seatsPerRow: nat)
    returns (chosen: seq<Seat>)
    requires rows <= |seatMap|
    ensures chosen == BestSingle(seatMap, booked, rows, seatsPerRow)
  {
    chosen := [];
    var allAvailable := CollectAvailable(seatMap, booked, chosen, rows);
    if allAvailable == [] {
      return;
    }
    var sortedSeats := SortSeats(allAvailable, seatsPerRow, 1);
    if sortedSeats != [] {
      chosen := chosen + [sortedSeats[0]];
    }
  }

  /** Filtering one more seat of a row appends it exactly when it is free. */
  lemma UnassignedSnoc(row: seq<Seat>, j: nat, booked: set<Seat>, taken: seq<Seat>)
    requires j < |row|
    ensures Unassigned(row[..j + 1], booked, taken) ==
      Unassigned(row[..j], booked, taken) + (if row[j] !in booked && row[j] !in taken then [row[j]] else [])
  {
    assert row[..j + 1] == row[..j] + [row[j]];
    UnassignedConcat(row[..j], [row[j]], booked, taken);
    UnassignedSingle(row[j], booked, taken);
  }

  /** The nested loop of `default_seating_advanced` that lists every free seat
      for a single ticket. */
  method CollectAvailable(seatMap: seq<seq<Seat>>, booked: set<Seat>, taken: seq<Seat>, rows: nat)
    returns (allAvailable: seq<Seat>)
    requires rows <= |seatMap|
    ensures allAvailable == AllAvailable(seatMap, booked, taken, rows)
  {
    allAvailable := [];
    for i := 0 to rows
      invariant allAvailable == AllAvailable(seatMap, booked, taken, i)
    {
      ghost var before := allAvailable;
      var row := seatMap[i];
      for j := 0 to |row|
        invariant allAvailable == before + Unassigned(row[..j], booked, taken)
      {
        var s := row[j];
        UnassignedSnoc(row, j, booked, taken);
        if s !in booked && s !in taken {
          allAvailable := allAvailable + [s];
        }
      }
      assert row[..|row|] == row;
    }
  }

  /** The state of the row-by-row loop before row `i`: `chosen` holds seats
      of earlier rows only, and together with the first `seatsNeeded` seats of
      the ordered free list from row `i` on it makes up the first `numTickets`
      seats of the whole list. */
  ghost predicate FillState(rows: nat, seatsPerRow: nat, booked: set<Seat>, numTickets: nat,
                            i: nat, chosen: seq<Seat>, seatsNeeded: int)
  {
    && i <= rows
    && 0 <= seatsNeeded
    && (forall j :: 0 <= j < |chosen| ==> chosen[j].row < i)
    && chosen + Prefix(FreeFrom(SeatMap(rows, seatsPerRow), booked, i), seatsNeeded) ==
       Prefix(FreeFrom(SeatMap(rows, seatsPerRow), booked, 0), numTickets)
  }

  /** One pass of the row-by-row loop keeps its state. */
  lemma FillRowNext(rows: nat, seatsPerRow: nat, booked: set<Seat>, numTickets: nat,
                    i: nat, chosen: seq<Seat>, seatsNeeded: int, available: seq<Seat>, got: seq<Seat>)
    requires i < rows && seatsNeeded > 0
    requires FillState(rows, seatsPerRow, booked, numTickets, i, chosen, seatsNeeded)
    requires available == Unassigned(SeatMap(rows, seatsPerRow)[i], booked, chosen)
    requires got == SeatSortOrder(available, seatsPerRow, if seatsNeeded < |available| then seatsNeeded else |available|)
    ensures FillState(rows, seatsPerRow, booked, numTickets, i + 1, chosen + got, seatsNeeded - |got|)
    ensures available == [] ==> got == []
  {
    FillRowAvailable(rows, seatsPerRow, booked, i, chosen);
    FillRowTake(rows, seatsPerRow, booked, seatsNeeded, i, chosen, available, got);
    FillRowStep(rows, seatsPerRow, booked, seatsNeeded, i, chosen, available, got);
  }

  /** The row-by-row loop of `default_seating_advanced` for a group: it takes
      the first `numTickets` seats of the ordered free list of the grid. */
  method FillRowByRow(rows: nat, seatMap: seq<seq<Seat>>, booked: set<Seat>, seatsPerRow: nat, numTickets: nat)
    returns (chosen: seq<Seat>)
    requires seatMap == SeatMap(rows, seatsPerRow)
    ensures chosen == Prefix(FreeFrom(seatMap, booked, 0), numTickets)
  {
    var seatsNeeded: int := numTickets;
    chosen := [];
    for i := 0 to rows
      invariant FillState(rows, seatsPerRow, booked, numTickets, i, chosen, seatsNeeded)
    {
      if seatsNeeded <= 0 {
        break;
      }
      var rowAvailable := Unassigned(seatMap[i], booked, chosen);
      // a row with no free seat is skipped: it adds nothing
      var assignedInRow: seq<Seat> := [];
      if rowAvailable != [] {
        var pick := if seatsNeeded < |rowAvailable| then seatsNeeded else |rowAvailable|;
        assignedInRow := SortSeats(rowAvailable, seatsPerRow, pick);
      }
      FillRowNext(rows, seatsPerRow, booked, numTickets, i, chosen, seatsNeeded, rowAvailable, assignedInRow);
      chosen := chosen + assignedInRow;
      seatsNeeded := seatsNeeded - |assignedInRow|;
    }
    FillStateDone(rows, seatsPerRow, booked, numTickets, chosen, seatsNeeded);
  }

  /** `default_seating_advanced(movie, num_tickets)` as intended, on the
      `Movie` object the menu passes (as written it raises on it; see
      `DefaultAdvancedAsWritten`). */
  method DefaultSeatingAdvanced(m: Movie, numTickets: nat) returns (chosen: seq<Seat>)
    requires numTickets >= 1 && m.row <= MaxRows
    ensures chosen == DefaultAdvanced(m.ToRecord(), numTickets)
  {
    var seatMap := BuildSeatMap(m.row, m.seatsPerRow);
    var booked := GetBookedSeats(m);
    chosen := AssignAdvanced(seatMap, booked, m.row, m.seatsPerRow, numTickets, m.ToRecord());
  }

  /** The body of `default_seating_advanced` once the seat map and the booked
      seats of `rec` are built. */
  method AssignAdvanced(seatMap: seq<seq<Seat>>, booked: set<Seat>, rows: nat, seatsPerRow: nat,
                        numTickets: nat, ghost rec: MovieRec) returns (chosen: seq<Seat>)
    requires numTickets >= 1 && rows == rec.rows && seatsPerRow == rec.seatsPerRow
    requires seatMap == SeatMap(rec.rows, rec.seatsPerRow) && booked == Occupied(rec.bookings)
    ensures chosen == DefaultAdvanced(rec, numTickets)
  {
    chosen := [];
    var bestBlock := FindFirstRowWithBlock(rows, seatMap, booked, chosen, seatsPerRow, numTickets);
    if bestBlock.Some? && bestBlock.value != [] {
      chosen := chosen + bestBlock.value;
      return;
    }
    if numTickets == 1 {
      chosen := PickBestSingle(seatMap, booked, rows, seatsPerRow);
      return;
    }
    chosen := FillRowByRow(rows, seatMap, booked, seatsPerRow, numTickets);
    FillMatchesDefault(rec, numTickets);
  }

  /** The free seats of row `r`, left to right. */
  function FreeRow(m: MovieRec, r: nat): seq<Seat> {
    Unassigned(RowSeats(r, m.seatsPerRow), Occupied(m.bookings), [])
  }

  lemma FreeRowSeats(m: MovieRec, r: nat)
    ensures forall s :: s in FreeRow(m, r) ==> s.row == r && 1 <= s.col <= m.seatsPerRow && s !in Occupied(m.bookings)
  {
    RowSeatsElements(r, m.seatsPerRow);
  }

  /** A block a row of the grid offers is `numTickets` free seats of that row, side by side. */
  lemma FreeRowBlockShape(m: MovieRec, numTickets: nat, q: nat)
    requires numTickets >= 1 && q < m.rows
    requires BestBlockInRow(FreeRow(m, q), m.seatsPerRow, numTickets).Some?
    ensures var b := BestBlockInRow(FreeRow(m, q), m.seatsPerRow, numTickets).value;
      |b| == numTickets &&
      (forall j :: 0 <= j < |b| ==> b[j] in FreeSeats(m) && b[j].row == q) &&
      (forall j :: 0 < j < |b| ==> b[j].col == b[j - 1].col + 1)
  {
    var free := FreeRow(m, q);
    FreeRowSeats(m, q);
    assert forall j :: 0 <= j < |free| ==> free[j].row == q by {
      assert forall j :: 0 <= j < |free| ==> free[j] in free;
    }
    BestBlockShape(free, m.seatsPerRow, numTickets, q);
  }

  /** The row whose block advanced seating takes: the first row offering one,
      and no later than any row known to offer one. */
  lemma AdvancedBlockRow(m: MovieRec, numTickets: nat, r: nat) returns (q: nat)
    requires numTickets >= 1 && r < m.rows
    requires BestBlockInRow(FreeRow(m, r), m.seatsPerRow, numTickets).Some?
    ensures q <= r && BestBlockInRow(FreeRow(m, q), m.seatsPerRow, numTickets).Some?
    ensures DefaultAdvanced(m, numTickets) == BestBlockInRow(FreeRow(m, q), m.seatsPerRow, numTickets).value
    ensures FirstRowWithBlock(m.rows, SeatMap(m.rows, m.seatsPerRow), Occupied(m.bookings), [], m.seatsPerRow, numTickets) ==
      BestBlockInRow(FreeRow(m, q), m.seatsPerRow, numTickets)
    ensures forall q' :: 0 <= q' < q ==> BestBlockInRow(FreeRow(m, q'), m.seatsPerRow, numTickets).None?
  {
    var sp := m.seatsPerRow;
    var answers := RowBlocks(m.rows, SeatMap(m.rows, sp), Occupied(m.bookings), [], sp, numTickets);
    GridRowBlocks(m, numTickets);
    RowBlocksTruthy(m.rows, SeatMap(m.rows, sp), Occupied(m.bookings), [], sp, numTickets);
    q := FirstBlockAt(answers, r);
  }

  /** Each row of the grid answers with the best block of its free seats. */
  lemma GridRowBlocks(m: MovieRec, numTickets: nat)
    requires numTickets >= 1
    ensures var answers := RowBlocks(m.rows, SeatMap(m.rows, m.seatsPerRow), Occupied(m.bookings), [], m.seatsPerRow, numTickets);
      forall q :: 0 <= q < m.rows ==> answers[q] == BestBlockInRow(FreeRow(m, q), m.seatsPerRow, numTickets)
  {
  }

  /** Whenever some row has `numTickets` free seats side by side, advanced
      seating returns one block: `numTickets` free seats side by side in one
      row, the block offered by the first row that offers one, and no later
      than that row. */
  lemma AdvancedBlock(m: MovieRec, numTickets: nat, r: nat, t: nat)
    requires numTickets >= 1 && r < m.rows
    requires t < |Runs(FreeRow(m, r))| && |Runs(FreeRow(m, r))[t]| >= numTickets
    ensures var b := DefaultAdvanced(m, numTickets);
      |b| == numTickets &&
      (forall j :: 0 <= j < |b| ==> b[j] in FreeSeats(m) && b[j].row == b[0].row) &&
      (forall j :: 0 < j < |b| ==> b[j].col == b[j - 1].col + 1) &&
      b[0].row <= r &&
      Some(b) == BestBlockInRow(FreeRow(m, b[0].row), m.seatsPerRow, numTickets) &&
      (forall q :: 0 <= q < b[0].row ==> BestBlockInRow(FreeRow(m, q), m.seatsPerRow, numTickets).None?)
  {
    BestBlockNone(FreeRow(m, r), m.seatsPerRow, numTickets);
    var q := AdvancedBlockRow(m, numTickets, r);
    FreeRowBlockShape(m, numTickets, q);
  }

  /** The ordered free seats of rows `i` onwards. */
  function FreeFrom(seatMap: seq<seq<Seat>>, booked: set<Seat>, i: nat): seq<Seat>
    requires i <= |seatMap|
    decreases |seatMap| - i
  {
    if i == |seatMap| then []
    else SeatSortOrder(Unassigned(seatMap[i], booked, []), |seatMap[i]|, 0) + FreeFrom(seatMap, booked, i + 1)
  }

  lemma FreeFromUnfold(seatMap: seq<seq<Seat>>, booked: set<Seat>, i: nat)
    requires i < |seatMap|
    ensures FreeFrom(seatMap, booked, i) ==
      SeatSortOrder(Unassigned(seatMap[i], booked, []), |seatMap[i]|, 0) + FreeFrom(seatMap, booked, i + 1)
  {
  }

  /** The ordered free list is the first `i` rows' part followed by the rest. */
  lemma {:induction false} OrderedFreeSplit(seatMap: seq<seq<Seat>>, booked: set<Seat>, i: nat)
    requires i <= |seatMap|
    ensures OrderedFree(seatMap[..i], booked) + FreeFrom(seatMap, booked, i) == OrderedFree(seatMap, booked)
    decreases |seatMap| - i
  {
    if i == |seatMap| {
      assert seatMap[..i] == seatMap;
    } else {
      var front := seatMap[..i + 1];
      var a := OrderedFree(seatMap[..i], booked);
      var block := SeatSortOrder(Unassigned(seatMap[i], booked, []), |seatMap[i]|, 0);
      var c := FreeFrom(seatMap, booked, i + 1);
      assert OrderedFree(front, booked) == a + block by {
        assert front[..|front| - 1] == seatMap[..i] && front[|front| - 1] == seatMap[i];
        OrderedFreeUnfold(front, booked);
      }
      assert FreeFrom(seatMap, booked, i) == block + c by {
        FreeFromUnfold(seatMap, booked, i);
      }
      assert OrderedFree(front, booked) + c == OrderedFree(seatMap, booked) by {
        OrderedFreeSplit(seatMap, booked, i + 1);
      }
      Regroup(OrderedFree(front, booked), a, block, c, FreeFrom(seatMap, booked, i), OrderedFree(seatMap, booked));
    }
  }

  lemma Regroup<T>(p: seq<T>, a: seq<T>, b: seq<T>, c: seq<T>, q: seq<T>, whole: seq<T>)
    requires p == a + b && q == b + c && p + c == whole
    ensures a + q == whole
  {
    assert a + (b + c) == (a + b) + c;
  }

  lemma PrefixConcat<T>(a: seq<T>, b: seq<T>, n: nat)
    ensures Prefix(a + b, n) == if n <= |a| then Prefix(a, n) else a + Prefix(b, n - |a|)
  {
    if n <= |a| {
      assert (a + b)[..n] == a[..n];
    } else if n < |a + b| {
      assert (a + b)[..n] == a + b[..n - |a|];
    }
  }

  /** Earlier rows' seats do not change what is free in row `r`. */
  lemma {:induction false} UnassignedOtherRows(seats: seq<Seat>, booked: set<Seat>, taken: seq<Seat>, r: nat)
    requires forall j :: 0 <= j < |seats| ==> seats[j].row == r
    requires forall j :: 0 <= j < |taken| ==> taken[j].row != r
    ensures Unassigned(seats, booked, taken) == Unassigned(seats, booked, [])
  {
    if seats != [] {
      UnassignedOtherRows(seats[1..], booked, taken, r);
      assert seats[0] !in taken;
    }
  }

  /** One row's step of the fill, on plain sequences: taking `pick` seats of
      the row's ordered block and then the rest from later rows is a prefix of
      the block followed by the later rows. */
  lemma FillStep<T>(acc: seq<T>, block: seq<T>, rest: seq<T>, got: seq<T>, need: nat, pick: nat)
    requires pick == (if need < |block| then need else |block|) && got == Prefix(block, pick)
    ensures (acc + got) + Prefix(rest, need - pick) == acc + Prefix(block + rest, need)
  {
    PrefixConcat(block, rest, need);
    if need <= |block| {
      assert Prefix(rest, 0) == [];
    } else {
      assert got == block;
    }
  }

  /** What one row gives the row-by-row loop: the best `need` of its free
      seats, all of them when it has fewer, none when it has none; all of
      them lie in that row. */
  lemma FillRowTake(rows: nat, seatsPerRow: nat, booked: set<Seat>, need: nat, i: nat, acc: seq<Seat>,
                    available: seq<Seat>, got: seq<Seat>)
    requires i < rows && need > 0
    requires forall j :: 0 <= j < |acc| ==> acc[j].row < i
    requires available == Unassigned(SeatMap(rows, seatsPerRow)[i], booked, acc)
    requires got == SeatSortOrder(available, seatsPerRow, if need < |available| then need else |available|)
    ensures |got| == (if need < |available| then need else |available|)
    ensures forall j :: 0 <= j < |acc + got| ==> (acc + got)[j].row < i + 1
  {
    RowSeatsElements(i, seatsPerRow);
    SortElements(available, seatsPerRow);
    assert forall j :: 0 <= j < |got| ==> got[j] in available;
  }

  /** Seats taken by earlier rows do not change what row `i` has free. */
  lemma FillRowAvailable(rows: nat, seatsPerRow: nat, booked: set<Seat>, i: nat, acc: seq<Seat>)
    requires i < rows
    requires forall j :: 0 <= j < |acc| ==> acc[j].row < i
    ensures Unassigned(SeatMap(rows, seatsPerRow)[i], booked, acc) == Unassigned(SeatMap(rows, seatsPerRow)[i], booked, [])
  {
    RowSeatsElements(i, seatsPerRow);
    UnassignedOtherRows(SeatMap(rows, seatsPerRow)[i], booked, acc, i);
  }

  /** One pass of the row-by-row loop: what row `i` gives, followed by what
      the later rows then give, is the first `need` seats of the ordered free
      list from row `i` on. */
  lemma FillRowStep(rows: nat, seatsPerRow: nat, booked: set<Seat>, need: nat, i: nat, acc: seq<Seat>,
                    available: seq<Seat>, got: seq<Seat>)
    requires i < rows && need > 0
    requires available == Unassigned(SeatMap(rows, seatsPerRow)[i], booked, [])
    requires got == SeatSortOrder(available, seatsPerRow, if need < |available| then need else |available|)
    ensures (acc + got) + Prefix(FreeFrom(SeatMap(rows, seatsPerRow), booked, i + 1), need - |got|) ==
      acc + Prefix(FreeFrom(SeatMap(rows, seatsPerRow), booked, i), need)
  {
    var seatMap := SeatMap(rows, seatsPerRow);
    var pick := if need < |available| then need else |available|;
    var block := SeatSortOrder(available, seatsPerRow, 0);
    var rest := FreeFrom(seatMap, booked, i + 1);
    assert FreeFrom(seatMap, booked, i) == block + rest by {
      FreeFromUnfold(seatMap, booked, i);
    }
    assert got == Prefix(block, pick) && |block| == |available| by {
      SortElements(available, seatsPerRow);
    }
    FillStep(acc, block, rest, got, need, pick);
  }

  /** The loop's state once every row is seen, or no seat is wanted any more,
      is its result. */
  lemma FillStateDone(rows: nat, seatsPerRow: nat, booked: set<Seat>, numTickets: nat, chosen: seq<Seat>, seatsNeeded: int)
    requires exists i :: FillState(rows, seatsPerRow, booked, numTickets, i, chosen, seatsNeeded) && (i == rows || seatsNeeded <= 0)
    ensures chosen == Prefix(FreeFrom(SeatMap(rows, seatsPerRow), booked, 0), numTickets)
  {
    var i :| FillState(rows, seatsPerRow, booked, numTickets, i, chosen, seatsNeeded) && (i == rows || seatsNeeded <= 0);
    if i == rows {
      assert FreeFrom(SeatMap(rows, seatsPerRow), booked, i) == [];
    }
  }

  /** The ordered free list from row 0 is the one default seating slices. */
  lemma FillMatchesDefault(m: MovieRec, numTickets: nat)
    ensures Prefix(FreeFrom(SeatMap(m.rows, m.seatsPerRow), Occupied(m.bookings), 0), numTickets) ==
      DefaultSeats(m, numTickets)
  {
    var seatMap := SeatMap(m.rows, m.seatsPerRow);
    var booked := Occupied(m.bookings);
    OrderedFreeSplit(seatMap, booked, 0);
    assert seatMap[..0] == [];
  }

  /** The single-ticket scan over the grid lists exactly the free seats of
      the first `k` rows that are not already taken. */
  lemma {:induction false} GridAvailable(rows: nat, seatsPerRow: nat, booked: set<Seat>, taken: seq<Seat>, k: nat, s: Seat)
    requires k <= rows
    ensures s in AllAvailable(SeatMap(rows, seatsPerRow), booked, taken, k) <==>
      s.row < k && 1 <= s.col <= seatsPerRow && s !in booked && s !in taken
  {
    if k > 0 {
      GridAvailable(rows, seatsPerRow, booked, taken, k - 1, s);
      var seatMap := SeatMap(rows, seatsPerRow);
      var before := AllAvailable(seatMap, booked, taken, k - 1);
      assert s in before <==> s.row < k - 1 && 1 <= s.col <= seatsPerRow && s !in booked && s !in taken;
      var row := Unassigned(seatMap[k - 1], booked, taken);
      assert AllAvailable(seatMap, booked, taken, k) == before + row;
      RowSeatsElements(k - 1, seatsPerRow);
      assert s in row <==> s.row == k - 1 && 1 <= s.col <= seatsPerRow && s !in booked && s !in taken;
    }
  }

  /** The single-ticket fallback takes nothing exactly when no seat is free;
      otherwise it takes one free seat, and no free seat ranks before it. */
  lemma BestSingleSpec(m: MovieRec)
    ensures var b := BestSingle(SeatMap(m.rows, m.seatsPerRow), Occupied(m.bookings), m.rows, m.seatsPerRow);
      (b == [] <==> FreeSeats(m) == {}) &&
      (b != [] ==>
        |b| == 1 && b[0] in FreeSeats(m) && forall y :: y in FreeSeats(m) ==> KeyLe(b[0], y, m.seatsPerRow))
  {
    var sp := m.seatsPerRow;
    var seatMap := SeatMap(m.rows, sp);
    var booked := Occupied(m.bookings);
    var all := AllAvailable(seatMap, booked, [], m.rows);
    forall y ensures y in all <==> y in FreeSeats(m) {
      GridAvailable(m.rows, sp, booked, [], m.rows, y);
    }
    if all == [] {
      assert forall y :: y !in FreeSeats(m);
    } else {
      assert all[0] in FreeSeats(m);
      var sorted := SeatSortOrder(all, sp, 1);
      SeatSortOrderSpec(all, sp, 1);
      SeatSortOrderBest(all, sp, 1);
      assert sorted[0] in sorted && sorted == [sorted[0]];
      forall y | y in FreeSeats(m) ensures KeyLe(sorted[0], y, sp) {
        KeyLeTotalOrder(y, y, y, sp);
      }
    }
  }

  /** When no row offers a block, the first-row search finds nothing. */
  lemma NoRowBlock(m: MovieRec, numTickets: nat)
    requires numTickets >= 1
    requires forall q :: 0 <= q < m.rows ==> BestBlockInRow(FreeRow(m, q), m.seatsPerRow, numTickets).None?
    ensures FirstRowWithBlock(m.rows, SeatMap(m.rows, m.seatsPerRow), Occupied(m.bookings), [], m.seatsPerRow, numTickets).None?
  {
    var sp := m.seatsPerRow;
    var answers := RowBlocks(m.rows, SeatMap(m.rows, sp), Occupied(m.bookings), [], sp, numTickets);
    GridRowBlocks(m, numTickets);
    FirstBlockNone(answers, 0);
  }

  /** A group for which no row has enough free seats side by side gets the
      row-by-row fill, which is exactly default seating. */
  lemma AdvancedFallback(m: MovieRec, numTickets: nat)
    requires numTickets >= 2
    requires forall q, t :: 0 <= q < m.rows && 0 <= t < |Runs(FreeRow(m, q))| ==> |Runs(FreeRow(m, q))[t]| < numTickets
    ensures DefaultAdvanced(m, numTickets) == DefaultSeats(m, numTickets)
  {
    forall q | 0 <= q < m.rows ensures BestBlockInRow(FreeRow(m, q), m.seatsPerRow, numTickets).None? {
      BestBlockNone(FreeRow(m, q), m.seatsPerRow, numTickets);
    }
    NoRowBlock(m, numTickets);
  }

  /** With a free seat somewhere, a single ticket gets the block of one the
      first-row search finds: one free seat. */
  lemma AdvancedSingleFree(m: MovieRec, s: Seat)
    requires s in FreeSeats(m)
    ensures var b := DefaultAdvanced(m, 1);
      |b| == 1 && b[0] in FreeSeats(m) &&
      Some(b) == FirstRowWithBlock(m.rows, SeatMap(m.rows, m.seatsPerRow), Occupied(m.bookings), [], m.seatsPerRow, 1)
  {
    var r := s.row;
    RowSeatsElements(r, m.seatsPerRow);
    assert s in FreeRow(m, r);
    assert |Runs(FreeRow(m, r))[0]| >= 1;
    AdvancedBlock(m, 1, r, 0);
    BestBlockNone(FreeRow(m, r), m.seatsPerRow, 1);
    var q := AdvancedBlockRow(m, 1, r);
  }

  /** A sequence with no member is empty. */
  lemma NoMembers<T>(s: seq<T>)
    requires forall y :: y !in s
    ensures s == []
  {
    forall y ensures multiset(s)[y] == 0 {
      assert y !in s;
    }
    assert multiset(s) == multiset{};
  }

  /** On a full house a single ticket gets nothing. */
  lemma AdvancedSingleFull(m: MovieRec)
    requires FreeSeats(m) == {}
    ensures DefaultAdvanced(m, 1) == []
  {
    forall q | 0 <= q < m.rows ensures BestBlockInRow(FreeRow(m, q), m.seatsPerRow, 1).None? {
      FreeRowSeats(m, q);
      NoMembers(FreeRow(m, q));
    }
    NoRowBlock(m, 1);
    BestSingleSpec(m);
  }

  /** A single ticket gets a seat exactly when one is free, and then one free
      seat, the one the first-row search finds. Every free seat is a block of
      one, so the house-wide single-seat scan only ever runs on a full house. */
  lemma AdvancedSingle(m: MovieRec)
    ensures var b := DefaultAdvanced(m, 1);
      (b == [] <==> FreeSeats(m) == {}) &&
      (b != [] ==> |b| == 1 && b[0] in FreeSeats(m)) &&
      (FreeSeats(m) != {} ==> Some(b) == FirstRowWithBlock(m.rows, SeatMap(m.rows, m.seatsPerRow), Occupied(m.bookings), [], m.seatsPerRow, 1))
  {
    if s :| s in FreeSeats(m) {
      AdvancedSingleFree(m, s);
    } else {
      AdvancedSingleFull(m);
    }
  }

  /** Advanced seating fills the whole request whenever enough seats are
      free: a row's block, the single best seat, or the row-by-row fill. */
  lemma AdvancedServes(m: MovieRec, numTickets: nat)
    requires 1 <= numTickets <= |FreeSeats(m)|
    ensures |DefaultAdvanced(m, numTickets)| == numTickets
  {
    if r :| 0 <= r < m.rows && BestBlockInRow(FreeRow(m, r), m.seatsPerRow, numTickets).Some? {
      var q := AdvancedBlockRow(m, numTickets, r);
      FreeRowBlockShape(m, numTickets, q);
    } else {
      NoRowBlock(m, numTickets);
      if numTickets == 1 {
        AdvancedSingle(m);
      } else {
        DefaultSeatsBest(m, numTickets);
      }
    }
  }

  /** `default_seating_advanced(movie_json, num_tickets)` as written, on either
      form of movie; `None` where it raises. It first reads the dimensions by
      subscript, `movie_json["row"]`, which a `Movie` object does not support
      (`TypeError`). A dictionary gets past that line but is then handed to
      `build_seat_map`, which reads `movie.row` as an attribute
      (`AttributeError`). So no call returns. */
  function DefaultAdvancedAsWritten(movie: MovieArg, numTickets: int): Option<seq<Seat>> {
    match movie
    case MovieObject(_) => None
    case MovieDict(_) => None
  }

  /** The code as written seats nobody, whichever form of movie it gets, while
      the intended allocation on the `Movie` the menu passes seats every
      ticket that the free seats allow. */
  lemma AdvancedRaisesAsWritten(movie: MovieArg, numTickets: nat)
    ensures DefaultAdvancedAsWritten(movie, numTickets).None?
    ensures movie.MovieObject? && 1 <= numTickets <= |FreeSeats(movie.movie)| ==>
      |DefaultAdvanced(movie.movie, numTickets)| == numTickets
  {
    if movie.MovieObject? && 1 <= numTickets <= |FreeSeats(movie.movie)| {
      AdvancedServes(movie.movie, numTickets);
    }
  }
}
