/**
 A model of `FullBoard` from the 99 game solver: a board is a row-major
 sequence of cells of width `ROW`, where 0 marks a dead cell. The module
 holds the match rule, the start board, the two successor constructions
 (duplicate, and remove a matching pair with dead-row compaction), the
 nearest-live-cell searches, the goal test and the heuristic.
 */
module Boards {
  import opened Wrappers

  /** The puzzle radix: two live cells match when equal or summing to it. */
  const BASE: nat := 10
  /** Row width of the layout. */
  const ROW: nat := BASE - 1
  /** Largest board whose positions fit the source's `u8` cell index. */
  const MAX_CELLS: nat := 255

  type Board = seq<nat>

  datatype BoardMove =
    | Duplicate
    | CrossDown(start: nat, partner: nat)
    | CrossRight(start: nat, partner: nat)

  /** Every cell holds a value in [0, BASE). */
  predicate WellFormed(b: Board) {
    forall i :: 0 <= i < |b| ==> b[i] < BASE
  }

  function IsMatch(lhs: nat, rhs: nat): bool {
    lhs == rhs || lhs + rhs == BASE
  }

  lemma IsMatchSymmetric(lhs: nat, rhs: nat)
    ensures IsMatch(lhs, rhs) <==> IsMatch(rhs, lhs)
  {
  }

  // ---------------------------------------------------------------------
  // Live cells

  /** The live cells of `b`, in board order. */
  function LiveSeq(b: Board): (r: seq<nat>)
    ensures |r| <= |b|
    ensures forall k :: 0 <= k < |r| ==> r[k] != 0
    decreases |b|
  {
    if |b| == 0 then []
    else (if b[0] == 0 then [] else [b[0]]) + LiveSeq(b[1..])
  }

  /** Number of live cells. */
  function Live(b: Board): nat {
    |LiveSeq(b)|
  }

  /** The live count of a non-empty board, split at its first cell. */
  lemma LiveCons(s: Board)
    requires |s| > 0
    ensures Live(s) == (if s[0] == 0 then 0 else 1) + Live(s[1..])
  {
  }

  lemma {:induction false} LiveSeqAppend(x: Board, y: Board)
    ensures LiveSeq(x + y) == LiveSeq(x) + LiveSeq(y)
    decreases |x|
  {
    if |x| > 0 {
      assert (x + y)[1..] == x[1..] + y;
      LiveSeqAppend(x[1..], y);
    } else {
      assert x + y == y;
    }
  }

  lemma {:induction false} LiveSeqAllDead(s: Board)
    requires forall i :: 0 <= i < |s| ==> s[i] == 0
    ensures LiveSeq(s) == []
    decreases |s|
  {
    if |s| > 0 {
      LiveSeqAllDead(s[1..]);
    }
  }

  lemma {:induction false} LiveSeqAllLive(s: Board)
    requires forall i :: 0 <= i < |s| ==> s[i] != 0
    ensures LiveSeq(s) == s
    decreases |s|
  {
    if |s| > 0 {
      LiveSeqAllLive(s[1..]);
    }
  }

  /** A board without live cells is exactly one whose every cell is dead. */
  lemma {:induction false} NoLiveIffAllDead(b: Board)
    ensures Live(b) == 0 <==> forall i :: 0 <= i < |b| ==> b[i] == 0
    decreases |b|
  {
    if |b| > 0 {
      NoLiveIffAllDead(b[1..]);
      if b[0] == 0 {
        forall i | 0 < i < |b| ensures b[i] == b[1..][i - 1] { }
      }
    }
  }

  /** Killing cell `i` removes exactly that cell from the live sequence. */
  lemma KillCell(b: Board, i: nat)
    requires i < |b|
    ensures LiveSeq(b[i := 0]) == LiveSeq(b[..i]) + LiveSeq(b[i + 1..])
    ensures LiveSeq(b) == LiveSeq(b[..i]) + (if b[i] == 0 then [] else [b[i]]) + LiveSeq(b[i + 1..])
    ensures Live(b[i := 0]) + (if b[i] == 0 then 0 else 1) == Live(b)
  {
    assert b == b[..i] + [b[i]] + b[i + 1..];
    assert b[i := 0] == b[..i] + [0] + b[i + 1..];
    LiveSeqAppend(b[..i] + [b[i]], b[i + 1..]);
    LiveSeqAppend(b[..i], [b[i]]);
    LiveSeqAppend(b[..i] + [0], b[i + 1..]);
    LiveSeqAppend(b[..i], [0]);
    assert LiveSeq([0]) == [] by { assert [0][1..] == []; }
    assert LiveSeq([b[i]]) == (if b[i] == 0 then [] else [b[i]]) by { assert [b[i]][1..] == []; }
  }

  // ---------------------------------------------------------------------
  // Construction

  /** `FullBoard::new`: the row 1..9, then the pairs (1, i) for i = 1..9. */
  method New() returns (r: Board)
    ensures |r| == 3 * ROW
    ensures forall i :: 0 <= i < ROW ==> r[i] == i + 1
    ensures forall j :: 0 <= j < ROW ==> r[ROW + 2 * j] == 1 && r[ROW + 2 * j + 1] == j + 1
    ensures Live(r) == |r|
    ensures WellFormed(r)
  {
    r := [];
    for i := 1 to BASE
      invariant |r| == i - 1
      invariant forall k :: 0 <= k < |r| ==> r[k] == k + 1
    {
      r := r + [i];
    }
    for i := 1 to BASE
      invariant |r| == ROW + 2 * (i - 1)
      invariant forall k :: 0 <= k < ROW ==> r[k] == k + 1
      invariant forall j :: 0 <= j < i - 1 ==> r[ROW + 2 * j] == 1 && r[ROW + 2 * j + 1] == j + 1
    {
      r := r + [1, i];
    }
    assert forall k :: 0 <= k < |r| ==> 0 < r[k] < BASE by {
      forall k | 0 <= k < |r| ensures 0 < r[k] < BASE {
        if k >= ROW {
          var j := (k - ROW) / 2;
          assert k == ROW + 2 * j || k == ROW + 2 * j + 1;
        }
      }
    }
    LiveSeqAllLive(r);
  }

  /** `FullBoard::new_duplicated`: the parent followed by its live cells. */
  function NewDuplicated(b: Board): (r: Board)
    ensures |r| == |b| + Live(b)
    ensures r[..|b|] == b
    ensures LiveSeq(r[|b|..]) == LiveSeq(b)
    ensures forall i :: |b| <= i < |r| ==> r[i] != 0
    ensures Live(r) == 2 * Live(b)
    ensures WellFormed(b) ==> WellFormed(r)
  {
    DuplicateLive(b);
    LiveSeqWellFormed(b);
    b + LiveSeq(b)
  }

  lemma DuplicateLive(b: Board)
    ensures LiveSeq(LiveSeq(b)) == LiveSeq(b)
    ensures LiveSeq(b + LiveSeq(b)) == LiveSeq(b) + LiveSeq(b)
    ensures (b + LiveSeq(b))[..|b|] == b && (b + LiveSeq(b))[|b|..] == LiveSeq(b)
  {
    LiveSeqAllLive(LiveSeq(b));
    LiveSeqAppend(b, LiveSeq(b));
  }

  /** Every live cell of a well-formed board is below `BASE`. */
  lemma {:induction false} LiveSeqWellFormed(b: Board)
    ensures WellFormed(b) ==> WellFormed(LiveSeq(b))
    decreases |b|
  {
    if |b| > 0 {
      LiveSeqWellFormed(b[1..]);
    }
  }

  // ---------------------------------------------------------------------
  // Nearest live cell searches

  /** `find_first`: the nearest live cell at or after `start`. */
  function FindFirst(b: Board, start: nat): (r: Option<nat>)
    requires start <= |b|
    ensures r.Some? ==> start <= r.value < |b| && b[r.value] != 0
    decreases |b| - start
  {
    if start == |b| then None
    else if b[start] != 0 then Some(start)
    else FindFirst(b, start + 1)
  }

  /** Nothing live lies between `start` and what `FindFirst` returns. */
  lemma {:induction false} FindFirstNearest(b: Board, start: nat)
    requires start <= |b|
    ensures FindFirst(b, start).Some? ==> forall j :: start <= j < FindFirst(b, start).value ==> b[j] == 0
    ensures FindFirst(b, start).None? ==> forall j :: start <= j < |b| ==> b[j] == 0
    decreases |b| - start
  {
    if start < |b| && b[start] == 0 {
      FindFirstNearest(b, start + 1);
    }
  }

  /** `find_prev`: the nearest live cell strictly before `start`. */
  function FindPrev(b: Board, start: nat): (r: Option<nat>)
    requires start <= |b|
    ensures r.Some? ==> r.value < start && b[r.value] != 0
    decreases start
  {
    if start == 0 then None
    else if b[start - 1] != 0 then Some(start - 1)
    else FindPrev(b, start - 1)
  }

  /** Nothing live lies between what `FindPrev` returns and `start`. */
  lemma {:induction false} FindPrevNearest(b: Board, start: nat)
    requires start <= |b|
    ensures FindPrev(b, start).Some? ==> forall j :: FindPrev(b, start).value < j < start ==> b[j] == 0
    ensures FindPrev(b, start).None? ==> forall j :: 0 <= j < start ==> b[j] == 0
    decreases start
  {
    if start > 0 && b[start - 1] == 0 {
      FindPrevNearest(b, start - 1);
    }
  }

  /** The nearest live cell at `pos`, `pos + ROW`, `pos + 2 * ROW`, ... */
  function FindInColumn(b: Board, pos: nat): (r: Option<nat>)
    ensures r.Some? ==> pos <= r.value < |b| && (r.value - pos) % ROW == 0 && b[r.value] != 0
    decreases |b| - pos
  {
    if pos >= |b| then None
    else if b[pos] != 0 then Some(pos)
    else FindInColumn(b, pos + ROW)
  }

  /** Nothing live lies in the column between `pos` and what `FindInColumn` returns. */
  lemma {:induction false} FindInColumnNearest(b: Board, pos: nat)
    ensures forall j ::
      (pos <= j < |b| && (j - pos) % ROW == 0 &&
       (FindInColumn(b, pos).None? || j < FindInColumn(b, pos).value)) ==> b[j] == 0
    decreases |b| - pos
  {
    if pos < |b| && b[pos] == 0 {
      FindInColumnNearest(b, pos + ROW);
      var r := FindInColumn(b, pos);
      forall j | pos < j < |b| && (j - pos) % ROW == 0 && (r.None? || j < r.value)
        ensures b[j] == 0
      {
        NextInColumn(pos, j);
      }
    }
  }

  lemma NextInColumn(pos: nat, j: nat)
    requires pos < j && (j - pos) % ROW == 0
    ensures pos + ROW <= j && (j - (pos + ROW)) % ROW == 0
  {
  }

  /** `find_down`: the nearest live cell strictly below `start` in its column. */
  function FindDown(b: Board, start: nat): (r: Option<nat>)
    requires start <= |b|
    ensures r.Some? ==> start < r.value < |b| && (r.value - start) % ROW == 0 && b[r.value] != 0
  {
    FindInColumn(b, start + ROW)
  }

  /** Nothing live lies in the column between `start` and what `FindDown` returns. */
  lemma FindDownNearest(b: Board, start: nat)
    requires start <= |b|
    ensures forall j ::
      (start < j < |b| && (j - start) % ROW == 0 &&
       (FindDown(b, start).None? || j < FindDown(b, start).value)) ==> b[j] == 0
  {
    FindInColumnNearest(b, start + ROW);
    var r := FindDown(b, start);
    forall j | start < j < |b| && (j - start) % ROW == 0 && (r.None? || j < r.value)
      ensures b[j] == 0
    {
      NextInColumn(start, j);
    }
  }

  // ---------------------------------------------------------------------
  // Pair removal and compaction

  /** Cells lo..hi form a maximal run of dead cells. */
  predicate DeadRun(b: Board, lo: nat, hi: nat) {
    && lo <= hi < |b|
    && (forall j :: lo <= j <= hi ==> b[j] == 0)
    && (lo == 0 || b[lo - 1] != 0)
    && (hi + 1 == |b| || b[hi + 1] != 0)
  }

  /** The largest multiple of the row width not above `n`. */
  function WholeRows(n: nat): (r: nat)
    ensures r <= n && r % ROW == 0 && n - r < ROW
  {
    n / ROW * ROW
  }

  /** First cell of the dead run through the dead cell `p` (`first_dead`). */
  function RunStart(b: Board, p: nat): (lo: nat)
    requires p < |b| && b[p] == 0
    ensures lo <= p && (lo == 0 || b[lo - 1] != 0)
    ensures forall j :: lo <= j <= p ==> b[j] == 0
  {
    FindPrevNearest(b, p);
    match FindPrev(b, p)
    case None => 0
    case Some(i) => i + 1
  }

  /** Last cell of the dead run through the dead cell `p` (`last_dead`). */
  function RunEnd(b: Board, p: nat): (hi: nat)
    requires p < |b| && b[p] == 0
    ensures p <= hi < |b| && (hi + 1 == |b| || b[hi + 1] != 0)
    ensures forall j :: p <= j <= hi ==> b[j] == 0
  {
    FindFirstNearest(b, p);
    match FindFirst(b, p)
    case None => |b| - 1
    case Some(i) => i - 1
  }

  /** The maximal dead run through a dead cell is unique. */
  lemma DeadRunUnique(b: Board, p: nat, lo: nat, hi: nat, lo': nat, hi': nat)
    requires DeadRun(b, lo, hi) && lo <= p <= hi
    requires DeadRun(b, lo', hi') && lo' <= p <= hi'
    ensures lo == lo' && hi == hi'
  {
  }

  /** The board with the `k` cells starting at `lo` cut out. */
  function Cut(b: Board, lo: nat, k: nat): (r: Board)
    requires lo + k <= |b|
    ensures |r| == |b| - k
  {
    b[..lo] + b[lo + k..]
  }

  /** The cells before `lo` stay in place; those after the cut move down by `k`. */
  lemma CutCells(b: Board, lo: nat, k: nat)
    requires lo + k <= |b|
    ensures forall i :: 0 <= i < lo ==> Cut(b, lo, k)[i] == b[i]
    ensures forall i :: lo <= i < |b| - k ==> Cut(b, lo, k)[i] == b[i + k]
  {
  }

  lemma CutNothing(b: Board, lo: nat)
    requires lo <= |b|
    ensures Cut(b, lo, 0) == b
  {
  }

  lemma CutWellFormed(b: Board, lo: nat, k: nat)
    requires lo + k <= |b| && WellFormed(b)
    ensures WellFormed(Cut(b, lo, k))
  {
  }

  /**
   `clean_dead_around`: when `p` is a dead cell, drop as many whole rows of
   dead cells as fit in its maximal dead run, starting at the run's first
   cell; otherwise leave the board alone.
   */
  function CleanDeadAround(b: Board, p: nat): (r: Board)
    ensures p >= |b| || b[p] != 0 ==> r == b
    ensures |r| <= |b| && (|b| - |r|) % ROW == 0
  {
    if p >= |b| || b[p] != 0 then b
    else
      var firstDead := RunStart(b, p);
      var lastDead := RunEnd(b, p);
      var elim := WholeRows(lastDead - firstDead + 1);
      if elim == 0 then b
      else Cut(b, firstDead, elim)
  }

  /**
   Whatever maximal dead run holds `p`, compaction cuts the whole rows of it
   out of its start and keeps the remaining `len % ROW` dead cells.
   */
  lemma CleanCutsMaximalRun(b: Board, p: nat, lo: nat, hi: nat)
    requires DeadRun(b, lo, hi) && lo <= p <= hi
    ensures CleanDeadAround(b, p) == Cut(b, lo, WholeRows(hi - lo + 1))
  {
    var lo', hi' := RunStart(b, p), RunEnd(b, p);
    DeadRunUnique(b, p, lo, hi, lo', hi');
    var elim := WholeRows(hi - lo + 1);
    if elim == 0 {
      CutNothing(b, lo);
      assert CleanDeadAround(b, p) == b;
    } else {
      assert CleanDeadAround(b, p) == Cut(b, lo', elim);
    }
  }

  /** Compaction removes only dead cells. */
  lemma CleanKeepsLive(b: Board, p: nat)
    ensures LiveSeq(CleanDeadAround(b, p)) == LiveSeq(b)
  {
    if p < |b| && b[p] == 0 {
      var lo, hi := RunStart(b, p), RunEnd(b, p);
      CleanCutsMaximalRun(b, p, lo, hi);
      RemoveDeadSpan(b, lo, lo + WholeRows(hi - lo + 1));
    }
  }

  lemma CleanWellFormed(b: Board, p: nat)
    requires WellFormed(b)
    ensures WellFormed(CleanDeadAround(b, p))
  {
    if p < |b| && b[p] == 0 {
      var lo, hi := RunStart(b, p), RunEnd(b, p);
      CleanCutsMaximalRun(b, p, lo, hi);
      CutWellFormed(b, lo, WholeRows(hi - lo + 1));
    }
  }

  /** Cutting out a span of dead cells keeps the live sequence. */
  lemma RemoveDeadSpan(b: Board, lo: nat, hi: nat)
    requires lo <= hi <= |b|
    requires forall j :: lo <= j < hi ==> b[j] == 0
    ensures LiveSeq(Cut(b, lo, hi - lo)) == LiveSeq(b)
  {
    var pre, mid, post := b[..lo], b[lo..hi], b[hi..];
    assert b == pre + mid + post;
    LiveSeqAllDead(mid);
    DropDeadMiddle(pre, mid, post);
  }

  lemma DropDeadMiddle(pre: Board, mid: Board, post: Board)
    requires LiveSeq(mid) == []
    ensures LiveSeq(pre + mid + post) == LiveSeq(pre + post)
  {
    LiveSeqAppend(pre + mid, post);
    LiveSeqAppend(pre, mid);
    LiveSeqAppend(pre, post);
  }

  /**
   `new_without`: kill the matching cells `x` and `y`, then compact around
   `y` and afterwards around `x` (the same index, on the compacted board).
   */
  function NewWithout(b: Board, x: nat, y: nat): (r: Board)
    requires x < |b| && y < |b|
    requires IsMatch(b[x], b[y])
    ensures |r| <= |b|
  {
    var killed := b[x := 0][y := 0];
    CleanDeadAround(CleanDeadAround(killed, y), x)
  }

  /**
   The live cells after a pair removal are the parent's, in order, less the
   two removed ones.
   */
  lemma NewWithoutLive(b: Board, x: nat, y: nat)
    requires x < |b| && y < |b|
    requires IsMatch(b[x], b[y])
    ensures LiveSeq(NewWithout(b, x, y)) == LiveSeq(b[x := 0][y := 0])
    ensures x != y && b[x] != 0 && b[y] != 0 ==> Live(NewWithout(b, x, y)) + 2 == Live(b)
  {
    var killed := b[x := 0][y := 0];
    CleanKeepsLive(killed, y);
    CleanKeepsLive(CleanDeadAround(killed, y), x);
    KillCell(b, x);
    KillCell(b[x := 0], y);
  }

  lemma NewWithoutWellFormed(b: Board, x: nat, y: nat)
    requires x < |b| && y < |b|
    requires IsMatch(b[x], b[y])
    requires WellFormed(b)
    ensures WellFormed(NewWithout(b, x, y))
  {
    var killed := b[x := 0][y := 0];
    CleanWellFormed(killed, y);
    CleanWellFormed(CleanDeadAround(killed, y), x);
  }

  /** The asserts `new_without` makes of a cross move. */
  predicate Applicable(b: Board, m: BoardMove) {
    m.Duplicate? || (m.start < |b| && m.partner < |b| && IsMatch(b[m.start], b[m.partner]))
  }

  /** `apply_move`. */
  function ApplyMove(b: Board, m: BoardMove): (r: Board)
    requires Applicable(b, m)
    ensures m.Duplicate? ==> |r| == |b| + Live(b)
    ensures !m.Duplicate? ==> |r| <= |b|
  {
    match m
    case Duplicate => NewDuplicated(b)
    case CrossDown(x, y) => NewWithout(b, x, y)
    case CrossRight(x, y) => NewWithout(b, x, y)
  }

  /** Every move keeps all cell values in [0, BASE). */
  lemma ApplyMoveWellFormed(b: Board, m: BoardMove)
    requires Applicable(b, m) && WellFormed(b)
    ensures WellFormed(ApplyMove(b, m))
  {
    if !m.Duplicate? {
      NewWithoutWellFormed(b, m.start, m.partner);
    }
  }

  // ---------------------------------------------------------------------
  // Goal and heuristic

  /** `is_goal`: every cell is dead. */
  predicate IsGoal(b: Board)
    ensures IsGoal(b) <==> Live(b) == 0
  {
    NoLiveIffAllDead(b);
    forall i :: 0 <= i < |b| ==> b[i] == 0
  }

  /**
   `compute_h_score`: half the live cells when their number is even, and
   two more (a duplicate plus a pair) when it is odd.
   */
  function HScore(b: Board): (r: nat)
    ensures r == 0 <==> IsGoal(b)
    ensures Live(b) <= 2 * r
  {
    var n := Live(b);
    if n % 2 == 0 then n / 2 else n / 2 + 2
  }
}
