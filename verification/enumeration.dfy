/**
 The move enumerator (`MovesIter`). `Moves` is the order the enumerator
 yields, stated cell by cell: for every live cell in increasing position,
 its `CrossDown` when the nearest live cell below it matches, then its
 `CrossRight` when the nearest later live cell matches; one `Duplicate`
 closes the list. `IterNext` is the iterator's own state machine, and
 `DrainYieldsMoves` shows that running it to exhaustion yields exactly
 `Moves`, which is what makes a stored ordinal replayable.
 */
module Enumeration {
  import opened Wrappers
  import opened Boards

  /** A cross move as the enumerator yields it: start before partner, both live, matching. */
  predicate LegalCross(b: Board, m: BoardMove) {
    && !m.Duplicate?
    && m.start < m.partner < |b|
    && b[m.start] != 0 && b[m.partner] != 0
    && IsMatch(b[m.start], b[m.partner])
  }

  /**
   The cross moves the scan finds: from a live cell to its nearest live
   cell below (`CrossDown`) or after it (`CrossRight`), when the two match.
   */
  predicate Yielded(b: Board, m: BoardMove) {
    match m
    case Duplicate => false
    case CrossDown(s, p) => s < |b| && b[s] != 0 && FindDown(b, s) == Some(p) && IsMatch(b[s], b[p])
    case CrossRight(s, p) => s < |b| && b[s] != 0 && FindFirst(b, s + 1) == Some(p) && IsMatch(b[s], b[p])
  }

  lemma YieldedIsLegal(b: Board, m: BoardMove)
    requires Yielded(b, m)
    ensures LegalCross(b, m)
  {
  }

  /** Sort key of a cross move: by start cell, `CrossDown` before `CrossRight`. */
  function Key(m: BoardMove): nat {
    match m
    case Duplicate => 0
    case CrossDown(s, _) => 2 * s
    case CrossRight(s, _) => 2 * s + 1
  }

  function DownMove(b: Board, c: nat): seq<BoardMove>
    requires c < |b|
  {
    match FindDown(b, c)
    case Some(d) => if IsMatch(b[c], b[d]) then [CrossDown(c, d)] else []
    case None => []
  }

  function RightMove(b: Board, c: nat): seq<BoardMove>
    requires c < |b|
  {
    match FindFirst(b, c + 1)
    case Some(n) => if IsMatch(b[c], b[n]) then [CrossRight(c, n)] else []
    case None => []
  }

  /** The cross moves started at the live cell `c`. */
  function CellMoves(b: Board, c: nat): seq<BoardMove>
    requires c < |b|
  {
    DownMove(b, c) + RightMove(b, c)
  }

  /** The cross moves started at cells `c`, `c + 1`, ..., in that order; dead cells start none. */
  function MovesFrom(b: Board, c: nat): seq<BoardMove>
    requires c <= |b|
    decreases |b| - c
  {
    if c == |b| then []
    else if b[c] == 0 then MovesFrom(b, c + 1)
    else CellMoves(b, c) + MovesFrom(b, c + 1)
  }

  /**
   `FullBoard::moves`, collected: the cross moves in scan order, then one
   `Duplicate`. Enumerating a board without live cells is refused, as
   `MovesIter::new` panics on it.
   */
  function Moves(b: Board): (r: seq<BoardMove>)
    requires !IsGoal(b)
    ensures |r| >= 1 && r[|r| - 1] == Duplicate
    ensures forall k :: 0 <= k < |r| - 1 ==> LegalCross(b, r[k])
    ensures |r| <= 2 * Live(b) + 1
  {
    MovesFromLegal(b, 0);
    MovesFromCount(b, 0);
    MovesFrom(b, 0) + [Duplicate]
  }

  lemma CellMovesYielded(b: Board, c: nat)
    requires c < |b| && b[c] != 0
    ensures forall k :: 0 <= k < |CellMoves(b, c)| ==>
      Yielded(b, CellMoves(b, c)[k]) && CellMoves(b, c)[k].start == c
  {
  }

  /** Everything the scan from `c` yields is a `Yielded` move started at or after `c`. */
  lemma {:induction false} MovesFromSound(b: Board, c: nat)
    requires c <= |b|
    ensures forall k :: 0 <= k < |MovesFrom(b, c)| ==>
      Yielded(b, MovesFrom(b, c)[k]) && c <= MovesFrom(b, c)[k].start
    decreases |b| - c
  {
    if c < |b| {
      MovesFromSound(b, c + 1);
      if b[c] != 0 {
        CellMovesYielded(b, c);
      }
    }
  }

  lemma {:induction false} MovesFromLegal(b: Board, c: nat)
    requires c <= |b|
    ensures forall k :: 0 <= k < |MovesFrom(b, c)| ==> LegalCross(b, MovesFrom(b, c)[k])
  {
    MovesFromSound(b, c);
    forall k | 0 <= k < |MovesFrom(b, c)| ensures LegalCross(b, MovesFrom(b, c)[k]) {
      YieldedIsLegal(b, MovesFrom(b, c)[k]);
    }
  }

  /** Every `Yielded` move started at or after `c` is found by the scan from `c`. */
  lemma MovesFromComplete(b: Board, c: nat, m: BoardMove)
    requires c <= |b| && Yielded(b, m) && c <= m.start
    ensures m in MovesFrom(b, c)
  {
    CellMovesHas(b, m.start, m);
    InAppend(m, CellMoves(b, m.start), MovesFrom(b, m.start + 1));
    forall k | c <= k < m.start && m in MovesFrom(b, k + 1)
      ensures m in MovesFrom(b, k)
    {
      ScanKeeps(b, k, m);
    }
    BackChain((k: nat) => k <= |b| && m in MovesFrom(b, k), c, m.start);
  }

  /** A property that holds at `j` and passes from each `k + 1` down to `k` holds at `c`. */
  lemma {:induction false} BackChain(p: nat -> bool, c: nat, j: nat)
    requires c <= j && p(j)
    requires forall k :: c <= k < j && p(k + 1) ==> p(k)
    ensures p(c)
    decreases j - c
  {
    if c < j {
      BackChain(p, c + 1, j);
    }
  }

  /** The scan from `c` keeps everything the scan from `c + 1` finds. */
  lemma ScanKeeps(b: Board, c: nat, m: BoardMove)
    requires c < |b| && m in MovesFrom(b, c + 1)
    ensures m in MovesFrom(b, c)
  {
    if b[c] != 0 {
      InAppend(m, CellMoves(b, c), MovesFrom(b, c + 1));
    } else {
      assert MovesFrom(b, c) == MovesFrom(b, c + 1);
    }
  }

  lemma InAppend<T>(x: T, xs: seq<T>, ys: seq<T>)
    ensures x in xs + ys <==> x in xs || x in ys
  {
  }

  lemma CellMovesHas(b: Board, c: nat, m: BoardMove)
    requires c < |b| && Yielded(b, m) && m.start == c
    ensures m in CellMoves(b, c)
  {
    if m.CrossDown? {
      assert DownMove(b, c) == [m];
    } else {
      assert RightMove(b, c) == [m];
    }
  }

  lemma {:induction false} MovesFromCount(b: Board, c: nat)
    requires c <= |b|
    ensures |MovesFrom(b, c)| <= 2 * Live(b[c..])
    decreases |b| - c
  {
    if c < |b| {
      MovesFromCount(b, c + 1);
      LiveCons(b[c..]);
      assert b[c..][1..] == b[c + 1..];
      if b[c] != 0 {
        assert |CellMoves(b, c)| <= 2;
      }
    }
  }

  /** Every cross move yielded satisfies the asserts of `new_without`. */
  lemma MovesApplicable(b: Board, k: nat)
    requires !IsGoal(b) && k < |Moves(b)|
    ensures Applicable(b, Moves(b)[k])
    ensures !Moves(b)[k].Duplicate? ==> Moves(b)[k].start != Moves(b)[k].partner
  {
  }

  // ---------------------------------------------------------------------
  // Order and content of the enumeration

  /** Keys strictly increase along `ms`. */
  predicate Increasing(ms: seq<BoardMove>) {
    forall i, j :: 0 <= i < j < |ms| ==> Key(ms[i]) < Key(ms[j])
  }

  lemma IncreasingAppend(xs: seq<BoardMove>, ys: seq<BoardMove>, mid: nat)
    requires Increasing(xs) && Increasing(ys)
    requires forall i :: 0 <= i < |xs| ==> Key(xs[i]) < mid
    requires forall j :: 0 <= j < |ys| ==> mid <= Key(ys[j])
    ensures Increasing(xs + ys)
  {
    var zs := xs + ys;
    forall i, j | 0 <= i < j < |zs| ensures Key(zs[i]) < Key(zs[j]) {
      if j < |xs| {
        assert zs[i] == xs[i] && zs[j] == xs[j];
      } else if i >= |xs| {
        assert zs[i] == ys[i - |xs|] && zs[j] == ys[j - |xs|];
      } else {
        assert zs[i] == xs[i] && zs[j] == ys[j - |xs|];
      }
    }
  }

  /** The moves of cell `c` are in order, with keys `2c` and `2c + 1`. */
  lemma CellMovesKeys(b: Board, c: nat)
    requires c < |b|
    ensures Increasing(CellMoves(b, c))
    ensures forall i :: 0 <= i < |CellMoves(b, c)| ==> 2 * c <= Key(CellMoves(b, c)[i]) < 2 * c + 2
  {
    var d, r := DownMove(b, c), RightMove(b, c);
    assert d == [] || d == [CrossDown(c, FindDown(b, c).value)];
    assert r == [] || r == [CrossRight(c, FindFirst(b, c + 1).value)];
  }

  /** The scan from `c` yields only keys from `2c` on. */
  lemma {:induction false} MovesFromKeys(b: Board, c: nat)
    requires c <= |b|
    ensures forall i :: 0 <= i < |MovesFrom(b, c)| ==> 2 * c <= Key(MovesFrom(b, c)[i])
    decreases |b| - c
  {
    if c < |b| {
      MovesFromKeys(b, c + 1);
      if b[c] != 0 {
        CellMovesKeys(b, c);
        var xs, ys := CellMoves(b, c), MovesFrom(b, c + 1);
        forall i | 0 <= i < |xs + ys| ensures 2 * c <= Key((xs + ys)[i]) {
          if i >= |xs| {
            assert (xs + ys)[i] == ys[i - |xs|];
          }
        }
      } else {
        assert MovesFrom(b, c) == MovesFrom(b, c + 1);
      }
    }
  }

  lemma {:induction false} MovesFromOrdered(b: Board, c: nat)
    requires c <= |b|
    ensures Increasing(MovesFrom(b, c))
    decreases |b| - c
  {
    if c < |b| {
      MovesFromOrdered(b, c + 1);
      if b[c] != 0 {
        OrderedCell(b, c);
      } else {
        assert MovesFrom(b, c) == MovesFrom(b, c + 1);
      }
    }
  }

  lemma OrderedCell(b: Board, c: nat)
    requires c < |b| && b[c] != 0 && Increasing(MovesFrom(b, c + 1))
    ensures Increasing(MovesFrom(b, c))
  {
    MovesFromKeys(b, c + 1);
    CellMovesKeys(b, c);
    IncreasingAppend(CellMoves(b, c), MovesFrom(b, c + 1), 2 * c + 2);
  }

  /**
   The cross moves come in strictly increasing (start, direction) order,
   so no move is yielded twice and `CrossDown` precedes `CrossRight` from
   the same cell.
   */
  lemma MovesOrdered(b: Board)
    requires !IsGoal(b)
    ensures forall i, j :: 0 <= i < j < |Moves(b)| - 1 ==> Key(Moves(b)[i]) < Key(Moves(b)[j])
  {
    MovesFromOrdered(b, 0);
  }

  /** A cross move is enumerated exactly when the scan finds it. */
  lemma MovesExactlyYielded(b: Board, m: BoardMove)
    requires !IsGoal(b) && !m.Duplicate?
    ensures m in Moves(b) <==> Yielded(b, m)
  {
    if m in Moves(b) {
      var k :| 0 <= k < |Moves(b)| && Moves(b)[k] == m;
      MovesFromSound(b, 0);
      assert MovesFrom(b, 0)[k] == m;
    }
    if Yielded(b, m) {
      MovesFromComplete(b, 0, m);
    }
  }

  /**
   `CrossDown(s, p)` is yielded exactly when `s` is live and `p` is the
   nearest live cell below it in its column and the two match.
   */
  lemma CrossDownYielded(b: Board, s: nat, p: nat)
    requires !IsGoal(b)
    ensures CrossDown(s, p) in Moves(b) <==>
      s < |b| && b[s] != 0 && FindDown(b, s) == Some(p) && IsMatch(b[s], b[p])
  {
    MovesExactlyYielded(b, CrossDown(s, p));
  }

  /**
   `CrossRight(s, p)` is yielded exactly when `s` is live and `p` is the
   nearest live cell after it and the two match.
   */
  lemma CrossRightYielded(b: Board, s: nat, p: nat)
    requires !IsGoal(b)
    ensures CrossRight(s, p) in Moves(b) <==>
      s < |b| && b[s] != 0 && FindFirst(b, s + 1) == Some(p) && IsMatch(b[s], b[p])
  {
    MovesExactlyYielded(b, CrossRight(s, p));
  }

  // ---------------------------------------------------------------------
  // The iterator state machine

  /**
   `MovesIter`'s state. While scanning, `reportedFirst` says whether the
   downward match of `nextCell` was already tried; once `nextCell` is past
   the end it says whether `Duplicate` was already yielded.
   */
  datatype MovesIter = MovesIter(nextCell: nat, reportedFirst: bool)

  /** The scan pointer is on a live cell or at the end (the assert in `next`). */
  predicate IterInv(b: Board, it: MovesIter) {
    it.nextCell <= |b| && (it.nextCell < |b| ==> b[it.nextCell] != 0)
  }

  function Measure(b: Board, it: MovesIter): nat
    requires it.nextCell <= |b|
  {
    if it.nextCell == |b| then (if it.reportedFirst then 0 else 1)
    else 2 * (|b| - it.nextCell) + (if it.reportedFirst then 1 else 2)
  }

  /** `MovesIter::new`: start on the first live cell, down not yet tried. */
  function IterNew(b: Board): (it: MovesIter)
    requires !IsGoal(b) && |b| <= MAX_CELLS
    ensures IterInv(b, it) && it.nextCell < |b| && !it.reportedFirst
    ensures forall j :: 0 <= j < it.nextCell ==> b[j] == 0
  {
    FindFirstNearest(b, 0);
    MovesIter(FindFirst(b, 0).value, false)
  }

  /** `MovesIter::next`: the loop body runs until it yields or finishes. */
  function IterNext(b: Board, it: MovesIter): (r: (Option<BoardMove>, MovesIter))
    requires |b| <= MAX_CELLS && IterInv(b, it)
    ensures IterInv(b, r.1)
    ensures r.0.None? <==> it.nextCell == |b| && it.reportedFirst
    ensures r.0.None? ==> r.1 == it
    ensures r.0.Some? ==> Measure(b, r.1) < Measure(b, it)
    ensures r.0.Some? && !r.0.value.Duplicate? ==> LegalCross(b, r.0.value)
    decreases Measure(b, it)
  {
    if it.nextCell >= |b| then
      if it.reportedFirst then (None, it)
      else (Some(Duplicate), MovesIter(it.nextCell, true))
    else
      var c := it.nextCell;
      var down := FindDown(b, c);
      if !it.reportedFirst && down.Some? && IsMatch(b[c], b[down.value]) then
        (Some(CrossDown(c, down.value)), MovesIter(c, true))
      else
        match FindFirst(b, c + 1)
        case None => IterNext(b, MovesIter(|b|, false))
        case Some(n) =>
          if IsMatch(b[c], b[n]) then (Some(CrossRight(c, n)), MovesIter(n, false))
          else IterNext(b, MovesIter(n, false))
  }

  /** Everything the iterator yields from state `it` on, collected. */
  function Drain(b: Board, it: MovesIter): seq<BoardMove>
    requires |b| <= MAX_CELLS && IterInv(b, it)
    decreases Measure(b, it)
  {
    var r := IterNext(b, it);
    if r.0.None? then [] else [r.0.value] + Drain(b, r.1)
  }

  lemma SkipDead(b: Board, c: nat, n: nat)
    requires c <= n <= |b|
    requires forall j :: c <= j < n ==> b[j] == 0
    ensures MovesFrom(b, c) == MovesFrom(b, n)
  {
    forall k | c <= k < n && MovesFrom(b, k + 1) == MovesFrom(b, n)
      ensures MovesFrom(b, k) == MovesFrom(b, n)
    {
      DeadStep(b, k);
    }
    BackChain((k: nat) => k <= |b| && MovesFrom(b, k) == MovesFrom(b, n), c, n);
  }

  /** A dead cell starts no move. */
  lemma DeadStep(b: Board, c: nat)
    requires c < |b| && b[c] == 0
    ensures MovesFrom(b, c) == MovesFrom(b, c + 1)
  {
  }

  lemma DrainFinished(b: Board)
    requires |b| <= MAX_CELLS
    ensures Drain(b, MovesIter(|b|, false)) == [Duplicate]
  {
    assert Drain(b, MovesIter(|b|, true)) == [];
  }

  /** After its downward match, the last live cell leaves only `Duplicate`. */
  lemma StepRightLast(b: Board, c: nat)
    requires |b| <= MAX_CELLS && c < |b| && b[c] != 0
    requires FindFirst(b, c + 1).None?
    ensures Drain(b, MovesIter(c, true)) == Drain(b, MovesIter(|b|, false))
    ensures RightMove(b, c) == []
  {
    assert IterNext(b, MovesIter(c, true)) == IterNext(b, MovesIter(|b|, false));
  }

  /** After its downward match, a live cell hands over to the next live cell `n`. */
  lemma StepRightTo(b: Board, c: nat, n: nat)
    requires |b| <= MAX_CELLS && c < |b| && b[c] != 0
    requires FindFirst(b, c + 1) == Some(n)
    ensures Drain(b, MovesIter(c, true)) == RightMove(b, c) + Drain(b, MovesIter(n, false))
  {
    if IsMatch(b[c], b[n]) {
      StepRightMatch(b, c, n);
    } else {
      StepRightSkip(b, c, n);
    }
  }

  lemma StepRightMatch(b: Board, c: nat, n: nat)
    requires |b| <= MAX_CELLS && c < |b| && b[c] != 0
    requires FindFirst(b, c + 1) == Some(n) && IsMatch(b[c], b[n])
    ensures Drain(b, MovesIter(c, true)) == [CrossRight(c, n)] + Drain(b, MovesIter(n, false))
  {
    var r := IterNext(b, MovesIter(c, true));
    assert r.0 == Some(CrossRight(c, n));
    assert r.1 == MovesIter(n, false);
  }

  lemma StepRightSkip(b: Board, c: nat, n: nat)
    requires |b| <= MAX_CELLS && c < |b| && b[c] != 0
    requires FindFirst(b, c + 1) == Some(n) && !IsMatch(b[c], b[n])
    ensures Drain(b, MovesIter(c, true)) == Drain(b, MovesIter(n, false))
  {
    assert IterNext(b, MovesIter(c, true)) == IterNext(b, MovesIter(n, false));
  }

  /** From a live cell whose downward match was already tried. */
  lemma {:induction false} DrainRight(b: Board, c: nat)
    requires |b| <= MAX_CELLS && c < |b| && b[c] != 0
    ensures Drain(b, MovesIter(c, true)) == RightMove(b, c) + (MovesFrom(b, c + 1) + [Duplicate])
    decreases |b| - c, 0, 1
  {
    var next := FindFirst(b, c + 1);
    if next.None? {
      DrainLastCell(b, c);
    } else {
      DrainNextCell(b, c, next.value);
    }
  }

  lemma DrainLastCell(b: Board, c: nat)
    requires |b| <= MAX_CELLS && c < |b| && b[c] != 0
    requires FindFirst(b, c + 1).None?
    ensures Drain(b, MovesIter(c, true)) == RightMove(b, c) + (MovesFrom(b, c + 1) + [Duplicate])
  {
    StepRightLast(b, c);
    FindFirstNearest(b, c + 1);
    DrainFinished(b);
    SkipDead(b, c + 1, |b|);
    assert MovesFrom(b, |b|) == [];
  }

  lemma {:induction false} DrainNextCell(b: Board, c: nat, n: nat)
    requires |b| <= MAX_CELLS && c < |b| && b[c] != 0
    requires FindFirst(b, c + 1) == Some(n)
    ensures Drain(b, MovesIter(c, true)) == RightMove(b, c) + (MovesFrom(b, c + 1) + [Duplicate])
    decreases |b| - c, 0, 0
  {
    StepRightTo(b, c, n);
    FindFirstNearest(b, c + 1);
    SkipDead(b, c + 1, n);
    DrainFrom(b, n);
  }

  /** One step of the iterator at a live cell before its downward match. */
  lemma StepDown(b: Board, c: nat)
    requires |b| <= MAX_CELLS && c < |b| && b[c] != 0
    ensures Drain(b, MovesIter(c, false)) == DownMove(b, c) + Drain(b, MovesIter(c, true))
  {
    var down := FindDown(b, c);
    if down.Some? && IsMatch(b[c], b[down.value]) {
      StepDownMatch(b, c, down.value);
    } else {
      StepDownSkip(b, c);
    }
  }

  lemma StepDownMatch(b: Board, c: nat, p: nat)
    requires |b| <= MAX_CELLS && c < |b| && b[c] != 0
    requires FindDown(b, c) == Some(p) && IsMatch(b[c], b[p])
    ensures Drain(b, MovesIter(c, false)) == [CrossDown(c, p)] + Drain(b, MovesIter(c, true))
  {
    assert IterNext(b, MovesIter(c, false)) == (Some(CrossDown(c, p)), MovesIter(c, true));
  }

  lemma StepDownSkip(b: Board, c: nat)
    requires |b| <= MAX_CELLS && c < |b| && b[c] != 0
    requires FindDown(b, c).None? || !IsMatch(b[c], b[FindDown(b, c).value])
    ensures Drain(b, MovesIter(c, false)) == Drain(b, MovesIter(c, true))
  {
    assert IterNext(b, MovesIter(c, false)) == IterNext(b, MovesIter(c, true));
  }

  lemma Assoc<T>(d: seq<T>, r: seq<T>, m: seq<T>, e: seq<T>)
    ensures (d + r + m) + e == d + (r + (m + e))
  {
  }

  /** From a live cell whose downward match is still to be tried. */
  lemma {:induction false} DrainFrom(b: Board, c: nat)
    requires |b| <= MAX_CELLS && c < |b| && b[c] != 0
    ensures Drain(b, MovesIter(c, false)) == MovesFrom(b, c) + [Duplicate]
    decreases |b| - c, 1, 0
  {
    StepDown(b, c);
    DrainRight(b, c);
    Assoc(DownMove(b, c), RightMove(b, c), MovesFrom(b, c + 1), [Duplicate]);
  }

  /**
   Running the iterator from `MovesIter::new` to exhaustion yields exactly
   `Moves(b)`: the scan order, then `Duplicate`, then nothing.
   */
  lemma DrainYieldsMoves(b: Board)
    requires !IsGoal(b) && |b| <= MAX_CELLS
    ensures Drain(b, IterNew(b)) == Moves(b)
  {
    var it := IterNew(b);
    DrainFrom(b, it.nextCell);
    SkipDead(b, 0, it.nextCell);
  }

  /** Once exhausted the iterator stays exhausted (`FusedIterator`). */
  lemma IterFused(b: Board, it: MovesIter)
    requires |b| <= MAX_CELLS && IterInv(b, it)
    requires IterNext(b, it).0.None?
    ensures IterNext(b, IterNext(b, it).1).0.None?
  {
  }

  /** Ordinals fit the source's `u8` move index whenever at most 127 cells are live. */
  lemma OrdinalsFitMoveIndex(b: Board)
    requires !IsGoal(b) && Live(b) <= 127
    ensures |Moves(b)| <= 255
  {
  }
}
