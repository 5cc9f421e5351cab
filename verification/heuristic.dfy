/**
 How `compute_h_score` moves along the edges the enumerator offers. A
 cross move removes exactly two live cells, so the score drops by exactly
 one; `Duplicate` doubles the live cells and never lowers the score by
 more than one. Together: the score is consistent for unit move cost,
 which is what lets the search test for the goal at generation time.
 */
module Heuristic {
  import opened Boards
  import opened Enumeration

  /** Each cross move lowers the live count by exactly 2 and the score by exactly 1. */
  lemma CrossLowersHByOne(b: Board, m: BoardMove)
    requires LegalCross(b, m)
    ensures Live(ApplyMove(b, m)) + 2 == Live(b)
    ensures HScore(ApplyMove(b, m)) + 1 == HScore(b)
  {
    var a := ApplyMove(b, m);
    assert a == NewWithout(b, m.start, m.partner);
    NewWithoutLive(b, m.start, m.partner);
    var n := Live(b);
    assert Live(a) == n - 2;
    assert HScore(b) == if n % 2 == 0 then n / 2 else n / 2 + 2;
    assert HScore(a) == if (n - 2) % 2 == 0 then (n - 2) / 2 else (n - 2) / 2 + 2;
  }

  /** `Duplicate` doubles the live count and lowers the score by at most 1. */
  lemma DuplicateLowersHAtMostOne(b: Board)
    ensures Live(ApplyMove(b, Duplicate)) == 2 * Live(b)
    ensures HScore(b) <= HScore(ApplyMove(b, Duplicate)) + 1
  {
  }

  /** Along every enumerated move the score drops by at most 1. */
  lemma HConsistent(b: Board, k: nat)
    requires !IsGoal(b) && k < |Moves(b)|
    ensures HScore(b) <= HScore(ApplyMove(b, Moves(b)[k])) + 1
  {
    var m := Moves(b)[k];
    if m.Duplicate? {
      DuplicateLowersHAtMostOne(b);
    } else {
      CrossLowersHByOne(b, m);
    }
  }
}
