/**
 One step of the A* loop in `run`. The open set is an ordered map from
 g+h score to a stack of arena indices; the smallest score's stack is
 popped from the top. An entry that a better path superseded stays in its
 stack as a tombstone and is skipped when popped. `seen` maps each board
 fingerprint (here the board itself) to the score it was queued with and
 its position in that score's stack, so that a cheaper rediscovery can
 tombstone the old slot and re-queue the same arena entry.
 */
module Search {
  import opened Wrappers
  import opened Boards
  import opened Enumeration
  import opened Heuristic
  import opened Paths

  /** A stack slot: an arena index, or the placeholder left by a replaced entry. */
  datatype Slot = Pending(index: nat) | Tombstone

  /** What `seen` remembers of a board: its g+h score and its position in that score's stack. */
  datatype SeenEntry = SeenEntry(score: nat, pos: nat)

  type OpenSet = map<nat, seq<Slot>>

  datatype SearchState = SearchState(open: OpenSet, arena: Arena, seen: map<Board, SeenEntry>)

  /** What one turn of the loop does. */
  datatype Outcome =
    | Exhausted                  // the open set is empty: `run` returns no moves
    | Skipped(next: SearchState) // a tombstone was popped
    | Expanded(next: SearchState)
    | Found(path: seq<BoardMove>)
    | Panicked                   // an `assert!`, `unwrap` or index in the source fails

  /** The state before the first turn: the root entry, queued with score 0. */
  function Seed(): (st: SearchState)
    ensures |st.arena| == 1 && st.open.Keys == {0} && st.seen == map[]
    ensures st.open[0] == [Pending(0)] && st.arena[0] == IncrementalNode(0, 0)
  {
    SearchState(map[0 := [Pending(0)]], [IncrementalNode(0, 0)], map[])
  }

  // ---------------------------------------------------------------------
  // The ordered map

  /** A set of naturals holding `x` has a least element, at most `x`. */
  lemma {:induction false} MinExists(s: set<nat>, x: nat)
    requires x in s
    ensures exists m :: m in s && forall k :: k in s ==> m <= k
    decreases x
  {
    if exists y :: y in s && y < x {
      var y :| y in s && y < x;
      MinExists(s, y);
    } else {
      assert forall k :: k in s ==> x <= k;
    }
  }

  /** The first key of the ordered map. */
  function MinKey(s: set<nat>): (r: nat)
    requires s != {}
    ensures r in s && forall k :: k in s ==> r <= k
  {
    var x :| x in s;
    MinExists(s, x);
    var m :| m in s && forall k :: k in s ==> m <= k; m
  }

  predicate NoEmptyBucket(open: OpenSet) {
    forall key :: key in open ==> |open[key]| > 0
  }

  /** Push `slot` on the stack for `key`, creating the stack if needed (`entry().or_default()`). */
  function Push(open: OpenSet, key: nat, slot: Slot): (r: OpenSet)
    ensures r.Keys == open.Keys + {key}
    ensures |r[key]| == (if key in open then |open[key]| else 0) + 1
    ensures r[key][|r[key]| - 1] == slot
    ensures key in open ==> r[key][..|open[key]|] == open[key]
    ensures forall k :: k in open && k != key ==> r[k] == open[k]
  {
    var stack := if key in open then open[key] else [];
    open[key := stack + [slot]]
  }

  /**
   Take the top slot of the smallest score's stack, dropping the stack when
   it held only that slot. `None` where the source's `assert!` fails on an
   empty stack.
   */
  function Pop(open: OpenSet): Option<(nat, Slot, OpenSet)>
    requires open != map[]
  {
    var key := MinKey(open.Keys);
    var stack := open[key];
    if stack == [] then None
    else
      var rest := if |stack| == 1 then open - {key} else open[key := stack[..|stack| - 1]];
      Some((key, stack[|stack| - 1], rest))
  }

  /**
   Pop takes the last slot of the stack with the smallest score; the rest
   of the open set is unchanged, and no empty stack is left behind.
   */
  lemma PopTakesMinTop(open: OpenSet)
    requires open != map[] && NoEmptyBucket(open)
    ensures Pop(open).Some?
    ensures var (key, slot, rest) := Pop(open).value;
      && key in open && (forall k :: k in open ==> key <= k)
      && slot == open[key][|open[key]| - 1]
      && (key in rest <==> |open[key]| > 1)
      && (key in rest ==> rest[key] == open[key][..|open[key]| - 1])
      && (forall k :: k in open && k != key ==> k in rest && rest[k] == open[k])
      && rest.Keys <= open.Keys
      && NoEmptyBucket(rest)
  {
  }

  // ---------------------------------------------------------------------
  // Admitting a neighbour

  /**
   Queue the neighbour `nb`, reached as arena node `node`, with score `f`.
   Three cases, as in the expansion loop of `run`:
   - `nb` was seen with a score no worse: nothing changes;
   - `nb` was seen with a worse score: its old slot becomes a tombstone,
     its arena entry is overwritten with `node` and re-queued under `f`;
   - `nb` is new: `node` is appended to the arena and queued under `f`.
   `None` where the source panics: the remembered slot no longer exists,
   or it holds a tombstone or an index outside the arena.
   */
  function Admit(st: SearchState, nb: Board, node: IncrementalNode, f: nat): Option<SearchState> {
    if nb in st.seen then
      var e := st.seen[nb];
      if e.score <= f then Some(st)
      else if e.score !in st.open || e.pos >= |st.open[e.score]| then None
      else
        var slot := st.open[e.score][e.pos];
        if slot.Tombstone? || slot.index >= |st.arena| then None
        else
          var idx := slot.index;
          var cleared := st.open[e.score := st.open[e.score][e.pos := Tombstone]];
          var pos := if f in cleared then |cleared[f]| else 0;
          Some(SearchState(Push(cleared, f, Pending(idx)), st.arena[idx := node],
                           st.seen[nb := SeenEntry(f, pos)]))
    else
      var pos := if f in st.open then |st.open[f]| else 0;
      Some(SearchState(Push(st.open, f, Pending(|st.arena|)), st.arena + [node],
                       st.seen[nb := SeenEntry(f, pos)]))
  }

  /** A rediscovery that is no cheaper changes nothing. */
  lemma AdmitDiscards(st: SearchState, nb: Board, node: IncrementalNode, f: nat)
    requires nb in st.seen && st.seen[nb].score <= f
    ensures Admit(st, nb, node, f) == Some(st)
  {
  }

  /**
   A new board gets a fresh arena entry, appended last; `seen` gains exactly
   that board, and its remembered slot is the top of stack `f`, naming the
   fresh entry.
   */
  lemma AdmitNew(st: SearchState, nb: Board, node: IncrementalNode, f: nat)
    requires nb !in st.seen
    ensures Admit(st, nb, node, f).Some?
    ensures var st' := Admit(st, nb, node, f).value;
      && st'.arena == st.arena + [node]
      && st'.seen.Keys == st.seen.Keys + {nb}
      && (forall b :: b in st.seen ==> st'.seen[b] == st.seen[b])
      && st'.seen[nb].score == f
      && f in st'.open && st'.seen[nb].pos == |st'.open[f]| - 1
      && st'.open[f][st'.seen[nb].pos] == Pending(|st.arena|)
    ensures var st' := Admit(st, nb, node, f).value;
      && st'.open.Keys == st.open.Keys + {f}
      && (f in st.open ==> st'.open[f][..|st.open[f]|] == st.open[f])
      && forall k :: k in st.open && k != f ==> st'.open[k] == st.open[k]
  {
  }

  /**
   A cheaper rediscovery reuses the old arena entry: the arena keeps its
   size, only that entry changes, the old slot becomes a tombstone, and
   `seen` points at the new top of stack `f`, which names the same entry.
   */
  lemma AdmitRewrites(st: SearchState, nb: Board, node: IncrementalNode, f: nat)
    requires nb in st.seen && f < st.seen[nb].score
    requires var e := st.seen[nb]; e.score in st.open && e.pos < |st.open[e.score]|
    requires var e := st.seen[nb]; st.open[e.score][e.pos].Pending?
    requires var e := st.seen[nb]; st.open[e.score][e.pos].index < |st.arena|
    ensures Admit(st, nb, node, f).Some?
    ensures var e := st.seen[nb];
      var idx := st.open[e.score][e.pos].index;
      var st' := Admit(st, nb, node, f).value;
      && st'.arena == st.arena[idx := node]
      && st'.open[e.score][e.pos] == Tombstone
      && st'.seen.Keys == st.seen.Keys
      && st'.seen[nb].score == f
      && f in st'.open && st'.seen[nb].pos == |st'.open[f]| - 1
      && st'.open[f][st'.seen[nb].pos] == Pending(idx)
    ensures var e := st.seen[nb];
      var st' := Admit(st, nb, node, f).value;
      && st'.open.Keys == st.open.Keys + {f}
      && (f in st.open ==> st'.open[f][..|st.open[f]|] == st.open[f])
      && (forall k :: k in st.open && k != f && k != e.score ==> st'.open[k] == st.open[k])
      && |st'.open[e.score]| == |st.open[e.score]|
      && (forall i :: 0 <= i < |st.open[e.score]| && i != e.pos ==> st'.open[e.score][i] == st.open[e.score][i])
      && forall b :: b in st.seen && b != nb ==> st'.seen[b] == st.seen[b]
  {
  }

  /**
   The admission panics exactly when `nb` was seen with a worse score and
   its remembered slot is gone or no longer names an arena entry.
   */
  lemma AdmitPanics(st: SearchState, nb: Board, node: IncrementalNode, f: nat)
    ensures Admit(st, nb, node, f).None? <==>
      && nb in st.seen && f < st.seen[nb].score
      && var e := st.seen[nb];
      || e.score !in st.open || e.pos >= |st.open[e.score]|
      || st.open[e.score][e.pos].Tombstone?
      || st.open[e.score][e.pos].index >= |st.arena|
  {
  }

  // ---------------------------------------------------------------------
  // Well-formed states

  /** Every queued index names an arena entry. */
  predicate PendingInArena(open: OpenSet, n: nat) {
    forall key, i :: key in open && 0 <= i < |open[key]| && open[key][i].Pending? ==> open[key][i].index < n
  }

  /** No stack is empty, every queued index names an arena entry, and the root exists. */
  predicate Valid(st: SearchState) {
    |st.arena| > 0 && NoEmptyBucket(st.open) && PendingInArena(st.open, |st.arena|)
  }

  lemma SeedValid()
    ensures Valid(Seed())
  {
  }

  lemma PushValid(open: OpenSet, n: nat, key: nat, slot: Slot)
    requires NoEmptyBucket(open) && PendingInArena(open, n)
    requires slot.Pending? ==> slot.index < n
    ensures NoEmptyBucket(Push(open, key, slot)) && PendingInArena(Push(open, key, slot), n)
  {
    var r: OpenSet := Push(open, key, slot);
    forall k: nat, i: int | k in r && 0 <= i < |r[k]| && r[k][i].Pending?
      ensures r[k][i].index < n
    {
      if k == key && key in open && i < |open[key]| {
        assert r[k][i] == r[k][..|open[key]|][i];
      }
    }
  }

  /** Every admission that does not panic keeps the state well-formed. */
  lemma AdmitValid(st: SearchState, nb: Board, node: IncrementalNode, f: nat)
    requires Valid(st) && Admit(st, nb, node, f).Some?
    ensures Valid(Admit(st, nb, node, f).value)
    ensures |st.arena| <= |Admit(st, nb, node, f).value.arena| <= |st.arena| + 1
  {
    if nb in st.seen && f < st.seen[nb].score {
      var e := st.seen[nb];
      var idx := st.open[e.score][e.pos].index;
      var cleared := st.open[e.score := st.open[e.score][e.pos := Tombstone]];
      assert NoEmptyBucket(cleared);
      assert PendingInArena(cleared, |st.arena|) by {
        forall k: nat, i: int | k in cleared && 0 <= i < |cleared[k]| && cleared[k][i].Pending?
          ensures cleared[k][i].index < |st.arena|
        {
          assert cleared[k][i] == st.open[k][i];
        }
      }
      PushValid(cleared, |st.arena|, f, Pending(idx));
    } else if nb !in st.seen {
      var n := |st.arena|;
      assert PendingInArena(st.open, n + 1);
      PushValid(st.open, n + 1, f, Pending(n));
    }
  }

  // ---------------------------------------------------------------------
  // Expansion and the loop body

  /** The boards one enumerated move away from `board`, in enumeration order. */
  function Neighbours(board: Board): (ns: seq<Board>)
    requires !IsGoal(board)
    ensures |ns| == |Moves(board)|
  {
    seq(|Moves(board)|, k requires 0 <= k < |Moves(board)| => MovesApplicable(board, k); ApplyMove(board, Moves(board)[k]))
  }

  /** How the expansion loop ends: every neighbour handled, a goal generated, or a panic. */
  datatype Expansion = Done(st: SearchState) | GoalAt(st: SearchState, ordinal: nat) | Stuck

  /**
   The expansion loop of `run` from ordinal `k`: the neighbours `ns` of the
   board of arena entry `cur`, reached in `g` moves. The first goal
   neighbour stops the loop; any other is admitted with score g + 1 + h.
   The new entry records the ordinal as the source's `u8` does.
   */
  function Expand(st: SearchState, cur: nat, g: nat, ns: seq<Board>, k: nat): Expansion
    requires k <= |ns|
    decreases |ns| - k
  {
    if k == |ns| then Done(st)
    else if IsGoal(ns[k]) then GoalAt(st, k)
    else
      var next := Admit(st, ns[k], IncrementalNode(cur, AsMoveIndex(k)), g + 1 + HScore(ns[k]));
      if next.None? then Stuck else Expand(next.value, cur, g, ns, k + 1)
  }

  /** The goal branch: reconstruct the path of the new entry for ordinal `k` of `cur`. */
  function Finish(st: SearchState, cur: nat, k: nat, start: Board): (r: Outcome)
    ensures r.Found? || r.Panicked?
  {
    var p := ReconstructPath(st.arena + [IncrementalNode(cur, AsMoveIndex(k))], |st.arena|, start);
    if p.None? then Panicked else Found(p.value.moves)
  }

  /** Rebuild the board of arena entry `cur` and expand it. */
  function Visit(st: SearchState, cur: nat, start: Board): Outcome {
    var s := ReconstructState(st.arena, cur, start);
    if s.None? || IsGoal(s.value.1) then Panicked
    else
      match Expand(st, cur, s.value.0, Neighbours(s.value.1), 0)
      case Done(st') => Expanded(st')
      case Stuck => Panicked
      case GoalAt(st', k) => Finish(st', cur, k, start)
  }

  /** One turn of the loop: pop, then skip a tombstone or visit the popped entry. */
  function Step(st: SearchState, start: Board): Outcome {
    if st.open == map[] then Exhausted
    else
      var popped := Pop(st.open);
      if popped.None? then Panicked
      else
        var (_, slot, rest) := popped.value;
        if slot.Tombstone? then Skipped(st.(open := rest))
        else Visit(st.(open := rest), slot.index, start)
  }

  /** An empty open set ends the search with no moves, and only an empty one does. */
  lemma StepExhausted(st: SearchState, start: Board)
    ensures Step(st, start) == Exhausted <==> st.open == map[]
  {
  }

  /** A popped tombstone is dropped and nothing else changes. */
  lemma StepSkipsTombstone(st: SearchState, start: Board)
    requires st.open != map[] && NoEmptyBucket(st.open)
    requires var key := MinKey(st.open.Keys); st.open[key][|st.open[key]| - 1] == Tombstone
    ensures Step(st, start) == Skipped(st.(open := Pop(st.open).value.2))
  {
    PopTakesMinTop(st.open);
  }

  /** The loop stops at the first goal neighbour in enumeration order. */
  lemma {:induction false} ExpandStopsAtFirstGoal(st: SearchState, cur: nat, g: nat, ns: seq<Board>, k: nat)
    requires k <= |ns|
    ensures Expand(st, cur, g, ns, k).GoalAt? ==>
      var j := Expand(st, cur, g, ns, k).ordinal;
      k <= j < |ns| && IsGoal(ns[j]) && forall i :: k <= i < j ==> !IsGoal(ns[i])
    decreases |ns| - k
  {
    if k < |ns| && !IsGoal(ns[k]) {
      var next := Admit(st, ns[k], IncrementalNode(cur, AsMoveIndex(k)), g + 1 + HScore(ns[k]));
      if next.Some? {
        ExpandStopsAtFirstGoal(next.value, cur, g, ns, k + 1);
      }
    }
  }

  /** When the loop runs to the end, no neighbour was a goal. */
  lemma {:induction false} ExpandDoneNoGoal(st: SearchState, cur: nat, g: nat, ns: seq<Board>, k: nat)
    requires k <= |ns|
    ensures Expand(st, cur, g, ns, k).Done? ==> forall i :: k <= i < |ns| ==> !IsGoal(ns[i])
    decreases |ns| - k
  {
    if k < |ns| && !IsGoal(ns[k]) {
      var next := Admit(st, ns[k], IncrementalNode(cur, AsMoveIndex(k)), g + 1 + HScore(ns[k]));
      if next.Some? {
        ExpandDoneNoGoal(next.value, cur, g, ns, k + 1);
      }
    }
  }

  /** Expansion keeps the state well-formed, whatever the neighbours. */
  lemma {:induction false} ExpandValid(st: SearchState, cur: nat, g: nat, ns: seq<Board>, k: nat)
    requires Valid(st) && k <= |ns|
    ensures !Expand(st, cur, g, ns, k).Stuck? ==> Valid(Expand(st, cur, g, ns, k).st)
    decreases |ns| - k
  {
    if k < |ns| && !IsGoal(ns[k]) {
      var f := g + 1 + HScore(ns[k]);
      var next := Admit(st, ns[k], IncrementalNode(cur, AsMoveIndex(k)), f);
      if next.Some? {
        AdmitValid(st, ns[k], IncrementalNode(cur, AsMoveIndex(k)), f);
        ExpandValid(next.value, cur, g, ns, k + 1);
      }
    }
  }

  /** Popping keeps the state well-formed and never trips the empty-stack assertion. */
  lemma PopValid(st: SearchState)
    requires Valid(st) && st.open != map[]
    ensures Pop(st.open).Some?
    ensures Valid(st.(open := Pop(st.open).value.2))
  {
    PopTakesMinTop(st.open);
    var rest: OpenSet := Pop(st.open).value.2;
    forall k: nat, i: int | k in rest && 0 <= i < |rest[k]| && rest[k][i].Pending?
      ensures rest[k][i].index < |st.arena|
    {
      assert rest[k][i] == st.open[k][i];
    }
  }

  /**
   From a well-formed state a turn never trips the empty-stack assertion,
   and the state it leaves for the next turn is well-formed again.
   */
  lemma StepValid(st: SearchState, start: Board)
    requires Valid(st)
    ensures st.open != map[] ==> Pop(st.open).Some?
    ensures Step(st, start).Skipped? || Step(st, start).Expanded? ==> Valid(Step(st, start).next)
  {
    if st.open != map[] {
      PopValid(st);
      var (_, slot, rest) := Pop(st.open).value;
      if slot.Pending? {
        VisitValid(st.(open := rest), slot.index, start);
      }
    }
  }

  lemma VisitValid(st: SearchState, cur: nat, start: Board)
    requires Valid(st)
    ensures Visit(st, cur, start).Expanded? ==> Valid(Visit(st, cur, start).next)
  {
    var s := ReconstructState(st.arena, cur, start);
    if s.Some? && !IsGoal(s.value.1) {
      ExpandValid(st, cur, s.value.0, Neighbours(s.value.1), 0);
    }
  }

  /** Whatever path the search returns is a legal play from the start board. */
  lemma FoundIsLegal(st: SearchState, start: Board)
    requires Step(st, start).Found?
    ensures Play(start, Step(st, start).path).Some?
  {
    var (_, slot, rest) := Pop(st.open).value;
    var st1 := st.(open := rest);
    var s := ReconstructState(st1.arena, slot.index, start).value;
    var e := Expand(st1, slot.index, s.0, Neighbours(s.1), 0);
    FinishIsLegal(e.st, slot.index, e.ordinal, start);
  }

  lemma FinishIsLegal(st: SearchState, cur: nat, k: nat, start: Board)
    requires Finish(st, cur, k, start).Found?
    ensures Play(start, Finish(st, cur, k, start).path).Some?
  {
    var rev := ReconstructRevMoves(st.arena + [IncrementalNode(cur, AsMoveIndex(k))], |st.arena|).value;
    ReplayIsFold(start, Reverse(rev));
  }

  /** On a board with at most 127 live cells, recording any move ordinal loses nothing. */
  lemma MoveIndexLossless(board: Board, k: nat)
    requires !IsGoal(board) && Live(board) <= 127 && k < |Moves(board)|
    ensures AsMoveIndex(k) == k
  {
    OrdinalsFitMoveIndex(board);
  }

  /**
   The goal test on generation: when arena entry `cur` rebuilds to `t.board`
   by the moves `t.moves`, and its `k`-th enumerated move reaches a goal,
   the goal branch returns `t.moves` followed by that move: a legal play
   from the start board that ends on the goal. The recorded ordinal is
   exact while at most 127 cells are live.
   */
  lemma GoalPath(st: SearchState, cur: nat, k: nat, start: Board, t: Trail)
    requires |st.arena| > 0
    requires ReconstructPath(st.arena, cur, start) == Some(t) && !IsGoal(t.board)
    requires k < |Moves(t.board)| && IsGoal(Neighbours(t.board)[k])
    requires Live(t.board) <= 127
    ensures Finish(st, cur, k, start).Found?
    ensures var path := Finish(st, cur, k, start).path;
      && path == t.moves + [Moves(t.board)[k]]
      && Play(start, path).Some?
      && IsGoal(Play(start, path).value)
  {
    MoveIndexLossless(t.board, k);
    var arena := st.arena;
    ExtendPath(arena, cur, k, start);
    var p := ReconstructPath(arena + [IncrementalNode(cur, k)], |arena|, start).value;
    ReplayIsFold(start, Reverse(ReconstructRevMoves(arena + [IncrementalNode(cur, k)], |arena|).value));
    MovesApplicable(t.board, k);
    var m := Moves(t.board)[k];
    assert p == Extend(t, k);
    assert p.moves == t.moves + [m];
  }
}
