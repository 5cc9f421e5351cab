/**
 Path reconstruction. The search keeps an append-only arena of
 `IncrementalNode`s, each naming its parent's arena index and the ordinal
 of the move that led to it in the parent's enumeration. A board is never
 stored: it is rebuilt by walking the parent links back to the root at
 index 0 (`reconstruct_rev_moves`) and replaying the ordinals, oldest
 first, against the start board (`reconstruct_path`).
 */
module Paths {
  import opened Wrappers
  import opened Boards
  import opened Enumeration
  import opened Heuristic

  /** One arena entry: the parent's arena index and the ordinal of the move from it. */
  datatype IncrementalNode = IncrementalNode(prevIndex: nat, moveIndex: nat)

  type Arena = seq<IncrementalNode>

  /** `move_index as u8`: an entry records its move ordinal modulo 256. */
  function AsMoveIndex(k: nat): (r: nat)
    ensures r < 256
    ensures k < 256 ==> r == k
  {
    k % 256
  }

  /** A replayed path: the moves taken and the board they lead to. */
  datatype Trail = Trail(moves: seq<BoardMove>, board: Board)

  // ---------------------------------------------------------------------
  // Walking the parent links

  /**
   The loop of `reconstruct_rev_moves` from index `i`, allowed `fuel`
   steps: the ordinals from `i` back to the root, nearest first. `None`
   when the walk leaves the arena (where the source's indexing panics) or
   runs out of steps (on a cyclic arena the source never stops).
   */
  function RevMovesFuel(arena: Arena, i: nat, fuel: nat): Option<seq<nat>>
    decreases fuel
  {
    if i == 0 then Some([])
    else if i >= |arena| || fuel == 0 then None
    else
      var rest := RevMovesFuel(arena, arena[i].prevIndex, fuel - 1);
      if rest.None? then None else Some([arena[i].moveIndex] + rest.value)
  }

  /** `reconstruct_rev_moves`: an acyclic walk visits each arena entry at most once. */
  function ReconstructRevMoves(arena: Arena, i: nat): Option<seq<nat>> {
    RevMovesFuel(arena, i, |arena|)
  }

  /**
   `rank` gives every arena entry its depth: the root 0, every other entry
   one more than its parent, which lies inside the arena.
   */
  predicate Ranked(arena: Arena, rank: seq<nat>) {
    && |arena| > 0 && |rank| == |arena| && rank[0] == 0
    && forall i :: 0 < i < |arena| ==>
         arena[i].prevIndex < |arena| && rank[i] == rank[arena[i].prevIndex] + 1
  }

  /** The arena entries on the walk from `i` to the root. */
  function ChainSet(arena: Arena, rank: seq<nat>, i: nat): set<nat>
    requires Ranked(arena, rank) && i < |arena|
    decreases rank[i]
  {
    if i == 0 then {0} else {i} + ChainSet(arena, rank, arena[i].prevIndex)
  }

  lemma {:induction false} ChainSetShape(arena: Arena, rank: seq<nat>, i: nat)
    requires Ranked(arena, rank) && i < |arena|
    ensures |ChainSet(arena, rank, i)| == rank[i] + 1
    ensures forall j :: j in ChainSet(arena, rank, i) ==> j < |arena| && rank[j] <= rank[i]
    decreases rank[i]
  {
    if i != 0 {
      var p := arena[i].prevIndex;
      ChainSetShape(arena, rank, p);
      assert i !in ChainSet(arena, rank, p);
    }
  }

  /** A set of indices below `n` has at most `n` members. */
  lemma {:induction false} BoundedSetSize(s: set<nat>, n: nat)
    requires forall j :: j in s ==> j < n
    ensures |s| <= n
  {
    if n == 0 {
      assert s == {};
    } else {
      BoundedSetSize(s - {n - 1}, n - 1);
    }
  }

  /** A depth is always below the arena size: the walk to the root cannot repeat an entry. */
  lemma RankBelowSize(arena: Arena, rank: seq<nat>, i: nat)
    requires Ranked(arena, rank) && i < |arena|
    ensures rank[i] < |arena|
  {
    ChainSetShape(arena, rank, i);
    BoundedSetSize(ChainSet(arena, rank, i), |arena|);
  }

  lemma {:induction false} RankedWalk(arena: Arena, rank: seq<nat>, i: nat, fuel: nat)
    requires Ranked(arena, rank) && i < |arena| && rank[i] <= fuel
    ensures RevMovesFuel(arena, i, fuel).Some?
    ensures |RevMovesFuel(arena, i, fuel).value| == rank[i]
    decreases rank[i]
  {
    if i != 0 {
      RankedWalk(arena, rank, arena[i].prevIndex, fuel - 1);
    }
  }

  /** On a ranked arena the walk always reaches the root, collecting one ordinal per level. */
  lemma RevMovesDepth(arena: Arena, rank: seq<nat>, i: nat)
    requires Ranked(arena, rank) && i < |arena|
    ensures ReconstructRevMoves(arena, i).Some?
    ensures |ReconstructRevMoves(arena, i).value| == rank[i]
  {
    RankBelowSize(arena, rank, i);
    RankedWalk(arena, rank, i, |arena|);
  }

  /** More steps do not change a walk that already reached the root. */
  lemma {:induction false} FuelMonotone(arena: Arena, i: nat, fuel: nat, more: nat)
    requires RevMovesFuel(arena, i, fuel).Some? && fuel <= more
    ensures RevMovesFuel(arena, i, more) == RevMovesFuel(arena, i, fuel)
    decreases fuel
  {
    if i != 0 {
      FuelMonotone(arena, arena[i].prevIndex, fuel - 1, more - 1);
    }
  }

  /** Appending to the arena does not change a walk that already reached the root. */
  lemma {:induction false} WalkInPrefix(arena: Arena, extra: Arena, i: nat, fuel: nat)
    requires RevMovesFuel(arena, i, fuel).Some?
    ensures RevMovesFuel(arena + extra, i, fuel) == RevMovesFuel(arena, i, fuel)
    decreases fuel
  {
    if i != 0 {
      assert (arena + extra)[i] == arena[i];
      WalkInPrefix(arena, extra, arena[i].prevIndex, fuel - 1);
    }
  }

  // ---------------------------------------------------------------------
  // Replaying ordinals

  function Reverse<T>(s: seq<T>): (r: seq<T>)
    ensures |r| == |s|
    ensures forall k :: 0 <= k < |s| ==> r[k] == s[|s| - 1 - k]
  {
    if s == [] then [] else Reverse(s[1..]) + [s[0]]
  }

  lemma ReverseCons<T>(x: T, s: seq<T>)
    ensures Reverse([x] + s) == Reverse(s) + [x]
  {
    assert ([x] + s)[1..] == s;
  }

  lemma ReverseSnoc<T>(s: seq<T>, x: T)
    ensures Reverse(s + [x]) == [x] + Reverse(s)
  {
  }

  /** The trail `t` followed by the `k`-th enumerated move of its board. */
  function Extend(t: Trail, k: nat): Trail
    requires !IsGoal(t.board) && k < |Moves(t.board)|
  {
    MovesApplicable(t.board, k);
    var m := Moves(t.board)[k];
    Trail(t.moves + [m], ApplyMove(t.board, m))
  }

  /**
   The loop of `reconstruct_path`: replay `ords` from `b`, oldest first,
   each ordinal the position of the move in the current board's
   enumeration. `None` where the source panics: a board without live cells
   has no enumerator, and an ordinal past the last move fails the `unwrap`.
   */
  function Replay(b: Board, ords: seq<nat>): Option<Trail>
    decreases |ords|
  {
    if ords == [] then Some(Trail([], b))
    else
      var prev := Replay(b, ords[..|ords| - 1]);
      var k := ords[|ords| - 1];
      if prev.None? || IsGoal(prev.value.board) || k >= |Moves(prev.value.board)| then None
      else Some(Extend(prev.value, k))
  }

  /** Applying moves one after the other, as long as each is applicable. */
  function Play(b: Board, ms: seq<BoardMove>): Option<Board>
    decreases |ms|
  {
    if ms == [] then Some(b)
    else
      var prev := Play(b, ms[..|ms| - 1]);
      var m := ms[|ms| - 1];
      if prev.None? || !Applicable(prev.value, m) then None
      else Some(ApplyMove(prev.value, m))
  }

  /** One more ordinal replays one more enumerated move from where the replay ended. */
  lemma ReplaySnoc(b: Board, ords: seq<nat>, k: nat)
    requires Replay(b, ords).Some?
    requires !IsGoal(Replay(b, ords).value.board) && k < |Moves(Replay(b, ords).value.board)|
    ensures Replay(b, ords + [k]) == Some(Extend(Replay(b, ords).value, k))
  {
    assert (ords + [k])[..|ords|] == ords;
  }

  /** A replay yields one move per ordinal, and its board is the fold of `apply_move` over them. */
  lemma {:induction false} ReplayIsFold(b: Board, ords: seq<nat>)
    requires Replay(b, ords).Some?
    ensures |Replay(b, ords).value.moves| == |ords|
    ensures Play(b, Replay(b, ords).value.moves) == Some(Replay(b, ords).value.board)
    decreases |ords|
  {
    if ords != [] {
      var init := ords[..|ords| - 1];
      ReplayIsFold(b, init);
      var t := Replay(b, init).value;
      var ms := Replay(b, ords).value.moves;
      assert ms == t.moves + [Moves(t.board)[ords[|ords| - 1]]];
      assert ms[..|ms| - 1] == t.moves;
    }
  }

  /**
   The score of the start board is at most the length of a replay plus the
   score of the board it ends on; a replay that ends on a goal board is
   therefore at least as long as the start board's score.
   */
  lemma {:induction false} ReplayAdmissible(b: Board, ords: seq<nat>)
    requires Replay(b, ords).Some?
    ensures HScore(b) <= |ords| + HScore(Replay(b, ords).value.board)
    decreases |ords|
  {
    if ords != [] {
      var init := ords[..|ords| - 1];
      ReplayAdmissible(b, init);
      HConsistent(Replay(b, init).value.board, ords[|ords| - 1]);
    }
  }

  // ---------------------------------------------------------------------
  // reconstruct_path and reconstruct_state

  /** `reconstruct_path`: walk to the root, then replay the ordinals oldest first. */
  function ReconstructPath(arena: Arena, i: nat, start: Board): Option<Trail> {
    var rev := ReconstructRevMoves(arena, i);
    if rev.None? then None else Replay(start, Reverse(rev.value))
  }

  /** `reconstruct_state`: the number of moves taken (the `Cost` g) and the board reached. */
  function ReconstructState(arena: Arena, i: nat, start: Board): Option<(nat, Board)> {
    var t := ReconstructPath(arena, i, start);
    if t.None? then None else Some((|t.value.moves|, t.value.board))
  }

  /** The root entry stands for the start board itself, reached by no move. */
  lemma RootIsStart(arena: Arena, start: Board)
    ensures ReconstructRevMoves(arena, 0) == Some([])
    ensures ReconstructPath(arena, 0, start) == Some(Trail([], start))
    ensures ReconstructState(arena, 0, start) == Some((0, start))
  {
    assert Reverse<nat>([]) == [];
  }

  /** The cost `reconstruct_state` reports is the entry's depth. */
  lemma StateCostIsDepth(arena: Arena, rank: seq<nat>, i: nat, start: Board)
    requires Ranked(arena, rank) && i < |arena|
    requires ReconstructState(arena, i, start).Some?
    ensures ReconstructState(arena, i, start).value.0 == rank[i]
  {
    RevMovesDepth(arena, rank, i);
    var rev := ReconstructRevMoves(arena, i).value;
    ReplayIsFold(start, Reverse(rev));
  }

  /**
   Appending a child of entry `cur` for its `k`-th move extends the path
   of `cur` by exactly that move: the step the search takes when it pushes
   a successor and, on a goal, reconstructs its path at once.
   */
  lemma ExtendPath(arena: Arena, cur: nat, k: nat, start: Board)
    requires |arena| > 0
    requires ReconstructPath(arena, cur, start).Some?
    requires !IsGoal(ReconstructPath(arena, cur, start).value.board)
    requires k < |Moves(ReconstructPath(arena, cur, start).value.board)|
    ensures ReconstructPath(arena + [IncrementalNode(cur, k)], |arena|, start).Some?
    ensures ReconstructPath(arena + [IncrementalNode(cur, k)], |arena|, start)
      == Some(Extend(ReconstructPath(arena, cur, start).value, k))
  {
    var node := IncrementalNode(cur, k);
    var arena' := arena + [node];
    var rev := ReconstructRevMoves(arena, cur).value;
    WalkInPrefix(arena, [node], cur, |arena|);
    assert arena'[|arena|] == node;
    assert RevMovesFuel(arena', |arena|, |arena'|) == Some([k] + rev);
    ReverseCons(k, rev);
    ReplaySnoc(start, Reverse(rev), k);
  }

  // ---------------------------------------------------------------------
  // Recording a play and replaying it

  /** `ms` can be played from `b` with every move taken from the enumeration. */
  predicate Enumerable(b: Board, ms: seq<BoardMove>)
    decreases |ms|
  {
    if ms == [] then true
    else
      var prev := Play(b, ms[..|ms| - 1]);
      && Enumerable(b, ms[..|ms| - 1])
      && prev.Some? && !IsGoal(prev.value)
      && ms[|ms| - 1] in Moves(prev.value)
  }

  /** The first position of `x` in `s`, as `enumerate()` numbers it. */
  function IndexOf<T(==)>(s: seq<T>, x: T): (r: nat)
    requires x in s
    ensures r < |s| && s[r] == x
    ensures forall j :: 0 <= j < r ==> s[j] != x
  {
    if s[0] == x then 0 else 1 + IndexOf(s[1..], x)
  }

  /** The ordinal of each move of `ms` in the enumeration of the board it is played on. */
  function Ordinals(b: Board, ms: seq<BoardMove>): (r: seq<nat>)
    requires Enumerable(b, ms)
    ensures |r| == |ms|
    decreases |ms|
  {
    if ms == [] then []
    else
      var init := ms[..|ms| - 1];
      Ordinals(b, init) + [IndexOf(Moves(Play(b, init).value), ms[|ms| - 1])]
  }

  /** A linear arena: the root, then entry `k + 1` is the child of entry `k` by ordinal `ords[k]`. */
  function Record(ords: seq<nat>): (r: Arena)
    ensures |r| == |ords| + 1
  {
    [IncrementalNode(0, 0)] + seq(|ords|, k requires 0 <= k < |ords| => IncrementalNode(k, ords[k]))
  }

  lemma {:induction false} RecordWalk(ords: seq<nat>, j: nat, fuel: nat)
    requires j <= |ords| && j <= fuel
    ensures RevMovesFuel(Record(ords), j, fuel) == Some(Reverse(ords[..j]))
    decreases j
  {
    if j == 0 {
      assert ords[..0] == [];
    } else {
      RecordWalk(ords, j - 1, fuel - 1);
      assert Record(ords)[j] == IncrementalNode(j - 1, ords[j - 1]);
      assert ords[..j] == ords[..j - 1] + [ords[j - 1]];
      ReverseSnoc(ords[..j - 1], ords[j - 1]);
    }
  }

  /** A non-empty sequence is its prefix followed by its last element. */
  lemma InitLast<T>(s: seq<T>)
    requires |s| > 0
    ensures s[..|s| - 1] + [s[|s| - 1]] == s
  {
  }

  lemma {:induction false} ReplayOrdinals(b: Board, ms: seq<BoardMove>)
    requires Enumerable(b, ms)
    ensures Play(b, ms).Some?
    ensures Replay(b, Ordinals(b, ms)) == Some(Trail(ms, Play(b, ms).value))
    decreases |ms|
  {
    if ms != [] {
      var init := ms[..|ms| - 1];
      var m := ms[|ms| - 1];
      ReplayOrdinals(b, init);
      var p := Play(b, init).value;
      var k := IndexOf(Moves(p), m);
      MovesApplicable(p, k);
      assert Play(b, ms) == Some(ApplyMove(p, m));
      var os := Ordinals(b, init);
      assert Ordinals(b, ms) == os + [k];
      ReplaySnoc(b, os, k);
      InitLast(ms);
      assert Extend(Trail(init, p), k) == Trail(ms, ApplyMove(p, m));
    }
  }

  /**
   Round trip: record the ordinals of an enumerable play in a linear arena;
   reconstructing its last entry yields exactly those moves and the board
   they lead to.
   */
  lemma RecordRoundTrip(start: Board, ms: seq<BoardMove>)
    requires Enumerable(start, ms)
    ensures Play(start, ms).Some?
    ensures ReconstructPath(Record(Ordinals(start, ms)), |ms|, start) == Some(Trail(ms, Play(start, ms).value))
  {
    var ords := Ordinals(start, ms);
    RecordWalk(ords, |ms|, |ms| + 1);
    assert ords[..|ms|] == ords;
    ReverseReverse(ords);
    ReplayOrdinals(start, ms);
  }

  lemma ReverseReverse<T>(s: seq<T>)
    ensures Reverse(Reverse(s)) == s
  {
  }
}
