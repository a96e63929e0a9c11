/** The peg solitaire solver: a recursive search that plays and takes back jumps on
    one shared board. */
module Solitaire {

  const N: int := 11 + 1      // length of a row, with its newline

  datatype Cell = Illegal | Peg | Hole
  datatype Jump = Jump(pos: nat, dir: int)
  type Board = seq<Cell>

  predicate Direction(dir: int) { dir == -1 || dir == -N || dir == 1 || dir == N }

  /** Two rows of illegal cells at either end: every cell that can hold a peg has
      all its neighbours, and theirs, on the board. */
  predicate Bordered(b: Board) {
    forall p: nat :: p < |b| && b[p] != Illegal ==> 2 * N <= p < |b| - 2 * N
  }

  predicate CanJump(b: Board, j: Jump) {
    && Direction(j.dir) && j.pos < |b| && 0 <= j.pos + 2 * j.dir < |b| && 0 <= j.pos + j.dir < |b|
    && b[j.pos] == Peg && b[j.pos + j.dir] == Peg && b[j.pos + 2 * j.dir] == Hole
  }

  function After(b: Board, j: Jump): (r: Board)
    requires CanJump(b, j)
  {
    b[j.pos := Hole][j.pos + j.dir := Hole][j.pos + 2 * j.dir := Peg]
  }

  function Pegs(b: Board): (r: nat) {
    if b == [] then 0 else Pegs(b[..|b| - 1]) + (if b[|b| - 1] == Peg then 1 else 0)
  }

  /** One peg is left, at the center if there is one. */
  predicate Won(b: Board, center: int) {
    Pegs(b) == 1 && (center < 0 || (center < |b| && b[center] == Peg))
  }

  /** The jumps can be played from b one after the other and end in b'. */
  ghost predicate Plays(b: Board, jumps: seq<Jump>, b': Board)
    decreases |jumps|
  {
    if jumps == [] then b == b'
    else CanJump(b, jumps[0]) && Plays(After(b, jumps[0]), jumps[1..], b')
  }

  /** Some sequence of legal jumps wins. */
  ghost predicate Solvable(b: Board, center: int) {
    exists jumps: seq<Jump>, b': Board :: Plays(b, jumps, b') && Won(b', center)
  }

  ghost predicate WonBy(b: Board, center: int, j: Jump) {
    CanJump(b, j) && Solvable(After(b, j), center)
  }

  lemma {:induction false} PegsUpdate(b: Board, i: nat, c: Cell)
    requires i < |b|
    ensures Pegs(b[i := c]) == Pegs(b) + (if c == Peg then 1 else 0) - (if b[i] == Peg then 1 else 0)
  {
    var b' := b[i := c];
    if i == |b| - 1 {
      assert b'[..|b| - 1] == b[..|b| - 1];
    } else {
      PegsUpdate(b[..|b| - 1], i, c);
      assert b'[..|b| - 1] == b[..|b| - 1][i := c];
    }
  }

  /** A jump removes one peg and keeps the shape of the board. */
  lemma JumpEffect(b: Board, j: Jump)
    requires CanJump(b, j)
    ensures Pegs(After(b, j)) == Pegs(b) - 1 && |After(b, j)| == |b|
    ensures Bordered(b) ==> Bordered(After(b, j))
  {
    var b1 := b[j.pos := Hole];
    var b2 := b1[j.pos + j.dir := Hole];
    PegsUpdate(b, j.pos, Hole);
    PegsUpdate(b1, j.pos + j.dir, Hole);
    PegsUpdate(b2, j.pos + 2 * j.dir, Peg);
    hide Pegs;
    assert forall p: nat :: p < |b| ==> (After(b, j)[p] == Illegal <==> b[p] == Illegal);
  }

  /** Winning is being won already or having a first jump after which one wins. */
  lemma SolvableStep(b: Board, center: int)
    ensures Solvable(b, center) <==> Won(b, center) || exists j: Jump :: WonBy(b, center, j)
  {
    if Won(b, center) {
      assert Plays(b, [], b);
    }
    if exists j: Jump :: WonBy(b, center, j) {
      var j :| WonBy(b, center, j);
      var jumps, b' :| Plays(After(b, j), jumps, b') && Won(b', center);
      assert ([j] + jumps)[1..] == jumps;
      assert Plays(b, [j] + jumps, b');
    }
    if Solvable(b, center) {
      var jumps, b' :| Plays(b, jumps, b') && Won(b', center);
      if jumps != [] {
        assert Plays(After(b, jumps[0]), jumps[1..], b');
        assert WonBy(b, center, jumps[0]);
      }
    }
  }

  class Game {
    const board: array<Cell>
    var center: int
    var moves: nat

    /** Remembers the position of the only hole, or -1. */
    constructor (cells: array<Cell>)
      ensures board == cells && moves == 0
      ensures center == -1 || 0 <= center < cells.Length
      ensures forall p: nat :: p < cells.Length ==> (OnlyHole(cells[..], p) <==> p == center)
    {
      board := cells;
      moves := 0;
      var c, n := -1, 0;
      for pos := 0 to cells.Length
        invariant n == 0 ==> forall p: nat :: p < pos ==> cells[p] != Hole
        invariant n == 1 ==> 0 <= c < pos && cells[c] == Hole && forall p: nat :: p < pos && p != c ==> cells[p] != Hole
        invariant n > 1 ==> exists p: nat, q: nat :: p < q < pos && cells[p] == Hole && cells[q] == Hole
        invariant n >= 0
      {
        if cells[pos] == Hole {
          c := pos;
          n := n + 1;
        }
      }
      center := if n != 1 then -1 else c;
    }

    /** Tests whether the peg at pos can jump in direction dir, and jumps. */
    method Move(pos: nat, dir: int) returns (ok: bool)
      requires Bordered(board[..]) && pos < board.Length && Direction(dir)
      modifies board, `moves
      ensures moves == old(moves) + 1
      ensures ok == CanJump(old(board[..]), Jump(pos, dir))
      ensures board[..] == if ok then After(old(board[..]), Jump(pos, dir)) else old(board[..])
    {
      moves := moves + 1;
      ghost var b := board[..];
      if board[pos] == Peg {
        assert b[pos] != Illegal;
        if board[pos + dir] == Peg && board[pos + 2 * dir] == Hole {
          board[pos] := Hole;
          board[pos + dir] := Hole;
          board[pos + 2 * dir] := Peg;
          assert board[..] == After(b, Jump(pos, dir));
          return true;
        }
      }
      return false;
    }

    /** Takes a jump back. */
    method Unmove(pos: nat, dir: int, ghost b: Board)
      requires CanJump(b, Jump(pos, dir)) && board[..] == After(b, Jump(pos, dir))
      modifies board
      ensures board[..] == b
    {
      assert |b| == board.Length;
      board[pos] := Peg;
      board[pos + dir] := Peg;
      board[pos + 2 * dir] := Hole;
    }

    /** The search terminates, leaves the board as it found it, and succeeds exactly
        when some sequence of legal jumps wins. */
    method Solve() returns (ok: bool)
      requires Bordered(board[..])
      modifies board, `moves
      ensures board[..] == old(board[..])
      ensures ok == Solvable(old(board[..]), center)
      decreases Pegs(board[..])
    {
      hide Solvable;
      hide Won;
      hide Bordered;
      hide CanJump;
      hide After;
      hide Pegs;
      ghost var b := board[..];
      var last, n := 0, 0;
      SolvableStep(b, center);
      NoPegs();
      for pos := 0 to board.Length
        invariant board[..] == b
        invariant n == Pegs(b[..pos])
        invariant n > 0 ==> 0 <= last < pos && b[last] == Peg
        invariant forall j: Jump :: j.pos < pos ==> !WonBy(b, center, j)
      {
        PegsPrefix(b, pos);
        if board[pos] == Peg {
          var dirs := [-1, -N, 1, N];
          for i := 0 to 4
            invariant board[..] == b
            invariant forall k: nat :: k < i ==> !WonBy(b, center, Jump(pos, dirs[k]))
          {
            var dir := dirs[i];
            var moved := Move(pos, dir);
            if moved {
              JumpEffect(b, Jump(pos, dir));
              var solved := Solve();
              Unmove(pos, dir, b);
              if solved {
                assert WonBy(b, center, Jump(pos, dir));
                return true;
              }
            }
          }
          assert !WonBy(b, center, Jump(pos, dirs[0])) && !WonBy(b, center, Jump(pos, dirs[1]));
          assert !WonBy(b, center, Jump(pos, dirs[2])) && !WonBy(b, center, Jump(pos, dirs[3]));
          OnlyFour(b, center, pos);
          last := pos;
          n := n + 1;
        } else {
          NoJump(b, center, pos);
        }
      }
      assert b[..|b|] == b;
      Ending(b, center, n, last);
      return n == 1 && (center < 0 || last == center);
    }
  }

  lemma NoPegs()
    ensures Pegs([]) == 0
  {
  }

  lemma PegsPrefix(b: Board, pos: nat)
    requires pos < |b|
    ensures Pegs(b[..pos + 1]) == Pegs(b[..pos]) + (if b[pos] == Peg then 1 else 0)
  {
    assert b[..pos + 1][..pos] == b[..pos];
  }

  lemma NoJump(b: Board, center: int, pos: nat)
    requires pos < |b| && b[pos] != Peg
    ensures forall j: Jump :: j.pos == pos ==> !WonBy(b, center, j)
  {
  }

  /** The test at the end of the search is the winning condition. */
  lemma Ending(b: Board, center: int, n: nat, last: nat)
    requires n == Pegs(b) && (n > 0 ==> last < |b| && b[last] == Peg)
    ensures Won(b, center) <==> n == 1 && (center < 0 || last == center)
    ensures forall j: Jump :: WonBy(b, center, j) ==> j.pos < |b|
  {
    LastPeg(b, last);
  }

  predicate OnlyHole(b: Board, p: nat) {
    p < |b| && b[p] == Hole && forall q: nat :: q < |b| && q != p ==> b[q] != Hole
  }

  lemma OnlyFour(b: Board, center: int, pos: nat)
    requires !WonBy(b, center, Jump(pos, -1)) && !WonBy(b, center, Jump(pos, -N))
    requires !WonBy(b, center, Jump(pos, 1)) && !WonBy(b, center, Jump(pos, N))
    ensures forall j: Jump :: j.pos == pos ==> !WonBy(b, center, j)
  {
  }

  /** With a single peg, every peg found is that one. */
  lemma {:induction false} LastPeg(b: Board, last: nat)
    requires Pegs(b) == 1 ==> last < |b| && b[last] == Peg
    ensures Pegs(b) == 1 ==> forall p: nat :: p < |b| && b[p] == Peg ==> p == last
  {
    if Pegs(b) == 1 {
      forall p: nat | p < |b| && b[p] == Peg ensures p == last {
        if p != last {
          PegsUpdate(b, p, Hole);
          PegsUpdate(b[p := Hole], last, Hole);
        }
      }
    }
  }

  /** The rows of the board, N cells long with the newline: jumps along the border of
      two illegal columns never leave their row or column. */
  predicate BorderedColumns(b: Board) {
    forall p: nat :: p < |b| && b[p] != Illegal ==> 2 <= p % N < N - 3
  }

  lemma JumpsAreStraight(b: Board, j: Jump)
    requires BorderedColumns(b) && CanJump(b, j)
    ensures var e := j.pos + 2 * j.dir;
            if j.dir == 1 || j.dir == -1 then e / N == j.pos / N && e % N == j.pos % N + 2 * j.dir
            else e % N == j.pos % N && e / N == j.pos / N + 2 * (j.dir / N)
  {
    var e := j.pos + 2 * j.dir;
    assert b[j.pos] != Illegal && b[e] != Illegal;
  }
}
