/** Conway's Game of Life on a fixed-size board with clipped borders (no wraparound).

    A board is a value: `board[y][x]` is the cell in column x of row y.  The engine
    class keeps one board and replaces it wholesale once per generation.
 */
module Gol {

  datatype CellState = Alive | Dead {

    /** One-character diagnostic rendering of a cell. */
    function PrettyPrint(): (c: char)
      ensures c == 'A' <==> this == Alive
      ensures c == 'D' <==> this == Dead
    {
      match this
      case Alive => 'A'
      case Dead => 'D'
    }
  }

  /** The transition rule: a live cell survives on 2 or 3 live neighbours, a dead
      cell is born on exactly 3, every other cell is dead in the next generation. */
  function UpdateCell(state: CellState, neighbours: nat): (next: CellState)
    ensures next == Alive <==>
      (state == Alive && (neighbours == 2 || neighbours == 3)) || (state == Dead && neighbours == 3)
  {
    match state
    case Alive => if 2 <= neighbours < 4 then Alive else Dead
    case Dead => if neighbours == 3 then Alive else Dead
  }

  type Board = seq<seq<CellState>>

  /** A coordinate (x, y): column first, as the engine is indexed. */
  type Coord = (nat, nat)

  /** `b` has exactly `h` rows of exactly `w` cells each. */
  ghost predicate IsBoard(b: Board, w: nat, h: nat)
  {
    |b| == h && forall y :: 0 <= y < h ==> |b[y]| == w
  }

  /** The board of `h` rows of `w` Dead cells. */
  function DeadBoard(w: nat, h: nat): (b: Board)
    ensures IsBoard(b, w, h)
  {
    seq(h, _ => seq(w, _ => Dead))
  }

  /** 1 when (x, y) lies on the board and holds a live cell, 0 otherwise
      (in particular 0 for every coordinate off the board). */
  function AliveAt(b: Board, x: int, y: int): (n: nat)
    ensures n <= 1
  {
    if 0 <= y < |b| && 0 <= x < |b[y]| && b[y][x] == Alive then 1 else 0
  }

  /** Reference neighbour count: the live cells among the eight Moore neighbours of
      (x, y); neighbours off the board count as dead, so the border clips. */
  function LiveNeighbours(b: Board, x: nat, y: nat): (n: nat)
    ensures n <= 8
  {
    AliveAt(b, x - 1, y - 1) + AliveAt(b, x, y - 1) + AliveAt(b, x + 1, y - 1) +
    AliveAt(b, x - 1, y)                           + AliveAt(b, x + 1, y) +
    AliveAt(b, x - 1, y + 1) + AliveAt(b, x, y + 1) + AliveAt(b, x + 1, y + 1)
  }

  /** The next state of the cell at (x, y) of `b`. */
  function NextCell(b: Board, x: nat, y: nat): CellState
    requires y < |b| && x < |b[y]|
  {
    UpdateCell(b[y][x], LiveNeighbours(b, x, y))
  }

  /** The next generation: every cell is computed from `b` alone. */
  function Step(b: Board): (r: Board)
    ensures |r| == |b| && forall y :: 0 <= y < |b| ==> |r[y]| == |b[y]|
  {
    seq(|b|, y requires 0 <= y < |b| => seq(|b[y]|, x requires 0 <= x < |b[y]| => NextCell(b, x, y)))
  }

  /** A board of the right dimensions whose every cell is the next state of the
      matching cell of `b` is the next generation of `b`. */
  lemma StepCells(b: Board, r: Board, w: nat, h: nat)
    requires IsBoard(b, w, h) && IsBoard(r, w, h)
    requires forall y, x :: 0 <= y < h && 0 <= x < w ==> r[y][x] == NextCell(b, x, y)
    ensures r == Step(b)
  {
    BoardExtensionality(r, Step(b), w, h);
  }

  /** For any dimensions, the all-Dead board is a fixed point of `Step`. */
  lemma EmptyIsFixedPoint(w: nat, h: nat)
    ensures Step(DeadBoard(w, h)) == DeadBoard(w, h)
  {
    var d := DeadBoard(w, h);
    forall y, x | 0 <= y < h && 0 <= x < w
      ensures Step(d)[y][x] == d[y][x]
    {
      assert LiveNeighbours(d, x, y) == 0;
    }
    BoardExtensionality(Step(d), d, w, h);
  }

  /** Two boards of the same dimensions are equal iff they agree on every cell. */
  lemma BoardExtensionality(a: Board, b: Board, w: nat, h: nat)
    requires IsBoard(a, w, h) && IsBoard(b, w, h)
    requires forall y, x :: 0 <= y < h && 0 <= x < w ==> a[y][x] == b[y][x]
    ensures a == b
  {
    forall y | 0 <= y < h
      ensures a[y] == b[y]
    {
      assert forall x :: 0 <= x < w ==> a[y][x] == b[y][x];
    }
  }

  /** The number of live cells among the coordinates listed in `s`, counted with
      their repetitions; coordinates off the board count as dead. */
  function CountAlive(b: Board, s: seq<Coord>): nat
  {
    if s == [] then 0 else CountAlive(b, s[..|s| - 1]) + AliveAt(b, s[|s| - 1].0, s[|s| - 1].1)
  }

  lemma {:induction false} CountAliveConcat(b: Board, s: seq<Coord>, t: seq<Coord>)
    ensures CountAlive(b, s + t) == CountAlive(b, s) + CountAlive(b, t)
    decreases |t|
  {
    if t == [] {
      assert s + t == s;
    } else {
      assert (s + t)[..|s + t| - 1] == s + t[..|t| - 1];
      CountAliveConcat(b, s, t[..|t| - 1]);
    }
  }

  /** Extending a counted prefix by one coordinate adds that coordinate's cell. */
  lemma CountAlivePrefix(b: Board, s: seq<Coord>, i: nat)
    requires i < |s|
    ensures CountAlive(b, s[..i + 1]) == CountAlive(b, s[..i]) + AliveAt(b, s[i].0, s[i].1)
  {
    assert s[..i + 1][..i] == s[..i];
  }

  lemma CountAliveSingle(b: Board, s: seq<Coord>)
    requires |s| == 1
    ensures CountAlive(b, s) == AliveAt(b, s[0].0, s[0].1)
  {
  }

  ghost predicate Distinct(s: seq<Coord>)
  {
    forall i, j :: 0 <= i < j < |s| ==> s[i] != s[j]
  }

  lemma DistinctConcat(s: seq<Coord>, t: seq<Coord>)
    requires Distinct(s) && Distinct(t)
    requires forall p :: p in s ==> p !in t
    ensures Distinct(s + t)
  {
    forall i, j | 0 <= i < j < |s + t|
      ensures (s + t)[i] != (s + t)[j]
    {
      if i < |s| && |s| <= j {
        assert (s + t)[i] in s && (s + t)[j] == t[j - |s|];
      }
    }
  }

  /** `Vec::retain(|e| e != p)`: drop every occurrence of `p`, keep the order of the rest. */
  function Retain(s: seq<Coord>, p: Coord): (r: seq<Coord>)
    ensures forall e :: e in r <==> e in s && e != p
    ensures Distinct(s) ==> Distinct(r)
    ensures multiset(r) == multiset(s)[p := 0]
  {
    if s == [] then []
    else
      var rest := Retain(s[..|s| - 1], p);
      var last := s[|s| - 1];
      assert s == s[..|s| - 1] + [last];
      assert forall e :: e in s <==> e in s[..|s| - 1] || e == last;
      if last == p then rest
      else
        assert Distinct(s) ==> last !in s[..|s| - 1];
        rest + [last]
  }

  lemma {:induction false} RetainConcat(s: seq<Coord>, t: seq<Coord>, p: Coord)
    ensures Retain(s + t, p) == Retain(s, p) + Retain(t, p)
    decreases |t|
  {
    if t == [] {
      assert s + t == s;
    } else {
      assert (s + t)[..|s + t| - 1] == s + t[..|t| - 1];
      RetainConcat(s, t[..|t| - 1], p);
    }
  }

  lemma {:induction false} RetainAbsent(s: seq<Coord>, p: Coord)
    requires p !in s
    ensures Retain(s, p) == s
    decreases |s|
  {
    if s != [] {
      assert s[..|s| - 1] + [s[|s| - 1]] == s;
      RetainAbsent(s[..|s| - 1], p);
    }
  }

  /** Retaining everything but the head of a list that holds its head once drops
      exactly that head. */
  lemma {:induction false} RetainHead(s: seq<Coord>, p: Coord)
    requires |s| >= 1 && s[0] == p && p !in s[1..]
    ensures Retain(s, p) == s[1..]
  {
    var one: seq<Coord> := [p];
    assert s == one + s[1..];
    RetainConcat(one, s[1..], p);
    RetainAbsent(s[1..], p);
  }

  /** The engine: one board of W columns and H rows. */
  class GameOfLife {
    const W: nat
    const H: nat
    var board: Board

    ghost predicate Valid()
      reads this
    {
      IsBoard(board, W, H)
    }

    /** `GameOfLife::new()`: every cell Dead. */
    constructor New(w: nat, h: nat)
      ensures Valid() && W == w && H == h
      ensures forall y, x :: 0 <= y < h && 0 <= x < w ==> board[y][x] == Dead
    {
      W, H := w, h;
      board := DeadBoard(w, h);
    }

    /** `GameOfLife::from_board(b)`: the caller supplies every cell. */
    constructor FromBoard(w: nat, h: nat, b: Board)
      requires IsBoard(b, w, h)
      ensures Valid() && W == w && H == h && board == b
    {
      W, H := w, h;
      board := b;
    }

    /** `self[(x, y)]`: the cell in column x of row y. */
    function Get(x: nat, y: nat): (s: CellState)
      reads this
      requires Valid() && x < W && y < H
      ensures s == board[y][x]
    {
      board[y][x]
    }

    /** `self[(x, y)] = s` through `index_mut`: that one cell changes, no other. */
    method Set(x: nat, y: nat, s: CellState)
      requires Valid() && x < W && y < H
      modifies this
      ensures Valid()
      ensures board[y][x] == s
      ensures forall j, i :: 0 <= j < H && 0 <= i < W && (i, j) != (x, y) ==> board[j][i] == old(board)[j][i]
    {
      board := board[y := board[y][x := s]];
    }

    /** `y_permut(x, y)`: (x, y) followed by the vertical neighbours of (x, y) that
        lie on the board, each once. */
    function YPermut(x: nat, y: nat): (r: seq<Coord>)
      requires y < H
      ensures |r| >= 1 && r[0] == (x, y)
      ensures forall p: Coord :: p in r <==> p.0 == x && p.1 < H && p.1 <= y + 1 && y <= p.1 + 1
      ensures Distinct(r)
    {
      [(x, y)] + (if y > 0 then [(x, y - 1)] else []) + (if y < H - 1 then [(x, y + 1)] else [])
    }

    /** The list `count_neighbours` builds before counting: the three `y_permut`
        columns at x - 1, x + 1 and x (the side ones only when on the board), with
        the centre removed by `retain`.  It lists every on-board Moore neighbour of
        (x, y) exactly once and nothing else. */
    function NeighbourIndexes(x: nat, y: nat): (r: seq<Coord>)
      requires x < W && y < H
      ensures forall p: Coord :: p in r <==>
        p.0 < W && p.1 < H && p != (x, y) && p.0 <= x + 1 && x <= p.0 + 1 && p.1 <= y + 1 && y <= p.1 + 1
      ensures Distinct(r)
    {
      var left := if x > 0 then YPermut(x - 1, y) else [];
      var right := if x < W - 1 then YPermut(x + 1, y) else [];
      var centre := YPermut(x, y);
      NeighbourColumns(x, y, left, right, centre);
      Retain(left + right + centre, (x, y))
    }

    /** The three columns that `count_neighbours` concatenates are disjoint and
        together cover the 3-by-3 block around (x, y), clipped to the board. */
    lemma {:induction false} NeighbourColumns(x: nat, y: nat, left: seq<Coord>, right: seq<Coord>, centre: seq<Coord>)
      requires x < W && y < H
      requires left == if x > 0 then YPermut(x - 1, y) else []
      requires right == if x < W - 1 then YPermut(x + 1, y) else []
      requires centre == YPermut(x, y)
      ensures Distinct(left + right + centre)
      ensures forall p: Coord :: p in left + right + centre <==>
        p.0 < W && p.1 < H && p.0 <= x + 1 && x <= p.0 + 1 && p.1 <= y + 1 && y <= p.1 + 1
    {
      DistinctConcat(left, right);
      DistinctConcat(left + right, centre);
    }

    /** Counting a column built by `YPermut` counts the live cells at (x, y - 1),
        (x, y) and (x, y + 1). */
    lemma YPermutCount(b: Board, x: nat, y: nat)
      requires IsBoard(b, W, H) && y < H
      ensures CountAlive(b, YPermut(x, y)) == AliveAt(b, x, y - 1) + AliveAt(b, x, y) + AliveAt(b, x, y + 1)
      ensures CountAlive(b, YPermut(x, y)[1..]) == AliveAt(b, x, y - 1) + AliveAt(b, x, y + 1)
    {
      var centre: seq<Coord> := [(x, y)];
      var up: seq<Coord> := if y > 0 then [(x, y - 1)] else [];
      var down: seq<Coord> := if y < H - 1 then [(x, y + 1)] else [];
      assert YPermut(x, y) == centre + (up + down);
      assert YPermut(x, y)[1..] == up + down;
      CountAliveConcat(b, centre, up + down);
      CountAliveConcat(b, up, down);
      CountAliveSingle(b, centre);
      assert CountAlive(b, up) == AliveAt(b, x, y - 1) by {
        if y > 0 { CountAliveSingle(b, up); }
      }
      assert CountAlive(b, down) == AliveAt(b, x, y + 1) by {
        if y < H - 1 { CountAliveSingle(b, down); }
      }
    }

    /** `retain` only removes the head of the centre column. */
    lemma RetainCentre(x: nat, y: nat)
      requires x < W && y < H
      ensures NeighbourIndexes(x, y) ==
        (if x > 0 then YPermut(x - 1, y) else []) +
        (if x < W - 1 then YPermut(x + 1, y) else []) +
        YPermut(x, y)[1..]
    {
      var left := if x > 0 then YPermut(x - 1, y) else [];
      var right := if x < W - 1 then YPermut(x + 1, y) else [];
      RetainHead(YPermut(x, y), (x, y));
      RetainSides(x, y, left, right);
      RetainConcat(left + right, YPermut(x, y), (x, y));
    }

    lemma RetainSides(x: nat, y: nat, left: seq<Coord>, right: seq<Coord>)
      requires x < W && y < H
      requires left == if x > 0 then YPermut(x - 1, y) else []
      requires right == if x < W - 1 then YPermut(x + 1, y) else []
      ensures Retain(left + right, (x, y)) == left + right
    {
      RetainConcat(left, right, (x, y));
      RetainAbsent(left, (x, y));
      RetainAbsent(right, (x, y));
    }

    /** A side column is built only when it lies on the board; either way its count
        is that of the three cells at column c around row y. */
    lemma SideColumnCount(b: Board, c: int, y: nat, col: seq<Coord>)
      requires IsBoard(b, W, H) && y < H
      requires col == if 0 <= c < W then YPermut(c, y) else []
      ensures CountAlive(b, col) == AliveAt(b, c, y - 1) + AliveAt(b, c, y) + AliveAt(b, c, y + 1)
    {
      if 0 <= c < W {
        YPermutCount(b, c, y);
      }
    }

    /** Counting the live cells of `NeighbourIndexes` gives the reference count. */
    lemma NeighbourIndexesCount(b: Board, x: nat, y: nat)
      requires IsBoard(b, W, H) && x < W && y < H
      ensures CountAlive(b, NeighbourIndexes(x, y)) == LiveNeighbours(b, x, y)
    {
      RetainCentre(x, y);
      ColumnsCount(b, x, y,
        if x > 0 then YPermut(x - 1, y) else [],
        if x < W - 1 then YPermut(x + 1, y) else [],
        YPermut(x, y)[1..]);
    }

    lemma ColumnsCount(b: Board, x: nat, y: nat, left: seq<Coord>, right: seq<Coord>, rest: seq<Coord>)
      requires IsBoard(b, W, H) && x < W && y < H
      requires left == if x > 0 then YPermut(x - 1, y) else []
      requires right == if x < W - 1 then YPermut(x + 1, y) else []
      requires rest == YPermut(x, y)[1..]
      ensures CountAlive(b, left + right + rest) == LiveNeighbours(b, x, y)
    {
      SideColumnCount(b, x - 1, y, left);
      SideColumnCount(b, x + 1, y, right);
      YPermutCount(b, x, y);
      CountAliveConcat(b, left + right, rest);
      CountAliveConcat(b, left, right);
    }

    /** `count_neighbours(x, y)`: walks the neighbour list and counts the live cells. */
    method CountNeighbours(x: nat, y: nat) returns (n: nat)
      requires Valid() && x < W && y < H
      ensures n == LiveNeighbours(board, x, y)
      ensures n <= 8
    {
      var indexes := NeighbourIndexes(x, y);
      n := 0;
      for i := 0 to |indexes|
        invariant n == CountAlive(board, indexes[..i])
      {
        var (cx, cy) := indexes[i];
        assert indexes[i] in indexes;
        CountAlivePrefix(board, indexes, i);
        if board[cy][cx] == Alive {
          n := n + 1;
        }
      }
      assert indexes[..|indexes|] == indexes;
      NeighbourIndexesCount(board, x, y);
    }

    /** `update()`: fills a fresh board from the current one, then swaps it in.
        No cell of the new generation reads a cell of the new generation. */
    method Update()
      requires Valid()
      modifies this
      ensures Valid()
      ensures board == Step(old(board))
      ensures forall y, x :: 0 <= y < H && 0 <= x < W ==>
        board[y][x] == UpdateCell(old(board)[y][x], LiveNeighbours(old(board), x, y))
    {
      var newBoard := DeadBoard(W, H);
      for y := 0 to H
        invariant board == old(board)
        invariant |newBoard| == H
        invariant forall j :: 0 <= j < H ==> |newBoard[j]| == W
        invariant forall j, i :: 0 <= j < y && 0 <= i < W ==> newBoard[j][i] == NextCell(board, i, j)
      {
        for x := 0 to W
          invariant board == old(board)
          invariant |newBoard| == H
          invariant forall j :: 0 <= j < H ==> |newBoard[j]| == W
          invariant forall j, i :: 0 <= j < y && 0 <= i < W ==> newBoard[j][i] == NextCell(board, i, j)
          invariant forall i :: 0 <= i < x ==> newBoard[y][i] == NextCell(board, i, y)
        {
          var n := CountNeighbours(x, y);
          newBoard := newBoard[y := newBoard[y][x := UpdateCell(board[y][x], n)]];
        }
      }
      StepCells(board, newBoard, W, H);
      board := newBoard;
    }

    /** `PartialEq::eq`: compares the boards cell by cell and stops at the first
        difference. */
    method Eq(other: GameOfLife) returns (r: bool)
      requires Valid() && other.Valid() && other.W == W && other.H == H
      ensures r <==> forall y, x :: 0 <= y < H && 0 <= x < W ==> board[y][x] == other.board[y][x]
      ensures r <==> board == other.board
    {
      for y := 0 to H
        invariant forall j, i :: 0 <= j < y && 0 <= i < W ==> board[j][i] == other.board[j][i]
      {
        for x := 0 to W
          invariant forall j, i :: 0 <= j < y && 0 <= i < W ==> board[j][i] == other.board[j][i]
          invariant forall i :: 0 <= i < x ==> board[y][i] == other.board[y][i]
        {
          if board[y][x] != other.board[y][x] {
            return false;
          }
        }
      }
      BoardExtensionality(board, other.board, W, H);
      return true;
    }
  }
}
