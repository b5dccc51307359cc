/** The unit tests of the engine, as lemmas about the next-generation function and as
    client methods that drive the engine class the way the tests do. */
module GolTests {
  import opened Gol

  /** The board after `n` generations. */
  function StepN(b: Board, n: nat): Board
  {
    if n == 0 then b else Step(StepN(b, n - 1))
  }

  function AllAlive(w: nat, h: nat): (b: Board)
    ensures IsBoard(b, w, h)
  {
    seq(h, _ => seq(w, _ => Alive))
  }

  predicate IsCorner(w: nat, h: nat, x: int, y: int)
  {
    (x == 0 || x == w - 1) && (y == 0 || y == h - 1)
  }

  predicate OnEdge(w: nat, h: nat, x: nat, y: nat)
  {
    x == 0 || x == w - 1 || y == 0 || y == h - 1
  }

  /** Alive exactly at the four corners. */
  function CornersOnly(w: nat, h: nat): (b: Board)
    ensures IsBoard(b, w, h)
  {
    seq(h, y => seq(w, x => if IsCorner(w, h, x, y) then Alive else Dead))
  }

  /** On a board that is alive everywhere, a corner cell has 3 live neighbours, any
      other border cell 5 and an interior cell 8. */
  lemma AllAliveNeighbours(w: nat, h: nat, x: nat, y: nat)
    requires 2 <= w && 2 <= h && x < w && y < h
    ensures IsCorner(w, h, x, y) ==> LiveNeighbours(AllAlive(w, h), x, y) == 3
    ensures OnEdge(w, h, x, y) && !IsCorner(w, h, x, y) ==> LiveNeighbours(AllAlive(w, h), x, y) == 5
    ensures !OnEdge(w, h, x, y) ==> LiveNeighbours(AllAlive(w, h), x, y) == 8
  {
  }

  /** Overcrowding: a board alive everywhere keeps only its four corners. */
  lemma AllAliveStep(w: nat, h: nat)
    requires 2 <= w && 2 <= h
    ensures Step(AllAlive(w, h)) == CornersOnly(w, h)
  {
    var b := AllAlive(w, h);
    forall y, x | 0 <= y < h && 0 <= x < w
      ensures CornersOnly(w, h)[y][x] == NextCell(b, x, y)
    {
      AllAliveNeighbours(w, h, x, y);
    }
    StepCells(b, CornersOnly(w, h), w, h);
  }

  /** On a board of at least 3 by 3, four lone corners die and nothing is born. */
  lemma CornersStep(w: nat, h: nat)
    requires 3 <= w && 3 <= h
    ensures Step(CornersOnly(w, h)) == DeadBoard(w, h)
  {
    var b := CornersOnly(w, h);
    forall y, x | 0 <= y < h && 0 <= x < w
      ensures DeadBoard(w, h)[y][x] == NextCell(b, x, y)
    {
      var n := LiveNeighbours(b, x, y);
      assert n != 3;
      assert IsCorner(w, h, x, y) ==> n == 0;
    }
    StepCells(b, DeadBoard(w, h), w, h);
  }

  const D := Dead
  const A := Alive

  const Start6: Board := [
    [A, A, A, A, A, A],
    [A, A, A, A, A, A],
    [A, A, A, A, A, A],
    [A, A, A, A, A, A],
    [A, A, A, A, A, A],
    [A, A, A, A, A, A]]

  const Middle6: Board := [
    [A, D, D, D, D, A],
    [D, D, D, D, D, D],
    [D, D, D, D, D, D],
    [D, D, D, D, D, D],
    [D, D, D, D, D, D],
    [A, D, D, D, D, A]]

  /** `test_overcrowding`: the full 6-by-6 board steps to its corners, which differ
      from it, and then to the empty board. */
  lemma Overcrowding()
    ensures Step(Start6) == Middle6
    ensures Start6 != Middle6
    ensures Step(Middle6) == DeadBoard(6, 6)
  {
    BoardExtensionality(Start6, AllAlive(6, 6), 6, 6);
    BoardExtensionality(Middle6, CornersOnly(6, 6), 6, 6);
    AllAliveStep(6, 6);
    CornersStep(6, 6);
    assert Start6[0][1] != Middle6[0][1];
  }

  const Vertical: Board := [[D, A, D], [D, A, D], [D, A, D]]
  const Horizontal: Board := [[D, D, D], [A, A, A], [D, D, D]]

  /** The blinker flips between its vertical and horizontal phases. */
  lemma BlinkerStep()
    ensures Step(Vertical) == Horizontal
    ensures Step(Horizontal) == Vertical
  {
    forall y, x | 0 <= y < 3 && 0 <= x < 3
      ensures Horizontal[y][x] == NextCell(Vertical, x, y)
      ensures Vertical[y][x] == NextCell(Horizontal, x, y)
    {
      assert y == 0 || y == 1 || y == 2;
      assert x == 0 || x == 1 || x == 2;
    }
    StepCells(Vertical, Horizontal, 3, 3);
    StepCells(Horizontal, Vertical, 3, 3);
  }

  /** `test_repeat`: the blinker has period 2, from generation 0 on. */
  lemma {:induction false} BlinkerPeriod(n: nat)
    ensures StepN(Vertical, 2 * n) == Vertical
    ensures StepN(Vertical, 2 * n + 1) == Horizontal
  {
    BlinkerStep();
    if n > 0 {
      BlinkerPeriod(n - 1);
      assert StepN(Vertical, 2 * n) == Step(Step(StepN(Vertical, 2 * (n - 1))));
    }
  }

  const Block: Board := [[D, D, D, D], [D, A, A, D], [D, A, A, D], [D, D, D, D]]

  /** The centred 2-by-2 block is unchanged by one generation. */
  lemma BlockStep()
    ensures Step(Block) == Block
  {
    forall y, x | 0 <= y < 4 && 0 <= x < 4
      ensures Block[y][x] == NextCell(Block, x, y)
    {
      assert y == 0 || y == 1 || y == 2 || y == 3;
      assert x == 0 || x == 1 || x == 2 || x == 3;
    }
    StepCells(Block, Block, 4, 4);
  }

  /** `test_persist`: the block is a still life, whatever the number of generations. */
  lemma {:induction false} BlockIsStill(n: nat)
    ensures StepN(Block, n) == Block
  {
    if n > 0 {
      BlockIsStill(n - 1);
      BlockStep();
    }
  }

  /** `test_empty`: the empty board stays empty for ever. */
  lemma {:induction false} EmptyStaysEmpty(w: nat, h: nat, n: nat)
    ensures StepN(DeadBoard(w, h), n) == DeadBoard(w, h)
  {
    if n > 0 {
      EmptyStaysEmpty(w, h, n - 1);
      EmptyIsFixedPoint(w, h);
    }
  }

  /** `test_empty`: a fresh engine equals a fresh engine stepped once. */
  method TestEmpty() returns (same: bool)
    ensures same
  {
    var defaultGol := new GameOfLife.New(6, 6);
    var updateGol := new GameOfLife.New(6, 6);
    BoardExtensionality(updateGol.board, DeadBoard(6, 6), 6, 6);
    EmptyIsFixedPoint(6, 6);
    updateGol.Update();
    same := defaultGol.Eq(updateGol);
  }

  /** `test_overcrowding`: the full board, stepped once, equals the corners board and
      differs from the start board; stepped again, it equals the empty board. */
  method TestOvercrowding() returns (middleAfterOne: bool, startAfterOne: bool, emptyAfterTwo: bool)
    ensures middleAfterOne && !startAfterOne && emptyAfterTwo
  {
    var defaultGol := new GameOfLife.New(6, 6);
    BoardExtensionality(defaultGol.board, DeadBoard(6, 6), 6, 6);
    var middleGol := new GameOfLife.FromBoard(6, 6, Middle6);
    var startGol := new GameOfLife.FromBoard(6, 6, Start6);
    var updateGol := new GameOfLife.FromBoard(6, 6, Start6);
    Overcrowding();
    updateGol.Update();
    middleAfterOne := middleGol.Eq(updateGol);
    startAfterOne := startGol.Eq(updateGol);
    updateGol.Update();
    emptyAfterTwo := defaultGol.Eq(updateGol);
  }

  /** `test_repeat`: the blinker engine equals the vertical engine at generations 0
      and 2 and the horizontal engine at generations 1 and 3. */
  method TestRepeat() returns (vertical0: bool, horizontal1: bool, vertical2: bool, horizontal3: bool)
    ensures vertical0 && horizontal1 && vertical2 && horizontal3
  {
    var aGol := new GameOfLife.FromBoard(3, 3, Vertical);
    var bGol := new GameOfLife.FromBoard(3, 3, Horizontal);
    var updateGol := new GameOfLife.FromBoard(3, 3, Vertical);
    BlinkerStep();
    vertical0 := aGol.Eq(updateGol);
    updateGol.Update();
    horizontal1 := bGol.Eq(updateGol);
    updateGol.Update();
    vertical2 := aGol.Eq(updateGol);
    updateGol.Update();
    horizontal3 := bGol.Eq(updateGol);
  }

  /** `test_persist`: the block engine equals its start at generations 0 to 3. */
  method TestPersist() returns (same0: bool, same1: bool, same2: bool, same3: bool)
    ensures same0 && same1 && same2 && same3
  {
    var defaultGol := new GameOfLife.FromBoard(4, 4, Block);
    var updateGol := new GameOfLife.FromBoard(4, 4, Block);
    BlockStep();
    same0 := defaultGol.Eq(updateGol);
    updateGol.Update();
    same1 := defaultGol.Eq(updateGol);
    updateGol.Update();
    same2 := defaultGol.Eq(updateGol);
    updateGol.Update();
    same3 := defaultGol.Eq(updateGol);
  }
}
