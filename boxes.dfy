/**
 * Tile bookkeeping of the 2048 board game: the tile components, the mapping
 * from arrow keys to shift directions, the enumeration of board cells, the
 * spawning of the two starting tiles, and the shift system, which so far only
 * orders the tiles for a Left shift and changes nothing.
 *
 * Rendering, fonts, the camera and the floating-point board geometry are not
 * modelled; the random choice of starting cells is a parameter.
 */
module Boxes {
  import opened Outcomes

  type u8 = x: int | 0 <= x < 0x100
  type u32 = x: int | 0 <= x < 0x1_0000_0000

  function Min(a: int, b: int): int
  {
    if a <= b then a else b
  }

  /** The `Points` component. */
  datatype Points = Points(value: u32)

  /** The `Position` component: a cell of the board. */
  datatype Position = Position(x: u8, y: u8)

  /** An entity carrying a `Position` and a `Points` component. */
  datatype Tile = Tile(entity: nat, position: Position, points: Points)

  /** The `Board` component; its physical size is only used for drawing. */
  datatype Board = Board(size: u8)

  /** `spawn_board` builds a 4 by 4 board. */
  const StartingBoard: Board := Board(4)

  /** The value of a freshly spawned tile. */
  const SpawnValue: u32 := 2

  // ---------------------------------------------------------------------------
  // Keys and directions
  // ---------------------------------------------------------------------------

  /** The arrow keys, and every other key of the keyboard. */
  datatype KeyCode = Left | Right | Up | Down | OtherKey(code: nat)

  datatype BoardShift = Left | Right | Up | Down

  /** `BoardShift::try_from(&KeyCode)`. */
  function ShiftOfKey(key: KeyCode): Result<BoardShift, string>
  {
    match key
    case Left => Ok(BoardShift.Left)
    case Right => Ok(BoardShift.Right)
    case Up => Ok(BoardShift.Up)
    case Down => Ok(BoardShift.Down)
    case OtherKey(_) => Err("")
  }

  /** The arrow key named like a direction. */
  function KeyOfShift(d: BoardShift): KeyCode
  {
    match d
    case Left => KeyCode.Left
    case Right => KeyCode.Right
    case Up => KeyCode.Up
    case Down => KeyCode.Down
  }

  /** A key converts to a direction exactly when it is that direction's arrow key; all other keys fail. */
  lemma ShiftOfKeyIsArrowKey(key: KeyCode, d: BoardShift)
    ensures ShiftOfKey(key) == Ok(d) <==> key == KeyOfShift(d)
    ensures ShiftOfKey(key).Err? <==> key.OtherKey?
  {
  }

  /**
   * The direction of the first just-pressed key that converts to one
   * (`find_map` over `get_just_pressed`, taken in iteration order).
   */
  function ShiftDirection(pressed: seq<KeyCode>): (d: Option<BoardShift>)
    ensures d.None? <==> forall i :: 0 <= i < |pressed| ==> ShiftOfKey(pressed[i]).Err?
    ensures d.Some? ==> exists i :: 0 <= i < |pressed| && ShiftOfKey(pressed[i]) == Ok(d.value)
                           && forall j :: 0 <= j < i ==> ShiftOfKey(pressed[j]).Err?
  {
    if pressed == [] then None
    else match ShiftOfKey(pressed[0])
      case Ok(d) => Some(d)
      case Err(_) =>
        var d := ShiftDirection(pressed[1..]);
        assert forall i :: 1 <= i < |pressed| ==> pressed[i] == pressed[1..][i - 1];
        d
  }

  // ---------------------------------------------------------------------------
  // The Left ordering
  // ---------------------------------------------------------------------------

  datatype Ordering = Less | Equal | Greater

  /** `Ord::cmp` on integers. */
  function Cmp(a: int, b: int): Ordering
  {
    if a < b then Less else if a == b then Equal else Greater
  }

  /** The comparator of the Left shift: by row `y`, then by column `x`. */
  function LeftCmp(a: Position, b: Position): Ordering
  {
    match Cmp(a.y, b.y)
    case Equal => Cmp(a.x, b.x)
    case other => other
  }

  /** The cell number of a position when the board is read row by row. */
  function RowMajorIndex(p: Position): int
  {
    p.y * 0x100 + p.x
  }

  /** `(a.y, a.x) <= (b.y, b.x)` lexicographically. */
  predicate RowMajorLe(a: Position, b: Position)
  {
    a.y < b.y || (a.y == b.y && a.x <= b.x)
  }

  /**
   * The Left comparator orders positions as their row-major cell numbers, so
   * it is a total order on positions: lexicographic on `(y, x)`.
   */
  lemma LeftCmpIsRowMajor(a: Position, b: Position)
    ensures LeftCmp(a, b) == Cmp(RowMajorIndex(a), RowMajorIndex(b))
    ensures LeftCmp(a, b) == Equal <==> a == b
    ensures LeftCmp(a, b) == Less <==> LeftCmp(b, a) == Greater
    ensures LeftCmp(a, b) != Greater <==> RowMajorLe(a, b)
  {
  }

  lemma RowMajorLeTransitive(a: Position, b: Position, c: Position)
    requires RowMajorLe(a, b) && RowMajorLe(b, c)
    ensures RowMajorLe(a, c)
  {
  }

  /** `(y, x)` non-decreasing along the sequence. */
  predicate SortedLeft(tiles: seq<Tile>)
  {
    forall i, j :: 0 <= i < j < |tiles| ==> RowMajorLe(tiles[i].position, tiles[j].position)
  }

  /** Inserts a tile before the first tile that is not smaller, keeping the order stable. */
  function InsertLeft(t: Tile, sorted: seq<Tile>): (r: seq<Tile>)
    ensures multiset(r) == multiset(sorted) + multiset{t}
    ensures |r| == |sorted| + 1
    ensures r[0] == t || (sorted != [] && r[0] == sorted[0])
  {
    if sorted == [] || LeftCmp(t.position, sorted[0].position) != Greater then
      [t] + sorted
    else
      assert sorted == [sorted[0]] + sorted[1..];
      [sorted[0]] + InsertLeft(t, sorted[1..])
  }

  /** Inserting into a row-major sorted sequence keeps it sorted. */
  lemma {:induction false} InsertLeftSorted(t: Tile, sorted: seq<Tile>)
    requires SortedLeft(sorted)
    ensures SortedLeft(InsertLeft(t, sorted))
    decreases |sorted|
  {
    if sorted != [] {
      LeftCmpIsRowMajor(t.position, sorted[0].position);
      if LeftCmp(t.position, sorted[0].position) != Greater {
        assert forall j :: 0 <= j < |sorted| ==> RowMajorLe(t.position, sorted[j].position);
      } else {
        var rest := InsertLeft(t, sorted[1..]);
        InsertLeftSorted(t, sorted[1..]);
        assert RowMajorLe(sorted[0].position, rest[0].position);
        assert forall k :: 0 <= k < |rest| ==> RowMajorLe(rest[0].position, rest[k].position);
      }
    }
  }

  /** `sorted_by` with the Left comparator (a stable sort). */
  function SortedByLeft(tiles: seq<Tile>): (r: seq<Tile>)
    ensures SortedLeft(r)
    ensures multiset(r) == multiset(tiles)
  {
    if tiles == [] then []
    else
      assert tiles == [tiles[0]] + tiles[1..];
      var rest := SortedByLeft(tiles[1..]);
      InsertLeftSorted(tiles[0], rest);
      InsertLeft(tiles[0], rest)
  }

  // ---------------------------------------------------------------------------
  // Cells
  // ---------------------------------------------------------------------------

  /** The cells `(x, y)` for `y` in `from..size`, with `x` fixed. */
  function Column(x: u8, size: u8, from: nat): (cells: seq<(u8, u8)>)
    requires x < size && from <= size
    ensures |cells| == size - from
    ensures forall c :: c in cells <==> c.0 == x && from <= c.1 < size
    decreases size - from
  {
    if from == size then [] else [(x, from as u8)] + Column(x, size, from + 1)
  }

  /** `(from..size).cartesian_product(0..size)`. */
  function CellsFrom(size: u8, from: nat): (cells: seq<(u8, u8)>)
    requires from <= size
    ensures |cells| == (size - from) * size
    ensures forall c :: c in cells <==> from <= c.0 < size && c.1 < size
    decreases size - from
  {
    if from == size then []
    else
      assert (size - from) * size == size + (size - from - 1) * size;
      Column(from as u8, size, 0) + CellsFrom(size, from + 1)
  }

  /** Every cell of a `size` by `size` board. */
  function Cells(size: u8): (cells: seq<(u8, u8)>)
    ensures |cells| == size * size
  {
    CellsFrom(size, 0)
  }

  predicate InBounds(cell: (u8, u8), size: u8)
  {
    cell.0 < size && cell.1 < size
  }

  predicate Distinct(s: seq<(u8, u8)>)
  {
    forall i, j :: 0 <= i < j < |s| ==> s[i] != s[j]
  }

  lemma {:induction false} ColumnDistinct(x: u8, size: u8, from: nat)
    requires x < size && from <= size
    ensures Distinct(Column(x, size, from))
    decreases size - from
  {
    if from < size {
      ColumnDistinct(x, size, from + 1);
    }
  }

  lemma DistinctAppend(s: seq<(u8, u8)>, t: seq<(u8, u8)>)
    requires Distinct(s) && Distinct(t)
    requires forall e :: e in s ==> e !in t
    ensures Distinct(s + t)
  {
    forall i, j | 0 <= i < j < |s + t|
      ensures (s + t)[i] != (s + t)[j]
    {
      if i < |s| && |s| <= j {
        assert (s + t)[i] in s && (s + t)[j] in t;
      }
    }
  }

  lemma {:induction false} CellsFromDistinct(size: u8, from: nat)
    requires from <= size
    ensures Distinct(CellsFrom(size, from))
    decreases size - from
  {
    if from < size {
      ColumnDistinct(from as u8, size, 0);
      CellsFromDistinct(size, from + 1);
      DistinctAppend(Column(from as u8, size, 0), CellsFrom(size, from + 1));
    }
  }

  /** The enumeration yields `size²` pairwise distinct cells: every in-bounds cell, once. */
  lemma CellsEnumeration(size: u8)
    ensures |Cells(size)| == size * size
    ensures Distinct(Cells(size))
    ensures forall c :: c in Cells(size) <==> InBounds(c, size)
  {
    CellsFromDistinct(size, 0);
  }

  // ---------------------------------------------------------------------------
  // Spawning the starting tiles
  // ---------------------------------------------------------------------------

  /**
   * `chosen` takes the elements of `pool` at the positions `idx`, in that
   * order: `amount` positions (all of them when the pool is smaller), no
   * position taken twice.
   */
  predicate ChoiceAt(pool: seq<(u8, u8)>, chosen: seq<(u8, u8)>, amount: nat, idx: seq<nat>)
  {
    && |idx| == |chosen| == Min(amount, |pool|)
    && (forall i :: 0 <= i < |idx| ==> idx[i] < |pool| && chosen[i] == pool[idx[i]])
    && (forall i, j :: 0 <= i < j < |idx| ==> idx[i] != idx[j])
  }

  /**
   * What `choose_multiple(&mut rng, amount)` may return on `pool`: the
   * elements at `amount` distinct positions of the pool. Which positions,
   * and in which order, is up to the random number generator.
   */
  ghost predicate IsChoice(pool: seq<(u8, u8)>, chosen: seq<(u8, u8)>, amount: nat)
  {
    exists idx :: ChoiceAt(pool, chosen, amount, idx)
  }

  /** Some choice of two starting cells exists on every board. */
  lemma StartingChoiceExists(size: u8)
    ensures IsChoice(Cells(size), Cells(size)[..Min(2, size * size)], 2)
  {
    CellsEnumeration(size);
    var n := Min(2, size * size);
    var idx: seq<nat> := seq(n, k requires 0 <= k < n => k);
    assert ChoiceAt(Cells(size), Cells(size)[..n], 2, idx);
  }

  /** The tiles spawned on `chosen`, entities numbered from `first`, each worth 2 points. */
  function SpawnedTiles(chosen: seq<(u8, u8)>, first: nat): (tiles: seq<Tile>)
  {
    seq(|chosen|, k requires 0 <= k < |chosen| =>
      Tile(first + k, Position(chosen[k].0, chosen[k].1), Points(SpawnValue)))
  }

  predicate NoSharedCell(tiles: seq<Tile>)
  {
    forall i, j :: 0 <= i < j < |tiles| ==> tiles[i].position != tiles[j].position
  }

  predicate AllOnBoard(tiles: seq<Tile>, size: u8)
  {
    forall i :: 0 <= i < |tiles| ==> tiles[i].position.x < size && tiles[i].position.y < size
  }

  /** `min(2, size²)` tiles worth 2 points, on distinct cells of the board. */
  lemma SpawnedTilesOnDistinctCells(size: u8, chosen: seq<(u8, u8)>, first: nat)
    requires IsChoice(Cells(size), chosen, 2)
    ensures var tiles := SpawnedTiles(chosen, first);
      && |tiles| == Min(2, size * size)
      && NoSharedCell(tiles)
      && AllOnBoard(tiles, size)
      && (forall i :: 0 <= i < |tiles| ==> tiles[i].points.value == 2)
  {
    CellsEnumeration(size);
    var pool := Cells(size);
    var idx :| ChoiceAt(pool, chosen, 2, idx);
    var tiles := SpawnedTiles(chosen, first);
    forall i, j | 0 <= i < j < |tiles|
      ensures tiles[i].position != tiles[j].position
    {
      // distinct positions of a pool without repeats hold distinct cells
      if idx[i] < idx[j] {
        assert pool[idx[i]] != pool[idx[j]];
      } else {
        assert pool[idx[j]] != pool[idx[i]];
      }
    }
    forall i | 0 <= i < |tiles|
      ensures tiles[i].position.x < size && tiles[i].position.y < size
    {
      assert chosen[i] in pool;
      assert InBounds(chosen[i], size);
    }
  }

  /** On the 4 by 4 board exactly two tiles start, on different cells. */
  lemma TwoStartingTiles(chosen: seq<(u8, u8)>, first: nat)
    requires IsChoice(Cells(StartingBoard.size), chosen, 2)
    ensures |SpawnedTiles(chosen, first)| == 2
    ensures SpawnedTiles(chosen, first)[0].position != SpawnedTiles(chosen, first)[1].position
  {
    SpawnedTilesOnDistinctCells(StartingBoard.size, chosen, first);
  }

  /** What the shift system hands to `dbg!`. */
  datatype DebugOutput = NoShift | SortedTiles(tiles: seq<Tile>) | Label(text: string)

  /** The tiles of the world, with the board they lie on. */
  class World {
    const board: Board
    var tiles: seq<Tile>
    var nextEntity: nat

    ghost predicate Valid()
      reads this
    {
      && AllOnBoard(tiles, board.size)
      && NoSharedCell(tiles)
      && (forall i :: 0 <= i < |tiles| ==> tiles[i].entity < nextEntity)
      && (forall i, j :: 0 <= i < j < |tiles| ==> tiles[i].entity != tiles[j].entity)
    }

    /** A world holding only the board. */
    constructor (board: Board)
      ensures Valid()
      ensures this.board == board && tiles == [] && nextEntity == 0
    {
      this.board := board;
      tiles := [];
      nextEntity := 0;
    }

    /**
     * `spawn_tiles`, a startup system run once on the empty world: one tile
     * with 2 points on each chosen cell, `chosen` standing for the random choice.
     */
    method SpawnTiles(chosen: seq<(u8, u8)>)
      requires Valid() && tiles == []
      requires IsChoice(Cells(board.size), chosen, 2)
      modifies this
      ensures Valid()
      ensures tiles == SpawnedTiles(chosen, old(nextEntity))
      ensures nextEntity == old(nextEntity) + |chosen|
    {
      SpawnedTilesOnDistinctCells(board.size, chosen, nextEntity);
      ghost var first := nextEntity;
      for i := 0 to |chosen|
        invariant tiles == SpawnedTiles(chosen[..i], first)
        invariant nextEntity == first + i
      {
        var (x, y) := chosen[i];
        tiles := tiles + [Tile(nextEntity, Position(x, y), Points(SpawnValue))];
        nextEntity := nextEntity + 1;
      }
      assert chosen[..|chosen|] == chosen;
    }

    /**
     * `board_shift`: picks the direction of the first converting key; for Left
     * it orders the tiles row by row and prints them, for the other directions
     * it prints the direction's name. No tile is moved or changed.
     */
    method ShiftBoard(pressed: seq<KeyCode>) returns (out: DebugOutput)
      requires Valid()
      modifies this
      ensures tiles == old(tiles) && nextEntity == old(nextEntity)
      ensures Valid()
      ensures ShiftDirection(pressed).None? <==> out == NoShift
      ensures ShiftDirection(pressed) == Some(BoardShift.Left) <==> out.SortedTiles?
      ensures out.SortedTiles? ==> SortedLeft(out.tiles) && multiset(out.tiles) == multiset(tiles)
      ensures ShiftDirection(pressed) == Some(BoardShift.Right) ==> out == Label("right")
      ensures ShiftDirection(pressed) == Some(BoardShift.Up) ==> out == Label("up")
      ensures ShiftDirection(pressed) == Some(BoardShift.Down) ==> out == Label("down")
    {
      match ShiftDirection(pressed)
      case Some(Left) =>
        out := SortedTiles(SortedByLeft(tiles));
      case Some(Right) =>
        out := Label("right");
      case Some(Up) =>
        out := Label("up");
      case Some(Down) =>
        out := Label("down");
      case None =>
        out := NoShift;
    }
  }
}
