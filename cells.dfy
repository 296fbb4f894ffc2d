/** A maze cell: its identity (row, column), its four wall flags and its
    generation-phase visited flag. */
module Cells {

  /** The four sides of a cell, as the keys "top", "right", "bottom" and "left"
      of a cell's walls dictionary. */
  datatype Direction = Top | Right | Bottom | Left

  /** The identity of a cell: its row and its column. */
  datatype Pos = Pos(row: int, column: int)

  /** The side of the neighbouring cell that faces side `d`. */
  function Opposite(d: Direction): (o: Direction)
    ensures o != d
  {
    match d
    case Top => Bottom
    case Bottom => Top
    case Left => Right
    case Right => Left
  }

  /** The cell on the other side of wall `d` of cell `p`. */
  function Step(p: Pos, d: Direction): (q: Pos)
    ensures q != p
    ensures (d == Top || d == Bottom) <==> q.column == p.column
    ensures (d == Left || d == Right) <==> q.row == p.row
  {
    match d
    case Top => Pos(p.row - 1, p.column)
    case Bottom => Pos(p.row + 1, p.column)
    case Left => Pos(p.row, p.column - 1)
    case Right => Pos(p.row, p.column + 1)
  }

  /** Stepping across a wall and back across the facing wall returns to the
      same cell, and a cell is reached from at most one direction. */
  lemma StepInverse(p: Pos, d: Direction)
    ensures Opposite(Opposite(d)) == d
    ensures Step(Step(p, d), Opposite(d)) == p
    ensures forall e :: Step(p, e) == Step(p, d) ==> e == d
  {
  }

  /** The wall flags of one cell; true means the wall is present. */
  datatype Walls = Walls(top: bool, right: bool, bottom: bool, left: bool) {

    /** The flag stored under key `d`. */
    function Get(d: Direction): bool
    {
      match d
      case Top => top
      case Right => right
      case Bottom => bottom
      case Left => left
    }

    /** The flags after `walls[d] = False`: flag `d` is cleared, the other
        three are kept. */
    function Clear(d: Direction): (w: Walls)
      ensures !w.Get(d)
      ensures forall e :: e != d ==> w.Get(e) == Get(e)
    {
      match d
      case Top => this.(top := false)
      case Right => this.(right := false)
      case Bottom => this.(bottom := false)
      case Left => this.(left := false)
    }

    /** Every one of the four walls is present. */
    predicate Closed()
    {
      top && right && bottom && left
    }
  }

  /** The flags of a new cell: every wall present. */
  const AllWalls := Walls(true, true, true, true)

  /** A grid cell. Its pixel size, colour and A* score fields belong to the
      drawing code and are not modelled. */
  datatype Cell = Cell(row: int, column: int, isVisited: bool, walls: Walls)
}
