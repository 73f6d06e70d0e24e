/** Snake coordinates and headings. A position is an immutable (row, column) pair that
    compares by value; a direction is one of the four unit steps of the grid. */
module SnakePosition {

  /** The four headings, each a unit step in row or column. */
  datatype Direction = Left | Right | Up | Down
  {
    function RowOffset(): int {
      match this
      case Up => -1
      case Down => 1
      case _ => 0
    }

    function ColumnOffset(): int {
      match this
      case Left => -1
      case Right => 1
      case _ => 0
    }

    /** The heading that undoes this one. */
    function Opposite(): (d: Direction)
      ensures d.RowOffset() == -RowOffset() && d.ColumnOffset() == -ColumnOffset()
    {
      match this
      case Left => Right
      case Right => Left
      case Up => Down
      case Down => Up
    }
  }

  /** A heading is determined by its step. */
  lemma SameStepSameDirection(a: Direction, b: Direction)
    requires a.RowOffset() == b.RowOffset() && a.ColumnOffset() == b.ColumnOffset()
    ensures a == b
  {
  }

  /** Opposite swaps headings in pairs and never fixes one. */
  lemma OppositeInvolution(d: Direction)
    ensures d.Opposite().Opposite() == d
    ensures d.Opposite() != d
  {
  }

  /** A grid position. Its row and column are read-only, so it is a value. */
  datatype Position = Position(row: int, column: int)
  {
    /** The neighbouring position one step in direction `dir`; the receiver is a value
        and is left as it is. */
    function Translate(dir: Direction): (p: Position)
      ensures p != this
    {
      Position(row + dir.RowOffset(), column + dir.ColumnOffset())
    }

    /** Equality is by row and column. */
    function Equals(other: Position): (b: bool)
      ensures b <==> this == other
    {
      row == other.row && column == other.column
    }

    /** The `!=` operator is the negation of `==`. */
    function NotEquals(other: Position): (b: bool)
      ensures b <==> this != other
      ensures b == !Equals(other)
    {
      !Equals(other)
    }
  }

  /** Stepping forward and then in the opposite direction returns to the start. */
  lemma TranslateBack(p: Position, d: Direction)
    ensures p.Translate(d).Translate(d.Opposite()) == p
  {
  }

  /** Translation is one-to-one in the direction: different headings lead to different
      neighbours. */
  lemma TranslateInjective(p: Position, a: Direction, b: Direction)
    requires p.Translate(a) == p.Translate(b)
    ensures a == b
  {
    SameStepSameDirection(a, b);
  }

  /** A snake whose head is one step in direction `dir` past its neck cannot step back
      onto its neck unless it heads the opposite way. */
  lemma {:induction false} NoStepBack(neck: Position, dir: Direction, d: Direction)
    requires d != dir.Opposite()
    ensures neck.Translate(dir).Translate(d) != neck
  {
    if neck.Translate(dir).Translate(d) == neck {
      TranslateBack(neck, dir);
      TranslateInjective(neck.Translate(dir), d, dir.Opposite());
    }
  }
}
