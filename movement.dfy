/**
 * Movement-direction classification (`calculate_movement_direction`): the
 * displacement from the first to the last position, classified by its
 * dominant axis. Image coordinates grow downwards, so a negative vertical
 * displacement is upward movement.
 */
module Movement {

  import opened Options
  import opened Landmarks

  datatype Direction = Horizontal | HorizontalLeft | VerticalUp | VerticalDown

  function Abs(v: real): (a: real)
    ensures a >= 0.0 && (a == v || a == -v)
  {
    if v < 0.0 then -v else v
  }

  function MovementDirection(positions: seq<Vec3>): (d: Option<Direction>)
    ensures d.None? <==> |positions| < 2
  {
    if |positions| < 2 then None
    else
      var start, end := positions[0], positions[|positions| - 1];
      var dx, dy := end.x - start.x, end.y - start.y;
      if Abs(dx) > Abs(dy) then
        Some(if dx > 0.0 then Horizontal else HorizontalLeft)
      else
        Some(if dy < 0.0 then VerticalUp else VerticalDown)
  }

  /**
   * No direction for fewer than two positions; otherwise exactly one of the
   * four, chosen by the displacement from the first to the last position.
   */
  lemma MovementDirectionCases(positions: seq<Vec3>)
    ensures MovementDirection(positions).None? <==> |positions| < 2
    ensures |positions| >= 2 ==>
      var d := MovementDirection(positions);
      var dx := positions[|positions| - 1].x - positions[0].x;
      var dy := positions[|positions| - 1].y - positions[0].y;
      && (d == Some(Horizontal) <==> Abs(dx) > Abs(dy) && dx > 0.0)
      && (d == Some(HorizontalLeft) <==> Abs(dx) > Abs(dy) && dx <= 0.0)
      && (d == Some(VerticalUp) <==> Abs(dx) <= Abs(dy) && dy < 0.0)
      && (d == Some(VerticalDown) <==> Abs(dx) <= Abs(dy) && dy >= 0.0)
  {
  }

  function Opposite(d: Direction): Direction
  {
    match d
    case Horizontal => HorizontalLeft
    case HorizontalLeft => Horizontal
    case VerticalUp => VerticalDown
    case VerticalDown => VerticalUp
  }

  function Reversed(s: seq<Vec3>): (r: seq<Vec3>)
    ensures |r| == |s|
    ensures forall i :: 0 <= i < |s| ==> r[i] == s[|s| - 1 - i]
  {
    if s == [] then [] else Reversed(s[1..]) + [s[0]]
  }

  /**
   * Retracing a path backwards gives the opposite direction, provided its
   * endpoints differ in the image plane (otherwise both read `VerticalDown`).
   */
  lemma ReversedPathOpposite(positions: seq<Vec3>)
    requires |positions| >= 2
    requires positions[0].x != positions[|positions| - 1].x
          || positions[0].y != positions[|positions| - 1].y
    ensures MovementDirection(Reversed(positions)).Some?
    ensures MovementDirection(Reversed(positions)).value
         == Opposite(MovementDirection(positions).value)
  {
    var r := Reversed(positions);
    var start, end := positions[0], positions[|positions| - 1];
    assert r[0] == end && r[|r| - 1] == start;
    assert Abs(start.x - end.x) == Abs(end.x - start.x);
    assert Abs(start.y - end.y) == Abs(end.y - start.y);
  }

  function Shift(s: seq<Vec3>, offset: Vec3): (r: seq<Vec3>)
    ensures |r| == |s|
    ensures forall i :: 0 <= i < |s| ==>
      r[i] == Vec3(s[i].x + offset.x, s[i].y + offset.y, s[i].z + offset.z)
  {
    if s == [] then [] else [Vec3(s[0].x + offset.x, s[0].y + offset.y, s[0].z + offset.z)] + Shift(s[1..], offset)
  }

  /** The direction depends on the displacement only, not on where the path lies. */
  lemma ShiftInvariant(positions: seq<Vec3>, offset: Vec3)
    ensures MovementDirection(Shift(positions, offset)) == MovementDirection(positions)
  {
    if |positions| >= 2 {
      var r := Shift(positions, offset);
      assert r[0].x == positions[0].x + offset.x;
      assert r[|r| - 1].x == positions[|positions| - 1].x + offset.x;
    }
  }
}
