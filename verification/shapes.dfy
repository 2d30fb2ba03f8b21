/** The two value types of the program: the placement choice and the rectangle. */
module Shapes {
  import opened Wrappers

  /** Where the image goes vertically on the canvas; a closed enumeration with unique values. */
  datatype Position = Top | Center | Bottom

  /** The integer each position carries (TOP = 1, CENTER = 2, BOTTOM = 3). */
  function Value(p: Position): (v: int)
    ensures 1 <= v <= 3
  {
    match p
    case Top => 1
    case Center => 2
    case Bottom => 3
  }

  /** Lookup of a position by value, `Position(v)`; `None` where the enumeration raises. */
  function FromValue(v: int): (p: Option<Position>)
    ensures p.Some? <==> 1 <= v <= 3
    ensures p.Some? ==> Value(p.value) == v
  {
    if v == 1 then Some(Top)
    else if v == 2 then Some(Center)
    else if v == 3 then Some(Bottom)
    else None
  }

  /** Distinct positions carry distinct values, and lookup inverts `Value`. */
  lemma ValueRoundTrip(p: Position, q: Position)
    ensures FromValue(Value(p)) == Some(p)
    ensures Value(p) == Value(q) ==> p == q
  {
  }

  /** A bounding box in pixels; the program builds canvas and image boxes as
      `Rect(0, 0, width, height)` and reuses the type for the four padding insets. */
  datatype Rect = Rect(left: int, top: int, right: int, bottom: int)

  /** `Rect.__eq__`. The other operand is dynamically typed in the program;
      `None` stands for any object that is not a `Rect`. */
  function Equals(self: Rect, obj: Option<Rect>): (r: bool)
    ensures r <==> obj == Some(self)
    ensures r <==> obj.Some? && obj.value.left == self.left && obj.value.top == self.top
                   && obj.value.right == self.right && obj.value.bottom == self.bottom
  {
    obj.Some? &&
    [self.left, self.top, self.right, self.bottom] == [obj.value.left, obj.value.top, obj.value.right, obj.value.bottom]
  }

  /** `Rect.__ne__`, the negation of `__eq__`. */
  function NotEquals(self: Rect, obj: Option<Rect>): (r: bool)
    ensures r <==> obj != Some(self)
    ensures r <==> obj.None? || obj.value.left != self.left || obj.value.top != self.top
                   || obj.value.right != self.right || obj.value.bottom != self.bottom
  {
    !Equals(self, obj)
  }
}
