/** Arranging the displays in a row or a column, and aligning them across it. */
module Layout {
  import Scale

  datatype Arrange = Row | Col
  datatype Align = Top | Middle | Bottom | Left | Right

  /** A display as the layout sees it: its logical size, and whether it takes part. */
  datatype Box = Box(width: int, height: int, on: bool)

  datatype Point = Point(x: int, y: int)

  function Along(arrange: Arrange, b: Box): int {
    if arrange.Row? then b.width else b.height
  }

  function Across(arrange: Arrange, b: Box): int {
    if arrange.Row? then b.height else b.width
  }

  /** The tallest of a row or the widest of a column. */
  function Extent(arrange: Arrange, boxes: seq<Box>): (e: int)
    ensures e >= 0
    ensures forall i | 0 <= i < |boxes| && boxes[i].on :: Across(arrange, boxes[i]) <= e
  {
    if boxes == [] then 0
    else
      var n := |boxes| - 1;
      var e := Extent(arrange, boxes[..n]);
      if boxes[n].on && Across(arrange, boxes[n]) > e then Across(arrange, boxes[n]) else e
  }

  /** The space that the boxes before i take. */
  function Start(arrange: Arrange, boxes: seq<Box>, i: nat): int
    requires i <= |boxes|
  {
    if i == 0 then 0
    else Start(arrange, boxes, i - 1) + if boxes[i - 1].on then Along(arrange, boxes[i - 1]) else 0
  }

  function Offset(arrange: Arrange, align: Align, extent: int, across: int): int {
    if align == Middle then Scale.Trunc((extent - across) as real / 2.0 + 0.5)
    else if (arrange.Row? && align == Bottom) || (arrange.Col? && align == Right) then extent - across
    else 0
  }

  function Position(arrange: Arrange, align: Align, boxes: seq<Box>, i: nat): Point
    requires i < |boxes|
  {
    var start := Start(arrange, boxes, i);
    var offset := Offset(arrange, align, Extent(arrange, boxes), Across(arrange, boxes[i]));
    if arrange.Row? then Point(start, offset) else Point(offset, start)
  }

  ghost predicate Sized(boxes: seq<Box>) {
    forall i | 0 <= i < |boxes| && boxes[i].on :: boxes[i].width >= 0 && boxes[i].height >= 0
  }

  lemma {:induction false} StartGrows(arrange: Arrange, boxes: seq<Box>, i: nat, j: nat)
    requires i <= j <= |boxes| && Sized(boxes)
    ensures Start(arrange, boxes, i) <= Start(arrange, boxes, j)
    ensures i < j && boxes[i].on ==> Start(arrange, boxes, i) + Along(arrange, boxes[i]) <= Start(arrange, boxes, j)
    ensures i < j && boxes[i].on && (forall k | i < k < j :: !boxes[k].on) ==>
            Start(arrange, boxes, j) == Start(arrange, boxes, i) + Along(arrange, boxes[i])
  {
    if i < j {
      StartGrows(arrange, boxes, i, j - 1);
    }
  }

  lemma {:induction false} FirstStarts(arrange: Arrange, boxes: seq<Box>, i: nat)
    requires i <= |boxes| && forall k | 0 <= k < i :: !boxes[k].on
    ensures Start(arrange, boxes, i) == 0
  {
    if i > 0 {
      FirstStarts(arrange, boxes, i - 1);
    }
  }

  /**
   Main result: the boxes that take part follow each other in the given order without gap or
   overlap, and lie inside the sum of their lengths by the largest extent across.
   */
  lemma RowPacks(align: Align, boxes: seq<Box>, i: nat, j: nat)
    requires i < j < |boxes| && Sized(boxes) && boxes[i].on && boxes[j].on
    ensures var (p, q) := (Position(Row, align, boxes, i), Position(Row, align, boxes, j));
      && p.x + boxes[i].width <= q.x
      && ((forall k | i < k < j :: !boxes[k].on) ==> p.x + boxes[i].width == q.x)
      && ((forall k | 0 <= k < i :: !boxes[k].on) ==> p.x == 0)
  {
    StartGrows(Row, boxes, i, j);
    if forall k | 0 <= k < i :: !boxes[k].on {
      FirstStarts(Row, boxes, i);
    }
  }

  lemma RowInsideBox(align: Align, boxes: seq<Box>, i: nat)
    requires i < |boxes| && Sized(boxes) && boxes[i].on
    ensures var p := Position(Row, align, boxes, i);
      && 0 <= p.x && p.x + boxes[i].width <= Start(Row, boxes, |boxes|)
      && 0 <= p.y && p.y + boxes[i].height <= Extent(Row, boxes)
  {
    StartGrows(Row, boxes, 0, i);
    StartGrows(Row, boxes, i, |boxes|);
    var spare := Extent(Row, boxes) - boxes[i].height;
    if align == Middle {
      HalfSpare(spare);
    }
  }

  lemma HalfSpare(spare: int)
    requires spare >= 0
    ensures Scale.Trunc(spare as real / 2.0 + 0.5) == (spare + 1) / 2
  {
  }

  /** MIDDLE is centred, rounding away from the top. */
  lemma MiddleCentres(boxes: seq<Box>, i: nat)
    requires i < |boxes| && boxes[i].on
    ensures 0 <= 2 * Position(Row, Middle, boxes, i).y + boxes[i].height - Extent(Row, boxes) <= 1
  {
  }

  /** The extent is that of some box, unless none takes part or has any. */
  lemma {:induction false} ExtentAttained(arrange: Arrange, boxes: seq<Box>)
    ensures Extent(arrange, boxes) == 0 ||
      exists i | 0 <= i < |boxes| && boxes[i].on :: Across(arrange, boxes[i]) == Extent(arrange, boxes)
  {
    if boxes != [] {
      var n := |boxes| - 1;
      ExtentAttained(arrange, boxes[..n]);
      if Extent(arrange, boxes) != 0 && Extent(arrange, boxes) == Extent(arrange, boxes[..n]) {
        var i :| 0 <= i < n && boxes[..n][i].on && Across(arrange, boxes[..n][i]) == Extent(arrange, boxes);
        assert boxes[i].on;
      }
    }
  }

  /** TOP and LEFT begin where the layout does; BOTTOM and RIGHT end where it ends. */
  lemma EdgesAligned(boxes: seq<Box>, i: nat)
    requires i < |boxes|
    ensures Position(Row, Top, boxes, i).y == 0 && Position(Col, Left, boxes, i).x == 0
    ensures Position(Row, Bottom, boxes, i).y + boxes[i].height == Extent(Row, boxes)
    ensures Position(Col, Right, boxes, i).x + boxes[i].width == Extent(Col, boxes)
  {
  }

  // -------- a column is a row with the axes swapped --------

  function Turned(b: Box): Box {
    Box(b.height, b.width, b.on)
  }

  function TurnedAll(boxes: seq<Box>): seq<Box> {
    seq(|boxes|, i requires 0 <= i < |boxes| => Turned(boxes[i]))
  }

  function TurnedAlign(align: Align): Align {
    match align
    case Top => Left
    case Left => Top
    case Bottom => Right
    case Right => Bottom
    case Middle => Middle
  }

  lemma {:induction false} ExtentTurned(boxes: seq<Box>)
    ensures Extent(Col, TurnedAll(boxes)) == Extent(Row, boxes)
  {
    if boxes != [] {
      var n := |boxes| - 1;
      ExtentTurned(boxes[..n]);
      assert TurnedAll(boxes)[..n] == TurnedAll(boxes[..n]);
    }
  }

  lemma {:induction false} StartTurned(boxes: seq<Box>, i: nat)
    requires i <= |boxes|
    ensures Start(Col, TurnedAll(boxes), i) == Start(Row, boxes, i)
  {
    if i > 0 {
      StartTurned(boxes, i - 1);
    }
  }

  /** Main result: COL places the turned boxes where ROW places the boxes, with x and y swapped. */
  lemma ColIsRowTurned(align: Align, boxes: seq<Box>, i: nat)
    requires i < |boxes|
    ensures var (row, col) := (Position(Row, align, boxes, i),
                               Position(Col, TurnedAlign(align), TurnedAll(boxes), i));
      col.x == row.y && col.y == row.x
  {
    ExtentTurned(boxes);
    StartTurned(boxes, i);
  }
}
