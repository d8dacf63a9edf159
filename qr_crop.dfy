/**
  The arithmetic of `cropQRFromSource`: the pixel box around the corner
  points a QR scanner reported, clamped to the source picture, and the
  padded canvas the box is copied onto.

  Coordinates are `real`; `Math.floor` is `.Floor` and `Math.ceil` is
  written through it. The canvas calls themselves are not modelled: the
  result records the sizes given to the canvas and the arguments given to
  `drawImage`.
*/
module QrCrop {

  /** `CornerPoint`. */
  datatype CornerPoint = CornerPoint(x: real, y: real)

  /** The nine-argument `drawImage(source, sx, sy, sw, sh, dx, dy, dw, dh)`, without the source. */
  datatype DrawImage = DrawImage(sx: int, sy: int, sw: int, sh: int, dx: int, dy: int, dw: int, dh: int)

  /** What `cropQRFromSource` computes before it draws. */
  datatype CropLayout = CropLayout(
    minX: int, minY: int, maxX: int, maxY: int,
    width: int, height: int,
    canvasWidth: int, canvasHeight: int,
    draw: DrawImage)

  /** The default of the `padding` parameter. */
  const DefaultPadding: int := 50

  /** `Math.ceil`. */
  function Ceil(x: real): (c: int)
    ensures x <= c as real < x + 1.0
  {
    -((-x).Floor)
  }

  function MinInt(a: int, b: int): int { if a <= b then a else b }
  function MaxInt(a: int, b: int): int { if a >= b then a else b }
  function MinReal(a: real, b: real): real { if a <= b then a else b }
  function MaxReal(a: real, b: real): real { if a >= b then a else b }

  /** `Math.min(...s)` of a non-empty list. */
  function MinOf(s: seq<real>): (m: real)
    requires |s| > 0
    ensures m in s
    ensures forall k :: 0 <= k < |s| ==> m <= s[k]
  {
    if |s| == 1 then s[0] else MinReal(s[0], MinOf(s[1..]))
  }

  /** `Math.max(...s)` of a non-empty list. */
  function MaxOf(s: seq<real>): (m: real)
    requires |s| > 0
    ensures m in s
    ensures forall k :: 0 <= k < |s| ==> s[k] <= m
  {
    if |s| == 1 then s[0] else MaxReal(s[0], MaxOf(s[1..]))
  }

  /** `corners.map((p) => p.x)` and `corners.map((p) => p.y)`. */
  function Xs(corners: seq<CornerPoint>): (r: seq<real>)
    ensures |r| == |corners| && forall k :: 0 <= k < |r| ==> r[k] == corners[k].x
  {
    seq(|corners|, k requires 0 <= k < |corners| => corners[k].x)
  }

  function Ys(corners: seq<CornerPoint>): (r: seq<real>)
    ensures |r| == |corners| && forall k :: 0 <= k < |r| ==> r[k] == corners[k].y
  {
    seq(|corners|, k requires 0 <= k < |corners| => corners[k].y)
  }

  /** The low edge of the box along one axis: the floor of the smallest
      coordinate, raised to 0. */
  function LowEdge(coords: seq<real>): int
    requires |coords| > 0
  {
    MaxInt(0, MinOf(coords).Floor)
  }

  /** The high edge of the box along one axis: the ceiling of the largest
      coordinate, lowered to the size of the source. */
  function HighEdge(coords: seq<real>, size: int): int
    requires |coords| > 0
  {
    MinInt(size, Ceil(MaxOf(coords)))
  }

  /** `cropQRFromSource`, up to the drawing. The source canvas has the size
      of the source picture; callers pass at least one corner. */
  function CropQrFromSource(sourceWidth: nat, sourceHeight: nat, corners: seq<CornerPoint>, padding: int): (r: CropLayout)
    requires |corners| > 0
    ensures 0 <= r.minX && 0 <= r.minY && r.maxX <= sourceWidth && r.maxY <= sourceHeight
    ensures r.width == r.maxX - r.minX && r.height == r.maxY - r.minY
    ensures r.canvasWidth == r.width + 2 * padding && r.canvasHeight == r.height + 2 * padding
    ensures r.draw == DrawImage(r.minX, r.minY, r.width, r.height, padding, padding, r.width, r.height)
  {
    var minX := LowEdge(Xs(corners));
    var maxX := HighEdge(Xs(corners), sourceWidth);
    var minY := LowEdge(Ys(corners));
    var maxY := HighEdge(Ys(corners), sourceHeight);
    var width := maxX - minX;
    var height := maxY - minY;
    CropLayout(minX, minY, maxX, maxY, width, height,
               width + padding * 2, height + padding * 2,
               DrawImage(minX, minY, width, height, padding, padding, width, height))
  }

  // ---------------------------------------------------------------------
  // Properties
  // ---------------------------------------------------------------------

  /** Every corner lies on the source picture. */
  predicate CornersOnSource(sourceWidth: nat, sourceHeight: nat, corners: seq<CornerPoint>) {
    forall k :: 0 <= k < |corners| ==>
      0.0 <= corners[k].x <= sourceWidth as real && 0.0 <= corners[k].y <= sourceHeight as real
  }

  /** With every corner on the picture, the box has a non-negative size and
      holds every corner. */
  lemma BoxHoldsCorners(sourceWidth: nat, sourceHeight: nat, corners: seq<CornerPoint>, padding: int)
    requires |corners| > 0
    requires CornersOnSource(sourceWidth, sourceHeight, corners)
    ensures var r := CropQrFromSource(sourceWidth, sourceHeight, corners, padding);
            && r.width >= 0 && r.height >= 0
            && forall k :: 0 <= k < |corners| ==>
                 r.minX as real <= corners[k].x <= r.maxX as real &&
                 r.minY as real <= corners[k].y <= r.maxY as real
  {
    var xs, ys := Xs(corners), Ys(corners);
    assert 0.0 <= xs[0] && 0.0 <= ys[0];
    assert MinOf(xs) <= xs[0] <= MaxOf(xs);
    assert MinOf(ys) <= ys[0] <= MaxOf(ys);
    assert MaxOf(xs) <= sourceWidth as real && MaxOf(ys) <= sourceHeight as real;
  }

  /** With every corner on the picture, the box is the tightest pixel box
      around them: one pixel less on any side would leave a corner out. */
  lemma BoxIsTight(sourceWidth: nat, sourceHeight: nat, corners: seq<CornerPoint>, padding: int)
    requires |corners| > 0
    requires CornersOnSource(sourceWidth, sourceHeight, corners)
    ensures var r := CropQrFromSource(sourceWidth, sourceHeight, corners, padding);
            && MinOf(Xs(corners)) < (r.minX + 1) as real && (r.maxX - 1) as real < MaxOf(Xs(corners))
            && MinOf(Ys(corners)) < (r.minY + 1) as real && (r.maxY - 1) as real < MaxOf(Ys(corners))
  {
    var xs, ys := Xs(corners), Ys(corners);
    assert 0.0 <= xs[0] && 0.0 <= ys[0];
    assert MinOf(xs) <= xs[0] && MinOf(ys) <= ys[0];
    assert MaxOf(xs) <= sourceWidth as real && MaxOf(ys) <= sourceHeight as real;
  }

  /** The smallest coordinate of two lists with the same elements is the same. */
  lemma MinOfSameElements(s: seq<real>, t: seq<real>)
    requires |s| > 0 && |t| > 0
    requires forall v :: v in s <==> v in t
    ensures MinOf(s) == MinOf(t)
  {
    var a, b := MinOf(s), MinOf(t);
    assert a in t && b in s;
  }

  lemma MaxOfSameElements(s: seq<real>, t: seq<real>)
    requires |s| > 0 && |t| > 0
    requires forall v :: v in s <==> v in t
    ensures MaxOf(s) == MaxOf(t)
  {
    var a, b := MaxOf(s), MaxOf(t);
    assert a in t && b in s;
  }

  /** The layout depends only on which corners there are: listing them in
      another order, or repeating one, changes nothing. */
  lemma SameCornersSameLayout(sourceWidth: nat, sourceHeight: nat, corners: seq<CornerPoint>, corners': seq<CornerPoint>, padding: int)
    requires |corners| > 0 && |corners'| > 0
    requires forall p :: p in corners <==> p in corners'
    ensures CropQrFromSource(sourceWidth, sourceHeight, corners, padding) ==
            CropQrFromSource(sourceWidth, sourceHeight, corners', padding)
  {
    SameCoordinates(corners, corners');
    MinOfSameElements(Xs(corners), Xs(corners'));
    MaxOfSameElements(Xs(corners), Xs(corners'));
    MinOfSameElements(Ys(corners), Ys(corners'));
    MaxOfSameElements(Ys(corners), Ys(corners'));
  }

  /** Lists with the same corners have the same x and the same y coordinates. */
  lemma SameCoordinates(corners: seq<CornerPoint>, corners': seq<CornerPoint>)
    requires forall p :: p in corners <==> p in corners'
    ensures forall v :: v in Xs(corners) <==> v in Xs(corners')
    ensures forall v :: v in Ys(corners) <==> v in Ys(corners')
  {
    forall v | v in Xs(corners)
      ensures v in Xs(corners')
    {
      var k :| 0 <= k < |corners| && Xs(corners)[k] == v;
      assert corners[k] in corners;
      var k' :| 0 <= k' < |corners'| && corners'[k'] == corners[k];
      assert Xs(corners')[k'] == v;
    }
    forall v | v in Xs(corners')
      ensures v in Xs(corners)
    {
      var k' :| 0 <= k' < |corners'| && Xs(corners')[k'] == v;
      assert corners'[k'] in corners';
      var k :| 0 <= k < |corners| && corners[k] == corners'[k'];
      assert Xs(corners)[k] == v;
    }
    forall v | v in Ys(corners)
      ensures v in Ys(corners')
    {
      var k :| 0 <= k < |corners| && Ys(corners)[k] == v;
      assert corners[k] in corners;
      var k' :| 0 <= k' < |corners'| && corners'[k'] == corners[k];
      assert Ys(corners')[k'] == v;
    }
    forall v | v in Ys(corners')
      ensures v in Ys(corners)
    {
      var k' :| 0 <= k' < |corners'| && Ys(corners')[k'] == v;
      assert corners'[k'] in corners';
      var k :| 0 <= k < |corners| && corners[k] == corners'[k'];
      assert Ys(corners)[k] == v;
    }
  }

  /** Reordering the corners leaves the layout unchanged. */
  lemma PermutedCornersSameLayout(sourceWidth: nat, sourceHeight: nat, corners: seq<CornerPoint>, corners': seq<CornerPoint>, padding: int)
    requires |corners| > 0 && |corners'| > 0
    requires multiset(corners) == multiset(corners')
    ensures CropQrFromSource(sourceWidth, sourceHeight, corners, padding) ==
            CropQrFromSource(sourceWidth, sourceHeight, corners', padding)
  {
    assert forall p :: p in corners <==> p in multiset(corners);
    assert forall p :: p in corners' <==> p in multiset(corners');
    SameCornersSameLayout(sourceWidth, sourceHeight, corners, corners', padding);
  }

  /** The smallest element after appending `v`. */
  lemma {:induction false} MinOfAppend(s: seq<real>, v: real)
    requires |s| > 0
    ensures MinOf(s + [v]) == MinReal(MinOf(s), v)
    decreases |s|
  {
    if |s| > 1 {
      assert (s + [v])[1..] == s[1..] + [v];
      MinOfAppend(s[1..], v);
    }
  }

  /** The largest element after appending `v`. */
  lemma {:induction false} MaxOfAppend(s: seq<real>, v: real)
    requires |s| > 0
    ensures MaxOf(s + [v]) == MaxReal(MaxOf(s), v)
    decreases |s|
  {
    if |s| > 1 {
      assert (s + [v])[1..] == s[1..] + [v];
      MaxOfAppend(s[1..], v);
    }
  }

  /** `.Floor` is monotone, and an integer no larger than `y` is no larger than its floor. */
  lemma FloorMonotone(x: real, y: real)
    requires x <= y
    ensures x.Floor <= y.Floor
  {
  }

  lemma IntBelowFloor(n: int, y: real)
    requires n as real <= y
    ensures n <= y.Floor
  {
  }

  /** One axis: a coordinate no lower than the low edge does not move it. */
  lemma LowEdgeKeepsInnerCoordinate(coords: seq<real>, v: real)
    requires |coords| > 0
    requires LowEdge(coords) as real <= v
    ensures LowEdge(coords + [v]) == LowEdge(coords)
  {
    MinOfAppend(coords, v);
    var m := MinOf(coords);
    if v < m {
      FloorMonotone(v, m);
      IntBelowFloor(LowEdge(coords), v);
    }
  }

  /** One axis: a coordinate no higher than the high edge does not move it. */
  lemma HighEdgeKeepsInnerCoordinate(coords: seq<real>, size: int, v: real)
    requires |coords| > 0
    requires v <= HighEdge(coords, size) as real
    ensures HighEdge(coords + [v], size) == HighEdge(coords, size)
  {
    MaxOfAppend(coords, v);
    var m := MaxOf(coords);
    if m < v {
      FloorMonotone(-v, -m);
      IntBelowFloor(-HighEdge(coords, size), -v);
    }
  }

  lemma CoordinatesAppend(corners: seq<CornerPoint>, p: CornerPoint)
    ensures Xs(corners + [p]) == Xs(corners) + [p.x]
    ensures Ys(corners + [p]) == Ys(corners) + [p.y]
  {
    assert Xs(corners + [p]) == Xs(corners) + [p.x];
    assert Ys(corners + [p]) == Ys(corners) + [p.y];
  }

  /** Adding a corner that already lies inside the box leaves the layout unchanged. */
  lemma InnerCornerKeepsLayout(sourceWidth: nat, sourceHeight: nat, corners: seq<CornerPoint>, p: CornerPoint, padding: int)
    requires |corners| > 0
    requires var r := CropQrFromSource(sourceWidth, sourceHeight, corners, padding);
             r.minX as real <= p.x <= r.maxX as real && r.minY as real <= p.y <= r.maxY as real
    ensures CropQrFromSource(sourceWidth, sourceHeight, corners + [p], padding) ==
            CropQrFromSource(sourceWidth, sourceHeight, corners, padding)
  {
    var xs, ys := Xs(corners), Ys(corners);
    CoordinatesAppend(corners, p);
    LowEdgeKeepsInnerCoordinate(xs, p.x);
    HighEdgeKeepsInnerCoordinate(xs, sourceWidth, p.x);
    LowEdgeKeepsInnerCoordinate(ys, p.y);
    HighEdgeKeepsInnerCoordinate(ys, sourceHeight, p.y);
    LayoutDependsOnEdges(sourceWidth, sourceHeight, corners + [p], corners, padding);
  }

  /** The layout is a function of the four edges. */
  lemma LayoutDependsOnEdges(sourceWidth: nat, sourceHeight: nat, corners: seq<CornerPoint>, corners': seq<CornerPoint>, padding: int)
    requires |corners| > 0 && |corners'| > 0
    requires LowEdge(Xs(corners)) == LowEdge(Xs(corners'))
    requires HighEdge(Xs(corners), sourceWidth) == HighEdge(Xs(corners'), sourceWidth)
    requires LowEdge(Ys(corners)) == LowEdge(Ys(corners'))
    requires HighEdge(Ys(corners), sourceHeight) == HighEdge(Ys(corners'), sourceHeight)
    ensures CropQrFromSource(sourceWidth, sourceHeight, corners, padding) ==
            CropQrFromSource(sourceWidth, sourceHeight, corners', padding)
  {
  }

  /** The low edge is the floor of the smallest coordinate, raised to 0:
      0 when that coordinate is negative, otherwise the integer at or just
      below it. */
  lemma LowEdgeClamped(coords: seq<real>)
    requires |coords| > 0
    ensures MinOf(coords) < 0.0 ==> LowEdge(coords) == 0
    ensures 0.0 <= MinOf(coords) ==>
              LowEdge(coords) as real <= MinOf(coords) < LowEdge(coords) as real + 1.0
  {
  }

  /** The high edge is the ceiling of the largest coordinate, lowered to the
      size of the source: the size when that coordinate lies beyond it,
      otherwise the integer at or just above it. */
  lemma HighEdgeClamped(coords: seq<real>, size: int)
    requires |coords| > 0
    ensures size as real < MaxOf(coords) ==> HighEdge(coords, size) == size
    ensures MaxOf(coords) <= size as real ==>
              HighEdge(coords, size) as real - 1.0 < MaxOf(coords) <= HighEdge(coords, size) as real
  {
  }

  /** The four edges of the box, for any corners, on the picture or not: each
      is the pixel edge around the extreme coordinate, clamped to the picture. */
  lemma BoxEdges(sourceWidth: nat, sourceHeight: nat, corners: seq<CornerPoint>, padding: int)
    requires |corners| > 0
    ensures var r := CropQrFromSource(sourceWidth, sourceHeight, corners, padding);
            var minX, maxX := MinOf(Xs(corners)), MaxOf(Xs(corners));
            var minY, maxY := MinOf(Ys(corners)), MaxOf(Ys(corners));
            && (minX < 0.0 ==> r.minX == 0)
            && (0.0 <= minX ==> r.minX as real <= minX < r.minX as real + 1.0)
            && (minY < 0.0 ==> r.minY == 0)
            && (0.0 <= minY ==> r.minY as real <= minY < r.minY as real + 1.0)
            && (sourceWidth as real < maxX ==> r.maxX == sourceWidth)
            && (maxX <= sourceWidth as real ==> r.maxX as real - 1.0 < maxX <= r.maxX as real)
            && (sourceHeight as real < maxY ==> r.maxY == sourceHeight)
            && (maxY <= sourceHeight as real ==> r.maxY as real - 1.0 < maxY <= r.maxY as real)
  {
    LowEdgeClamped(Xs(corners));
    LowEdgeClamped(Ys(corners));
    HighEdgeClamped(Xs(corners), sourceWidth);
    HighEdgeClamped(Ys(corners), sourceHeight);
  }

  /** With the default padding of 50, the canvas is 100 pixels wider and
      higher than the box, and the box is drawn 50 pixels in from its corner. */
  lemma DefaultPaddingLayout(sourceWidth: nat, sourceHeight: nat, corners: seq<CornerPoint>)
    requires |corners| > 0
    ensures var r := CropQrFromSource(sourceWidth, sourceHeight, corners, DefaultPadding);
            && r.canvasWidth == r.width + 100 && r.canvasHeight == r.height + 100
            && r.draw.dx == 50 && r.draw.dy == 50
  {
  }
}
