/**
  `BBoxExtractor`: turning the text detector's polygons into axis-aligned
  rectangles, and the device-name mapping applied when the detector loads.
 */
module BBox {
  import opened Wrappers
  import opened Adapters
  import opened Schemas
  import Config

  /** A polygon vertex; the detector reports integer pixel coordinates. */
  datatype Point = Point(x: int, y: int)

  type Polygon = seq<Point>

  /** One entry of the detector's output; `None` when `dt_polys` is missing or `None`. */
  datatype Detection = Detection(dtPolys: Option<seq<Polygon>>)

  /** The detector's `predict`. */
  type TextDetector = Image -> Result<seq<Detection>, Error>

  /** `{"cuda": "gpu", "cpu": "cpu"}.get(device, device)`. */
  function PaddleDevice(device: string): (d: string)
    ensures device == "cuda" ==> d == "gpu"
    ensures device != "cuda" ==> d == device
  {
    if device == "cuda" then "gpu" else if device == "cpu" then "cpu" else device
  }

  /** The mapping never hands the detector PyTorch's name "cuda", and
      applying it twice is the same as applying it once. */
  lemma PaddleDeviceNormalises(device: string)
    ensures PaddleDevice(device) != "cuda"
    ensures PaddleDevice(PaddleDevice(device)) == PaddleDevice(device)
  {
  }

  /** With the default settings the detector is loaded on "gpu". */
  lemma DefaultDeviceIsGpu()
    ensures PaddleDevice(Config.Defaults.device) == "gpu"
  {
  }

  function Min(xs: seq<int>): (m: int)
    requires |xs| > 0
    ensures m in xs
    ensures forall i | 0 <= i < |xs| :: m <= xs[i]
  {
    if |xs| == 1 then xs[0]
    else
      var rest := Min(xs[1..]);
      assert forall i | 1 <= i < |xs| :: xs[i] == xs[1..][i - 1];
      if xs[0] <= rest then xs[0] else rest
  }

  function Max(xs: seq<int>): (m: int)
    requires |xs| > 0
    ensures m in xs
    ensures forall i | 0 <= i < |xs| :: xs[i] <= m
  {
    if |xs| == 1 then xs[0]
    else
      var rest := Max(xs[1..]);
      assert forall i | 1 <= i < |xs| :: xs[i] == xs[1..][i - 1];
      if xs[0] >= rest then xs[0] else rest
  }

  /** `polygon[:, 0]` and `polygon[:, 1]`. */
  function Xs(p: Polygon): (xs: seq<int>)
    ensures |xs| == |p| && forall i | 0 <= i < |p| :: xs[i] == p[i].x
  {
    seq(|p|, i requires 0 <= i < |p| => p[i].x)
  }

  function Ys(p: Polygon): (ys: seq<int>)
    ensures |ys| == |p| && forall i | 0 <= i < |p| :: ys[i] == p[i].y
  {
    seq(|p|, i requires 0 <= i < |p| => p[i].y)
  }

  predicate Inside(v: Point, b: BoundingBox) {
    b.x <= v.x as real <= b.x + b.width && b.y <= v.y as real <= b.y + b.height
  }

  /** Every vertex of `p` lies in `b`. */
  predicate Encloses(b: BoundingBox, p: Polygon) {
    forall i | 0 <= i < |p| :: Inside(p[i], b)
  }

  /** The rectangle of one polygon; a polygon without vertices makes numpy's
      `min()` raise. */
  function PolygonToBox(p: Polygon): (r: Result<BoundingBox, Error>)
    ensures r.Failure? <==> |p| == 0
    ensures r.Failure? ==> r.error == EmptyPolygon
    ensures r.Success? ==> r.value.width >= 0.0 && r.value.height >= 0.0
    ensures r.Success? ==> Encloses(r.value, p)
  {
    if |p| == 0 then Failure(EmptyPolygon)
    else
      var xs, ys := Xs(p), Ys(p);
      var x0, y0 := Min(xs), Min(ys);
      Success(BoundingBox(x0 as real, y0 as real, (Max(xs) - x0) as real, (Max(ys) - y0) as real))
  }

  /** The rectangle is the smallest axis-aligned one enclosing the polygon:
      every enclosing rectangle contains it. */
  lemma PolygonBoxIsSmallest(p: Polygon, b: BoundingBox)
    requires |p| > 0 && Encloses(b, p)
    ensures var r := PolygonToBox(p).value;
      && b.x <= r.x && r.x + r.width <= b.x + b.width
      && b.y <= r.y && r.y + r.height <= b.y + b.height
  {
    var xs, ys := Xs(p), Ys(p);
    var i :| 0 <= i < |xs| && xs[i] == Min(xs);
    var j :| 0 <= j < |xs| && xs[j] == Max(xs);
    var k :| 0 <= k < |ys| && ys[k] == Min(ys);
    var l :| 0 <= l < |ys| && ys[l] == Max(ys);
    assert Inside(p[i], b) && Inside(p[j], b) && Inside(p[k], b) && Inside(p[l], b);
  }

  /** A rectangle enclosing a polygon encloses any reordering of it. */
  lemma EnclosesReordering(b: BoundingBox, p: Polygon, q: Polygon)
    requires multiset(p) == multiset(q) && Encloses(b, p)
    ensures Encloses(b, q)
  {
    forall i | 0 <= i < |q| ensures Inside(q[i], b) {
      assert q[i] in multiset(q);
      assert q[i] in p;
    }
  }

  /** Reordering a polygon's vertices does not change its rectangle. */
  lemma PolygonBoxPermutationInvariant(p: Polygon, q: Polygon)
    requires multiset(p) == multiset(q)
    ensures PolygonToBox(p) == PolygonToBox(q)
  {
    assert |p| == |multiset(p)| == |multiset(q)| == |q|;
    if |p| > 0 {
      var bp, bq := PolygonToBox(p).value, PolygonToBox(q).value;
      EnclosesReordering(bp, p, q);
      EnclosesReordering(bq, q, p);
      PolygonBoxIsSmallest(q, bp);
      PolygonBoxIsSmallest(p, bq);
      assert bp.x == bq.x && bp.y == bq.y;
      assert bp.width == bq.width && bp.height == bq.height;
      assert bp == bq;
    }
  }

  /** A bound attained by an element is the minimum. */
  lemma MinIs(xs: seq<int>, v: int, i: nat)
    requires i < |xs| && xs[i] == v
    requires forall j | 0 <= j < |xs| :: v <= xs[j]
    ensures Min(xs) == v
  {
    var m := Min(xs);
    var a :| 0 <= a < |xs| && xs[a] == m;
  }

  /** A bound attained by an element is the maximum. */
  lemma MaxIs(xs: seq<int>, v: int, i: nat)
    requires i < |xs| && xs[i] == v
    requires forall j | 0 <= j < |xs| :: xs[j] <= v
    ensures Max(xs) == v
  {
    var m := Max(xs);
    var a :| 0 <= a < |xs| && xs[a] == m;
  }

  /** The rectangle in terms of the extreme coordinates: when every vertex
      lies in `[x0, x1] × [y0, y1]` and each bound is attained by some
      vertex, the rectangle is `(x0, y0, x1 - x0, y1 - y0)`. */
  lemma PolygonBoxOfBounds(p: Polygon, x0: int, x1: int, y0: int, y1: int, i: nat, j: nat, k: nat, l: nat)
    requires i < |p| && j < |p| && k < |p| && l < |p|
    requires p[i].x == x0 && p[j].x == x1 && p[k].y == y0 && p[l].y == y1
    requires forall v | 0 <= v < |p| :: x0 <= p[v].x <= x1 && y0 <= p[v].y <= y1
    ensures PolygonToBox(p).Success?
    ensures PolygonToBox(p).value == BoundingBox(x0 as real, y0 as real, (x1 - x0) as real, (y1 - y0) as real)
  {
    var xs, ys := Xs(p), Ys(p);
    MinIs(xs, x0, i);
    MaxIs(xs, x1, j);
    MinIs(ys, y0, k);
    MaxIs(ys, y1, l);
  }

  /** The worked example: the quadrilateral (10,20) (100,20) (100,50) (10,50). */
  lemma PolygonToBoxExample()
    ensures PolygonToBox([Point(10, 20), Point(100, 20), Point(100, 50), Point(10, 50)])
         == Success(BoundingBox(10.0, 20.0, 90.0, 30.0))
  {
    PolygonBoxOfBounds([Point(10, 20), Point(100, 20), Point(100, 50), Point(10, 50)], 10, 100, 20, 50, 0, 1, 0, 2);
  }

  /** Width and height can be zero: a polygon collapsed onto a vertical line. */
  lemma DegeneratePolygonHasZeroWidth()
    ensures PolygonToBox([Point(5, 1), Point(5, 9)]) == Success(BoundingBox(5.0, 1.0, 0.0, 8.0))
  {
    PolygonBoxOfBounds([Point(5, 1), Point(5, 9)], 5, 5, 1, 9, 0, 0, 0, 1);
  }

  /** The polygons of one detector entry; none when `dt_polys` is absent. */
  function EntryPolygons(d: Detection): seq<Polygon> {
    match d.dtPolys
    case None => []
    case Some(ps) => ps
  }

  /** All polygons of the detector output, by entry and then by position. */
  function AllPolygons(output: seq<Detection>): seq<Polygon>
  {
    if output == [] then [] else EntryPolygons(output[0]) + AllPolygons(output[1..])
  }

  /** `boxes` are the rectangles of `polys`, one each, in order. */
  predicate BoxesFor(boxes: seq<BoundingBox>, polys: seq<Polygon>) {
    && |boxes| == |polys|
    && forall i | 0 <= i < |polys| :: PolygonToBox(polys[i]) == Success(boxes[i])
  }

  predicate AllHaveVertices(polys: seq<Polygon>) {
    forall i | 0 <= i < |polys| :: |polys[i]| > 0
  }

  lemma BoxesForAppend(b1: seq<BoundingBox>, p1: seq<Polygon>, b2: seq<BoundingBox>, p2: seq<Polygon>)
    requires BoxesFor(b1, p1) && BoxesFor(b2, p2)
    ensures BoxesFor(b1 + b2, p1 + p2)
  {
    assert forall i | |p1| <= i < |p1 + p2| :: (p1 + p2)[i] == p2[i - |p1|] && (b1 + b2)[i] == b2[i - |p1|];
  }

  lemma AllHaveVerticesAppend(p1: seq<Polygon>, p2: seq<Polygon>)
    ensures AllHaveVertices(p1 + p2) <==> AllHaveVertices(p1) && AllHaveVertices(p2)
  {
    assert forall i | 0 <= i < |p1| :: (p1 + p2)[i] == p1[i];
    assert forall i | 0 <= i < |p2| :: (p1 + p2)[|p1| + i] == p2[i];
  }

  /** The inner loop over one entry's polygons. */
  function BoxesOf(polys: seq<Polygon>): (r: Result<seq<BoundingBox>, Error>)
    ensures r.Success? <==> AllHaveVertices(polys)
    ensures r.Success? ==> BoxesFor(r.value, polys)
    ensures r.Failure? ==> r.error == EmptyPolygon
  {
    if polys == [] then Success([])
    else
      var first := PolygonToBox(polys[0]);
      if first.Failure? then Failure(first.error)
      else
        var rest := BoxesOf(polys[1..]);
        assert polys == [polys[0]] + polys[1..];
        AllHaveVerticesAppend([polys[0]], polys[1..]);
        if rest.Failure? then Failure(rest.error)
        else
          BoxesForAppend([first.value], [polys[0]], rest.value, polys[1..]);
          Success([first.value] + rest.value)
  }

  /** The rectangles of `detect_boxes`: the outer loop over detector entries
      (an entry without polygons is skipped), the inner loop over each
      entry's polygons. One rectangle per polygon, by entry and then by
      position; the first polygon without vertices raises. */
  function DetectBoxes(output: seq<Detection>): (r: Result<seq<BoundingBox>, Error>)
    ensures r.Success? <==> AllHaveVertices(AllPolygons(output))
    ensures r.Success? ==> BoxesFor(r.value, AllPolygons(output))
    ensures r.Failure? ==> r.error == EmptyPolygon
  {
    if output == [] then Success([])
    else
      var polys := EntryPolygons(output[0]);
      var head := BoxesOf(polys);
      AllHaveVerticesAppend(polys, AllPolygons(output[1..]));
      if head.Failure? then Failure(head.error)
      else
        var rest := DetectBoxes(output[1..]);
        if rest.Failure? then Failure(rest.error)
        else
          BoxesForAppend(head.value, polys, rest.value, AllPolygons(output[1..]));
          Success(head.value + rest.value)
  }

  /** Entries without polygons contribute nothing; an empty output gives no boxes. */
  lemma EmptyEntriesContributeNothing(output: seq<Detection>)
    requires forall i | 0 <= i < |output| :: output[i].dtPolys.None? || output[i].dtPolys == Some([])
    ensures DetectBoxes(output) == Success([])
  {
    assert AllPolygons(output) == [] by {
      AllPolygonsOfEmptyEntries(output);
    }
  }

  lemma {:induction false} AllPolygonsOfEmptyEntries(output: seq<Detection>)
    requires forall i | 0 <= i < |output| :: output[i].dtPolys.None? || output[i].dtPolys == Some([])
    ensures AllPolygons(output) == []
    decreases |output|
  {
    if output != [] {
      AllPolygonsOfEmptyEntries(output[1..]);
    }
  }

  /** `detect_boxes(image)`: one detector call, then the rectangles of its output. */
  function Detect(detector: TextDetector, image: Image): (run: Run<seq<BoundingBox>>)
    ensures run.calls == [DetectCall(image)]
    ensures detector(image).Failure? ==> run.result == detector(image).PropagateFailure()
    ensures detector(image).Success? ==> run.result == DetectBoxes(detector(image).value)
  {
    match detector(image)
    case Failure(e) => Run(Failure(e), [DetectCall(image)])
    case Success(output) => Run(DetectBoxes(output), [DetectCall(image)])
  }
}
