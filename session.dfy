/**
 * The drawing page's session state (the `useState` hooks of `Home`) and the
 * event handlers that change it. The raster is represented by the log of
 * segments stroked on it; `runRoute` reads a pixel buffer given as a parameter.
 */
module Home {
  import opened Common
  import opened BoundsScan
  import opened Bindings
  import opened Overlays

  /** A straight piece of the canvas path painted by `stroke()`, in the stroke colour of that call. */
  datatype Segment = Segment(from: Point, to: Point, color: string)

  /**
   * What one `stroke()` paints: every consecutive pair of points of the open
   * path, as one segment each, all in the current stroke colour.
   */
  function PathSegments(path: seq<Point>, color: string): (r: seq<Segment>)
    ensures |path| > 0 ==> |r| == |path| - 1
    ensures |path| == 0 ==> r == []
    ensures forall i :: 0 <= i < |r| ==> r[i] == Segment(path[i], path[i + 1], color)
    decreases |path|
  {
    if |path| < 2 then []
    else PathSegments(path[..|path| - 1], color) + [Segment(path[|path| - 2], path[|path| - 1], color)]
  }

  /** The most recently delivered result (`GeneratedResult`). */
  datatype GeneratedResult = GeneratedResult(expression: string, answer: string)

  /** The colour selected when the page loads. */
  const InitialColor: string := "rgb(255, 255, 255)"

  class Session {
    var isDrawing: bool
    var color: string
    var reset: bool
    var vars: Vars
    var result: Option<GeneratedResult>
    var overlays: seq<Overlay>
    /** What has been stroked on the canvas since it was last cleared. */
    var strokes: seq<Segment>
    /**
     * The points of the canvas's open path: `beginPath` + `moveTo` start it,
     * each `lineTo` extends it, and nothing else (not even `clearRect`) ends it.
     */
    var path: seq<Point>

    /** Drawing only happens after a path has been started. */
    ghost predicate Valid()
      reads this
    {
      isDrawing ==> |path| > 0
    }

    constructor ()
      ensures Valid()
      ensures !isDrawing && color == InitialColor && !reset
      ensures vars == map[] && result == None && overlays == [] && strokes == [] && path == []
    {
      isDrawing, color, reset := false, InitialColor, false;
      vars, result, overlays := map[], None, [];
      strokes, path := [], [];
    }

    /** Mouse-down: begin a new path at the pointer and enter the drawing state. */
    method StartDrawing(p: Point)
      modifies this
      ensures Valid()
      ensures isDrawing && path == [p]
      ensures color == old(color) && reset == old(reset) && vars == old(vars) && result == old(result)
      ensures overlays == old(overlays) && strokes == old(strokes)
    {
      path := [p];
      isDrawing := true;
    }

    /**
     * Mouse-move: when drawing, extend the open path to the pointer and stroke
     * it, which paints the whole path again in the current colour, the new
     * segment last; otherwise nothing.
     */
    method Draw(p: Point)
      requires Valid()
      modifies this
      ensures Valid()
      ensures old(isDrawing) ==> path == old(path) + [p] && strokes == old(strokes) + PathSegments(path, color)
      ensures old(isDrawing) ==> strokes[|strokes| - 1] == Segment(old(path)[|old(path)| - 1], p, color)
      ensures !old(isDrawing) ==> strokes == old(strokes) && path == old(path)
      ensures isDrawing == old(isDrawing) && color == old(color) && reset == old(reset)
      ensures vars == old(vars) && result == old(result) && overlays == old(overlays)
    {
      if !isDrawing {
        return;
      }
      path := path + [p];
      strokes := strokes + PathSegments(path, color);
    }

    /** Mouse-up and mouse-out: leave the drawing state. */
    method StopDrawing()
      requires Valid()
      modifies this`isDrawing
      ensures Valid() && !isDrawing
    {
      isDrawing := false;
    }

    /** A colour swatch click: later segments use `c`; what is already stroked keeps its colour. */
    method SetColor(c: string)
      requires Valid()
      modifies this`color
      ensures Valid() && color == c
    {
      color := c;
    }

    /** The Reset button raises the `reset` flag. */
    method PressReset()
      requires Valid()
      modifies this`reset
      ensures Valid() && reset
    {
      reset := true;
    }

    /**
     * The effect that runs when `reset` changes: if it is raised, clear the
     * canvas, the overlays, the current result and the bindings, then lower it.
     * The drawing state and the current path are left as they were.
     */
    method ResetEffect()
      requires Valid()
      modifies this
      ensures Valid() && !reset
      ensures old(reset) ==> strokes == [] && overlays == [] && result == None && vars == map[]
      ensures !old(reset) ==> strokes == old(strokes) && overlays == old(overlays) && result == old(result) && vars == old(vars)
      ensures isDrawing == old(isDrawing) && path == old(path) && color == old(color)
    {
      if reset {
        strokes := [];
        overlays := [];
        result := None;
        vars := map[];
        reset := false;
      }
    }

    /** The delayed callbacks of one response, run in order: each records its result and appends its overlay. */
    method DeliverResults(resp: seq<Response>, ids: seq<string>, centre: Point)
      requires Valid() && |ids| == |resp|
      modifies this`result, this`overlays
      ensures Valid()
      ensures overlays == AppendAll(old(overlays), resp, ids, centre)
      ensures result == if resp == [] then old(result)
                        else Some(GeneratedResult(resp[|resp| - 1].expr, resp[|resp| - 1].result))
    {
      ghost var want := AppendAll(overlays, resp, ids, centre);
      for k := 0 to |resp|
        invariant AppendAll(overlays, resp[k..], ids[k..], centre) == want
        invariant result == if k == 0 then old(result)
                            else Some(GeneratedResult(resp[k - 1].expr, resp[k - 1].result))
      {
        assert resp[k..][0] == resp[k] && resp[k..][1..] == resp[k + 1..];
        assert ids[k..][0] == ids[k] && ids[k..][1..] == ids[k + 1..];
        result := Some(GeneratedResult(resp[k].expr, resp[k].result));
        overlays := AppendOverlay(overlays, ids[k], resp[k].expr, resp[k].result, centre);
      }
      assert resp[|resp|..] == [];
    }

    /**
     * `runRoute` once the service has answered: fold the assignments into the
     * bindings, then read the canvas's pixels, scan them for their bounds and
     * deliver every entry as an overlay at the box's centre. Reading the
     * pixels of a canvas with no width or no height throws, so then the
     * handler stops after the bindings update and nothing is delivered
     * (`None`). Otherwise it returns the box it scanned.
     */
    method RunRoute(data: array<byte>, width: nat, height: nat, resp: seq<Response>, ids: seq<string>)
      returns (box: Option<Box>)
      requires Valid()
      requires data.Length == width * height * 4 && |ids| == |resp|
      modifies this`vars, this`result, this`overlays
      ensures Valid()
      ensures vars == ApplyAssignments(old(vars), resp)
      ensures box.None? <==> width == 0 || height == 0
      ensures box.None? ==> overlays == old(overlays) && result == old(result)
      ensures box.Some? ==> IsScanResult(data[..], width, height, box.value)
      ensures box.Some? ==> overlays == AppendAll(old(overlays), resp, ids, Centre(box.value))
      ensures box.Some? ==> result == if resp == [] then old(result)
                                      else Some(GeneratedResult(resp[|resp| - 1].expr, resp[|resp| - 1].result))
    {
      vars := ApplyAssignments(vars, resp);
      if width == 0 || height == 0 {
        return None;
      }
      var b := ComputeBounds(data, width, height);
      DeliverResults(resp, ids, Centre(b));
      box := Some(b);
    }

    /** Releasing a dragged overlay: the handler is empty, so no stored position ever changes. */
    method DragEnd(id: string)
      requires Valid()
      ensures Valid() && overlays == old(overlays)
    {
    }
  }

  /**
   * The end-to-end run: marks bounding (10, 10)-(50, 40), an empty binding set,
   * and a service answer `2+2 = 4` that assigns nothing give one overlay
   * reading "2+2 = 4" at (30, 25) and leave the bindings empty.
   */
  method SubmitOneResult(data: array<byte>, width: nat, height: nat, id: string) returns (s: Session)
    requires data.Length == width * height * 4
    requires forall x, y :: Marked(data[..], width, height, x, y) <==> (x == 10 && y == 10) || (x == 50 && y == 40)
    ensures s.overlays == [Overlay(id, "2+2 = 4", Point(30.0, 25.0))]
    ensures s.vars == map[]
  {
    assert Marked(data[..], width, height, 10, 10);
    s := new Session();
    var resp := [Response("2+2", "4", false)];
    var box := s.RunRoute(data, width, height, resp, [id]);
    TwoMarksCentre(data[..], width, height, box.value);
    AppendAllContents([], resp, [id], Centre(box.value));
    assert Caption("2+2", "4") == "2+2 = 4";
  }

  /**
   * Reset does not cancel a submission in flight: results delivered after the
   * reset effect repopulate the cleared overlay list.
   */
  method LateDeliveryAfterReset(s: Session, resp: seq<Response>, ids: seq<string>, centre: Point)
    requires s.Valid() && |ids| == |resp|
    modifies s
    ensures s.Valid()
    ensures s.overlays == AppendAll([], resp, ids, centre)
    ensures s.vars == map[] && s.strokes == []
  {
    s.PressReset();
    s.ResetEffect();
    s.DeliverResults(resp, ids, centre);
  }

  /**
   * The other half of the same race: a response handled after the reset
   * effect refills the cleared bindings with its assignments.
   */
  method LateRouteAfterReset(s: Session, data: array<byte>, width: nat, height: nat,
                             resp: seq<Response>, ids: seq<string>)
    requires s.Valid() && data.Length == width * height * 4 && |ids| == |resp|
    modifies s
    ensures s.Valid()
    ensures s.vars == ApplyAssignments(map[], resp)
    ensures s.strokes == []
  {
    s.PressReset();
    s.ResetEffect();
    var _ := s.RunRoute(data, width, height, resp, ids);
  }

  /**
   * A reset in mid-stroke clears the canvas but not the open path: the next
   * mouse-move paints the segments from before the reset again, in the
   * current colour, followed by the new one.
   */
  method RepaintAfterReset(s: Session, a: Point, b: Point, c: Point)
    modifies s
    ensures s.strokes == [Segment(a, b, s.color), Segment(b, c, s.color)]
    ensures s.overlays == [] && s.vars == map[]
  {
    s.StartDrawing(a);
    s.Draw(b);
    s.PressReset();
    s.ResetEffect();
    s.Draw(c);
  }

  /**
   * A colour change in mid-stroke: the next mouse-move paints the whole open
   * path again in the new colour, over the segment painted in the old one.
   */
  method RecolourOpenPath(s: Session, a: Point, b: Point, c: Point, col: string)
    modifies s
    ensures s.strokes == old(s.strokes) + [Segment(a, b, old(s.color))] + [Segment(a, b, col), Segment(b, c, col)]
  {
    s.StartDrawing(a);
    s.Draw(b);
    s.SetColor(col);
    s.Draw(c);
  }
}
