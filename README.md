# Drawing calculator page: session state, bounds scan and result overlays

This project models the logic inside the drawing page of the calculator,
`mycalculator/src/pages/home/index.tsx`. On that page a user draws an expression on a canvas and submits it
to a solving service. The service's answers then appear as draggable overlays
next to the drawing. The model covers four pieces:

- **Bounds scan** (`BoundsScan`). The nested row/column loop of `runRoute`
  walks the RGBA pixel buffer. It keeps running `minX`/`minY`/`maxX`/`maxY`
  over the pixels whose alpha byte is above zero and derives the centre
  `((minX+maxX)/2, (minY+maxY)/2)`. `ComputeBounds` is an imperative method
  over an `array<byte>`. It is proved against `IsScanResult`, which says
  outright what the result is: with any marked pixel, the tightest box (every
  marked pixel inside it, every side touched by one); with none, the initial
  values `width`, `height`, 0, 0.
- **Variable bindings** (`Bindings`). `ApplyAssignments` is the left fold of
  the queued `{...prev, [expr]: result}` updates over the response. It is
  related to an independent reading, `LastAssigned`, that scans from the end
  for the last assigning entry.
- **Overlays** (`Overlays`). `AppendOverlay` is the update of
  `renderLatexToCanvas`. `AppendAll` runs the delayed callbacks of one
  response in order.
- **Session** (`Home.Session`). A class whose fields are the page's state
  hooks: `isDrawing`, `color`, `reset`, `vars` (`dictOfVars`), `result` and
  `overlays` (`latexExpressions`). Two more fields stand for the canvas: the
  raster is a log of the segments every `stroke()` painted, and `path` holds
  the points of the canvas's open path. The methods are the event handlers
  and the reset effect.

The page has some behaviour that is easy to miss. The model keeps all of it:

- On a blank canvas the scan keeps its initial bounds `(width, height, 0, 0)`,
  so the overlays are placed at `(width/2, height/2)` (`BlankCanvasCentre`).
- The reset effect clears the canvas, the overlays, the result and the
  bindings. It leaves the drawing state and the open path as they were.
- Each mouse-move strokes the whole open path again, in the colour current at
  that moment. So after a reset in mid-stroke, the next move paints the
  segments from before the reset again (`RepaintAfterReset`). After a colour
  change in mid-stroke, the next move paints the path over in the new colour
  (`RecolourOpenPath`).
- Dragging never changes a stored overlay position. The drag-end handler is
  empty.
- Overlay ids are clock readings, so two callbacks that fire together can get
  the same id. The ids are a parameter, and the model claims nothing about
  their uniqueness.
- The pixel buffer is read after the service answers, so it holds whatever is
  on the canvas at that moment. It is a parameter of `RunRoute`.
- Reading the pixels of a canvas with no width or no height throws. The
  handler then stops after queuing the binding updates and shows no overlay
  (`RunRoute` returns `None`).
- Resetting does not cancel a submission in flight. A response handled after
  the reset effect fills the bindings again (`LateRouteAfterReset`), and its
  delayed results fill the overlay list again (`LateDeliveryAfterReset`).

## Model

| member | source | states |
|---|---|---|
| BoundsScan.ComputeBounds | mycalculator/src/pages/home/index.tsx:153-167 | The nested scan returns the tightest box around the pixels whose alpha byte is above zero (each marked pixel inside it, each of the four bounds attained by a marked pixel), or `(width, height, 0, 0)` when no pixel is marked |
| BoundsScan.AlphaIndexInRange | mycalculator/src/pages/home/index.tsx:157-160 | Every alpha index `(y*width+x)*4+3` the scan reads lies inside a buffer of `width*height*4` bytes |
| BoundsScan.AlphaIndexInjective | mycalculator/src/pages/home/index.tsx:159-160 | Two pixels of one row width that share an alpha index are the same pixel, so each pixel is tested on its own byte |
| BoundsScan.ScanResultUnique | mycalculator/src/pages/home/index.tsx:155-167 | The buffer alone determines the scan's outcome: any two results satisfying the scan's specification are equal |
| BoundsScan.CentreInsideBox | mycalculator/src/pages/home/index.tsx:169-170 | When some pixel is marked, the centre lies within the scanned box on both axes |
| BoundsScan.Centre | mycalculator/src/pages/home/index.tsx:169-170 | The centre is the midpoint of the box on each axis: equally far from the two bounds, and between them when the box is not empty |
| BoundsScan.BlankCanvasCentre | mycalculator/src/pages/home/index.tsx:155-170 | With no marked pixel the bounds stay `(width, height, 0, 0)` and the centre is `(width/2, height/2)` |
| BoundsScan.SingleMarkCentre | mycalculator/src/pages/home/index.tsx:157-170 | A single marked pixel (x, y) gives `minX = maxX = x`, `minY = maxY = y` and the centre (x, y) |
| BoundsScan.TwoMarksCentre | mycalculator/src/pages/home/index.tsx:157-170 | Marks only at (10, 10) and (50, 40) give the box (10, 10)-(50, 40) and the centre (30, 25) |
| Bindings.Assign | mycalculator/src/pages/home/index.tsx:148-149 | One entry's update: an assigning entry binds its expression to its result; every other key, and every key for an entry that does not assign, keeps its previous value or its absence |
| Bindings.ApplyAssignments | mycalculator/src/pages/home/index.tsx:147-151 | After a response the bound names are exactly the previous ones plus the expressions of the assigning entries |
| Bindings.ApplyAssignmentsAppend | mycalculator/src/pages/home/index.tsx:147-151 | The update is a left fold: applying a concatenated response equals applying its two parts in turn |
| Bindings.ApplyAssignmentsLookup | mycalculator/src/pages/home/index.tsx:147-151 | A key with an assigning entry is bound to the result of its last such entry in response order; every other key keeps its previous value or its absence |
| Bindings.UnassignedEntryIgnored | mycalculator/src/pages/home/index.tsx:148 | An entry with `assign` false changes nothing, wherever it stands in the response |
| Bindings.LastAssignmentWins | mycalculator/src/pages/home/index.tsx:147-151 | Two assigning entries for the same expression: the later one's result is what stays bound |
| Overlays.Caption | mycalculator/src/pages/home/index.tsx:93 | The caption is the expression, then `" = "`, then the answer, each at its own fixed offsets, so an overlay's text begins with its expression and ends with its answer |
| Overlays.AppendOverlay | mycalculator/src/pages/home/index.tsx:92-96 | Appending grows the list by exactly one and leaves earlier entries unchanged; the new entry has the given id, the caption `expr = answer` and the given position |
| Overlays.AppendAll | mycalculator/src/pages/home/index.tsx:172-177 | Running one response's delayed callbacks in order adds exactly as many overlays as the response has entries, after the existing ones, which stay unchanged |
| Overlays.AppendAllContents | mycalculator/src/pages/home/index.tsx:172-177 | A response of n entries, whether assigning or not, adds exactly n overlays after the existing ones, in response order, all at the one computed centre; an empty response adds none |
| Home.PathSegments | mycalculator/src/pages/home/index.tsx:127-129 | One stroke paints each consecutive pair of points of the open path as a segment, in order, all in the current stroke colour |
| Home.Session.constructor | mycalculator/src/pages/home/index.tsx:45-50 | The page starts not drawing, white colour, reset flag down, no bindings, no result, no overlays and a blank canvas |
| Home.Session.StartDrawing | mycalculator/src/pages/home/index.tsx:108-119 | Mouse-down starts a new open path holding only the pointer and sets `isDrawing`; nothing else changes |
| Home.Session.Draw | mycalculator/src/pages/home/index.tsx:121-132 | When drawing, the pointer is added to the open path and the whole path is painted again in the current colour, the new segment from the previous end to the pointer last; when not drawing, nothing changes |
| Home.Session.StopDrawing | mycalculator/src/pages/home/index.tsx:134-136 | Mouse-up and mouse-out clear `isDrawing` and change nothing else |
| Home.Session.SetColor | mycalculator/src/pages/home/index.tsx:194 | Selecting a swatch sets the colour and changes nothing already painted; the colour takes effect at the next stroke |
| Home.Session.PressReset | mycalculator/src/pages/home/index.tsx:185 | The Reset button raises the `reset` flag and changes nothing else |
| Home.Session.ResetEffect | mycalculator/src/pages/home/index.tsx:54-62 | A raised flag empties the canvas, overlays, result and bindings and is lowered; a lowered flag changes nothing; the drawing state, the open path and the colour are kept |
| Home.Session.DeliverResults | mycalculator/src/pages/home/index.tsx:172-177 | The callbacks append one overlay per entry at the centre, in order, and leave the last entry as the current result; an empty response leaves both unchanged |
| Home.Session.RunRoute | mycalculator/src/pages/home/index.tsx:138-178 | Handling a response always folds its assignments into the bindings. On a canvas with no width or no height the pixel read fails and no overlay or result is delivered. Otherwise the buffer is scanned for its bounds and every entry's overlay is appended at that box's centre |
| Home.Session.DragEnd | mycalculator/src/pages/home/index.tsx:224 | Releasing a dragged overlay changes no stored overlay |
| Home.SubmitOneResult | mycalculator/src/pages/home/index.tsx:138-178 | Marks bounding (10, 10)-(50, 40) with an answer `2+2 = 4` that assigns nothing give one overlay reading `2+2 = 4` at (30, 25) and leave the bindings empty |
| Home.LateDeliveryAfterReset | mycalculator/src/pages/home/index.tsx:54-62 | Results delivered after the reset effect make the overlay list exactly the new response's overlays, while the bindings and the canvas stay cleared |
| Home.LateRouteAfterReset | mycalculator/src/pages/home/index.tsx:138-151 | A response handled after the reset effect refills the cleared bindings with exactly its own assignments |
| Home.RepaintAfterReset | mycalculator/src/pages/home/index.tsx:98-129 | `clearRect` leaves the path open: after mouse-down at a, a move to b, a reset and a move to c, the canvas shows a→b again and then b→c |
| Home.RecolourOpenPath | mycalculator/src/pages/home/index.tsx:121-129 | After a colour change in mid-stroke, the next move paints the earlier segment again in the new colour, followed by the new segment |

## Left out

- The HTTP request to the solving service and the PNG serialisation of the canvas are network and browser I/O. The response is an input `seq<Response>`, and the request's body is not modelled.
- Canvas rasterisation is not modelled: the pixels a segment covers, line cap and width, the black background, window sizing. These are browser graphics. The raster is the log of segments each `stroke()` paints, which `clearRect` empties. The pixel buffer that the scan reads is a separate parameter. The model does not tie that buffer to the segment log.
- The MathJax script loading and configuration are left out, because they load an external library.
- The one-second `setTimeout` and React's batching of state updates are left out. The delayed callbacks of one response run in response order, right after the bindings update.
- `Date.now()` ids are clock input. They are taken as a parameter, and no uniqueness is claimed.
- The drag transform and the JSX rendering are UI. The only part kept is that releasing a drag changes no stored position.
- Pointer offsets and positions are reals. JavaScript number rounding is not modelled. The centre is exact, because its operands are integers.
