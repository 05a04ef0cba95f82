# Facial-expression overlay: the detection tick, modelled in Dafny

The repository holds two React components that show a webcam feed and, every
so often, ask face-api.js for the faces in the current frame. This project
models what those components compute once the browser, the camera and
face-api.js are taken as given:

- **Dominant expression** (`expressions.dfy`, module `Expressions`). A face's
  expression object is modelled as its own keys in iteration order plus the
  property lookup. `Dominant` is `Object.keys(e).reduce((prev, curr) =>
  e[prev] > e[curr] ? prev : curr)`. Scores are exact reals.
- **Overlay text** (`format.dfy`, module `Format`). The label
  `` `${emotion} (${Math.round(score * 100)}%)` `` is built with `Math.round`
  modelled as rounding to the nearest integer, halves upwards. The percentage
  is written in decimal. A parser reads the label back.
- **Canvas** (`canvas.dfy`, modules `FaceApi` and `Canvas`). Detections are
  input data: a box and an expression object per face. The canvas is a list of
  abstract commands (`Resize`, `Clear`, `Rect`, `Text`, plus face-api.js's two
  opaque draw helpers). `Run` interprets them into the size and the drawings
  the user sees. Assigning a canvas's width or height resets its bitmap, so
  `Resize` wipes the drawings just as `Clear` does. face-api.js's
  `matchDimensions(canvas, {width, height})` is taken to assign exactly those
  two properties, so in `App` it is the command `Resize(videoWidth,
  videoHeight)`.
- **`EmotionRecognition` component** (`emotion_detector.dfy`, module
  `EmotionDetector`). One interval tick becomes a command list. The
  `faces.forEach` is `ForEachUntilThrow`: per item a first command and then a
  second one whose computation throws on some items, abandoning the rest of
  the loop. `DrawFaces` is that loop with the box and the label of a face. The
  `detectionIntervalRef` bookkeeping is a small state machine over the set of
  live interval handles.
- **`App` component** (`app.dfy`, module `App`). One tick becomes the new
  expression state plus a command list. The displayed expression is followed
  across a run of ticks. The intervals that `handleVideoOnPlay` leaves running
  are counted.

Three behaviours of the code are worth stating on their own terms:

- **Tie-break.** A first-wins tie-break would be the natural reading of
  "highest emotion". The code keeps `prev` only when it is strictly greater,
  so the LATER key wins (`Expressions.TieGoesToLaterKey`).
- **No scaling.** The `EmotionRecognition` component sizes the canvas to the
  video's native size and strokes the boxes at their native coordinates. It
  does not scale them to the displayed size of the video.
- **Overlapping calls.** Neither component prevents a tick from starting while
  an earlier tick's detection is still pending, so no "no-overlap" property is
  claimed.

## Model

| member | source | states |
|---|---|---|
| `Expressions.Dominant` | src/components/EmotionDetector.jsx:75-77 | the chosen label is one of the object's keys; no key scores higher than it; every key after it in iteration order scores strictly lower, so ties go to the later key |
| `Expressions.ReduceFrom` | src/components/EmotionDetector.jsx:75-77 | continuing the reduce from an accumulator that is the last maximum of the keys seen so far ends at the last maximum of the whole object |
| `Expressions.DominantIsLastMax` | src/components/EmotionDetector.jsx:75-77 | the reduce returns the key at position q exactly when q is the last position holding a maximal score (an independent, declarative definition of the argmax) |
| `Expressions.LastMaxUnique` | src/components/EmotionDetector.jsx:75-77 | at most one position is the last maximum, so the declarative definition determines the result |
| `Expressions.TieGoesToLaterKey` | src/components/EmotionDetector.jsx:76 | with happy and sad both at 0.5, in that key order, the result is sad: an equal later key displaces the earlier one |
| `Expressions.ClearMaximumWins` | App.js:36-38 | with happy at 0.9 and the other keys at 0.05, the result is happy even though happy comes first |
| `Format.Round` | src/components/EmotionDetector.jsx:82 | `Math.round` gives the integer n with n - 1/2 <= x < n + 1/2: the nearest integer, a value halfway between two integers going up |
| `Format.RoundUnique` | src/components/EmotionDetector.jsx:82 | any integer within that half-open window is the rounded value |
| `Format.Percent` | src/components/EmotionDetector.jsx:82 | the printed percentage is within one half of score * 100, and lies in 0..100 for a score in [0, 1] |
| `Format.NatToString` | src/components/EmotionDetector.jsx:82 | the decimal rendering of a number is non-empty, digits only, and has no leading zero |
| `Format.IntToString` | src/components/EmotionDetector.jsx:82 | an integer renders as digits, with a leading minus sign exactly when it is negative |
| `Format.NatRoundTrip` | src/components/EmotionDetector.jsx:82 | reading back the decimal rendering of a natural number gives the number |
| `Format.IntRoundTrip` | src/components/EmotionDetector.jsx:82 | reading back the rendering of any integer gives the integer |
| `Format.LabelTextRoundTrip` | src/components/EmotionDetector.jsx:82 | the label text splits back into the expression name and the percentage it was built from, even when the name itself contains parentheses |
| `EmotionDetector.FaceLabel` | src/components/EmotionDetector.jsx:81-85 | the label of a face is text anchored at (box.x, box.y - 10) |
| `EmotionDetector.FaceLabelReadsBack` | src/components/EmotionDetector.jsx:74-85 | the label text reads back as the face's dominant expression and its rounded percentage; no key scores higher than the one shown; the percentage is in 0..100 for a probability |
| `EmotionDetector.ForEachFirstAt` | src/components/EmotionDetector.jsx:68-72 | in a `forEach` whose body can throw after its first command, item i's first command, when its turn is reached, is command 2i |
| `EmotionDetector.ForEachSecondAt` | src/components/EmotionDetector.jsx:68-86 | command 2i + 1, when issued, is item i's second command, and item i did not throw |
| `EmotionDetector.ForEachComplete` | src/components/EmotionDetector.jsx:68-86 | every item issues both commands exactly when no item throws |
| `EmotionDetector.ForEachStopsAtThrow` | src/components/EmotionDetector.jsx:68-86 | a loop cut short ends right after the first command of the first item that throws, and every earlier item issued both |
| `EmotionDetector.DrawFaces` | src/components/EmotionDetector.jsx:68-86 | the drawing of the faces consists of boxes and labels only, at most two commands per face |
| `EmotionDetector.DrawFacesBoxes` | src/components/EmotionDetector.jsx:68-72 | each face reached is stroked as its box at unscaled native coordinates (x, y, width, height), in detection order |
| `EmotionDetector.DrawFacesLabels` | src/components/EmotionDetector.jsx:74-85 | every label drawn directly follows its own face's box, and only faces with scores get one |
| `EmotionDetector.DrawFacesComplete` | src/components/EmotionDetector.jsx:68-86 | every face is drawn, box then label, exactly when every face has scores |
| `EmotionDetector.DrawFacesStopsAtUnscored` | src/components/EmotionDetector.jsx:68-86 | when the drawing falls short, it ends with the box of the first face without scores, where `reduce` throws; every earlier face is drawn in full |
| `EmotionDetector.TickGuarded` | src/components/EmotionDetector.jsx:54 | with the video ref, the canvas ref or the loaded-model flag missing, a tick issues no command, does not detect and leaves the canvas as it was |
| `EmotionDetector.TickWithoutContext` | src/components/EmotionDetector.jsx:55-60 | without a 2D context the tick has sized the canvas to the video and stops before detecting, leaving a blank canvas of native size |
| `EmotionDetector.TickDetectionRejected` | src/components/EmotionDetector.jsx:56-66 | when the awaited detection rejects, the tick requested detection but issues no clear: the callback stops after the resize, leaving a blank canvas of native size |
| `EmotionDetector.TickShowsCurrentFaces` | src/components/EmotionDetector.jsx:55-86 | a full tick starts with the resize to the video's size and the clear, and zero faces issue nothing else; after it the canvas has the video's native size and shows exactly this tick's faces, box then label, in detection order; nothing from earlier ticks survives, and zero faces leave it blank |
| `EmotionDetector.TickDrawsAtNativeSize` | src/components/EmotionDetector.jsx:56-85 | every box and label of a tick lands on a canvas already sized to the video's native dimensions, and after the clear |
| `EmotionDetector.OnVideoPlay` | src/components/EmotionDetector.jsx:50-53 | from a reachable state, starting detection leaves exactly one live interval, the new one, and stores its handle |
| `EmotionDetector.Unmount` | src/components/EmotionDetector.jsx:91-97 | from a reachable state, unmount cleanup leaves no live interval |
| `EmotionDetector.AtMostOneInterval` | src/components/EmotionDetector.jsx:51-53 | over any sequence of play events and unmounts, at most one interval is live; exactly one after a play, none after an unmount |
| `App.TickWithoutFaceChangesNothing` | App.js:30-34 | a tick with a missing ref, a rejected detection or an empty detection list keeps the expression and neither resizes, clears nor draws; it detects exactly when both refs are present |
| `App.TickDetectionRejected` | App.js:31-34 | when the awaited detection rejects, the expression stays and no canvas command is issued, although detection was requested |
| `App.TickTakesFirstFace` | App.js:35-39 | only the first detection decides the new expression, whatever the previous state and the other faces were; it is that face's highest-scoring key, ties going to the later key |
| `App.TickAlignsCanvas` | App.js:41-53 | a tick that finds a face sizes the canvas to the video's native size before clearing it; afterwards only face-api.js's detection and expression drawings are shown, all at native size |
| `App.DisplayedIsLatestUpdate` | App.js:7-39 | the displayed text is "Loading..." until a tick finds a face; after that it is the dominant expression of the first face of the latest such tick, and it is kept when faces disappear |
| `App.OnVideoPlay` | App.js:28-29 | each play event adds exactly one new live interval and removes none |
| `App.PlayTimesGrow` | App.js:28-29 | a later play count has every interval live that an earlier one had: nothing ever clears them |
| `App.IntervalsAccumulate` | App.js:28-55 | after n play events n intervals are live, and the live set never shrinks |

## Left out

- Model loading (`loadFromUri`), `detectAllFaces`, `resizeResults`, `matchDimensions` and the `draw.*` helpers are face-api.js code whose bodies are not visible. Detections are input data: the faces found, or `None` when the awaited detection rejects. `matchDimensions` is assumed to assign the canvas's width and height and nothing else. The two draw helpers are opaque commands. The result of `resizeResults` only feeds those helpers, so it is not modelled.
- Camera access (`getUserMedia`, `srcObject`) and stopping the stream's tracks on unmount are browser I/O.
- Timers are modelled as handle bookkeeping only. Real timing, and the interleaving of a tick with an earlier tick's pending `await`, are not modelled. Nothing in either component prevents two detection calls from overlapping.
- React hook semantics are not modelled. This includes effect ordering, state batching and the interval's stale capture of `isModelLoaded`. The flag is an input to each tick, taken as the value the callback sees.
- Error and status text, JSX markup, CSS, stroke and fill styles, and fonts are not modelled.
- Scores are exact reals. IEEE-754 effects of `score * 100` and `Math.round` are not modelled. Neither is JavaScript's `-0`: `Math.round` of a tiny negative score prints as `0` in both.
- Interval handles are positive integers issued in increasing order from 1. This matches browsers' unique non-zero handles. It also makes the truthiness tests on `detectionIntervalRef.current` the same as "a handle is stored".
- `Expressions.Dominant` requires a non-empty key list, because `reduce` without an initial value throws on one. The ticks do not need that precondition: a face without scores is modelled as the point where the callback is abandoned.
