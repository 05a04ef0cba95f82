/** The `EmotionRecognition` component: the body of the detection interval
    registered by `onVideoPlay`, as the canvas commands one tick issues, and the
    bookkeeping of the stored interval handle. */
module EmotionDetector {
  import opened Optional
  import opened Expressions
  import opened Format
  import opened FaceApi
  import opened Canvas

  /** The box of one face, drawn at its native coordinates without scaling. */
  function BoxRect(f: Face): Command
  {
    Rect(f.box.x, f.box.y, f.box.width, f.box.height)
  }

  /** The label of one face, anchored ten pixels above the box's top-left corner:
      the dominant expression and its score as a rounded percentage. */
  function FaceLabel(f: Face): (c: Command)
    requires HasScores(f)
    ensures c.Text? && c.x == f.box.x && c.y == f.box.y - 10.0
  {
    var e := Dominant(f.expressions);
    Text(LabelText(e, Percent(f.expressions.values[e])), f.box.x, f.box.y - 10.0)
  }

  /** A face's label reads back as its dominant expression and that expression's
      rounded percentage, which lies in 0..100 when the score is a probability;
      no other key scores higher than the one shown. */
  lemma FaceLabelReadsBack(f: Face)
    requires |f.expressions.keys| > 0
    ensures var e := Dominant(f.expressions);
            var score := f.expressions.values[e];
            && ParseLabelText(FaceLabel(f).s) == Some((e, Percent(score)))
            && (forall k :: k in f.expressions.values ==> f.expressions.values[k] <= score)
            && (0.0 <= score <= 1.0 ==> 0 <= Percent(score) <= 100)
  {
    var e := Dominant(f.expressions);
    LabelTextRoundTrip(e, Percent(f.expressions.values[e]));
  }

  predicate HasScores(f: Face)
  {
    |f.expressions.keys| > 0
  }

  /** `xs.forEach(x => { ...first(x)...; ...second(x)... })` where computing
      `second(x)` completes exactly for the items satisfying `completes` and
      throws for the others: that item's first command is already issued, and
      the items after it are abandoned. */
  function ForEachUntilThrow<T(!new)>(xs: seq<T>, first: T -> Command, second: T --> Command, completes: T -> bool): (r: seq<Command>)
    requires forall x :: completes(x) ==> second.requires(x)
    ensures |r| <= 2 * |xs|
    decreases |xs|
  {
    if |xs| == 0 then []
    else if !completes(xs[0]) then [first(xs[0])]
    else [first(xs[0]), second(xs[0])] + ForEachUntilThrow(xs[1..], first, second, completes)
  }

  /** Past a leading pair, a sequence is indexed as its rest. */
  lemma PairPrefixIndex<T>(a: T, b: T, rest: seq<T>, j: nat)
    requires j < |rest|
    ensures ([a, b] + rest)[j + 2] == rest[j]
  {
  }

  /** Item `i`, when its turn is reached, issues command `2 * i`. */
  lemma {:induction false} ForEachFirstAt<T(!new)>(xs: seq<T>, first: T -> Command, second: T --> Command, completes: T -> bool, i: nat)
    requires forall x :: completes(x) ==> second.requires(x)
    requires i < |xs| && 2 * i < |ForEachUntilThrow(xs, first, second, completes)|
    ensures ForEachUntilThrow(xs, first, second, completes)[2 * i] == first(xs[i])
    decreases i
  {
    if i > 0 {
      var tail := xs[1..];
      ForEachFirstAt(tail, first, second, completes, i - 1);
      PairPrefixIndex(first(xs[0]), second(xs[0]), ForEachUntilThrow(tail, first, second, completes), 2 * (i - 1));
      assert xs[i] == tail[i - 1];
    }
  }

  /** Command `2 * i + 1`, when issued, is the second command of item `i`, which
      did not throw. */
  lemma {:induction false} ForEachSecondAt<T(!new)>(xs: seq<T>, first: T -> Command, second: T --> Command, completes: T -> bool, i: nat)
    requires forall x :: completes(x) ==> second.requires(x)
    requires i < |xs| && 2 * i + 1 < |ForEachUntilThrow(xs, first, second, completes)|
    ensures completes(xs[i]) && ForEachUntilThrow(xs, first, second, completes)[2 * i + 1] == second(xs[i])
    decreases i
  {
    if i > 0 {
      var tail := xs[1..];
      ForEachSecondAt(tail, first, second, completes, i - 1);
      PairPrefixIndex(first(xs[0]), second(xs[0]), ForEachUntilThrow(tail, first, second, completes), 2 * (i - 1) + 1);
      assert xs[i] == tail[i - 1];
    }
  }

  /** Every item issues both commands exactly when none of them throws. */
  lemma {:induction false} ForEachComplete<T(!new)>(xs: seq<T>, first: T -> Command, second: T --> Command, completes: T -> bool)
    requires forall x :: completes(x) ==> second.requires(x)
    ensures (forall i :: 0 <= i < |xs| ==> completes(xs[i])) <==>
            |ForEachUntilThrow(xs, first, second, completes)| == 2 * |xs|
    decreases |xs|
  {
    if |xs| > 0 && completes(xs[0]) {
      var tail := xs[1..];
      ForEachComplete(tail, first, second, completes);
      if forall i :: 0 <= i < |tail| ==> completes(tail[i]) {
        forall i | 0 <= i < |xs|
          ensures completes(xs[i])
        {
          if i > 0 {
            assert xs[i] == tail[i - 1];
          }
        }
      }
      if forall i :: 0 <= i < |xs| ==> completes(xs[i]) {
        forall i | 0 <= i < |tail|
          ensures completes(tail[i])
        {
          assert tail[i] == xs[i + 1];
        }
      }
    }
  }

  /** A loop cut short ends right after the first command of the first item that
      throws; every earlier item issued both commands. */
  lemma {:induction false} ForEachStopsAtThrow<T(!new)>(xs: seq<T>, first: T -> Command, second: T --> Command, completes: T -> bool)
    requires forall x :: completes(x) ==> second.requires(x)
    requires |ForEachUntilThrow(xs, first, second, completes)| < 2 * |xs|
    ensures |ForEachUntilThrow(xs, first, second, completes)| % 2 == 1
    ensures !completes(xs[|ForEachUntilThrow(xs, first, second, completes)| / 2])
    ensures forall i :: 0 <= i < |ForEachUntilThrow(xs, first, second, completes)| / 2 ==> completes(xs[i])
    decreases |xs|
  {
    if completes(xs[0]) {
      var tail := xs[1..];
      var n := |ForEachUntilThrow(tail, first, second, completes)|;
      ForEachStopsAtThrow(tail, first, second, completes);
      assert |ForEachUntilThrow(xs, first, second, completes)| / 2 == n / 2 + 1;
      assert xs[n / 2 + 1] == tail[n / 2];
      forall i | 1 <= i < n / 2 + 1
        ensures completes(xs[i])
      {
        assert xs[i] == tail[i - 1];
      }
    }
  }

  /** A property every first command and every second command that completes
      has holds of every command issued. */
  lemma {:induction false} ForEachKeeps<T(!new)>(xs: seq<T>, first: T -> Command, second: T --> Command, completes: T -> bool, p: Command -> bool)
    requires forall x :: completes(x) ==> second.requires(x)
    requires forall x :: p(first(x))
    requires forall x :: completes(x) ==> p(second(x))
    ensures forall k :: 0 <= k < |ForEachUntilThrow(xs, first, second, completes)| ==>
              p(ForEachUntilThrow(xs, first, second, completes)[k])
    decreases |xs|
  {
    if |xs| > 0 && completes(xs[0]) {
      ForEachKeeps(xs[1..], first, second, completes, p);
    }
  }

  /** The `forEach` over the detected faces: per face its box, then its label.
      On a face with no scores `reduce` throws after the box is stroked, and the
      rest of the callback is abandoned. */
  function DrawFaces(faces: seq<Face>): (r: seq<Command>)
    ensures |r| <= 2 * |faces|
    ensures forall k :: 0 <= k < |r| ==> r[k].Rect? || r[k].Text?
  {
    ForEachKeeps(faces, BoxRect, FaceLabel, HasScores, (c: Command) => c.Rect? || c.Text?);
    ForEachUntilThrow(faces, BoxRect, FaceLabel, HasScores)
  }

  /** Every face whose turn is reached has its box stroked, at even positions in
      detection order. */
  lemma DrawFacesBoxes(faces: seq<Face>)
    ensures forall i :: 0 <= i < |faces| && 2 * i < |DrawFaces(faces)| ==>
              DrawFaces(faces)[2 * i] == BoxRect(faces[i])
  {
    forall i | 0 <= i < |faces| && 2 * i < |DrawFaces(faces)|
      ensures DrawFaces(faces)[2 * i] == BoxRect(faces[i])
    {
      ForEachFirstAt(faces, BoxRect, FaceLabel, HasScores, i);
    }
  }

  /** Every label drawn follows its own face's box and belongs to a face that
      has scores. */
  lemma DrawFacesLabels(faces: seq<Face>)
    ensures forall i :: 0 <= i < |faces| && 2 * i + 1 < |DrawFaces(faces)| ==>
              HasScores(faces[i]) && DrawFaces(faces)[2 * i + 1] == FaceLabel(faces[i])
  {
    forall i | 0 <= i < |faces| && 2 * i + 1 < |DrawFaces(faces)|
      ensures HasScores(faces[i]) && DrawFaces(faces)[2 * i + 1] == FaceLabel(faces[i])
    {
      ForEachSecondAt(faces, BoxRect, FaceLabel, HasScores, i);
    }
  }

  predicate AllScored(faces: seq<Face>)
  {
    forall i :: 0 <= i < |faces| ==> HasScores(faces[i])
  }

  /** All faces are drawn, box and label each, exactly when all of them have
      scores. */
  lemma DrawFacesComplete(faces: seq<Face>)
    ensures AllScored(faces) <==> |DrawFaces(faces)| == 2 * |faces|
  {
    ForEachComplete(faces, BoxRect, FaceLabel, HasScores);
  }

  /** When the drawing falls short, it stops right after the box of the first
      face without scores: every earlier face was drawn in full. */
  lemma DrawFacesStopsAtUnscored(faces: seq<Face>)
    requires |DrawFaces(faces)| < 2 * |faces|
    ensures |DrawFaces(faces)| % 2 == 1
    ensures !HasScores(faces[|DrawFaces(faces)| / 2])
    ensures forall i :: 0 <= i < |DrawFaces(faces)| / 2 ==> HasScores(faces[i])
  {
    ForEachStopsAtThrow(faces, BoxRect, FaceLabel, HasScores);
  }

  /** What one firing of the interval callback observes: whether the two refs
      are attached, the `isModelLoaded` flag, the video's native size, whether
      `getContext('2d')` returned a context, and the faces face-api.js found,
      or `None` when the awaited detection rejected. */
  datatype TickInput = TickInput(
    hasVideo: bool,
    hasCanvas: bool,
    modelLoaded: bool,
    videoWidth: nat,
    videoHeight: nat,
    hasContext: bool,
    faces: Option<seq<Face>>)

  /** The canvas commands of one tick and whether it asked face-api.js to detect. */
  datatype TickOutcome = TickOutcome(commands: seq<Command>, detectCalled: bool)

  /** The interval callback. The canvas is sized to the video before the context
      is fetched and before detection; the clear and the drawing follow the
      detection. */
  function Tick(t: TickInput): TickOutcome
  {
    if !(t.hasVideo && t.hasCanvas && t.modelLoaded) then TickOutcome([], false)
    else if !t.hasContext then TickOutcome([Resize(t.videoWidth, t.videoHeight)], false)
    else if t.faces.None? then TickOutcome([Resize(t.videoWidth, t.videoHeight)], true)
    else TickOutcome([Resize(t.videoWidth, t.videoHeight), Clear] + DrawFaces(t.faces.value), true)
  }

  /** A tick missing the video, the canvas or the loaded model does nothing. */
  lemma TickGuarded(t: TickInput, s: Surface)
    requires !t.hasVideo || !t.hasCanvas || !t.modelLoaded
    ensures Tick(t).commands == [] && !Tick(t).detectCalled
    ensures Run(s, Tick(t).commands) == s
  {
  }

  /** Without a 2D context the tick has already resized the canvas, and stops
      there: nothing is drawn and no detection is requested. */
  lemma TickWithoutContext(t: TickInput, s: Surface)
    requires t.hasVideo && t.hasCanvas && t.modelLoaded && !t.hasContext
    ensures !Tick(t).detectCalled
    ensures Run(s, Tick(t).commands) == Surface(t.videoWidth, t.videoHeight, [])
  {
  }

  /** When the awaited detection rejects, the callback is abandoned after the
      resize and before the clear: detection was requested, and the canvas is
      left blank at the video's native size. */
  lemma TickDetectionRejected(t: TickInput, s: Surface)
    requires t.hasVideo && t.hasCanvas && t.modelLoaded && t.hasContext && t.faces.None?
    ensures Tick(t).detectCalled
    ensures Clear !in Tick(t).commands
    ensures Run(s, Tick(t).commands) == Surface(t.videoWidth, t.videoHeight, [])
  {
  }

  /** A full tick resizes, clears, and leaves the canvas at the video's native
      size showing exactly this tick's faces, box then label, in detection
      order: nothing drawn by an earlier tick survives, and zero faces issue
      only the resize and the clear. */
  lemma {:induction false} TickShowsCurrentFaces(t: TickInput, s: Surface)
    requires t.hasVideo && t.hasCanvas && t.modelLoaded && t.hasContext
    requires t.faces.Some? && AllScored(t.faces.value)
    ensures Tick(t).detectCalled
    ensures Tick(t).commands[..2] == [Resize(t.videoWidth, t.videoHeight), Clear]
    ensures |t.faces.value| == 0 ==> Tick(t).commands == [Resize(t.videoWidth, t.videoHeight), Clear]
    ensures Run(s, Tick(t).commands).width == t.videoWidth
    ensures Run(s, Tick(t).commands).height == t.videoHeight
    ensures |Run(s, Tick(t).commands).drawn| == 2 * |t.faces.value|
    ensures forall i :: 0 <= i < |t.faces.value| ==>
              Run(s, Tick(t).commands).drawn[2 * i] == BoxRect(t.faces.value[i]) &&
              Run(s, Tick(t).commands).drawn[2 * i + 1] == FaceLabel(t.faces.value[i])
    ensures |t.faces.value| == 0 ==> Run(s, Tick(t).commands).drawn == []
  {
    var draws := DrawFaces(t.faces.value);
    var cmds := [Resize(t.videoWidth, t.videoHeight), Clear] + draws;
    RunAppend(s, [Resize(t.videoWidth, t.videoHeight), Clear], draws);
    RunDraws(Surface(t.videoWidth, t.videoHeight, []), draws);
    DrawFacesComplete(t.faces.value);
    DrawFacesBoxes(t.faces.value);
    DrawFacesLabels(t.faces.value);
  }

  /** Every box and label of a tick is drawn on a canvas already sized to the
      video's native dimensions, and after it has been cleared. */
  lemma TickDrawsAtNativeSize(t: TickInput, s: Surface)
    ensures DrawsAtSize(s, Tick(t).commands, t.videoWidth, t.videoHeight)
    ensures forall k :: 0 <= k < |Tick(t).commands| && IsDraw(Tick(t).commands[k]) ==>
              k >= 2 && Tick(t).commands[1] == Clear
  {
    var cmds := Tick(t).commands;
    if |cmds| > 0 {
      var rest := cmds[1..];
      assert cmds == [Resize(t.videoWidth, t.videoHeight)] + rest;
      ResizeThenDrawsAtSize(s, t.videoWidth, t.videoHeight, rest);
    }
  }

  /** The state behind `detectionIntervalRef`: the set of intervals the browser
      still fires, the handle stored in the ref, and the next handle
      `setInterval` will return (handles are positive and never reused). */
  datatype Intervals = Intervals(live: set<nat>, stored: Option<nat>, next: nat)

  /** On mount no interval runs and the ref holds `null`. */
  const Mounted := Intervals({}, None, 1)

  /** Reachable states: handles are issued below `next`, and the only interval
      still live is the one the ref holds. */
  ghost predicate Valid(st: Intervals)
  {
    && st.next > 0
    && (forall h :: h in st.live ==> 0 < h < st.next && st.stored == Some(h))
    && (st.stored.Some? ==> 0 < st.stored.value < st.next)
  }

  /** `clearInterval` with a handle: a no-op for a handle no longer live. */
  function ClearHandle(st: Intervals, h: Option<nat>): Intervals
  {
    match h
    case None => st
    case Some(v) => st.(live := st.live - {v})
  }

  /** `onVideoPlay`: clear the stored interval if there is one, register a new one
      and store its handle. */
  function OnVideoPlay(st: Intervals): (st': Intervals)
    ensures Valid(st) ==> Valid(st') && st'.live == {st.next} && st'.stored == Some(st.next)
  {
    var cleared := ClearHandle(st, st.stored);
    Intervals(cleared.live + {cleared.next}, Some(cleared.next), cleared.next + 1)
  }

  /** The unmount cleanup: clear the stored interval if there is one. */
  function Unmount(st: Intervals): (st': Intervals)
    ensures Valid(st) ==> Valid(st') && st'.live == {}
  {
    ClearHandle(st, st.stored)
  }

  datatype Event = Play | Unmounted

  /** The interval state after a sequence of play events and unmounts. */
  function RunEvents(events: seq<Event>): Intervals
  {
    if |events| == 0 then Mounted
    else
      var before := RunEvents(events[..|events| - 1]);
      match events[|events| - 1]
      case Play => OnVideoPlay(before)
      case Unmounted => Unmount(before)
  }

  /** However many times the video starts playing, at most one detection interval
      is ever live; right after a play exactly one is, and right after unmount
      none is. */
  lemma {:induction false} AtMostOneInterval(events: seq<Event>)
    ensures Valid(RunEvents(events))
    ensures |RunEvents(events).live| <= 1
    ensures |events| > 0 && events[|events| - 1] == Play ==> |RunEvents(events).live| == 1
    ensures |events| > 0 && events[|events| - 1] == Unmounted ==> RunEvents(events).live == {}
  {
    var st := RunEvents(events);
    if |events| > 0 {
      AtMostOneInterval(events[..|events| - 1]);
    }
    if st.stored.Some? {
      assert st.live <= {st.stored.value};
    } else {
      assert st.live == {};
    }
  }
}
