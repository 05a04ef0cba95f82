/** The `App` component: the displayed expression, the body of the interval
    registered by `handleVideoOnPlay`, and the intervals it leaves running. */
module App {
  import opened Optional
  import opened Expressions
  import opened FaceApi
  import opened Canvas

  /** The displayed expression before any face has been seen. */
  const InitialExpression: string := "Loading..."

  /** What one firing of the interval callback observes: whether the two refs
      are attached, the video's native size, and the faces face-api.js found,
      or `None` when the awaited detection rejected. */
  datatype TickInput = TickInput(
    hasVideo: bool,
    hasCanvas: bool,
    videoWidth: nat,
    videoHeight: nat,
    detections: Option<seq<Face>>)

  /** The expression state after the tick, its canvas commands, and whether it
      asked face-api.js to detect. */
  datatype TickOutcome = TickOutcome(expression: string, commands: seq<Command>, detectCalled: bool)

  /** A tick that sets the expression: both refs attached, detection resolved
      with at least one face, and the first face's expression object non-empty
      (otherwise `reduce` throws before the state update and the rest of the
      callback is abandoned). */
  predicate Updates(t: TickInput)
  {
    && t.hasVideo && t.hasCanvas && t.detections.Some?
    && |t.detections.value| > 0 && |t.detections.value[0].expressions.keys| > 0
  }

  /** The interval callback, given the expression state it starts from. */
  function Tick(expression: string, t: TickInput): TickOutcome
  {
    if !t.hasVideo || !t.hasCanvas then TickOutcome(expression, [], false)
    else if !Updates(t) then TickOutcome(expression, [], true)
    else
      TickOutcome(Dominant(t.detections.value[0].expressions),
                  [Resize(t.videoWidth, t.videoHeight), Clear, DrawDetections, DrawExpressions],
                  true)
  }

  /** A tick with a missing ref, a rejected detection or no detected face
      changes nothing: the expression stays and the canvas is neither resized,
      cleared nor drawn on. */
  lemma TickWithoutFaceChangesNothing(expression: string, t: TickInput, s: Surface)
    requires !t.hasVideo || !t.hasCanvas || t.detections.None? || |t.detections.value| == 0
    ensures Tick(expression, t).expression == expression
    ensures Tick(expression, t).commands == []
    ensures Run(s, Tick(expression, t).commands) == s
    ensures Tick(expression, t).detectCalled <==> t.hasVideo && t.hasCanvas
  {
  }

  /** A rejected detection abandons the callback before any state update or
      canvas command, although detection was requested. */
  lemma TickDetectionRejected(expression: string, t: TickInput)
    requires t.hasVideo && t.hasCanvas && t.detections.None?
    ensures Tick(expression, t) == TickOutcome(expression, [], true)
  {
  }

  /** Only the first detection decides the expression: it becomes that face's
      highest-scoring key, ties going to the later key, whatever the other faces
      and the previous expression were. */
  lemma TickTakesFirstFace(e1: string, e2: string, t1: TickInput, t2: TickInput)
    requires Updates(t1) && Updates(t2)
    requires t1.detections.value[0] == t2.detections.value[0]
    ensures Tick(e1, t1).expression == Tick(e2, t2).expression
    ensures var s := t1.detections.value[0].expressions;
            var r := Tick(e1, t1).expression;
            && r in s.keys
            && (forall k :: k in s.values ==> s.values[k] <= s.values[r])
            && (forall j, k :: 0 <= j < k < |s.keys| && s.keys[j] == r ==> Score(s, k) < s.values[r])
  {
  }

  /** A tick that finds a face sizes the canvas to the video's native size before
      clearing it, then lets face-api.js draw: nothing from earlier ticks
      survives and every drawing lands on a canvas of the native size. */
  lemma {:induction false} TickAlignsCanvas(expression: string, t: TickInput, s: Surface)
    requires Updates(t)
    ensures Tick(expression, t).commands[..2] == [Resize(t.videoWidth, t.videoHeight), Clear]
    ensures Run(s, Tick(expression, t).commands) ==
            Surface(t.videoWidth, t.videoHeight, [DrawDetections, DrawExpressions])
    ensures DrawsAtSize(s, Tick(expression, t).commands, t.videoWidth, t.videoHeight)
  {
    var rest := [Clear, DrawDetections, DrawExpressions];
    assert Tick(expression, t).commands == [Resize(t.videoWidth, t.videoHeight)] + rest;
    ResizeThenDrawsAtSize(s, t.videoWidth, t.videoHeight, rest);
  }

  /** The displayed expression after a sequence of ticks. */
  function Displayed(ticks: seq<TickInput>): string
  {
    if |ticks| == 0 then InitialExpression
    else Tick(Displayed(ticks[..|ticks| - 1]), ticks[|ticks| - 1]).expression
  }

  /** The position of the last tick that updated the expression, if any. */
  function LastUpdate(ticks: seq<TickInput>): (r: Option<nat>)
    ensures r.Some? ==> r.value < |ticks| && Updates(ticks[r.value])
    ensures r.Some? ==> forall k :: r.value < k < |ticks| ==> !Updates(ticks[k])
    ensures r.None? ==> forall k :: 0 <= k < |ticks| ==> !Updates(ticks[k])
  {
    if |ticks| == 0 then None
    else if Updates(ticks[|ticks| - 1]) then Some(|ticks| - 1)
    else LastUpdate(ticks[..|ticks| - 1])
  }

  /** The displayed text is "Loading..." until a tick finds a face, and from
      then on the dominant expression of the first face of the latest tick that
      found one: it is not reset when faces disappear. */
  lemma {:induction false} DisplayedIsLatestUpdate(ticks: seq<TickInput>)
    ensures Displayed(ticks) ==
            match LastUpdate(ticks)
            case None => InitialExpression
            case Some(j) => Dominant(ticks[j].detections.value[0].expressions)
  {
    if |ticks| > 0 {
      var prefix := ticks[..|ticks| - 1];
      DisplayedIsLatestUpdate(prefix);
      if !Updates(ticks[|ticks| - 1]) {
        match LastUpdate(prefix)
        case None =>
        case Some(j) =>
          assert ticks[j] == prefix[j];
      }
    }
  }

  /** The live intervals and the next handle `setInterval` will return. App
      never keeps a handle, so nothing can clear them. */
  datatype Intervals = Intervals(live: set<nat>, next: nat)

  const Mounted := Intervals({}, 1)

  /** `handleVideoOnPlay`: register one more interval. */
  function OnVideoPlay(st: Intervals): (st': Intervals)
    ensures (forall h :: h in st.live ==> h < st.next) ==>
              |st'.live| == |st.live| + 1 && st.live < st'.live &&
              (forall h :: h in st'.live ==> h < st'.next)
  {
    Intervals(st.live + {st.next}, st.next + 1)
  }

  /** The intervals after `n` play events. */
  function PlayTimes(n: nat): Intervals
  {
    if n == 0 then Mounted else OnVideoPlay(PlayTimes(n - 1))
  }

  /** A play event never removes a live interval. */
  lemma {:induction false} PlayTimesGrow(m: nat, n: nat)
    requires m <= n
    ensures PlayTimes(m).live <= PlayTimes(n).live
    decreases n - m
  {
    if m < n {
      PlayTimesGrow(m, n - 1);
      assert PlayTimes(n).live == PlayTimes(n - 1).live + {PlayTimes(n - 1).next};
    }
  }

  /** Every play event adds a live interval and none is ever removed: after `n`
      plays, `n` intervals run, and the live set only grows. */
  lemma {:induction false} IntervalsAccumulate(n: nat)
    ensures |PlayTimes(n).live| == n
    ensures forall h :: h in PlayTimes(n).live ==> 0 < h < PlayTimes(n).next
    ensures forall m :: 0 <= m <= n ==> PlayTimes(m).live <= PlayTimes(n).live
  {
    if n > 0 {
      IntervalsAccumulate(n - 1);
      var prev := PlayTimes(n - 1);
      assert PlayTimes(n) == Intervals(prev.live + {prev.next}, prev.next + 1);
      assert prev.next !in prev.live;
    }
    forall m | 0 <= m <= n
      ensures PlayTimes(m).live <= PlayTimes(n).live
    {
      PlayTimesGrow(m, n);
    }
  }
}
