/** What face-api.js hands back per detected face, taken as input data. */
module FaceApi {
  import opened Expressions

  /** `face.detection.box`, in the video's native pixel coordinates. */
  datatype Box = Box(x: real, y: real, width: real, height: real)

  /** One detected face: its box and its expression scores. */
  datatype Face = Face(box: Box, expressions: ExpressionMap)
}

/** The 2D canvas, reduced to the commands the components issue on it and the
    state those commands leave behind. */
module Canvas {

  datatype Command =
    | Resize(width: nat, height: nat)            // assigning `canvas.width` and `canvas.height`
    | Clear                                      // `clearRect` over the whole canvas
    | Rect(x: real, y: real, w: real, h: real)   // `strokeRect`
    | Text(s: string, x: real, y: real)          // `fillText`
    | DrawDetections                             // face-api.js `draw.drawDetections`, opaque
    | DrawExpressions                            // face-api.js `draw.drawFaceExpressions`, opaque

  /** Commands that put something on the canvas. */
  predicate IsDraw(c: Command)
  {
    !c.Resize? && !c.Clear?
  }

  /** The canvas as the user sees it: its size and what has been drawn since it
      was last wiped. Assigning the width or height of an HTML canvas resets its
      bitmap, so `Resize` wipes it as `Clear` does. */
  datatype Surface = Surface(width: nat, height: nat, drawn: seq<Command>)

  function Apply(s: Surface, c: Command): Surface
  {
    match c
    case Resize(w, h) => Surface(w, h, [])
    case Clear => Surface(s.width, s.height, [])
    case _ => Surface(s.width, s.height, s.drawn + [c])
  }

  /** The surface after running `cmds` in order. */
  function Run(s: Surface, cmds: seq<Command>): Surface
    decreases |cmds|
  {
    if |cmds| == 0 then s else Run(Apply(s, cmds[0]), cmds[1..])
  }

  lemma {:induction false} RunAppend(s: Surface, a: seq<Command>, b: seq<Command>)
    ensures Run(s, a + b) == Run(Run(s, a), b)
    decreases |a|
  {
    if |a| > 0 {
      assert (a + b)[1..] == a[1..] + b;
      RunAppend(Apply(s, a[0]), a[1..], b);
    } else {
      assert a + b == b;
    }
  }

  /** Draw commands keep the size and are appended, in order, to what is shown. */
  lemma {:induction false} RunDraws(s: Surface, cmds: seq<Command>)
    requires forall k :: 0 <= k < |cmds| ==> IsDraw(cmds[k])
    ensures Run(s, cmds) == Surface(s.width, s.height, s.drawn + cmds)
    decreases |cmds|
  {
    if |cmds| > 0 {
      RunDraws(Apply(s, cmds[0]), cmds[1..]);
      assert s.drawn + [cmds[0]] + cmds[1..] == s.drawn + cmds;
    }
  }

  /** Every draw command of `cmds`, run from `s`, lands on a canvas of size
      `w` by `h`. */
  ghost predicate DrawsAtSize(s: Surface, cmds: seq<Command>, w: nat, h: nat)
  {
    forall k :: 0 <= k < |cmds| && IsDraw(cmds[k]) ==>
      Run(s, cmds[..k]).width == w && Run(s, cmds[..k]).height == h
  }

  /** A resize followed by anything without a further resize draws everything at
      the resized size. */
  lemma ResizeThenDrawsAtSize(s: Surface, w: nat, h: nat, rest: seq<Command>)
    requires forall k :: 0 <= k < |rest| ==> !rest[k].Resize?
    ensures DrawsAtSize(s, [Resize(w, h)] + rest, w, h)
  {
    var cmds := [Resize(w, h)] + rest;
    forall k | 0 <= k < |cmds| && IsDraw(cmds[k])
      ensures Run(s, cmds[..k]).width == w && Run(s, cmds[..k]).height == h
    {
      assert cmds[..k] == [Resize(w, h)] + rest[..k - 1];
      RunAppend(s, [Resize(w, h)], rest[..k - 1]);
      KeepsSize(Surface(w, h, []), rest[..k - 1]);
    }
  }

  lemma {:induction false} KeepsSize(s: Surface, cmds: seq<Command>)
    requires forall k :: 0 <= k < |cmds| ==> !cmds[k].Resize?
    ensures Run(s, cmds).width == s.width && Run(s, cmds).height == s.height
    decreases |cmds|
  {
    if |cmds| > 0 {
      KeepsSize(Apply(s, cmds[0]), cmds[1..]);
    }
  }
}
