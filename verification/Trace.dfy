/**
 * What a capture does to the scroll view, as a sequence of observable events,
 * and how those events act on the view's geometry.
 */
module Trace {
  import opened Wrappers
  import opened Geometry

  /** The picture taken out of the image context: its size, whether a composition
      hook drew into it first, and the rectangles rendered into it, in order. */
  datatype Image = Image(size: Size, composed: bool, pages: seq<Rect>)

  /** One observable step of a capture. */
  datatype Event =
    | FrameSet(frame: Rect)               // `self.frame = …`
    | OffsetSet(offset: Point)            // `setContentOffset(…)` or `self.contentOffset = …`
    | Rendered(rect: Rect)                // `drawHierarchy(in: rect, …)` into the current image context
    | Composed(dy: real)                  // the composition hook was called and returned `dy`
    | Completed(result: Option<Image>)    // the completion handler was called with `result`

  /** The part of a scroll view that a capture reads and writes. */
  datatype ViewState = ViewState(frame: Rect, bounds: Size, content: Size, offset: Point)

  /** A scroll view's bounds rectangle: its origin is the content offset and its size
      is the bounds size, so it is the part of the content currently on screen. */
  function BoundsRect(s: ViewState): Rect {
    Rect(s.offset, s.bounds)
  }

  /** The effect of one event on the view. Assigning the frame resizes the bounds
      to the same size (a view without a transform); assigning the offset moves the
      viewport; the other events leave the geometry alone. */
  function Apply(s: ViewState, e: Event): ViewState {
    match e
    case FrameSet(r) => s.(frame := r, bounds := r.size)
    case OffsetSet(p) => s.(offset := p)
    case _ => s
  }

  /** The view after the events of `t`, in order, starting from `s`. */
  function Replay(s: ViewState, t: seq<Event>): ViewState
    decreases |t|
  {
    if t == [] then s else Replay(Apply(s, t[0]), t[1..])
  }

  lemma {:induction false} ReplayAppend(s: ViewState, a: seq<Event>, b: seq<Event>)
    ensures Replay(s, a + b) == Replay(Replay(s, a), b)
    decreases |a|
  {
    if a == [] {
      assert a + b == b;
    } else {
      assert (a + b)[1..] == a[1..] + b;
      ReplayAppend(Apply(s, a[0]), a[1..], b);
    }
  }

  lemma ReplayOne(s: ViewState, e: Event)
    ensures Replay(s, [e]) == Apply(s, e)
  {
    assert [e][1..] == [];
  }

  /** The values that `pick` extracts from the events of `t`, in order. */
  function Select<T>(t: seq<Event>, pick: Event -> Option<T>): (r: seq<T>)
    ensures |r| <= |t|
  {
    if t == [] then []
    else (match pick(t[0]) case Some(x) => [x] case None => []) + Select(t[1..], pick)
  }

  lemma {:induction false} SelectAppend<T>(a: seq<Event>, b: seq<Event>, pick: Event -> Option<T>)
    ensures Select(a + b, pick) == Select(a, pick) + Select(b, pick)
  {
    if a == [] {
      assert a + b == b;
    } else {
      assert (a + b)[1..] == a[1..] + b;
      SelectAppend(a[1..], b, pick);
    }
  }

  lemma SelectOne<T>(e: Event, pick: Event -> Option<T>)
    ensures Select([e], pick) == match pick(e) case Some(x) => [x] case None => []
  {
    assert [e][1..] == [];
  }

  function FrameOf(e: Event): Option<Rect> { if e.FrameSet? then Some(e.frame) else None }
  function OffsetOf(e: Event): Option<Point> { if e.OffsetSet? then Some(e.offset) else None }
  function RenderOf(e: Event): Option<Rect> { if e.Rendered? then Some(e.rect) else None }
  function HookOf(e: Event): Option<real> { if e.Composed? then Some(e.dy) else None }
  function CompletionOf(e: Event): Option<Option<Image>> { if e.Completed? then Some(e.result) else None }

  /** Frames assigned, in order. */
  function Frames(t: seq<Event>): seq<Rect> { Select(t, FrameOf) }
  /** Content offsets assigned, in order. */
  function Offsets(t: seq<Event>): seq<Point> { Select(t, OffsetOf) }
  /** Rectangles rendered into the image context, in order. */
  function Renders(t: seq<Event>): seq<Rect> { Select(t, RenderOf) }
  /** Values returned by the composition hook, one per call. */
  function HookCalls(t: seq<Event>): seq<real> { Select(t, HookOf) }
  /** Results passed to the completion handler, one per call. */
  function Completions(t: seq<Event>): seq<Option<Image>> { Select(t, CompletionOf) }

  /** Events that assign no frame leave the frame and the bounds size as they were. */
  lemma {:induction false} ReplayKeepsFrame(s: ViewState, t: seq<Event>)
    requires Frames(t) == []
    ensures Replay(s, t).frame == s.frame && Replay(s, t).bounds == s.bounds
    ensures Replay(s, t).content == s.content
    decreases |t|
  {
    if t != [] {
      assert t == [t[0]] + t[1..];
      SelectAppend([t[0]], t[1..], FrameOf);
      ReplayKeepsFrame(Apply(s, t[0]), t[1..]);
    }
  }

  /** The two events that close an asynchronous capture: restore the offset, then call
      the completion handler. */
  lemma ClosingEvents(s: ViewState, p: Point, r: Option<Image>)
    ensures var c := [OffsetSet(p), Completed(r)];
            && Offsets(c) == [p] && Renders(c) == [] && Frames(c) == []
            && HookCalls(c) == [] && Completions(c) == [r]
            && Replay(s, c) == s.(offset := p)
  {
    var a, b := [OffsetSet(p)], [Completed(r)];
    assert a + b == [OffsetSet(p), Completed(r)];
    SelectAppend(a, b, OffsetOf); SelectOne(OffsetSet(p), OffsetOf); SelectOne(Completed(r), OffsetOf);
    SelectAppend(a, b, RenderOf); SelectOne(OffsetSet(p), RenderOf); SelectOne(Completed(r), RenderOf);
    SelectAppend(a, b, FrameOf); SelectOne(OffsetSet(p), FrameOf); SelectOne(Completed(r), FrameOf);
    SelectAppend(a, b, HookOf); SelectOne(OffsetSet(p), HookOf); SelectOne(Completed(r), HookOf);
    SelectAppend(a, b, CompletionOf); SelectOne(OffsetSet(p), CompletionOf); SelectOne(Completed(r), CompletionOf);
    ReplayAppend(s, a, b);
    ReplayOne(s, OffsetSet(p));
    ReplayOne(s.(offset := p), Completed(r));
  }
}
