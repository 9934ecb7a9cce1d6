/**
 * The three capture procedures as event sequences over a starting view state:
 * the synchronous full-content capture, the asynchronous full-content capture and
 * the asynchronous partial capture with its optional composition hook. Whether the
 * platform hands out an image context is the flag `contextAvailable`.
 */
module Capture {
  import opened Wrappers
  import opened Geometry
  import opened Trace
  import opened PagePlan

  /** The height pages are planned against: the bounds rectangle's height, which is
      never negative (a rectangle with a negative stored height reports its magnitude). */
  function ViewportHeight(s: ViewState): (v: real)
    ensures v >= 0.0
    ensures v == s.bounds.h || v == -s.bounds.h
  {
    if s.bounds.h < 0.0 then -s.bounds.h else s.bounds.h
  }

  /** Planning `height` divides by the viewport height only when `height` exceeds it;
      that division needs a non-zero bounds height. */
  predicate Plannable(height: real, s: ViewState) {
    height > ViewportHeight(s) ==> s.bounds.h != 0.0
  }

  // ----- asynchronous full-content capture -----

  /** Pages of a full-content capture: the content height against the bounds height. */
  function FullPageNum(s: ViewState): nat
    requires Plannable(s.content.h, s)
  {
    PageCount(s.content.h, ViewportHeight(s))
  }

  /** The walk of a full-content capture: pages 0 to `pageNum`, stepping by the frame height. */
  function FullWalk(s: ViewState): seq<Event>
    requires Plannable(s.content.h, s)
  {
    WalkTrace(0, FullPageNum(s), s.frame.size.h, s.bounds, 0.0)
  }

  /** What the completion handler of a full-content capture receives: an image of the
      content size holding the walked pages, or nothing without a context. */
  function FullCaptureResult(contextAvailable: bool, s: ViewState): Option<Image>
    requires Plannable(s.content.h, s)
  {
    if contextAvailable then Some(Image(s.content, false, PageRects(0, FullPageNum(s), s.frame.size.h, s.bounds, 0.0))) else None
  }

  /** The events of a full-content capture. */
  function FullCaptureTrace(contextAvailable: bool, s: ViewState): seq<Event>
    requires Plannable(s.content.h, s)
  {
    if contextAvailable then
      FullWalk(s) + [OffsetSet(s.offset), Completed(FullCaptureResult(true, s))]
    else
      [Completed(None)]
  }

  // ----- asynchronous partial capture -----

  /** The vertical offset a partial capture places its pages with: the hook's return value,
      or 0 without a hook. */
  function HookOffset(composition: Option<real>): real {
    match composition
    case Some(dy) => dy
    case None => 0.0
  }

  /** The hook call of a partial capture, if there is a hook. */
  function HookTrace(composition: Option<real>): seq<Event> {
    match composition
    case Some(dy) => [Composed(dy)]
    case None => []
  }

  /** Pages of a partial capture: the region's height against the bounds height. */
  function PartialPageNum(s: ViewState, region: Rect): nat
    requires Plannable(region.size.h, s)
  {
    PageCount(region.size.h, ViewportHeight(s))
  }

  /** The walk of a partial capture: like the full-content walk, with each rendered
      rectangle moved down by the hook's offset. */
  function PartialWalk(s: ViewState, region: Rect, composition: Option<real>): seq<Event>
    requires Plannable(region.size.h, s)
  {
    WalkTrace(0, PartialPageNum(s, region), s.frame.size.h, s.bounds, HookOffset(composition))
  }

  function PartialCaptureResult(contextAvailable: bool, s: ViewState, region: Rect, composition: Option<real>): Option<Image>
    requires Plannable(region.size.h, s)
  {
    if contextAvailable then
      Some(Image(region.size, composition.Some?, PageRects(0, PartialPageNum(s, region), s.frame.size.h, s.bounds, HookOffset(composition))))
    else
      None
  }

  /** The events of a partial capture. */
  function PartialCaptureTrace(contextAvailable: bool, s: ViewState, region: Rect, composition: Option<real>): seq<Event>
    requires Plannable(region.size.h, s)
  {
    if contextAvailable then
      HookTrace(composition) + PartialWalk(s, region, composition)
        + [OffsetSet(s.offset), Completed(PartialCaptureResult(true, s, region, composition))]
    else
      [Completed(None)]
  }

  // ----- synchronous full-content capture -----

  /** The frame a synchronous capture gives the view: same origin, the content's size. */
  function Reframed(s: ViewState): Rect {
    Rect(s.frame.origin, s.content)
  }

  /** The events of a synchronous full-content capture: reframe and scroll to the top,
      then, only with a context, render the bounds and put frame and offset back. */
  function SyncCaptureTrace(contextAvailable: bool, s: ViewState): seq<Event> {
    [FrameSet(Reframed(s)), OffsetSet(Zero)]
      + if contextAvailable then [Rendered(Rect(Zero, s.content)), FrameSet(s.frame), OffsetSet(s.offset)] else []
  }

  function SyncCaptureResult(contextAvailable: bool, s: ViewState): Option<Image> {
    if contextAvailable then Some(Image(s.content, false, [Rect(Zero, s.content)])) else None
  }

  // ----- properties of the full-content capture -----

  /** A walk followed by the closing steps of an asynchronous capture (restore the
      offset it started from, call the completion handler) renders the planned pages,
      sets the planned offsets and then the starting one, completes once, and leaves
      the view as it found it. */
  lemma WalkThenRestore(s: ViewState, pageNum: nat, dy: real, result: Option<Image>)
    ensures var w := WalkTrace(0, pageNum, s.frame.size.h, s.bounds, dy);
            var t := w + [OffsetSet(s.offset), Completed(result)];
            && Renders(t) == PageRects(0, pageNum, s.frame.size.h, s.bounds, dy)
            && Offsets(t) == PageOffsets(0, pageNum, s.frame.size.h) + [s.offset]
            && Frames(t) == [] && HookCalls(t) == [] && Completions(t) == [result]
            && Replay(s, t) == s
  {
    var w := WalkTrace(0, pageNum, s.frame.size.h, s.bounds, dy);
    var closing := [OffsetSet(s.offset), Completed(result)];
    WalkOnlyScrollsAndRenders(0, pageNum, s.frame.size.h, s.bounds, dy);
    WalkRendersPlanned(0, pageNum, s.frame.size.h, s.bounds, dy);
    WalkOffsetsPlanned(0, pageNum, s.frame.size.h, s.bounds, dy);
    SelectAppend(w, closing, RenderOf);
    SelectAppend(w, closing, OffsetOf);
    SelectAppend(w, closing, FrameOf);
    SelectAppend(w, closing, HookOf);
    SelectAppend(w, closing, CompletionOf);
    WalkReplay(s, 0, pageNum, s.frame.size.h, dy);
    ReplayAppend(s, w, closing);
    ClosingEvents(Replay(s, w), s.offset, result);
  }

  /** The hook step in front of other events assigns nothing, renders nothing and
      completes nothing: it only adds its own call. */
  lemma HookThen(s: ViewState, composition: Option<real>, rest: seq<Event>)
    ensures var t := HookTrace(composition) + rest;
            && Renders(t) == Renders(rest) && Offsets(t) == Offsets(rest)
            && Frames(t) == Frames(rest) && Completions(t) == Completions(rest)
            && HookCalls(t) == (if composition.Some? then [composition.value] else []) + HookCalls(rest)
            && Replay(s, t) == Replay(s, rest)
  {
    if composition.Some? {
      var e := Composed(composition.value);
      SelectAppend([e], rest, RenderOf); SelectOne(e, RenderOf);
      SelectAppend([e], rest, OffsetOf); SelectOne(e, OffsetOf);
      SelectAppend([e], rest, FrameOf); SelectOne(e, FrameOf);
      SelectAppend([e], rest, CompletionOf); SelectOne(e, CompletionOf);
      SelectAppend([e], rest, HookOf); SelectOne(e, HookOf);
      ReplayAppend(s, [e], rest);
      ReplayOne(s, e);
    } else {
      assert HookTrace(composition) + rest == rest;
    }
  }

  /** The hook step followed by a walk placed with the hook's offset and the closing
      steps renders the planned pages, sets the planned offsets and then the starting
      offset, calls the hook once if there is one, completes once and leaves the view
      as it found it. */
  lemma HookThenWalk(s: ViewState, pageNum: nat, composition: Option<real>, result: Option<Image>)
    ensures var dy := HookOffset(composition);
            var t := HookTrace(composition)
                       + (WalkTrace(0, pageNum, s.frame.size.h, s.bounds, dy) + [OffsetSet(s.offset), Completed(result)]);
            && Renders(t) == PageRects(0, pageNum, s.frame.size.h, s.bounds, dy)
            && Offsets(t) == PageOffsets(0, pageNum, s.frame.size.h) + [s.offset]
            && Frames(t) == [] && Completions(t) == [result]
            && HookCalls(t) == (if composition.Some? then [composition.value] else [])
            && Replay(s, t) == s
  {
    var dy := HookOffset(composition);
    WalkThenRestore(s, pageNum, dy, result);
    HookThen(s, composition, WalkTrace(0, pageNum, s.frame.size.h, s.bounds, dy) + [OffsetSet(s.offset), Completed(result)]);
  }

  /** The failure path's single event: completion with nothing. */
  lemma CompletedNoneOnly(s: ViewState)
    ensures var t := [Completed(None)];
            && Renders(t) == [] && Offsets(t) == [] && Frames(t) == [] && HookCalls(t) == []
            && Completions(t) == [None] && Replay(s, t) == s
  {
    var e := Completed(None);
    SelectOne(e, RenderOf); SelectOne(e, OffsetOf); SelectOne(e, FrameOf);
    SelectOne(e, CompletionOf); SelectOne(e, HookOf);
    ReplayOne(s, e);
  }

  /** Without a context, a full-content capture only calls its completion handler,
      with nothing: it renders nothing, scrolls nowhere and leaves the view alone. */
  lemma FullCaptureFailureOnlyCompletes(s: ViewState)
    requires Plannable(s.content.h, s)
    ensures var t := FullCaptureTrace(false, s);
            && Renders(t) == [] && Offsets(t) == [] && Frames(t) == [] && HookCalls(t) == []
            && Completions(t) == [None] && FullCaptureResult(false, s) == None && Replay(s, t) == s
  {
    CompletedNoneOnly(s);
  }

  /** Without a context, a partial capture only calls its completion handler, with
      nothing: it calls no hook, renders nothing, scrolls nowhere and leaves the view alone. */
  lemma PartialCaptureFailureOnlyCompletes(s: ViewState, region: Rect, composition: Option<real>)
    requires Plannable(region.size.h, s)
    ensures var t := PartialCaptureTrace(false, s, region, composition);
            && Renders(t) == [] && Offsets(t) == [] && Frames(t) == [] && HookCalls(t) == []
            && Completions(t) == [None] && PartialCaptureResult(false, s, region, composition) == None
            && Replay(s, t) == s
  {
    CompletedNoneOnly(s);
  }

  /** A full-content capture with a context renders pages 0 to `pageNum` (that is,
      `pageNum + 1` renders), page `k` at `(0, k * frame height)` with the bounds size,
      and its image holds exactly those pages; before each render it sets the offset
      `(0, k * frame height)`, and its last offset is the one it started from. Without a
      context it neither scrolls nor renders. */
  lemma FullCapturePages(contextAvailable: bool, s: ViewState)
    requires Plannable(s.content.h, s)
    ensures var t := FullCaptureTrace(contextAvailable, s);
            var r, o, n := Renders(t), Offsets(t), FullPageNum(s);
            && (!contextAvailable ==> r == [] && o == [])
            && (contextAvailable ==>
                  && |r| == n + 1
                  && (forall k :: 0 <= k < |r| ==> r[k] == PageRect(k, s.frame.size.h, s.bounds, 0.0))
                  && FullCaptureResult(true, s).value.pages == r
                  && |o| == n + 2
                  && (forall k :: 0 <= k <= n ==> o[k] == PageOffset(k, s.frame.size.h))
                  && o[n + 1] == s.offset)
  {
    if contextAvailable {
      var n, stride := FullPageNum(s), s.frame.size.h;
      WalkThenRestore(s, n, 0.0, FullCaptureResult(true, s));
      var t := FullCaptureTrace(true, s);
      var r, o := Renders(t), Offsets(t);
      assert r == PageRects(0, n, stride, s.bounds, 0.0);
      assert o == PageOffsets(0, n, stride) + [s.offset];
      forall k | 0 <= k < |r|
        ensures r[k] == PageRect(k, stride, s.bounds, 0.0)
      {
        PageRectsAt(0, n, stride, s.bounds, 0.0, k);
      }
      forall k | 0 <= k <= n
        ensures o[k] == PageOffset(k, stride)
      {
        PageOffsetsAt(0, n, stride, k);
      }
    } else {
      CompletedNoneOnly(s);
    }
  }

  /** A full-content capture calls its completion handler exactly once, as its last
      step, assigns no frame and calls no hook; with a context, the step just before
      completion restores the offset, and in every case the view ends as it began. */
  lemma FullCaptureRestoresAndCompletesOnce(contextAvailable: bool, s: ViewState)
    requires Plannable(s.content.h, s)
    ensures var t := FullCaptureTrace(contextAvailable, s);
            && Completions(t) == [FullCaptureResult(contextAvailable, s)]
            && t[|t| - 1] == Completed(FullCaptureResult(contextAvailable, s))
            && Frames(t) == [] && HookCalls(t) == []
            && (contextAvailable ==> t[|t| - 2] == OffsetSet(s.offset))
            && Replay(s, t) == s
  {
    if contextAvailable {
      WalkThenRestore(s, FullPageNum(s), 0.0, FullCaptureResult(true, s));
    } else {
      CompletedNoneOnly(s);
    }
  }

  // ----- properties of the partial capture -----

  /** With a context, a partial capture is the hook step, then the walk and its closing steps. */
  lemma PartialTraceShape(s: ViewState, region: Rect, composition: Option<real>)
    requires Plannable(region.size.h, s)
    ensures PartialCaptureTrace(true, s, region, composition)
         == HookTrace(composition)
              + (PartialWalk(s, region, composition)
                 + [OffsetSet(s.offset), Completed(PartialCaptureResult(true, s, region, composition))])
  {
  }

  /** The composition hook is called at most once: exactly once when there is a hook
      and a context, and then as the very first step, before any page is walked;
      the rest of the capture calls no hook. */
  lemma PartialCaptureHookOnceFirst(contextAvailable: bool, s: ViewState, region: Rect, composition: Option<real>)
    requires Plannable(region.size.h, s)
    ensures var t := PartialCaptureTrace(contextAvailable, s, region, composition);
            && HookCalls(t) == (if contextAvailable && composition.Some? then [composition.value] else [])
            && (contextAvailable && composition.Some? ==>
                  t[0] == Composed(composition.value) && HookCalls(t[1..]) == [])
  {
    if contextAvailable {
      var hook, walk := HookTrace(composition), PartialWalk(s, region, composition);
      var rest := walk + [OffsetSet(s.offset), Completed(PartialCaptureResult(true, s, region, composition))];
      PartialTraceShape(s, region, composition);
      WalkThenRestore(s, PartialPageNum(s, region), HookOffset(composition), PartialCaptureResult(true, s, region, composition));
      HookThen(s, composition, rest);
      if composition.Some? {
        assert (hook + rest)[1..] == rest;
      }
    } else {
      CompletedNoneOnly(s);
    }
  }

  /** With a context, a partial capture renders the planned pages of its region, moved
      down by the hook's offset, and sets the planned offsets followed by the offset it
      started from. */
  lemma PartialCapturePlanned(s: ViewState, region: Rect, composition: Option<real>)
    requires Plannable(region.size.h, s)
    ensures var t, n := PartialCaptureTrace(true, s, region, composition), PartialPageNum(s, region);
            && Renders(t) == PageRects(0, n, s.frame.size.h, s.bounds, HookOffset(composition))
            && Offsets(t) == PageOffsets(0, n, s.frame.size.h) + [s.offset]
  {
    PartialTraceShape(s, region, composition);
    HookThenWalk(s, PartialPageNum(s, region), composition, PartialCaptureResult(true, s, region, composition));
  }

  /** A partial capture with a context renders pages 0 to `pageNum` (the region height
      against the bounds height), page `k` at `(0, k * frame height + dy)` where `dy` is
      the hook's offset, and its image, of the region's size, holds exactly the rendered
      pages. Without a context it renders nothing. */
  lemma PartialCaptureRenders(contextAvailable: bool, s: ViewState, region: Rect, composition: Option<real>)
    requires Plannable(region.size.h, s)
    ensures var r := Renders(PartialCaptureTrace(contextAvailable, s, region, composition));
            && (!contextAvailable ==> r == [])
            && (contextAvailable ==>
                  && |r| == PartialPageNum(s, region) + 1
                  && (forall k :: 0 <= k < |r| ==> r[k] == PageRect(k, s.frame.size.h, s.bounds, HookOffset(composition)))
                  && PartialCaptureResult(true, s, region, composition).value == Image(region.size, composition.Some?, r))
  {
    if contextAvailable {
      var dy, n := HookOffset(composition), PartialPageNum(s, region);
      PartialCapturePlanned(s, region, composition);
      var r := Renders(PartialCaptureTrace(true, s, region, composition));
      forall k | 0 <= k < |r|
        ensures r[k] == PageRect(k, s.frame.size.h, s.bounds, dy)
      {
        PageRectsAt(0, n, s.frame.size.h, s.bounds, dy, k);
      }
    } else {
      CompletedNoneOnly(s);
    }
  }

  /** A partial capture with a context sets the offset `(0, k * frame height)` for page
      `k`, from 0 to `pageNum`, which does not involve the hook's offset, and then
      restores the offset it started from. Without a context it does not scroll. */
  lemma PartialCaptureOffsets(contextAvailable: bool, s: ViewState, region: Rect, composition: Option<real>)
    requires Plannable(region.size.h, s)
    ensures var o, n := Offsets(PartialCaptureTrace(contextAvailable, s, region, composition)), PartialPageNum(s, region);
            && (!contextAvailable ==> o == [])
            && (contextAvailable ==>
                  && |o| == n + 2
                  && (forall k :: 0 <= k <= n ==> o[k] == PageOffset(k, s.frame.size.h))
                  && o[n + 1] == s.offset)
  {
    if contextAvailable {
      var n := PartialPageNum(s, region);
      PartialCapturePlanned(s, region, composition);
      var o := Offsets(PartialCaptureTrace(true, s, region, composition));
      forall k | 0 <= k <= n
        ensures o[k] == PageOffset(k, s.frame.size.h)
      {
        PageOffsetsAt(0, n, s.frame.size.h, k);
      }
    } else {
      CompletedNoneOnly(s);
    }
  }

  /** The hook's offset does not change where the view scrolls: with or without a hook
      the capture sets the same offsets. */
  lemma PartialHookKeepsOffsets(contextAvailable: bool, s: ViewState, region: Rect, composition: Option<real>)
    requires Plannable(region.size.h, s)
    ensures Offsets(PartialCaptureTrace(contextAvailable, s, region, composition))
         == Offsets(PartialCaptureTrace(contextAvailable, s, region, None))
  {
    if contextAvailable {
      PartialCapturePlanned(s, region, composition);
      PartialCapturePlanned(s, region, None);
    }
  }

  /** The hook's offset only changes where pages are placed: each page is the hook-less
      page moved down by the hook's offset. */
  lemma PartialHookShiftsPages(contextAvailable: bool, s: ViewState, region: Rect, composition: Option<real>)
    requires Plannable(region.size.h, s)
    ensures var r, r0 := Renders(PartialCaptureTrace(contextAvailable, s, region, composition)),
                         Renders(PartialCaptureTrace(contextAvailable, s, region, None));
            && |r| == |r0|
            && forall k :: 0 <= k < |r| ==> r[k] == ShiftedDown(r0[k], HookOffset(composition))
  {
    if contextAvailable {
      PartialCapturePlanned(s, region, composition);
      PartialCapturePlanned(s, region, None);
      PageRectsShifted(0, PartialPageNum(s, region), s.frame.size.h, s.bounds, HookOffset(composition));
    } else {
      CompletedNoneOnly(s);
    }
  }

  /** The region's origin plays no part: only its size decides the capture. */
  lemma PartialIgnoresRegionOrigin(contextAvailable: bool, s: ViewState, r1: Rect, r2: Rect, composition: Option<real>)
    requires r1.size == r2.size && Plannable(r1.size.h, s)
    ensures PartialCaptureTrace(contextAvailable, s, r1, composition) == PartialCaptureTrace(contextAvailable, s, r2, composition)
    ensures PartialCaptureResult(contextAvailable, s, r1, composition) == PartialCaptureResult(contextAvailable, s, r2, composition)
  {
  }

  /** A partial capture calls its completion handler exactly once, as its last step,
      assigns no frame, restores the offset just before completing (with a context),
      and leaves the view as it began. */
  lemma PartialCaptureRestoresAndCompletesOnce(contextAvailable: bool, s: ViewState, region: Rect, composition: Option<real>)
    requires Plannable(region.size.h, s)
    ensures var t := PartialCaptureTrace(contextAvailable, s, region, composition);
            && Completions(t) == [PartialCaptureResult(contextAvailable, s, region, composition)]
            && t[|t| - 1] == Completed(PartialCaptureResult(contextAvailable, s, region, composition))
            && Frames(t) == []
            && (contextAvailable ==> t[|t| - 2] == OffsetSet(s.offset))
            && Replay(s, t) == s
  {
    if contextAvailable {
      var hook := HookTrace(composition);
      var rest := PartialWalk(s, region, composition)
                    + [OffsetSet(s.offset), Completed(PartialCaptureResult(true, s, region, composition))];
      PartialTraceShape(s, region, composition);
      HookThenWalk(s, PartialPageNum(s, region), composition, PartialCaptureResult(true, s, region, composition));
      var t := hook + rest;
      assert t[|t| - 1] == rest[|rest| - 1];
      assert t[|t| - 2] == rest[|rest| - 2] == OffsetSet(s.offset);
    } else {
      CompletedNoneOnly(s);
    }
  }

  // ----- properties of the synchronous capture -----

  /** With a context, the synchronous capture renders once, the whole content at the
      top-left (the view's bounds once reframed), and puts frame and offset back, so the
      view ends as it began whenever its bounds size was its frame size. Without a
      context it renders nothing and puts nothing back: the view keeps the content-sized
      frame and the zero offset. */
  lemma SyncCaptureOutcome(contextAvailable: bool, s: ViewState)
    ensures var t := SyncCaptureTrace(contextAvailable, s);
            var reframed := Replay(s, [FrameSet(Reframed(s)), OffsetSet(Zero)]);
            && Renders(t) == (if contextAvailable then [BoundsRect(reframed)] else [])
            && Replay(s, t) == (if contextAvailable then s.(bounds := s.frame.size)
                                else s.(frame := Reframed(s), bounds := s.content, offset := Zero))
            && (contextAvailable && s.bounds == s.frame.size ==> Replay(s, t) == s)
  {
    var head := [FrameSet(Reframed(s)), OffsetSet(Zero)];
    var s1 := s.(frame := Reframed(s), bounds := s.content, offset := Zero);
    assert head == [FrameSet(Reframed(s))] + [OffsetSet(Zero)];
    ReplayAppend(s, [FrameSet(Reframed(s))], [OffsetSet(Zero)]);
    ReplayOne(s, FrameSet(Reframed(s)));
    ReplayOne(s.(frame := Reframed(s), bounds := s.content), OffsetSet(Zero));
    assert Replay(s, head) == s1;
    SelectAppend([FrameSet(Reframed(s))], [OffsetSet(Zero)], RenderOf);
    SelectOne(FrameSet(Reframed(s)), RenderOf);
    SelectOne(OffsetSet(Zero), RenderOf);
    if contextAvailable {
      var tail := [Rendered(Rect(Zero, s.content)), FrameSet(s.frame), OffsetSet(s.offset)];
      var r, f, o := [Rendered(Rect(Zero, s.content))], [FrameSet(s.frame)], [OffsetSet(s.offset)];
      assert tail == r + (f + o);
      ReplayAppend(s, head, tail);
      ReplayAppend(s1, r, f + o);
      ReplayAppend(s1, f, o);
      ReplayOne(s1, Rendered(Rect(Zero, s.content)));
      ReplayOne(s1, FrameSet(s.frame));
      ReplayOne(s1.(frame := s.frame, bounds := s.frame.size), OffsetSet(s.offset));
      SelectAppend(head, tail, RenderOf);
      SelectAppend(r, f + o, RenderOf);
      SelectAppend(f, o, RenderOf);
      SelectOne(Rendered(Rect(Zero, s.content)), RenderOf);
      SelectOne(FrameSet(s.frame), RenderOf);
      SelectOne(OffsetSet(s.offset), RenderOf);
    } else {
      assert SyncCaptureTrace(false, s) == head;
    }
  }

  // ----- worked examples -----

  /** Content 1000 high in a viewport 400 high (frame and bounds alike): two pages
      planned, three renders, at heights 0, 400 and 800. */
  lemma TallContentExample(w: real)
    ensures var s := ViewState(Rect(Zero, Size(w, 400.0)), Size(w, 400.0), Size(w, 1000.0), Zero);
            && FullPageNum(s) == 2
            && Renders(FullCaptureTrace(true, s))
               == [Rect(Point(0.0, 0.0), Size(w, 400.0)), Rect(Point(0.0, 400.0), Size(w, 400.0)),
                   Rect(Point(0.0, 800.0), Size(w, 400.0))]
  {
    var s := ViewState(Rect(Zero, Size(w, 400.0)), Size(w, 400.0), Size(w, 1000.0), Zero);
    assert (1000.0 / 400.0).Floor == 2;
    FullCapturePages(true, s);
  }

  /** Content 300 high in a viewport 400 high: one page planned, still two renders,
      at heights 0 and 400. */
  lemma ShortContentExample(w: real)
    ensures var s := ViewState(Rect(Zero, Size(w, 400.0)), Size(w, 400.0), Size(w, 300.0), Zero);
            && FullPageNum(s) == 1
            && Renders(FullCaptureTrace(true, s))
               == [Rect(Point(0.0, 0.0), Size(w, 400.0)), Rect(Point(0.0, 400.0), Size(w, 400.0))]
  {
    var s := ViewState(Rect(Zero, Size(w, 400.0)), Size(w, 400.0), Size(w, 300.0), Zero);
    FullCapturePages(true, s);
  }
}
