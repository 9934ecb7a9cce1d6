/**
 * The scroll view and its snapshot methods. The view's frame, bounds size, content
 * size and content offset are fields the methods assign; `trace` records what an
 * observer sees the methods do (frames and offsets assigned, rectangles rendered,
 * hook and completion calls), so that each method can be stated against the event
 * sequences of module Capture.
 */
module Snapshot {
  import opened Wrappers
  import opened Geometry
  import opened Trace
  import opened PagePlan
  import opened Capture

  class ScrollView {
    var frame: Rect
    var boundsSize: Size
    var contentSize: Size
    var contentOffset: Point
    ghost var trace: seq<Event>

    function State(): ViewState
      reads this
    {
      ViewState(frame, boundsSize, contentSize, contentOffset)
    }

    constructor (frame: Rect, boundsSize: Size, contentSize: Size, contentOffset: Point)
      ensures State() == ViewState(frame, boundsSize, contentSize, contentOffset)
      ensures trace == []
    {
      this.frame := frame;
      this.boundsSize := boundsSize;
      this.contentSize := contentSize;
      this.contentOffset := contentOffset;
      trace := [];
    }

    // ----- the platform primitives the snapshot code calls -----

    /** `self.frame = r`: the bounds take the new size. */
    method SetFrame(r: Rect)
      modifies this`frame, this`boundsSize, this`trace
      ensures State() == Apply(old(State()), FrameSet(r))
      ensures trace == old(trace) + [FrameSet(r)]
    {
      frame := r;
      boundsSize := r.size;
      trace := trace + [FrameSet(r)];
    }

    /** `setContentOffset(p, animated: false)` or `self.contentOffset = p`. */
    method SetContentOffset(p: Point)
      modifies this`contentOffset, this`trace
      ensures State() == Apply(old(State()), OffsetSet(p))
      ensures trace == old(trace) + [OffsetSet(p)]
    {
      contentOffset := p;
      trace := trace + [OffsetSet(p)];
    }

    /** `drawHierarchy(in: r, afterScreenUpdates: true)` into the current image context. */
    method DrawHierarchy(r: Rect)
      modifies this`trace
      ensures trace == old(trace) + [Rendered(r)]
    {
      trace := trace + [Rendered(r)];
    }

    /** Calls the composition hook, which returns `hook`. */
    method CallComposition(hook: real) returns (dy: real)
      modifies this`trace
      ensures dy == hook
      ensures trace == old(trace) + [Composed(hook)]
    {
      dy := hook;
      trace := trace + [Composed(hook)];
    }

    /** Calls the completion handler with `result`. */
    method CallCompletion(result: Option<Image>)
      modifies this`trace
      ensures trace == old(trace) + [Completed(result)]
    {
      trace := trace + [Completed(result)];
    }

    // ----- snapshot methods -----

    /** The rectangle handed to `takeSnapshotOfFullContent(for:)`: the bounds with the
        content offset as origin, i.e. the part of the content on screen. */
    method TakeSnapshotOfVisibleContent() returns (visibleRect: Rect)
      ensures visibleRect.origin == contentOffset && visibleRect.size == boundsSize
    {
      visibleRect := BoundsRect(State());
    }

    /** Synchronous full-content capture: reframe the view to its content size, scroll
        to the top, render the bounds once, then put frame and offset back. Without an
        image context it returns nothing at once, leaving the view reframed and
        scrolled to the top. */
    method TakeSnapshotOfFullContent(contextAvailable: bool) returns (image: Option<Image>)
      modifies this`frame, this`boundsSize, this`contentOffset, this`trace
      ensures trace == old(trace) + SyncCaptureTrace(contextAvailable, old(State()))
      ensures State() == Replay(old(State()), SyncCaptureTrace(contextAvailable, old(State())))
      ensures image == SyncCaptureResult(contextAvailable, old(State()))
      ensures contextAvailable ==> frame == old(frame) && contentOffset == old(contentOffset)
      ensures !contextAvailable ==> frame == Rect(old(frame.origin), old(contentSize)) && contentOffset == Zero
    {
      ghost var s := State();
      SyncCaptureOutcome(contextAvailable, s);
      var originalFrame := frame;
      var originalOffset := contentOffset;
      SetFrame(Rect(originalFrame.origin, contentSize));
      SetContentOffset(Zero);
      if !contextAvailable {
        return None;
      }
      var bounds := BoundsRect(State());
      DrawHierarchy(bounds);
      image := Some(Image(boundsSize, false, [bounds]));
      SetFrame(originalFrame);
      SetContentOffset(originalOffset);
    }

    /** Asynchronous full-content capture: plan the pages from the content height,
        walk them, restore the offset, then call the completion handler; without an
        image context, call it with nothing and walk nothing. */
    method AsyncTakeSnapshotOfFullContent(contextAvailable: bool) returns (result: Option<Image>)
      requires Plannable(contentSize.h, State())
      modifies this`contentOffset, this`trace
      ensures trace == old(trace) + FullCaptureTrace(contextAvailable, old(State()))
      ensures result == FullCaptureResult(contextAvailable, old(State()))
      ensures State() == old(State())
    {
      var originalOffset := contentOffset;
      var pageNum := PageCount(contentSize.h, ViewportHeight(State()));
      if !contextAvailable {
        result := None;
        CallCompletion(result);
        return;
      }
      var drawn := DrawScreenshotOfPageContent(0, pageNum);
      result := Some(Image(contentSize, false, drawn));
      SetContentOffset(originalOffset);
      CallCompletion(result);
    }

    /** One page of a walk: scroll to `(0, k * frame height)`, then render the
        bounds-sized rectangle at `(0, k * frame height + dy)`. */
    method DrawPage(k: nat, dy: real) returns (pageFrame: Rect)
      modifies this`contentOffset, this`trace
      ensures pageFrame == PageRect(k, frame.size.h, boundsSize, dy)
      ensures contentOffset == PageOffset(k, frame.size.h)
      ensures trace == old(trace) + PageEvents(k, frame.size.h, boundsSize, dy)
    {
      var y := k as real * frame.size.h;
      var target := Point(0.0, y);
      SetContentOffset(target);
      pageFrame := Rect(Point(0.0, y + dy), boundsSize);
      DrawHierarchy(pageFrame);
    }

    /** The full-content page walker from page `index` to page `maxIndex`: each step
        scrolls to `(0, index * frame height)` and renders the bounds-sized rectangle
        there, then goes on while `index < maxIndex`. */
    method DrawScreenshotOfPageContent(index: nat, maxIndex: nat) returns (drawn: seq<Rect>)
      modifies this`contentOffset, this`trace
      ensures trace == old(trace) + WalkTrace(index, maxIndex, frame.size.h, boundsSize, 0.0)
      ensures drawn == PageRects(index, maxIndex, frame.size.h, boundsSize, 0.0)
      ensures contentOffset == PageOffset(if index <= maxIndex then maxIndex else index, frame.size.h)
    {
      ghost var stride, page := frame.size.h, boundsSize;
      var i := index;
      var pageFrame := DrawPage(i, 0.0);
      drawn := [pageFrame];
      assert WalkTrace(index, i, stride, page, 0.0) == PageEvents(i, stride, page, 0.0);
      assert PageRects(index, i, stride, page, 0.0) == [PageRect(i, stride, page, 0.0)];
      while i < maxIndex
        invariant index <= i && (i <= maxIndex || i == index)
        invariant stride == frame.size.h && page == boundsSize
        invariant trace == old(trace) + WalkTrace(index, i, stride, page, 0.0)
        invariant drawn == PageRects(index, i, stride, page, 0.0)
        invariant contentOffset == PageOffset(i, stride)
      {
        ghost var walked := trace;
        pageFrame := DrawPage(i + 1, 0.0);
        WalkExtends(old(trace), walked, trace, drawn, index, i, stride, page, 0.0);
        drawn := drawn + [pageFrame];
        i := i + 1;
      }
    }

    /** Asynchronous partial capture of `contentRect`: plan the pages from the rectangle's
        height, call the composition hook (if any) once for the placement offset, walk
        the pages, restore the offset, then call the completion handler; without an
        image context, call it with nothing, call no hook and walk nothing. */
    method AsyncTakeSnapshotOfPartialContent(contentRect: Rect, composition: Option<real>, contextAvailable: bool)
      returns (result: Option<Image>)
      requires Plannable(contentRect.size.h, State())
      modifies this`contentOffset, this`trace
      ensures trace == old(trace) + PartialCaptureTrace(contextAvailable, old(State()), contentRect, composition)
      ensures result == PartialCaptureResult(contextAvailable, old(State()), contentRect, composition)
      ensures State() == old(State())
    {
      var originalOffset := contentOffset;
      var pageNum := PageCount(contentRect.size.h, ViewportHeight(State()));
      if !contextAvailable {
        result := None;
        CallCompletion(result);
        return;
      }
      ghost var s := State();
      var offset := 0.0;
      if composition.Some? {
        offset := CallComposition(composition.value);
      }
      assert offset == HookOffset(composition);
      assert trace == old(trace) + HookTrace(composition);
      ghost var before := trace;
      var drawn := DrawScreenshotOfPagePartialContent(0, pageNum, offset);
      ghost var walk := PartialWalk(s, contentRect, composition);
      assert trace == before + walk;
      result := Some(Image(contentRect.size, composition.Some?, drawn));
      assert result == PartialCaptureResult(true, s, contentRect, composition);
      SetContentOffset(originalOffset);
      CallCompletion(result);
      PartialAssembled(old(trace), s, contentRect, composition, trace);
    }

    /** The partial page walker: like the full-content walker, but the rectangle rendered
        for a page is moved down by `offset`; the scroll offset is not. */
    method DrawScreenshotOfPagePartialContent(index: nat, maxIndex: nat, offset: real) returns (drawn: seq<Rect>)
      modifies this`contentOffset, this`trace
      ensures trace == old(trace) + WalkTrace(index, maxIndex, frame.size.h, boundsSize, offset)
      ensures drawn == PageRects(index, maxIndex, frame.size.h, boundsSize, offset)
      ensures contentOffset == PageOffset(if index <= maxIndex then maxIndex else index, frame.size.h)
    {
      ghost var stride, page := frame.size.h, boundsSize;
      var i := index;
      var pageFrame := DrawPage(i, offset);
      drawn := [pageFrame];
      assert WalkTrace(index, i, stride, page, offset) == PageEvents(i, stride, page, offset);
      assert PageRects(index, i, stride, page, offset) == [PageRect(i, stride, page, offset)];
      while i < maxIndex
        invariant index <= i && (i <= maxIndex || i == index)
        invariant stride == frame.size.h && page == boundsSize
        invariant trace == old(trace) + WalkTrace(index, i, stride, page, offset)
        invariant drawn == PageRects(index, i, stride, page, offset)
        invariant contentOffset == PageOffset(i, stride)
      {
        ghost var walked := trace;
        pageFrame := DrawPage(i + 1, offset);
        WalkExtends(old(trace), walked, trace, drawn, index, i, stride, page, offset);
        drawn := drawn + [pageFrame];
        i := i + 1;
      }
    }
  }

  /** The pieces a partial capture records, in order, make up its trace. */
  lemma PartialAssembled(before: seq<Event>, s: ViewState, region: Rect, composition: Option<real>, t: seq<Event>)
    requires Plannable(region.size.h, s)
    requires t == before + HookTrace(composition) + PartialWalk(s, region, composition)
                  + [OffsetSet(s.offset)] + [Completed(PartialCaptureResult(true, s, region, composition))]
    ensures t == before + PartialCaptureTrace(true, s, region, composition)
  {
    PartialTraceShape(s, region, composition);
  }

  /** What one more loop iteration of a walker appends keeps the walker's trace and its
      rendered rectangles those of the walk one page longer. */
  lemma WalkExtends(before: seq<Event>, walked: seq<Event>, t: seq<Event>, drawn: seq<Rect>,
                    index: nat, i: nat, stride: real, page: Size, dy: real)
    requires index <= i
    requires walked == before + WalkTrace(index, i, stride, page, dy)
    requires t == walked + PageEvents(i + 1, stride, page, dy)
    requires drawn == PageRects(index, i, stride, page, dy)
    ensures t == before + WalkTrace(index, i + 1, stride, page, dy)
    ensures drawn + [PageRect(i + 1, stride, page, dy)] == PageRects(index, i + 1, stride, page, dy)
  {
    WalkTraceSnoc(index, i, stride, page, dy);
    PageRectsSnoc(index, i, stride, page, dy);
  }
}
