/**
 * Page planning and page walking: how many pages a capture walks, where each
 * page puts the viewport, which rectangle it renders, and the event sequence of
 * one walk (`drawScreenshotOfPageContent` and `drawScreenshotOfPagePartialContent`).
 */
module PagePlan {
  import opened Geometry
  import opened Trace

  /** The `pageNum` of a capture: 1 when the height to capture fits in the viewport
      height, otherwise the whole number of viewport heights in it (rounded down).
      The division happens only in the second case, so only there must the viewport
      height be positive. */
  function PageCount(height: real, viewport: real): (n: int)
    requires height > viewport ==> viewport > 0.0
    ensures n >= 1
    ensures height <= viewport ==> n == 1
    ensures height > viewport ==> n as real * viewport <= height < (n + 1) as real * viewport
  {
    if height > viewport then
      var q := height / viewport;
      var f := q.Floor as real;
      assert q * viewport == height;
      assert 1.0 < q;
      assert q < f + 1.0;
      ScaleMonotone(f, q, viewport);
      ScaleStrict(q, f + 1.0, viewport);
      assert height < (f + 1.0) * viewport;
      assert (q.Floor + 1) as real == f + 1.0;
      q.Floor
    else 1
  }

  lemma ScaleMonotone(a: real, b: real, c: real)
    requires a <= b && c > 0.0
    ensures a * c <= b * c
  {
  }

  lemma ScaleStrict(a: real, b: real, c: real)
    requires a < b && c > 0.0
    ensures a * c < b * c
  {
  }

  /** Number of pages a walk from `index` to `maxIndex` renders: the step at `index`
      always happens, then one more per index up to `maxIndex`. */
  function StepCount(index: nat, maxIndex: nat): nat {
    if index <= maxIndex then maxIndex - index + 1 else 1
  }

  /** The content offset set for page `k`: `(0, k * frame height)`. */
  function PageOffset(k: nat, stride: real): Point {
    Point(0.0, k as real * stride)
  }

  /** The rectangle rendered for page `k`: a bounds-sized rectangle at
      `(0, k * frame height + dy)`; `dy` is 0 for a full-content capture and the
      composition hook's offset for a partial one. */
  function PageRect(k: nat, stride: real, page: Size, dy: real): Rect {
    Rect(Point(0.0, k as real * stride + dy), page)
  }

  /** One step of a walk: move the viewport to the page, then render the page. */
  function PageEvents(k: nat, stride: real, page: Size, dy: real): seq<Event> {
    [OffsetSet(PageOffset(k, stride)), Rendered(PageRect(k, stride, page, dy))]
  }

  /** The rectangle a page step renders. */
  lemma PageEventsRender(k: nat, stride: real, page: Size, dy: real)
    ensures Renders(PageEvents(k, stride, page, dy)) == [PageRect(k, stride, page, dy)]
  {
    var p := PageEvents(k, stride, page, dy);
    assert p == [p[0]] + [p[1]];
    SelectAppend([p[0]], [p[1]], RenderOf);
    SelectOne(p[0], RenderOf);
    SelectOne(p[1], RenderOf);
  }

  /** The events of a walk started at `index`: the page step, then the rest of the walk
      while `index < maxIndex`, otherwise completion. */
  function WalkTrace(index: nat, maxIndex: nat, stride: real, page: Size, dy: real): seq<Event>
    decreases maxIndex - index
  {
    PageEvents(index, stride, page, dy)
      + (if index < maxIndex then WalkTrace(index + 1, maxIndex, stride, page, dy) else [])
  }

  /** A walk records two events per page. */
  lemma {:induction false} WalkTraceLength(index: nat, maxIndex: nat, stride: real, page: Size, dy: real)
    ensures |WalkTrace(index, maxIndex, stride, page, dy)| == 2 * StepCount(index, maxIndex)
    decreases maxIndex - index
  {
    if index < maxIndex {
      WalkTraceLength(index + 1, maxIndex, stride, page, dy);
    }
  }

  /** A walk one page longer is the shorter walk followed by the extra page step;
      this is what lets the walk be run as a loop over the index. */
  lemma {:induction false} WalkTraceSnoc(index: nat, last: nat, stride: real, page: Size, dy: real)
    requires index <= last
    ensures WalkTrace(index, last + 1, stride, page, dy)
         == WalkTrace(index, last, stride, page, dy) + PageEvents(last + 1, stride, page, dy)
    decreases last - index
  {
    var head, step := PageEvents(index, stride, page, dy), PageEvents(last + 1, stride, page, dy);
    if index < last {
      var mid := WalkTrace(index + 1, last, stride, page, dy);
      WalkTraceSnoc(index + 1, last, stride, page, dy);
      assert WalkTrace(index, last + 1, stride, page, dy) == head + (mid + step);
      assert WalkTrace(index, last, stride, page, dy) == head + mid;
      assert head + (mid + step) == (head + mid) + step;
    } else {
      assert WalkTrace(index, last + 1, stride, page, dy) == head + step;
      assert WalkTrace(index, last, stride, page, dy) == head + [];
    }
  }

  /** Step `j` of a walk sets the offset of page `index + j` and then renders that page. */
  lemma {:induction false} WalkTraceAt(index: nat, maxIndex: nat, stride: real, page: Size, dy: real, j: nat)
    requires j < StepCount(index, maxIndex)
    ensures var t := WalkTrace(index, maxIndex, stride, page, dy);
            && 2 * j + 1 < |t|
            && t[2 * j] == OffsetSet(PageOffset(index + j, stride))
            && t[2 * j + 1] == Rendered(PageRect(index + j, stride, page, dy))
    decreases j
  {
    WalkTraceLength(index, maxIndex, stride, page, dy);
    if j > 0 {
      var head, rest := PageEvents(index, stride, page, dy), WalkTrace(index + 1, maxIndex, stride, page, dy);
      WalkTraceAt(index + 1, maxIndex, stride, page, dy, j - 1);
      assert WalkTrace(index, maxIndex, stride, page, dy) == head + rest;
      assert index + 1 + (j - 1) == index + j;
    }
  }

  /** A walk only moves the viewport and renders: it assigns no frame, calls no hook
      and calls no completion handler. */
  lemma {:induction false} WalkOnlyScrollsAndRenders(index: nat, maxIndex: nat, stride: real, page: Size, dy: real)
    ensures var t := WalkTrace(index, maxIndex, stride, page, dy);
            Frames(t) == [] && HookCalls(t) == [] && Completions(t) == []
    decreases maxIndex - index
  {
    var rest := if index < maxIndex then WalkTrace(index + 1, maxIndex, stride, page, dy) else [];
    if index < maxIndex {
      WalkOnlyScrollsAndRenders(index + 1, maxIndex, stride, page, dy);
    }
    SelectAppend(PageEvents(index, stride, page, dy), rest, FrameOf);
    SelectAppend(PageEvents(index, stride, page, dy), rest, HookOf);
    SelectAppend(PageEvents(index, stride, page, dy), rest, CompletionOf);
  }

  /** The pages a walk from `index` to `maxIndex` should render, one per index, in
      increasing index order. */
  function PageRects(index: nat, maxIndex: nat, stride: real, page: Size, dy: real): (r: seq<Rect>)
    ensures |r| == StepCount(index, maxIndex)
    decreases maxIndex - index
  {
    [PageRect(index, stride, page, dy)]
      + (if index < maxIndex then PageRects(index + 1, maxIndex, stride, page, dy) else [])
  }

  /** The offsets a walk from `index` to `maxIndex` should set, one per index, in
      increasing index order. */
  function PageOffsets(index: nat, maxIndex: nat, stride: real): (o: seq<Point>)
    ensures |o| == StepCount(index, maxIndex)
    decreases maxIndex - index
  {
    [PageOffset(index, stride)]
      + (if index < maxIndex then PageOffsets(index + 1, maxIndex, stride) else [])
  }

  /** Planning one page further appends that page's rectangle. */
  lemma {:induction false} PageRectsSnoc(index: nat, last: nat, stride: real, page: Size, dy: real)
    requires index <= last
    ensures PageRects(index, last + 1, stride, page, dy)
         == PageRects(index, last, stride, page, dy) + [PageRect(last + 1, stride, page, dy)]
    decreases last - index
  {
    if index < last {
      PageRectsSnoc(index + 1, last, stride, page, dy);
    }
  }

  lemma {:induction false} PageRectsAt(index: nat, maxIndex: nat, stride: real, page: Size, dy: real, j: nat)
    requires j < StepCount(index, maxIndex)
    ensures PageRects(index, maxIndex, stride, page, dy)[j] == PageRect(index + j, stride, page, dy)
    decreases j
  {
    if j > 0 {
      PageRectsAt(index + 1, maxIndex, stride, page, dy, j - 1);
    }
  }

  lemma {:induction false} PageOffsetsAt(index: nat, maxIndex: nat, stride: real, j: nat)
    requires j < StepCount(index, maxIndex)
    ensures PageOffsets(index, maxIndex, stride)[j] == PageOffset(index + j, stride)
    decreases j
  {
    if j > 0 {
      PageOffsetsAt(index + 1, maxIndex, stride, j - 1);
    }
  }

  /** Planning with a vertical offset `dy` moves every planned page down by `dy` and
      changes nothing else. */
  lemma PageRectsShifted(index: nat, maxIndex: nat, stride: real, page: Size, dy: real)
    ensures var r, r0 := PageRects(index, maxIndex, stride, page, dy), PageRects(index, maxIndex, stride, page, 0.0);
            && |r| == |r0|
            && forall k :: 0 <= k < |r| ==> r[k] == ShiftedDown(r0[k], dy)
  {
    var r, r0 := PageRects(index, maxIndex, stride, page, dy), PageRects(index, maxIndex, stride, page, 0.0);
    forall k | 0 <= k < |r|
      ensures r[k] == ShiftedDown(r0[k], dy)
    {
      PageRectsAt(index, maxIndex, stride, page, dy, k);
      PageRectsAt(index, maxIndex, stride, page, 0.0, k);
    }
  }

  /** The rectangles a walk renders are exactly the planned page rectangles. */
  lemma {:induction false} WalkRendersPlanned(index: nat, maxIndex: nat, stride: real, page: Size, dy: real)
    ensures Renders(WalkTrace(index, maxIndex, stride, page, dy)) == PageRects(index, maxIndex, stride, page, dy)
    decreases maxIndex - index
  {
    var rest := if index < maxIndex then WalkTrace(index + 1, maxIndex, stride, page, dy) else [];
    SelectAppend(PageEvents(index, stride, page, dy), rest, RenderOf);
    PageEventsRender(index, stride, page, dy);
    if index < maxIndex {
      WalkRendersPlanned(index + 1, maxIndex, stride, page, dy);
    }
  }

  /** The offsets a walk sets are exactly the planned page offsets. */
  lemma {:induction false} WalkOffsetsPlanned(index: nat, maxIndex: nat, stride: real, page: Size, dy: real)
    ensures Offsets(WalkTrace(index, maxIndex, stride, page, dy)) == PageOffsets(index, maxIndex, stride)
    decreases maxIndex - index
  {
    var head := PageEvents(index, stride, page, dy);
    var rest := if index < maxIndex then WalkTrace(index + 1, maxIndex, stride, page, dy) else [];
    SelectAppend(head, rest, OffsetOf);
    assert Offsets(head) == [PageOffset(index, stride)] by {
      assert head == [head[0]] + [head[1]];
      SelectAppend([head[0]], [head[1]], OffsetOf);
      SelectOne(head[0], OffsetOf);
      SelectOne(head[1], OffsetOf);
    }
    if index < maxIndex {
      WalkOffsetsPlanned(index + 1, maxIndex, stride, page, dy);
    }
  }

  /** The pages a walk renders: exactly one per index from `index` to `maxIndex`,
      in increasing index order, page `index + j` at position `j`. */
  lemma WalkRenders(index: nat, maxIndex: nat, stride: real, page: Size, dy: real)
    ensures var r := Renders(WalkTrace(index, maxIndex, stride, page, dy));
            && |r| == StepCount(index, maxIndex)
            && forall j :: 0 <= j < |r| ==> r[j] == PageRect(index + j, stride, page, dy)
  {
    WalkRendersPlanned(index, maxIndex, stride, page, dy);
    var r := Renders(WalkTrace(index, maxIndex, stride, page, dy));
    forall j | 0 <= j < |r|
      ensures r[j] == PageRect(index + j, stride, page, dy)
    {
      PageRectsAt(index, maxIndex, stride, page, dy, j);
    }
  }

  /** The offsets a walk sets: page `index + j`'s offset at position `j`. They depend on
      the frame height only, never on the page size or on `dy`. */
  lemma WalkOffsets(index: nat, maxIndex: nat, stride: real, page: Size, dy: real)
    ensures var o := Offsets(WalkTrace(index, maxIndex, stride, page, dy));
            && |o| == StepCount(index, maxIndex)
            && forall j :: 0 <= j < |o| ==> o[j] == PageOffset(index + j, stride)
  {
    WalkOffsetsPlanned(index, maxIndex, stride, page, dy);
    var o := Offsets(WalkTrace(index, maxIndex, stride, page, dy));
    forall j | 0 <= j < |o|
      ensures o[j] == PageOffset(index + j, stride)
    {
      PageOffsetsAt(index, maxIndex, stride, j);
    }
  }

  /** With a positive frame height the rendered pages move strictly down the content. */
  lemma WalkRendersDescend(index: nat, maxIndex: nat, stride: real, page: Size, dy: real, i: nat, j: nat)
    requires stride > 0.0
    requires i < j < StepCount(index, maxIndex)
    ensures var r := Renders(WalkTrace(index, maxIndex, stride, page, dy));
            j < |r| && r[i].origin.y < r[j].origin.y
  {
    var r := Renders(WalkTrace(index, maxIndex, stride, page, dy));
    WalkRenders(index, maxIndex, stride, page, dy);
    assert r[i] == PageRect(index + i, stride, page, dy);
    assert r[j] == PageRect(index + j, stride, page, dy);
    PageRectsDescend(index + i, index + j, stride, page, dy);
  }

  lemma PageRectsDescend(a: nat, b: nat, stride: real, page: Size, dy: real)
    requires stride > 0.0 && a < b
    ensures PageRect(a, stride, page, dy).origin.y < PageRect(b, stride, page, dy).origin.y
  {
    ScaleStrict(a as real, b as real, stride);
  }

  /** After a walk the viewport rests on the last page; nothing else has changed. */
  lemma {:induction false} WalkReplay(s: ViewState, index: nat, maxIndex: nat, stride: real, dy: real)
    ensures Replay(s, WalkTrace(index, maxIndex, stride, s.bounds, dy))
         == s.(offset := PageOffset(if index <= maxIndex then maxIndex else index, stride))
    decreases maxIndex - index
  {
    var head := PageEvents(index, stride, s.bounds, dy);
    var rest := if index < maxIndex then WalkTrace(index + 1, maxIndex, stride, s.bounds, dy) else [];
    ReplayAppend(s, head, rest);
    var s1 := s.(offset := PageOffset(index, stride));
    assert Replay(s, head) == s1 by {
      var tail := head[1..];
      assert Replay(s, head) == Replay(s1, tail);
      assert tail[1..] == [];
      assert Replay(s1, tail) == Replay(Apply(s1, tail[0]), []);
    }
    if index < maxIndex {
      WalkReplay(s1, index + 1, maxIndex, stride, dy);
    }
  }

  /** Every page rectangle a walk renders is the view's bounds rectangle at that moment
      (the part of the content on screen after the page's offset was set), moved down
      by `dy`. For a full-content capture (`dy` = 0) each page renders exactly what is
      visible. */
  lemma WalkRendersWhatIsVisible(s: ViewState, index: nat, maxIndex: nat, dy: real, j: nat)
    requires j < StepCount(index, maxIndex)
    ensures var t := WalkTrace(index, maxIndex, s.frame.size.h, s.bounds, dy);
            && 2 * j + 1 < |t|
            && t[2 * j + 1].Rendered?
            && t[2 * j + 1].rect == ShiftedDown(BoundsRect(Replay(s, t[..2 * j + 1])), dy)
  {
    var stride := s.frame.size.h;
    var t := WalkTrace(index, maxIndex, stride, s.bounds, dy);
    WalkTraceAt(index, maxIndex, stride, s.bounds, dy, j);
    var before := t[..2 * j];
    assert t[..2 * j + 1] == before + [OffsetSet(PageOffset(index + j, stride))];
    WalkOnlyScrollsAndRenders(index, maxIndex, stride, s.bounds, dy);
    assert t == before + t[2 * j..];
    SelectAppend(before, t[2 * j..], FrameOf);
    ReplayKeepsFrame(s, before);
    ReplayAppend(s, before, [OffsetSet(PageOffset(index + j, stride))]);
  }
}
