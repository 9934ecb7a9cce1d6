# SnapshotKit scroll-view capture, modelled in Dafny

SnapshotKit's `UIScrollView` extension turns a scroll view's content into one image.
It has three entry points:

- **Synchronous full-content capture.** It resizes the view's frame to the content
  size and scrolls to the top. It renders the bounds once, then puts frame and offset
  back.
- **Asynchronous full-content capture.** It plans a number of pages from the content
  height against the bounds height. A page walker then renders pages 0 to `pageNum`:
  for each page it sets the offset `(0, index * frame height)` and renders a
  bounds-sized rectangle there. Finally the capture restores the original offset and
  calls the completion handler once.
- **Asynchronous partial capture.** It works like the full-content capture, but plans
  the pages from a caller's rectangle. An optional composition hook is called once,
  before the walk. The hook returns a vertical offset that moves every rendered page
  rectangle down, but not the scroll offset.

The model has these modules:

- `Geometry` holds points, sizes and rectangles over `real`.
- `Trace` holds what an observer sees a capture do, as a sequence of events: frame
  assigned, offset assigned, rectangle rendered, hook called, completion called.
  `Replay` is the effect of those events on the view's geometry.
- `PagePlan` holds the page count and the events of one page walk. It also proves the
  walk's pages, offsets, order and final viewport.
- `Capture` holds the event sequence and result of each entry point as functions of the
  starting view state. Its lemmas prove what each entry point promises.
- `Snapshot` holds the class `ScrollView`. Its fields are the frame, the bounds size,
  the content size and the content offset. A ghost field records the event trace. The
  snapshot methods assign these fields step by step, as the Swift code does. The two
  page walkers are `while` loops over the page index. Each method's postcondition ties
  the new trace, the new state and the result to the functions of `Capture` and
  `PagePlan`.

Whether the platform hands out an image context is a boolean parameter. The
composition hook is an `Option<real>`: the value it returns, or no hook.

The synchronous capture puts frame and offset back only on its success path. It
returns early, without restoring them, when no image context is available
(`UIScrollView+Snapshot.swift:33-35`). `Capture.SyncCaptureOutcome` and
`Snapshot.ScrollView.TakeSnapshotOfFullContent` state that on that path the view keeps
the content-sized frame and the zero offset.

Pages are planned against `bounds.height`, the bounds rectangle's height, which is
never negative: a rectangle stored with a negative height reports its magnitude. The
model plans against that magnitude (`Capture.ViewportHeight`). The page rectangle
itself uses the stored `bounds.size`, as the walkers do.

## Model

| member | source | states |
|---|---|---|
| PagePlan.PageCount | SnapshotKit/Classes/UIScrollView+Snapshot.swift:55-58 | page count is at least 1; it is exactly 1 when the height fits in the viewport; otherwise it is the whole number of viewport heights in the height (n·v ≤ h < (n+1)·v) |
| Capture.ViewportHeight | SnapshotKit/Classes/UIScrollView+Snapshot.swift:56-57 | the height pages are planned against is never negative and is the stored bounds height or its negation, i.e. its magnitude |
| Capture.TallContentExample | SnapshotKit/Classes/UIScrollView+Snapshot.swift:55-58 | content 1000 high in a 400 viewport gives pageNum 2 and three renders, at y = 0, 400 and 800 |
| Capture.ShortContentExample | SnapshotKit/Classes/UIScrollView+Snapshot.swift:55-58 | content 300 high in a 400 viewport gives pageNum 1 and still two renders, at y = 0 and 400 |
| PagePlan.WalkTraceLength | SnapshotKit/Classes/UIScrollView+Snapshot.swift:79-93 | a walk records two events (scroll, render) per page, one page per index from `index` to `maxIndex` (one page if `index > maxIndex`) |
| PagePlan.WalkTraceSnoc | SnapshotKit/Classes/UIScrollView+Snapshot.swift:87-88 | the recursive walk one page longer is the shorter walk followed by the extra page's scroll and render |
| PagePlan.WalkTraceAt | SnapshotKit/Classes/UIScrollView+Snapshot.swift:81-85 | step j of a walk first sets the offset of page index+j, then renders that page's rectangle |
| PagePlan.WalkOnlyScrollsAndRenders | SnapshotKit/Classes/UIScrollView+Snapshot.swift:79-93 | a walk assigns no frame, calls no hook and does not call the completion handler |
| PagePlan.PageRectsSnoc | SnapshotKit/Classes/UIScrollView+Snapshot.swift:87-88 | planning one page further appends exactly that page's rectangle |
| PagePlan.PageRectsAt | SnapshotKit/Classes/UIScrollView+Snapshot.swift:82 | the j-th planned rectangle is page index+j's rectangle |
| PagePlan.PageOffsetsAt | SnapshotKit/Classes/UIScrollView+Snapshot.swift:81 | the j-th planned offset is page index+j's offset `(0, (index+j)·frame height)` |
| PagePlan.WalkRendersPlanned | SnapshotKit/Classes/UIScrollView+Snapshot.swift:82-88 | the rectangles a walk renders are exactly the planned page rectangles, in order |
| PagePlan.WalkOffsetsPlanned | SnapshotKit/Classes/UIScrollView+Snapshot.swift:81-88 | the offsets a walk sets are exactly the planned page offsets, in order |
| PagePlan.WalkRenders | SnapshotKit/Classes/UIScrollView+Snapshot.swift:79-93 | a walk renders one rectangle per page, page index+j at position j, at `(0, (index+j)·frame height + dy)` with the bounds size |
| PagePlan.WalkOffsets | SnapshotKit/Classes/UIScrollView+Snapshot.swift:81 | a walk sets offset `(0, (index+j)·frame height)` at position j, independent of the page size and of dy |
| PagePlan.PageRectsShifted | SnapshotKit/Classes/UIScrollView+Snapshot.swift:137 | placing pages with offset dy moves each page rectangle down by dy and changes nothing else |
| PagePlan.WalkRendersDescend | SnapshotKit/Classes/UIScrollView+Snapshot.swift:81-88 | with a positive frame height, later pages are rendered strictly further down |
| PagePlan.WalkReplay | SnapshotKit/Classes/UIScrollView+Snapshot.swift:81-88 | after a walk the viewport rests on the last page's offset and nothing else about the view has changed |
| PagePlan.WalkRendersWhatIsVisible | SnapshotKit/Classes/UIScrollView+Snapshot.swift:81-85 | each rendered rectangle is the bounds rectangle (offset, bounds size) at that moment, moved down by dy: a full-content walk renders exactly what is on screen |
| Trace.ClosingEvents | SnapshotKit/Classes/UIScrollView+Snapshot.swift:74-75 | restoring the offset and then completing sets just that offset, calls completion once with the result, renders nothing |
| Capture.WalkThenRestore | SnapshotKit/Classes/UIScrollView+Snapshot.swift:71-76 | walk + restore + complete renders the planned pages, sets the planned offsets then the original one, completes once and leaves the view as it was |
| Capture.HookThen | SnapshotKit/Classes/UIScrollView+Snapshot.swift:119-122 | the hook step adds exactly one hook call (when a hook exists) and affects neither renders, offsets, frames, completions nor the view |
| Capture.HookThenWalk | SnapshotKit/Classes/UIScrollView+Snapshot.swift:119-129 | hook, walk with the hook's dy, restore and complete: planned pages shifted by dy, planned offsets then the original, one hook call, one completion, view unchanged |
| Capture.FullCaptureFailureOnlyCompletes | SnapshotKit/Classes/UIScrollView+Snapshot.swift:64-67 | without an image context the full-content capture only calls completion(nil): no render, no scroll, no hook, result nil, view unchanged |
| Capture.PartialCaptureFailureOnlyCompletes | SnapshotKit/Classes/UIScrollView+Snapshot.swift:112-115 | without an image context the partial capture only calls completion(nil): no hook call, no render, no scroll, result nil, view unchanged |
| Capture.FullCapturePages | SnapshotKit/Classes/UIScrollView+Snapshot.swift:50-77 | with a context, pageNum+1 renders, page k at `(0, k·frame height)` with the bounds size, the image holds exactly those pages, offsets are page k's then the original; without a context nothing is rendered or scrolled |
| Capture.FullCaptureRestoresAndCompletesOnce | SnapshotKit/Classes/UIScrollView+Snapshot.swift:64-76 | completion is called exactly once, as the last step, with the capture's result; the offset is restored just before it; no frame or hook; the view ends as it began |
| Capture.PartialCaptureHookOnceFirst | SnapshotKit/Classes/UIScrollView+Snapshot.swift:112-124 | the hook is called at most once: exactly once when there is a hook and a context, as the first step, and never again afterwards |
| Capture.PartialCapturePlanned | SnapshotKit/Classes/UIScrollView+Snapshot.swift:96-130 | a partial capture renders the planned pages of the region's page count moved by the hook's dy, and sets the planned offsets then the original one |
| Capture.PartialCaptureRenders | SnapshotKit/Classes/UIScrollView+Snapshot.swift:103-129 | with a context, pageNum+1 renders (pageNum from the region height), page k at `(0, k·frame height + dy)`, image of the region's size holding exactly those pages; without a context no render |
| Capture.PartialCaptureOffsets | SnapshotKit/Classes/UIScrollView+Snapshot.swift:132-135 | with a context the offsets are `(0, k·frame height)` for k = 0..pageNum, then the original offset; without a context none |
| Capture.PartialHookKeepsOffsets | SnapshotKit/Classes/UIScrollView+Snapshot.swift:134-135 | the offsets a partial capture sets are the same with and without a hook |
| Capture.PartialHookShiftsPages | SnapshotKit/Classes/UIScrollView+Snapshot.swift:137 | each page rendered with a hook is the hook-less page moved down by the hook's dy |
| Capture.PartialIgnoresRegionOrigin | SnapshotKit/Classes/UIScrollView+Snapshot.swift:104-110 | two regions of the same size give the same events and the same result: the region's origin is unused |
| Capture.PartialCaptureRestoresAndCompletesOnce | SnapshotKit/Classes/UIScrollView+Snapshot.swift:112-129 | completion is called exactly once, as the last step, with the result; the offset is restored just before it; no frame assigned; the view ends as it began |
| Capture.SyncCaptureOutcome | SnapshotKit/Classes/UIScrollView+Snapshot.swift:22-47 | with a context, one render of the reframed bounds (the whole content at the top) and frame and offset put back; without one, no render and the view keeps the content-sized frame and zero offset |
| Snapshot.ScrollView.SetFrame | SnapshotKit/Classes/UIScrollView+Snapshot.swift:26 | assigning the frame also gives the bounds the frame's size, and records the assignment |
| Snapshot.ScrollView.SetContentOffset | SnapshotKit/Classes/UIScrollView+Snapshot.swift:81 | assigning the offset changes only the offset, and records it |
| Snapshot.ScrollView.DrawHierarchy | SnapshotKit/Classes/UIScrollView+Snapshot.swift:85 | rendering records the rectangle rendered and changes no geometry |
| Snapshot.ScrollView.CallComposition | SnapshotKit/Classes/UIScrollView+Snapshot.swift:121 | calling the hook returns its value and records one hook call |
| Snapshot.ScrollView.CallCompletion | SnapshotKit/Classes/UIScrollView+Snapshot.swift:75 | calling the completion handler records one completion with its argument |
| Snapshot.ScrollView.TakeSnapshotOfVisibleContent | SnapshotKit/Classes/UIScrollView+Snapshot.swift:13-19 | the visible rectangle has the content offset as origin and the bounds size |
| Snapshot.ScrollView.TakeSnapshotOfFullContent | SnapshotKit/Classes/UIScrollView+Snapshot.swift:22-47 | records the synchronous capture's events and returns its result; with a context frame and offset are as before, without one the frame is content-sized at the old origin and the offset zero |
| Snapshot.ScrollView.AsyncTakeSnapshotOfFullContent | SnapshotKit/Classes/UIScrollView+Snapshot.swift:50-77 | records exactly the full-content capture's events, passes its result to completion, and leaves the view's state as it was |
| Snapshot.ScrollView.DrawPage | SnapshotKit/Classes/UIScrollView+Snapshot.swift:81-85 | one page step sets page k's offset, renders page k's rectangle and records both |
| Snapshot.ScrollView.DrawScreenshotOfPageContent | SnapshotKit/Classes/UIScrollView+Snapshot.swift:79-93 | the loop records exactly the walk from index to maxIndex, returns the planned rectangles and leaves the viewport on the last page |
| Snapshot.ScrollView.AsyncTakeSnapshotOfPartialContent | SnapshotKit/Classes/UIScrollView+Snapshot.swift:96-130 | records exactly the partial capture's events, passes its result to completion, and leaves the view's state as it was |
| Snapshot.ScrollView.DrawScreenshotOfPagePartialContent | SnapshotKit/Classes/UIScrollView+Snapshot.swift:132-147 | the loop records exactly the walk with rectangles moved by `offset`, returns the planned rectangles and leaves the viewport on the last page |
| Snapshot.WalkExtends | SnapshotKit/Classes/UIScrollView+Snapshot.swift:87-88 | one more iteration of a walker's loop extends its trace and its rectangles to those of the walk one page longer |

## Left out

- Rendering itself is left out. `drawHierarchy` is recorded as the rectangle it is asked to render; pixels, the image context's scale and opacity are not modelled.
- The background fill and stroke colours are left out, because they do not affect geometry or sequencing.
- The 0.3-second settle delay and the main-queue scheduling are left out. The walk is modelled as a sequential loop in the order its steps run. Concurrent use of the view during a capture is not modelled.
- In the model, image extraction always succeeds once a context exists. The asynchronous captures pass `Some(image)` to completion. The platform could in principle return nil there.
- On the synchronous capture's failure path the image context is begun but never ended. The model does not track context lifetime.
- The `contentHeight` parameter of the partial walker is unused by the source, and the model omits it.
- `takeSnapshotOfFullContent(for:)` is not part of this model. `TakeSnapshotOfVisibleContent` models only the rectangle it hands over.
- Geometry is over unbounded `real`: `CGFloat` and `Float` rounding are not modelled. The conversion of the floored quotient to `Int` is not modelled either.
- PagePlan.PageCount: requires a positive viewport height when the height to capture exceeds it, so the captures require a non-zero bounds height in that case (`Capture.Plannable`). With a zero bounds height the source divides by zero; the infinite quotient cannot be converted to `Int`, so the source traps there.
- The frame setter is modelled as giving the bounds the frame's size, which holds for a view without a transform. Transforms are not modelled.
- The composition hook is modelled by the value it returns. Whatever it draws into the context is not modelled.
- There is no cancellation path in the source, and none in the model.
