# Flip-book page bookkeeping

A Dafny model of the discrete page bookkeeping behind the 3D photo flip-book
in src/components/Book.jsx and src/components/UI.jsx. It covers the
following parts:

- **Sequencer** (`sequencer.dfy`). The requested page `page` is trailed by
  the settled page `delayedPage`. `goToPage` moves the settled page one page
  at a time toward the requested one. Each step schedules one timer: 50 ms
  while more than two pages remain, 150 ms otherwise. A change of the
  requested page clears the outstanding timer and takes a first step at
  once. The state is `BookState(page, delayed, pending)`. `pending` is the
  delay of the one outstanding timer, if any. The events are `TimerFires`
  and `RequestPage(p)`.
- **Per-page facts** (`pages.dfy`). These are the `opened` and
  `bookClosed` flags each page derives from the settled page, the page a
  click requests, and which segment receives which rotation target when the
  book is closed. This file also builds the page's chain of bones.
- **Page catalogue** (`catalogue.dfy`). Pictures are paired into the
  front/back faces of pages, behind a cover page and before a back-cover
  page.
- **Navigation bar** (`navigation.dfy`). There is one button per page and a
  "Back Cover" button. The highlight rule marks one of them.
- **The book as a whole** (`book.dfy`). This ties the parts together: the
  range of the requests the interface can make, the effect of a click once
  the sequencer settles, and a few concrete jumps.

A timer is not a clock here. A scheduled timer is the delay it was
scheduled with, and its firing is an event. At most one timer is
outstanding, because `pending` is an `Option`.

The code has no clamping of the requested page; `Retarget` accepts any
integer, and `Book.StaysInRange` shows that the range comes from the
callers: every button and every click requests a page in `[0, P]`, so the
sequencer never leaves that range.

A click on an opened page `n` requests `n`. A click on a closed page `n`
requests `n + 1`. Once the sequencer settles, the clicked page has flipped.
Another page's flag is unchanged only if that page does not lie between the
old settled page and the new one. For example, clicking a deep opened page
closes every page above it too. So "only the clicked page changes" holds
for the top page of either stack (`BookPage.ClickTopPageFlipsOnlyIt`).
`BookPage.ClickFlips` states the general case.

With an odd number of pictures, the last picture is read twice: once as
the back of the page before the back-cover page and once as the front of
the back-cover page (`Catalogue.ReadingOrder`). The album's ten pictures are an even
count, so the pictures are each read once.

## Model

| member | source | states |
|---|---|---|
| `Sequencer.Step` | src/components/Book.jsx:425-449 | When the settled page equals the requested page, the step leaves it unchanged and schedules no timer. Otherwise it moves one page toward the target without passing it, closing the gap by exactly one. It then schedules one timer, 50 ms if the gap before the step exceeded 2 and 150 ms otherwise. |
| `Sequencer.Init` | src/components/Book.jsx:415-417 | The settled page starts equal to the requested page. The mount-time step schedules nothing, and the state satisfies the sequencer invariant. |
| `Sequencer.Fire` | src/components/Book.jsx:432-437 | A timer firing leaves the requested page alone and schedules the timer its step calls for: the 50 or 150 ms delay for the gap before the step, or none once the pages agree. With the gap open, it closes the gap by one without overshooting. With the gap closed, it drains the timer. Without a timer it changes nothing. It preserves the invariant. |
| `Sequencer.Retarget` | src/components/Book.jsx:452-458 | An unchanged request does nothing. A new request replaces the pending timer with the one its first step schedules, and it takes that step at once from the current settled page. The result lies between the old settled page and the new target, and the invariant holds. |
| `Sequencer.Apply` | src/components/Book.jsx:421-458 | Any single event, a timer firing or a request, preserves the invariant. The invariant is: an idle sequencer has settled, and a pending timer's delay matches the remaining gap (50 ms with at least 2 pages left, 150 ms with at most 1). |
| `Sequencer.ApplyAll` | src/components/Book.jsx:421-458 | Every state reached by any sequence of events from a valid state satisfies the invariant. |
| `Sequencer.Run` | src/components/Book.jsx:432-435 | Any number of timer firings leaves the requested page alone, keeps the invariant, and leaves the settled page between where it started and the requested page: it never overshoots. |
| `Sequencer.RunPosition` | src/components/Book.jsx:425-452 | After k firings (k up to the gap), the settled page has moved exactly k pages toward the target, and the gap has shrunk by k. The (k+1)-th step schedules 50 ms while more than two pages remain, 150 ms after that. |
| `Sequencer.Converges` | src/components/Book.jsx:425-452 | With the target fixed, the settled page reaches it after exactly gap firings and not before. One more firing leaves the sequencer idle. |
| `Sequencer.RetargetNeverOvershoots` | src/components/Book.jsx:421-458 | After a change of target, the settled page stays between where it stood and the new target, however many timers fire. |
| `BookPage.OpenedFlags` | src/components/Book.jsx:470 | Page i is rendered opened exactly when the settled page is beyond it. For a settled page d in [0, P] the flags are d trues followed by P - d falses, so exactly d pages are opened. |
| `BookPage.BookClosed` | src/components/Book.jsx:471 | With the settled page in [0, P], the book counts as closed exactly when all pages are closed or all are opened. |
| `BookPage.ClickRequest` | src/components/Book.jsx:395 | A click on page n requests n or n + 1, so a page in [0, P] for 0 <= n < P, and it is the one of the two at which page n's opened flag is the opposite of its current one. |
| `BookPage.ClickFlips` | src/components/Book.jsx:392-397 | Once the request is settled, the clicked page's opened flag is flipped. Another page's flag changes exactly when that page lies between the old and the new settled page. |
| `BookPage.ClickTopPageFlipsOnlyIt` | src/components/Book.jsx:392-397 | Clicking the top page of either stack flips that page and leaves every other page's flag unchanged. |
| `BookPage.SegmentTarget` | src/components/Book.jsx:327-337 | With the book closed, segment 0 targets the page's target rotation with no fold, and every other segment targets (0, 0), whatever the curve computed. With the book open, the curve's turn and its fold-times-intensity stand. |
| `BookPage.SegmentTargets` | src/components/Book.jsx:301-337 | One target per bone. With the book closed, bone 0 targets the page's target rotation with no fold and every other bone targets (0, 0); with it open, each bone keeps its curve's turn and its fold angle times intensity. |
| `BookPage.ClosedBookIsRigid` | src/components/Book.jsx:327-363 | In a closed book the segment targets do not depend on the curve values at all. |
| `BookPage.BuildBones` | src/components/Book.jsx:177-193 | The page has segments + 1 bones. Bone 0 is a root at the spine, and each other bone is a child of its predecessor, one segment width out. The book builds every page with `PageSegments` = 30 segments. |
| `BookPage.ChainPosition` | src/components/Book.jsx:177-193 | In such a chain every parent precedes its child. Bone i is i links below the root and i segment widths from the spine. |
| `Catalogue.MiddlePages` | src/components/UI.jsx:37-42 | The pairing loop's modulo never wraps. Middle page k holds pictures i + 2k and i + 2k + 1, both in range, and the loop makes MiddleCount pages. |
| `Catalogue.MiddleCountFormula` | src/components/UI.jsx:37 | Started at index 1, the pairing loop runs floor((len - 1) / 2) times. |
| `Catalogue.BuildPages` | src/components/UI.jsx:27-48 | The pages lay out the pictures as the album does. Page 0 is the cover with the first picture behind it. Middle page q shows pictures 2q - 1 and 2q. The last page is the last picture in front of the back cover. |
| `Catalogue.PageCount` | src/components/UI.jsx:27-48 | The catalogue has floor((len - 1) / 2) + 2 pages, or 2 when there are no pictures. |
| `Catalogue.LayoutReadingOrder` | src/components/UI.jsx:27-48 | For any such layout with a non-zero even picture count, reading front 0, back 0, front 1, ... gives the cover, every picture once and in order, and the back cover. With an odd count, the last picture appears once more before the back cover. With no pictures, the cover and back cover are read with both inner faces missing. |
| `Catalogue.ReadingOrder` | src/components/UI.jsx:27-48 | The catalogue built from any picture list, the empty one included, reads in that order. |
| `Catalogue.AlbumCatalogue` | src/components/UI.jsx:9-48 | The album's ten pictures make six pages, read as cover, pictures 1 to 10 and back cover. |
| `Navigation.Buttons` | src/components/UI.jsx:84-112 | There is one button per page and a final "Back Cover" button, P + 1 in all. Button q requests page q, so every request lies in [0, P]. |
| `Navigation.ExactlyOneHighlighted` | src/components/UI.jsx:88-106 | A button is highlighted exactly when it requests the current page. For a page in [0, P] exactly one button is highlighted; for any other page, none is. |
| `Book.AlbumPageCount` | src/components/UI.jsx:27-48 | The album has 6 pages. |
| `Book.UserRequestsRequestable` | src/components/UI.jsx:94-109 | Every navigation button and every click on a page (the request of src/components/Book.jsx:395) requests a page in [0, P]. |
| `Book.StaysInRange` | src/components/Book.jsx:421-458 | Fed only timer firings and requests in [0, P], the sequencer keeps both pages in [0, P] and keeps its invariant. |
| `Book.ClickSettles` | src/components/Book.jsx:392-397 | After a click on page n and the firings the gap calls for, the settled page equals the click's request. Page n's flag is flipped, and exactly that many pages are opened. |
| `Book.OpenWholeBook` | src/components/Book.jsx:425-471 | From a closed book, requesting the back cover steps the settled page through 1, 2, ..., P and opens every page. A timer is pending after each of the first P steps, and after the P-th firing the sequencer is idle. The book then counts as closed. |
| `Book.JumpTenPages` | src/components/Book.jsx:437-446 | A jump from the cover to page 10 passes through pages 1 to 10 with eight 50 ms timers, then two 150 ms ones, then goes idle. |
| `Book.RetargetMidJump` | src/components/Book.jsx:455-458 | Requesting page 3 two steps into a jump to 10 drops the timer toward 10 and steps from page 2 to 3 with a 150 ms timer, then goes idle. |

## Left out

- The bend numerics are left out: the sine and cosine curve terms, the turning progress computed from the wall clock, and the fold intensity (src/components/Book.jsx:283-324, 351-354). They are floating-point trigonometry over real time, so the model treats them as opaque real inputs (`CurveTerms`).
- The target rotation (src/components/Book.jsx:288-294) is an opaque real. It is -90 degrees for an opened page and +90 degrees for a closed one. When the book is not closed, `number × 0.8` degrees is added. The result is in radians.
- `easing.dampAngle` (src/components/Book.jsx:341-363) is a call into an external animation library. The model stops at the targets handed to it.
- The hover glow (src/components/Book.jsx:264-273, 382-390, 396) is float smoothing of material intensity.
- Skin index and weight generation, geometry, materials, texture preloading and loading, and the depth offset `position-z` (src/components/Book.jsx:63-160, 198-252, 405) are rendering plumbing.
- `setTimeout` and `clearTimeout` are not modelled as such. A timer is its delay, and its firing is the `TimerFires` event.
- React is taken to run each state updater once, at once. Under the development-only strict mode (src/main.jsx) the updater in `goToPage` runs twice. That schedules a second timer, and only the last one is kept for clearing. That behaviour is not modelled.
- A request followed by its cleanup and the first step is treated as one atomic event. A stale timer firing between the render and the cleanup is not modelled.
- Audio playback and all markup and styling in src/components/UI.jsx (lines 56-61 and 63-181 apart from the button targets and highlight rule) are left out. Button captions are kept as labels, not formatted strings.
- src/components/Experience.jsx, src/App.jsx, src/main.jsx and tailwind.config.js are scene setup, React bootstrap and styling, with no page logic.
