# Web-CAT report widgets: a Dafny model

This project models the two pieces of sequential logic in Web-CAT's browser code:

- **`BatchResultWatcher`**, the batch processor's report-page widget. It polls the page container on a
  5-second timer and pages through the report pages produced so far. Each operation is a pure function
  from the widget's fields to new fields plus the list of host calls it makes: schedule or clear the
  timer, refresh a region, load a page, set the page indicator, refresh the save dialog or the error block.
  The indicator text is a pure function of the state.
- **The JUnit report viewer's helpers.** These are `addClass` and `removeClass` on space-separated class strings.
  They also include the suite expand/collapse toggle, the single-selection highlight of a test trace, and the
  vertical scroll-into-view walk up the `offsetParent` chain. The page is abstracted as a map from element id to
  the element's display style, its class string and its parent's class string. The chain is a sequence of
  `(offsetTop, isContainer)` records.

Modules: `Optional` (undefined/null as `None`), `Decimal` (how a number is rendered into a string),
`BatchResultWatcher`, `PageIndicator` (a reader that inverts the indicator text), `ClassNames`,
`OffsetScroll` and `JUnitView`.

Modelling choices:

- **Unset page fields.** `pagesSoFar` and `currentPage` are `Option<nat>`, with `None` standing for JavaScript's `undefined`.
  The constructor never sets the current page. The page count and the error flag are set by code outside the widget.
- **The zero guard.** The navigation guard compares with `0`, so only a count of exactly zero stops navigation.
  An unset count does not stop it. A comparison with an undefined page or count is false, so previous and next stay put.
  The indicator reads "No pages available yet" for a count of zero as well as for an unset count.
  An undefined current page is rendered as `undefined` in the indicator.
- **`stop`.** The widget object defines `stop` twice. The second definition replaces the first, so only it is modelled.
  It clears and forgets the timer handle but never resets `started`, so the widget can never poll again.
  Clearing an absent handle does nothing in the host, so `Stop` lists `ClearInterval` only when a handle exists.
- **`removeClass`.** It is the global replacement of `(^|\s+)cls` by the empty string, written as the left-to-right scan
  the regular-expression engine performs. `cls` must be a plain token: non-empty, no white space, no regular-expression
  syntax characters. `\s` is the ECMAScript white-space and line-terminator set.
- **Null dereferences.** Dereferencing a missing element throws. The model returns `Threw` with the page as it was when
  the exception was raised: earlier updates stay and the selection is not recorded.

## Model

| member | source | states |
|---|---|---|
| BatchResultWatcher.Init | WEB-Cat/Docker/BatchProcessor/BatchProcessor.framework/WebServerResources/javascript/BatchResultPage.js:4-9 | a new widget is not started, has no timer, is not complete and has no page or count |
| BatchResultWatcher.Start | WEB-Cat/Docker/BatchProcessor/BatchProcessor.framework/WebServerResources/javascript/BatchResultPage.js:13-23 | only a call made while not started creates a timer (one refresh of the container every 5000 ms) and sets started; otherwise nothing changes and nothing is scheduled |
| BatchResultWatcher.Stop | WEB-Cat/Docker/BatchProcessor/BatchProcessor.framework/WebServerResources/javascript/BatchResultPage.js:67-71 | the timer handle is gone afterwards, started is left as it was, a clear is issued exactly when a handle existed and no other call is made, and no other field changes |
| BatchResultWatcher.Tick | WEB-Cat/Docker/BatchProcessor/BatchProcessor.framework/WebServerResources/javascript/BatchResultPage.js:17-19 | a timer firing refreshes the page container exactly when a timer handle exists |
| BatchResultWatcher.StartIsIdempotent | WEB-Cat/Docker/BatchProcessor/BatchProcessor.framework/WebServerResources/javascript/BatchResultPage.js:15-22 | a second start changes nothing and in total at most one refresh is ever scheduled |
| BatchResultWatcher.StartAfterStopDoesNotPoll | WEB-Cat/Docker/BatchProcessor/BatchProcessor.framework/WebServerResources/javascript/BatchResultPage.js:67-71 | after start then stop, the timer does not fire and a further start schedules nothing, because started is never reset |
| BatchResultWatcher.LifecycleFromInit | WEB-Cat/Docker/BatchProcessor/BatchProcessor.framework/WebServerResources/javascript/BatchResultPage.js:4-23 | start, stop, start on a fresh widget issues exactly one schedule and one clear, and polling stays off |
| BatchResultWatcher.GoToFirstPage | WEB-Cat/Docker/BatchProcessor/BatchProcessor.framework/WebServerResources/javascript/BatchResultPage.js:75-81 | only the current page may change; with a zero count nothing happens, otherwise the page becomes 1 and that page is loaded exactly once |
| BatchResultWatcher.GoToPreviousPage | WEB-Cat/Docker/BatchProcessor/BatchProcessor.framework/WebServerResources/javascript/BatchResultPage.js:85-93 | only the current page may change; with a zero count nothing happens, otherwise one load of the page arrived at; the page changes iff it is defined and above 1, and then drops by one |
| BatchResultWatcher.GoToNextPage | WEB-Cat/Docker/BatchProcessor/BatchProcessor.framework/WebServerResources/javascript/BatchResultPage.js:97-105 | only the current page may change; with a zero count nothing happens, otherwise one load of the page arrived at; the page changes iff page and count are defined and the page is below the count, and then rises by one |
| BatchResultWatcher.GoToLastPage | WEB-Cat/Docker/BatchProcessor/BatchProcessor.framework/WebServerResources/javascript/BatchResultPage.js:109-115 | only the current page may change; with a zero count nothing happens, otherwise the page becomes the count (undefined if the count is) and is loaded exactly once |
| BatchResultWatcher.ZeroPagesFreezesNavigation | WEB-Cat/Docker/BatchProcessor/BatchProcessor.framework/WebServerResources/javascript/BatchResultPage.js:75-115 | with a page count of zero all four moves leave the state unchanged and load nothing |
| BatchResultWatcher.UnsetPagesStillNavigates | WEB-Cat/Docker/BatchProcessor/BatchProcessor.framework/WebServerResources/javascript/BatchResultPage.js:77-114 | an unset count is not caught by the zero guard: every move still loads, and last makes the page undefined |
| BatchResultWatcher.FirstAndLastReachTheEnds | WEB-Cat/Docker/BatchProcessor/BatchProcessor.framework/WebServerResources/javascript/BatchResultPage.js:75-115 | with a positive count, first goes to page 1 and last to the count, each loading that page once |
| BatchResultWatcher.PreviousAndNextDoNotWrap | WEB-Cat/Docker/BatchProcessor/BatchProcessor.framework/WebServerResources/javascript/BatchResultPage.js:85-105 | previous decrements only above 1 and next increments only below the count; at the boundary the page stays and one load is still issued |
| BatchResultWatcher.NavigationKeepsPageInRange | WEB-Cat/Docker/BatchProcessor/BatchProcessor.framework/WebServerResources/javascript/BatchResultPage.js:75-115 | if the page lies in 1..count with a positive count, every move keeps it there |
| BatchResultWatcher.UpdatePageIndicator | WEB-Cat/Docker/BatchProcessor/BatchProcessor.framework/WebServerResources/javascript/BatchResultPage.js:37-63 | the indicator is set once, first; the save dialog is refreshed iff complete and the error block iff there are errors, each at most once; nothing else is called |
| BatchResultWatcher.RefreshesIgnorePageCount | WEB-Cat/Docker/BatchProcessor/BatchProcessor.framework/WebServerResources/javascript/BatchResultPage.js:53-62 | the two widget refreshes do not depend on the page count |
| BatchResultWatcher.IndicatorNoPages | WEB-Cat/Docker/BatchProcessor/BatchProcessor.framework/WebServerResources/javascript/BatchResultPage.js:39-41 | an unset count and a count of zero both read "No pages available yet" |
| BatchResultWatcher.IndicatorSoFar | WEB-Cat/Docker/BatchProcessor/BatchProcessor.framework/WebServerResources/javascript/BatchResultPage.js:43-50 | page 2 of a provisional count of 3 reads "Page 2 (of 3 so far)" |
| BatchResultWatcher.IndicatorTotal | WEB-Cat/Docker/BatchProcessor/BatchProcessor.framework/WebServerResources/javascript/BatchResultPage.js:43-50 | page 3 of a final count of 3 reads "Page 3 (of 3 total)" |
| BatchResultWatcher.IndicatorUndefinedPage | WEB-Cat/Docker/BatchProcessor/BatchProcessor.framework/WebServerResources/javascript/BatchResultPage.js:43-50 | an unset page with a final count of 12 reads "Page undefined (of 12 total)" |
| BatchResultWatcher.IndicatorText | WEB-Cat/Docker/BatchProcessor/BatchProcessor.framework/WebServerResources/javascript/BatchResultPage.js:39-50 | the text is "No pages available yet" exactly when the count is unset or zero, and otherwise begins with "Page "; its partner `PageIndicator.ReadIndicatorText` reads every rendered text back to the state it came from |
| PageIndicator.ReadIndicatorText | WEB-Cat/Docker/BatchProcessor/BatchProcessor.framework/WebServerResources/javascript/BatchResultPage.js:39-50 | reading the indicator text back yields "no pages" for an unset or zero count, otherwise the current page, the count and whether it is total |
| PageIndicator.IndicatorDistinguishesStates | WEB-Cat/Docker/BatchProcessor/BatchProcessor.framework/WebServerResources/javascript/BatchResultPage.js:45-50 | two states with pages that show the same indicator agree on page, count and completion |
| Decimal.NatToString | WEB-Cat/Docker/BatchProcessor/BatchProcessor.framework/WebServerResources/javascript/BatchResultPage.js:45-46 | a number is rendered as a non-empty string of digits with no leading zero |
| Decimal.ParseNatToString | WEB-Cat/Docker/BatchProcessor/BatchProcessor.framework/WebServerResources/javascript/BatchResultPage.js:45-46 | reading the rendered digits back gives the number |
| ClassNames.AddClass | WEB-Cat/Docker/JavaTddPlugin/JavaTddPlugin/public/junit.js:17-27 | an empty class string becomes exactly cls; any other keeps its text, gains one space, and ends with cls |
| ClassNames.AddClassHasClass | WEB-Cat/Docker/JavaTddPlugin/JavaTddPlugin/public/junit.js:17-27 | after addClass some class name in the string begins with cls |
| ClassNames.RemoveFrom | WEB-Cat/Docker/JavaTddPlugin/JavaTddPlugin/public/junit.js:30-31 | the left-to-right scan of the global replacement of `(^\|\s+)cls` never lengthens the string; its partners `RemoveFromUnchanged` and `RemoveFromShrinks` fix when it changes anything, and `AddThenRemove` what it removes |
| ClassNames.RemoveFromUnchanged | WEB-Cat/Docker/JavaTddPlugin/JavaTddPlugin/public/junit.js:28-32 | the scan copies a string in which cls never follows the start or white space |
| ClassNames.RemoveFromShrinks | WEB-Cat/Docker/JavaTddPlugin/JavaTddPlugin/public/junit.js:28-32 | the scan deletes something whenever cls follows the start or white space somewhere |
| ClassNames.RemoveClass | WEB-Cat/Docker/JavaTddPlugin/JavaTddPlugin/public/junit.js:28-32 | removeClass leaves the string unchanged exactly when no class name in it begins with cls, and otherwise makes it strictly shorter |
| ClassNames.AddThenRemove | WEB-Cat/Docker/JavaTddPlugin/JavaTddPlugin/public/junit.js:17-32 | for a string with no class beginning with cls and no trailing white space, addClass then removeClass gives the original back |
| ClassNames.RemoveCutsLongerName | WEB-Cat/Docker/JavaTddPlugin/JavaTddPlugin/public/junit.js:30-31 | a class name that only begins with cls loses that prefix and keeps its tail |
| OffsetScroll.ContainerOffset | WEB-Cat/Docker/JavaTddPlugin/JavaTddPlugin/public/junit.js:38-43 | the walk finds no offset exactly when no element of the chain is the container, and offset 0 when the target itself is the container; its partner `ContainerOffsetIsSum` gives the offset as the sum before the first container |
| OffsetScroll.ContainerOffsetIsSum | WEB-Cat/Docker/JavaTddPlugin/JavaTddPlugin/public/junit.js:33-49 | the walk reaches the container iff it lies on the chain; the offset is the sum of offsetTop from the target up to but excluding the first container, 0 when the target is the container |
| OffsetScroll.ScrollToElement | WEB-Cat/Docker/JavaTddPlugin/JavaTddPlugin/public/junit.js:33-49 | the accumulating loop ends with the container's scroll position as given by the fold over the chain |
| OffsetScroll.ScrollNeedsContainer | WEB-Cat/Docker/JavaTddPlugin/JavaTddPlugin/public/junit.js:45-48 | with no container on the chain the scroll position is unchanged; otherwise it becomes the offset sum before the first container |
| JUnitView.ToggleSuite | WEB-Cat/Docker/JavaTddPlugin/JavaTddPlugin/public/junit.js:56-71 | a hidden list is shown, any other display becomes hidden; afterwards the toggler is expanded iff the list is shown; it throws iff the list or toggler is missing; a missing list leaves the page untouched, and a missing toggler still leaves the list's display flipped; only the list's display and the toggler's class change |
| JUnitView.ToggleTwiceRestores | WEB-Cat/Docker/JavaTddPlugin/JavaTddPlugin/public/junit.js:56-71 | two toggles restore a shown or hidden list, and restore the whole page when the toggler agreed with it |
| JUnitView.Deselect | WEB-Cat/Docker/JavaTddPlugin/JavaTddPlugin/public/junit.js:82-86 | with a truthy previous selection, its parent's class has junit-selected removed (throwing if that element is gone); nothing else changes |
| JUnitView.Highlight | WEB-Cat/Docker/JavaTddPlugin/JavaTddPlugin/public/junit.js:87 | the new element's parent gains junit-selected, throwing if the element is missing |
| JUnitView.SwapBlocks | WEB-Cat/Docker/JavaTddPlugin/JavaTddPlugin/public/junit.js:89-97 | the new detail block is shown, the old one (if different) hidden, each only if present, and only displays change |
| JUnitView.ScrollAndRecord | WEB-Cat/Docker/JavaTddPlugin/JavaTddPlugin/public/junit.js:99-103 | the container scrolls only if asked and the new block exists, and the selection is recorded |
| JUnitView.SetSelectedTrace | WEB-Cat/Docker/JavaTddPlugin/JavaTddPlugin/public/junit.js:77-104 | succeeds iff the previous selection (if truthy) and the new element exist, then records the new id even without detail blocks; a throw leaves the selection and the scroll position as they were, leaves the page untouched when the previous element is gone, and otherwise changes only the previous parent's class, which has lost junit-selected (the new element was missing); scrolling happens only if asked and the new block exists |
| JUnitView.SelectionMovesHighlight | WEB-Cat/Docker/JavaTddPlugin/JavaTddPlugin/public/junit.js:82-87 | the new parent carries junit-selected, the previous parent has it removed, no other parent class changes |
| JUnitView.SelectionSwapsBlocks | WEB-Cat/Docker/JavaTddPlugin/JavaTddPlugin/public/junit.js:89-97 | the new block ends up shown even when re-selecting the same id; a different old block is hidden; no other display changes |
| JUnitView.HighlightedIffSelected | WEB-Cat/Docker/JavaTddPlugin/JavaTddPlugin/public/junit.js:82-87 | under the selection invariant an element's parent is highlighted exactly when it is the recorded selection |
| JUnitView.SelectionKeepsSingleHighlight | WEB-Cat/Docker/JavaTddPlugin/JavaTddPlugin/public/junit.js:77-104 | every successful selection preserves the invariant that only the recorded selection is highlighted (no element has the empty id) |
| JUnitView.SelectTwice | WEB-Cat/Docker/JavaTddPlugin/JavaTddPlugin/public/junit.js:77-104 | selecting a then b leaves b highlighted, a not highlighted, and a's parent class as it was |
| JUnitView.FirstSelectionHidesNullBlock | WEB-Cat/Docker/JavaTddPlugin/JavaTddPlugin/public/junit.js:79-91 | with no previous selection the old block id is "null_block", and such an element is hidden |
| JUnitView.RemoveHighlightCutsLongerName | WEB-Cat/Docker/JavaTddPlugin/JavaTddPlugin/public/junit.js:28-31 | removing junit-selected turns "junit-selected-x" into "-x" |

## Left out

- `cancel` (WEB-Cat/Docker/BatchProcessor/BatchProcessor.framework/WebServerResources/javascript/BatchResultPage.js:119-124): it only sets two button attributes and makes a fire-and-forget remote call.
- `_loadPage` and the report RPC are defined elsewhere. They appear only as the `LoadPage` effect.
- `webcat.refresh`, `dojo.byId`, `dijit.byId(...).refresh()` and `dojo.hitch` are host toolkit calls. They appear only as effects.
- Timer scheduling is left out: real time and overlapping firings. The timer is a flag, the 5000 ms period is recorded in the scheduling effect, and one firing is `Tick`.
- The first `stop` definition (WEB-Cat/Docker/BatchProcessor/BatchProcessor.framework/WebServerResources/javascript/BatchResultPage.js:27-33) is replaced by the second one in the object literal.
- `BatchResultWatcher.Start`: if the state is not started but a timer handle exists (unreachable from `Init`), the old handle is silently overwritten. Only the flag is modelled, so the leaked timer is not.
- The code that sets `_pagesSoFar`, `_isComplete` and `_hasErrors` lives outside the widget. The operations take any state instead.
- `ClassNames.RemoveClass`: only a plain-token `cls` is modelled. Class names with white space or regular-expression syntax would change the pattern. The only caller passes `junit-selected`.
- Parent nodes are recorded per element, so two ids sharing one parent node are not modelled.
- `getElementsByClassName` and real layout are left out. The scroll container and the offset chain are inputs.
- The horizontal offset sum in `scrollToElement` (WEB-Cat/Docker/JavaTddPlugin/JavaTddPlugin/public/junit.js:40) is never used.
- Element ids are arbitrary map keys. The selection invariant adds that no element has the empty id, because looking up the empty id yields null.
- Page numbers are unbounded naturals. JavaScript Numbers lose precision above 2^53 and render in exponent notation from 10^21, and neither is modelled.
- WEB-Cat/Docker/JavaTddPlugin/JavaTddPlugin/tests/EmptyReferenceTests.java is a test fixture whose only behaviour is a print.
