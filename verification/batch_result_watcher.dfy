/**
  The batch report page's poller and paginator (`BatchResultWatcher` in
  BatchResultPage.js), as pure transitions from a state to a new state plus
  the list of external calls the operation makes.

  JavaScript's `undefined` is `None`: the constructor never sets the current
  page, and the page count and the error flag are set by code outside the
  widget, so either may still be undefined when an operation runs.
*/
module BatchResultWatcher {
  import opened Optional
  import Decimal

  /** The widget's fields. `intervalActive` stands for the presence of the
      timer handle `_interval`. */
  datatype Watcher = Watcher(
    containerId: string,
    started: bool,
    intervalActive: bool,
    complete: bool,
    hasErrors: bool,
    currentPage: Option<nat>,
    pagesSoFar: Option<nat>)

  /** Calls into the host environment. */
  datatype Effect =
    | ScheduleRefresh(region: string, periodMs: nat)  // setInterval refreshing `region`
    | ClearInterval                     // clearInterval of the stored handle
    | RefreshRegion(region: string)     // one firing of the interval: webcat.refresh(region)
    | LoadPage(page: Option<nat>)       // _loadPage, with the current page it will see
    | SetIndicator(text: string)        // innerHTML of the "pageIndicator" element
    | RefreshSaveDialog                 // refresh of the "saveDialogContainer" widget
    | RefreshErrorBlock                 // refresh of the "errorBlock" widget

  datatype Step = Step(watcher: Watcher, effects: seq<Effect>)

  /** Milliseconds between two refreshes of the page container. */
  const RefreshPeriod: nat := 5000

  const NoPagesText: string := "No pages available yet"

  /** The fields other than the pagination ones are equal. */
  predicate SameExceptPage(a: Watcher, b: Watcher) {
    a == b.(currentPage := a.currentPage)
  }

  /** The constructor: not started, not complete, everything else unset. */
  function Init(containerId: string): (w: Watcher)
    ensures !w.started && !w.intervalActive && !w.complete && !w.hasErrors
    ensures w.containerId == containerId
    ensures w.currentPage.None? && w.pagesSoFar.None?
  {
    Watcher(containerId, false, false, false, false, None, None)
  }

  /** Starts polling unless `start` has already been called once. */
  function Start(w: Watcher): (r: Step)
    ensures r.watcher.started
    ensures w.started ==> r == Step(w, [])
    ensures !w.started ==> r.watcher.intervalActive
                           && r.effects == [ScheduleRefresh(w.containerId, RefreshPeriod)]
    ensures r.watcher.(started := w.started, intervalActive := w.intervalActive) == w
  {
    if !w.started then
      Step(w.(intervalActive := true, started := true), [ScheduleRefresh(w.containerId, RefreshPeriod)])
    else
      Step(w, [])
  }

  /** The effective `stop` (the second of the two definitions): clears and
      forgets the timer handle, leaving `started` as it was. */
  function Stop(w: Watcher): (r: Step)
    ensures !r.watcher.intervalActive
    ensures r.watcher.started == w.started
    ensures r.watcher.(intervalActive := w.intervalActive) == w
    ensures ClearInterval in r.effects <==> w.intervalActive
    ensures forall e :: e in r.effects ==> e == ClearInterval
    ensures |r.effects| <= 1
  {
    Step(w.(intervalActive := false), if w.intervalActive then [ClearInterval] else [])
  }

  /** One firing of the timer: refreshes the container while a handle exists. */
  function Tick(w: Watcher): (effects: seq<Effect>)
    ensures |effects| <= 1
    ensures effects != [] <==> w.intervalActive
    ensures forall e :: e in effects ==> e == RefreshRegion(w.containerId)
  {
    if w.intervalActive then [RefreshRegion(w.containerId)] else []
  }

  /** The text of the page indicator. A page count that is unset or zero reads
      "No pages available yet"; otherwise the current page and the count are
      shown, the count marked as total or provisional. */
  function IndicatorText(w: Watcher): (r: string)
    ensures r == NoPagesText <==> w.pagesSoFar.None? || w.pagesSoFar == Some(0)
    ensures r != NoPagesText ==> "Page " <= r
  {
    if w.pagesSoFar.None? || w.pagesSoFar == Some(0) then
      NoPagesText
    else
      var r := "Page " + PageText(w.currentPage) + " (of " + Decimal.NatToString(w.pagesSoFar.value)
               + (if w.complete then " total)" else " so far)");
      assert r[..5] == "Page " && r[0] != NoPagesText[0];
      r
  }

  /** How JavaScript concatenation renders a page number that may be undefined. */
  function PageText(p: Option<nat>): string {
    match p
    case None => "undefined"
    case Some(n) => Decimal.NatToString(n)
  }

  /** `_updatePageIndicator`: sets the indicator text, then refreshes the save
      dialog if the report is complete and the error block if it has errors. */
  function UpdatePageIndicator(w: Watcher): (effects: seq<Effect>)
    ensures |effects| >= 1 && effects[0] == SetIndicator(IndicatorText(w))
    ensures forall i :: 1 <= i < |effects| ==> !effects[i].SetIndicator?
    ensures RefreshSaveDialog in effects <==> w.complete
    ensures RefreshErrorBlock in effects <==> w.hasErrors
    ensures |effects| == 1 + (if w.complete then 1 else 0) + (if w.hasErrors then 1 else 0)
    ensures forall e :: e in effects ==> e.SetIndicator? || e.RefreshSaveDialog? || e.RefreshErrorBlock?
  {
    [SetIndicator(IndicatorText(w))]
      + (if w.complete then [RefreshSaveDialog] else [])
      + (if w.hasErrors then [RefreshErrorBlock] else [])
  }

  /** The guard every navigation operation starts with. Only a count of
      exactly zero stops navigation: an unset count does not. */
  predicate NoPages(w: Watcher) {
    w.pagesSoFar == Some(0)
  }

  /** Shape shared by the four moves: nothing but the current page changes,
      and the move either does nothing (no pages) or loads the page it
      arrived at, exactly once. */
  predicate IsMove(w: Watcher, r: Step) {
    && SameExceptPage(r.watcher, w)
    && (NoPages(w) ==> r == Step(w, []))
    && (!NoPages(w) ==> r.effects == [LoadPage(r.watcher.currentPage)])
  }

  function GoToFirstPage(w: Watcher): (r: Step)
    ensures IsMove(w, r)
    ensures !NoPages(w) ==> r.watcher.currentPage == Some(1)
  {
    if NoPages(w) then Step(w, [])
    else
      var w' := w.(currentPage := Some(1));
      Step(w', [LoadPage(w'.currentPage)])
  }

  /** Steps back one page, staying put on page 1 or when the page is unset. */
  function GoToPreviousPage(w: Watcher): (r: Step)
    ensures IsMove(w, r)
    ensures r.watcher.currentPage != w.currentPage
            <==> !NoPages(w) && w.currentPage.Some? && w.currentPage.value > 1
    ensures r.watcher.currentPage != w.currentPage
            ==> r.watcher.currentPage.Some? && r.watcher.currentPage.value + 1 == w.currentPage.value
  {
    if NoPages(w) then Step(w, [])
    else
      var w' := if w.currentPage.Some? && w.currentPage.value > 1
                then w.(currentPage := Some(w.currentPage.value - 1)) else w;
      Step(w', [LoadPage(w'.currentPage)])
  }

  /** Steps forward one page, staying put on the last page seen so far or when
      either the page or the count is unset (a comparison with undefined is false). */
  function GoToNextPage(w: Watcher): (r: Step)
    ensures IsMove(w, r)
    ensures r.watcher.currentPage != w.currentPage
            <==> && !NoPages(w) && w.currentPage.Some? && w.pagesSoFar.Some?
                 && w.currentPage.value < w.pagesSoFar.value
    ensures r.watcher.currentPage != w.currentPage
            ==> r.watcher.currentPage.Some? && r.watcher.currentPage.value == w.currentPage.value + 1
  {
    if NoPages(w) then Step(w, [])
    else
      var w' := if w.currentPage.Some? && w.pagesSoFar.Some? && w.currentPage.value < w.pagesSoFar.value
                then w.(currentPage := Some(w.currentPage.value + 1)) else w;
      Step(w', [LoadPage(w'.currentPage)])
  }

  /** Jumps to the last page seen so far (which is undefined when the count is). */
  function GoToLastPage(w: Watcher): (r: Step)
    ensures IsMove(w, r)
    ensures !NoPages(w) ==> r.watcher.currentPage == w.pagesSoFar
  {
    if NoPages(w) then Step(w, [])
    else
      var w' := w.(currentPage := w.pagesSoFar);
      Step(w', [LoadPage(w'.currentPage)])
  }

  // ----------------------------------------------------------------------
  // Properties of the lifecycle

  /** A second `start` changes nothing and schedules nothing. */
  lemma StartIsIdempotent(w: Watcher)
    ensures Start(Start(w).watcher) == Step(Start(w).watcher, [])
    ensures |Start(w).effects + Start(Start(w).watcher).effects| <= 1
  {
  }

  /** `stop` never resets `started`, so once stopped the widget can never poll
      again: a later `start` schedules nothing and the timer no longer fires. */
  lemma StartAfterStopDoesNotPoll(w: Watcher)
    ensures var stopped := Stop(Start(w).watcher).watcher;
            && Tick(stopped) == []
            && Start(stopped) == Step(stopped, [])
            && Tick(Start(stopped).watcher) == []
  {
  }

  /** From a fresh widget: start, stop and start again leaves exactly one
      refresh scheduled and one cleared, and no timer firing afterwards. */
  lemma LifecycleFromInit(id: string)
    ensures var s1 := Start(Init(id));
            var s2 := Stop(s1.watcher);
            var s3 := Start(s2.watcher);
            && s1.effects + s2.effects + s3.effects == [ScheduleRefresh(id, 5000), ClearInterval]
            && Tick(s3.watcher) == []
  {
  }

  // ----------------------------------------------------------------------
  // Properties of navigation

  /** With a page count of zero no move changes the page or loads anything. */
  lemma ZeroPagesFreezesNavigation(w: Watcher)
    requires w.pagesSoFar == Some(0)
    ensures GoToFirstPage(w) == Step(w, [])
    ensures GoToPreviousPage(w) == Step(w, [])
    ensures GoToNextPage(w) == Step(w, [])
    ensures GoToLastPage(w) == Step(w, [])
  {
  }

  /** An unset page count is not caught by the zero guard: every move still
      loads a page. */
  lemma UnsetPagesStillNavigates(w: Watcher)
    requires w.pagesSoFar.None?
    ensures GoToFirstPage(w).effects == [LoadPage(Some(1))]
    ensures GoToPreviousPage(w).effects == [LoadPage(GoToPreviousPage(w).watcher.currentPage)]
    ensures GoToNextPage(w) == Step(w, [LoadPage(w.currentPage)])
    ensures GoToLastPage(w).watcher.currentPage.None?
  {
  }

  /** First and last jump to the ends of the pages seen so far, loading once. */
  lemma FirstAndLastReachTheEnds(w: Watcher, p: nat)
    requires w.pagesSoFar == Some(p) && p > 0
    ensures GoToFirstPage(w).watcher.currentPage == Some(1)
    ensures GoToFirstPage(w).effects == [LoadPage(Some(1))]
    ensures GoToLastPage(w).watcher.currentPage == Some(p)
    ensures GoToLastPage(w).effects == [LoadPage(Some(p))]
  {
  }

  /** Previous and next move by exactly one page inside the range and stay
      put at its ends, still loading the page once. */
  lemma PreviousAndNextDoNotWrap(w: Watcher, c: nat, p: nat)
    requires w.pagesSoFar == Some(p) && p > 0 && w.currentPage == Some(c)
    ensures GoToPreviousPage(w).watcher.currentPage == Some(if c > 1 then c - 1 else c)
    ensures GoToNextPage(w).watcher.currentPage == Some(if c < p then c + 1 else c)
    ensures c == 1 ==> GoToPreviousPage(w) == Step(w, [LoadPage(Some(1))])
    ensures c == p ==> GoToNextPage(w) == Step(w, [LoadPage(Some(p))])
  {
  }

  /** The current page lies within the pages seen so far. */
  predicate PageInRange(w: Watcher) {
    && w.pagesSoFar.Some? && w.pagesSoFar.value > 0
    && w.currentPage.Some? && 1 <= w.currentPage.value <= w.pagesSoFar.value
  }

  /** Every move keeps the current page within the pages seen so far. */
  lemma NavigationKeepsPageInRange(w: Watcher)
    requires PageInRange(w)
    ensures PageInRange(GoToFirstPage(w).watcher)
    ensures PageInRange(GoToPreviousPage(w).watcher)
    ensures PageInRange(GoToNextPage(w).watcher)
    ensures PageInRange(GoToLastPage(w).watcher)
  {
  }

  // ----------------------------------------------------------------------
  // Properties of the indicator

  /** With no page yet, or a count of zero, the indicator says so. */
  lemma IndicatorNoPages(w: Watcher)
    ensures IndicatorText(w.(pagesSoFar := Some(0))) == "No pages available yet"
    ensures IndicatorText(w.(pagesSoFar := None)) == "No pages available yet"
  {
  }

  /** A provisional count reads "so far". */
  lemma IndicatorSoFar(w: Watcher)
    ensures IndicatorText(w.(pagesSoFar := Some(3), currentPage := Some(2), complete := false))
            == "Page 2 (of 3 so far)"
  {
    assert Decimal.NatToString(2) == "2";
    assert Decimal.NatToString(3) == "3";
    IndicatorShowing(w.(pagesSoFar := Some(3), currentPage := Some(2), complete := false), "2", "3");
  }

  /** A final count reads "total". */
  lemma IndicatorTotal(w: Watcher)
    ensures IndicatorText(w.(pagesSoFar := Some(3), currentPage := Some(3), complete := true))
            == "Page 3 (of 3 total)"
  {
    assert Decimal.NatToString(3) == "3";
    IndicatorShowing(w.(pagesSoFar := Some(3), currentPage := Some(3), complete := true), "3", "3");
  }

  /** An unset current page is rendered as "undefined", and a two-digit
      count digit by digit. */
  lemma IndicatorUndefinedPage(w: Watcher)
    ensures IndicatorText(w.(pagesSoFar := Some(12), currentPage := None, complete := true))
            == "Page undefined (of 12 total)"
  {
    assert Decimal.NatToString(1) == "1";
    assert Decimal.NatToString(12) == Decimal.NatToString(1) + [Decimal.DigitChar(2)];
    assert Decimal.NatToString(12) == "12";
    IndicatorShowing(w.(pagesSoFar := Some(12), currentPage := None, complete := true), "undefined", "12");
  }

  /** Assembles the indicator text from the rendered page and count. */
  lemma IndicatorShowing(w: Watcher, page: string, count: string)
    requires w.pagesSoFar.Some? && w.pagesSoFar.value > 0
    requires PageText(w.currentPage) == page
    requires Decimal.NatToString(w.pagesSoFar.value) == count
    ensures IndicatorText(w) == "Page " + page + (" (of " + count
                                + (if w.complete then " total)" else " so far)"))
  {
  }

  /** The two dependent widgets are refreshed according to their own flags,
      whether or not any page exists. */
  lemma RefreshesIgnorePageCount(w: Watcher, p: Option<nat>)
    ensures var a := UpdatePageIndicator(w);
            var b := UpdatePageIndicator(w.(pagesSoFar := p));
            a[1..] == b[1..]
  {
  }
}
