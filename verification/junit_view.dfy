/**
  The JUnit report viewer's two entry points, `junitViewToggleSuite` and
  `junitViewSetSelectedTrace`, as transitions over an abstract page.

  The page is a map from element id to the three properties the viewer
  touches: the element's `style.display`, its `className`, and the
  `className` of its parent node. The module-level variable
  `junitViewLastSelectedTest` is `lastSelected`, and `scrollTop` is the
  scroll position of the first element of class `junit-tests`, the scroll
  container. Looking up a missing id yields null, and dereferencing it throws;
  a call that throws is `Threw`, carrying the page as it was when the
  exception left the function (earlier updates stay).
*/
module JUnitView {
  import opened Optional
  import opened ClassNames
  import opened OffsetScroll

  datatype Node = Node(display: string, className: string, parentClass: string)

  datatype View = View(nodes: map<string, Node>, lastSelected: Option<string>, scrollTop: int)

  datatype Outcome = Done(view: View) | Threw(view: View, missing: string)

  const Selected: string := "junit-selected"
  const Expanded: string := "junit-suite-expanded"
  const Collapsed: string := "junit-suite-collapsed"

  lemma SelectedIsPlain()
    ensures IsPlainToken(Selected)
  {
  }

  /** `removeClass(..., 'junit-selected')` on a class string. */
  function RemoveHighlight(className: string): (r: string)
    ensures |r| <= |className|
  {
    SelectedIsPlain();
    RemoveClass(className, Selected)
  }

  function SetDisplay(v: View, k: string, display: string): (r: View)
    requires k in v.nodes
  {
    v.(nodes := v.nodes[k := v.nodes[k].(display := display)])
  }

  function SetClassName(v: View, k: string, className: string): (r: View)
    requires k in v.nodes
  {
    v.(nodes := v.nodes[k := v.nodes[k].(className := className)])
  }

  function SetParentClass(v: View, k: string, className: string): (r: View)
    requires k in v.nodes
  {
    v.(nodes := v.nodes[k := v.nodes[k].(parentClass := className)])
  }

  function TestsId(id: string): string { id + "_tests" }
  function TogglerId(id: string): string { id + "_toggler" }

  /** The toggler's class agrees with the suite's visibility. */
  predicate TogglerAgrees(v: View, id: string)
    requires TestsId(id) in v.nodes && TogglerId(id) in v.nodes
  {
    v.nodes[TogglerId(id)].className == Expanded <==> v.nodes[TestsId(id)].display == "block"
  }

  /** Only the listed elements may differ, and only the page's elements exist. */
  predicate SameOutside(v: View, w: View, changed: set<string>) {
    && w.nodes.Keys == v.nodes.Keys
    && forall k :: k in v.nodes && k !in changed ==> w.nodes[k] == v.nodes[k]
  }

  /** `junitViewToggleSuite`: a hidden list of tests is shown and its toggler
      marked expanded; a list in any other display state is hidden and its
      toggler marked collapsed. */
  function ToggleSuite(v: View, id: string): (r: Outcome)
    ensures r.Done? <==> TestsId(id) in v.nodes && TogglerId(id) in v.nodes
    ensures r.Threw? ==> r.missing in {TestsId(id), TogglerId(id)}
    ensures TestsId(id) !in v.nodes ==> r.view == v
    ensures SameOutside(v, r.view, {TestsId(id), TogglerId(id)})
    ensures r.view.lastSelected == v.lastSelected && r.view.scrollTop == v.scrollTop
    ensures TestsId(id) in v.nodes ==> r.view.nodes[TestsId(id)].display in {"block", "none"}
    ensures TestsId(id) in v.nodes ==> (r.view.nodes[TestsId(id)].display == "block"
                                        <==> v.nodes[TestsId(id)].display == "none")
    ensures r.Done? ==> TogglerAgrees(r.view, id)
    ensures r.Done? ==> r.view.nodes[TogglerId(id)].className in {Expanded, Collapsed}
    ensures TestsId(id) in v.nodes ==>
              r.view.nodes[TestsId(id)] == v.nodes[TestsId(id)].(display := r.view.nodes[TestsId(id)].display)
    ensures r.Done? ==>
              r.view.nodes[TogglerId(id)]
                == v.nodes[TogglerId(id)].(className := r.view.nodes[TogglerId(id)].className)
  {
    var tests := TestsId(id);
    var toggler := TogglerId(id);
    assert tests != toggler by { assert |tests| != |toggler|; }
    if tests !in v.nodes then Threw(v, tests)
    else if v.nodes[tests].display == "none" then
      var shown := SetDisplay(v, tests, "block");
      if toggler !in shown.nodes then Threw(shown, toggler)
      else Done(SetClassName(shown, toggler, Expanded))
    else
      var hidden := SetDisplay(v, tests, "none");
      if toggler !in hidden.nodes then Threw(hidden, toggler)
      else Done(SetClassName(hidden, toggler, Collapsed))
  }

  /** Toggling twice gives back a shown or hidden list, and gives back the
      whole page when the toggler agreed with the list beforehand. */
  lemma ToggleTwiceRestores(v: View, id: string)
    requires TestsId(id) in v.nodes && TogglerId(id) in v.nodes
    requires v.nodes[TestsId(id)].display in {"block", "none"}
    ensures ToggleSuite(ToggleSuite(v, id).view, id).Done?
    ensures ToggleSuite(ToggleSuite(v, id).view, id).view.nodes[TestsId(id)]
            .display == v.nodes[TestsId(id)].display
    ensures v.nodes[TogglerId(id)].className in {Expanded, Collapsed} && TogglerAgrees(v, id)
            ==> ToggleSuite(ToggleSuite(v, id).view, id).view == v
  {
    var once := ToggleSuite(v, id).view;
    var twice := ToggleSuite(once, id).view;
    if v.nodes[TogglerId(id)].className in {Expanded, Collapsed} && TogglerAgrees(v, id) {
      assert twice.nodes == v.nodes;
    }
  }

  // ----------------------------------------------------------------------
  // Selecting a trace

  /** Whether JavaScript treats the stored selection as true: null and the
      empty string are false. */
  predicate Truthy(last: Option<string>) {
    last.Some? && last.value != ""
  }

  /** The stored selection as string concatenation renders it. */
  function LastName(last: Option<string>): string {
    match last
    case None => "null"
    case Some(s) => s
  }

  function BlockId(name: string): string { name + "_block" }

  /** First step of a selection: the previous selection's parent loses the highlight. */
  function Deselect(v: View): (r: Outcome)
    ensures r.view.lastSelected == v.lastSelected && r.view.scrollTop == v.scrollTop
    ensures r.Done? <==> !Truthy(v.lastSelected) || v.lastSelected.value in v.nodes
    ensures SameOutside(v, r.view, if Truthy(v.lastSelected) then {v.lastSelected.value} else {})
    ensures forall k :: k in v.nodes ==>
            r.view.nodes[k] == v.nodes[k].(parentClass := r.view.nodes[k].parentClass)
    ensures r.Done? && Truthy(v.lastSelected) ==>
            r.view.nodes[v.lastSelected.value].parentClass
              == RemoveHighlight(v.nodes[v.lastSelected.value].parentClass)
  {
    if Truthy(v.lastSelected) then
      var previous := v.lastSelected.value;
      if previous !in v.nodes then Threw(v, previous)
      else
        Done(SetParentClass(v, previous, RemoveHighlight(v.nodes[previous].parentClass)))
    else Done(v)
  }

  /** Second step: the new selection's parent gains the highlight. */
  function Highlight(v: View, id: string): (r: Outcome)
    ensures r.view.lastSelected == v.lastSelected && r.view.scrollTop == v.scrollTop
    ensures r.Done? <==> id in v.nodes
    ensures SameOutside(v, r.view, {id})
    ensures r.Done? ==>
              r.view.nodes[id] == v.nodes[id].(parentClass := AddClass(v.nodes[id].parentClass, Selected))
  {
    if id !in v.nodes then Threw(v, id)
    else Done(SetParentClass(v, id, AddClass(v.nodes[id].parentClass, Selected)))
  }

  /** Third step: hide the old detail block, then show the new one, each
      only if it exists. */
  function SwapBlocks(v: View, oldBlock: string, newBlock: string): (r: View)
    ensures r.lastSelected == v.lastSelected && r.scrollTop == v.scrollTop
    ensures SameOutside(v, r, {oldBlock, newBlock})
    ensures forall k :: k in v.nodes ==> r.nodes[k] == v.nodes[k].(display := r.nodes[k].display)
    ensures newBlock in v.nodes ==> r.nodes[newBlock].display == "block"
    ensures oldBlock in v.nodes && oldBlock != newBlock ==> r.nodes[oldBlock].display == "none"
  {
    var hidden := if oldBlock in v.nodes then SetDisplay(v, oldBlock, "none") else v;
    if newBlock in hidden.nodes then SetDisplay(hidden, newBlock, "block") else hidden
  }

  /** Last step: scroll to the selection if asked and its block exists,
      then record the selection. */
  function ScrollAndRecord(v: View, id: string, scroll: bool, chain: seq<Hop>): (r: View)
    ensures r.nodes == v.nodes && r.lastSelected == Some(id)
    ensures r.scrollTop == if scroll && BlockId(id) in v.nodes then ScrollResult(chain, v.scrollTop)
                           else v.scrollTop
  {
    var scrolled := if scroll && BlockId(id) in v.nodes
                    then v.(scrollTop := ScrollResult(chain, v.scrollTop)) else v;
    scrolled.(lastSelected := Some(id))
  }

  /** What a throwing selection may have changed: at most the previous
      selection's parent class. */
  predicate KeptOnThrow(v: View, w: View) {
    && SameOutside(v, w, if Truthy(v.lastSelected) then {v.lastSelected.value} else {})
    && forall k :: k in v.nodes ==> w.nodes[k] == v.nodes[k].(parentClass := w.nodes[k].parentClass)
  }

  /** `junitViewSetSelectedTrace(id, scroll)`, with `chain` the `offsetParent`
      chain of the element `id`. */
  function SetSelectedTrace(v: View, id: string, scroll: bool, chain: seq<Hop>): (r: Outcome)
    ensures r.Done? <==> (!Truthy(v.lastSelected) || v.lastSelected.value in v.nodes) && id in v.nodes
    ensures r.Done? ==> r.view.lastSelected == Some(id)
    ensures r.Threw? ==> r.view.lastSelected == v.lastSelected && r.view.scrollTop == v.scrollTop
    ensures r.view.nodes.Keys == v.nodes.Keys
    ensures r.view.scrollTop != v.scrollTop ==> r.Done? && scroll && BlockId(id) in v.nodes
    ensures r.Done? && scroll && BlockId(id) in v.nodes ==>
            r.view.scrollTop == ScrollResult(chain, v.scrollTop)
    ensures r.Threw? ==> KeptOnThrow(v, r.view)
    ensures Truthy(v.lastSelected) && v.lastSelected.value !in v.nodes ==> r.view == v
    ensures r.Threw? && Truthy(v.lastSelected) && v.lastSelected.value in v.nodes ==>
            r.view.nodes[v.lastSelected.value].parentClass
              == RemoveHighlight(v.nodes[v.lastSelected.value].parentClass)
  {
    match Deselect(v)
    case Threw(v1, m) => Threw(v1, m)
    case Done(v1) =>
      match Highlight(v1, id)
      case Threw(v2, m) => Threw(v2, m)
      case Done(v2) =>
        var v3 := SwapBlocks(v2, BlockId(LastName(v.lastSelected)), BlockId(id));
        Done(ScrollAndRecord(v3, id, scroll, chain))
  }

  /** The highlight moves: the new selection's parent gains `junit-selected`,
      the previous one's parent has it removed, and no other parent changes. */
  lemma SelectionMovesHighlight(v: View, id: string, scroll: bool, chain: seq<Hop>)
    requires SetSelectedTrace(v, id, scroll, chain).Done?
    ensures var w := SetSelectedTrace(v, id, scroll, chain).view;
            && HasClassPrefix(w.nodes[id].parentClass, Selected)
            && (Truthy(v.lastSelected) && v.lastSelected.value != id ==>
                  w.nodes[v.lastSelected.value].parentClass
                    == RemoveHighlight(v.nodes[v.lastSelected.value].parentClass))
            && (forall k :: k in v.nodes && k != id && Some(k) != v.lastSelected ==>
                  w.nodes[k].parentClass == v.nodes[k].parentClass)
            && w.nodes[id].parentClass
                 == AddClass(if Truthy(v.lastSelected) && v.lastSelected.value == id
                             then RemoveHighlight(v.nodes[id].parentClass)
                             else v.nodes[id].parentClass, Selected)
  {
    var v1 := Deselect(v).view;
    var v2 := Highlight(v1, id).view;
    var v3 := SwapBlocks(v2, BlockId(LastName(v.lastSelected)), BlockId(id));
    var w := ScrollAndRecord(v3, id, scroll, chain);
    assert SetSelectedTrace(v, id, scroll, chain) == Done(w);
    assert forall k :: k in v.nodes ==> w.nodes[k].parentClass == v2.nodes[k].parentClass;
    assert v2.nodes[id].parentClass == AddClass(v1.nodes[id].parentClass, Selected);
    SelectedIsPlain();
    AddClassHasClass(v1.nodes[id].parentClass, Selected);
  }

  /** The old detail block is hidden before the new one is shown, so the new
      one ends up displayed even when it is the old one; no other element's
      display or class changes. */
  lemma SelectionSwapsBlocks(v: View, id: string, scroll: bool, chain: seq<Hop>)
    requires SetSelectedTrace(v, id, scroll, chain).Done?
    ensures var w := SetSelectedTrace(v, id, scroll, chain).view;
            var oldBlock := BlockId(LastName(v.lastSelected));
            && (BlockId(id) in v.nodes ==> w.nodes[BlockId(id)].display == "block")
            && (oldBlock in v.nodes && oldBlock != BlockId(id) ==> w.nodes[oldBlock].display == "none")
            && (forall k :: k in v.nodes && k != BlockId(id) && k != oldBlock ==>
                  w.nodes[k].display == v.nodes[k].display
                  && w.nodes[k].className == v.nodes[k].className)
  {
    var v2 := SelectionSteps(v, id, scroll, chain);
    assert forall k :: k in v.nodes ==>
             v2.nodes[k].display == v.nodes[k].display && v2.nodes[k].className == v.nodes[k].className;
  }

  /** A successful selection's page is the highlighted page with the blocks
      swapped; the highlighted page differs from the original only in parent
      classes. */
  lemma SelectionSteps(v: View, id: string, scroll: bool, chain: seq<Hop>) returns (v2: View)
    requires SetSelectedTrace(v, id, scroll, chain).Done?
    ensures v2.nodes.Keys == v.nodes.Keys
    ensures forall k :: k in v.nodes ==> v2.nodes[k] == v.nodes[k].(parentClass := v2.nodes[k].parentClass)
    ensures SetSelectedTrace(v, id, scroll, chain).view.nodes
            == SwapBlocks(v2, BlockId(LastName(v.lastSelected)), BlockId(id)).nodes
  {
    var v1 := Deselect(v).view;
    v2 := Highlight(v1, id).view;
  }

  // ----------------------------------------------------------------------
  // At most one highlighted selection

  /** A parent class string carrying the highlight that `removeClass` will
      take off cleanly: it is a clean string with " junit-selected" appended
      (or "junit-selected" alone). */
  predicate Marked(parentClass: string) {
    var base := RemoveHighlight(parentClass);
    CleanBase(base, Selected) && AddClass(base, Selected) == parentClass
  }

  /** The selection invariant: the recorded selection's parent is marked and
      every other parent is clean. No element has the empty id: looking it up
      yields null, so it can never be selected. */
  predicate SingleHighlight(v: View) {
    && "" !in v.nodes
    && forall k :: k in v.nodes ==>
         if v.lastSelected == Some(k) then Marked(v.nodes[k].parentClass)
         else CleanBase(v.nodes[k].parentClass, Selected)
  }

  lemma MarkClean(base: string)
    requires CleanBase(base, Selected)
    ensures Marked(AddClass(base, Selected))
  {
    SelectedIsPlain();
    AddThenRemove(base, Selected);
  }

  /** Under the invariant, an element's parent carries the highlight exactly
      when the element is the recorded selection. */
  lemma HighlightedIffSelected(v: View)
    requires SingleHighlight(v)
    ensures forall k :: k in v.nodes ==>
              (HasClassPrefix(v.nodes[k].parentClass, Selected) <==> v.lastSelected == Some(k))
  {
    SelectedIsPlain();
    forall k | k in v.nodes && v.lastSelected == Some(k)
      ensures HasClassPrefix(v.nodes[k].parentClass, Selected)
    {
      AddClassHasClass(RemoveHighlight(v.nodes[k].parentClass), Selected);
    }
  }

  /** Every successful selection keeps the invariant. */
  lemma SelectionKeepsSingleHighlight(v: View, id: string, scroll: bool, chain: seq<Hop>)
    requires SingleHighlight(v)
    requires SetSelectedTrace(v, id, scroll, chain).Done?
    ensures SingleHighlight(SetSelectedTrace(v, id, scroll, chain).view)
  {
    var w := SetSelectedTrace(v, id, scroll, chain).view;
    SelectionMovesHighlight(v, id, scroll, chain);
    forall k | k in w.nodes
      ensures if w.lastSelected == Some(k) then Marked(w.nodes[k].parentClass)
              else CleanBase(w.nodes[k].parentClass, Selected)
    {
      if k == id {
        var base := if v.lastSelected == Some(id) then RemoveHighlight(v.nodes[id].parentClass)
                    else v.nodes[id].parentClass;
        MarkClean(base);
      }
    }
  }

  /** Selecting `a` and then `b`: `b`'s parent carries the highlight, `a`'s no
      longer does, and `a`'s parent class is back to what it was. */
  lemma SelectTwice(v: View, a: string, b: string, chain: seq<Hop>)
    requires SingleHighlight(v)
    requires a != b
    requires a in v.nodes && b in v.nodes
    requires v.lastSelected.None? || v.lastSelected.value in v.nodes
    requires v.lastSelected != Some(a)
    ensures var w1 := SetSelectedTrace(v, a, true, chain);
            var w2 := SetSelectedTrace(w1.view, b, true, chain);
            && w1.Done? && w2.Done?
            && HasClassPrefix(w2.view.nodes[b].parentClass, Selected)
            && !HasClassPrefix(w2.view.nodes[a].parentClass, Selected)
            && w2.view.nodes[a].parentClass == v.nodes[a].parentClass
  {
    var w1 := SetSelectedTrace(v, a, true, chain);
    SelectionKeepsSingleHighlight(v, a, true, chain);
    var w2 := SetSelectedTrace(w1.view, b, true, chain);
    SelectionKeepsSingleHighlight(w1.view, b, true, chain);
    HighlightedIffSelected(w2.view);
    SelectionMovesHighlight(v, a, true, chain);
    SelectionMovesHighlight(w1.view, b, true, chain);
    SelectedIsPlain();
    AddThenRemove(v.nodes[a].parentClass, Selected);
  }

  /** With nothing selected before, the old block id is "null_block", so an
      element with that id is hidden by the first selection. */
  lemma FirstSelectionHidesNullBlock(v: View, id: string, scroll: bool, chain: seq<Hop>)
    requires v.lastSelected.None?
    requires "null_block" in v.nodes && id != "null"
    requires SetSelectedTrace(v, id, scroll, chain).Done?
    ensures SetSelectedTrace(v, id, scroll, chain).view.nodes["null_block"].display == "none"
  {
    SelectionSwapsBlocks(v, id, scroll, chain);
    assert BlockId(LastName(v.lastSelected)) == "null_block";
    assert BlockId(id)[..|id|] == id;
  }

  /** The pattern has no boundary after the class name: a class that merely
      begins with "junit-selected" is cut down to its tail. */
  lemma RemoveHighlightCutsLongerName()
    ensures RemoveHighlight("junit-selected-x") == "-x"
  {
    SelectedIsPlain();
    assert !OccursFrom("-x", Selected, false) by {
      assert !IsWhitespace("-x"[0]) && !IsWhitespace("-x"[1]);
    }
    RemoveCutsLongerName(Selected, "-x");
    assert Selected + "-x" == "junit-selected-x";
  }
}
