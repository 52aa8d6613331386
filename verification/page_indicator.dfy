/**
  A reader for the page indicator's text. Reading back what the watcher
  writes recovers the page, the count and the completion flag, which shows
  that the indicator never shows two different pagination states alike.
*/
module PageIndicator {
  import opened Optional
  import Decimal
  import opened BatchResultWatcher

  /** What an indicator text says about the pagination. */
  datatype Reading = NothingYet | Showing(current: Option<nat>, total: nat, complete: bool)

  /** The reading the watcher's state should produce. */
  function Expected(w: Watcher): Reading {
    if w.pagesSoFar.None? || w.pagesSoFar == Some(0) then NothingYet
    else Showing(w.currentPage, w.pagesSoFar.value, w.complete)
  }

  /** Length of the longest prefix without a space. */
  function SpanToSpace(s: string): (k: nat)
    ensures k <= |s|
    ensures forall i :: 0 <= i < k ==> s[i] != ' '
    ensures k < |s| ==> s[k] == ' '
  {
    if |s| == 0 || s[0] == ' ' then 0 else 1 + SpanToSpace(s[1..])
  }

  /** A page token: a numeral, or "undefined" for an unset page. */
  function ReadPage(token: string): Option<Option<nat>> {
    if token == "undefined" then Some(None)
    else if |token| > 0 && Decimal.AllDigits(token) then Some(Some(Decimal.ParseNat(token)))
    else None
  }

  /** The part after the page token: " (of N total)" or " (of N so far)". */
  function ReadCount(tail: string): Option<(nat, bool)> {
    if " (of " <= tail then
      var counted := tail[5..];
      var m := SpanToSpace(counted);
      var total := counted[..m];
      var suffix := counted[m..];
      if |total| > 0 && Decimal.AllDigits(total) then
        if suffix == " total)" then Some((Decimal.ParseNat(total), true))
        else if suffix == " so far)" then Some((Decimal.ParseNat(total), false))
        else None
      else None
    else None
  }

  function ReadIndicator(s: string): Option<Reading> {
    if s == NoPagesText then Some(NothingYet)
    else if "Page " <= s then
      var rest := s[5..];
      var k := SpanToSpace(rest);
      match (ReadPage(rest[..k]), ReadCount(rest[k..]))
      case (Some(current), Some((total, complete))) => Some(Showing(current, total, complete))
      case _ => None
    else None
  }

  lemma {:induction false} SpanToSpaceConcat(a: string, b: string)
    requires forall i :: 0 <= i < |a| ==> a[i] != ' '
    requires |b| > 0 && b[0] == ' '
    ensures SpanToSpace(a + b) == |a|
  {
    if |a| > 0 {
      assert (a + b)[1..] == a[1..] + b;
      SpanToSpaceConcat(a[1..], b);
    }
  }

  lemma ReadPageText(p: Option<nat>)
    ensures ReadPage(PageText(p)) == Some(p)
  {
    if p.Some? {
      var t := Decimal.NatToString(p.value);
      assert t != "undefined" by { assert Decimal.IsDigit(t[0]); }
      Decimal.ParseNatToString(p.value);
    }
  }

  /** Reading the count part of a text built from a numeral and an ending. */
  lemma ReadCountNumeral(y: string, e: string)
    requires |y| > 0 && Decimal.AllDigits(y)
    requires e == " total)" || e == " so far)"
    ensures ReadCount(" (of " + y + e) == Some((Decimal.ParseNat(y), e == " total)"))
  {
    var tail := " (of " + y + e;
    assert " (of " <= tail by { assert tail[..5] == " (of "; }
    var counted := tail[5..];
    assert counted == y + e;
    assert forall i :: 0 <= i < |y| ==> y[i] != ' ' by {
      forall i | 0 <= i < |y| ensures y[i] != ' ' { assert Decimal.IsDigit(y[i]); }
    }
    SpanToSpaceConcat(y, e);
    assert counted[..|y|] == y;
    assert counted[|y|..] == e;
  }

  lemma ReadCountText(n: nat, complete: bool)
    ensures var e := if complete then " total)" else " so far)";
            ReadCount(" (of " + Decimal.NatToString(n) + e) == Some((n, complete))
  {
    var e := if complete then " total)" else " so far)";
    ReadCountNumeral(Decimal.NatToString(n), e);
    Decimal.ParseNatToString(n);
  }

  /** Reading a "Page ..." text whose page token has no space. */
  lemma ReadShowing(x: string, tail: string, current: Option<nat>, total: nat, complete: bool)
    requires forall i :: 0 <= i < |x| ==> x[i] != ' '
    requires ReadPage(x) == Some(current)
    requires ReadCount(tail) == Some((total, complete))
    ensures ReadIndicator("Page " + x + tail) == Some(Showing(current, total, complete))
  {
    var s := "Page " + x + tail;
    assert s != NoPagesText by { assert s[0] == 'P'; }
    assert s[..5] == "Page ";
    var rest := s[5..];
    assert rest == x + tail;
    assert |tail| > 0 && tail[0] == ' ';
    SpanToSpaceConcat(x, tail);
    assert rest[..|x|] == x;
    assert rest[|x|..] == tail;
  }

  /** Reading the indicator text gives back the state it was rendered from. */
  lemma ReadIndicatorText(w: Watcher)
    ensures ReadIndicator(IndicatorText(w)) == Some(Expected(w))
  {
    if !(w.pagesSoFar.None? || w.pagesSoFar == Some(0)) {
      var x := PageText(w.currentPage);
      PageTextHasNoSpace(w.currentPage);
      ReadPageText(w.currentPage);
      var e := if w.complete then " total)" else " so far)";
      var tail := " (of " + Decimal.NatToString(w.pagesSoFar.value) + e;
      ReadCountText(w.pagesSoFar.value, w.complete);
      ReadShowing(x, tail, w.currentPage, w.pagesSoFar.value, w.complete);
      IndicatorShowing(w, x, Decimal.NatToString(w.pagesSoFar.value));
    } else {
      assert IndicatorText(w) == NoPagesText;
    }
  }

  lemma PageTextHasNoSpace(p: Option<nat>)
    ensures forall i :: 0 <= i < |PageText(p)| ==> PageText(p)[i] != ' '
  {
    if p.Some? {
      assert Decimal.AllDigits(PageText(p));
    }
  }

  /** Two states with pages that render the same indicator agree on the page,
      the count and the completion flag. */
  lemma IndicatorDistinguishesStates(v: Watcher, w: Watcher)
    requires v.pagesSoFar.Some? && v.pagesSoFar.value > 0
    requires w.pagesSoFar.Some? && w.pagesSoFar.value > 0
    requires IndicatorText(v) == IndicatorText(w)
    ensures v.currentPage == w.currentPage
    ensures v.pagesSoFar == w.pagesSoFar
    ensures v.complete == w.complete
  {
    ReadIndicatorText(v);
    ReadIndicatorText(w);
  }
}
