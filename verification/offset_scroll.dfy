/**
  The vertical part of the viewer's `scrollToElement`: walk the
  `offsetParent` chain from the target element, summing `offsetTop`, until
  the scroll container is reached, then set the container's `scrollTop` to
  the sum. A chain that ends (reaches null) before the container leaves the
  scroll position alone.
*/
module OffsetScroll {
  import opened Optional

  /** One element of an `offsetParent` chain: its offset from its own offset
      parent, and whether it is the scroll container. The chain lists the
      target first; the element after the last is null. */
  datatype Hop = Hop(offsetTop: int, isContainer: bool)

  /** Sum of the vertical offsets of a run of elements. */
  function SumTops(chain: seq<Hop>): int {
    if |chain| == 0 then 0 else SumTops(chain[..|chain| - 1]) + chain[|chain| - 1].offsetTop
  }

  /** Index of the first container on the chain, if any. */
  function FirstContainer(chain: seq<Hop>): (k: Option<nat>)
    ensures k.Some? ==> k.value < |chain| && chain[k.value].isContainer
    ensures k.Some? ==> forall j :: 0 <= j < k.value ==> !chain[j].isContainer
    ensures k.None? ==> forall j :: 0 <= j < |chain| ==> !chain[j].isContainer
  {
    if |chain| == 0 then None
    else if chain[0].isContainer then Some(0)
    else match FirstContainer(chain[1..])
         case None => None
         case Some(k) => Some(k + 1)
  }

  /** The walk as a fold over the chain: the container's offset from the
      target, or None when the chain never reaches it. */
  function ContainerOffset(chain: seq<Hop>): (r: Option<int>)
    ensures r.None? <==> forall j :: 0 <= j < |chain| ==> !chain[j].isContainer
    ensures |chain| > 0 && chain[0].isContainer ==> r == Some(0)
  {
    if |chain| == 0 then None
    else if chain[0].isContainer then Some(0)
    else match ContainerOffset(chain[1..])
         case None => None
         case Some(y) => Some(chain[0].offsetTop + y)
  }

  /** The scroll position after the walk, starting from `scrollTop`. */
  function ScrollResult(chain: seq<Hop>, scrollTop: int): int {
    match ContainerOffset(chain)
    case None => scrollTop
    case Some(y) => y
  }

  lemma {:induction false} SumTopsCons(h: Hop, rest: seq<Hop>)
    ensures SumTops([h] + rest) == h.offsetTop + SumTops(rest)
    decreases |rest|
  {
    if |rest| > 0 {
      var s := [h] + rest;
      assert s[..|s| - 1] == [h] + rest[..|rest| - 1];
      SumTopsCons(h, rest[..|rest| - 1]);
    } else {
      assert ([h] + rest)[..0] == [];
    }
  }

  /** The fold agrees with its reading: the offset is the sum over the
      elements strictly before the first container, and there is none when
      no container lies on the chain. The target being the container gives 0. */
  lemma {:induction false} ContainerOffsetIsSum(chain: seq<Hop>)
    ensures FirstContainer(chain).None? <==> ContainerOffset(chain).None?
    ensures FirstContainer(chain).Some? ==>
            ContainerOffset(chain) == Some(SumTops(chain[..FirstContainer(chain).value]))
    ensures |chain| > 0 && chain[0].isContainer ==> ContainerOffset(chain) == Some(0)
    decreases |chain|
  {
    if |chain| > 0 && !chain[0].isContainer {
      ContainerOffsetIsSum(chain[1..]);
      var k := FirstContainer(chain[1..]);
      if k.Some? {
        assert chain[..k.value + 1] == [chain[0]] + chain[1..][..k.value];
        SumTopsCons(chain[0], chain[1..][..k.value]);
      }
    } else if |chain| > 0 {
      assert chain[..0] == [];
    }
  }

  /** `scrollToElement` as written: a loop that accumulates the offset while
      the current element is neither the container nor null. */
  method ScrollToElement(chain: seq<Hop>, scrollTop: int) returns (newScrollTop: int)
    ensures newScrollTop == ScrollResult(chain, scrollTop)
  {
    var selectedPosY := 0;
    var i := 0;
    while i < |chain| && !chain[i].isContainer
      invariant 0 <= i <= |chain|
      invariant ContainerOffset(chain) == match ContainerOffset(chain[i..])
                                          case None => None
                                          case Some(y) => Some(selectedPosY + y)
    {
      selectedPosY := selectedPosY + chain[i].offsetTop;
      assert chain[i..][1..] == chain[i + 1..];
      i := i + 1;
    }
    if i < |chain| {
      newScrollTop := selectedPosY;
    } else {
      newScrollTop := scrollTop;
    }
  }

  /** The scroll position moves only when a container lies on the chain. */
  lemma ScrollNeedsContainer(chain: seq<Hop>, scrollTop: int)
    ensures (forall j :: 0 <= j < |chain| ==> !chain[j].isContainer) ==>
            ScrollResult(chain, scrollTop) == scrollTop
    ensures forall k ::
              (0 <= k < |chain| && chain[k].isContainer
               && (forall j :: 0 <= j < k ==> !chain[j].isContainer))
              ==> ScrollResult(chain, scrollTop) == SumTops(chain[..k])
  {
    ContainerOffsetIsSum(chain);
    var f := FirstContainer(chain);
    forall k | 0 <= k < |chain| && chain[k].isContainer
      && (forall j :: 0 <= j < k ==> !chain[j].isContainer)
      ensures f == Some(k)
    {
      assert f.Some?;
      assert !(f.value < k) && !(k < f.value);
    }
  }
}
