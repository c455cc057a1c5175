/** Scroll-spy highlighting of the navigation bar
    (`Navigation.updateActiveLink`, run on every scroll event).

    The handler walks the page's sections in document order and remembers
    the id of the last one whose band `[offsetTop - 100, offsetTop - 100 +
    clientHeight)` contains the scroll position; then it marks as active
    exactly the navigation links whose `href` is `#` followed by that id. */
module Navigation {
  import opened Optional
  import opened Selection

  /** A `.section` element: its `id`, `offsetTop` and `clientHeight`. */
  datatype Section = Section(id: string, offsetTop: int, clientHeight: int)

  /** A section counts as current from this many pixels above its top. */
  const ActivationOffset: int := 100

  /** The section's band contains the scroll position. */
  predicate Covers(section: Section, scrollY: int) {
    var top := section.offsetTop - ActivationOffset;
    top <= scrollY < top + section.clientHeight
  }

  /** The last section, in document order, that covers the scroll position. */
  function LastCovering(sections: seq<Section>, scrollY: int): (r: Option<nat>)
    ensures r.Some? ==> r.value < |sections| && Covers(sections[r.value], scrollY) &&
                        forall j :: r.value < j < |sections| ==> !Covers(sections[j], scrollY)
    ensures r.None? ==> forall j :: 0 <= j < |sections| ==> !Covers(sections[j], scrollY)
  {
    if |sections| == 0 then None
    else if Covers(sections[|sections| - 1], scrollY) then Some(|sections| - 1)
    else LastCovering(sections[..|sections| - 1], scrollY)
  }

  /** The id the handler settles on: that of the last covering section, or
      the empty string when no section covers the position. */
  function CurrentId(sections: seq<Section>, scrollY: int): string {
    match LastCovering(sections, scrollY)
    case None => ""
    case Some(i) => sections[i].id
  }

  /** The first loop of the handler: every covering section overwrites
      `current`, so the last one wins. */
  method CurrentSection(sections: seq<Section>, scrollY: int) returns (current: string)
    ensures current == CurrentId(sections, scrollY)
  {
    current := "";
    var i := 0;
    while i < |sections|
      invariant 0 <= i <= |sections|
      invariant current == CurrentId(sections[..i], scrollY)
    {
      assert sections[..i + 1][..i] == sections[..i];
      if Covers(sections[i], scrollY) {
        current := sections[i].id;
      }
      i := i + 1;
    }
    assert sections[..|sections|] == sections;
  }

  /** The whole handler: the links keep their order and `href`s, and a link
      is active exactly when its `href` is `#` followed by the current id. */
  method UpdateActiveLink(sections: seq<Section>, links: seq<Marked>, scrollY: int)
    returns (current: string, updated: seq<Marked>)
    ensures current == CurrentId(sections, scrollY)
    ensures SameKeys(links, updated)
    ensures forall k :: 0 <= k < |updated| ==> (updated[k].active <==> links[k].key == "#" + current)
    ensures updated == ActivateMatching(links, "#" + current)
  {
    current := CurrentSection(sections, scrollY);
    var target := "#" + current;
    updated := [];
    var i := 0;
    while i < |links|
      invariant 0 <= i <= |links|
      invariant |updated| == i
      invariant forall k :: 0 <= k < i ==> updated[k] == Marked(links[k].key, links[k].key == target)
    {
      updated := updated + [Marked(links[i].key, links[i].key == target)];
      i := i + 1;
    }
  }

  /** When no section covers the position, the handler looks for the `href`
      `"#"`: a link pointing at the top of the page becomes active, and
      every other link goes dark. */
  lemma UncoveredPositionSelectsBareHash(sections: seq<Section>, links: seq<Marked>, scrollY: int)
    requires forall j :: 0 <= j < |sections| ==> !Covers(sections[j], scrollY)
    ensures CurrentId(sections, scrollY) == ""
    ensures forall k :: 0 <= k < |links| ==>
              (ActivateMatching(links, "#" + CurrentId(sections, scrollY))[k].active <==> links[k].key == "#")
  {
    assert "#" + "" == "#";
  }

  /** Where bands overlap, the later section wins over every earlier one. */
  lemma LaterSectionWins(sections: seq<Section>, scrollY: int, i: nat, j: nat)
    requires i < j < |sections|
    requires Covers(sections[i], scrollY) && Covers(sections[j], scrollY)
    ensures LastCovering(sections, scrollY).Some? && LastCovering(sections, scrollY).value >= j
  {
  }

  /** With distinct `href`s at most one link is active, and exactly one when
      some link points at the current section. */
  lemma AtMostOneActiveLink(sections: seq<Section>, links: seq<Marked>, scrollY: int)
    requires DistinctKeys(links)
    ensures var target := "#" + CurrentId(sections, scrollY);
            CountActive(ActivateMatching(links, target)) == if HasKey(links, target) then 1 else 0
  {
    ActivateMatchingCount(links, "#" + CurrentId(sections, scrollY));
  }
}
