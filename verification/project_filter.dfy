/** The project gallery filter (`ProjectFilter`).

    Clicking a filter button shows the cards whose `data-category` equals
    the button's `data-filter`, or every card for the filter `all`, hides the
    others, and marks the clicked button, and only it, as active. Cards fade
    in and out on timers; the model returns the settled visibility. */
module ProjectFilter {
  import opened Selection

  /** A `.project-card`: its `data-category` and whether it is shown (the
      absence of the `hidden` class once the fade has finished). */
  datatype Card = Card(category: string, visible: bool)

  /** The filter value that shows every card. */
  const ShowAll := "all"

  /** The filter buttons (key: `data-filter`) and the cards. */
  datatype Gallery = Gallery(buttons: seq<Marked>, cards: seq<Card>)

  /** `filterProjects`: each card is shown exactly when the filter is `all`
      or equals its category; order and categories are kept. */
  function FilterProjects(cards: seq<Card>, filter: string): (r: seq<Card>)
    ensures |r| == |cards|
    ensures forall k :: 0 <= k < |r| ==>
              r[k].category == cards[k].category &&
              (r[k].visible <==> filter == ShowAll || cards[k].category == filter)
  {
    if |cards| == 0 then []
    else
      var shown := filter == ShowAll || cards[0].category == filter;
      [Card(cards[0].category, shown)] + FilterProjects(cards[1..], filter)
  }

  /** The click handler: filter by the clicked button's value, then make that
      button the only active one. */
  function ClickFilter(g: Gallery, clicked: nat): (r: Gallery)
    requires clicked < |g.buttons|
    ensures SameKeys(g.buttons, r.buttons)
    ensures forall k :: 0 <= k < |r.buttons| ==> (r.buttons[k].active <==> k == clicked)
    ensures |r.cards| == |g.cards|
    ensures forall k :: 0 <= k < |r.cards| ==> r.cards[k].category == g.cards[k].category
    ensures forall k :: 0 <= k < |r.cards| ==>
              (r.cards[k].visible <==> g.buttons[clicked].key == ShowAll || g.cards[k].category == g.buttons[clicked].key)
  {
    Gallery(ActivateAt(g.buttons, clicked), FilterProjects(g.cards, g.buttons[clicked].key))
  }

  function CountVisible(cards: seq<Card>): (n: nat)
    ensures n <= |cards|
  {
    if |cards| == 0 then 0 else (if cards[0].visible then 1 else 0) + CountVisible(cards[1..])
  }

  function CountCategory(cards: seq<Card>, category: string): (n: nat)
    ensures n <= |cards|
  {
    if |cards| == 0 then 0
    else (if cards[0].category == category then 1 else 0) + CountCategory(cards[1..], category)
  }

  /** `all` shows every card; any other filter shows as many cards as there
      are cards of that category. */
  lemma {:induction false} VisibleCount(cards: seq<Card>, filter: string)
    ensures CountVisible(FilterProjects(cards, filter)) ==
              if filter == ShowAll then |cards| else CountCategory(cards, filter)
  {
    if |cards| > 0 {
      var r := FilterProjects(cards, filter);
      assert r[1..] == FilterProjects(cards[1..], filter);
      VisibleCount(cards[1..], filter);
    }
  }

  /** Filtering twice by the same value changes nothing the second time, and
      the result does not depend on which cards were visible before. */
  lemma FilterIdempotent(cards: seq<Card>, filter: string)
    ensures FilterProjects(FilterProjects(cards, filter), filter) == FilterProjects(cards, filter)
  {
    var once := FilterProjects(cards, filter);
    var twice := FilterProjects(once, filter);
    assert |twice| == |once|;
    forall k | 0 <= k < |once| ensures twice[k] == once[k] {
    }
  }

  lemma FilterForgetsHistory(a: seq<Card>, b: seq<Card>, filter: string)
    requires |a| == |b|
    requires forall k :: 0 <= k < |a| ==> a[k].category == b[k].category
    ensures FilterProjects(a, filter) == FilterProjects(b, filter)
  {
    var ra, rb := FilterProjects(a, filter), FilterProjects(b, filter);
    assert |ra| == |rb|;
    forall k | 0 <= k < |ra| ensures ra[k] == rb[k] {
    }
  }

  /** After any click exactly one filter button is active. */
  lemma ClickLeavesOneActiveButton(g: Gallery, clicked: nat)
    requires clicked < |g.buttons|
    ensures CountActive(ClickFilter(g, clicked).buttons) == 1
  {
    ActivateAtCount(g.buttons, clicked);
  }
}
