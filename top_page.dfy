/**
 * The top page's catalog slice (main.js): the works grid built from the first six
 * records, the category filter with its mutually exclusive buttons, the mobile-menu
 * toggle, and the rule that highlights the navigation link of the section in view.
 *
 * The page's DOM elements are modelled by their state only: a work item is its
 * `data-category` and whether it carries the `hidden` class, a filter button its
 * `data-filter` and whether it is `active`, a navigation link its `href` and whether
 * it is `active`.
 */
module TopPage {
  import opened Catalog

  const TopWorksLimit: nat := 6
  const LargeCardIndex: nat := 2
  const AllFilter := "all"

  /** The output of `renderWorkCard(work, isLarge)`, kept as its two inputs. */
  datatype Card = Card(work: Work, isLarge: bool)

  /**
   * `initTopWorks` grid: one card per record among the first six, in catalog order,
   * and only the card at index 2 is large (main.js:207-214).
   */
  method BuildTopGrid(catalog: seq<Work>) returns (cards: seq<Card>)
    ensures |cards| == Min(TopWorksLimit, |catalog|)
    ensures forall i :: 0 <= i < |cards| ==> cards[i].work == catalog[i]
    ensures forall i :: 0 <= i < |cards| ==> (cards[i].isLarge <==> i == LargeCardIndex)
    ensures (exists i :: 0 <= i < |cards| && cards[i].isLarge) <==> |catalog| > LargeCardIndex
  {
    var topWorks := if |catalog| <= TopWorksLimit then catalog else catalog[..TopWorksLimit];
    cards := [];
    var index := 0;
    while index < |topWorks|
      invariant 0 <= index <= |topWorks|
      invariant |cards| == index
      invariant forall i :: 0 <= i < index ==> cards[i] == Card(catalog[i], i == LargeCardIndex)
    {
      cards := cards + [Card(topWorks[index], index == LargeCardIndex)];
      index := index + 1;
    }
    if |catalog| > LargeCardIndex {
      assert cards[LargeCardIndex].isLarge;
    }
  }

  /** A `.work-item` element of the grid. */
  datatype WorkItem = WorkItem(category: string, hidden: bool)

  /** A `.filter-btn` element. */
  datatype FilterButton = FilterButton(filter: string, active: bool)

  /** The filter shows an item when it is "all" or names the item's category. */
  predicate Shows(filter: string, category: string) {
    filter == AllFilter || category == filter
  }

  /** The items after a click on `filter`: only the hidden flags are recomputed. */
  function Filtered(items: seq<WorkItem>, filter: string): (r: seq<WorkItem>) {
    seq(|items|, i requires 0 <= i < |items| => items[i].(hidden := !Shows(filter, items[i].category)))
  }

  /** A filter keeps the items, their order and categories, and hides exactly the non-matching ones. */
  lemma FilteredVisibleIff(items: seq<WorkItem>, filter: string)
    ensures |Filtered(items, filter)| == |items|
    ensures forall i :: 0 <= i < |items| ==>
      Filtered(items, filter)[i].category == items[i].category
      && (!Filtered(items, filter)[i].hidden <==> filter == AllFilter || items[i].category == filter)
  {
  }

  /** "all" makes every item visible. */
  lemma FilterAllShowsEverything(items: seq<WorkItem>)
    ensures forall i :: 0 <= i < |items| ==> !Filtered(items, AllFilter)[i].hidden
  {
  }

  /** A token matching no item's category hides every item. */
  lemma FilterUnmatchedHidesEverything(items: seq<WorkItem>, filter: string)
    requires filter != AllFilter
    requires forall i :: 0 <= i < |items| ==> items[i].category != filter
    ensures forall i :: 0 <= i < |items| ==> Filtered(items, filter)[i].hidden
  {
  }

  /** The visible set depends on the last click only. */
  lemma FilterLastClickWins(items: seq<WorkItem>, first: string, second: string)
    ensures Filtered(Filtered(items, first), second) == Filtered(items, second)
  {
  }

  /** The worked example: filtering web, art, web, art by "web" shows the first and third. */
  lemma ExampleFilterWeb(hidden: seq<bool>)
    requires |hidden| == 4
    ensures var items := [WorkItem("web", hidden[0]), WorkItem("art", hidden[1]),
                          WorkItem("web", hidden[2]), WorkItem("art", hidden[3])];
      Filtered(items, "web") ==
        [WorkItem("web", false), WorkItem("art", true), WorkItem("web", false), WorkItem("art", true)]
  {
  }

  /**
   * The filter bar: `items` is the item list a click handler walks and `buttons` the
   * button list it clears. main.js binds two handlers with the same logic. The one
   * bound in `initTopWorks` (main.js:264-287) walks `freshWorkItems` and clears the
   * buttons found by a fresh `.filter-btn` query at click time (main.js:268). The one
   * bound at load (main.js:301-325) walks `workItems` and clears `filterBtns`, both
   * captured once at load (main.js:298-299). Each handler is this class over its own
   * two lists.
   */
  class WorksFilter {
    var items: array<WorkItem>
    var buttons: array<FilterButton>

    constructor (initialItems: seq<WorkItem>, initialButtons: seq<FilterButton>)
      ensures fresh(items) && fresh(buttons)
      ensures items[..] == initialItems && buttons[..] == initialButtons
    {
      items := new WorkItem[|initialItems|](i requires 0 <= i < |initialItems| => initialItems[i]);
      buttons := new FilterButton[|initialButtons|](i requires 0 <= i < |initialButtons| => initialButtons[i]);
    }

    /** Clear `active` on every button, then set it on button `b` (main.js:268-270). */
    method SetActive(b: nat)
      requires b < buttons.Length
      modifies buttons
      ensures forall j :: 0 <= j < buttons.Length ==> buttons[j].filter == old(buttons[j].filter)
      ensures forall j :: 0 <= j < buttons.Length ==> (buttons[j].active <==> j == b)
    {
      var j := 0;
      while j < buttons.Length
        invariant 0 <= j <= buttons.Length
        invariant forall k :: 0 <= k < buttons.Length ==> buttons[k].filter == old(buttons[k].filter)
        invariant forall k :: 0 <= k < j ==> !buttons[k].active
      {
        buttons[j] := buttons[j].(active := false);
        j := j + 1;
      }
      buttons[b] := buttons[b].(active := true);
    }

    /** Recompute every item's `hidden` flag in place (main.js:273-286). */
    method ApplyFilter(filter: string)
      modifies items
      ensures items[..] == Filtered(old(items[..]), filter)
      ensures forall i :: 0 <= i < items.Length ==>
        items[i].category == old(items[i].category) && (items[i].hidden <==> !Shows(filter, items[i].category))
    {
      var i := 0;
      while i < items.Length
        invariant 0 <= i <= items.Length
        invariant forall k :: 0 <= k < i ==> items[k] == old(items[k]).(hidden := !Shows(filter, old(items[k]).category))
        invariant forall k :: i <= k < items.Length ==> items[k] == old(items[k])
      {
        items[i] := items[i].(hidden := !Shows(filter, items[i].category));
        i := i + 1;
      }
    }

    /**
     * A click on button `b`: exactly that button becomes active, and the items are
     * filtered by its `data-filter` token; nothing else changes.
     */
    method Click(b: nat)
      requires b < buttons.Length
      modifies items, buttons
      ensures forall j :: 0 <= j < buttons.Length ==>
        buttons[j].filter == old(buttons[j].filter) && (buttons[j].active <==> j == b)
      ensures items[..] == Filtered(old(items[..]), old(buttons[b].filter))
    {
      var filter := buttons[b].filter;
      SetActive(b);
      ApplyFilter(filter);
    }
  }

  /**
   * The mobile menu's shared class state: the menu button's and the menu's `active`
   * classes, and whether body scrolling is locked (`overflow: hidden`).
   */
  datatype MenuState = MenuState(buttonActive: bool, menuActive: bool, scrollLocked: bool)

  /** Button and menu agree, and scrolling is locked exactly while the menu is open. */
  predicate Consistent(s: MenuState) {
    s.buttonActive == s.menuActive && s.scrollLocked == s.menuActive
  }

  /** The menu button's click (main.js:106-112): both classes flip; the lock follows the menu. */
  function Toggled(s: MenuState): (t: MenuState)
    ensures t.buttonActive != s.buttonActive && t.menuActive != s.menuActive
    ensures t.scrollLocked <==> t.menuActive
  {
    MenuState(!s.buttonActive, !s.menuActive, !s.menuActive)
  }

  /** A menu link's click (main.js:116-120): everything is switched off. */
  const ClosedMenu := MenuState(false, false, false)

  /**
   * A toggle keeps button and menu in step and puts the lock in step with the menu,
   * whatever the lock was before (the loader also locks scrolling while it runs).
   */
  lemma ToggleKeepsInStep(s: MenuState)
    requires s.buttonActive == s.menuActive
    ensures Consistent(Toggled(s))
  {
  }

  /** Toggling twice restores the state exactly when the lock was in step with the menu. */
  lemma ToggleTwiceRestores(s: MenuState)
    ensures Toggled(Toggled(s)) == s <==> s.scrollLocked == s.menuActive
  {
  }

  class MobileMenu {
    var buttonActive: bool
    var menuActive: bool
    var scrollLocked: bool

    function State(): MenuState
      reads this
    {
      MenuState(buttonActive, menuActive, scrollLocked)
    }

    constructor (initial: MenuState)
      ensures State() == initial
    {
      buttonActive, menuActive, scrollLocked := initial.buttonActive, initial.menuActive, initial.scrollLocked;
    }

    /** The menu button's click handler (main.js:106-112). */
    method Toggle()
      modifies this
      ensures State() == Toggled(old(State()))
    {
      buttonActive := !buttonActive;
      menuActive := !menuActive;
      scrollLocked := menuActive;
    }

    /** A `.mobile-menu-link` click handler (main.js:115-121). */
    method CloseFromLink()
      modifies this
      ensures State() == ClosedMenu && Consistent(State())
    {
      buttonActive := false;
      menuActive := false;
      scrollLocked := false;
    }
  }

  /** A `.nav-link` element. */
  datatype NavLink = NavLink(href: string, active: bool)

  /** One IntersectionObserver entry for a `section[id]`. */
  datatype SectionEntry = SectionEntry(sectionId: string, isIntersecting: bool)

  /** The id of the last intersecting entry of a batch, if any. */
  function LastIntersecting(entries: seq<SectionEntry>): (r: Option<string>)
    ensures r.None? <==> forall i :: 0 <= i < |entries| ==> !entries[i].isIntersecting
    ensures r.Some? ==>
              exists i :: 0 <= i < |entries| && entries[i].isIntersecting && entries[i].sectionId == r.value
                          && forall j :: i < j < |entries| ==> !entries[j].isIntersecting
  {
    if entries == [] then None
    else if entries[|entries| - 1].isIntersecting then Some(entries[|entries| - 1].sectionId)
    else LastIntersecting(entries[..|entries| - 1])
  }

  /** Extending a batch by one entry: an intersecting entry becomes the last one. */
  lemma LastIntersectingStep(entries: seq<SectionEntry>, i: nat)
    requires i < |entries|
    ensures LastIntersecting(entries[..i + 1])
            == if entries[i].isIntersecting then Some(entries[i].sectionId) else LastIntersecting(entries[..i])
  {
    assert entries[..i + 1][..i] == entries[..i];
  }

  /** Two link lists that differ at most in their `active` flags. */
  ghost predicate SameHrefs(links: seq<NavLink>, before: seq<NavLink>) {
    |links| == |before| && forall k :: 0 <= k < |links| ==> links[k].href == before[k].href
  }

  /** The links after the section `id` was seen: active exactly where `href` is "#" + id. */
  ghost predicate Highlights(links: seq<NavLink>, before: seq<NavLink>, id: string) {
    SameHrefs(links, before) && forall k :: 0 <= k < |links| ==> (links[k].active <==> links[k].href == "#" + id)
  }

  class SectionNav {
    var links: array<NavLink>

    constructor (initialLinks: seq<NavLink>)
      ensures fresh(links) && links[..] == initialLinks
    {
      links := new NavLink[|initialLinks|](i requires 0 <= i < |initialLinks| => initialLinks[i]);
    }

    /** `link.classList.toggle("active", href === "#" + id)` over every link (main.js:383-388). */
    method Highlight(id: string)
      modifies links
      ensures Highlights(links[..], old(links[..]), id)
    {
      var k := 0;
      while k < links.Length
        invariant 0 <= k <= links.Length
        invariant forall j :: 0 <= j < links.Length ==> links[j].href == old(links[j].href)
        invariant forall j :: 0 <= j < k ==> (links[j].active <==> links[j].href == "#" + id)
        invariant forall j :: k <= j < links.Length ==> links[j] == old(links[j])
      {
        links[k] := links[k].(active := links[k].href == "#" + id);
        k := k + 1;
      }
    }

    /**
     * The observer callback over one batch of entries (main.js:380-390): the last
     * intersecting section decides the active links; with none, nothing changes.
     */
    method OnEntries(entries: seq<SectionEntry>)
      modifies links
      ensures LastIntersecting(entries).None? ==> links[..] == old(links[..])
      ensures LastIntersecting(entries).Some? ==>
                Highlights(links[..], old(links[..]), LastIntersecting(entries).value)
    {
      ghost var initial := links[..];
      var i := 0;
      while i < |entries|
        invariant 0 <= i <= |entries|
        invariant SameHrefs(links[..], initial)
        invariant LastIntersecting(entries[..i]).None? ==> links[..] == initial
        invariant LastIntersecting(entries[..i]).Some? ==>
                    Highlights(links[..], initial, LastIntersecting(entries[..i]).value)
      {
        LastIntersectingStep(entries, i);
        if entries[i].isIntersecting {
          Highlight(entries[i].sectionId);
        }
        i := i + 1;
      }
      assert entries[..|entries|] == entries;
    }
  }
}
