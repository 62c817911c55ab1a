/**
 * The navigation bar: the active-section scan run on every scroll event,
 * the `scrolled` background threshold, and the mobile menu whose open state
 * locks the page's scrolling.
 */
module Navbar {

  datatype NavItem = NavItem(name: string, href: string)

  /** `NAV_ITEMS`, in display order. */
  const NavItems: seq<NavItem> := [
    NavItem("About", "#about"),
    NavItem("Experience", "#experience"),
    NavItem("Projects", "#projects"),
    NavItem("Testimonials", "#testimonials"),
    NavItem("Contact", "#contact")
  ]

  /** A section counts as reached this many pixels before its top. */
  const HeaderAllowance: int := 80

  /** The bar gets its background once the page is scrolled past this many pixels. */
  const ScrolledThreshold: int := 50

  /**
   * What `document.getElementById` can see: the id of every section present
   * on the page, mapped to its `offsetTop`.
   */
  type Page = map<string, int>

  /** `href.replace("#", "")`: removes the first `#`, if any. */
  function HrefToId(href: string): (id: string)
    ensures |href| - 1 <= |id| <= |href|
  {
    if href == [] then []
    else if href[0] == '#' then href[1..]
    else [href[0]] + HrefToId(href[1..])
  }

  /** An href without `#` is its own id. */
  lemma {:induction false} HrefWithoutHashUnchanged(href: string)
    requires '#' !in href
    ensures HrefToId(href) == href
  {
    if href != [] {
      assert href[0] != '#';
      assert forall c :: c in href[1..] ==> c in href;
      HrefWithoutHashUnchanged(href[1..]);
    }
  }

  /** Only the first `#` is removed, wherever it stands. */
  lemma {:induction false} HrefToIdDropsFirstHash(before: string, after: string)
    requires '#' !in before
    ensures HrefToId(before + "#" + after) == before + after
  {
    var href := before + "#" + after;
    if before == [] {
      assert href == "#" + after;
      assert href[1..] == after;
    } else {
      assert href[0] == before[0] && before[0] != '#';
      assert href[1..] == before[1..] + "#" + after;
      HrefToIdDropsFirstHash(before[1..], after);
      calc {
        HrefToId(href);
        [href[0]] + HrefToId(href[1..]);
        [before[0]] + (before[1..] + after);
        { assert [before[0]] + before[1..] == before; }
        before + after;
      }
    }
  }

  /** The ids of the five navigation targets. */
  lemma NavIds()
    ensures HrefToId(NavItems[0].href) == "about"
    ensures HrefToId(NavItems[1].href) == "experience"
    ensures HrefToId(NavItems[2].href) == "projects"
    ensures HrefToId(NavItems[3].href) == "testimonials"
    ensures HrefToId(NavItems[4].href) == "contact"
  {
    HrefToIdDropsFirstHash("", "about");
    HrefToIdDropsFirstHash("", "experience");
    HrefToIdDropsFirstHash("", "projects");
    HrefToIdDropsFirstHash("", "testimonials");
    HrefToIdDropsFirstHash("", "contact");
  }

  /** The item's section exists and `scrollY >= offsetTop - 80`. */
  predicate Reached(item: NavItem, page: Page, scrollY: int)
  {
    var id := HrefToId(item.href);
    id in page && scrollY >= page[id] - HeaderAllowance
  }

  /**
   * Reference definition of the active section, searching from the end of
   * the list: the href of the last reached item, or "" when none is reached.
   */
  function LastReached(items: seq<NavItem>, page: Page, scrollY: int): string
  {
    if items == [] then ""
    else if Reached(items[|items| - 1], page, scrollY) then items[|items| - 1].href
    else LastReached(items[..|items| - 1], page, scrollY)
  }

  /** The active section is "" or the href of a reached item. */
  lemma {:induction false} LastReachedIsReached(items: seq<NavItem>, page: Page, scrollY: int) returns (k: int)
    ensures LastReached(items, page, scrollY) == "" || (0 <= k < |items| && items[k].href == LastReached(items, page, scrollY) && Reached(items[k], page, scrollY))
    decreases |items|
  {
    k := -1;
    if items != [] && !Reached(items[|items| - 1], page, scrollY) {
      k := LastReachedIsReached(items[..|items| - 1], page, scrollY);
    } else if items != [] {
      k := |items| - 1;
    }
  }

  /** The body of `handleScroll`: a left-to-right pass that overwrites `current` on every reached item. */
  method ScanActiveSection(items: seq<NavItem>, page: Page, scrollY: int) returns (current: string)
    ensures current == LastReached(items, page, scrollY)
  {
    current := "";
    for i := 0 to |items|
      invariant current == LastReached(items[..i], page, scrollY)
    {
      assert items[..i + 1][..i] == items[..i];
      var id := HrefToId(items[i].href);
      if id in page {
        var offset := page[id] - HeaderAllowance;
        if scrollY >= offset {
          current := items[i].href;
        }
      }
    }
    assert items[..|items|] == items;
  }

  /** The last reached item is the active one, whatever comes before it. */
  lemma {:induction false} LastReachedIsActive(items: seq<NavItem>, page: Page, scrollY: int, k: nat)
    requires k < |items| && Reached(items[k], page, scrollY)
    requires forall j :: k < j < |items| ==> !Reached(items[j], page, scrollY)
    ensures LastReached(items, page, scrollY) == items[k].href
    decreases |items|
  {
    if k < |items| - 1 {
      LastReachedIsActive(items[..|items| - 1], page, scrollY, k);
    }
  }

  /** Unreached items at the end of the list make no difference. */
  lemma {:induction false} UnreachedSuffixIgnored(items: seq<NavItem>, page: Page, scrollY: int, k: nat)
    requires k <= |items|
    requires forall j :: k <= j < |items| ==> !Reached(items[j], page, scrollY)
    ensures LastReached(items, page, scrollY) == LastReached(items[..k], page, scrollY)
    decreases |items|
  {
    if k < |items| {
      assert items[..|items| - 1][..k] == items[..k];
      UnreachedSuffixIgnored(items[..|items| - 1], page, scrollY, k);
    } else {
      assert items[..k] == items;
    }
  }

  predicate NonEmptyHrefs(items: seq<NavItem>)
  {
    forall k :: 0 <= k < |items| ==> items[k].href != ""
  }

  predicate DistinctHrefs(items: seq<NavItem>)
  {
    forall j, k :: 0 <= j < k < |items| ==> items[j].href != items[k].href
  }

  /** No section is active exactly when no item is reached (the hrefs being non-empty). */
  lemma NoActiveSectionIffNoneReached(items: seq<NavItem>, page: Page, scrollY: int)
    requires NonEmptyHrefs(items)
    ensures LastReached(items, page, scrollY) == "" <==> forall k :: 0 <= k < |items| ==> !Reached(items[k], page, scrollY)
  {
    if forall k :: 0 <= k < |items| ==> !Reached(items[k], page, scrollY) {
      UnreachedSuffixIgnored(items, page, scrollY, 0);
    } else {
      var k :| 0 <= k < |items| && Reached(items[k], page, scrollY);
      ReachedItemMakesActive(items, page, scrollY, k);
    }
  }

  /** Some section is active as soon as any item is reached. */
  lemma {:induction false} ReachedItemMakesActive(items: seq<NavItem>, page: Page, scrollY: int, k: nat)
    requires NonEmptyHrefs(items)
    requires k < |items| && Reached(items[k], page, scrollY)
    ensures LastReached(items, page, scrollY) != ""
    decreases |items|
  {
    var last := |items| - 1;
    if Reached(items[last], page, scrollY) {
      assert items[last].href != "";
    } else {
      assert k < last;
      var prefix := items[..last];
      assert prefix[k] == items[k];
      assert NonEmptyHrefs(prefix) by {
        forall j | 0 <= j < |prefix| ensures prefix[j].href != "" {
          assert prefix[j] == items[j];
        }
      }
      ReachedItemMakesActive(prefix, page, scrollY, k);
    }
  }

  /** A section that is not on the page never becomes active. */
  lemma AbsentSectionNeverActive(items: seq<NavItem>, page: Page, scrollY: int, k: nat)
    requires DistinctHrefs(items) && NonEmptyHrefs(items)
    requires k < |items| && HrefToId(items[k].href) !in page
    ensures LastReached(items, page, scrollY) != items[k].href
  {
    var j := LastReachedIsReached(items, page, scrollY);
    if LastReached(items, page, scrollY) != "" {
      assert j != k;
      assert items[j].href != items[k].href;
    }
  }

  /**
   * At `scrollY == offsetTop - 80` a section becomes active when the sections
   * after it start further down; one pixel earlier the choice is made among
   * the items before it.
   */
  lemma ActivatesAtBoundary(items: seq<NavItem>, page: Page, k: nat)
    requires k < |items| && HrefToId(items[k].href) in page
    requires forall j :: k < j < |items| && HrefToId(items[j].href) in page ==>
               page[HrefToId(items[j].href)] > page[HrefToId(items[k].href)]
    ensures LastReached(items, page, page[HrefToId(items[k].href)] - HeaderAllowance) == items[k].href
    ensures LastReached(items, page, page[HrefToId(items[k].href)] - HeaderAllowance - 1)
         == LastReached(items[..k], page, page[HrefToId(items[k].href)] - HeaderAllowance - 1)
  {
    var y := page[HrefToId(items[k].href)] - HeaderAllowance;
    LastReachedIsActive(items, page, y, k);
    UnreachedSuffixIgnored(items, page, y - 1, k);
  }

  /**
   * One pixel before the boundary, the section is not active (hrefs being
   * distinct and non-empty), wherever the other sections start.
   */
  lemma NotActiveBeforeBoundary(items: seq<NavItem>, page: Page, k: nat)
    requires DistinctHrefs(items) && NonEmptyHrefs(items)
    requires k < |items| && HrefToId(items[k].href) in page
    ensures LastReached(items, page, page[HrefToId(items[k].href)] - HeaderAllowance - 1) != items[k].href
  {
    var y := page[HrefToId(items[k].href)] - HeaderAllowance - 1;
    assert !Reached(items[k], page, y);
    var j := LastReachedIsReached(items, page, y);
    if LastReached(items, page, y) == "" {
      assert items[k].href != "";
    } else {
      assert j != k;
      assert items[j].href != items[k].href;
    }
  }

  /** The site's own navigation list has non-empty, pairwise distinct hrefs. */
  lemma NavItemsWellFormed()
    ensures DistinctHrefs(NavItems) && NonEmptyHrefs(NavItems)
  {
  }

  /**
   * The page as rendered: its sections carry the ids `about`, `projects`,
   * `testimonials` and `contact`; the experience section has no id.
   */
  const RenderedIds: set<string> := {"about", "projects", "testimonials", "contact"}

  /** As rendered, the "Experience" entry is never the active section, at any scroll position. */
  lemma ExperienceNeverActive(page: Page, scrollY: int)
    requires page.Keys == RenderedIds
    ensures LastReached(NavItems, page, scrollY) != "#experience"
  {
    NavIds();
    NavItemsWellFormed();
    AbsentSectionNeverActive(NavItems, page, scrollY, 1);
  }

  /**
   * With the experience section tagged `id="experience"` and placed between
   * the about and projects sections, its entry becomes active at its boundary
   * and not one pixel earlier.
   */
  lemma TaggedExperienceActivates(page: Page)
    requires page.Keys == RenderedIds + {"experience"}
    requires page["experience"] < page["projects"] < page["testimonials"] < page["contact"]
    ensures LastReached(NavItems, page, page["experience"] - HeaderAllowance) == "#experience"
    ensures LastReached(NavItems, page, page["experience"] - HeaderAllowance - 1) != "#experience"
  {
    NavIds();
    NavItemsWellFormed();
    assert forall j :: 1 < j < |NavItems| && HrefToId(NavItems[j].href) in page ==>
             page[HrefToId(NavItems[j].href)] > page[HrefToId(NavItems[1].href)];
    ActivatesAtBoundary(NavItems, page, 1);
    NotActiveBeforeBoundary(NavItems, page, 1);
  }

  /** The active section is always "" or one of the five navigation hrefs. */
  lemma ActiveSectionIsNavTarget(page: Page, scrollY: int)
    ensures LastReached(NavItems, page, scrollY) in {"", "#about", "#experience", "#projects", "#testimonials", "#contact"}
  {
    var j := LastReachedIsReached(NavItems, page, scrollY);
  }

  /** `document.body.style.overflow` for a given lock state. */
  function LockStyle(lock: bool): string
  {
    if lock then "hidden" else ""
  }

  /** The navigation bar's state cells, together with the body style its scroll lock writes. */
  class NavbarState {
    var isOpen: bool
    var scrolled: bool
    var activeSection: string
    /** `document.body.style.overflow`, owned by `useLockBodyScroll` while mounted. */
    var bodyOverflow: string

    ghost predicate Valid()
      reads this
    {
      bodyOverflow == LockStyle(isOpen)
    }

    /** Mounting: the menu starts closed, the lock effect runs, and `handleScroll` runs once. */
    constructor (page: Page, scrollY: int)
      ensures Valid() && !isOpen && bodyOverflow == ""
      ensures scrolled == (scrollY > ScrolledThreshold)
      ensures activeSection == LastReached(NavItems, page, scrollY)
    {
      var current := ScanActiveSection(NavItems, page, scrollY);
      isOpen := false;
      bodyOverflow := LockStyle(false);
      scrolled := scrollY > ScrolledThreshold;
      activeSection := current;
    }

    /** `handleScroll` */
    method HandleScroll(page: Page, scrollY: int)
      requires Valid()
      modifies this`scrolled, this`activeSection
      ensures Valid()
      ensures scrolled == (scrollY > ScrolledThreshold)
      ensures activeSection == LastReached(NavItems, page, scrollY)
    {
      scrolled := scrollY > ScrolledThreshold;
      activeSection := ScanActiveSection(NavItems, page, scrollY);
    }

    /** `useLockBodyScroll(isOpen)`: the effect re-runs whenever the menu state changes. */
    method ApplyScrollLock()
      modifies this`bodyOverflow
      ensures Valid()
    {
      bodyOverflow := LockStyle(isOpen);
    }

    /** The hamburger button: `setIsOpen(!isOpen)`. */
    method ToggleMenu()
      requires Valid()
      modifies this`isOpen, this`bodyOverflow
      ensures Valid()
      ensures isOpen == !old(isOpen)
      ensures bodyOverflow == (if isOpen then "hidden" else "")
    {
      isOpen := !isOpen;
      ApplyScrollLock();
    }

    /** A `hashchange` event: the listener exists only while the menu is open, and closes it. */
    method HashChange()
      requires Valid()
      modifies this`isOpen, this`bodyOverflow
      ensures Valid() && !isOpen && bodyOverflow == ""
      ensures !old(isOpen) ==> bodyOverflow == old(bodyOverflow)
    {
      if isOpen {
        isOpen := false;
        ApplyScrollLock();
      }
    }

    /**
     * A mobile menu entry: closes the menu and yields the id of the element
     * that the delayed `scrollIntoView` is aimed at.
     */
    method ScrollToSection(href: string) returns (targetId: string)
      requires Valid()
      modifies this`isOpen, this`bodyOverflow
      ensures Valid() && !isOpen && bodyOverflow == ""
      ensures targetId == HrefToId(href)
    {
      isOpen := false;
      ApplyScrollLock();
      targetId := HrefToId(href);
    }

    /** Unmounting: the lock effect's cleanup releases the page's scrolling. */
    method Unmount()
      modifies this`bodyOverflow
      ensures bodyOverflow == ""
    {
      bodyOverflow := "";
    }
  }
}
