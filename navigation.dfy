/**
 * The navigation bar of the portfolio page: the registry of section links,
 * the scroll-spy that decides which section is highlighted, the "scrolled"
 * flag that styles the bar, and the mobile menu's open flag.
 *
 * The browser is abstracted away: where the handler looks an element up by id
 * and reads its bounding rectangle, the model receives `tops`, indexed like the
 * link registry, holding `None` for an element that is not in the document and
 * `Some(top)` for the top edge of one that is.
 */
module Navigation {
  import opened Wrappers

  /** One entry of the link registry: the label shown and the in-page anchor. */
  datatype NavLink = NavLink(name: string, href: string)

  /** The registry of sections, top of the page first. */
  const NavLinks: seq<NavLink> := [
    NavLink("Home", "#home"),
    NavLink("About", "#about"),
    NavLink("Skills", "#skills"),
    NavLink("Projects", "#projects"),
    NavLink("Experience", "#experience"),
    NavLink("Achievements", "#achievements"),
    NavLink("Contact", "#contact")
  ]

  /** The anchors the registry yields, in registry order. */
  const Anchors: seq<string> :=
    ["home", "about", "skills", "projects", "experience", "achievements", "contact"]

  /** A section whose top edge is at most this many pixels below the viewport top may become active. */
  const ActiveThreshold: int := 100

  /** The bar counts as scrolled once the page is scrolled strictly further than this. */
  const ScrolledThreshold: int := 50

  /** The id an `href` points at: the href without its first character (`slice(1)`). */
  function AnchorId(href: string): (id: string)
    ensures |href| > 0 ==> href == [href[0]] + id
    ensures |href| == 0 ==> id == ""
  {
    if |href| == 0 then "" else href[1..]
  }

  /** The anchor ids of a list of links, in the same order (`navLinks.map(...)`). */
  function SectionIds(links: seq<NavLink>): (ids: seq<string>)
    ensures |ids| == |links|
    ensures forall i :: 0 <= i < |links| ==> ids[i] == AnchorId(links[i].href)
  {
    if links == [] then [] else [AnchorId(links[0].href)] + SectionIds(links[1..])
  }

  /** The sequence in reverse order (`Array.prototype.reverse` on a fresh array). */
  function Reverse<T>(s: seq<T>): (r: seq<T>)
    ensures |r| == |s|
  {
    if s == [] then [] else Reverse(s[1..]) + [s[0]]
  }

  lemma {:induction false} ReverseAt<T>(s: seq<T>, k: nat)
    requires k < |s|
    ensures Reverse(s)[k] == s[|s| - 1 - k]
  {
    if k < |s| - 1 {
      ReverseAt(s[1..], k);
    }
  }

  /** The registry yields exactly `Anchors`. */
  lemma RegistryAnchors()
    ensures SectionIds(NavLinks) == Anchors
  {
  }

  /** Every href is its anchor with a leading `#`. */
  lemma RegistryHrefs()
    ensures forall i :: 0 <= i < |NavLinks| ==> NavLinks[i].href == "#" + Anchors[i]
  {
  }

  /** No two registered sections share an anchor. */
  lemma AnchorsDistinct()
    ensures forall i, j :: 0 <= i < j < |Anchors| ==> Anchors[i] != Anchors[j]
  {
  }

  /** An anchor whose element exists and whose top edge is at or above the threshold. */
  predicate Qualifies(top: Option<int>)
  {
    top.Some? && top.value <= ActiveThreshold
  }

  /**
   * The largest index whose anchor qualifies, or `None` when none does: what a
   * scan from the last anchor towards the first, stopping at the first hit, finds.
   */
  function LastQualifying(tops: seq<Option<int>>): (r: Option<nat>)
    ensures r.Some? ==> r.value < |tops| && Qualifies(tops[r.value])
    ensures r.Some? ==> forall j :: r.value < j < |tops| ==> !Qualifies(tops[j])
    ensures r.None? ==> forall j :: 0 <= j < |tops| ==> !Qualifies(tops[j])
  {
    if tops == [] then None
    else if Qualifies(tops[|tops| - 1]) then Some(|tops| - 1)
    else LastQualifying(tops[..|tops| - 1])
  }

  /** The last qualifying index is the only index with the properties the scan promises. */
  lemma LastQualifyingUnique(tops: seq<Option<int>>, i: nat)
    requires i < |tops| && Qualifies(tops[i])
    requires forall j :: i < j < |tops| ==> !Qualifies(tops[j])
    ensures LastQualifying(tops) == Some(i)
  {
  }

  /** The active section after one scroll event, given the one before it. */
  function NextActive(current: string, tops: seq<Option<int>>): (r: string)
    requires |tops| == |NavLinks|
    ensures r == current || r in Anchors
    ensures (exists j :: 0 <= j < |tops| && Qualifies(tops[j])) ==> r in Anchors
  {
    match LastQualifying(tops)
    case Some(i) => Anchors[i]
    case None => current
  }

  /** A registered active section stays registered after a scroll event. */
  lemma NextActiveRegistered(current: string, tops: seq<Option<int>>)
    requires |tops| == |NavLinks|
    requires current in Anchors
    ensures NextActive(current, tops) in Anchors
  {
  }

  /**
   * The section at registry index `i` becomes active exactly when it qualifies
   * and no later section does, or when nothing qualifies and it was active already.
   */
  lemma {:induction false} NextActiveIs(current: string, tops: seq<Option<int>>, i: nat)
    requires |tops| == |NavLinks| && i < |Anchors|
    ensures NextActive(current, tops) == Anchors[i] <==>
      (Qualifies(tops[i]) && forall j :: i < j < |tops| ==> !Qualifies(tops[j])) ||
      ((forall j :: 0 <= j < |tops| ==> !Qualifies(tops[j])) && current == Anchors[i])
  {
    AnchorsDistinct();
    if Qualifies(tops[i]) && forall j :: i < j < |tops| ==> !Qualifies(tops[j]) {
      LastQualifyingUnique(tops, i);
    }
  }

  /** When no section qualifies (all missing or all below the threshold), the active section is kept. */
  lemma NextActiveKeeps(current: string, tops: seq<Option<int>>)
    requires |tops| == |NavLinks|
    requires forall j :: 0 <= j < |tops| ==> !Qualifies(tops[j])
    ensures NextActive(current, tops) == current
  {
  }

  /** A section whose element is missing does not become active during that pass. */
  lemma MissingNeverSelected(current: string, tops: seq<Option<int>>, i: nat)
    requires |tops| == |NavLinks| && i < |tops|
    requires tops[i].None?
    requires current != Anchors[i]
    ensures NextActive(current, tops) != Anchors[i]
  {
    NextActiveIs(current, tops, i);
  }

  /** With "about" at 50 px and "skills" at 500 px, the scan from the bottom stops at "about". */
  lemma AboutAboveSkillsBelow()
    ensures NextActive("home", [Some(-700), Some(50), Some(500), None, None, None, None]) == "about"
  {
    var tops := [Some(-700), Some(50), Some(500), None, None, None, None];
    LastQualifyingUnique(tops, 1);
  }

  /** The threshold is inclusive: a top edge of exactly 100 qualifies, one of 101 does not. */
  lemma ThresholdInclusive(current: string)
    ensures NextActive(current, [Some(0), Some(0), Some(100), Some(101), None, None, None]) == "skills"
    ensures NextActive(current, [None, None, None, Some(101), None, None, None]) == current
  {
    var tops := [Some(0), Some(0), Some(100), Some(101), None, None, None];
    LastQualifyingUnique(tops, 2);
  }

  /** The active section after a whole series of scroll events, oldest first. */
  function ActiveAfter(current: string, events: seq<seq<Option<int>>>): string
    requires forall e :: e in events ==> |e| == |NavLinks|
    decreases events
  {
    if events == [] then current
    else ActiveAfter(NextActive(current, events[0]), events[1..])
  }

  /** Starting from "home", the active section is a registered anchor after any series of scroll events. */
  lemma {:induction false} ActiveAfterRegistered(current: string, events: seq<seq<Option<int>>>)
    requires forall e :: e in events ==> |e| == |NavLinks|
    requires current in Anchors
    ensures ActiveAfter(current, events) in Anchors
    decreases events
  {
    if events != [] {
      NextActiveRegistered(current, events[0]);
      ActiveAfterRegistered(NextActive(current, events[0]), events[1..]);
    }
  }

  /** A link is highlighted when its anchor is the active section. */
  predicate IsHighlighted(active: string, link: NavLink)
  {
    active == AnchorId(link.href)
  }

  /** While the active section is registered, exactly one link of the registry is highlighted. */
  lemma ExactlyOneHighlighted(active: string)
    requires active in Anchors
    ensures exists i :: 0 <= i < |NavLinks| && IsHighlighted(active, NavLinks[i])
    ensures forall i, j ::
      (0 <= i < |NavLinks| && 0 <= j < |NavLinks| &&
       IsHighlighted(active, NavLinks[i]) && IsHighlighted(active, NavLinks[j])) ==> i == j
  {
    RegistryAnchors();
    AnchorsDistinct();
    var i :| 0 <= i < |Anchors| && Anchors[i] == active;
    assert IsHighlighted(active, NavLinks[i]);
  }

  /** The ids the scroll handler scans: the registry's hrefs without their `#`. */
  method RegisteredSections() returns (ids: seq<string>)
    ensures ids == Anchors
  {
    ids := SectionIds(NavLinks);
    RegistryAnchors();
  }

  /** The state cells of one navigation bar. */
  class NavigationState {
    var isScrolled: bool
    var isMobileMenuOpen: bool
    var activeSection: string

    /** The active section is always one of the registered anchors. */
    ghost predicate Valid()
      reads this
    {
      activeSection in Anchors
    }

    constructor ()
      ensures Valid()
      ensures !isScrolled && !isMobileMenuOpen && activeSection == "home"
    {
      isScrolled := false;
      isMobileMenuOpen := false;
      activeSection := "home";
    }

    /**
     * The scroll handler: set the scrolled flag, then scan the anchors from
     * the last to the first and make the first one found at or above the
     * threshold active, keeping the previous section when none is.
     */
    method HandleScroll(tops: seq<Option<int>>, scrollY: int)
      requires Valid()
      requires |tops| == |NavLinks|
      modifies this`isScrolled, this`activeSection
      ensures Valid()
      ensures isScrolled == (scrollY > ScrolledThreshold)
      ensures activeSection == NextActive(old(activeSection), tops)
      ensures isMobileMenuOpen == old(isMobileMenuOpen)
    {
      isScrolled := scrollY > ScrolledThreshold;

      var sections := RegisteredSections();
      var order := Reverse(sections);
      var n := |order|;
      var k := 0;
      while k < n
        invariant 0 <= k <= n
        invariant isScrolled == (scrollY > ScrolledThreshold)
        invariant activeSection == old(activeSection)
        invariant forall j :: n - k <= j < n ==> !Qualifies(tops[j])
        invariant n == |sections| == |tops| && sections == Anchors
      {
        var i := n - 1 - k;  // registry index of order[k]
        ReverseAt(sections, k);
        var top := tops[i];
        if top.Some? {
          if top.value <= ActiveThreshold {
            activeSection := order[k];
            LastQualifyingUnique(tops, i);
            break;
          }
        }
        k := k + 1;
      }
      if k == n {
        NextActiveKeeps(old(activeSection), tops);
      }
    }

    /**
     * Clicking a link: the page scrolls to the target when the document has
     * an element with the href's id (`present` holds the ids the document
     * has; `scrolled` reports whether it scrolled), and the mobile menu
     * closes either way.
     */
    method ScrollToSection(href: string, present: set<string>) returns (scrolled: bool)
      modifies this`isMobileMenuOpen
      ensures scrolled <==> AnchorId(href) in present
      ensures !isMobileMenuOpen
    {
      var id := AnchorId(href);
      scrolled := false;
      if id in present {
        scrolled := true;
      }
      isMobileMenuOpen := false;
    }

    /** The menu button flips the mobile menu's open flag. */
    method ToggleMobileMenu()
      modifies this`isMobileMenuOpen
      ensures isMobileMenuOpen == !old(isMobileMenuOpen)
    {
      isMobileMenuOpen := !isMobileMenuOpen;
    }
  }
}
