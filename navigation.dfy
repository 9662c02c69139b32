/** `updateActiveNavLink`: find the section whose adjusted vertical range
    holds the scroll offset, the last one in document order winning, and
    mark exactly the links that point at it. */
module Navigation {
  import opened Wrappers

  /** The look-ahead subtracted from every section's top, in pixels. */
  const Lookahead := 100

  /** A `section[id]` element: its id, `offsetTop` and `offsetHeight`. */
  datatype Section = Section(id: string, offsetTop: int, offsetHeight: int)

  /** `document.querySelector('.navbar')?.offsetHeight || 0` */
  function NavbarHeight(navbar: Option<nat>): nat
  {
    match navbar
    case None => 0
    case Some(height) => height
  }

  /** The scroll offset lies in the section's range shifted up by the
      navbar height and the look-ahead. */
  predicate Contains(s: Section, navbarHeight: int, scrollY: int)
  {
    var top := s.offsetTop - navbarHeight - Lookahead;
    top <= scrollY < top + s.offsetHeight
  }

  /** The index of the last section that contains the offset, if any. */
  function LastMatch(sections: seq<Section>, navbarHeight: int, scrollY: int): (r: Option<nat>)
    ensures r.Some? ==>
      && r.value < |sections| && Contains(sections[r.value], navbarHeight, scrollY)
      && forall j :: r.value < j < |sections| ==> !Contains(sections[j], navbarHeight, scrollY)
    ensures r.None? ==> forall j :: 0 <= j < |sections| ==> !Contains(sections[j], navbarHeight, scrollY)
  {
    if sections == [] then None
    else if Contains(sections[|sections| - 1], navbarHeight, scrollY) then Some(|sections| - 1)
    else LastMatch(sections[..|sections| - 1], navbarHeight, scrollY)
  }

  /** The id `currentSection` ends with: that of the last containing section,
      or `''` when there is none. */
  function CurrentSection(sections: seq<Section>, navbarHeight: int, scrollY: int): string
  {
    match LastMatch(sections, navbarHeight, scrollY)
    case None => ""
    case Some(i) => sections[i].id
  }

  /** `classList.toggle('active', href === '#' + currentSection)` */
  predicate LinkActive(href: string, current: string)
  {
    href == "#" + current
  }

  /** The first loop of `updateActiveNavLink`: every containing section
      overwrites `currentSection`, so the last one wins. */
  method FindCurrentSection(sections: seq<Section>, navbar: Option<nat>, scrollY: int) returns (current: string)
    ensures current == CurrentSection(sections, NavbarHeight(navbar), scrollY)
  {
    var navbarHeight := NavbarHeight(navbar);
    current := "";
    for k := 0 to |sections|
      invariant current == CurrentSection(sections[..k], navbarHeight, scrollY)
    {
      var section := sections[k];
      assert sections[..k + 1][..k] == sections[..k];
      if section.offsetTop - navbarHeight - Lookahead <= scrollY < section.offsetTop - navbarHeight - Lookahead + section.offsetHeight {
        current := section.id;
      }
    }
    assert sections[..|sections|] == sections;
  }

  /** A navigation link and its `active` class. */
  class NavLink {
    const href: string
    var active: bool

    constructor (href: string)
      ensures this.href == href && !active
    {
      this.href := href;
      active := false;
    }
  }

  /** `updateActiveNavLink`: compute `currentSection`, then set each link's
      `active` class exactly when its href names it, clearing all others. */
  method UpdateActiveNavLink(sections: seq<Section>, navbar: Option<nat>, scrollY: int, links: seq<NavLink>)
    returns (current: string)
    modifies set k | 0 <= k < |links| :: links[k]
    ensures current == CurrentSection(sections, NavbarHeight(navbar), scrollY)
    ensures forall k :: 0 <= k < |links| ==> links[k].active == LinkActive(links[k].href, current)
  {
    current := FindCurrentSection(sections, navbar, scrollY);
    for k := 0 to |links|
      invariant forall j :: 0 <= j < k ==> links[j].active == LinkActive(links[j].href, current)
    {
      links[k].active := links[k].href == "#" + current;
    }
  }

  /** When the adjusted ranges do not overlap, the section holding the
      offset is the current one, wherever it stands in the list. */
  lemma DisjointRangesSelect(sections: seq<Section>, navbarHeight: int, scrollY: int, k: nat)
    requires k < |sections| && Contains(sections[k], navbarHeight, scrollY)
    requires forall i, j :: 0 <= i < j < |sections| ==>
      sections[i].offsetTop + sections[i].offsetHeight <= sections[j].offsetTop
    ensures CurrentSection(sections, navbarHeight, scrollY) == sections[k].id
  {
  }

  /** When no two links share an href, an active link is the only active one. */
  lemma OnlyOneActive(hrefs: seq<string>, current: string, i: nat)
    requires i < |hrefs| && LinkActive(hrefs[i], current)
    requires forall a, b :: 0 <= a < b < |hrefs| ==> hrefs[a] != hrefs[b]
    ensures forall j :: 0 <= j < |hrefs| && j != i ==> !LinkActive(hrefs[j], current)
  {
  }

  /** As written, a bare `#` link turns active whenever no section holds
      the offset, because `currentSection` is then `''`. */
  lemma NoMatchActivatesBareHash(sections: seq<Section>, navbarHeight: int, scrollY: int)
    requires forall j :: 0 <= j < |sections| ==> !Contains(sections[j], navbarHeight, scrollY)
    ensures CurrentSection(sections, navbarHeight, scrollY) == ""
    ensures LinkActive("#", CurrentSection(sections, navbarHeight, scrollY))
  {
  }

  /** Three stacked sections, the offset inside the second one's adjusted
      range: only the link to the second section is active. */
  method ThreeSectionsRun() returns (current: string, active: seq<bool>)
    ensures current == "about"
    ensures active == [false, true, false]
  {
    var sections := [Section("home", 0, 500), Section("about", 500, 400), Section("contact", 900, 600)];
    var a := new NavLink("#home");
    var b := new NavLink("#about");
    var c := new NavLink("#contact");
    // Navbar 56 px high: the second section's adjusted range is [344, 744).
    DisjointRangesSelect(sections, 56, 400, 1);
    var links := [a, b, c];
    current := UpdateActiveNavLink(sections, Some(56), 400, links);
    assert current == "about";
    assert links[0] == a && links[1] == b && links[2] == c;
    assert "#" + current == "#about";
    assert "#home"[1] != "#about"[1] && |"#contact"| != |"#about"|;
    assert !a.active && b.active && !c.active;
    active := [a.active, b.active, c.active];
  }
}
