/** The navigation controller (`initNav`): the dropdown's `open` flag, the
    hamburger and mobile panel's `open` flags, and the `active` marks on the
    navigation links. */
module Navigation {
  import opened ActiveLink

  /** Where a click lands, as far as the navigation handlers can tell. */
  datatype ClickTarget =
    | DropdownToggle  // the `.dropdown-toggle` button
    | DropdownMenu    // inside the `.dropdown-menu`
    | HamburgerButton // the `.hamburger` button
    | Elsewhere       // anywhere else on the document

  /** The dropdown's `open` flag after a click. The toggle's handler flips it and
      stops the click from bubbling; the menu's handler only stops bubbling; every
      other click reaches the document handler, which closes the dropdown. No
      handler exists at all when the dropdown has no toggle. */
  function DropdownAfter(open: bool, hasToggle: bool, hasMenu: bool, target: ClickTarget): (r: bool)
    ensures !hasToggle ==> r == open
    ensures hasToggle && target == DropdownToggle ==> r == !open
    ensures hasToggle && target == DropdownMenu && hasMenu ==> r == open
    ensures hasToggle && r ==> target == DropdownToggle || (target == DropdownMenu && hasMenu && open)
  {
    if !hasToggle then open
    else match target
      case DropdownToggle => !open
      case DropdownMenu => if hasMenu then open else false
      case _ => false
  }

  /** Any click that is neither on the toggle nor inside the menu closes the dropdown. */
  lemma OutsideClickCloses(open: bool, hasMenu: bool, target: ClickTarget)
    requires target != DropdownToggle && target != DropdownMenu
    ensures !DropdownAfter(open, true, hasMenu, target)
  {
  }

  /** The link marks after `initNav`'s marking pass on location path `path`:
      marks are only ever added. */
  function MarkedLinks(active: seq<bool>, hrefs: seq<Href>, path: string): (r: seq<bool>)
    requires |hrefs| == |active|
    ensures |r| == |active|
    ensures forall i :: 0 <= i < |r| ==> (r[i] <==> active[i] || IsActiveLink(hrefs[i], path))
  {
    seq(|active|, i requires 0 <= i < |active| => active[i] || IsActiveLink(hrefs[i], path))
  }

  class Nav {
    /** A `.nav-dropdown` with a `.dropdown-toggle` inside it. */
    const hasToggle: bool
    /** A `.dropdown-menu` inside the dropdown. */
    const hasMenu: bool
    /** Both a `.hamburger` and a `.mobile-nav` exist. */
    const hasHamburger: bool
    var dropdownOpen: bool
    var hamburgerOpen: bool
    var mobileNavOpen: bool
    /** The `href` attribute of each `.nav-links a` and `.mobile-nav a`. */
    const hrefs: seq<Href>
    /** The `active` class of each of those links. */
    const linkActive: array<bool>

    ghost predicate Valid()
      reads this
    {
      |hrefs| == linkActive.Length
    }

    /** `initNav` at location path `path`: register the handlers and mark the links
        whose `href` contains the current page name. */
    constructor (path: string, toggle: bool, menu: bool, hamburger: bool,
                 links: seq<Href>, marked: seq<bool>,
                 dropdown0: bool, hamburger0: bool, mobileNav0: bool)
      requires |marked| == |links|
      ensures Valid() && fresh(linkActive)
      ensures hasToggle == toggle && hasMenu == menu && hasHamburger == hamburger && hrefs == links
      ensures dropdownOpen == dropdown0 && hamburgerOpen == hamburger0 && mobileNavOpen == mobileNav0
      ensures linkActive[..] == MarkedLinks(marked, links, path)
    {
      hasToggle, hasMenu, hasHamburger := toggle, menu, hamburger;
      dropdownOpen, hamburgerOpen, mobileNavOpen := dropdown0, hamburger0, mobileNav0;
      hrefs := links;
      linkActive := new bool[|marked|](i requires 0 <= i < |marked| => marked[i]);
      new;
      MarkActiveLinks(path);
    }

    /** The marking pass: add `active` to every link whose `href` is non-empty
        and contains the page name; remove it from none. */
    method MarkActiveLinks(path: string)
      requires Valid()
      modifies linkActive
      ensures linkActive[..] == MarkedLinks(old(linkActive[..]), hrefs, path)
    {
      var page := CurrentPage(path);
      for i := 0 to linkActive.Length
        invariant forall j :: 0 <= j < i ==> linkActive[j] == (old(linkActive[j]) || Matches(hrefs[j], page))
        invariant forall j :: i <= j < linkActive.Length ==> linkActive[j] == old(linkActive[j])
      {
        if Matches(hrefs[i], page) {
          linkActive[i] := true;
        }
      }
    }

    /** A click anywhere on the page. */
    method Click(target: ClickTarget)
      modifies this
      ensures dropdownOpen == DropdownAfter(old(dropdownOpen), hasToggle, hasMenu, target)
      ensures target == HamburgerButton && hasHamburger ==>
                hamburgerOpen == !old(hamburgerOpen) && mobileNavOpen == !old(mobileNavOpen)
      ensures !(target == HamburgerButton && hasHamburger) ==>
                hamburgerOpen == old(hamburgerOpen) && mobileNavOpen == old(mobileNavOpen)
      ensures old(hamburgerOpen == mobileNavOpen) ==> hamburgerOpen == mobileNavOpen
    {
      if target == HamburgerButton && hasHamburger {
        hamburgerOpen := !hamburgerOpen;
        mobileNavOpen := !mobileNavOpen;
      }
      if hasToggle {
        match target
        case DropdownToggle =>
          dropdownOpen := !dropdownOpen;
        case DropdownMenu =>
          if !hasMenu { dropdownOpen := false; }
        case _ =>
          dropdownOpen := false;
      }
    }
  }
}
