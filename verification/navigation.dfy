/**
 * Navigation (script.js, lines 6-26, 135-146 and 204-209): the `active` class
 * of the hamburger button and of the navigation menu, the header's look as the
 * page scrolls, and the scroll target of `scrollToSection`.
 */
module Navigation {
  import opened Wrappers

  /** The element a click on the menu lands on: its tag name and `href` attribute, if any. */
  datatype ClickTarget = ClickTarget(tagName: string, href: Option<string>)

  /** `href.startsWith('#')` */
  predicate StartsWithHash(href: string) {
    |href| > 0 && href[0] == '#'
  }

  /** The `active` class on the hamburger button and on the navigation menu. */
  class NavMenu {
    var hamburgerActive: bool
    var navMenuActive: bool

    /** The two flags agree: the menu is open exactly when the button shows it open. */
    predicate InStep()
      reads this
    {
      hamburgerActive == navMenuActive
    }

    constructor(hamburgerActive: bool, navMenuActive: bool)
      ensures this.hamburgerActive == hamburgerActive && this.navMenuActive == navMenuActive
    {
      this.hamburgerActive := hamburgerActive;
      this.navMenuActive := navMenuActive;
    }

    /** A click on the hamburger (lines 6-9) toggles both classes. */
    method ClickHamburger()
      modifies this
      ensures hamburgerActive == !old(hamburgerActive) && navMenuActive == !old(navMenuActive)
      ensures InStep() <==> old(InStep())
    {
      hamburgerActive := !hamburgerActive;
      navMenuActive := !navMenuActive;
    }

    /**
     * A click inside the menu (lines 11-16): a link whose `href` starts with `#`
     * closes the menu. A link without an `href` makes `getAttribute` return null,
     * and the call on it throws: the handler stops with nothing changed.
     */
    method ClickNavMenu(target: ClickTarget) returns (threw: bool)
      modifies this
      ensures threw <==> target.tagName == "A" && target.href.None?
      ensures var closes := target.tagName == "A" && target.href.Some? && StartsWithHash(target.href.value);
        (closes ==> !hamburgerActive && !navMenuActive) &&
        (!closes ==> hamburgerActive == old(hamburgerActive) && navMenuActive == old(navMenuActive))
      ensures old(InStep()) ==> InStep()
    {
      threw := false;
      if target.tagName == "A" {
        match target.href
        case None =>
          threw := true;
        case Some(href) =>
          if StartsWithHash(href) {
            hamburgerActive := false;
            navMenuActive := false;
          }
      }
    }

    /** A key press (lines 204-209): Escape closes the menu, so pressing it again changes nothing. */
    method KeyDown(key: string)
      modifies this
      ensures key == "Escape" ==> !hamburgerActive && !navMenuActive
      ensures key != "Escape" ==> hamburgerActive == old(hamburgerActive) && navMenuActive == old(navMenuActive)
      ensures old(InStep()) ==> InStep()
    {
      if key == "Escape" {
        hamburgerActive := false;
        navMenuActive := false;
      }
    }
  }

  /** The inline background and box shadow the scroll handler gives the header. */
  datatype HeaderStyle = HeaderStyle(background: string, boxShadow: string)

  const ScrolledStyle := HeaderStyle("rgba(255, 255, 255, 0.98)", "0 2px 20px rgba(0, 0, 0, 0.1)")
  const TopStyle := HeaderStyle("rgba(255, 255, 255, 0.95)", "none")

  /** The header's look at vertical scroll offset `scrollY` (lines 19-25). */
  function HeaderStyleAt(scrollY: real): (h: HeaderStyle)
    ensures h == ScrolledStyle || h == TopStyle
    ensures h.boxShadow != "none" <==> scrollY > 100.0
  {
    if scrollY > 100.0 then ScrolledStyle else TopStyle
  }

  class Header {
    var style: HeaderStyle

    constructor(style: HeaderStyle)
      ensures this.style == style
    {
      this.style := style;
    }

    /** The scroll handler (lines 18-26). */
    method OnScroll(scrollY: real)
      modifies this
      ensures style == HeaderStyleAt(scrollY)
    {
      if scrollY > 100.0 {
        style := ScrolledStyle;
      } else {
        style := TopStyle;
      }
    }
  }

  /** The gap left between the bottom of the fixed header and a section scrolled to, in px. */
  const SectionGap: int := 20

  /**
   * `scrollToSection` (lines 135-146): the vertical offset scrolled to, given the
   * page's sections by id with their `offsetTop`, or `None` (no scroll) when no
   * element has the id.
   */
  function ScrollToSection(sections: map<string, int>, sectionId: string, headerHeight: int)
    : (top: Option<int>)
    ensures top.None? <==> sectionId !in sections
    ensures top.Some? ==> sections[sectionId] - top.value == headerHeight + SectionGap
  {
    if sectionId in sections then Some(sections[sectionId] - headerHeight - SectionGap) else None
  }
}
