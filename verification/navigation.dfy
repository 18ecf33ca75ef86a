/**
 Navigation chrome: the navbar's `scrolled` flag, the scroll target of an
 in-page anchor, and the mobile menu (hamburger toggle, outside-click close,
 close after following a nav link), combined in the order a click bubbles.
 */
module Navigation {
  import opened Options
  import ActiveLinks

  /** Scroll offset beyond which the navbar carries `scrolled`. */
  const ScrolledThreshold := 100

  /** Height of the fixed navbar, kept clear above a section scrolled to. */
  const NavbarHeight := 80

  /** `window.pageYOffset || document.documentElement.scrollTop`: the first
      unless it is zero. */
  function ScrollTop(pageYOffset: int, rootScrollTop: int): (r: int)
    ensures pageYOffset != 0 ==> r == pageYOffset
    ensures pageYOffset == 0 ==> r == rootScrollTop
  {
    if pageYOffset != 0 then pageYOffset else rootScrollTop
  }

  /** The navbar's `scrolled` class after a scroll event; the previous value
      plays no part. */
  function OnScroll(scrolled: bool, pageYOffset: int, rootScrollTop: int): (r: bool)
    ensures r <==> ScrollTop(pageYOffset, rootScrollTop) > ScrolledThreshold
  {
    ScrollTop(pageYOffset, rootScrollTop) > ScrolledThreshold
  }

  /** The flag has no memory: any two previous states give the same result. */
  lemma OnScrollMemoryless(a: bool, b: bool, pageYOffset: int, rootScrollTop: int)
    ensures OnScroll(a, pageYOffset, rootScrollTop) == OnScroll(b, pageYOffset, rootScrollTop)
  {
  }

  /** Scrolling further down never removes `scrolled`. */
  lemma ScrolledMonotone(a: bool, b: bool, y0: int, r0: int, y1: int, r1: int)
    requires ScrollTop(y0, r0) <= ScrollTop(y1, r1)
    requires OnScroll(a, y0, r0)
    ensures OnScroll(b, y1, r1)
  {
  }

  /** While `pageYOffset` is non-zero, the root element's `scrollTop` plays no part. */
  lemma PageOffsetHidesRoot(a: bool, pageYOffset: int, r0: int, r1: int)
    requires pageYOffset != 0
    ensures OnScroll(a, pageYOffset, r0) == OnScroll(a, pageYOffset, r1)
  {
  }

  /** The page's sections: the `offsetTop` of the first element carrying each id. */
  datatype Page = Page(sectionTop: map<string, int>)

  predicate StartsWithHash(href: string) {
    |href| > 0 && href[0] == '#'
  }

  /** `document.querySelector(href)` for an in-page href "#id": the offset of
      the element with that id, or None when there is none. */
  function Resolve(page: Page, href: string): (r: Option<int>)
    ensures r.Some? <==> StartsWithHash(href) && href[1..] in page.sectionTop
    ensures r.Some? ==> r.value == page.sectionTop[href[1..]]
  {
    if StartsWithHash(href) && href[1..] in page.sectionTop then Some(page.sectionTop[href[1..]]) else None
  }

  /** Where following `href` scrolls the window: the target's top less the
      navbar height; None, and no scrolling, when the target is missing. */
  function ScrollTarget(page: Page, href: string): (r: Option<int>)
    ensures r.Some? <==> Resolve(page, href).Some?
    ensures r.Some? ==> r.value + NavbarHeight == Resolve(page, href).value
  {
    match Resolve(page, href)
    case Some(top) => Some(top - NavbarHeight)
    case None => None
  }

  /** The href that a nav link carries for a section scrolls exactly when
      the section exists, to 80 pixels above it. */
  lemma ScrollTargetOfAnchor(page: Page, id: string)
    ensures ScrollTarget(page, ActiveLinks.Anchor(id)).Some? <==> id in page.sectionTop
    ensures id in page.sectionTop ==>
              ScrollTarget(page, ActiveLinks.Anchor(id)).value == page.sectionTop[id] - NavbarHeight
  {
  }

  /** Only such hrefs resolve: any href that scrolls is "#" followed by the
      id of a section on the page. */
  lemma OnlyAnchorsResolve(page: Page, href: string)
    requires ScrollTarget(page, href).Some?
    ensures exists id :: id in page.sectionTop && href == ActiveLinks.Anchor(id)
  {
  }

  /** The `active` classes of the hamburger button and of the nav menu. The
      controls as a whole are None when either element is missing from the
      page: then no menu listener exists and closing does nothing. */
  datatype Menu = Menu(hamburgerActive: bool, navMenuActive: bool)

  /** The hamburger's listener: both classes flip. */
  function Toggle(m: Option<Menu>): (r: Option<Menu>)
    ensures r.Some? <==> m.Some?
    ensures m.Some? ==> r.value.hamburgerActive != m.value.hamburgerActive
                        && r.value.navMenuActive != m.value.navMenuActive
  {
    match m
    case Some(Menu(h, n)) => Some(Menu(!h, !n))
    case None => None
  }

  /** `closeMobileMenu`: both classes removed. */
  function Close(m: Option<Menu>): (r: Option<Menu>)
    ensures r.Some? <==> m.Some?
    ensures r.Some? ==> !r.value.hamburgerActive && !r.value.navMenuActive
  {
    match m
    case Some(_) => Some(Menu(false, false))
    case None => None
  }

  /** The two classes agree, as they do on a page that starts with both off. */
  predicate Lockstep(m: Option<Menu>) {
    m.Some? ==> m.value.hamburgerActive == m.value.navMenuActive
  }

  /** Two toggles cancel out. */
  lemma ToggleInvolution(m: Option<Menu>)
    ensures Toggle(Toggle(m)) == m
  {
  }

  /** Closing is idempotent. */
  lemma CloseIdempotent(m: Option<Menu>)
    ensures Close(Close(m)) == Close(m)
  {
  }

  /** Where on the page a click lands, as the menu listeners see it. */
  datatype Region = InHamburger | InNavMenu | Elsewhere

  /** The anchors with a smooth-scroll listener. */
  datatype AnchorKind = NavLinkAnchor | ScrollIndicator | HeroButton

  /** What was clicked: one of those anchors, or anything else. */
  datatype Target = Link(kind: AnchorKind, href: string) | Other

  /** What a click leaves behind: the menu and the scroll command issued, if any. */
  datatype ClickEffect = ClickEffect(menu: Option<Menu>, scrollTo: Option<int>)

  /** The clicked anchor's own listener. Nav links and the scroll indicator
      scroll to a found target and then close the menu. Hero buttons have a
      listener only when their href starts with "#", and it scrolls without
      touching the menu. */
  function AnchorHandler(kind: AnchorKind, href: string, page: Page, m: Option<Menu>): (r: ClickEffect)
    ensures r.scrollTo == ScrollTarget(page, href)
    ensures kind == HeroButton ==> r.menu == m
    ensures kind != HeroButton ==> r.menu == if r.scrollTo.Some? then Close(m) else m
  {
    match kind
    case HeroButton =>
      if StartsWithHash(href) then ClickEffect(m, ScrollTarget(page, href)) else ClickEffect(m, None)
    case _ =>
      match ScrollTarget(page, href)
      case Some(y) => ClickEffect(Close(m), Some(y))
      case None => ClickEffect(m, None)
  }

  /** The listener of the clicked element itself; elements other than the
      listed anchors have none. */
  function OwnListener(m: Option<Menu>, page: Page, target: Target): ClickEffect {
    match target
    case Link(kind, href) => AnchorHandler(kind, href, page, m)
    case Other => ClickEffect(m, None)
  }

  /** A click as it bubbles: the target's own listener, then the hamburger's
      toggle if the click is inside it, then the document's rule that closes
      the menu on a click outside both the hamburger and the menu. */
  function Click(m: Option<Menu>, page: Page, target: Target, region: Region): (r: ClickEffect)
    ensures r.scrollTo == OwnListener(m, page, target).scrollTo
    ensures r.scrollTo.Some? ==> target.Link? && r.scrollTo == ScrollTarget(page, target.href)
    ensures region == InHamburger ==> r.menu == Toggle(OwnListener(m, page, target).menu)
    ensures region == InNavMenu ==> r.menu == OwnListener(m, page, target).menu
    ensures region == Elsewhere ==> r.menu == Close(OwnListener(m, page, target).menu)
  {
    var own := OwnListener(m, page, target);
    var toggled := if region == InHamburger then Toggle(own.menu) else own.menu;
    var menu := if region == Elsewhere then Close(toggled) else toggled;
    ClickEffect(menu, own.scrollTo)
  }

  /** Clicking the hamburger flips the menu. */
  lemma HamburgerClickFlips(m: Menu, page: Page)
    ensures Click(Some(m), page, Other, InHamburger).menu == Some(Menu(!m.hamburgerActive, !m.navMenuActive))
  {
  }

  /** Any click outside the hamburger and the menu leaves the menu closed,
      including a click on a hero button, whose own listener keeps it open. */
  lemma OutsideClickCloses(m: Option<Menu>, page: Page, target: Target)
    ensures var r := Click(m, page, target, Elsewhere).menu;
            (r.Some? <==> m.Some?) && (r.Some? ==> !r.value.hamburgerActive && !r.value.navMenuActive)
  {
  }

  /** Following a nav link inside the menu scrolls to its section and closes
      the menu; when the section is missing, nothing happens at all. */
  lemma NavLinkInMenu(m: Option<Menu>, page: Page, href: string)
    ensures var r := Click(m, page, Link(NavLinkAnchor, href), InNavMenu);
            && r.scrollTo == ScrollTarget(page, href)
            && (Resolve(page, href).Some? ==> r.menu == Close(m))
            && (Resolve(page, href).None? ==> r == ClickEffect(m, None))
  {
  }

  /** Every click keeps the two `active` classes in step. */
  lemma ClickKeepsLockstep(m: Option<Menu>, page: Page, target: Target, region: Region)
    requires Lockstep(m)
    ensures Lockstep(Click(m, page, target, region).menu)
  {
  }
}
