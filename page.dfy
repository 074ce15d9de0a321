/** The page-level state that js/script.js keeps in DOM classes, inline styles and
    the `lastScroll` variable, with one method per event handler. Elements are given
    records: DOM querying, selectors and event bubbling are not modelled, so a click
    that bubbles is delivered as one method call per listener, in the order the
    listeners run. */
module Page {
  import opened Optional
  import MobileMenu
  import ScrollRules
  import Highlight
  import FadeIn
  import Debounce

  class Page {
    // the `active` classes of `.nav-toggle` and `.nav-menu`, and `body.style.overflow == 'hidden'`
    var toggleActive: bool
    var menuActive: bool
    var overflowHidden: bool

    /** `window.pageYOffset`. */
    var scrollY: int

    /** Whether the page has a `.header`; the shadow it carries; `lastScroll`. */
    const hasHeader: bool
    var headerShadow: bool
    var lastScroll: int

    /** The `.hero`'s `offsetHeight`, if there is a hero, and the scroll offset its
        `translateY` was last computed from (the translation is half of it). */
    const heroHeight: Option<nat>
    var parallaxFrom: Option<int>

    /** The `section[id]` elements with their geometry, the hrefs of the `.nav-link`s
        and their `active` classes. The geometry is fixed for the life of the page. */
    const sections: seq<Highlight.Section>
    const navHrefs: seq<string>
    var navActive: seq<bool>

    /** The inline fade styles of the animated elements. */
    const animatedCount: nat
    var fade: seq<FadeIn.Fade>

    /** `debounce(highlightNavigation, 10)`. The script passes it the scroll event,
        which `highlightNavigation` ignores; the model passes the offset instead. */
    const highlightDebounce: Debounce.Debouncer<int>

    function Menu(): MobileMenu.MenuState
      reads this
    {
      MobileMenu.MenuState(toggleActive, menuActive, overflowHidden)
    }

    ghost predicate Valid()
      reads this
    {
      MobileMenu.Consistent(Menu()) && |navActive| == |navHrefs| && |fade| == animatedCount
    }

    /** Running the script on a freshly loaded page whose menu is closed: the
        animated elements are styled hidden, in document order, and nothing is pending. */
    constructor (initialScroll: int, hasHeader: bool, heroHeight: Option<nat>,
                 sections: seq<Highlight.Section>, navHrefs: seq<string>, initialActive: seq<bool>,
                 animatedCount: nat)
      requires |initialActive| == |navHrefs|
      ensures Valid() && Menu() == MobileMenu.Closed
      ensures scrollY == initialScroll && lastScroll == 0 && !headerShadow && parallaxFrom == None
      ensures this.hasHeader == hasHeader && this.heroHeight == heroHeight
      ensures this.sections == sections && this.navHrefs == navHrefs && navActive == initialActive
      ensures this.animatedCount == animatedCount && |fade| == animatedCount
      ensures forall i :: 0 <= i < |fade| ==> fade[i] == FadeIn.Hidden
      ensures fresh(highlightDebounce) && highlightDebounce.pending == None
    {
      toggleActive, menuActive, overflowHidden := false, false, false;
      scrollY := initialScroll;
      this.hasHeader := hasHeader;
      headerShadow, lastScroll := false, 0;
      this.heroHeight := heroHeight;
      parallaxFrom := None;
      this.sections, this.navHrefs, navActive := sections, navHrefs, initialActive;
      this.animatedCount := animatedCount;
      var styles: seq<FadeIn.Fade> := seq(animatedCount, _ => FadeIn.Unstyled);
      for i := 0 to animatedCount
        invariant |styles| == animatedCount
        invariant forall k :: 0 <= k < i ==> styles[k] == FadeIn.Hidden
      {
        styles := styles[i := FadeIn.Hidden];
      }
      fade := styles;
      highlightDebounce := new Debounce.Debouncer<int>();
    }

    /** Click on `.nav-toggle`. */
    method ClickToggle()
      requires Valid()
      modifies this`toggleActive, this`menuActive, this`overflowHidden
      ensures Valid()
      ensures Menu() == MobileMenu.ToggleClick(old(Menu()))
    {
      toggleActive := !toggleActive;
      menuActive := !menuActive;
      overflowHidden := menuActive;
    }

    /** Click on a `.nav-link`: the listener that closes the menu. */
    method ClickNavLink()
      requires Valid()
      modifies this`toggleActive, this`menuActive, this`overflowHidden
      ensures Valid()
      ensures Menu() == MobileMenu.LinkClick(old(Menu()))
    {
      toggleActive := false;
      menuActive := false;
      overflowHidden := false;
    }

    /** A click reaching the document, with whether its target lies inside the
        toggle and inside the menu. */
    method ClickDocument(inToggle: bool, inMenu: bool)
      requires Valid()
      modifies this`toggleActive, this`menuActive, this`overflowHidden
      ensures Valid()
      ensures Menu() == MobileMenu.DocumentClick(old(Menu()), inToggle, inMenu)
    {
      if !inToggle && !inMenu {
        toggleActive := false;
        menuActive := false;
        overflowHidden := false;
      }
    }

    /** A keydown on `.nav-toggle`; Enter and Space dispatch a click on the toggle. */
    method KeyDownOnToggle(key: string)
      requires Valid()
      modifies this`toggleActive, this`menuActive, this`overflowHidden
      ensures Valid()
      ensures Menu() == MobileMenu.ToggleKeyDown(old(Menu()), key)
    {
      if MobileMenu.ActivationKey(key) {
        ClickToggle();
      }
    }

    /** Click on an in-page anchor. `targetTop` is the bounding-box top of the
        element its href names, or None when there is no such element. Returns the
        offset handed to `window.scrollTo`, or None when no scroll is requested;
        the page itself does not change until the resulting scroll events arrive. */
    method ClickAnchor(targetTop: Option<int>) returns (scrollTo: Option<int>)
      ensures scrollTo.Some? <==> targetTop.Some?
      ensures targetTop.Some? ==> (targetTop.value + scrollY) - scrollTo.value == ScrollRules.HeaderOffset
    {
      scrollTo := None;
      if targetTop.Some? {
        scrollTo := Some(ScrollRules.SmoothScrollTop(targetTop.value, scrollY));
      }
    }

    /** The header's scroll listener. Without a `.header` the first style write
        throws, so nothing changes, `lastScroll` included. */
    method ScrollHeader()
      modifies this`headerShadow, this`lastScroll
      ensures hasHeader ==> headerShadow == ScrollRules.HasShadow(scrollY) && lastScroll == scrollY
      ensures !hasHeader ==> headerShadow == old(headerShadow) && lastScroll == old(lastScroll)
    {
      if hasHeader {
        headerShadow := scrollY > ScrollRules.ShadowThreshold;
        lastScroll := scrollY;
      }
    }

    /** `highlightNavigation`: the loop over the sections. */
    method HighlightNavigation()
      requires Valid()
      modifies this`navActive
      ensures Valid()
      ensures navActive == Highlight.Highlighted(old(navActive), navHrefs, sections, scrollY)
    {
      var i := 0;
      while i < |sections|
        invariant 0 <= i <= |sections|
        invariant |navActive| == |navHrefs|
        invariant navActive == Highlight.Highlighted(old(navActive), navHrefs, sections[..i], scrollY)
      {
        var section := sections[i];
        var navLink := Highlight.FirstLink(navHrefs, Highlight.LinkHref(section.id));
        if navLink.Some? {
          navActive := navActive[navLink.value := Highlight.InSection(section, scrollY)];
        }
        assert sections[..i + 1][..i] == sections[..i];
        i := i + 1;
      }
      assert sections[..i] == sections;
    }

    /** The parallax scroll listener. */
    method ScrollParallax()
      modifies this`parallaxFrom
      ensures parallaxFrom == if ScrollRules.ParallaxApplies(heroHeight, scrollY) then Some(scrollY) else old(parallaxFrom)
    {
      if heroHeight.Some? && scrollY < heroHeight.value {
        parallaxFrom := Some(scrollY);
      }
    }

    /** The window scrolls to `y`: the four scroll listeners run in the order they
        were added (header, highlighter, parallax, debounced highlighter). */
    method Scroll(y: int)
      requires Valid()
      modifies this`scrollY, this`headerShadow, this`lastScroll, this`navActive, this`parallaxFrom, highlightDebounce
      ensures Valid() && scrollY == y
      ensures hasHeader ==> headerShadow == ScrollRules.HasShadow(y) && lastScroll == y
      ensures !hasHeader ==> headerShadow == old(headerShadow) && lastScroll == old(lastScroll)
      ensures navActive == Highlight.Highlighted(old(navActive), navHrefs, sections, y)
      ensures parallaxFrom == if ScrollRules.ParallaxApplies(heroHeight, y) then Some(y) else old(parallaxFrom)
      ensures highlightDebounce.pending == Some(y)
    {
      scrollY := y;
      ScrollHeader();
      HighlightNavigation();
      ScrollParallax();
      highlightDebounce.Call(y);
    }

    /** The debounce timer fires: `highlightNavigation` runs at the current offset,
        if a call was pending. */
    method DebounceFires()
      requires Valid()
      modifies this`navActive, highlightDebounce
      ensures Valid() && highlightDebounce.pending == None
      ensures navActive == if old(highlightDebounce.pending).Some?
                           then Highlight.Highlighted(old(navActive), navHrefs, sections, scrollY)
                           else old(navActive)
    {
      var ran := highlightDebounce.Fire();
      if ran.Some? {
        HighlightNavigation();
      }
    }

    /** The intersection observer's callback with a batch of entries. */
    method Intersect(entries: seq<FadeIn.Entry>)
      requires Valid() && FadeIn.Targets(entries, |fade|)
      modifies this`fade
      ensures Valid()
      ensures fade == FadeIn.Revealed(old(fade), entries)
    {
      var i := 0;
      while i < |entries|
        invariant 0 <= i <= |entries|
        invariant FadeIn.Targets(entries[..i], |old(fade)|)
        invariant fade == FadeIn.Revealed(old(fade), entries[..i])
      {
        var entry := entries[i];
        if entry.isIntersecting {
          fade := fade[entry.target := FadeIn.Shown];
        }
        assert entries[..i + 1][..i] == entries[..i];
        i := i + 1;
      }
      assert entries[..i] == entries;
    }
  }

  /** A scroll followed by the debounce timer, with no scroll in between: the
      debounced run finds the links exactly as the raw run left them. */
  method ScrollThenDebounce(p: Page, y: int)
    requires p.Valid()
    modifies p, p.highlightDebounce
    ensures p.Valid() && p.highlightDebounce.pending == None
    ensures p.navActive == Highlight.Highlighted(old(p.navActive), p.navHrefs, p.sections, y)
  {
    p.Scroll(y);
    Highlight.HighlightIdempotent(old(p.navActive), p.navHrefs, p.sections, y);
    p.DebounceFires();
  }
}
