/** The arithmetic and the guards that the scroll-driven handlers of js/script.js
    apply to the vertical scroll offset (`window.pageYOffset`). */
module ScrollRules {
  import opened Optional

  /** Height of the fixed header that a smooth-scroll target is kept clear of. */
  const HeaderOffset := 80

  /** Scroll offset beyond which the header carries its drop shadow. */
  const ShadowThreshold := 50

  /** The window offset `window.scrollTo` is given when an in-page anchor is
      clicked: `rectTop` is the target's bounding-box top relative to the viewport,
      `pageYOffset` the current scroll. Once there, the target's top sits exactly
      `HeaderOffset` below the top of the viewport. */
  function SmoothScrollTop(rectTop: int, pageYOffset: int): (r: int)
    ensures (rectTop + pageYOffset) - r == HeaderOffset
  {
    rectTop + pageYOffset - HeaderOffset
  }

  /** The destination depends only on where the target sits in the document,
      not on where the window is scrolled when the anchor is clicked. */
  lemma SmoothScrollIgnoresStart(documentTop: int, y1: int, y2: int)
    ensures SmoothScrollTop(documentTop - y1, y1) == SmoothScrollTop(documentTop - y2, y2)
  {
  }

  /** The header shows its shadow once the page is scrolled strictly past the threshold. */
  predicate HasShadow(scroll: int) {
    scroll > ShadowThreshold
  }

  /** The parallax handler rewrites the hero's transform only when the hero exists
      (`heroHeight` is its `offsetHeight`) and the page is scrolled less than that height. */
  predicate ParallaxApplies(heroHeight: Option<nat>, scrolled: int) {
    heroHeight.Some? && scrolled < heroHeight.value
  }

  /** Beyond the hero's height, further scrolling down never updates the transform. */
  lemma ParallaxFrozenPastHero(heroHeight: nat, a: int, b: int)
    requires !ParallaxApplies(Some(heroHeight), a) && a <= b
    ensures !ParallaxApplies(Some(heroHeight), b)
  {
  }
}
