/** The mobile navigation menu of js/script.js: the `active` class on the toggle
    button, the `active` class on the menu panel and the body's `overflow: hidden`. */
module MobileMenu {

  datatype MenuState = MenuState(toggleActive: bool, menuActive: bool, overflowHidden: bool)

  /** The state the page is loaded in: both classes absent, body scrollable. */
  const Closed := MenuState(false, false, false)

  /** The three flags agree: toggle and panel are active together, and the body is
      scroll-locked exactly while the panel is open. */
  predicate Consistent(s: MenuState) {
    s.toggleActive == s.menuActive && s.overflowHidden == s.menuActive
  }

  /** The keys that activate the toggle from the keyboard. */
  predicate ActivationKey(key: string) {
    key == "Enter" || key == " "
  }

  /** A click on the toggle: flip both `active` classes, then lock scrolling iff
      the panel now carries `active`. */
  function ToggleClick(s: MenuState): (r: MenuState)
    ensures r.menuActive != s.menuActive && r.toggleActive != s.toggleActive
    ensures r.overflowHidden == r.menuActive
    ensures Consistent(s) ==> Consistent(r)
  {
    MenuState(!s.toggleActive, !s.menuActive, !s.menuActive)
  }

  /** A click on any nav link: remove both classes and clear the overflow lock. */
  function LinkClick(s: MenuState): (r: MenuState)
    ensures Consistent(r) && !r.menuActive && !r.overflowHidden
  {
    Closed
  }

  /** A click anywhere in the document: closes the menu unless the target lies
      inside the toggle or inside the panel. */
  function DocumentClick(s: MenuState, inToggle: bool, inMenu: bool): (r: MenuState)
    ensures !inToggle && !inMenu ==> Consistent(r) && !r.menuActive && !r.overflowHidden
    ensures inToggle || inMenu ==> r == s
    ensures Consistent(s) ==> Consistent(r)
  {
    if !inToggle && !inMenu then Closed else s
  }

  /** A keydown on the toggle: Enter or Space clicks the toggle, any other key does nothing. */
  function ToggleKeyDown(s: MenuState, key: string): (r: MenuState)
    ensures ActivationKey(key) ==> r.menuActive != s.menuActive
    ensures !ActivationKey(key) ==> r == s
    ensures Consistent(s) ==> Consistent(r)
  {
    if ActivationKey(key) then ToggleClick(s) else s
  }

  /** Every event the menu handlers react to. */
  datatype MenuEvent =
    | ToggleClicked
    | LinkClicked
    | DocumentClicked(inToggle: bool, inMenu: bool)
    | ToggleKeyPressed(key: string)

  function Apply(s: MenuState, e: MenuEvent): MenuState {
    match e
    case ToggleClicked => ToggleClick(s)
    case LinkClicked => LinkClick(s)
    case DocumentClicked(inToggle, inMenu) => DocumentClick(s, inToggle, inMenu)
    case ToggleKeyPressed(key) => ToggleKeyDown(s, key)
  }

  /** The state after the events of `es`, handled in order. */
  function Run(s: MenuState, es: seq<MenuEvent>): MenuState
    decreases |es|
  {
    if es == [] then s else Run(Apply(s, es[0]), es[1..])
  }

  /** From a consistent state (the page loads Closed), the three flags agree
      after any sequence of menu events. */
  lemma {:induction false} RunKeepsConsistent(s: MenuState, es: seq<MenuEvent>)
    requires Consistent(s)
    ensures Consistent(Run(s, es))
    decreases |es|
  {
    if es != [] {
      var t := Apply(s, es[0]);
      assert Consistent(t);
      RunKeepsConsistent(t, es[1..]);
    }
  }

  /** Two toggle clicks give back the state the menu was in. */
  lemma ToggleTwiceRestores(s: MenuState)
    requires Consistent(s)
    ensures ToggleClick(ToggleClick(s)) == s
  {
  }

  /** Enter or Space on the toggle has exactly the effect of a click on it. */
  lemma ActivationKeyIsClick(s: MenuState, key: string)
    requires ActivationKey(key)
    ensures ToggleKeyDown(s, key) == ToggleClick(s)
  {
  }

  /** A toggle click opens a closed menu and locks scrolling; a second one closes it again. */
  lemma ToggleOpensThenCloses()
    ensures ToggleClick(Closed) == MenuState(true, true, true)
    ensures ToggleClick(ToggleClick(Closed)) == Closed
  {
  }
}
