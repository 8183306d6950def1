/**
 The mobile navigation menu (script.js lines 15-36 and 143-154) as an
 immutable state machine. The state is the `show` class on the menu list
 (`open`), the toggle button's `aria-expanded` attribute and which glyph the
 button shows (the close cross or the hamburger).
 */
module NavMenu {

  /** Widest viewport, in CSS pixels, on which following a link closes the menu. */
  const MobileMaxWidth: int := 768

  /** The value `aria-controls` falls back to when the menu list has no id. */
  const DefaultMenuId: string := "nav-menu"

  datatype Menu = Menu(open: bool, ariaExpanded: bool, iconIsClose: bool)

  /** The closed menu with its button showing the hamburger and announcing "collapsed". */
  const Closed: Menu := Menu(false, false, false)

  /** The button's accessible state and glyph agree with the menu. */
  predicate Consistent(m: Menu) {
    m.ariaExpanded == m.open && m.iconIsClose == m.open
  }

  /** The `aria-controls` value given to the toggle button: the menu list's id, or the fallback. */
  function AriaControls(menuId: string): (r: string)
    ensures r != ""
    ensures menuId != "" ==> r == menuId
    ensures menuId == "" ==> r == DefaultMenuId
  {
    if menuId != "" then menuId else DefaultMenuId
  }

  /** Wiring up the page: `aria-expanded` is reset to false whatever the markup
      said; the class and the glyph stay as the markup has them. The result is
      consistent exactly when the page was served closed with the hamburger. */
  function Setup(page: Menu): (m: Menu)
    ensures !m.ariaExpanded
    ensures m.open == page.open && m.iconIsClose == page.iconIsClose
    ensures Consistent(m) <==> !page.open && !page.iconIsClose
  {
    page.(ariaExpanded := false)
  }

  /** A click on the toggle button flips the menu and brings the button in line with it. */
  function Toggle(m: Menu): (r: Menu)
    ensures r.open == !m.open
    ensures Consistent(r)
  {
    var open := !m.open;
    Menu(open, open, open)
  }

  /** A click on a navigation link closes the menu on a narrow viewport. */
  function NavLinkClick(m: Menu, width: int): (r: Menu)
    ensures width <= MobileMaxWidth && m.open ==> r == Closed
    ensures !(width <= MobileMaxWidth && m.open) ==> r == m
    ensures r.open ==> m.open
  {
    if width <= MobileMaxWidth && m.open then Closed else m
  }

  /** What a key press leaves behind: the menu, and whether focus returned to the toggle button. */
  datatype KeyOutcome = KeyOutcome(menu: Menu, focusToggle: bool)

  /** A key press anywhere in the document. Only Escape on an open menu acts:
      it closes the menu and, when the toggle button exists, restores its
      glyph and `aria-expanded` and gives it focus. */
  function KeyDown(m: Menu, key: string, hasToggle: bool): (r: KeyOutcome)
    ensures key != "Escape" || !m.open ==> r == KeyOutcome(m, false)
    ensures key == "Escape" && m.open && hasToggle ==> r == KeyOutcome(Closed, true)
    ensures key == "Escape" && m.open && !hasToggle ==>
      r == KeyOutcome(m.(open := false), false)
  {
    if key == "Escape" && m.open then
      if hasToggle then KeyOutcome(Closed, true)
      else KeyOutcome(m.(open := false), false)
    else KeyOutcome(m, false)
  }

  /** The events the menu reacts to once both the button and the list exist. */
  datatype Event = ToggleClick | LinkClick(width: int) | Key(name: string)

  /** One event handled against the menu. Every event keeps the button in
      agreement with the menu, and only a toggle click can open it. */
  function Step(m: Menu, e: Event): (r: Menu)
    ensures Consistent(m) ==> Consistent(r)
    ensures !e.ToggleClick? && r.open ==> m.open
  {
    match e
    case ToggleClick => Toggle(m)
    case LinkClick(w) => NavLinkClick(m, w)
    case Key(k) => KeyDown(m, k, true).menu
  }

  /** The menu after a sequence of events, handled one at a time in order. A
      consistent menu stays consistent, and without a toggle click a closed
      menu stays closed. */
  function Run(m: Menu, events: seq<Event>): (r: Menu)
    ensures Consistent(m) ==> Consistent(r)
    ensures (forall i :: 0 <= i < |events| ==> !events[i].ToggleClick?) && r.open ==> m.open
    decreases |events|
  {
    if |events| == 0 then m else Run(Step(m, events[0]), events[1..])
  }

  /** Handling one more event after a run is a step from where the run ended. */
  lemma {:induction false} RunSnoc(m: Menu, events: seq<Event>, e: Event)
    ensures Run(m, events + [e]) == Step(Run(m, events), e)
    decreases |events|
  {
    if |events| > 0 {
      assert (events + [e])[1..] == events[1..] + [e];
      RunSnoc(Step(m, events[0]), events[1..], e);
    }
  }

  /** Whatever happened before, Escape leaves a consistent menu closed. */
  lemma EscapeAfterAnyRun(m: Menu, events: seq<Event>)
    requires Consistent(m)
    ensures Run(m, events + [Key("Escape")]) == Closed
  {
    RunSnoc(m, events, Key("Escape"));
  }

  /** Two toggle clicks put a consistent menu back where it was. */
  lemma ToggleTwice(m: Menu)
    requires Consistent(m)
    ensures Toggle(Toggle(m)) == m
  {
  }

  /** A page served closed with the hamburger starts consistent and stays so. */
  lemma ServedClosedStaysConsistent(page: Menu, events: seq<Event>)
    requires !page.open && !page.iconIsClose
    ensures Consistent(Run(Setup(page), events))
  {
  }
}
