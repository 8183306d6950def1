/**
 The "back to top" control (script.js lines 64-69): on every scroll event it
 is shown when the page has scrolled past a fixed offset and hidden otherwise.
 */
module BackToTop {

  /** Vertical scroll offset, in CSS pixels, the page must exceed for the control to show. */
  const Threshold: int := 220

  /** The control's `show` class after a scroll event at vertical offset `scrollY`.
      The previous state plays no part: there is no hysteresis. */
  function OnScroll(shown: bool, scrollY: int): (r: bool)
    ensures r ==> scrollY >= Threshold + 1
    ensures scrollY >= Threshold + 1 ==> r
  {
    scrollY > Threshold
  }

  /** The boundary: an offset of exactly 220 leaves the control hidden, one more shows it. */
  lemma Boundary(shown: bool)
    ensures !OnScroll(shown, 220)
    ensures OnScroll(shown, 221)
  {
  }

  /** Scrolling further down never hides a shown control, and what it shows
      does not depend on whether it was shown before. */
  lemma Monotone(shown: bool, shown': bool, y: int, y': int)
    requires y <= y'
    ensures OnScroll(shown, y) ==> OnScroll(shown', y')
  {
  }
}
