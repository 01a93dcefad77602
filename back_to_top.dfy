/**
 * The back-to-top button: shown once the page has scrolled more than 600
 * pixels, hidden otherwise, re-evaluated on load and on every scroll.
 */
module BackToTop {

  /** Scroll offset beyond which the button shows. */
  const Threshold: real := 600.0

  class Button {
    /** Whether the page has a `#toTop` element. */
    const present: bool
    /** Whether it carries the "is-visible" class. */
    var visible: bool

    constructor (present: bool, visible: bool)
      ensures this.present == present && this.visible == visible
    {
      this.present := present;
      this.visible := visible;
    }

    /** `setToTop`: visible exactly when the offset is past the threshold. */
    method SetToTop(scrollY: real)
      modifies this
      ensures present ==> (visible <==> scrollY > 600.0)
      ensures !present ==> visible == old(visible)
    {
      if present {
        visible := scrollY > Threshold;
      }
    }
  }
}
