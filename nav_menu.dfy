/**
 * The mobile navigation disclosure: the toggle button's `aria-expanded`
 * attribute and the menu's "is-open" class, set together. The menu opens
 * and closes from the toggle button, and closes on a link click, a click
 * outside both the menu and the button, or the Escape key. With either
 * element missing from the page nothing changes.
 */
module NavMenu {
  import opened Wrappers

  /** `String(open)` for a boolean. */
  function BoolText(b: bool): (s: string)
    ensures s == "true" <==> b
  {
    if b then "true" else "false"
  }

  /**
   * The document click handler closes the menu exactly when both elements
   * exist, the menu is open, and the click landed on a node outside the
   * menu and outside the toggle button.
   */
  function OutsideClickCloses(present: bool, isOpen: bool, targetIsNode: bool,
                              inMenu: bool, inToggle: bool): (closes: bool)
    ensures closes ==> present && isOpen
    ensures closes ==> targetIsNode && !inMenu && !inToggle
  {
    present && isOpen && targetIsNode && !inMenu && !inToggle
  }

  /** A click inside the menu or on the toggle button never closes it from the document handler. */
  lemma InsideClickKeepsMenu(present: bool, isOpen: bool, targetIsNode: bool,
                             inMenu: bool, inToggle: bool)
    requires inMenu || inToggle
    ensures !OutsideClickCloses(present, isOpen, targetIsNode, inMenu, inToggle)
  {
  }

  class Menu {
    /** Whether the page has both the `.nav-toggle` button and the `#nav-menu` element. */
    const present: bool
    /** Number of `.nav-link` elements. */
    const linkCount: nat
    /** The toggle button's `aria-expanded` attribute, if set. */
    var expanded: Option<string>
    /** Whether the menu carries the "is-open" class. */
    var isOpen: bool
    /** The nav link that last received focus from opening the menu, if any. */
    var focused: Option<nat>

    /** The button's attribute tells the truth about the menu. */
    predicate Synced()
      reads this
    {
      expanded == Some(BoolText(isOpen))
    }

    /** Page load: state as the markup has it, no link focused. */
    constructor (present: bool, linkCount: nat, expanded: Option<string>, isOpen: bool)
      ensures this.present == present && this.linkCount == linkCount
      ensures this.expanded == expanded && this.isOpen == isOpen && focused.None?
    {
      this.present := present;
      this.linkCount := linkCount;
      this.expanded := expanded;
      this.isOpen := isOpen;
      focused := None;
    }

    /** `setNavOpen`: set the attribute and the class, focusing the first link on opening. */
    method SetNavOpen(open: bool)
      modifies this
      ensures !present ==> expanded == old(expanded) && isOpen == old(isOpen) && focused == old(focused)
      ensures present ==> Synced() && isOpen == open
      ensures present ==> focused == if open && linkCount > 0 then Some(0) else old(focused)
    {
      if !present {
        return;
      }
      expanded := Some(BoolText(open));
      isOpen := open;
      if open && linkCount > 0 {
        focused := Some(0);
      }
    }

    /** Click on the toggle button: flip according to the button's attribute. */
    method ToggleClick()
      modifies this
      ensures present ==> Synced() && isOpen == (old(expanded) != Some("true"))
      ensures !present ==> expanded == old(expanded) && isOpen == old(isOpen)
      ensures focused == if present && old(expanded) != Some("true") && linkCount > 0
                         then Some(0) else old(focused)
    {
      var wasExpanded := expanded == Some("true");
      SetNavOpen(!wasExpanded);
    }

    /** Click on any nav link closes the menu. */
    method LinkClick()
      modifies this
      ensures present ==> Synced() && !isOpen
      ensures !present ==> expanded == old(expanded) && isOpen == old(isOpen)
      ensures focused == old(focused)
    {
      SetNavOpen(false);
    }

    /** A click anywhere in the document, described by where its target lies. */
    method DocumentClick(targetIsNode: bool, inMenu: bool, inToggle: bool)
      modifies this
      ensures OutsideClickCloses(present, old(isOpen), targetIsNode, inMenu, inToggle) ==>
                Synced() && !isOpen
      ensures !OutsideClickCloses(present, old(isOpen), targetIsNode, inMenu, inToggle) ==>
                expanded == old(expanded) && isOpen == old(isOpen)
      ensures focused == old(focused)
    {
      if OutsideClickCloses(present, isOpen, targetIsNode, inMenu, inToggle) {
        SetNavOpen(false);
      }
    }

    /** A key press: Escape closes the menu, any other key does nothing. */
    method KeyDown(key: string)
      modifies this
      ensures key == "Escape" && present ==> Synced() && !isOpen
      ensures key != "Escape" || !present ==> expanded == old(expanded) && isOpen == old(isOpen)
      ensures focused == old(focused)
    {
      if key == "Escape" {
        SetNavOpen(false);
      }
    }
  }
}
