/**
 * The colour theme: a `data-theme` attribute on the root element and a
 * `theme` entry in local storage, written together. At load the saved
 * choice wins when it is a real theme; otherwise the system preference
 * decides. The toggle button flips between the two themes.
 */
module Theme {
  import opened Wrappers

  /** The two themes the page knows. */
  predicate IsTheme(t: string) {
    t == "light" || t == "dark"
  }

  /**
   * `getPreferredTheme`: the saved value when it is exactly "light" or
   * "dark", otherwise "dark" exactly when the system prefers a dark scheme
   * (a missing media query counts as not preferring it).
   */
  function PreferredTheme(saved: Option<string>, systemPrefersDark: bool): (t: string)
    ensures IsTheme(t)
    ensures saved.Some? && IsTheme(saved.value) ==> t == saved.value
    ensures !(saved.Some? && IsTheme(saved.value)) ==> (t == "dark" <==> systemPrefersDark)
  {
    if saved.Some? && (saved.value == "light" || saved.value == "dark") then saved.value
    else if systemPrefersDark then "dark"
    else "light"
  }

  /**
   * The theme the toggle switches to: a missing or empty attribute reads as
   * "dark"; "dark" becomes "light" and anything else becomes "dark".
   */
  function ToggledTheme(attribute: Option<string>): (t: string)
    ensures IsTheme(t)
    ensures t == "light" <==> attribute in {None, Some(""), Some("dark")}
  {
    var current := if attribute.None? || attribute.value == "" then "dark" else attribute.value;
    if current == "dark" then "light" else "dark"
  }

  /** Toggling a real theme always changes it, and toggling twice restores it. */
  lemma ToggleFlips(t: string)
    requires IsTheme(t)
    ensures ToggledTheme(Some(t)) != t
    ensures ToggledTheme(Some(ToggledTheme(Some(t)))) == t
  {
  }

  /** After one toggle the theme alternates, whatever the attribute held before. */
  lemma ToggleAlternates(attribute: Option<string>)
    ensures ToggledTheme(Some(ToggledTheme(Some(ToggledTheme(attribute))))) == ToggledTheme(attribute)
  {
  }

  /** The root element's theme attribute and the stored preference. */
  class ThemeStore {
    var attribute: Option<string>
    var saved: Option<string>

    /** Both places hold the same real theme. */
    predicate Synced()
      reads this
    {
      attribute == saved && attribute.Some? && IsTheme(attribute.value)
    }

    /** Page load: resolve the preferred theme and write it back to both places. */
    constructor Load(saved: Option<string>, systemPrefersDark: bool)
      ensures Synced()
      ensures attribute == Some(PreferredTheme(saved, systemPrefersDark))
    {
      attribute := None;
      this.saved := saved;
      new;
      SetTheme(PreferredTheme(saved, systemPrefersDark));
    }

    /** `setTheme`: the same value goes to the attribute and to storage. */
    method SetTheme(theme: string)
      modifies this
      ensures attribute == Some(theme) && saved == Some(theme)
    {
      attribute := Some(theme);
      saved := Some(theme);
    }

    /** The toggle button's click handler. */
    method Toggle()
      modifies this
      ensures attribute == Some(ToggledTheme(old(attribute)))
      ensures Synced()
    {
      SetTheme(ToggledTheme(attribute));
    }
  }
}
