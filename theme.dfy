/** The colour theme: the `data-theme` attribute of the document element,
    the value saved under "theme" in local storage, and the toggle button.
    Local storage and the `prefers-color-scheme: dark` media query are
    inputs. */
module Theme {
  import opened Js

  predicate IsTheme(t: string)
  {
    t == "light" || t == "dark"
  }

  /** `getPreferredTheme`: a saved "light" or "dark" wins; anything else
      saved (or nothing) defers to the system preference. */
  function PreferredTheme(saved: Option<string>, prefersDark: bool): (theme: string)
    ensures IsTheme(theme)
    ensures saved.Some? && IsTheme(saved.value) ==> theme == saved.value
    ensures !(saved.Some? && IsTheme(saved.value)) ==> (theme == "dark" <==> prefersDark)
  {
    if saved == Some("light") || saved == Some("dark") then saved.value
    else if prefersDark then "dark"
    else "light"
  }

  /** The theme the toggle switches to, from the current `data-theme`
      attribute (read as "light" when missing or empty). */
  function NextTheme(current: Option<string>): (next: string)
    ensures IsTheme(next)
    ensures next == "light" <==> current == Some("dark")
  {
    var theme := Or(current, "light");
    if theme == "dark" then "light" else "dark"
  }

  /** Toggling twice returns to a valid starting theme. */
  lemma ToggleTwice(theme: string)
    requires IsTheme(theme)
    ensures NextTheme(Some(NextTheme(Some(theme)))) == theme
  {
  }

  /** A theme saved by the toggle is the one chosen after a reload,
      whatever the system prefers. */
  lemma SavedToggleWinsOnReload(current: Option<string>, prefersDark: bool)
    ensures PreferredTheme(Some(NextTheme(current)), prefersDark) == NextTheme(current)
  {
  }

  /** The document's theme attribute and the saved theme. */
  class ThemeState {
    var dataTheme: Option<string>
    var saved: Option<string>

    /** `applyTheme(getPreferredTheme())` at start-up; nothing is saved. */
    constructor (saved0: Option<string>, prefersDark: bool)
      ensures dataTheme == Some(PreferredTheme(saved0, prefersDark))
      ensures saved == saved0
    {
      dataTheme := Some(PreferredTheme(saved0, prefersDark));
      saved := saved0;
    }

    /** A click on the theme toggle: apply the other theme and save it. */
    method Toggle()
      modifies this
      ensures dataTheme == Some(NextTheme(old(dataTheme)))
      ensures saved == dataTheme
      ensures old(dataTheme).Some? && IsTheme(old(dataTheme).value) ==>
                dataTheme.value != old(dataTheme).value
    {
      var next := NextTheme(dataTheme);
      dataTheme := Some(next);
      saved := Some(next);
    }
  }
}
