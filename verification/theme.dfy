/** The theme preference. At start-up the page takes the stored preference,
    or `'light'` when nothing (or the empty string) is stored, without
    checking that the value names a real theme. The toggle turns `'light'`
    into `'dark'` and every other value into `'light'`, and stores the new
    value. The icon shows a sun on the dark theme and a moon on any other. */
module Theme {
  import opened Wrappers

  const Light := "light"
  const Dark := "dark"
  const SunIcon := "fas fa-sun"
  const MoonIcon := "fas fa-moon"

  /** The page's theme attribute, the value in persistent storage, the icon's
      class, and how many times the preference has been written. */
  datatype ThemeState = ThemeState(theme: string, stored: Option<string>, icon: string, writes: nat)

  /** The icon for a theme: the sun exactly on the dark theme. */
  function IconFor(theme: string): (icon: string)
    ensures icon == SunIcon <==> theme == Dark
    ensures icon == MoonIcon <==> theme != Dark
  {
    if theme == Dark then SunIcon else MoonIcon
  }

  /** The icon agrees with the theme, and once the preference has been
      written the stored value is the displayed theme. */
  predicate Coherent(s: ThemeState) {
    && s.icon == IconFor(s.theme)
    && (s.writes > 0 ==> s.stored == Some(s.theme))
  }

  /** Start-up: a non-empty stored value is displayed as it is (even one
      that names no theme); otherwise the light theme. Nothing is written. */
  function Init(stored: Option<string>): (s: ThemeState)
    ensures stored.Some? && stored.value != "" ==> s.theme == stored.value
    ensures stored == None || stored == Some("") ==> s.theme == Light
    ensures s.icon == SunIcon <==> s.theme == Dark
    ensures s.stored == stored && s.writes == 0
    ensures Coherent(s)
  {
    var theme := if stored.Some? && stored.value != "" then stored.value else Light;
    ThemeState(theme, stored, IconFor(theme), 0)
  }

  /** One click on the toggle: `'light'` becomes `'dark'`, any other value
      becomes `'light'`; the new value is stored and the icon follows it. */
  function Toggle(s: ThemeState): (r: ThemeState)
    ensures r.theme == Dark <==> s.theme == Light
    ensures r.theme == Light <==> s.theme != Light
    ensures r.stored == Some(r.theme) && r.writes == s.writes + 1
    ensures r.icon == SunIcon <==> r.theme == Dark
    ensures Coherent(r)
  {
    var theme := if s.theme == Light then Dark else Light;
    ThemeState(theme, Some(theme), IconFor(theme), s.writes + 1)
  }

  /** `n` clicks on the toggle. */
  function ToggleTimes(s: ThemeState, n: nat): ThemeState
    decreases n
  {
    if n == 0 then s else ToggleTimes(Toggle(s), n - 1)
  }

  /** On the two real themes, two toggles give back the theme and the icon,
      at the price of two writes. */
  lemma ToggleTwiceOnRealTheme(s: ThemeState)
    requires s.theme == Light || s.theme == Dark
    requires Coherent(s)
    ensures Toggle(Toggle(s)).theme == s.theme
    ensures Toggle(Toggle(s)).icon == s.icon
    ensures Toggle(Toggle(s)).stored == Some(s.theme)
    ensures Toggle(Toggle(s)).writes == s.writes + 2
  {
  }

  /** An unknown stored value is not an involution point: `'blue'` becomes
      `'light'` and then `'dark'`. */
  lemma ToggleTwiceFromUnknown()
    ensures Init(Some("blue")).theme == "blue"
    ensures Toggle(Init(Some("blue"))).theme == Light
    ensures Toggle(Toggle(Init(Some("blue")))).theme == Dark
  {
  }

  /** After `n >= 1` clicks the theme is dark exactly when the parity of `n`
      matches whether the theme started light; the stored value and the icon
      follow the theme, and each click wrote once. */
  lemma {:induction false} ToggleTimesTheme(s: ThemeState, n: nat)
    requires n >= 1
    ensures ToggleTimes(s, n).theme == Light || ToggleTimes(s, n).theme == Dark
    ensures ToggleTimes(s, n).theme == Dark <==> (n % 2 == 1) == (s.theme == Light)
    ensures ToggleTimes(s, n).writes == s.writes + n
    ensures Coherent(ToggleTimes(s, n))
    decreases n
  {
    if n > 1 {
      ToggleTimesTheme(Toggle(s), n - 1);
    }
  }

  /** A coherent state stays coherent under any number of clicks. */
  lemma ToggleTimesCoherent(s: ThemeState, n: nat)
    requires Coherent(s)
    ensures Coherent(ToggleTimes(s, n))
  {
    if n >= 1 { ToggleTimesTheme(s, n); }
  }

  /** The start-up scenario: with nothing stored the page is light with a
      moon; one click makes it dark with a sun and stores `'dark'`. */
  lemma FirstVisitScenario()
    ensures Init(None).theme == Light && Init(None).icon == MoonIcon
    ensures Toggle(Init(None)).theme == Dark && Toggle(Init(None)).icon == SunIcon
    ensures Toggle(Init(None)).stored == Some(Dark)
  {
  }
}
