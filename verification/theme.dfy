/** The colour-theme switcher (`ThemeSwitcher`).

    Clicking a theme button calls `switchTheme` with the button's
    `data-theme`: the theme is remembered, applied to the document (a
    `data-theme` attribute and two accent colours looked up in a fixed
    table), stored, and exactly the buttons carrying that theme are marked
    active. Looking up a theme that is not in the table yields `undefined`,
    and reading its colours throws: by then the remembered theme and the
    document attribute have changed, but the colours and buttons have not. */
module ThemeSwitcher {
  import opened Optional
  import opened Selection

  datatype Palette = Palette(primary: string, secondary: string)

  /** The colour table of `applyTheme`. */
  function PaletteOf(theme: string): (r: Option<Palette>)
    ensures r.Some? <==> theme in ThemeNames
    ensures r.Some? ==> r.value.primary != r.value.secondary
  {
    if theme == "cyan" then Some(Palette("#00d9ff", "#b66dff"))
    else if theme == "purple" then Some(Palette("#b66dff", "#ff6bcb"))
    else if theme == "green" then Some(Palette("#00ff88", "#00d9ff"))
    else if theme == "orange" then Some(Palette("#ff6b35", "#f7931e"))
    else None
  }

  /** The themes the table knows. */
  const ThemeNames: set<string> := {"cyan", "purple", "green", "orange"}

  /** The theme used when nothing is stored. */
  const DefaultTheme := "cyan"

  /** `currentTheme`, the document's `data-theme` attribute, the two accent
      colours and the theme buttons (key: `data-theme`). */
  datatype Appearance = Appearance(current: string, documentTheme: string, accent: Palette,
                                   buttons: seq<Marked>)

  /** `switchTheme` either completes or throws part-way, in `applyTheme`. */
  datatype SwitchOutcome = Switched(state: Appearance) | Threw(state: Appearance)

  /** The constructor's choice of start-up theme from the stored value
      (`localStorage.getItem('theme') || 'cyan'`): a missing or empty stored
      value falls back to the default. */
  function StartupTheme(stored: Option<string>): (theme: string)
    ensures stored.Some? && stored.value != "" ==> theme == stored.value
    ensures stored.None? || stored.value == "" ==> theme == DefaultTheme
  {
    match stored
    case Some(t) => if t != "" then t else DefaultTheme
    case None => DefaultTheme
  }

  function SwitchTheme(s: Appearance, theme: string): (r: SwitchOutcome)
    // a known theme completes: it is remembered, applied with its colours,
    // and exactly the buttons carrying it are active
    ensures r.Switched? <==> PaletteOf(theme).Some?
    ensures r.Switched? ==>
              && r.state.current == theme && r.state.documentTheme == theme
              && r.state.accent == PaletteOf(theme).value
              && SameKeys(s.buttons, r.state.buttons)
              && forall k :: 0 <= k < |r.state.buttons| ==> (r.state.buttons[k].active <==> s.buttons[k].key == theme)
    // an unknown theme throws after the first two assignments
    ensures r.Threw? ==> r.state == s.(current := theme, documentTheme := theme)
  {
    var remembered := s.(current := theme, documentTheme := theme);
    match PaletteOf(theme)
    case None => Threw(remembered)
    case Some(p) => Switched(remembered.(accent := p, buttons := ActivateMatching(s.buttons, theme)))
  }

  /** Applying the same theme twice gives the same state as applying it once. */
  lemma SwitchThemeIdempotent(s: Appearance, theme: string)
    ensures SwitchTheme(SwitchTheme(s, theme).state, theme) == SwitchTheme(s, theme)
  {
    if PaletteOf(theme).Some? {
      ActivateMatchingIdempotent(s.buttons, theme);
    }
  }

  /** The outcome of a successful switch does not depend on the state it
      started from, only on the buttons present. */
  lemma SwitchThemeForgetsHistory(a: Appearance, b: Appearance, theme: string)
    requires SameKeys(a.buttons, b.buttons)
    requires PaletteOf(theme).Some?
    ensures SwitchTheme(a, theme) == SwitchTheme(b, theme)
  {
    ActivateMatchingForgetsHistory(a.buttons, b.buttons, theme);
  }

  /** With one button per theme, a successful switch leaves exactly one
      button active when a button for the theme exists: the `active` marker
      is never duplicated. */
  lemma SwitchThemeSingleActive(s: Appearance, theme: string)
    requires DistinctKeys(s.buttons)
    requires SwitchTheme(s, theme).Switched?
    ensures CountActive(SwitchTheme(s, theme).state.buttons) == if HasKey(s.buttons, theme) then 1 else 0
  {
    ActivateMatchingCount(s.buttons, theme);
  }
}
