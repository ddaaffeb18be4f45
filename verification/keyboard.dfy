/** The page-wide key handler: Escape closes an open mobile menu, and
    Ctrl+K or Cmd+K clicks the theme toggle. */
module Keyboard {
  import Theme
  import NavMenu

  /** The parts of a key event the handler reads. */
  datatype KeyEvent = KeyEvent(key: string, ctrlKey: bool, metaKey: bool)

  /** The state the handler can change. */
  datatype Page = Page(theme: Theme.ThemeState, menu: NavMenu.Menu)

  predicate IsThemeShortcut(e: KeyEvent) {
    (e.ctrlKey || e.metaKey) && e.key == "k"
  }

  /** One `keydown` event. */
  function KeyDown(p: Page, e: KeyEvent): (q: Page)
    ensures e.key == "Escape" ==> !q.menu.active && q.theme == p.theme
    ensures e.key != "Escape" ==> q.menu == p.menu
    ensures q.menu.bars == p.menu.bars
    ensures IsThemeShortcut(e) ==> q.theme == Theme.Toggle(p.theme)
    ensures !IsThemeShortcut(e) ==> q.theme == p.theme
  {
    var menu := if e.key == "Escape" && p.menu.active then NavMenu.Escape(p.menu) else p.menu;
    var theme := if IsThemeShortcut(e) then Theme.Toggle(p.theme) else p.theme;
    Page(theme, menu)
  }

  /** The shortcut is case-sensitive: Ctrl+Shift+K reports the key `"K"`
      and does not change the theme. */
  lemma UpperCaseKIgnored(p: Page)
    ensures KeyDown(p, KeyEvent("K", true, false)) == p
  {
  }

  /** Pressing the shortcut twice on a light or dark page gives back the
      theme and its icon, and leaves the menu untouched. */
  lemma ShortcutTwice(p: Page, e: KeyEvent)
    requires IsThemeShortcut(e)
    requires p.theme.theme == Theme.Light || p.theme.theme == Theme.Dark
    requires Theme.Coherent(p.theme)
    ensures KeyDown(KeyDown(p, e), e).theme.theme == p.theme.theme
    ensures KeyDown(KeyDown(p, e), e).theme.icon == p.theme.icon
    ensures KeyDown(KeyDown(p, e), e).menu == p.menu
  {
  }
}
