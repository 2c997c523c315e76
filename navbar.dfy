/** The navigation bar: it hides while the page scrolls down and comes back
    when it scrolls up, remembers the dark-mode choice as the text `"true"` or
    `"false"`, lists the sections the configuration makes visible, and opens and
    closes a mobile menu. Scroll positions are whole pixels. */
module Navbar {
  import opened Text
  import opened Translations

  /** A scroll position past this many pixels gives the bar its solid style. */
  const ScrolledThreshold: int := 20

  /** The dark-mode flag read at start-up from the saved text
      (`localStorage.getItem('darkMode')`, `None` when nothing is saved): a
      saved text that is not empty decides, and only `"true"` means dark. */
  function InitialDarkMode(saved: Option<string>): (dark: bool)
    ensures dark <==> saved == Some("true")
  {
    match saved
    case None => false
    case Some(s) => if s != "" then s == "true" else false
  }

  /** `String(b)`. */
  function BoolText(b: bool): (s: string)
    ensures s != ""
  {
    if b then "true" else "false"
  }

  /** What is saved is read back as the same mode. */
  lemma SavedModeRestored(b: bool)
    ensures InitialDarkMode(Some(BoolText(b))) == b
  {
  }

  /** The section switches of the site configuration; `None` is a switch the
      configuration leaves out. The navigation bar itself is shown only when its
      switch is present and on (`if (!visible) return null`). */
  datatype Components = Components(
    navbarVisible: Option<bool>,
    about: Option<bool>,
    portfolio: Option<bool>,
    contact: Option<bool>)

  /** A menu entry: its anchor and the translation key of its label, which is
      shown as `Translate(lang, labelKey)`. */
  datatype MenuItem = MenuItem(href: string, labelKey: string)

  /** The label a menu entry shows in `lang`. */
  function Label(item: MenuItem, lang: Language): string {
    Translate(lang, item.labelKey)
  }

  /** `visible === undefined || visible`. */
  predicate Kept(visible: Option<bool>) {
    visible != Some(false)
  }

  function ItemIf(visible: Option<bool>, href: string, key: string): (r: seq<MenuItem>)
    ensures |r| <= 1
  {
    if Kept(visible) then [MenuItem(href, key)] else []
  }

  /** `menuItems`: about, portfolio, schedule and contact in that order; the
      schedule is always listed. */
  function MenuItems(c: Components): (r: seq<MenuItem>)
    ensures 1 <= |r| <= 4
  {
    ItemIf(c.about, "#about", "nav.about")
    + ItemIf(c.portfolio, "#portfolio", "nav.portfolio")
    + [MenuItem("#schedule", "nav.schedule")]
    + ItemIf(c.contact, "#contact", "nav.contact")
  }

  predicate Lists(items: seq<MenuItem>, href: string) {
    exists i :: 0 <= i < |items| && items[i].href == href
  }

  function KeptCount(visible: Option<bool>): nat {
    if Kept(visible) then 1 else 0
  }

  /** Which sections are listed: the schedule always, each other section
      exactly when its switch is not off; the schedule comes after the listed
      about and portfolio entries and before a listed contact entry. */
  lemma MenuItemsSpec(c: Components)
    ensures Lists(MenuItems(c), "#schedule")
    ensures Lists(MenuItems(c), "#about") <==> Kept(c.about)
    ensures Lists(MenuItems(c), "#portfolio") <==> Kept(c.portfolio)
    ensures Lists(MenuItems(c), "#contact") <==> Kept(c.contact)
    ensures |MenuItems(c)| == 1 + KeptCount(c.about) + KeptCount(c.portfolio) + KeptCount(c.contact)
    ensures MenuItems(c)[KeptCount(c.about) + KeptCount(c.portfolio)].href == "#schedule"
  {
    var a := ItemIf(c.about, "#about", "nav.about");
    var p := ItemIf(c.portfolio, "#portfolio", "nav.portfolio");
    var s := [MenuItem("#schedule", "nav.schedule")];
    var k := ItemIf(c.contact, "#contact", "nav.contact");
    var items := MenuItems(c);
    assert items == a + p + s + k;
    assert items[|a| + |p|] == s[0];
    assert "#about" != "#portfolio" && "#about" != "#schedule" && "#about" != "#contact";
    assert "#portfolio" != "#schedule" && "#portfolio" != "#contact" && "#schedule" != "#contact";
    if Kept(c.about) {
      assert items[0].href == "#about";
    }
    if Kept(c.portfolio) {
      assert items[|a|].href == "#portfolio";
    }
    if Kept(c.contact) {
      assert items[|a| + |p| + 1].href == "#contact";
    }
  }

  /** What the component renders: nothing at all when the bar is switched off,
      the menu otherwise. */
  function Rendered(c: Components): (r: Option<seq<MenuItem>>)
    ensures r.None? <==> c.navbarVisible != Some(true)
    ensures r.Some? ==> r.value == MenuItems(c)
  {
    if c.navbarVisible != Some(true) then None else Some(MenuItems(c))
  }

  /** The bar's state. `savedDarkMode` stands for the browser's stored text,
      which outlives the page. */
  class NavbarState {
    var isOpen: bool
    var darkMode: bool
    var isScrolled: bool
    var isVisible: bool
    var lastScrollY: int
    var savedDarkMode: Option<string>

    /** The mode shown is always the mode a reload would restore, and the solid
        style always reflects the last scroll position seen. */
    ghost predicate Valid()
      reads this
    {
      darkMode == InitialDarkMode(savedDarkMode)
      && isScrolled == (lastScrollY > ScrolledThreshold)
    }

    constructor (saved: Option<string>)
      ensures Valid()
      ensures darkMode == InitialDarkMode(saved) && savedDarkMode == saved
      ensures !isOpen && !isScrolled && isVisible && lastScrollY == 0
    {
      isOpen := false;
      darkMode := InitialDarkMode(saved);
      isScrolled := false;
      isVisible := true;
      lastScrollY := 0;
      savedDarkMode := saved;
    }

    /** `handleScroll` for a scroll to `y`: the solid style past 20 pixels, the
        bar hidden after a move down and shown after a move up or none, and `y`
        remembered for the next event. */
    method HandleScroll(y: int)
      requires Valid()
      modifies this
      ensures Valid()
      ensures isScrolled == (y > ScrolledThreshold)
      ensures isVisible == (y <= old(lastScrollY))
      ensures lastScrollY == y
      ensures isOpen == old(isOpen) && darkMode == old(darkMode) && savedDarkMode == old(savedDarkMode)
    {
      var currentScrollY := y;
      isScrolled := currentScrollY > ScrolledThreshold;
      if currentScrollY > lastScrollY {
        isVisible := false;
      } else {
        isVisible := true;
      }
      lastScrollY := currentScrollY;
    }

    /** `toggleDarkMode`: flip the mode and save it as text. */
    method ToggleDarkMode()
      requires Valid()
      modifies this
      ensures Valid()
      ensures darkMode == !old(darkMode)
      ensures savedDarkMode == Some(BoolText(darkMode))
      ensures isOpen == old(isOpen) && isScrolled == old(isScrolled) && isVisible == old(isVisible)
      ensures lastScrollY == old(lastScrollY)
    {
      var newDarkMode := !darkMode;
      darkMode := newDarkMode;
      savedDarkMode := Some(BoolText(newDarkMode));
      SavedModeRestored(newDarkMode);
    }

    /** The menu button. */
    method ToggleMenu()
      requires Valid()
      modifies this
      ensures Valid()
      ensures isOpen == !old(isOpen)
      ensures darkMode == old(darkMode) && savedDarkMode == old(savedDarkMode)
      ensures isScrolled == old(isScrolled) && isVisible == old(isVisible) && lastScrollY == old(lastScrollY)
    {
      isOpen := !isOpen;
    }

    /** `handleLinkClick`: the page scrolls to the section (not modelled) and the
        menu closes, when the section exists on the page. */
    method FollowLink(targetFound: bool)
      requires Valid()
      modifies this
      ensures Valid()
      ensures isOpen == (old(isOpen) && !targetFound)
      ensures darkMode == old(darkMode) && savedDarkMode == old(savedDarkMode)
      ensures isScrolled == old(isScrolled) && isVisible == old(isVisible) && lastScrollY == old(lastScrollY)
    {
      if targetFound {
        isOpen := false;
      }
    }

    /** `handleClickOutside`: a press outside both the open menu and its button
        closes the menu. */
    method MouseDown(insideMenu: bool, onMenuButton: bool)
      requires Valid()
      modifies this
      ensures Valid()
      ensures isOpen == (old(isOpen) && (insideMenu || onMenuButton))
      ensures darkMode == old(darkMode) && savedDarkMode == old(savedDarkMode)
      ensures isScrolled == old(isScrolled) && isVisible == old(isVisible) && lastScrollY == old(lastScrollY)
    {
      if isOpen && !insideMenu && !onMenuButton {
        isOpen := false;
      }
    }
  }

  /** A scroll down hides the bar and scrolling back up, or staying put, shows
      it again. */
  method ScrollDownThenUp(down: int, up: int) returns (hiddenAfterDown: bool, shownAfterUp: bool)
    requires 0 < down && up <= down
    ensures hiddenAfterDown && shownAfterUp
  {
    var bar := new NavbarState(None);
    bar.HandleScroll(down);
    hiddenAfterDown := !bar.isVisible;
    bar.HandleScroll(up);
    shownAfterUp := bar.isVisible;
  }
}
