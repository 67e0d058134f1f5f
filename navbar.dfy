/** The navigation bar: a collapsible mobile menu and a light/dark theme
    button. Its state is the menu flag and the current theme name; each
    button or link click overwrites that state, and what is drawn is a
    function of it. */
module Navbar {
  import opened Text

  /** A project page the bar links to. */
  datatype Link = Link(name: string, href: string)

  /** The three project links, shown in the desktop row and in the mobile
      menu, in this order. */
  const PROJECTS: seq<Link> := [
    Link("React Components", "/projects/react-components"),
    Link("Observatory Dashboard", "/projects/observatory-dashboard"),
    Link("Collaborative Canvas", "/projects/collaborative-canvas")
  ]

  /** The links are listed under their names, so no two may share one. */
  lemma ProjectNamesDistinct()
    ensures forall i, j :: 0 <= i < j < |PROJECTS| ==> PROJECTS[i].name != PROJECTS[j].name
    ensures forall i, j :: 0 <= i < j < |PROJECTS| ==> PROJECTS[i].href != PROJECTS[j].href
  {
    var p := PROJECTS;
    assert p[0].name[0] == 'R' && p[1].name[0] == 'O' && p[2].name[0] == 'C';
    assert p[0].href[10] == 'r' && p[1].href[10] == 'o' && p[2].href[10] == 'c';
  }

  // ---------------------------------------------------------------------------
  // Theme

  /** The theme button's rule: `dark` becomes `light`, and every other value,
      `light`, `system` or no theme at all, becomes `dark`. */
  function ToggledTheme(theme: Option<string>): (r: string)
    ensures r == "light" || r == "dark"
    ensures r == "light" <==> theme == Some("dark")
  {
    if theme == Some("dark") then "light" else "dark"
  }

  /** Pressing the theme button twice restores the theme exactly when it was
      `light` or `dark`; from `system` or no theme it ends at `light`. */
  lemma ThemeToggleTwice(theme: Option<string>)
    ensures Some(ToggledTheme(Some(ToggledTheme(theme)))) == theme
            <==> theme == Some("light") || theme == Some("dark")
    ensures theme != Some("light") && theme != Some("dark")
            ==> ToggledTheme(Some(ToggledTheme(theme))) == "light"
  {
    if theme == Some("light") {
      assert ToggledTheme(theme) == "dark";
    }
  }

  // ---------------------------------------------------------------------------
  // The state machine

  datatype NavState = NavState(isOpen: bool, theme: Option<string>)

  /** What the user can press: the menu button, a link in the mobile menu, a
      link in the desktop row, or either theme button (the desktop and the
      mobile one run the same handler). */
  datatype Event = MenuButton | MobileLink | DesktopLink | ThemeButton

  function Next(st: NavState, e: Event): NavState {
    match e
    case MenuButton => st.(isOpen := !st.isOpen)
    case MobileLink => st.(isOpen := false)
    case DesktopLink => st
    case ThemeButton => st.(theme := Some(ToggledTheme(st.theme)))
  }

  /** The state after a run of events, the first one first: a non-empty run
      ends with its last event applied to the state the rest of it left. */
  function Run(st: NavState, events: seq<Event>): (r: NavState)
    ensures events != [] ==> r == Next(Run(st, events[..|events| - 1]), events[|events| - 1])
    decreases |events|
  {
    if events == [] then st
    else
      var rest := events[1..];
      assert rest != [] ==> events[..|events| - 1][1..] == rest[..|rest| - 1];
      Run(Next(st, events[0]), rest)
  }

  /** Pressing the menu button twice restores the state. */
  lemma MenuToggleTwice(st: NavState)
    ensures Next(Next(st, MenuButton), MenuButton) == st
    ensures Next(st, MenuButton).isOpen != st.isOpen
  {
  }

  /** A mobile link closes the menu whatever its prior state and leaves the
      theme. */
  lemma MobileLinkCloses(st: NavState)
    ensures !Next(st, MobileLink).isOpen
    ensures Next(st, MobileLink).theme == st.theme
    ensures Next(Next(st, MobileLink), MobileLink) == Next(st, MobileLink)
  {
  }

  /** A desktop link changes nothing. */
  lemma DesktopLinkKeeps(st: NavState)
    ensures Next(st, DesktopLink) == st
  {
  }

  /** The theme button never touches the menu, and nothing but the theme
      button touches the theme. */
  lemma ThemeAndMenuIndependent(st: NavState, e: Event)
    ensures Next(st, ThemeButton).isOpen == st.isOpen
    ensures e != ThemeButton ==> Next(st, e).theme == st.theme
  {
  }

  /** After any run of events the theme is the one it started as, or `light`
      or `dark`; it is the starting one when the theme button was never
      pressed. */
  lemma {:induction false} RunTheme(st: NavState, events: seq<Event>)
    ensures var t := Run(st, events).theme;
      t == st.theme || t == Some("light") || t == Some("dark")
    ensures ThemeButton !in events ==> Run(st, events).theme == st.theme
    decreases |events|
  {
    if events != [] {
      var next := Next(st, events[0]);
      RunTheme(next, events[1..]);
      assert events == [events[0]] + events[1..];
    }
  }

  /** The menu flag after a run depends only on the menu events in it: with
      no menu button and no mobile link pressed, it stays as it was. */
  lemma {:induction false} RunMenu(st: NavState, events: seq<Event>)
    ensures MenuButton !in events && MobileLink !in events ==> Run(st, events).isOpen == st.isOpen
    ensures events != [] && events[|events| - 1] == MobileLink ==> !Run(st, events).isOpen
    decreases |events|
  {
    if events != [] {
      RunMenu(Next(st, events[0]), events[1..]);
      assert events == [events[0]] + events[1..];
      if |events| == 1 {
        assert Run(st, events) == Run(Next(st, events[0]), []);
      }
    }
  }

  // ---------------------------------------------------------------------------
  // What is drawn

  datatype Icon = MenuIcon | CloseIcon

  /** The menu button shows a close icon while the menu is open and a menu
      icon otherwise. */
  function ToggleIcon(st: NavState): (icon: Icon)
    ensures icon == CloseIcon <==> st.isOpen
    ensures icon == MenuIcon <==> !st.isOpen
  {
    if st.isOpen then CloseIcon else MenuIcon
  }

  /** The links of the mobile menu as drawn: all of them while it is open,
      none otherwise. */
  function MobileMenu(st: NavState): (links: seq<Link>)
    ensures links != [] <==> st.isOpen
    ensures st.isOpen ==> links == PROJECTS
  {
    if st.isOpen then PROJECTS else []
  }

  /** The desktop row: the same list, drawn in every state. */
  function DesktopRow(st: NavState): seq<Link> {
    PROJECTS
  }

  /** Both rows are drawn from the one project list: no event changes the
      desktop row, and an open mobile menu shows exactly the desktop row. */
  lemma RowsAgree(st: NavState, e: Event)
    ensures DesktopRow(Next(st, e)) == DesktopRow(st)
    ensures st.isOpen <==> MobileMenu(st) == DesktopRow(st)
  {
  }

  // ---------------------------------------------------------------------------
  // The component

  /** The bar as the page holds it: the menu flag starts false and the theme
      comes from outside. */
  class NavigationBar {
    var isOpen: bool
    var theme: Option<string>

    function State(): NavState
      reads this
    {
      NavState(isOpen, theme)
    }

    constructor(initialTheme: Option<string>)
      ensures State() == NavState(false, initialTheme)
    {
      isOpen := false;
      theme := initialTheme;
    }

    method PressMenuButton()
      modifies this
      ensures State() == Next(old(State()), MenuButton)
    {
      isOpen := !isOpen;
    }

    /** Following a mobile link closes the menu; the page to go to is the
        link's target. */
    method ClickMobileLink(i: nat) returns (href: string)
      requires i < |PROJECTS|
      modifies this
      ensures href == PROJECTS[i].href
      ensures State() == Next(old(State()), MobileLink)
    {
      href := PROJECTS[i].href;
      isOpen := false;
    }

    /** Following a desktop link changes no state. */
    method ClickDesktopLink(i: nat) returns (href: string)
      requires i < |PROJECTS|
      ensures href == PROJECTS[i].href
      ensures State() == old(State())
    {
      href := PROJECTS[i].href;
    }

    method PressThemeButton()
      modifies this
      ensures State() == Next(old(State()), ThemeButton)
    {
      theme := Some(ToggledTheme(theme));
    }
  }
}
