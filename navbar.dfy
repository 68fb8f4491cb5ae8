/** The navigation bar: its four state fields, the menu items and the search box. */
module Navbar {
  import opened Wrappers
  import opened JsText
  import Uri
  import Search

  /** `TOP_OFFSET`: from this scroll position on, the bar gets its background. */
  const TopOffset: real := 66.0

  const SearchPrefix := "/search?q="

  /** A menu entry; `name` is the source's `label` (a reserved word in Dafny). */
  datatype MenuItem = MenuItem(name: string, route: string, active: bool)

  /** `menuItems`: only 'Home' has an `active` flag, set on the path '/'. */
  function MenuItems(pathname: string): (items: seq<MenuItem>)
    ensures |items| == 3
    ensures items[0] == MenuItem("Home", "/", pathname == "/")
    ensures items[1].name == "My List" && items[1].route == "/my-list"
    ensures items[2].name == "Series" && items[2].route == "/series"
    ensures forall i :: 0 <= i < |items| && items[i].active ==> items[i].name == "Home" && pathname == "/"
  {
    [ MenuItem("Home", "/", pathname == "/"),
      MenuItem("My List", "/my-list", false),
      MenuItem("Series", "/series", false) ]
  }

  /** Where a submission of `query` navigates, if anywhere: a blank query goes nowhere. */
  function SearchTarget(query: string): (target: Option<string>)
    ensures target.None? <==> IsBlank(query)
    ensures target.Some? ==> target.value == SearchPrefix + Uri.EncodeUriComponent(query)
  {
    TrimEmptyIff(query);
    if Trim(query) != "" then Some(SearchPrefix + Uri.EncodeUriComponent(query)) else None
  }

  /**
   * The search page reads the navigated-to URL's `q` back as exactly the
   * query that was typed, surrounding whitespace included.
   */
  lemma SubmittedQueryReachesSearch(query: string)
    requires !IsBlank(query)
    ensures var url := SearchTarget(query).value;
      && url[..|SearchPrefix|] == SearchPrefix
      && Search.SearchTerm(Uri.DecodeQueryValue(url[|SearchPrefix|..])) == query
  {
    var url := SearchTarget(query).value;
    assert url[|SearchPrefix|..] == Uri.EncodeUriComponent(query);
    Uri.EncodeDecodeRoundTrip(query);
  }

  class NavbarState {
    var showAccountMenu: bool
    var showMobileMenu: bool
    var showBackground: bool
    var searchQuery: string

    constructor ()
      ensures !showAccountMenu && !showMobileMenu && !showBackground && searchQuery == ""
    {
      showAccountMenu, showMobileMenu, showBackground := false, false, false;
      searchQuery := "";
    }

    /** `toggleAccountMenu`. */
    method ToggleAccountMenu()
      modifies this`showAccountMenu
      ensures showAccountMenu == !old(showAccountMenu)
    {
      showAccountMenu := !showAccountMenu;
    }

    /** `toggleMobileMenu`. */
    method ToggleMobileMenu()
      modifies this`showMobileMenu
      ensures showMobileMenu == !old(showMobileMenu)
    {
      showMobileMenu := !showMobileMenu;
    }

    /** The (debounced) scroll listener. */
    method HandleScroll(scrollY: real)
      modifies this`showBackground
      ensures showBackground <==> scrollY >= TopOffset
    {
      showBackground := scrollY >= TopOffset;
    }

    /** The search box's `onChange`. */
    method SetSearchQuery(value: string)
      modifies this`searchQuery
      ensures searchQuery == value
    {
      searchQuery := value;
    }

    /**
     * `handleSearch`: a query that trims to nothing is ignored and kept; any
     * other is pushed as `/search?q=` plus its untrimmed encoding, and the box
     * is cleared.
     */
    method HandleSearch() returns (push: Option<string>)
      modifies this`searchQuery
      ensures push == SearchTarget(old(searchQuery))
      ensures IsBlank(old(searchQuery)) ==> push.None? && searchQuery == old(searchQuery)
      ensures !IsBlank(old(searchQuery)) ==> searchQuery == ""
    {
      push := None;
      TrimEmptyIff(searchQuery);
      if Trim(searchQuery) != "" {
        push := Some(SearchPrefix + Uri.EncodeUriComponent(searchQuery));
        searchQuery := "";
      }
    }
  }

  /** Toggling a menu twice restores it and leaves the other fields alone. */
  method ToggleTwiceRestores(nav: NavbarState)
    modifies nav
    ensures nav.showAccountMenu == old(nav.showAccountMenu) && nav.showMobileMenu == old(nav.showMobileMenu)
    ensures nav.showBackground == old(nav.showBackground) && nav.searchQuery == old(nav.searchQuery)
  {
    nav.ToggleAccountMenu();
    nav.ToggleAccountMenu();
    nav.ToggleMobileMenu();
    nav.ToggleMobileMenu();
  }
}
