/** Page navigation: a stored page name, overwritten by the sidebar selection,
    and the dispatch from the stored name to the page that is rendered. The
    session store is an explicit parameter here: the name stored so far, or
    none before the first run of the session. */
module Navigation {
  import opened Wrappers

  /** The sidebar menu, in display order. */
  const Menu: seq<string> := ["Home", "Map", "Year", "Classification", "Names"]

  /** The name the store is opened with; lower-case, so not a menu entry. */
  const InitialPage: string := "home"

  /** The pages the program can render. */
  datatype Page = HomePage | MapPage | YearsPage | ClassificationPage | NamesPage

  /** The menu entry that selects a page. */
  function Title(p: Page): (s: string)
    ensures s in Menu
  {
    match p
    case HomePage => "Home"
    case MapPage => "Map"
    case YearsPage => "Year"
    case ClassificationPage => "Classification"
    case NamesPage => "Names"
  }

  /** The stored page after one navigation step. The store is opened with the
      initial name when empty; a selection that is a menu entry overwrites it,
      and anything else leaves it as it was. */
  function Nav(stored: Option<string>, selection: string): (page: string)
    ensures selection in Menu ==> page == selection
    ensures selection !in Menu ==> page == stored.GetOr(InitialPage)
  {
    var current := if stored.None? then InitialPage else stored.value;
    if selection == "Home" then "Home"
    else if selection == "Year" then "Year"
    else if selection == "Map" then "Map"
    else if selection == "Classification" then "Classification"
    else if selection == "Names" then "Names"
    else current
  }

  /** The page rendered for a stored name: the home page for "Home" and for any
      name outside the menu, otherwise the page the entry names. */
  function Dispatch(page: string): (p: Page)
    ensures p == HomePage <==> page == "Home" || page !in Menu
    ensures page in Menu ==> Title(p) == page
  {
    if page == "Home" || page !in Menu then HomePage
    else if page == "Year" then YearsPage
    else if page == "Map" then MapPage
    else if page == "Classification" then ClassificationPage
    else if page == "Names" then NamesPage
    else HomePage
  }

  /** Dispatch undoes `Title`: selecting a page's menu entry renders that page. */
  lemma DispatchTitle(p: Page)
    ensures Dispatch(Title(p)) == p
  {
  }

  /** The initial lower-case name is not a menu entry, so it renders the home page. */
  lemma InitialPageRendersHome()
    ensures InitialPage !in Menu
    ensures Dispatch(InitialPage) == HomePage
  {
  }

  /** One run of the program: navigate, then render the page the store names.
      Returns the rendered page and the new stored name. */
  function Run(stored: Option<string>, selection: string): (r: (Page, string))
    ensures selection in Menu ==> Title(r.0) == selection && r.1 == selection
    ensures selection !in Menu && stored.None? ==> r.0 == HomePage && r.1 == InitialPage
  {
    var page := Nav(stored, selection);
    (Dispatch(page), page)
  }
}
