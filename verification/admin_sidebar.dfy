/**
 * The admin sidebar: which entry of its menu is highlighted for the
 * current path. The menu links "My Research" to "/admin/" while the rule
 * exempts "/admin" from prefix matching; the corrected table links it to
 * "/admin", the page's real path.
 */
module AdminSidebar {
  import opened Menu

  /** The menu as written. */
  const MenuItems: seq<MenuItem> := [
    MenuItem("My Research", "/admin/"),
    MenuItem("Create Research", "/admin/create")
  ]

  /** The menu with "My Research" pointing at the path its page is served on. */
  const CorrectedMenuItems: seq<MenuItem> := [
    MenuItem("My Research", "/admin"),
    MenuItem("Create Research", "/admin/create")
  ]

  /** The urls the rule exempts from prefix matching. */
  predicate ExactOnly(url: string) {
    url == "/admin" || url == "/admin/research/create"
  }

  /** The `isActive` expression of the menu loop. */
  predicate IsActive(pathname: string, url: string) {
    pathname == url || (url != "/admin" && url <= pathname && url != "/admin/research/create")
  }

  /** An exempt url is highlighted only on its own path; any other url on every path it prefixes. */
  lemma ActiveIff(pathname: string, url: string)
    ensures ExactOnly(url) ==> (IsActive(pathname, url) <==> pathname == url)
    ensures !ExactOnly(url) ==> (IsActive(pathname, url) <==> url <= pathname)
  {
  }

  /** The highlighted titles for a path. */
  function Highlighted(items: seq<MenuItem>, pathname: string): seq<string> {
    ActiveTitles(items, url => IsActive(pathname, url))
  }

  /** With the table as written, "Create Research" never lights up alone. */
  lemma CreateImpliesMyResearch(pathname: string)
    ensures IsActive(pathname, "/admin/create") ==> IsActive(pathname, "/admin/")
  {
    if IsActive(pathname, "/admin/create") {
      assert "/admin/" <= "/admin/create";
    }
  }

  /** As written, the create page highlights both entries. */
  lemma CreatePathHighlightsBoth()
    ensures Highlighted(MenuItems, "/admin/create") == ["My Research", "Create Research"]
  {
    assert "/admin/" <= "/admin/create";
  }

  /** As written, the research list page, served at "/admin", highlights nothing. */
  lemma RootPathHighlightsNone()
    ensures Highlighted(MenuItems, "/admin") == []
  {
    assert !("/admin/create" <= "/admin");
  }

  /** With the corrected table every path highlights at most one entry. */
  lemma CorrectedAtMostOne(pathname: string)
    ensures |Highlighted(CorrectedMenuItems, pathname)| <= 1
  {
    if IsActive(pathname, "/admin") {
      assert pathname == "/admin";
      assert !("/admin/create" <= pathname);
    }
  }

  /** With the corrected table each entry is highlighted, alone, on its own path. */
  lemma CorrectedOwnPaths()
    ensures Highlighted(CorrectedMenuItems, "/admin") == ["My Research"]
    ensures Highlighted(CorrectedMenuItems, "/admin/create") == ["Create Research"]
  {
    assert !("/admin/create" <= "/admin");
  }

  /** As written, "My Research" is highlighted on every path under "/admin/", and on no other. */
  lemma MyResearchPaths(pathname: string)
    ensures "My Research" in Highlighted(MenuItems, pathname) <==> "/admin/" <= pathname
  {
    assert "My Research" != "Create Research";
  }

  /** With the corrected table, "My Research" is highlighted on "/admin" only. */
  lemma CorrectedMyResearchPaths(pathname: string)
    ensures "My Research" in Highlighted(CorrectedMenuItems, pathname) <==> pathname == "/admin"
  {
    assert "My Research" != "Create Research";
  }

  /**
   * A study page such as "/admin/42" highlights "My Research" as written,
   * and nothing with the corrected table.
   */
  lemma StudyPage()
    ensures Highlighted(MenuItems, "/admin/42") == ["My Research"]
    ensures Highlighted(CorrectedMenuItems, "/admin/42") == []
  {
  }
}
