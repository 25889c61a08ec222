/** The participant dashboard sidebar: which entry is highlighted for the current path. */
module DashboardSidebar {
  import opened Menu

  const HomeUrl: string := "/dashboard"

  const MenuItems: seq<MenuItem> := [
    MenuItem("Home", "/dashboard"),
    MenuItem("My Collections", "/dashboard/collections"),
    MenuItem("Feedback", "/dashboard/feedback"),
    MenuItem("Chatbot", "/dashboard/chatbot")
  ]

  /** The `isActive` expression of the menu loop. */
  predicate IsActive(pathname: string, url: string) {
    pathname == url || (url != HomeUrl && url <= pathname)
  }

  /** Home is highlighted only on its own path; any other url on every path it prefixes. */
  lemma ActiveIff(pathname: string, url: string)
    ensures url == HomeUrl ==> (IsActive(pathname, url) <==> pathname == url)
    ensures url != HomeUrl ==> (IsActive(pathname, url) <==> url <= pathname)
  {
  }

  /** Matching is on raw characters, not path segments. */
  lemma NoSegmentBoundary()
    ensures IsActive("/dashboard/collections42", "/dashboard/collections")
    ensures IsActive("/dashboard/chatbotx", "/dashboard/chatbot")
  {
    assert "/dashboard/collections" <= "/dashboard/collections42";
    assert "/dashboard/chatbot" <= "/dashboard/chatbotx";
  }

  /** No url of the table other than Home's is a prefix of another one. */
  lemma UrlsDoNotNest(i: nat, j: nat)
    requires 1 <= i < |MenuItems| && 1 <= j < |MenuItems| && i != j
    ensures !(MenuItems[i].url <= MenuItems[j].url)
  {
    var u, v := MenuItems[i].url, MenuItems[j].url;
    if |u| <= |v| {
      if u[..12] != v[..12] {
        assert u[..12] != v[..|u|][..12];
      } else {
        assert u[12] != v[12];
      }
    }
  }

  /** For every path at most one entry of the table is highlighted. */
  lemma AtMostOneActive(pathname: string, i: nat, j: nat)
    requires i < |MenuItems| && j < |MenuItems|
    requires IsActive(pathname, MenuItems[i].url) && IsActive(pathname, MenuItems[j].url)
    ensures i == j
  {
    if i != j {
      var u, v := MenuItems[i].url, MenuItems[j].url;
      assert u <= pathname && v <= pathname;
      if i == 0 || j == 0 {
        assert false;
      } else if |u| <= |v| {
        PrefixesNest(u, v, pathname);
        UrlsDoNotNest(i, j);
      } else {
        PrefixesNest(v, u, pathname);
        UrlsDoNotNest(j, i);
      }
    }
  }
}
