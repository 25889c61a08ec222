/** The menu tables the two sidebars render, and which of their entries are highlighted. */
module Menu {

  /** One sidebar entry: its label and the path it links to. */
  datatype MenuItem = MenuItem(title: string, url: string)

  /** The titles of the entries whose url `isActive` accepts, in table order. */
  function ActiveTitles(items: seq<MenuItem>, isActive: string -> bool): (r: seq<string>)
    ensures |r| <= |items|
    ensures forall i :: 0 <= i < |items| && isActive(items[i].url) ==> items[i].title in r
    ensures forall t :: t in r ==> exists i :: 0 <= i < |items| && items[i].title == t && isActive(items[i].url)
    decreases |items|
  {
    if items == [] then []
    else
      var rest := ActiveTitles(items[1..], isActive);
      assert forall i :: 1 <= i < |items| ==> items[i] == items[1..][i - 1];
      (if isActive(items[0].url) then [items[0].title] else []) + rest
  }

  /** Two prefixes of one path are ordered by length: the shorter is a prefix of the longer. */
  lemma PrefixesNest(u: string, v: string, path: string)
    requires u <= path && v <= path && |u| <= |v|
    ensures u <= v
  {
    assert u == path[..|u|] && v == path[..|v|];
    assert v[..|u|] == path[..|u|];
  }
}
