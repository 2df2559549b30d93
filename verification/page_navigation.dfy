/**
 Single-page navigation. A click on a navigation link compares the link's
 lower-cased `innerHTML` with the `data-page` name of every page, in order.
 At position `i` it sets page `i` and link `i` together, so link indices are
 tied to page indices, not to the link that was clicked or its text.
 */
module PageNavigation {
  import opened Text

  /** A `data-page` section: its page name and whether it is shown. */
  datatype Page = Page(name: string, active: bool)

  /** A `data-nav-link`: its `innerHTML` and whether it is marked active. */
  datatype Link = Link(caption: string, active: bool)

  datatype Nav = Nav(pages: seq<Page>, links: seq<Link>)

  function Min(a: nat, b: nat): nat {
    if a <= b then a else b
  }

  /** Some page among the first `n` carries the name `key`. */
  predicate MatchBefore(key: string, pages: seq<Page>, n: nat)
    requires n <= |pages|
  {
    exists i :: 0 <= i < n && pages[i].name == key
  }

  /**
   The click handler of link `k`. `scrolled` says whether the viewport was
   scrolled to the top at least once. `threw` says whether the handler
   stopped with a TypeError. That happens when there are fewer links than
   pages: page `|links|` is updated and then `links[|links|]` is undefined.
   Updates made before the error are kept.
   */
  method ClickLink(nav: Nav, k: nat) returns (r: Nav, scrolled: bool, threw: bool)
    requires k < |nav.links|
    ensures |r.pages| == |nav.pages| && |r.links| == |nav.links|
    ensures threw <==> |nav.links| < |nav.pages|
    ensures forall i :: 0 <= i < |nav.pages| ==> r.pages[i].name == nav.pages[i].name
    ensures forall i :: 0 <= i < |nav.links| ==> r.links[i].caption == nav.links[i].caption
    // every page the loop reached is shown iff its name is the lower-cased caption
    ensures forall i :: 0 <= i < Min(|nav.pages|, |nav.links| + 1) ==>
      (r.pages[i].active <==> nav.pages[i].name == ToLower(nav.links[k].caption))
    // pages after the one where the handler threw are untouched
    ensures forall i :: |nav.links| + 1 <= i < |nav.pages| ==> r.pages[i] == nav.pages[i]
    // link i mirrors page i wherever both exist
    ensures forall i :: 0 <= i < Min(|nav.pages|, |nav.links|) ==>
      r.links[i].active == r.pages[i].active
    // links with no page at their index are untouched
    ensures forall i :: |nav.pages| <= i < |nav.links| ==> r.links[i] == nav.links[i]
    ensures scrolled <==> MatchBefore(ToLower(nav.links[k].caption), nav.pages, Min(|nav.pages|, |nav.links|))
    ensures !threw && !scrolled ==> forall i :: 0 <= i < |r.pages| ==> !r.pages[i].active
  {
    var key := ToLower(nav.links[k].caption);
    var pages, links := nav.pages, nav.links;
    scrolled, threw := false, false;
    var i := 0;
    while i < |pages|
      invariant i <= |nav.pages|
      invariant |pages| == |nav.pages| && |links| == |nav.links|
      invariant i <= |links|
      invariant forall j :: 0 <= j < |pages| ==> pages[j].name == nav.pages[j].name
      invariant forall j :: 0 <= j < |links| ==> links[j].caption == nav.links[j].caption
      invariant forall j :: 0 <= j < i ==> (pages[j].active <==> nav.pages[j].name == key)
      invariant forall j :: 0 <= j < i ==> links[j].active == pages[j].active
      invariant forall j :: i <= j < |pages| ==> pages[j] == nav.pages[j]
      invariant forall j :: i <= j < |links| ==> links[j] == nav.links[j]
      invariant scrolled <==> MatchBefore(key, nav.pages, i)
      invariant !threw
    {
      var hit := key == pages[i].name;
      pages := pages[i := pages[i].(active := hit)];
      if i >= |links| {
        threw := true;
        break;
      }
      links := links[i := links[i].(active := hit)];
      if hit {
        scrolled := true;
      }
      i := i + 1;
    }
    r := Nav(pages, links);
  }
}
