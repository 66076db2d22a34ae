/** The pagination component (inc/wp-components/classes/class-pagination.php):
    once its query is set it appends one item per pagination link and
    records which results the current page shows. Building the links
    (`paginate_links` and the DOM parsing of `Pagination_Item`) is
    WordPress code: the built items are a parameter. The query is given by
    its `posts_per_page` and `paged` variables and its `found_posts`. */
module Pagination {
  import opened Wrappers
  import opened Assocs
  import opened Php
  import opened Falsy
  import opened Component

  /** `default_config()`. */
  const PaginationDefaults: Assoc<Value> := [
    Entry("base_url", VStr("")),
    Entry("range_end", VInt(0)),
    Entry("range_start", VInt(0)),
    Entry("total", VInt(0)),
    Entry("url_params_to_remove", VMap([]))]

  const PaginationDecl: ClassDecl :=
    ClassDecl("WP_Components\\Pagination", "pagination", PaginationDefaults, [], ["default"], [], [], {})

  /** A new pagination component is named `pagination`, shows an empty
      range out of zero results and has no base URL. */
  lemma PaginationDefaultConfig(k: string)
    ensures Construct(PaginationDecl).name == "pagination"
    ensures GetConfig(Construct(PaginationDecl), k) == Get(PaginationDefaults, k).GetOr(VNull)
  {
    assert UniqueKeys(PaginationDefaults) by {
      assert Keys(PaginationDefaults) == ["base_url", "range_end", "range_start", "total", "url_params_to_remove"];
    }
    ConstructConfig(PaginationDecl, k);
  }

  /** The page number: `absint( paged )`, at least 1. */
  function Page(paged: int): (p: nat)
    ensures p >= 1
    ensures paged != 0 ==> p == AbsInt(paged)
  {
    if AbsInt(paged) < 1 then 1 else AbsInt(paged)
  }

  /** `$page * $posts_per_page`: the last result of a full page. */
  function PageEnd(postsPerPage: int, paged: int): nat {
    Page(paged) * AbsInt(postsPerPage)
  }

  /** The integer a config value holds (0 for anything else). */
  function IntOf(v: Value): int {
    if v.VInt? then v.i else 0
  }

  /** Lines 69-79 of `query_has_set()`: record the range ending at `end`
      and the total, then clamp the end to the total. */
  function RecordRange(m: Node, ppp: nat, end: nat, total: nat): (r: Node)
    ensures r.children == m.children && r.name == m.name && r.groups == m.groups && r.isValid == m.isValid
    ensures GetConfig(r, "total") == VInt(total)
    ensures GetConfig(r, "range_start") == VInt(end - ppp + 1)
    ensures GetConfig(r, "range_end") == VInt(if end > total then total else end)
    ensures forall k :: k != "total" && k != "range_start" && k != "range_end" ==> GetConfig(r, k) == GetConfig(m, k)
  {
    var withEnd := SetConfig(m, "range_end", VInt(end), true);
    var withStart := SetConfig(withEnd, "range_start", VInt(end - ppp + 1), true);
    var withTotal := SetConfig(withStart, "total", VInt(total), true);
    var r := if end > total then SetConfig(withTotal, "range_end", VInt(total), true) else withTotal;
    SetConfigReads(m, "range_end", VInt(end), true);
    SetConfigReads(withEnd, "range_start", VInt(end - ppp + 1), true);
    SetConfigReads(withStart, "total", VInt(total), true);
    SetConfigReads(withTotal, "range_end", VInt(total), true);
    r
  }

  /** `query_has_set()`. */
  function QueryHasSet(n: Node, items: seq<Node>, postsPerPage: int, paged: int, foundPosts: Option<int>): (r: Node)
    ensures Present(r.children) == Present(n.children) + items
    ensures r.name == n.name && r.groups == n.groups && r.isValid == n.isValid
    ensures GetConfig(r, "total") == VInt(AbsInt(foundPosts.GetOr(0)))
    ensures GetConfig(r, "range_start").VInt? && IntOf(GetConfig(r, "range_start")) + AbsInt(postsPerPage) == PageEnd(postsPerPage, paged) + 1
    ensures PageEnd(postsPerPage, paged) > AbsInt(foundPosts.GetOr(0)) ==> GetConfig(r, "range_end") == VInt(AbsInt(foundPosts.GetOr(0)))
    ensures PageEnd(postsPerPage, paged) <= AbsInt(foundPosts.GetOr(0)) ==> GetConfig(r, "range_end") == VInt(PageEnd(postsPerPage, paged))
    ensures forall k :: k != "total" && k != "range_start" && k != "range_end" ==> GetConfig(r, k) == GetConfig(n, k)
  {
    var withItems := AppendChildren(n, AsSlots(items));
    PresentAsSlots(items);
    RecordRange(withItems, AbsInt(postsPerPage), PageEnd(postsPerPage, paged), AbsInt(foundPosts.GetOr(0)))
  }

  /** The last result shown never exceeds the total. */
  lemma RangeWithinTotal(n: Node, items: seq<Node>, postsPerPage: int, paged: int, foundPosts: Option<int>)
    ensures var r := QueryHasSet(n, items, postsPerPage, paged, foundPosts);
      0 <= IntOf(GetConfig(r, "range_end")) <= IntOf(GetConfig(r, "total"))
  {
  }

  /** A page inside the results shows exactly `posts_per_page` results. */
  lemma RangeSizeInside(n: Node, items: seq<Node>, postsPerPage: int, paged: int, foundPosts: Option<int>)
    requires Page(paged) * AbsInt(postsPerPage) <= AbsInt(foundPosts.GetOr(0))
    ensures var r := QueryHasSet(n, items, postsPerPage, paged, foundPosts);
      IntOf(GetConfig(r, "range_end")) - IntOf(GetConfig(r, "range_start")) + 1 == AbsInt(postsPerPage)
  {
  }

  /** The range is inverted (first shown after last shown) exactly when
      `posts_per_page` is 0 or the page starts past the last result. */
  lemma RangeInvertedIff(n: Node, items: seq<Node>, postsPerPage: int, paged: int, foundPosts: Option<int>)
    ensures var r := QueryHasSet(n, items, postsPerPage, paged, foundPosts);
      IntOf(GetConfig(r, "range_start")) > IntOf(GetConfig(r, "range_end"))
      <==> AbsInt(postsPerPage) == 0 || (Page(paged) - 1) * AbsInt(postsPerPage) >= AbsInt(foundPosts.GetOr(0))
  {
    var ppp := AbsInt(postsPerPage);
    var page := Page(paged);
    assert PageEnd(postsPerPage, paged) == (page - 1) * ppp + ppp;
  }
}
