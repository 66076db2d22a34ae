/** The `Content_List` trait (inc/wp-components/traits/trait-content-list.php):
    a component that lists posts turns post ids into child items, topping
    the id list up with a backfill query when it is short. The backfill
    query (a `WP_Query`) and the item a class builds for a post id are
    parameters. */
module ContentList {
  import opened Wrappers
  import opened Assocs
  import opened Php
  import opened Falsy
  import opened Component

  /** The arguments handed to the backfill query: the caller's arguments
      with `post__not_in`, `posts_per_page` and `fields => 'ids'`
      overriding theirs. */
  datatype BackfillRequest = BackfillRequest(args: Assoc<Value>, notIn: seq<int>, postsPerPage: int)

  /** The backfill query: the post ids it finds. */
  type Query = BackfillRequest -> seq<int>

  /** The query returns at most the number of posts asked for. */
  ghost predicate HonoursCount(query: Query) {
    forall req :: |query(req)| <= req.postsPerPage || req.postsPerPage < 0
  }

  /** `backfill_content_item_ids( $ids, $backfill_to, $backfill_args )`:
      with backfill disabled (`0 === $backfill_to`) or unnecessary the ids
      come back unchanged; otherwise the posts of a query for the missing
      number, excluding the given ids, are appended. */
  function Backfill(ids: seq<int>, backfillTo: int, args: Assoc<Value>, query: Query): (r: seq<int>)
    ensures |r| >= |ids| && r[..|ids|] == ids
    ensures backfillTo <= |ids| ==> r == ids
    ensures backfillTo > |ids| ==> r[|ids|..] == query(BackfillRequest(args, ids, backfillTo - |ids|))
  {
    if backfillTo == 0 || backfillTo <= |ids| then ids
    else
      var posts := query(BackfillRequest(args, ids, backfillTo - |ids|));
      assert (ids + posts)[..|ids|] == ids && (ids + posts)[|ids|..] == posts;
      if |posts| == 0 then ids else ids + posts
  }

  /** With a query that honours `posts_per_page`, the list never grows past
      the larger of its own length and `$backfill_to`. */
  lemma BackfillBound(ids: seq<int>, backfillTo: int, args: Assoc<Value>, query: Query)
    requires HonoursCount(query)
    ensures |Backfill(ids, backfillTo, args, query)| <= if backfillTo > |ids| then backfillTo else |ids|
  {
    var r := Backfill(ids, backfillTo, args, query);
    if backfillTo > |ids| {
      assert |r[|ids|..]| <= backfillTo - |ids|;
    }
  }

  /** Ids listed at most once stay so when the query honours
      `post__not_in` and finds each post once. */
  lemma BackfillDistinct(ids: seq<int>, backfillTo: int, args: Assoc<Value>, query: Query)
    requires forall i, j :: 0 <= i < j < |ids| ==> ids[i] != ids[j]
    requires forall req, i, j :: 0 <= i < j < |query(req)| ==> query(req)[i] != query(req)[j]
    requires forall req, x :: x in query(req) ==> x !in req.notIn
    ensures var r := Backfill(ids, backfillTo, args, query);
      forall i, j :: 0 <= i < j < |r| ==> r[i] != r[j]
  {
    var r := Backfill(ids, backfillTo, args, query);
    if backfillTo > |ids| {
      var req := BackfillRequest(args, ids, backfillTo - |ids|);
      var posts := query(req);
      assert r[|ids|..] == posts;
      forall i, j | 0 <= i < j < |r| ensures r[i] != r[j] {
        if j >= |ids| {
          assert r[j] == posts[j - |ids|];
          if i < |ids| {
            assert r[i] == ids[i] && ids[i] in req.notIn;
            assert posts[j - |ids|] in query(req);
          } else {
            assert r[i] == posts[i - |ids|];
          }
        } else {
          assert r[i] == ids[i] && r[j] == ids[j];
        }
      }
    }
  }

  /** `array_map( [ $this, 'get_content_list_item' ], $post_ids )`. */
  function MapIds(ids: seq<int>, item: int -> Option<Node>): (r: seq<Option<Node>>)
    ensures |r| == |ids| && forall i :: 0 <= i < |ids| ==> r[i] == item(ids[i])
  {
    seq(|ids|, i requires 0 <= i < |ids| => item(ids[i]))
  }

  /** `get_content_list_items( $post_ids )`: nothing when the class has no
      `get_content_list_item` method, otherwise the items built for the ids
      with the falsy ones dropped. */
  function ContentListItems(ids: seq<int>, hasItemMethod: bool, item: int -> Option<Node>): (r: seq<Node>)
    ensures !hasItemMethod ==> r == []
    ensures hasItemMethod ==> forall x :: x in r <==> exists i :: 0 <= i < |ids| && item(ids[i]) == Some(x)
    ensures |r| <= |ids|
  {
    if !hasItemMethod then []
    else
      var slots := MapIds(ids, item);
      assert forall x :: Some(x) in slots <==> exists i :: 0 <= i < |ids| && item(ids[i]) == Some(x);
      Present(slots)
  }

  /** Items are built id by id, in order. */
  lemma ContentListItemsAppend(a: seq<int>, b: seq<int>, hasItemMethod: bool, item: int -> Option<Node>)
    ensures ContentListItems(a + b, hasItemMethod, item) == ContentListItems(a, hasItemMethod, item) + ContentListItems(b, hasItemMethod, item)
  {
    if hasItemMethod {
      assert MapIds(a + b, item) == MapIds(a, item) + MapIds(b, item);
      PresentAppend(MapIds(a, item), MapIds(b, item));
    }
  }

  /** `parse_from_post_ids( $ids, $backfill_to, $backfill_args )`: backfill,
      build the items, append them. */
  function ParseFromPostIds(n: Node, ids: seq<int>, backfillTo: int, args: Assoc<Value>, query: Query, hasItemMethod: bool, item: int -> Option<Node>): (r: Node)
    ensures r.(children := n.children) == n
    ensures Present(r.children) == Present(n.children) + ContentListItems(Backfill(ids, backfillTo, args, query), hasItemMethod, item)
  {
    var items := ContentListItems(Backfill(ids, backfillTo, args, query), hasItemMethod, item);
    PresentAsSlots(items);
    AppendChildren(n, AsSlots(items))
  }

  /** The given posts come first, in order, before any backfilled post. */
  lemma ParseFromPostIdsOrder(n: Node, ids: seq<int>, backfillTo: int, args: Assoc<Value>, query: Query, hasItemMethod: bool, item: int -> Option<Node>)
    ensures var backfilled := Backfill(ids, backfillTo, args, query);
      Present(ParseFromPostIds(n, ids, backfillTo, args, query, hasItemMethod, item).children)
      == Present(n.children) + ContentListItems(ids, hasItemMethod, item) + ContentListItems(backfilled[|ids|..], hasItemMethod, item)
  {
    var backfilled := Backfill(ids, backfillTo, args, query);
    assert backfilled == ids + backfilled[|ids|..];
    ContentListItemsAppend(ids, backfilled[|ids|..], hasItemMethod, item);
  }
}
