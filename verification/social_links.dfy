/** The social links component
    (inc/wp-components/classes/class-social-links.php) and its items
    (inc/wp-components/classes/class-social-item.php): one item per enabled
    service that has a link configuration. */
module SocialLinks {
  import opened Wrappers
  import opened Assocs
  import opened Php
  import opened Falsy
  import opened Component
  import opened Positions

  /** `Social_Links::default_config()`. */
  const SocialLinksDefaults: Assoc<Value> := [
    Entry("services", VMap([])),
    Entry("display_icons", VBool(true))]

  const SocialLinksDecl: ClassDecl :=
    ClassDecl("WP_Components\\Social_Links", "social-links", SocialLinksDefaults, [], ["default"], [], [], {})

  /** `Social_Item::default_config()`. */
  const SocialItemDefaults: Assoc<Value> := [
    Entry("display_icon", VBool(true)),
    Entry("type", VStr("")),
    Entry("url", VStr(""))]

  const SocialItemDecl: ClassDecl :=
    ClassDecl("WP_Components\\Social_Item", "social-item", SocialItemDefaults, [], ["default"], [], [], {})

  /** `( new Social_Item() )->merge_config( $config )`. */
  function SocialItem(config: Assoc<Value>): (r: Node)
    ensures r.name == "social-item" && r.children == []
  {
    MergeConfig(Construct(SocialItemDecl), config)
  }

  /** An item reads its merged config first and its defaults second. */
  lemma SocialItemConfig(config: Assoc<Value>, k: string)
    requires UniqueKeys(config)
    ensures GetConfig(SocialItem(config), k) == if k in Keys(config) then Get(config, k).value else Get(SocialItemDefaults, k).GetOr(VNull)
  {
    assert UniqueKeys(SocialItemDefaults) by {
      assert Keys(SocialItemDefaults) == ["display_icon", "type", "url"];
    }
    ConstructConfig(SocialItemDecl, k);
    MergeConfigGet(Construct(SocialItemDecl), config, k);
  }

  /** The link configuration of a service: `null` when there is none. */
  function LinkConfig(linkConfigs: Assoc<Value>, service: string): Value {
    Get(linkConfigs, service).GetOr(VNull)
  }

  /** `(bool) $enabled && ! empty( $link_configs[ $service ] )`. */
  predicate Linked(e: Entry<Value>, linkConfigs: Assoc<Value>) {
    !Empty(e.val) && !Empty(LinkConfig(linkConfigs, e.key))
  }

  /** The number of services that get an item. */
  function LinkedCount(services: Assoc<Value>, linkConfigs: Assoc<Value>): (c: nat)
    ensures c <= |services|
  {
    if |services| == 0 then 0
    else (if Linked(services[0], linkConfigs) then 1 else 0) + LinkedCount(services[1..], linkConfigs)
  }

  /** Some linked service has a configuration that is not an array, which
      `merge_config( array $new_config )` rejects. */
  predicate BadLink(services: Assoc<Value>, linkConfigs: Assoc<Value>) {
    exists i :: 0 <= i < |services| && Linked(services[i], linkConfigs) && !LinkConfig(linkConfigs, services[i].key).VMap?
  }

  /** The item a linked service gets, built by `mk` from its
      configuration; a configuration that is not an array gives none (the
      loop fails there instead). */
  function ItemFor(e: Entry<Value>, linkConfigs: Assoc<Value>, mk: Assoc<Value> -> Node): Child {
    var c := LinkConfig(linkConfigs, e.key);
    if c.VMap? then Some(mk(c.entries)) else None
  }

  /** `c` is the item that the linked service `e` gets. */
  predicate ItemOf(e: Entry<Value>, linkConfigs: Assoc<Value>, mk: Assoc<Value> -> Node, c: Child) {
    Linked(e, linkConfigs) && LinkConfig(linkConfigs, e.key).VMap? && c == ItemFor(e, linkConfigs, mk)
  }

  /** `ItemOf` as a relation between services and slots. */
  function ItemRel(linkConfigs: Assoc<Value>, mk: Assoc<Value> -> Node): (Entry<Value>, Child) -> bool {
    (e: Entry<Value>, c: Child) => ItemOf(e, linkConfigs, mk, c)
  }

  lemma BadLinkCons(services: Assoc<Value>, linkConfigs: Assoc<Value>)
    requires |services| > 0
    ensures BadLink(services, linkConfigs) <==> (Linked(services[0], linkConfigs) && !LinkConfig(linkConfigs, services[0].key).VMap?) || BadLink(services[1..], linkConfigs)
  {
    if BadLink(services[1..], linkConfigs) {
      var i :| 0 <= i < |services[1..]| && Linked(services[1..][i], linkConfigs) && !LinkConfig(linkConfigs, services[1..][i].key).VMap?;
      assert services[i + 1] == services[1..][i];
    }
    if BadLink(services, linkConfigs) {
      var i :| 0 <= i < |services| && Linked(services[i], linkConfigs) && !LinkConfig(linkConfigs, services[i].key).VMap?;
      if i > 0 {
        assert services[1..][i - 1] == services[i];
      }
    }
  }

  /** Which services are linked, position by position. */
  function LinkedFlags(services: Assoc<Value>, linkConfigs: Assoc<Value>): (r: seq<bool>)
    ensures |r| == |services|
    ensures forall i :: 0 <= i < |services| ==> r[i] == Linked(services[i], linkConfigs)
  {
    seq(|services|, i requires 0 <= i < |services| => Linked(services[i], linkConfigs))
  }

  /** The item each service would get, position by position. */
  function ServiceItems(services: Assoc<Value>, linkConfigs: Assoc<Value>, mk: Assoc<Value> -> Node): (r: seq<Child>)
    ensures |r| == |services|
    ensures forall i :: 0 <= i < |services| ==> r[i] == ItemFor(services[i], linkConfigs, mk)
  {
    seq(|services|, i requires 0 <= i < |services| => ItemFor(services[i], linkConfigs, mk))
  }

  /** The positions of the linked services, in increasing order: every
      linked service appears once, and nothing else does. */
  function LinkedIdx(services: Assoc<Value>, linkConfigs: Assoc<Value>): (r: seq<nat>)
    ensures forall k :: 0 <= k < |r| ==> r[k] < |services| && Linked(services[r[k]], linkConfigs)
    ensures forall k, l :: 0 <= k < l < |r| ==> r[k] < r[l]
    ensures forall i :: 0 <= i < |services| && Linked(services[i], linkConfigs) ==> i in r
  {
    var flags := LinkedFlags(services, linkConfigs);
    MarkedSound(flags, 0);
    MarkedIncreasing(flags, 0);
    MarkedComplete(flags, 0);
    Marked(flags, 0)
  }

  /** The items the loop appends: those of the linked services. */
  function LinkedItems(services: Assoc<Value>, linkConfigs: Assoc<Value>, mk: Assoc<Value> -> Node): (r: seq<Child>)
    ensures |r| <= |services|
  {
    Select(ServiceItems(services, linkConfigs, mk), LinkedFlags(services, linkConfigs), 0)
  }

  /** The k-th item is built from the configuration of the k-th linked
      service. */
  lemma LinkedItemsAt(services: Assoc<Value>, linkConfigs: Assoc<Value>, mk: Assoc<Value> -> Node)
    ensures |LinkedItems(services, linkConfigs, mk)| == |LinkedIdx(services, linkConfigs)|
    ensures forall k :: 0 <= k < |LinkedIdx(services, linkConfigs)| ==>
      LinkedItems(services, linkConfigs, mk)[k] == ItemFor(services[LinkedIdx(services, linkConfigs)[k]], linkConfigs, mk)
  {
    SelectAt(ServiceItems(services, linkConfigs, mk), LinkedFlags(services, linkConfigs), 0);
  }

  /** The items of a list of services: the first service's item, if it is
      linked, then the items of the rest. */
  lemma LinkedItemsCons(services: Assoc<Value>, linkConfigs: Assoc<Value>, mk: Assoc<Value> -> Node)
    requires |services| > 0
    ensures LinkedItems(services, linkConfigs, mk) ==
      (if Linked(services[0], linkConfigs) then [ItemFor(services[0], linkConfigs, mk)] else [])
      + LinkedItems(services[1..], linkConfigs, mk)
  {
    var items := ServiceItems(services, linkConfigs, mk);
    var flags := LinkedFlags(services, linkConfigs);
    SelectTail(items, flags, 0);
    assert items[1..] == ServiceItems(services[1..], linkConfigs, mk);
    assert flags[1..] == LinkedFlags(services[1..], linkConfigs);
  }

  /** Children that hold the first service's item, if any, followed by the
      items of the rest, hold the items of all the services. */
  lemma LinkedItemsStep(prev: seq<Child>, head: seq<Child>, cs: seq<Child>, services: Assoc<Value>, linkConfigs: Assoc<Value>, mk: Assoc<Value> -> Node)
    requires |services| > 0
    requires head == if Linked(services[0], linkConfigs) then [ItemFor(services[0], linkConfigs, mk)] else []
    requires cs == (prev + head) + LinkedItems(services[1..], linkConfigs, mk)
    ensures cs == prev + LinkedItems(services, linkConfigs, mk)
  {
    LinkedItemsCons(services, linkConfigs, mk);
    AppendAssoc(prev, head, LinkedItems(services[1..], linkConfigs, mk));
  }

  /** The slots after an item appended for the first service: the earlier
      children, then that item, then slots covered by the later services. */
  lemma LinkedStep(prev: seq<Child>, item: Child, cs: seq<Child>, services: Assoc<Value>, rel: (Entry<Value>, Child) -> bool)
    requires |services| > 0 && rel(services[0], item)
    requires |cs| >= |prev| + 1 && cs[..|prev| + 1] == prev + [item]
    requires AllCoveredBy(cs[|prev| + 1..], services[1..], rel)
    ensures cs[..|prev|] == prev
    ensures AllCoveredBy(cs[|prev|..], services, rel)
  {
    assert cs[..|prev|] == cs[..|prev| + 1][..|prev|];
    assert cs[|prev|..] == [item] + cs[|prev| + 1..] by {
      assert cs[|prev|] == cs[..|prev| + 1][|prev|];
    }
    AllCoveredByCons(item, cs[|prev| + 1..], services, rel);
  }

  /** The loop of `create_link_components( $link_configs )` over the
      services, in order. */
  function AddLinks(n: Node, services: Assoc<Value>, linkConfigs: Assoc<Value>, mk: Assoc<Value> -> Node): (r: Result<Node, Fault>)
    ensures r.Success? <==> !BadLink(services, linkConfigs)
    ensures r.Success? ==> r.value.(children := n.children) == n
    ensures r.Success? ==> |r.value.children| == |n.children| + LinkedCount(services, linkConfigs)
    ensures r.Success? ==> r.value.children[..|n.children|] == n.children
    ensures r.Success? ==> AllCoveredBy(r.value.children[|n.children|..], services, ItemRel(linkConfigs, mk))
    ensures r.Success? ==> r.value.children == n.children + LinkedItems(services, linkConfigs, mk)
    decreases |services|
  {
    if |services| == 0 then Success(n)
    else
      var e := services[0];
      BadLinkCons(services, linkConfigs);
      if Linked(e, linkConfigs) then
        if !LinkConfig(linkConfigs, e.key).VMap? then Failure(NotAnArray(e.key))
        else
          var item := ItemFor(e, linkConfigs, mk);
          var n' := AppendChild(n, One(item));
          assert n'.children == n.children + [item];
          var r := AddLinks(n', services[1..], linkConfigs, mk);
          if r.Success? then
            LinkedStep(n.children, item, r.value.children, services, ItemRel(linkConfigs, mk));
            LinkedItemsStep(n.children, [item], r.value.children, services, linkConfigs, mk);
            r
          else r
      else
        var r := AddLinks(n, services[1..], linkConfigs, mk);
        if r.Success? then
          AllCoveredByTail(r.value.children[|n.children|..], services, ItemRel(linkConfigs, mk));
          LinkedItemsStep(n.children, [], r.value.children, services, linkConfigs, mk);
          r
        else r
  }

  /** `create_link_components( $link_configs )`: a `services` config that
      is not an array gives no iterations. */
  function CreateLinkComponents(n: Node, linkConfigs: Assoc<Value>): (r: Result<Node, Fault>)
    ensures !GetConfig(n, "services").VMap? ==> r == Success(n)
    ensures GetConfig(n, "services").VMap? ==> r == AddLinks(n, GetConfig(n, "services").entries, linkConfigs, SocialItem)
  {
    var services := GetConfig(n, "services");
    if services.VMap? then AddLinks(n, services.entries, linkConfigs, SocialItem) else Success(n)
  }

  /** A new social links component has no services, so it gets no items
      whatever the link configurations. */
  lemma DefaultLinksEmpty(linkConfigs: Assoc<Value>)
    ensures CreateLinkComponents(Construct(SocialLinksDecl), linkConfigs) == Success(Construct(SocialLinksDecl))
  {
    assert UniqueKeys(SocialLinksDefaults) by {
      assert Keys(SocialLinksDefaults) == ["services", "display_icons"];
    }
    ConstructConfig(SocialLinksDecl, "services");
  }

  /** Disabled services and services without a link configuration add
      nothing. */
  lemma {:induction false} UnlinkedAddNothing(n: Node, services: Assoc<Value>, linkConfigs: Assoc<Value>, mk: Assoc<Value> -> Node)
    requires forall i :: 0 <= i < |services| ==> !Linked(services[i], linkConfigs)
    ensures AddLinks(n, services, linkConfigs, mk) == Success(n)
    decreases |services|
  {
    if |services| > 0 {
      UnlinkedAddNothing(n, services[1..], linkConfigs, mk);
    }
  }
}
