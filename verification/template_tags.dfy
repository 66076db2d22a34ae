/** The child lookup helpers of the PHP templates
    (wp-components-php/template-tags.php). They read the children of the
    component being rendered, which `get_children()` takes from the render
    controller; here that list is a parameter. Those components are
    first-generation components. */
module TemplateTags {
  import opened Wrappers
  import opened Php
  import opened Falsy
  import Legacy

  type Slots = seq<Option<Legacy.LegacyNode>>

  /** The callback of `filter_children`: `$value === $child->get_config( $key )`. */
  function HasConfig(k: string, v: Value): Legacy.LegacyNode -> bool {
    (c: Legacy.LegacyNode) => Legacy.GetConfig(c, k) == v
  }

  /** The callback of `filter_children_by_name`: `$name === $child->name`. */
  function Named(name: string): Legacy.LegacyNode -> bool {
    (c: Legacy.LegacyNode) => c.name == name
  }

  predicate AllPresent(cs: Slots) {
    forall i :: 0 <= i < |cs| ==> cs[i].Some?
  }

  /** `filter_children( $key, $value )`: calling `get_config` on a null
      child is a fatal error. */
  function FilterChildren(children: Slots, k: string, v: Value): (r: Result<seq<Legacy.LegacyNode>, Fault>)
    ensures r.Success? <==> AllPresent(children)
    ensures r.Success? ==> forall x :: x in r.value <==> Some(x) in children && Legacy.GetConfig(x, k) == v
    ensures r.Success? ==> |r.value| <= |children|
  {
    if !AllPresent(children) then Failure(NullChild)
    else Success(Keep(Present(children), HasConfig(k, v)))
  }

  /** Filtering a concatenation filters each part, so the order of the
      children is kept. */
  lemma FilterChildrenAppend(a: Slots, b: Slots, k: string, v: Value)
    requires AllPresent(a) && AllPresent(b)
    ensures FilterChildren(a + b, k, v).Success?
    ensures FilterChildren(a + b, k, v).value == FilterChildren(a, k, v).value + FilterChildren(b, k, v).value
  {
    assert AllPresent(a + b);
    PresentAppend(a, b);
    KeepAppend(Present(a), Present(b), HasConfig(k, v));
  }

  /** Filtering on `null` also selects every child that lacks the key,
      since `get_config` reads a missing key as `null`. */
  lemma FilterNullSelectsMissing(children: Slots, k: string, c: Legacy.LegacyNode)
    requires AllPresent(children) && Some(c) in children
    requires k !in Assocs.Keys(c.config)
    ensures c in FilterChildren(children, k, VNull).value
  {
  }

  /** `filter_children_by_name( $name )`: reading `name` on a null child
      gives `null`, which matches no name. */
  function FilterChildrenByName(children: Slots, name: string): (r: seq<Legacy.LegacyNode>)
    ensures forall x :: x in r <==> Some(x) in children && x.name == name
    ensures |r| <= |children|
  {
    Keep(Present(children), Named(name))
  }

  /** The by-name filter keeps the order of the children. */
  lemma FilterChildrenByNameAppend(a: Slots, b: Slots, name: string)
    ensures FilterChildrenByName(a + b, name) == FilterChildrenByName(a, name) + FilterChildrenByName(b, name)
  {
    PresentAppend(a, b);
    KeepAppend(Present(a), Present(b), Named(name));
  }

  /** `find_child( $key, $value )`: the last match (`array_pop`), or
      `false` (here `None`) when nothing matches. */
  function FindChild(children: Slots, k: string, v: Value): (r: Result<Option<Legacy.LegacyNode>, Fault>)
    ensures r.Success? <==> AllPresent(children)
    ensures r.Success? ==> (r.value.None? <==> forall i :: 0 <= i < |children| ==> Legacy.GetConfig(children[i].value, k) != v)
    ensures r.Success? && r.value.Some? ==>
      exists i :: LastAccepted(Present(children), HasConfig(k, v), i) && Present(children)[i] == r.value.value
  {
    if !AllPresent(children) then Failure(NullChild)
    else
      PresentAll(children);
      Success(LastKept(Present(children), HasConfig(k, v)))
  }

  /** `find_child_by_name( $name )`: the last child with that name, or
      `false` (here `None`). */
  function FindChildByName(children: Slots, name: string): (r: Option<Legacy.LegacyNode>)
    ensures r.None? <==> forall x :: Some(x) in children ==> x.name != name
    ensures r.Some? ==> exists i :: LastAccepted(Present(children), Named(name), i) && Present(children)[i] == r.value
  {
    var r := LastKept(Present(children), Named(name));
    assert forall x :: Some(x) in children <==> x in Present(children);
    r
  }
}
