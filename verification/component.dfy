/** The `WP_Components\Component` tree node
    (inc/wp-components/classes/class-component.php): a name, an ordered
    config array, an ordered list of children, named component groups that
    always start with `'default'`, a validity flag and a theme whitelist.
    Every fluent mutator becomes a function from the old node to the new one.

    Subclasses differ only in the values of a few properties and in
    `default_config()` / `default_children()` and `{key}_config_has_set`
    hook methods; a `ClassDecl` record stands for such a subclass. A hook's
    own effect is subclass code and is not modelled: the node records each
    invocation in `log`. */
module Component {
  import opened Wrappers
  import opened Assocs
  import opened Php
  import opened CamelCase
  import opened Falsy
  import opened Positions

  /** A child slot: `Some` for a component, `None` for any falsy PHP value
      (`null`, `false`, `''`, `0`, `[]`). */
  type Child = Option<Node>

  /** The list stored under one key of `component_groups`. */
  datatype Group = Group(members: seq<Child>)

  datatype Node = Node(
    cls: string,                       // PHP class name
    name: string,
    config: Assoc<Value>,
    children: seq<Child>,
    groups: Assoc<Group>,         // `component_groups`
    isValid: bool,
    themes: seq<string>,
    whitelist: seq<string>,
    preserve: seq<string>,             // `preserve_inner_keys`
    hooks: set<string>,                // keys `k` with a `{k}_config_has_set` method
    log: seq<string>)                  // keys whose hook ran, in order

  /** What a subclass declares. */
  datatype ClassDecl = ClassDecl(
    cls: string,
    name: string,
    defaults: Assoc<Value>,            // `default_config()`
    defaultChildren: seq<Child>,       // `default_children()`
    themes: seq<string>,
    whitelist: seq<string>,
    preserve: seq<string>,
    hooks: set<string>)

  /** `WP_Components\Component` itself. */
  const BaseDecl: ClassDecl := ClassDecl("WP_Components\\Component", "", [], [], ["default"], [], [], {})

  /** The node before the constructor body runs: the property initialisers. */
  function Blank(d: ClassDecl): Node {
    Node(d.cls, d.name, [], [], [Entry("default", Group([]))], true, d.themes, d.whitelist, d.preserve, d.hooks, [])
  }

  // ------------------------------------------------------------------ config

  /** `set_config($key, $value, $do_callback)` with a single key. */
  function SetConfig(n: Node, k: string, v: Value, doCallback: bool): (r: Node)
    ensures r.log == if k in n.hooks && doCallback then n.log + [k] else n.log
    ensures r.(config := n.config, log := n.log) == n
  {
    n.(config := Put(n.config, k, v),
       log := if k in n.hooks && doCallback then n.log + [k] else n.log)
  }

  /** `set_config($array)`: the array form (with a null value) replaces the
      whole config and runs no hook. */
  function ReplaceConfig(n: Node, c: Assoc<Value>): (r: Node)
    ensures forall k :: GetConfig(r, k) == Get(c, k).GetOr(VNull)
    ensures r.log == n.log
  {
    n.(config := c)
  }

  /** `get_config($key)`: `null` when the key is absent. */
  function GetConfig(n: Node, k: string): (r: Value)
    ensures k !in Keys(n.config) ==> r == VNull
    ensures UniqueKeys(n.config) ==> forall i :: 0 <= i < |n.config| && n.config[i].key == k ==> r == n.config[i].val
  {
    Get(n.config, k).GetOr(VNull)
  }

  /** The last write to a key wins and other keys read as before. */
  lemma GetSetConfig(n: Node, k: string, v: Value, doCallback: bool, k': string)
    ensures GetConfig(SetConfig(n, k, v, doCallback), k') == if k' == k then v else GetConfig(n, k')
  {
    GetPut(n.config, k, v, k');
  }

  /** `GetSetConfig` for every key at once. */
  lemma SetConfigReads(n: Node, k: string, v: Value, doCallback: bool)
    ensures GetConfig(SetConfig(n, k, v, doCallback), k) == v
    ensures forall k' :: k' != k ==> GetConfig(SetConfig(n, k, v, doCallback), k') == GetConfig(n, k')
  {
    GetPutAll(n.config, k, v);
  }

  /** `merge_config($new_config)`: `set_config` on each entry, in order. */
  function MergeConfig(n: Node, c: Assoc<Value>): (r: Node)
    ensures r.(config := n.config, log := n.log) == n
    decreases |c|
  {
    if |c| == 0 then n
    else MergeConfig(SetConfig(n, c[0].key, c[0].val, true), c[1..])
  }

  /** The keys of `c` that have a hook, in order: the hook calls a merge makes. */
  function HookedKeys(c: Assoc<Value>, hooks: set<string>): (ks: seq<string>)
    ensures forall k :: k in ks <==> k in Keys(c) && k in hooks
  {
    if |c| == 0 then []
    else
      assert Keys(c) == [c[0].key] + Keys(c[1..]);
      (if c[0].key in hooks then [c[0].key] else []) + HookedKeys(c[1..], hooks)
  }

  /** A merge runs exactly the hooks of the merged keys, in merge order. */
  lemma {:induction false} MergeConfigLog(n: Node, c: Assoc<Value>)
    ensures MergeConfig(n, c).log == n.log + HookedKeys(c, n.hooks)
    decreases |c|
  {
    if |c| > 0 {
      var n' := SetConfig(n, c[0].key, c[0].val, true);
      var first := if c[0].key in n.hooks then [c[0].key] else [];
      MergeConfigLog(n', c[1..]);
      SetConfigHooks(n, c[0].key, c[0].val);
      assert HookedKeys(c, n.hooks) == first + HookedKeys(c[1..], n.hooks);
      assert MergeConfig(n, c) == MergeConfig(n', c[1..]);
      assert MergeConfig(n, c).log == n'.log + HookedKeys(c[1..], n.hooks);
      AppendAssoc(n.log, first, HookedKeys(c[1..], n.hooks));
    } else {
      assert n.log + [] == n.log;
    }
  }

  /** A single-key `set_config` with the callback on logs its hook, if any. */
  lemma SetConfigHooks(n: Node, k: string, v: Value)
    ensures SetConfig(n, k, v, true).hooks == n.hooks
    ensures SetConfig(n, k, v, true).log == n.log + (if k in n.hooks then [k] else [])
  {
  }

  /** After a merge, merged keys read as the merged value and every other
      key reads as before. */
  lemma {:induction false} MergeConfigGet(n: Node, c: Assoc<Value>, k: string)
    requires UniqueKeys(c)
    ensures GetConfig(MergeConfig(n, c), k) == if k in Keys(c) then Get(c, k).value else GetConfig(n, k)
    decreases |c|
  {
    if |c| > 0 {
      var n' := SetConfig(n, c[0].key, c[0].val, true);
      UniqueTail(c);
      MergeConfigGet(n', c[1..], k);
      GetSetConfig(n, c[0].key, c[0].val, true, k);
    }
  }

  /** `new Class()`: each default goes through `set_config` (so hooks run),
      then `children` becomes `default_children()` unfiltered. */
  function Construct(d: ClassDecl): (r: Node)
    ensures r.children == d.defaultChildren
    ensures Keys(r.groups) == ["default"] && r.isValid && r.name == d.name && r.cls == d.cls
  {
    MergeConfig(Blank(d), d.defaults).(children := d.defaultChildren)
  }

  /** A new node holds its defaults and ran the hooks of its default keys. */
  lemma ConstructConfig(d: ClassDecl, k: string)
    requires UniqueKeys(d.defaults)
    ensures GetConfig(Construct(d), k) == Get(d.defaults, k).GetOr(VNull)
    ensures Construct(d).log == HookedKeys(d.defaults, d.hooks)
  {
    MergeConfigGet(Blank(d), d.defaults, k);
    MergeConfigLog(Blank(d), d.defaults);
  }

  /** `set_name($name)`. */
  function SetName(n: Node, s: string): (r: Node)
    ensures r.name == s && r.(name := n.name) == n
  {
    n.(name := s)
  }

  // ---------------------------------------------------------------- children

  /** `set_children($children, $append)`. */
  function SetChildren(n: Node, cs: seq<Child>, append: bool): (r: Node)
    ensures r.(children := n.children) == n
    ensures Present(r.children) == (if append then Present(n.children) else []) + Present(cs)
    ensures forall i :: (if append then |n.children| else 0) <= i < |r.children| ==> r.children[i].Some?
    ensures append ==> |r.children| >= |n.children| && r.children[..|n.children|] == n.children
  {
    var kept := AsSlots(Present(cs));
    PresentAsSlots(Present(cs));
    if append then
      PresentAppend(n.children, kept);
      n.(children := n.children + kept)
    else n.(children := kept)
  }

  /** `append_children($children)`: nothing happens for `[]`. */
  function AppendChildren(n: Node, cs: seq<Child>): (r: Node)
    ensures r.(children := n.children) == n
    ensures |cs| == 0 ==> r == n
    ensures |r.children| >= |n.children| && r.children[..|n.children|] == n.children
    ensures forall i :: |n.children| <= i < |r.children| ==> r.children[i].Some?
    ensures Present(r.children) == Present(n.children) + Present(cs)
  {
    if |cs| == 0 then n
    else
      var kept := AsSlots(Present(cs));
      PresentAppend(n.children, kept);
      PresentAsSlots(Present(cs));
      n.(children := n.children + kept)
  }

  /** `prepend_children($children)`: nothing happens for `[]`. */
  function PrependChildren(n: Node, cs: seq<Child>): (r: Node)
    ensures r.(children := n.children) == n
    ensures |cs| == 0 ==> r == n
    ensures |r.children| >= |n.children| && r.children[|r.children| - |n.children|..] == n.children
    ensures forall i :: 0 <= i < |r.children| - |n.children| ==> r.children[i].Some?
    ensures Present(r.children) == Present(cs) + Present(n.children)
  {
    if |cs| == 0 then n
    else
      var kept := AsSlots(Present(cs));
      PresentAppend(kept, n.children);
      PresentAsSlots(Present(cs));
      n.(children := kept + n.children)
  }

  /** The argument of `append_child` / `prepend_child` / the group mutators:
      one value, or a PHP array of them. */
  datatype ChildArg = One(child: Child) | Many(items: seq<Child>)

  /** `empty($child)`. */
  predicate EmptyArg(a: ChildArg) {
    a == One(None) || a == Many([])
  }

  /** The one slot `append_child` adds: the value, or element 0 of an array. */
  function FirstOf(a: ChildArg): Child
    requires !EmptyArg(a)
  {
    match a
    case One(c) => c
    case Many(xs) => xs[0]
  }

  /** `append_child($child)`. */
  function AppendChild(n: Node, a: ChildArg): (r: Node)
    ensures r.(children := n.children) == n
    ensures EmptyArg(a) ==> r == n
    ensures !EmptyArg(a) ==> (|r.children| == |n.children| + 1
      && r.children[..|n.children|] == n.children && r.children[|n.children|] == FirstOf(a))
  {
    if EmptyArg(a) then n else n.(children := n.children + [FirstOf(a)])
  }

  /** `prepend_child($child)`. */
  function PrependChild(n: Node, a: ChildArg): (r: Node)
    ensures r.(children := n.children) == n
    ensures EmptyArg(a) ==> r == n
    ensures !EmptyArg(a) ==> (|r.children| == |n.children| + 1
      && r.children[1..] == n.children && r.children[0] == FirstOf(a))
  {
    if EmptyArg(a) then n else n.(children := [FirstOf(a)] + n.children)
  }

  // ------------------------------------------------------------------ groups

  /** The list a group mutator adds: a non-array becomes a one-slot list. */
  function AsList(a: ChildArg): seq<Child> {
    match a
    case One(c) => [c]
    case Many(xs) => xs
  }

  /** `append_to_group($group, $children)`: only an existing group changes,
      and the new slots are not filtered. */
  function AppendToGroup(n: Node, g: string, a: ChildArg): (r: Node)
    ensures r.(groups := n.groups) == n
    ensures Keys(r.groups) == Keys(n.groups)
    ensures g !in Keys(n.groups) ==> r == n
    ensures g in Keys(n.groups) ==> Get(r.groups, g) == Some(Group(Get(n.groups, g).value.members + AsList(a)))
    ensures forall g' :: g' != g ==> Get(r.groups, g') == Get(n.groups, g')
  {
    if g in Keys(n.groups) then
      var r := n.(groups := Put(n.groups, g, Group(Get(n.groups, g).value.members + AsList(a))));
      assert forall g' :: Get(r.groups, g') == if g' == g then Some(Group(Get(n.groups, g).value.members + AsList(a))) else Get(n.groups, g') by {
        forall g' ensures Get(r.groups, g') == if g' == g then Some(Group(Get(n.groups, g).value.members + AsList(a))) else Get(n.groups, g') {
          GetPut(n.groups, g, Group(Get(n.groups, g).value.members + AsList(a)), g');
        }
      }
      r
    else n
  }

  /** `prepend_to_group($group, $children)` as written: it tests the group
      name against the group *values* (`in_array($group, $this->component_groups, true)`),
      which are arrays; a strict comparison of a string with an array never
      holds, so the call never changes the node. */
  function PrependToGroupAsWritten(n: Node, g: string, a: ChildArg): (r: Node) {
    n
  }

  /** `prepend_to_group` as evidently intended: test the group keys, as
      `append_to_group` does, and put the new slots first. */
  function PrependToGroup(n: Node, g: string, a: ChildArg): (r: Node)
    ensures r.(groups := n.groups) == n
    ensures Keys(r.groups) == Keys(n.groups)
    ensures g !in Keys(n.groups) ==> r == n
    ensures g in Keys(n.groups) ==> Get(r.groups, g) == Some(Group(AsList(a) + Get(n.groups, g).value.members))
    ensures forall g' :: g' != g ==> Get(r.groups, g') == Get(n.groups, g')
  {
    if g in Keys(n.groups) then
      var r := n.(groups := Put(n.groups, g, Group(AsList(a) + Get(n.groups, g).value.members)));
      assert forall g' :: Get(r.groups, g') == if g' == g then Some(Group(AsList(a) + Get(n.groups, g).value.members)) else Get(n.groups, g') by {
        forall g' ensures Get(r.groups, g') == if g' == g then Some(Group(AsList(a) + Get(n.groups, g).value.members)) else Get(n.groups, g') {
          GetPut(n.groups, g, Group(AsList(a) + Get(n.groups, g).value.members), g');
        }
      }
      r
    else n
  }

  /** The defect: on an existing group and a non-empty argument the
      as-written method leaves the group as it was, where the intended one
      puts the new slots in front. */
  lemma PrependToGroupIgnored(n: Node, g: string, a: ChildArg)
    requires g in Keys(n.groups) && |AsList(a)| > 0
    ensures Get(PrependToGroupAsWritten(n, g, a).groups, g) == Get(n.groups, g)
    ensures Get(PrependToGroup(n, g, a).groups, g) != Get(n.groups, g)
  {
    var before := Get(n.groups, g).value.members;
    assert |AsList(a) + before| > |before|;
  }

  /** Every node built by the constructor has the group `'default'`, and no
      mutator adds or removes a group key. */
  lemma DefaultGroupPersists(d: ClassDecl, n: Node, g: string, a: ChildArg)
    ensures "default" in Keys(Construct(d).groups)
    ensures Keys(AppendToGroup(n, g, a).groups) == Keys(n.groups)
    ensures Keys(PrependToGroup(n, g, a).groups) == Keys(n.groups)
    ensures Keys(PrependToGroupAsWritten(n, g, a).groups) == Keys(n.groups)
  {
  }

  /** `maybe_get_component_group($group)`: the group when it exists and is
      non-empty, otherwise the children. */
  function MaybeGetComponentGroup(n: Node, g: string): (r: seq<Child>)
    ensures UsesGroup(n, g) ==> Get(n.groups, g) == Some(Group(r))
    ensures !UsesGroup(n, g) ==> r == n.children
  {
    Selected(n.children, n.groups, g)
  }

  /** `! empty( $this->component_groups[ $group ] )`. */
  predicate UsesGroup(n: Node, g: string) {
    GroupUsed(n.groups, g)
  }

  predicate GroupUsed(groups: Assoc<Group>, g: string) {
    Get(groups, g).Some? && |Get(groups, g).value.members| > 0
  }

  /** The list `maybe_get_component_group` picks from a node's two lists. */
  function Selected(children: seq<Child>, groups: Assoc<Group>, g: string): seq<Child> {
    if GroupUsed(groups, g) then Get(groups, g).value.members else children
  }

  /** `children_callback($callback, $group)`: map the callback over the
      selected list and store the result back in the same place. */
  function ChildrenCallback(n: Node, f: Child -> Child, g: string): (r: Node)
    ensures Keys(r.groups) == Keys(n.groups)
    ensures UsesGroup(r, g) == UsesGroup(n, g)
    ensures |MaybeGetComponentGroup(r, g)| == |MaybeGetComponentGroup(n, g)|
    ensures forall i :: 0 <= i < |MaybeGetComponentGroup(n, g)| ==>
      MaybeGetComponentGroup(r, g)[i] == f(MaybeGetComponentGroup(n, g)[i])
    ensures UsesGroup(n, g) ==> (r.children == n.children && forall g' :: g' != g ==> Get(r.groups, g') == Get(n.groups, g'))
    ensures !UsesGroup(n, g) ==> r.groups == n.groups
    ensures r.(children := n.children, groups := n.groups) == n
  {
    var list := MaybeGetComponentGroup(n, g);
    var mapped := seq(|list|, i requires 0 <= i < |list| => f(list[i]));
    if UsesGroup(n, g) then
      GetPutAll(n.groups, g, Group(mapped));
      n.(groups := Put(n.groups, g, Group(mapped)))
    else n.(children := mapped)
  }

  // -------------------------------------------------------- validity, themes

  /** `set_invalid()`; `is_invalid()` and `has_error($message)` do the same
      (the message only goes to the debug log). */
  function SetInvalid(n: Node): (r: Node)
    ensures !r.isValid && r.(isValid := n.isValid) == n
  {
    n.(isValid := false)
  }

  /** `set_valid()`; `is_valid()` does the same. */
  function SetValid(n: Node): (r: Node)
    ensures r.isValid && r.(isValid := n.isValid) == n
  {
    n.(isValid := true)
  }

  /** `has_error($error_message)`. */
  function HasError(n: Node, message: string): (r: Node)
    ensures !r.isValid && r.(isValid := n.isValid) == n
  {
    SetInvalid(n)
  }

  /** `set_theme` accepts a listed theme, or any theme when only `'default'`
      is listed. */
  predicate ThemeAllowed(themes: seq<string>, t: string) {
    t in themes || (|themes| == 1 && themes[0] == "default")
  }

  /** `set_theme($theme_name)`: store the camel-cased theme in `theme_name`
      when it is allowed, otherwise `'default'`; both through `set_config`.
      Camel-casing a theme without a word character is a PHP error. */
  function SetTheme(n: Node, t: string): (r: Result<Node, Fault>)
    ensures r.Success? <==> !ThemeAllowed(n.themes, t) || Camelable(t)
    ensures r.Success? ==>
      GetConfig(r.value, "theme_name") == VStr(if ThemeAllowed(n.themes, t) then CamelCaseString(t) else "default")
    ensures r.Success? ==> forall k :: k != "theme_name" ==> GetConfig(r.value, k) == GetConfig(n, k)
    ensures r.Success? ==> (r.value.children == n.children && r.value.groups == n.groups
      && r.value.name == n.name && r.value.isValid == n.isValid && r.value.themes == n.themes)
  {
    var v :- if ThemeAllowed(n.themes, t) then
               (if Camelable(t) then Success(CamelCaseString(t)) else Failure(EmptyCamelCaseKey(t)))
             else Success("default");
    var r := SetConfig(n, "theme_name", VStr(v), true);
    GetSetConfig(n, "theme_name", VStr(v), true, "theme_name");
    assert forall k :: k != "theme_name" ==> GetConfig(r, k) == GetConfig(n, k) by {
      forall k ensures k != "theme_name" ==> GetConfig(r, k) == GetConfig(n, k) {
        GetSetConfig(n, "theme_name", VStr(v), true, k);
      }
    }
    Success(r)
  }

  /** The stored theme is already camel-cased: setting it again (where only
      `'default'` is listed) stores the same value. */
  lemma SetThemeStable(n: Node, t: string)
    requires n.themes == ["default"] && Camelable(t)
    ensures var n' := SetTheme(n, t).value;
      GetConfig(n', "theme_name").VStr?
      && SetTheme(n', GetConfig(n', "theme_name").s).Success?
      && GetConfig(SetTheme(n', GetConfig(n', "theme_name").s).value, "theme_name") == GetConfig(n', "theme_name")
  {
    CamelCaseStringIdempotent(t);
  }

  /** With any list of themes, setting the stored theme again keeps it
      exactly when its camel case is itself allowed; otherwise the second
      call stores `'default'`. So with `'default'` and `'dark_mode'` listed,
      the stored `darkMode` is not listed and is replaced by `'default'`. */
  lemma SetThemeAgain(n: Node, t: string)
    requires ThemeAllowed(n.themes, t) && Camelable(t)
    ensures var n' := SetTheme(n, t).value; var s := CamelCaseString(t);
      GetConfig(n', "theme_name") == VStr(s)
      && SetTheme(n', s).Success?
      && GetConfig(SetTheme(n', s).value, "theme_name") == VStr(if ThemeAllowed(n.themes, s) then s else "default")
  {
    CamelCaseStringIdempotent(t);
  }

  /** `$theme_mapping[ $child->name ]` is set and not empty. */
  predicate Mapped(mapping: Assoc<string>, name: string) {
    Get(mapping, name).Some? && !EmptyString(Get(mapping, name).value)
  }

  /** `set_child_themes($theme_mapping, $group)`: walk the selected list;
      set the theme of each child its name maps to, then recurse into the
      child's own `''` selection (its children unless it has a non-empty
      group named `''`). A null child is a PHP error. */
  function SetChildThemes(n: Node, mapping: Assoc<string>, g: string): (r: Result<Node, Fault>)
    ensures r.Success? <==> ListsOk(n, n.children, n.groups, mapping, g)
    ensures r.Success? ==> (r.value.(children := n.children, groups := n.groups) == n
      && Keys(r.value.groups) == Keys(n.groups)
      && UsesGroup(r.value, g) == UsesGroup(n, g))
    ensures r.Success? ==> ThemedList(MaybeGetComponentGroup(n, g), MaybeGetComponentGroup(r.value, g), mapping)
    ensures r.Success? && UsesGroup(n, g) ==>
      r.value.children == n.children && forall g' :: g' != g ==> Get(r.value.groups, g') == Get(n.groups, g')
    ensures r.Success? && !UsesGroup(n, g) ==> r.value.groups == n.groups
  {
    assert forall i, c :: 0 <= i < |n.groups| && c in n.groups[i].val.members && c.Some? ==> c.value < n by {
      forall i, c | 0 <= i < |n.groups| && c in n.groups[i].val.members && c.Some? ensures c.value < n {
        assert n.groups[i] < n && n.groups[i].val < n.groups[i];
      }
    }
    var (cs, gs) :- ThemeLists(n, n.children, n.groups, mapping, g);
    Success(n.(children := cs, groups := gs))
  }

  /** How each walked child relates to the one before the walk. */
  ghost predicate ThemedList(before: seq<Child>, after: seq<Child>, mapping: Assoc<string>)
    decreases before, 1
  {
    |after| == |before|
    && forall j :: 0 <= j < |before| ==> ThemedChild(before[j], after[j], mapping)
  }

  /** One walked child. `set_theme` ran on it exactly where the mapping has a
      non-empty entry for its name, and apart from its two lists it is the
      node that call left (so only `theme_name` and the hook log can differ
      from before). Its own `''` selection was walked in turn, recursively,
      and its other list stayed as it was. */
  ghost predicate ThemedChild(before: Child, after: Child, mapping: Assoc<string>)
    decreases before, 0
  {
    before.Some? && after.Some?
    && (Mapped(mapping, before.value.name) ==> SetTheme(before.value, Get(mapping, before.value.name).value).Success?)
    && (var b := before.value;
        var a := after.value;
        var base := if Mapped(mapping, b.name) then SetTheme(b, Get(mapping, b.name).value).value else b;
        a.(children := base.children, groups := base.groups) == base
        && Keys(a.groups) == Keys(b.groups)
        && GroupUsed(a.groups, "") == GroupUsed(b.groups, "")
        && (GroupUsed(b.groups, "") ==>
              a.children == b.children && forall g' :: g' != "" ==> Get(a.groups, g') == Get(b.groups, g'))
        && (!GroupUsed(b.groups, "") ==> a.groups == b.groups)
        && ThemedList(Selected(b.children, b.groups, ""), Selected(a.children, a.groups, ""), mapping))
  }

  /** The walk over a node's lists; `owner` is the node they belong to. */
  function ThemeLists(ghost owner: Node, children: seq<Child>, groups: Assoc<Group>, mapping: Assoc<string>, g: string)
    : (r: Result<(seq<Child>, Assoc<Group>), Fault>)
    requires forall c :: c in children && c.Some? ==> c.value < owner
    requires forall i, c :: 0 <= i < |groups| && c in groups[i].val.members && c.Some? ==> c.value < owner
    ensures r.Success? <==> ListsOk(owner, children, groups, mapping, g)
    ensures r.Success? ==> (Keys(r.value.1) == Keys(groups)
      && GroupUsed(r.value.1, g) == GroupUsed(groups, g)
      && ThemedList(Selected(children, groups, g), Selected(r.value.0, r.value.1, g), mapping))
    ensures r.Success? && GroupUsed(groups, g) ==>
      r.value.0 == children && forall g' :: g' != g ==> Get(r.value.1, g') == Get(groups, g')
    ensures r.Success? && !GroupUsed(groups, g) ==> r.value.1 == groups
    decreases owner, 1
  {
    var i := IndexOf(groups, g);
    if i < |groups| && |groups[i].val.members| > 0 then
      var l :- ThemeList(owner, groups[i].val.members, mapping);
      var gs := Put(groups, g, Group(l));
      GetPut(groups, g, Group(l), g);
      assert forall g' :: g' != g ==> Get(gs, g') == Get(groups, g') by {
        forall g' | g' != g ensures Get(gs, g') == Get(groups, g') {
          GetPut(groups, g, Group(l), g');
        }
      }
      Success((children, gs))
    else
      var l :- ThemeList(owner, children, mapping);
      Success((l, groups))
  }

  /** The loop over one list. */
  function ThemeList(ghost owner: Node, cs: seq<Child>, mapping: Assoc<string>): (r: Result<seq<Child>, Fault>)
    requires forall c :: c in cs && c.Some? ==> c.value < owner
    ensures r.Success? <==> ListOk(owner, cs, mapping)
    ensures r.Success? ==> ThemedList(cs, r.value, mapping)
    decreases owner, 0, |cs|
  {
    if |cs| == 0 then Success([])
    else if cs[0].None? then Failure(NullChild)
    else
      var c :- ThemeChild(owner, cs[0].value, mapping);
      var rest :- ThemeList(owner, cs[1..], mapping);
      Success([Some(c)] + rest)
  }

  /** One iteration: `set_theme` if mapped, then `set_child_themes`. */
  function ThemeChild(ghost owner: Node, c: Node, mapping: Assoc<string>): (r: Result<Node, Fault>)
    requires c < owner
    ensures r.Success? <==> ChildOk(owner, c, mapping)
    ensures r.Success? ==> ThemedChild(Some(c), Some(r.value), mapping)
    decreases owner, 0, 0
  {
    var c1 :- if Mapped(mapping, c.name) then SetTheme(c, Get(mapping, c.name).value) else Success(c);
    assert forall i, x :: 0 <= i < |c1.groups| && x in c1.groups[i].val.members && x.Some? ==> x.value < c by {
      forall i, x | 0 <= i < |c1.groups| && x in c1.groups[i].val.members && x.Some? ensures x.value < c {
        assert c.groups[i] < c && c.groups[i].val < c.groups[i];
      }
    }
    var lists :- ThemeLists(c, c1.children, c1.groups, mapping, "");
    Success(c1.(children := lists.0, groups := lists.1))
  }

  /** The walk over a node's lists succeeds. */
  ghost predicate ListsOk(owner: Node, children: seq<Child>, groups: Assoc<Group>, mapping: Assoc<string>, g: string)
    requires forall c :: c in children && c.Some? ==> c.value < owner
    requires forall i, c :: 0 <= i < |groups| && c in groups[i].val.members && c.Some? ==> c.value < owner
    decreases owner, 1
  {
    var i := IndexOf(groups, g);
    ListOk(owner, if i < |groups| && |groups[i].val.members| > 0 then groups[i].val.members else children, mapping)
  }

  /** Every slot of the list holds a component whose own walk succeeds. */
  ghost predicate ListOk(owner: Node, cs: seq<Child>, mapping: Assoc<string>)
    requires forall c :: c in cs && c.Some? ==> c.value < owner
    decreases owner, 0, |cs|
  {
    |cs| == 0 || (cs[0].Some? && ChildOk(owner, cs[0].value, mapping) && ListOk(owner, cs[1..], mapping))
  }

  /** The theme set on `c` (if any) can be camel-cased and the walk below
      `c` succeeds. */
  ghost predicate ChildOk(owner: Node, c: Node, mapping: Assoc<string>)
    requires c < owner
    decreases owner, 0, 0
  {
    (Mapped(mapping, c.name) ==> SetTheme(c, Get(mapping, c.name).value).Success?)
    && ListsOk(c, c.children, c.groups, mapping, "")
  }

  // ---------------------------------------------------------------- to_array

  /** The array `to_array()` returns. */
  datatype Serialized = Serialized(
    name: string,
    config: Assoc<Value>,
    children: seq<Node>,
    componentGroups: Assoc<seq<Node>>)

  /** `array_map( 'array_filter', $this->component_groups )`. */
  function FilterGroups(gs: Assoc<Group>): (r: Assoc<seq<Node>>)
    ensures Keys(r) == Keys(gs)
    ensures |r| == |gs| && forall i :: 0 <= i < |gs| ==> r[i].val == Present(gs[i].val.members)
  {
    seq(|gs|, i requires 0 <= i < |gs| => Entry(gs[i].key, Present(gs[i].val.members)))
  }

  /** `to_array()`: an invalid node first gets `-invalid` appended to its
      stored name; the result holds the name, the camel-cased config, and the
      filtered children and groups. Returns the updated node and the array. */
  function ToArray(n: Node): (r: Result<(Node, Serialized), Fault>)
    ensures r.Success? <==> Convertible(n.config, n.whitelist, n.preserve)
    ensures r.Success? ==> var (n', s) := r.value;
      n'.name == (if n.isValid then n.name else n.name + "-invalid")
      && n'.(name := n.name) == n
      && s.name == n'.name
      && s.config == CamelCaseKeys(n.config, n.whitelist, n.preserve).value
      && s.children == Present(n.children)
      && s.componentGroups == FilterGroups(n.groups)
      && Keys(s.componentGroups) == Keys(n.groups)
      && (forall x :: x in s.children <==> Some(x) in n.children)
      && UniqueKeys(s.config)
  {
    var n' := if n.isValid then n else n.(name := n.name + "-invalid");
    var config :- CamelCaseKeys(n.config, n.whitelist, n.preserve);
    Success((n', Serialized(n'.name, config, Present(n.children), FilterGroups(n.groups))))
  }

  /** `to_array()` is not idempotent on an invalid node: every call appends
      the suffix again. */
  lemma ToArrayTwiceInvalid(n: Node)
    requires !n.isValid && ToArray(n).Success?
    ensures ToArray(ToArray(n).value.0).Success?
    ensures ToArray(ToArray(n).value.0).value.1.name == n.name + "-invalid-invalid"
  {
  }

  /** On a valid node `to_array()` changes nothing and can be repeated. */
  lemma ToArrayValidStable(n: Node)
    requires n.isValid && ToArray(n).Success?
    ensures ToArray(n).value.0 == n
    ensures ToArray(ToArray(n).value.0) == ToArray(n)
  {
  }
}
