/** The `WP_Menu` trait (inc/wp-components/traits/trait-wp-menu.php): a
    flat list of menu items, each naming its parent, becomes a tree of menu
    item components with nested submenus. Reading the menu from WordPress
    and turning a menu item post into a component (`set_menu_item`) are
    WordPress code: the item list and the built item are parameters, and so
    is `class_exists`. */
module WpMenu {
  import opened Wrappers
  import opened Assocs
  import opened Php
  import opened Component

  /** A nav menu item post: `ID`, `menu_item_parent` and `title`. */
  datatype MenuItem = MenuItem(id: int, parent: int, title: string)

  /** What `build_menu` takes from its surroundings: the class of the menu
      (`get_class( $this )`), whether the menu item class exists, and the
      item built by `( new $menu_item_class() )->set_menu_item( $item )`. */
  datatype MenuEnv = MenuEnv(decl: ClassDecl, classExists: bool, mkItem: MenuItem -> Node)

  /** `absint( $menu_item->menu_item_parent ) === $parent_id`. */
  predicate Matches(x: MenuItem, p: int) {
    AbsInt(x.parent) == p
  }

  /** The working copy of the item list once the matching items at
      positions before `k` have been unset; the others keep their order. */
  function Remaining(s: seq<MenuItem>, k: nat, p: int): (r: seq<MenuItem>)
    ensures |r| <= |s|
  {
    if |s| == 0 then []
    else (if k > 0 && Matches(s[0], p) then [] else [s[0]]) + Remaining(s[1..], if k > 0 then k - 1 else 0, p)
  }

  /** An item is still in the working copy exactly when it sits at or after
      position `k` or does not match. */
  lemma {:induction false} RemainingMembers(s: seq<MenuItem>, k: nat, p: int, x: MenuItem)
    ensures x in Remaining(s, k, p) <==> exists i :: 0 <= i < |s| && s[i] == x && (i >= k || !Matches(s[i], p))
  {
    if |s| > 0 {
      var k' := if k > 0 then k - 1 else 0;
      var head := if k > 0 && Matches(s[0], p) then [] else [s[0]];
      RemainingMembers(s[1..], k', p, x);
      assert Remaining(s, k, p) == head + Remaining(s[1..], k', p);
      if x in Remaining(s, k, p) && x !in head {
        var i :| 0 <= i < |s[1..]| && s[1..][i] == x && (i >= k' || !Matches(s[1..][i], p));
        assert s[i + 1] == x;
      }
      if exists i :: 0 <= i < |s| && s[i] == x && (i >= k || !Matches(s[i], p)) {
        var i :| 0 <= i < |s| && s[i] == x && (i >= k || !Matches(s[i], p));
        if i > 0 {
          assert s[1..][i - 1] == x;
        }
      }
    }
  }

  /** Unsetting the current item makes the list the recursion receives
      strictly shorter. */
  lemma {:induction false} RemainingShorter(s: seq<MenuItem>, j: nat, p: int)
    requires j < |s| && Matches(s[j], p)
    ensures |Remaining(s, j + 1, p)| < |s|
  {
    if j > 0 {
      RemainingShorter(s[1..], j - 1, p);
    }
  }

  /** `array_map( 'absint', wp_list_pluck( $menu_items, 'menu_item_parent' ) )`. */
  function ParentIds(s: seq<MenuItem>): (r: seq<int>)
    ensures |r| == |s| && forall i :: 0 <= i < |s| ==> r[i] == AbsInt(s[i].parent)
  {
    seq(|s|, i requires 0 <= i < |s| => AbsInt(s[i].parent))
  }

  /** `( new $menu_class() )->merge_config( [ 'type' => 'submenu', 'title' => $title ] )`. */
  function Submenu(decl: ClassDecl, title: string): (r: Node)
    ensures r.name == decl.name && r.children == decl.defaultChildren
  {
    MergeConfig(Construct(decl), [Entry("type", VStr("submenu")), Entry("title", VStr(title))])
  }

  /** A submenu is typed `submenu`, carries its item's title and otherwise
      holds the menu class's defaults. */
  lemma SubmenuConfig(decl: ClassDecl, title: string, k: string)
    requires UniqueKeys(decl.defaults)
    ensures GetConfig(Submenu(decl, title), "type") == VStr("submenu")
    ensures GetConfig(Submenu(decl, title), "title") == VStr(title)
    ensures k != "type" && k != "title" ==> GetConfig(Submenu(decl, title), k) == Get(decl.defaults, k).GetOr(VNull)
  {
    var c := [Entry("type", VStr("submenu")), Entry("title", VStr(title))];
    assert Keys(c) == ["type", "title"];
    MergeConfigGet(Construct(decl), c, "type");
    MergeConfigGet(Construct(decl), c, "title");
    MergeConfigGet(Construct(decl), c, k);
    ConstructConfig(decl, k);
  }

  /** The loop of `build_menu( $menu, $menu_items, $parent_id )` from
      position `j` of the item list `s`. Returns the menu with the items
      attached and whether the call returns normally (`false` for the bare
      `return;` when the menu item class does not exist). The loop runs over
      the list as it was passed, while matched items are unset from the
      working copy handed to the recursion. */
  function Level(env: MenuEnv, menu: Node, s: seq<MenuItem>, j: nat, p: int): (r: (Node, bool))
    ensures r.0.(children := menu.children) == menu
    ensures |r.0.children| >= |menu.children| && r.0.children[..|menu.children|] == menu.children
    decreases |s|, |s| - j
  {
    if j >= |s| then (menu, true)
    else if !Matches(s[j], p) then Level(env, menu, s, j + 1, p)
    else if !env.classExists then (menu, false)
    else
      var menu' := menu.(children := menu.children + [ItemFor(env, s, j, p)]);
      var r := Level(env, menu', s, j + 1, p);
      assert r.0.children[..|menu.children|] == r.0.children[..|menu'.children|][..|menu.children|];
      r
  }

  /** The component attached for the matching item `j`: the built item,
      given the submenu built from the working copy when an item left in it
      names this one as parent (`null` when that call returns early). */
  function ItemFor(env: MenuEnv, s: seq<MenuItem>, j: nat, p: int): Child
    requires j < |s| && Matches(s[j], p)
    decreases |s|, 0
  {
    var item := env.mkItem(s[j]);
    var rest := Remaining(s, j + 1, p);
    if s[j].id in ParentIds(rest) then
      RemainingShorter(s, j, p);
      var sub := Level(env, Submenu(env.decl, s[j].title), rest, 0, s[j].id);
      Some(item.(children := item.children + [if sub.1 then Some(sub.0) else None]))
    else Some(item)
  }

  /** The positions, from `j` on, of the items whose parent is `p`. */
  function MatchIdx(s: seq<MenuItem>, j: nat, p: int): (r: seq<nat>)
    ensures forall k :: 0 <= k < |r| ==> j <= r[k] < |s| && Matches(s[r[k]], p)
    decreases |s| - j
  {
    if j >= |s| then []
    else (if Matches(s[j], p) then [j] else []) + MatchIdx(s, j + 1, p)
  }

  /** Some item not yet attached at this level names item `i` as its
      parent. */
  ghost predicate Pending(s: seq<MenuItem>, i: nat, p: int)
    requires i < |s|
  {
    exists i' :: 0 <= i' < |s| && (i' > i || !Matches(s[i'], p)) && AbsInt(s[i'].parent) == s[i].id
  }

  /** `c` is the component attached for the matching item `i`: the built
      item, with one more child exactly when the item is pending, and that
      child is the submenu of the item. */
  ghost predicate Attached(env: MenuEnv, c: Child, s: seq<MenuItem>, i: nat, p: int)
    requires i < |s| && Matches(s[i], p)
    decreases |s|, 1
  {
    var base := env.mkItem(s[i]);
    && c.Some?
    && c.value.(children := base.children) == base
    && |base.children| <= |c.value.children| <= |base.children| + 1
    && c.value.children[..|base.children|] == base.children
    && (|c.value.children| == |base.children| + 1 <==> Pending(s, i, p))
    && (Pending(s, i, p) ==> SubmenuAttached(env, c.value.children[|base.children|], s, i, p))
  }

  /** `sub` is the submenu of the matching item `i`: a new menu of the same
      class typed `submenu` with the item's title, holding the items of the
      working copy whose parent is item `i`, each attached in turn; `null`
      when the menu item class does not exist. */
  ghost predicate SubmenuAttached(env: MenuEnv, sub: Child, s: seq<MenuItem>, i: nat, p: int)
    requires i < |s| && Matches(s[i], p)
    decreases |s|, 0
  {
    RemainingShorter(s, i, p);
    var rest := Remaining(s, i + 1, p);
    var shell := Submenu(env.decl, s[i].title);
    if !env.classExists then sub.None?
    else
      && sub.Some?
      && sub.value.(children := shell.children) == shell
      && |sub.value.children| >= |shell.children|
      && sub.value.children[..|shell.children|] == shell.children
      && AttachedList(env, sub.value.children[|shell.children|..], rest, MatchIdx(rest, 0, s[i].id), s[i].id)
  }

  /** The submenu test of `build_menu` is the pending test. */
  lemma PendingIff(s: seq<MenuItem>, j: nat, p: int)
    requires j < |s|
    ensures s[j].id in ParentIds(Remaining(s, j + 1, p)) <==> Pending(s, j, p)
  {
    var rest := Remaining(s, j + 1, p);
    if s[j].id in ParentIds(rest) {
      var t :| 0 <= t < |rest| && ParentIds(rest)[t] == s[j].id;
      RemainingMembers(s, j + 1, p, rest[t]);
    }
    if Pending(s, j, p) {
      var i' :| 0 <= i' < |s| && (i' > j || !Matches(s[i'], p)) && AbsInt(s[i'].parent) == s[j].id;
      RemainingMembers(s, j + 1, p, s[i']);
      var t :| 0 <= t < |rest| && rest[t] == s[i'];
      assert ParentIds(rest)[t] == s[j].id;
    }
  }

  /** Some item from `j` on matches, so the positions are not empty. */
  lemma {:induction false} MatchIdxNonEmpty(s: seq<MenuItem>, j: nat, p: int, t: nat)
    requires j <= t < |s| && Matches(s[t], p)
    ensures |MatchIdx(s, j, p)| > 0
    decreases t - j
  {
    if j < t && !Matches(s[j], p) {
      MatchIdxNonEmpty(s, j + 1, p, t);
    }
  }

  /** One matched item attaches one component of the right shape, with its
      submenu built recursively from the working copy. */
  lemma {:induction false} AttachOne(env: MenuEnv, s: seq<MenuItem>, j: nat, p: int)
    requires j < |s| && Matches(s[j], p)
    ensures Attached(env, ItemFor(env, s, j, p), s, j, p)
    decreases |s|, 0
  {
    PendingIff(s, j, p);
    var rest := Remaining(s, j + 1, p);
    if Pending(s, j, p) {
      RemainingShorter(s, j, p);
      var shell := Submenu(env.decl, s[j].title);
      if env.classExists {
        LevelShape(env, shell, rest, 0, s[j].id);
      } else {
        LevelWithoutClass(env, shell, rest, 0, s[j].id);
        var t :| 0 <= t < |rest| && ParentIds(rest)[t] == s[j].id;
        MatchIdxNonEmpty(rest, 0, s[j].id, t);
      }
    }
  }

  /** The components `cs` are attached for the matching items at positions
      `idx`, one for one. */
  ghost predicate AttachedList(env: MenuEnv, cs: seq<Child>, s: seq<MenuItem>, idx: seq<nat>, p: int)
    decreases |s|, 2
  {
    |cs| == |idx| && forall k :: 0 <= k < |idx| ==> idx[k] < |s| && Matches(s[idx[k]], p) && Attached(env, cs[k], s, idx[k], p)
  }

  /** With the item class present, each level attaches exactly the items
      whose parent is the level's id, in list order, each with a submenu
      exactly when some item not yet attached names it as parent. */
  lemma {:induction false} LevelShape(env: MenuEnv, menu: Node, s: seq<MenuItem>, j: nat, p: int)
    requires env.classExists
    ensures Level(env, menu, s, j, p).1
    ensures AttachedList(env, Level(env, menu, s, j, p).0.children[|menu.children|..], s, MatchIdx(s, j, p), p)
    decreases |s|, 1, |s| - j
  {
    if j < |s| {
      if !Matches(s[j], p) {
        LevelShape(env, menu, s, j + 1, p);
      } else {
        var c := ItemFor(env, s, j, p);
        var menu' := menu.(children := menu.children + [c]);
        var cs := Level(env, menu', s, j + 1, p).0.children;
        assert Level(env, menu, s, j, p) == Level(env, menu', s, j + 1, p);
        AttachOne(env, s, j, p);
        LevelShape(env, menu', s, j + 1, p);
        assert cs[|menu.children|..] == [c] + cs[|menu'.children|..];
        ConsAttached(env, c, cs[|menu'.children|..], s, j, p);
      }
    }
  }

  /** The step of `LevelShape` for a matching item. */
  lemma ConsAttached(env: MenuEnv, c: Child, cs: seq<Child>, s: seq<MenuItem>, j: nat, p: int)
    requires j < |s| && Matches(s[j], p)
    requires Attached(env, c, s, j, p)
    requires AttachedList(env, cs, s, MatchIdx(s, j + 1, p), p)
    ensures AttachedList(env, [c] + cs, s, MatchIdx(s, j, p), p)
  {
    var idx := MatchIdx(s, j, p);
    assert idx == [j] + MatchIdx(s, j + 1, p);
    forall k | 0 <= k < |idx| ensures idx[k] < |s| && Matches(s[idx[k]], p) && Attached(env, ([c] + cs)[k], s, idx[k], p) {
      if k > 0 {
        assert idx[k] == MatchIdx(s, j + 1, p)[k - 1] && ([c] + cs)[k] == cs[k - 1];
      }
    }
  }

  /** Without the item class, the first matching item ends the call and
      nothing is attached. */
  lemma {:induction false} LevelWithoutClass(env: MenuEnv, menu: Node, s: seq<MenuItem>, j: nat, p: int)
    requires !env.classExists
    ensures Level(env, menu, s, j, p) == (menu, |MatchIdx(s, j, p)| == 0)
    decreases |s| - j
  {
    if j < |s| && !Matches(s[j], p) {
      LevelWithoutClass(env, menu, s, j + 1, p);
    }
  }

  /** The top level, with or without the item class. */
  lemma BuildMenuLevel(env: MenuEnv, n: Node, items: seq<MenuItem>)
    ensures !env.classExists ==> Level(env, n, items, 0, 0).0 == n
    ensures env.classExists ==> |Level(env, n, items, 0, 0).0.children| == |n.children| + |MatchIdx(items, 0, 0)|
    ensures env.classExists ==> AttachedList(env, Level(env, n, items, 0, 0).0.children[|n.children|..], items, MatchIdx(items, 0, 0), 0)
  {
    if env.classExists {
      LevelShape(env, n, items, 0, 0);
    } else {
      LevelWithoutClass(env, n, items, 0, 0);
    }
  }

  /** `$this->get_config( 'menu_item_class' ) ?? '\WP_Components\Component\Menu_Item'`. */
  function MenuItemClass(n: Node): (r: string)
    ensures GetConfig(n, "menu_item_class") == VNull ==> r == "\\WP_Components\\Component\\Menu_Item"
    ensures GetConfig(n, "menu_item_class").VStr? ==> r == GetConfig(n, "menu_item_class").s
  {
    var v := GetConfig(n, "menu_item_class");
    if v == VNull then "\\WP_Components\\Component\\Menu_Item" else ToPhpString(v)
  }

  /** `build_menu( $this, $menu_items )` on the menu itself. `decl` is the
      declaration of the menu's own class, `get_class( $this )`, which
      every submenu is an instance of. */
  function BuildMenu(n: Node, decl: ClassDecl, items: seq<MenuItem>, classExists: string -> bool, mkItem: MenuItem -> Node): (r: Node)
    requires decl.cls == n.cls
    ensures r.(children := n.children) == n
    ensures |r.children| >= |n.children| && r.children[..|n.children|] == n.children
    ensures !classExists(MenuItemClass(n)) ==> r == n
    ensures classExists(MenuItemClass(n)) ==> |r.children| == |n.children| + |MatchIdx(items, 0, 0)|
    ensures classExists(MenuItemClass(n)) ==>
      AttachedList(MenuEnv(decl, true, mkItem), r.children[|n.children|..], items, MatchIdx(items, 0, 0), 0)
  {
    var env := MenuEnv(decl, classExists(MenuItemClass(n)), mkItem);
    BuildMenuLevel(env, n, items);
    Level(env, n, items, 0, 0).0
  }

  /** `parse_wp_menu()`: nothing without a menu term; otherwise the menu's
      items are attached to the menu itself, `decl` being the declaration
      of its class. */
  function ParseWpMenu(n: Node, decl: ClassDecl, menu: Option<seq<MenuItem>>, classExists: string -> bool, mkItem: MenuItem -> Node): (r: Option<Node>)
    requires decl.cls == n.cls
    ensures r.None? <==> menu.None?
    ensures r.Some? ==> r.value.(children := n.children) == n
    ensures r.Some? ==> |r.value.children| >= |n.children| && r.value.children[..|n.children|] == n.children
    ensures r.Some? && !classExists(MenuItemClass(n)) ==> r.value == n
    ensures r.Some? && classExists(MenuItemClass(n)) ==>
      |r.value.children| == |n.children| + |MatchIdx(menu.value, 0, 0)|
      && AttachedList(MenuEnv(decl, true, mkItem), r.value.children[|n.children|..], menu.value, MatchIdx(menu.value, 0, 0), 0)
  {
    match menu
    case None => None
    case Some(items) => Some(BuildMenu(n, decl, items, classExists, mkItem))
  }
}
