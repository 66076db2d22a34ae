/** The render controller of the PHP templates
    (wp-components-php/inc/classes/class-render-controller.php): a stack of
    renderables with a reference to the current one, the bracketing of each
    template between a push and a pop, the normalisation of the cache
    argument of `render`, and `render_children`. Output buffering,
    transients and template files are I/O; a template's effect on the
    controller is a function parameter. */
module RenderController {
  import opened Wrappers
  import opened Assocs
  import opened Php
  import Legacy

  /** `new Renderable( $component_instance, $return )`. */
  datatype Renderable = Renderable(component: Legacy.LegacyNode, ret: bool)

  /** `$stack` and `$current_renderable` (`None` for `false`). */
  datatype RenderState = RenderState(stack: seq<Renderable>, current: Option<Renderable>)

  /** `$default_cache_ttl`: 15 minutes. */
  const DefaultCacheTtl: int := 900

  /** `end( $stack )`: the top, or `false` (here `None`) when empty. */
  function Top(stack: seq<Renderable>): (r: Option<Renderable>)
    ensures r.None? <==> |stack| == 0
    ensures r.Some? ==> r.value == stack[|stack| - 1]
  {
    if |stack| == 0 then None else Some(stack[|stack| - 1])
  }

  /** The current renderable is the top of the stack. */
  predicate Consistent(st: RenderState) {
    st.current == Top(st.stack)
  }

  /** `push( $renderable )`. */
  function Push(st: RenderState, x: Renderable): (r: RenderState)
    ensures r.stack == st.stack + [x] && r.current == Some(x)
    ensures Consistent(r)
  {
    RenderState(st.stack + [x], Some(x))
  }

  /** `pop()`: `array_pop` does nothing on an empty stack. */
  function Pop(st: RenderState): (r: RenderState)
    ensures |st.stack| > 0 ==> r.stack == st.stack[..|st.stack| - 1]
    ensures |st.stack| == 0 ==> r.stack == []
    ensures Consistent(r)
  {
    var s := if |st.stack| == 0 then [] else st.stack[..|st.stack| - 1];
    RenderState(s, Top(s))
  }

  /** A pop undoes a push, and a consistent state comes back unchanged. */
  lemma PopPush(st: RenderState, x: Renderable)
    ensures Pop(Push(st, x)).stack == st.stack
    ensures Consistent(st) <==> Pop(Push(st, x)) == st
  {
    assert (st.stack + [x])[..|st.stack|] == st.stack;
  }

  /** A template leaves the stack as it found it. */
  ghost predicate Balanced(template: RenderState -> RenderState) {
    forall s :: template(s).stack == s.stack
  }

  /** `render_instance( $component_instance, $return )`: push, run the
      template, pop. */
  function RenderInstance(st: RenderState, c: Legacy.LegacyNode, ret: bool, template: RenderState -> RenderState): (r: RenderState)
    ensures template(Push(st, Renderable(c, ret))).stack == st.stack + [Renderable(c, ret)] ==> r.stack == st.stack
    ensures Consistent(r)
  {
    var after := template(Push(st, Renderable(c, ret)));
    assert after.stack == st.stack + [Renderable(c, ret)] ==> after.stack[..|after.stack| - 1] == st.stack;
    Pop(after)
  }

  /** With a balanced template, rendering restores a consistent state. */
  lemma RenderInstanceRestores(st: RenderState, c: Legacy.LegacyNode, ret: bool, template: RenderState -> RenderState)
    requires Consistent(st) && Balanced(template)
    ensures RenderInstance(st, c, ret, template) == st
  {
    assert template(Push(st, Renderable(c, ret))).stack == Push(st, Renderable(c, ret)).stack;
  }

  /** A template that itself renders a component with a balanced
      template is balanced: nesting keeps the discipline. */
  lemma NestedRenderBalanced(c: Legacy.LegacyNode, ret: bool, inner: RenderState -> RenderState)
    requires Balanced(inner)
    ensures Balanced(s => RenderInstance(s, c, ret, inner))
  {
    forall s ensures RenderInstance(s, c, ret, inner).stack == s.stack {
      assert inner(Push(s, Renderable(c, ret))).stack == Push(s, Renderable(c, ret)).stack;
    }
  }

  // ------------------------------------------------------------------ cache

  /** The `$cache` argument of `render`: a boolean or an array. */
  datatype CacheArg = CacheFlag(on: bool) | CacheArray(entries: Assoc<Value>)

  /** `if ( $cache )`. */
  predicate Caching(arg: CacheArg) {
    match arg
    case CacheFlag(b) => b
    case CacheArray(m) => |m| > 0
  }

  /** What a cache-key derivation is applied to: `render` passes the
      undefined `$args`, which reads as `null`. */
  datatype KeySource = NoArgs | Instance(component: Legacy.LegacyNode)

  /** `cache_key( $args )`: a fixed prefix and a digest of the argument;
      the digest (`md5( serialize( $args ) )`) is a parameter. */
  function CacheKey(digest: KeySource -> string, src: KeySource): (r: string)
    ensures |r| >= |CacheKeyPrefix| && r[..|CacheKeyPrefix|] == CacheKeyPrefix
    ensures r[|CacheKeyPrefix|..] == digest(src)
  {
    CacheKeyPrefix + digest(src)
  }

  const CacheKeyPrefix: string := "partial_"

  /** The cache array given by `$cache`: `true` becomes `[]`. */
  function CacheEntries(arg: CacheArg): Assoc<Value> {
    if arg.CacheArray? then arg.entries else []
  }

  /** `if ( empty( $cache['key'] ) ) $cache['key'] = $derived;` */
  function WithKey(m: Assoc<Value>, derived: string): Assoc<Value> {
    if Empty(Get(m, "key").GetOr(VNull)) then Put(m, "key", VStr(derived)) else m
  }

  /** An empty `key` reads as `derived` afterwards, a set one is kept, and
      every other setting reads as before. */
  lemma WithKeyGet(m: Assoc<Value>, derived: string, k: string)
    ensures Get(WithKey(m, derived), k) ==
      if k != "key" then Get(m, k)
      else Some(if Empty(Get(m, "key").GetOr(VNull)) then VStr(derived) else Get(m, "key").value)
  {
    GetPut(m, "key", VStr(derived), k);
  }

  /** `if ( ! isset( $cache['ttl'] ) ) $cache['ttl'] = $default_cache_ttl;` */
  function WithTtl(m: Assoc<Value>): Assoc<Value> {
    if Get(m, "ttl").GetOr(VNull) == VNull then Put(m, "ttl", VInt(DefaultCacheTtl)) else m
  }

  /** A missing or null `ttl` reads as the default afterwards, a set one is
      kept, and every other setting reads as before. */
  lemma WithTtlGet(m: Assoc<Value>, k: string)
    ensures Get(WithTtl(m), k) ==
      if k != "ttl" then Get(m, k)
      else Some(if Get(m, "ttl").GetOr(VNull) == VNull then VInt(DefaultCacheTtl) else Get(m, "ttl").value)
  {
    GetPut(m, "ttl", VInt(DefaultCacheTtl), k);
  }

  /** The normalised cache settings, or `None` when caching is off. */
  function NormalizeCache(arg: CacheArg, derived: string): (r: Option<Assoc<Value>>)
    ensures r.None? <==> !Caching(arg)
  {
    if !Caching(arg) then None else Some(WithTtl(WithKey(CacheEntries(arg), derived)))
  }

  /** What the normalised settings hold under `k`. */
  function CacheRead(m: Assoc<Value>, derived: string, k: string): Option<Value> {
    if k == "key" then Some(if Empty(Get(m, "key").GetOr(VNull)) then VStr(derived) else Get(m, "key").value)
    else if k == "ttl" then Some(if Get(m, "ttl").GetOr(VNull) == VNull then VInt(DefaultCacheTtl) else Get(m, "ttl").value)
    else Get(m, k)
  }

  /** With caching on, an empty `key` becomes `derived`, a missing or null
      `ttl` becomes `$default_cache_ttl`, and every other setting is passed
      through. */
  lemma NormalizeCacheGet(arg: CacheArg, derived: string, k: string)
    ensures Caching(arg) ==> Get(NormalizeCache(arg, derived).value, k) == CacheRead(CacheEntries(arg), derived, k)
  {
    var m := CacheEntries(arg);
    WithTtlGet(WithKey(m, derived), k);
    WithKeyGet(m, derived, k);
    WithKeyGet(m, derived, "ttl");
  }

  /** `render` as written: the derived key is `cache_key( $args )` of the
      undefined `$args`, whatever the component. */
  function CacheSettingsAsWritten(arg: CacheArg, c: Legacy.LegacyNode, digest: KeySource -> string): (r: Option<Assoc<Value>>)
    ensures r.Some? && !Empty(Get(CacheEntries(arg), "key").GetOr(VNull)) ==> Get(r.value, "key") == Get(CacheEntries(arg), "key")
    ensures r.Some? && Empty(Get(CacheEntries(arg), "key").GetOr(VNull)) ==> Get(r.value, "key") == Some(VStr(CacheKey(digest, NoArgs)))
  {
    NormalizeCacheGet(arg, CacheKey(digest, NoArgs), "key");
    NormalizeCache(arg, CacheKey(digest, NoArgs))
  }

  /** Any two components cached without an explicit key share one cache
      entry. */
  lemma CacheKeyShared(c1: Legacy.LegacyNode, c2: Legacy.LegacyNode, digest: KeySource -> string)
    ensures CacheSettingsAsWritten(CacheFlag(true), c1, digest) == CacheSettingsAsWritten(CacheFlag(true), c2, digest)
    ensures Get(CacheSettingsAsWritten(CacheFlag(true), c1, digest).value, "key") == Some(VStr(CacheKey(digest, NoArgs)))
  {
  }

  /** `render` with the key derived from the component being rendered. */
  function CacheSettings(arg: CacheArg, c: Legacy.LegacyNode, digest: KeySource -> string): (r: Option<Assoc<Value>>)
    ensures r.Some? && !Empty(Get(CacheEntries(arg), "key").GetOr(VNull)) ==> Get(r.value, "key") == Get(CacheEntries(arg), "key")
    ensures r.Some? && Empty(Get(CacheEntries(arg), "key").GetOr(VNull)) ==> Get(r.value, "key") == Some(VStr(CacheKey(digest, Instance(c))))
  {
    NormalizeCacheGet(arg, CacheKey(digest, Instance(c)), "key");
    NormalizeCache(arg, CacheKey(digest, Instance(c)))
  }

  /** With a collision-free derivation, distinct components cached without
      an explicit key get distinct cache entries. */
  lemma CacheKeyDistinct(c1: Legacy.LegacyNode, c2: Legacy.LegacyNode, digest: KeySource -> string)
    requires digest(Instance(c1)) != digest(Instance(c2))
    ensures Get(CacheSettings(CacheFlag(true), c1, digest).value, "key") != Get(CacheSettings(CacheFlag(true), c2, digest).value, "key")
  {
  }

  // --------------------------------------------------------- render_children

  /** `render_children( $children )`: an empty argument falls back to the
      current component's children (none when there is no current
      renderable); the result is `''` when nothing is rendered and otherwise
      the `null` that the last `render` call returns. Returns the result
      (`None` for `null`) and the children rendered, in order. */
  function RenderChildren(st: RenderState, children: seq<Option<Legacy.LegacyNode>>): (r: (Option<string>, seq<Option<Legacy.LegacyNode>>))
    ensures |children| > 0 ==> r.1 == children
    ensures |children| == 0 && st.current.Some? ==> r.1 == st.current.value.component.children
    ensures |children| == 0 && st.current.None? ==> r.1 == []
    ensures r.0 == Some("") <==> |r.1| == 0
    ensures r.0.Some? ==> r.0 == Some("")
  {
    var todo := if |children| > 0 then children
      else if st.current.Some? then st.current.value.component.children
      else [];
    if |todo| == 0 then (Some(""), []) else (None, todo)
  }
}
