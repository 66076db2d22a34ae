/** The embed block component
    (inc/wp-components/classes/blocks/class-core-embed.php). Its class-wide
    script container is threaded through as a value. Fetching the oEmbed
    markup and parsing it with `DOMDocument` are foreign: their outcome, the
    scripts found and the re-serialised markup, is a parameter, and so is
    `html_entity_decode`. */
module CoreEmbed {
  import opened Wrappers
  import opened Assocs
  import opened Php
  import opened Component

  /** The attributes of a `<script>` tag. */
  datatype Script = Script(src: string, defer: bool, async: bool)

  /** `default_config()`. */
  const CoreEmbedDefaults: Assoc<Value> := [
    Entry("content", VStr("")),
    Entry("oembed", VBool(true)),
    Entry("provider", VStr("")),
    Entry("rich", VBool(true))]

  const CoreEmbedDecl: ClassDecl :=
    ClassDecl("WP_Components\\Blocks\\Core_Embed", "core-embed", CoreEmbedDefaults, [], ["default"], [], [], {})

  /** A new embed component is named `core-embed` and holds its defaults. */
  lemma CoreEmbedDefaultConfig(k: string)
    ensures Construct(CoreEmbedDecl).name == "core-embed"
    ensures GetConfig(Construct(CoreEmbedDecl), k) == Get(CoreEmbedDefaults, k).GetOr(VNull)
  {
    assert UniqueKeys(CoreEmbedDefaults) by {
      assert Keys(CoreEmbedDefaults) == ["content", "oembed", "provider", "rich"];
    }
    ConstructConfig(CoreEmbedDecl, k);
  }

  // ---------------------------------------------------------------- scripts

  predicate HasSrc(scripts: seq<Script>, src: string) {
    exists i :: 0 <= i < |scripts| && scripts[i].src == src
  }

  /** No two held scripts share a `src`. */
  predicate DistinctSrc(scripts: seq<Script>) {
    forall i, j :: 0 <= i < j < |scripts| ==> scripts[i].src != scripts[j].src
  }

  /** The container after `add_script( $x )`: a script whose `src` is
      already held is dropped, any other is appended. */
  function WithScript(scripts: seq<Script>, x: Script): (r: seq<Script>)
    ensures HasSrc(r, x.src)
    ensures forall src :: HasSrc(r, src) <==> HasSrc(scripts, src) || src == x.src
    ensures |r| >= |scripts| && r[..|scripts|] == scripts
    ensures DistinctSrc(scripts) ==> DistinctSrc(r)
  {
    if HasSrc(scripts, x.src) then scripts
    else
      assert (scripts + [x])[|scripts|].src == x.src;
      scripts + [x]
  }

  /** `add_script( $script_attrs )`: a scan of the container that returns
      early on a held `src`. */
  method AddScript(scripts: seq<Script>, x: Script) returns (r: seq<Script>)
    ensures r == WithScript(scripts, x)
  {
    var i := 0;
    while i < |scripts|
      invariant 0 <= i <= |scripts|
      invariant forall j :: 0 <= j < i ==> scripts[j].src != x.src
    {
      if scripts[i].src == x.src {
        return scripts;
      }
      i := i + 1;
    }
    return scripts + [x];
  }

  /** Adding the same script twice is adding it once. */
  lemma WithScriptIdempotent(scripts: seq<Script>, x: Script)
    ensures WithScript(WithScript(scripts, x), x) == WithScript(scripts, x)
  {
  }

  /** `add_script` on each script, in order. */
  function WithScripts(scripts: seq<Script>, xs: seq<Script>): (r: seq<Script>)
    ensures |r| >= |scripts| && r[..|scripts|] == scripts
    ensures DistinctSrc(scripts) ==> DistinctSrc(r)
    ensures forall src :: HasSrc(r, src) <==> HasSrc(scripts, src) || HasSrc(xs, src)
    decreases |xs|
  {
    if |xs| == 0 then scripts
    else
      var r := WithScripts(WithScript(scripts, xs[0]), xs[1..]);
      assert forall src :: HasSrc(xs, src) <==> xs[0].src == src || HasSrc(xs[1..], src) by {
        forall src ensures HasSrc(xs, src) ==> xs[0].src == src || HasSrc(xs[1..], src) {
          if HasSrc(xs, src) && xs[0].src != src {
            var i :| 0 <= i < |xs| && xs[i].src == src;
            assert xs[1..][i - 1] == xs[i];
          }
        }
      }
      r
  }

  /** `get_scripts()`: the held scripts, and the emptied container. */
  function GetScripts(scripts: seq<Script>): (r: (seq<Script>, seq<Script>))
    ensures r.0 == scripts && r.1 == []
  {
    (scripts, [])
  }

  /** A second `get_scripts()` returns nothing. */
  lemma GetScriptsDrains(scripts: seq<Script>)
    ensures GetScripts(GetScripts(scripts).1).0 == []
  {
  }

  // ------------------------------------------------------------ from block

  /** What `wp_oembed_get` and the `DOMDocument` pass yield: the scripts of
      the embed markup and the markup as re-serialised. */
  datatype ParsedEmbed = ParsedEmbed(scripts: seq<Script>, saved: string)

  /** `$block['attrs']['providerNameSlug'] ?? ''`. */
  function Provider(attrs: Assoc<Value>): (v: Value)
    ensures v != VNull
    ensures Get(attrs, "providerNameSlug").Some? && Get(attrs, "providerNameSlug").value != VNull ==> v == Get(attrs, "providerNameSlug").value
  {
    match Get(attrs, "providerNameSlug")
    case Some(p) => if p == VNull then VStr("") else p
    case None => VStr("")
  }

  /** `set_from_block( $block )`: when there is no oEmbed markup nothing
      changes; otherwise the scripts of the markup go to the container, the
      block's URL in its decoded inner HTML is replaced by the markup, and
      the provider and content are set. Returns the node and the
      container. */
  function SetFromBlock(n: Node, held: seq<Script>, attrs: Assoc<Value>, innerHtml: string, decode: string -> string, embed: Option<ParsedEmbed>): (r: (Node, seq<Script>))
    ensures embed.None? ==> r == (n, held)
    ensures embed.Some? ==> GetConfig(r.0, "provider") == Provider(attrs)
    ensures embed.Some? ==> GetConfig(r.0, "content") == VStr(ReplaceAll(decode(innerHtml), ToPhpString(Get(attrs, "url").GetOr(VNull)), embed.value.saved))
    ensures forall k :: k != "provider" && k != "content" ==> GetConfig(r.0, k) == GetConfig(n, k)
    ensures r.0.children == n.children && r.0.name == n.name && r.0.cls == n.cls
    ensures |r.1| >= |held| && r.1[..|held|] == held
    ensures embed.Some? ==> forall s :: s in embed.value.scripts ==> HasSrc(r.1, s.src)
    ensures DistinctSrc(held) ==> DistinctSrc(r.1)
  {
    match embed
    case None => (n, held)
    case Some(p) =>
      var scripts := WithScripts(held, p.scripts);
      var content := ReplaceAll(decode(innerHtml), ToPhpString(Get(attrs, "url").GetOr(VNull)), p.saved);
      var withProvider := SetConfig(n, "provider", Provider(attrs), true);
      SetConfigReads(n, "provider", Provider(attrs), true);
      SetConfigReads(withProvider, "content", VStr(content), true);
      assert forall s :: s in p.scripts ==> HasSrc(p.scripts, s.src);
      (SetConfig(withProvider, "content", VStr(content), true), scripts)
  }
}
