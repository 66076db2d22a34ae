/** The Gutenberg content component
    (inc/wp-components/classes/class-gutenberg-content.php): the parsed
    blocks of a post, with blank blocks dropped, are reduced into a list of
    components, and consecutive pieces of static markup are merged into one
    HTML component. The WordPress calls (`parse_blocks`, `render_block` with
    `do_shortcode`, the `the_content` filter, `html_entity_decode` and the
    oEmbed lookup of an embed block) are parameters; the
    `wp_components_block_render_exceptions` and
    `wp_components_dynamic_block` filters are taken unhooked. */
module GutenbergContent {
  import opened Wrappers
  import opened Assocs
  import opened Php
  import opened Falsy
  import opened Component
  import CoreEmbed
  import opened Positions

  /** A block as `parse_blocks` returns it; a `null` block name is `""`. */
  datatype Block = Block(blockName: string, attrs: Assoc<Value>, innerBlocks: seq<Block>, innerHTML: string)

  /** The WordPress functions the reducer calls. */
  datatype Env = Env(
    theContent: string -> string,                   // `apply_filters( 'the_content', $s )`
    render: Block -> string,                        // `do_shortcode( render_block( $block ) )`
    decode: string -> string,                       // `html_entity_decode`
    embed: Block -> Option<CoreEmbed.ParsedEmbed>)  // oEmbed markup of an embed block, parsed

  /** The reducer's accumulator: the components so far and the class-wide
      script container of `Core_Embed`. */
  datatype Acc = Acc(blocks: seq<Node>, scripts: seq<CoreEmbed.Script>)

  // ------------------------------------------------------------ HTML blocks

  /** `WP_Components\HTML`. */
  const HtmlDecl: ClassDecl :=
    ClassDecl("WP_Components\\HTML", "html", [Entry("content", VStr(""))], [], ["default"], [], [], {})

  /** `$x instanceof HTML`. */
  predicate IsHtml(n: Node) {
    n.cls == HtmlDecl.cls
  }

  /** `( new HTML() )->set_config( 'content', $content )`. */
  function HtmlNode(content: string): (r: Node)
    ensures IsHtml(r) && r.name == "html" && r.children == []
    ensures GetConfig(r, "content") == VStr(content)
  {
    SetConfigReads(Construct(HtmlDecl), "content", VStr(content), true);
    SetConfig(Construct(HtmlDecl), "content", VStr(content), true)
  }

  /** The markup a component holds if it is an HTML component. */
  function Markup(n: Node): string {
    if IsHtml(n) then ToPhpString(GetConfig(n, "content")) else ""
  }

  /** The markup held by the HTML components of a list, in order. */
  function HtmlText(bs: seq<Node>): string {
    if |bs| == 0 then "" else HtmlText(bs[..|bs| - 1]) + Markup(bs[|bs| - 1])
  }

  /** The number of components that are not HTML components. */
  function OtherCount(bs: seq<Node>): nat {
    if |bs| == 0 then 0
    else OtherCount(bs[..|bs| - 1]) + (if IsHtml(bs[|bs| - 1]) then 0 else 1)
  }

  /** The components that are not HTML components, in order. */
  function OtherNodes(bs: seq<Node>): (r: seq<Node>)
    ensures |r| == OtherCount(bs)
    ensures forall i :: 0 <= i < |r| ==> !IsHtml(r[i])
  {
    if |bs| == 0 then []
    else OtherNodes(bs[..|bs| - 1]) + (if IsHtml(bs[|bs| - 1]) then [] else [bs[|bs| - 1]])
  }

  /** No two neighbouring components are both HTML components. */
  predicate NoAdjacentHtml(bs: seq<Node>) {
    forall i :: 0 <= i < |bs| - 1 ==> !(IsHtml(bs[i]) && IsHtml(bs[i + 1]))
  }

  /** Appending a component adds its markup, if it is an HTML component. */
  lemma AppendCounts(bs: seq<Node>, x: Node)
    ensures HtmlText(bs + [x]) == HtmlText(bs) + Markup(x)
    ensures OtherCount(bs + [x]) == OtherCount(bs) + (if IsHtml(x) then 0 else 1)
    ensures OtherNodes(bs + [x]) == OtherNodes(bs) + (if IsHtml(x) then [] else [x])
  {
    assert (bs + [x])[..|bs|] == bs;
  }

  /** `$last_block->set_config( 'content', $last_block->get_config( 'content' ) . $content )`. */
  function Extend(last: Node, content: string): (r: Node)
    ensures IsHtml(r) == IsHtml(last)
    ensures IsHtml(last) ==> Markup(r) == Markup(last) + content
  {
    var v := VStr(ToPhpString(GetConfig(last, "content")) + content);
    SetConfigReads(last, "content", v, true);
    SetConfig(last, "content", v, true)
  }

  /** `merge_or_create_html_block( $blocks, $content )`: the content goes
      to the end of the last component when that is an HTML component, and
      into a new HTML component otherwise. */
  function Merge(bs: seq<Node>, content: string): (r: seq<Node>)
    ensures |bs| > 0 && IsHtml(bs[|bs| - 1]) ==> |r| == |bs| && r[..|bs| - 1] == bs[..|bs| - 1]
    ensures !(|bs| > 0 && IsHtml(bs[|bs| - 1])) ==> r == bs + [HtmlNode(content)]
    ensures |r| > 0 && IsHtml(r[|r| - 1])
    ensures |bs| <= |r| <= |bs| + 1 && (|bs| > 0 ==> r[..|bs| - 1] == bs[..|bs| - 1])
  {
    if |bs| > 0 && IsHtml(bs[|bs| - 1]) then bs[..|bs| - 1] + [Extend(bs[|bs| - 1], content)]
    else
      var x := HtmlNode(content);
      assert |bs| > 0 ==> (bs + [x])[..|bs| - 1] == bs[..|bs| - 1];
      bs + [x]
  }

  /** Merging loses and reorders no markup and adds no other component. */
  lemma MergeText(bs: seq<Node>, content: string)
    ensures HtmlText(Merge(bs, content)) == HtmlText(bs) + content
    ensures OtherCount(Merge(bs, content)) == OtherCount(bs)
    ensures OtherNodes(Merge(bs, content)) == OtherNodes(bs)
  {
    if |bs| > 0 && IsHtml(bs[|bs| - 1]) {
      var prefix, last := bs[..|bs| - 1], bs[|bs| - 1];
      var last' := Extend(last, content);
      AppendCounts(prefix, last');
      AppendAssoc(HtmlText(prefix), Markup(last), content);
      assert HtmlText(bs) == HtmlText(prefix) + Markup(last);
    } else {
      AppendCounts(bs, HtmlNode(content));
    }
  }

  /** Merging keeps neighbouring HTML components apart. */
  lemma MergeNoAdjacent(bs: seq<Node>, content: string)
    requires NoAdjacentHtml(bs)
    ensures NoAdjacentHtml(Merge(bs, content))
  {
    var r := Merge(bs, content);
    if |bs| > 0 && IsHtml(bs[|bs| - 1]) {
      forall i | 0 <= i < |r| - 1 ensures !(IsHtml(r[i]) && IsHtml(r[i + 1])) {
        assert r[i] == bs[i];
        if i + 1 < |bs| - 1 {
          assert r[i + 1] == bs[i + 1];
        } else {
          assert !IsHtml(bs[i]);
        }
      }
    } else {
      forall i | 0 <= i < |r| - 1 ensures !(IsHtml(r[i]) && IsHtml(r[i + 1])) {
        assert r[i] == bs[i];
        if i + 1 < |bs| {
          assert r[i + 1] == bs[i + 1];
        }
      }
    }
  }

  // ------------------------------------------------------------- the filter

  /** The characters of PCRE's `\s`. */
  predicate IsSpace(c: char) {
    c == ' ' || c == '\t' || c == '\n' || c == '\U{000B}' || c == '\U{000C}' || c == '\r'
  }

  /** `preg_match( '/^\s+$/', $s )`. */
  predicate IsBlank(s: string) {
    |s| > 0 && forall i :: 0 <= i < |s| ==> IsSpace(s[i])
  }

  /** The callback of the `array_filter` in `parse_and_convert_block_content`. */
  predicate KeepBlock(b: Block) {
    |b.innerBlocks| > 0 || !IsBlank(b.innerHTML)
  }

  /** The parsed blocks without the blank ones, in order. */
  function FilterBlocks(bs: seq<Block>): (r: seq<Block>)
    ensures forall b :: b in r <==> b in bs && KeepBlock(b)
  {
    Keep(bs, KeepBlock)
  }

  /** A block is dropped exactly when it has no inner blocks and its markup
      is one or more whitespace characters; a block with empty markup is
      kept. */
  lemma FilterBlocksDrops(bs: seq<Block>, b: Block)
    requires b in bs
    ensures b !in FilterBlocks(bs) <==> |b.innerBlocks| == 0 && |b.innerHTML| > 0 && forall i :: 0 <= i < |b.innerHTML| ==> IsSpace(b.innerHTML[i])
    ensures b.innerHTML == "" ==> b in FilterBlocks(bs)
  {
  }

  /** Filtering treats the blocks one at a time, keeping their order. */
  lemma FilterBlocksAppend(a: seq<Block>, b: seq<Block>)
    ensures FilterBlocks(a + b) == FilterBlocks(a) + FilterBlocks(b)
  {
    KeepAppend(a, b, KeepBlock);
  }

  // --------------------------------------------------------------- dispatch

  /** The `wp_components_block_render_exceptions` default. */
  const RenderExceptions: seq<string> := ["core/columns", "core/column"]

  /** The characters `preg_replace( '/[\r\n\t\f\v]/', '', $content )`
      is meant to remove, read on characters as with the `u` modifier:
      tab, and PCRE's `\v`, which is any vertical whitespace (LF, VT, FF,
      CR, U+0085, U+2028 and U+2029). */
  predicate IsStripped(c: char) {
    c == '\t' || c == '\n' || c == '\U{000B}' || c == '\U{000C}' || c == '\r'
    || c == '\U{0085}' || c == '\U{2028}' || c == '\U{2029}'
  }

  /** The rendered markup with the removed characters dropped. */
  function StripControls(s: string): (r: string)
    ensures |r| <= |s|
    ensures forall c :: c in r <==> c in s && !IsStripped(c)
  {
    if |s| == 0 then ""
    else
      assert forall c :: c in s <==> c == s[0] || c in s[1..];
      (if IsStripped(s[0]) then "" else [s[0]]) + StripControls(s[1..])
  }

  /** Stripping works character by character, keeping the order of what
      it keeps. */
  lemma {:induction false} StripControlsAppend(a: string, b: string)
    ensures StripControls(a + b) == StripControls(a) + StripControls(b)
  {
    if |a| > 0 {
      assert (a + b)[0] == a[0] && (a + b)[1..] == a[1..] + b;
      StripControlsAppend(a[1..], b);
      AppendAssoc(if IsStripped(a[0]) then "" else [a[0]], StripControls(a[1..]), StripControls(b));
    } else {
      assert a + b == b;
    }
  }

  /** A string that holds none of the removed characters comes back
      unchanged. */
  lemma {:induction false} StripControlsClean(s: string)
    requires forall i :: 0 <= i < |s| ==> !IsStripped(s[i])
    ensures StripControls(s) == s
  {
    if |s| > 0 {
      StripControlsClean(s[1..]);
    }
  }

  /** A byte of the rendered markup. */
  newtype Byte = x: int | 0 <= x < 256

  /** The bytes the pattern removes as written: without the `u` modifier
      PCRE reads the subject byte by byte, and there `\v` also matches the
      byte 0x85. */
  predicate IsStrippedByte(x: Byte) {
    x == 0x09 || x == 0x0A || x == 0x0B || x == 0x0C || x == 0x0D || x == 0x85
  }

  /** `preg_replace( '/[\r\n\t\f\v]/', '', $content )` as written, on the
      bytes of the markup. */
  function StripControlBytes(bs: seq<Byte>): (r: seq<Byte>)
    ensures |r| <= |bs|
    ensures forall x :: x in r <==> x in bs && !IsStrippedByte(x)
  {
    if |bs| == 0 then []
    else
      assert forall x :: x in bs <==> x == bs[0] || x in bs[1..];
      (if IsStrippedByte(bs[0]) then [] else [bs[0]]) + StripControlBytes(bs[1..])
  }

  /** The UTF-8 encoding of a character, the encoding WordPress renders
      markup in. */
  function Utf8(c: char): (r: seq<Byte>)
    ensures 1 <= |r| <= 4
    ensures (c as int < 0x80) <==> |r| == 1
  {
    var n := c as int;
    if n < 0x80 then [n as Byte]
    else if n < 0x800 then [(0xC0 + n / 0x40) as Byte, (0x80 + n % 0x40) as Byte]
    else if n < 0x10000 then [(0xE0 + n / 0x1000) as Byte, (0x80 + n / 0x40 % 0x40) as Byte, (0x80 + n % 0x40) as Byte]
    else [(0xF0 + n / 0x40000) as Byte, (0x80 + n / 0x1000 % 0x40) as Byte, (0x80 + n / 0x40 % 0x40) as Byte, (0x80 + n % 0x40) as Byte]
  }

  /** The UTF-8 encoding of a string. */
  function Utf8String(s: string): (r: seq<Byte>)
    ensures |r| >= |s|
  {
    if |s| == 0 then [] else Utf8(s[0]) + Utf8String(s[1..])
  }

  /** On ASCII markup the byte-wise pattern removes exactly the characters
      `StripControls` removes. */
  lemma {:induction false} StripControlBytesAscii(s: string)
    requires forall i :: 0 <= i < |s| ==> s[i] as int < 0x80
    ensures StripControlBytes(Utf8String(s)) == Utf8String(StripControls(s))
  {
    if |s| > 0 {
      var c := s[0];
      var rest := Utf8String(s[1..]);
      StripControlBytesAscii(s[1..]);
      assert Utf8String(s) == [c as int as Byte] + rest;
      assert ([c as int as Byte] + rest)[1..] == rest;
      assert IsStrippedByte(c as int as Byte) <==> IsStripped(c);
      if IsStripped(c) {
        assert StripControls(s) == StripControls(s[1..]);
      } else {
        assert StripControls(s) == [c] + StripControls(s[1..]);
        assert ([c] + StripControls(s[1..]))[1..] == StripControls(s[1..]);
      }
    }
  }

  /** The defect: the byte 0x85 is also the second byte of letters such as
      'Å' (U+00C5, bytes C3 85) and the Cyrillic 'х' (U+0445, bytes D1 85),
      so the pattern as written cuts those letters in half, while the
      characters it is meant to remove are not in them at all. */
  lemma StripControlBytesSplitsLetters()
    ensures Utf8String("\U{00C5}") == [0xC3, 0x85] && StripControls("\U{00C5}") == "\U{00C5}"
    ensures StripControlBytes(Utf8String("\U{00C5}")) == [0xC3]
    ensures Utf8String("\U{0445}") == [0xD1, 0x85] && StripControls("\U{0445}") == "\U{0445}"
    ensures StripControlBytes(Utf8String("\U{0445}")) == [0xD1]
  {
    assert Utf8String("\U{00C5}") == Utf8('\U{00C5}') + [];
    assert Utf8String("\U{0445}") == Utf8('\U{0445}') + [];
    assert StripControlBytes([0xC3, 0x85]) == [0xC3] + StripControlBytes([0x85]);
    assert StripControlBytes([0xD1, 0x85]) == [0xD1] + StripControlBytes([0x85]);
  }

  /** Which branch of `convert_block_to_component` a block takes. */
  datatype Kind = Classic | Embed | Rendered | Dynamic

  predicate IsEmbedName(name: string) {
    StartsWith(name, "core-embed") || StartsWith(name, "core/embed")
  }

  /** The branches in the order the method tries them. */
  function KindOf(b: Block): Kind {
    if EmptyString(b.blockName) && !EmptyString(b.innerHTML) then Classic
    else if IsEmbedName(b.blockName) then Embed
    else if !EmptyString(Trim(b.innerHTML)) && b.blockName !in RenderExceptions then Rendered
    else Dynamic
  }

  /** An embed block is never taken for classic markup: its name is not
      empty. */
  lemma EmbedNamesEmbed(b: Block)
    requires IsEmbedName(b.blockName)
    ensures KindOf(b) == Embed
  {
    assert b.blockName[..10] == "core-embed" || b.blockName[..10] == "core/embed";
  }

  /** The render exceptions are never rendered: with a name they become
      dynamic components whatever their markup. */
  lemma ExceptionsNotRendered(b: Block)
    requires b.blockName in RenderExceptions
    ensures KindOf(b) == Dynamic
  {
    assert !StartsWith(b.blockName, "core-embed") && !StartsWith(b.blockName, "core/embed") by {
      if b.blockName == "core/columns" {
        assert b.blockName[..10] == "core/colum";
      } else {
        assert b.blockName[..10] == "core/colum";
      }
    }
  }

  /** The markup a classic or rendered block contributes. */
  function HtmlPart(env: Env, b: Block): string {
    match KindOf(b)
    case Classic => env.theContent(b.innerHTML)
    case Rendered => StripControls(env.render(b))
    case _ => ""
  }

  /** The component of a dynamic block: a plain component named after the
      block, its attributes merged into the config, its inner blocks
      reduced into its children. */
  function DynamicBlock(b: Block, children: seq<Node>): (r: Node)
    ensures r.cls == BaseDecl.cls && r.name == b.blockName
    ensures Present(r.children) == children
  {
    PresentAsSlots(children);
    AppendChildren(MergeConfig(SetName(Construct(BaseDecl), b.blockName), b.attrs), AsSlots(children))
  }

  /** A dynamic block's config reads as the block's attributes: the plain
      component has no defaults. */
  lemma DynamicBlockConfig(b: Block, children: seq<Node>, k: string)
    requires UniqueKeys(b.attrs)
    ensures GetConfig(DynamicBlock(b, children), k) == Get(b.attrs, k).GetOr(VNull)
  {
    var named := SetName(Construct(BaseDecl), b.blockName);
    ConstructConfig(BaseDecl, k);
    MergeConfigGet(named, b.attrs, k);
    assert GetConfig(named, k) == GetConfig(Construct(BaseDecl), k);
  }

  /** The component an embed or a dynamic block gets, with the script
      container after it: the embed component set from the block, or the
      dynamic component holding the reduction of the inner blocks. */
  function Own(env: Env, held: seq<CoreEmbed.Script>, b: Block): (r: (Node, seq<CoreEmbed.Script>))
    requires KindOf(b) == Embed || KindOf(b) == Dynamic
    ensures !IsHtml(r.0)
    ensures |r.1| >= |held| && r.1[..|held|] == held
    ensures CoreEmbed.DistinctSrc(held) ==> CoreEmbed.DistinctSrc(r.1)
    ensures KindOf(b) == Dynamic ==> r.0.cls == BaseDecl.cls && r.0.name == b.blockName
    decreases b, 0
  {
    OtherClasses();
    if KindOf(b) == Embed then
      CoreEmbed.SetFromBlock(Construct(CoreEmbed.CoreEmbedDecl), held, b.attrs, b.innerHTML, env.decode, env.embed(b))
    else
      var inner := Reduce(env, Acc([], held), b.innerBlocks);
      (DynamicBlock(b, inner.blocks), inner.scripts)
  }

  /** `convert_block_to_component( $blocks, $block )`. */
  function Convert(env: Env, st: Acc, b: Block): (r: Acc)
    ensures |r.scripts| >= |st.scripts| && r.scripts[..|st.scripts|] == st.scripts
    ensures CoreEmbed.DistinctSrc(st.scripts) ==> CoreEmbed.DistinctSrc(r.scripts)
    decreases b, 1
  {
    match KindOf(b)
    case Classic => Acc(Merge(st.blocks, env.theContent(b.innerHTML)), st.scripts)
    case Rendered => Acc(Merge(st.blocks, StripControls(env.render(b))), st.scripts)
    case _ =>
      var (x, held) := Own(env, st.scripts, b);
      Acc(st.blocks + [x], held)
  }

  /** `array_reduce( $blocks, [ $this, 'convert_block_to_component' ], ... )`. */
  function Reduce(env: Env, st: Acc, bs: seq<Block>): (r: Acc)
    ensures |r.scripts| >= |st.scripts| && r.scripts[..|st.scripts|] == st.scripts
    ensures CoreEmbed.DistinctSrc(st.scripts) ==> CoreEmbed.DistinctSrc(r.scripts)
    decreases bs, 2
  {
    if |bs| == 0 then st
    else
      var st' := Convert(env, st, bs[0]);
      var r := Reduce(env, st', bs[1..]);
      assert r.scripts[..|st.scripts|] == r.scripts[..|st'.scripts|][..|st.scripts|];
      r
  }

  // ------------------------------------------------------------ properties

  /** The markup the blocks contribute, in order. */
  function Parts(env: Env, bs: seq<Block>): string {
    if |bs| == 0 then "" else HtmlPart(env, bs[0]) + Parts(env, bs[1..])
  }

  /** The number of blocks that become a component of their own. */
  function ComponentBlocks(bs: seq<Block>): nat {
    if |bs| == 0 then 0
    else (if KindOf(bs[0]) == Embed || KindOf(bs[0]) == Dynamic then 1 else 0) + ComponentBlocks(bs[1..])
  }

  /** The components of their own that the blocks get, in block order, with
      the script container threaded through them; static markup plays no
      part. */
  function OwnAll(env: Env, held: seq<CoreEmbed.Script>, bs: seq<Block>): (r: (seq<Node>, seq<CoreEmbed.Script>))
    ensures |r.0| == ComponentBlocks(bs)
    decreases bs
  {
    if |bs| == 0 then ([], held)
    else if KindOf(bs[0]) == Embed || KindOf(bs[0]) == Dynamic then
      var (x, held') := Own(env, held, bs[0]);
      var rest := OwnAll(env, held', bs[1..]);
      ([x] + rest.0, rest.1)
    else OwnAll(env, held, bs[1..])
  }

  /** An embed or dynamic block appends one component that is not an
      HTML component: for an embed, the embed component set from the block;
      for a dynamic block, the plain component named after it whose config
      is its attributes and whose children are its reduced inner blocks. */
  lemma ConvertAppendsOne(env: Env, st: Acc, b: Block)
    requires KindOf(b) == Embed || KindOf(b) == Dynamic
    ensures var r := Convert(env, st, b);
      |r.blocks| == |st.blocks| + 1 && r.blocks[..|st.blocks|] == st.blocks && !IsHtml(r.blocks[|st.blocks|])
    ensures KindOf(b) == Embed ==> var r := Convert(env, st, b);
      (r.blocks[|st.blocks|], r.scripts) == CoreEmbed.SetFromBlock(Construct(CoreEmbed.CoreEmbedDecl), st.scripts, b.attrs, b.innerHTML, env.decode, env.embed(b))
    ensures KindOf(b) == Dynamic ==> var r := Convert(env, st, b); var inner := Reduce(env, Acc([], st.scripts), b.innerBlocks);
      && r.blocks[|st.blocks|].name == b.blockName
      && Present(r.blocks[|st.blocks|].children) == inner.blocks
      && (UniqueKeys(b.attrs) ==> forall k :: GetConfig(r.blocks[|st.blocks|], k) == Get(b.attrs, k).GetOr(VNull))
      && r.scripts == inner.scripts
  {
    var r := Convert(env, st, b);
    var (x, held) := Own(env, st.scripts, b);
    assert r.blocks == st.blocks + [x];
    if KindOf(b) == Dynamic && UniqueKeys(b.attrs) {
      var inner := Reduce(env, Acc([], st.scripts), b.innerBlocks);
      forall k ensures GetConfig(x, k) == Get(b.attrs, k).GetOr(VNull) {
        DynamicBlockConfig(b, inner.blocks, k);
      }
    }
  }

  /** Whether a block gets a component of its own. */
  predicate OwnsComponent(b: Block) {
    KindOf(b) == Embed || KindOf(b) == Dynamic
  }

  /** One step keeps the components of their own in order, adding the
      block's own, and hands on the script container. */
  lemma ConvertOthers(env: Env, st: Acc, b: Block)
    ensures var r := Convert(env, st, b);
      && OtherNodes(r.blocks) == OtherNodes(st.blocks) + (if OwnsComponent(b) then [Own(env, st.scripts, b).0] else [])
      && r.scripts == (if OwnsComponent(b) then Own(env, st.scripts, b).1 else st.scripts)
  {
    if OwnsComponent(b) {
      var x := Own(env, st.scripts, b);
      assert Convert(env, st, b) == Acc(st.blocks + [x.0], x.1);
      AppendCounts(st.blocks, x.0);
    } else {
      assert Convert(env, st, b) == Acc(Merge(st.blocks, HtmlPart(env, b)), st.scripts);
      MergeText(st.blocks, HtmlPart(env, b));
    }
  }

  /** The embed component class and the plain component class are not the
      HTML component class. */
  lemma OtherClasses()
    ensures CoreEmbed.CoreEmbedDecl.cls != HtmlDecl.cls
    ensures BaseDecl.cls != HtmlDecl.cls
  {
    assert CoreEmbed.CoreEmbedDecl.cls[14] != HtmlDecl.cls[14];
    assert BaseDecl.cls[14] != HtmlDecl.cls[14];
  }

  /** A classic or rendered block merges its markup. */
  lemma ConvertMerges(env: Env, st: Acc, b: Block)
    requires KindOf(b) == Classic || KindOf(b) == Rendered
    ensures Convert(env, st, b).blocks == Merge(st.blocks, HtmlPart(env, b))
  {
  }

  /** What one step of the reduction does to the component list: the
      block's markup is added to the HTML components, one component of its
      own is added for an embed or a dynamic block, the earlier components
      (all but a trailing HTML component) are left alone, and HTML
      components stay apart. */
  ghost predicate StepShape(env: Env, before: seq<Node>, b: Block, after: seq<Node>) {
    && HtmlText(after) == HtmlText(before) + HtmlPart(env, b)
    && OtherCount(after) == OtherCount(before) + (if KindOf(b) == Embed || KindOf(b) == Dynamic then 1 else 0)
    && |before| <= |after| <= |before| + 1
    && (|before| > 0 ==> after[..|before| - 1] == before[..|before| - 1])
    && (NoAdjacentHtml(before) ==> NoAdjacentHtml(after))
  }

  lemma ConvertShape(env: Env, st: Acc, b: Block)
    ensures StepShape(env, st.blocks, b, Convert(env, st, b).blocks)
  {
    if KindOf(b) == Classic || KindOf(b) == Rendered {
      ConvertMerges(env, st, b);
      MergeShape(env, st.blocks, b);
    } else {
      ConvertAppendsOne(env, st, b);
      var r := Convert(env, st, b).blocks;
      AppendShape(env, st.blocks, b, r[|st.blocks|]);
      assert r == st.blocks + [r[|st.blocks|]];
    }
  }

  lemma MergeShape(env: Env, bs: seq<Node>, b: Block)
    requires KindOf(b) == Classic || KindOf(b) == Rendered
    ensures StepShape(env, bs, b, Merge(bs, HtmlPart(env, b)))
  {
    MergeText(bs, HtmlPart(env, b));
    if NoAdjacentHtml(bs) {
      MergeNoAdjacent(bs, HtmlPart(env, b));
    }
  }

  lemma AppendShape(env: Env, bs: seq<Node>, b: Block, x: Node)
    requires KindOf(b) == Embed || KindOf(b) == Dynamic
    requires !IsHtml(x)
    ensures StepShape(env, bs, b, bs + [x])
  {
    AppendOther(bs, x);
    AppendOtherApart(bs, x);
  }

  /** Appending a component that is not an HTML component adds no markup. */
  lemma AppendOther(bs: seq<Node>, x: Node)
    requires !IsHtml(x)
    ensures HtmlText(bs + [x]) == HtmlText(bs) + ""
    ensures OtherCount(bs + [x]) == OtherCount(bs) + 1
  {
    AppendCounts(bs, x);
  }

  /** ... and keeps HTML components apart. */
  lemma AppendOtherApart(bs: seq<Node>, x: Node)
    requires !IsHtml(x)
    ensures NoAdjacentHtml(bs) ==> NoAdjacentHtml(bs + [x])
    ensures |bs| > 0 ==> (bs + [x])[..|bs| - 1] == bs[..|bs| - 1]
  {
    if NoAdjacentHtml(bs) {
      var r := bs + [x];
      forall i | 0 <= i < |r| - 1 ensures !(IsHtml(r[i]) && IsHtml(r[i + 1])) {
        if i + 1 < |bs| {
          assert r[i] == bs[i] && r[i + 1] == bs[i + 1];
        }
      }
    }
  }

  /** The reduction keeps every piece of static markup, in block order,
      gives each embed and dynamic block exactly one component, never puts
      two HTML components side by side, and adds at most one component per
      block. */
  lemma {:induction false} ReduceShape(env: Env, st: Acc, bs: seq<Block>)
    ensures var r := Reduce(env, st, bs);
      && HtmlText(r.blocks) == HtmlText(st.blocks) + Parts(env, bs)
      && OtherCount(r.blocks) == OtherCount(st.blocks) + ComponentBlocks(bs)
      && |r.blocks| <= |st.blocks| + |bs|
      && (NoAdjacentHtml(st.blocks) ==> NoAdjacentHtml(r.blocks))
    decreases |bs|
  {
    if |bs| == 0 {
      assert HtmlText(st.blocks) + "" == HtmlText(st.blocks);
    } else {
      var st' := Convert(env, st, bs[0]);
      ConvertShape(env, st, bs[0]);
      ReduceShape(env, st', bs[1..]);
      AppendAssoc(HtmlText(st.blocks), HtmlPart(env, bs[0]), Parts(env, bs[1..]));
    }
  }

  /** The components of their own come out of the reduction exactly as the
      blocks give them, in order, whatever markup lies between them, and the
      script container is the one they leave. */
  lemma {:induction false} ReduceOthers(env: Env, st: Acc, bs: seq<Block>)
    ensures var r := Reduce(env, st, bs); var own := OwnAll(env, st.scripts, bs);
      OtherNodes(r.blocks) == OtherNodes(st.blocks) + own.0 && r.scripts == own.1
    decreases |bs|
  {
    if |bs| == 0 {
      assert OtherNodes(st.blocks) + [] == OtherNodes(st.blocks);
    } else {
      var b := bs[0];
      var st' := Convert(env, st, b);
      ReduceCons(env, st, bs);
      ConvertOthers(env, st, b);
      ReduceOthers(env, st', bs[1..]);
      OwnAllCons(env, st.scripts, bs);
      var rest := OwnAll(env, st'.scripts, bs[1..]);
      var r := Reduce(env, st, bs);
      assert OtherNodes(r.blocks) == OtherNodes(st'.blocks) + rest.0;
      if OwnsComponent(b) {
        var x := Own(env, st.scripts, b);
        assert OtherNodes(st'.blocks) == OtherNodes(st.blocks) + [x.0];
        assert st'.scripts == x.1;
        assert OwnAll(env, st.scripts, bs) == ([x.0] + rest.0, rest.1);
        AppendAssoc(OtherNodes(st.blocks), [x.0], rest.0);
      } else {
        assert OtherNodes(st'.blocks) == OtherNodes(st.blocks) + [];
        assert OtherNodes(st.blocks) + [] == OtherNodes(st.blocks);
        assert st'.scripts == st.scripts;
        assert OwnAll(env, st.scripts, bs) == rest;
      }
    }
  }

  lemma ReduceCons(env: Env, st: Acc, bs: seq<Block>)
    requires |bs| > 0
    ensures Reduce(env, st, bs) == Reduce(env, Convert(env, st, bs[0]), bs[1..])
  {
  }

  lemma OwnAllCons(env: Env, held: seq<CoreEmbed.Script>, bs: seq<Block>)
    requires |bs| > 0
    ensures OwnsComponent(bs[0]) ==> var x := Own(env, held, bs[0]); var rest := OwnAll(env, x.1, bs[1..]);
      OwnAll(env, held, bs) == ([x.0] + rest.0, rest.1)
    ensures !OwnsComponent(bs[0]) ==> OwnAll(env, held, bs) == OwnAll(env, held, bs[1..])
  {
  }

  // ------------------------------------------------------------ entry point

  /** `parse_and_convert_block_content( $post_content )` as written. Without
      `parse_blocks` it returns `$this->append_child( ... )`, the component
      itself, from a method declared `: array`, which PHP rejects. */
  function ParseAndConvertAsWritten(env: Env, hasParseBlocks: bool, parse: string -> seq<Block>, content: string, held: seq<CoreEmbed.Script>): (r: Result<Acc, Fault>)
    ensures r.Failure? <==> !hasParseBlocks
    ensures r.Success? ==> r.value == Reduce(env, Acc([], held), FilterBlocks(parse(content)))
  {
    if !hasParseBlocks then Failure(NotAnArrayReturned)
    else Success(Reduce(env, Acc([], held), FilterBlocks(parse(content))))
  }

  /** `parse_and_convert_block_content` as evidently intended: without
      `parse_blocks` the filtered content comes back as one HTML component. */
  function ParseAndConvert(env: Env, hasParseBlocks: bool, parse: string -> seq<Block>, content: string, held: seq<CoreEmbed.Script>): (r: Acc)
    ensures |r.scripts| >= |held| && r.scripts[..|held|] == held
    ensures !hasParseBlocks ==> r.blocks == [HtmlNode(env.theContent(content))]
    ensures hasParseBlocks ==> r == ParseAndConvertAsWritten(env, hasParseBlocks, parse, content, held).value
  {
    if !hasParseBlocks then Acc([HtmlNode(env.theContent(content))], held)
    else Reduce(env, Acc([], held), FilterBlocks(parse(content)))
  }

  /** The defect: without `parse_blocks` the as-written method fails where
      the intended one yields the content as a single HTML component. */
  lemma ClassicFallback(env: Env, parse: string -> seq<Block>, content: string, held: seq<CoreEmbed.Script>)
    ensures ParseAndConvertAsWritten(env, false, parse, content, held).Failure?
    ensures var r := ParseAndConvert(env, false, parse, content, held);
      |r.blocks| == 1 && IsHtml(r.blocks[0]) && HtmlText(r.blocks) == env.theContent(content)
  {
    var x := HtmlNode(env.theContent(content));
    AppendCounts([], x);
    assert [] + [x] == [x];
  }

  /** Whatever the post holds, the components made from it keep all its
      static markup in order, one component per embed and dynamic block,
      and never two HTML components side by side. */
  lemma ParseAndConvertShape(env: Env, hasParseBlocks: bool, parse: string -> seq<Block>, content: string, held: seq<CoreEmbed.Script>)
    requires hasParseBlocks
    ensures var r := ParseAndConvert(env, hasParseBlocks, parse, content, held);
      && HtmlText(r.blocks) == Parts(env, FilterBlocks(parse(content)))
      && OtherCount(r.blocks) == ComponentBlocks(FilterBlocks(parse(content)))
      && NoAdjacentHtml(r.blocks)
  {
    ReduceShape(env, Acc([], held), FilterBlocks(parse(content)));
    assert HtmlText([]) == "" && OtherCount([]) == 0 && NoAdjacentHtml([]);
  }

  /** ... and its components of their own are exactly those the kept blocks
      give, in order, with the script container they leave. */
  lemma ParseAndConvertOthers(env: Env, hasParseBlocks: bool, parse: string -> seq<Block>, content: string, held: seq<CoreEmbed.Script>)
    requires hasParseBlocks
    ensures var r := ParseAndConvert(env, hasParseBlocks, parse, content, held);
      OtherNodes(r.blocks) == OwnAll(env, held, FilterBlocks(parse(content))).0
      && r.scripts == OwnAll(env, held, FilterBlocks(parse(content))).1
  {
    var bs := FilterBlocks(parse(content));
    var own := OwnAll(env, held, bs).0;
    ReduceOthers(env, Acc([], held), bs);
    assert ParseAndConvert(env, hasParseBlocks, parse, content, held) == Reduce(env, Acc([], held), bs);
    assert OtherNodes([]) == [] && [] + own == own;
  }

  /** `post_has_set()`: the components made from the post content are
      appended to the children. Returns the node and the script container. */
  function PostHasSet(n: Node, env: Env, hasParseBlocks: bool, parse: string -> seq<Block>, postContent: string, held: seq<CoreEmbed.Script>): (r: (Node, seq<CoreEmbed.Script>))
    ensures r.0.(children := n.children) == n
    ensures Present(r.0.children) == Present(n.children) + ParseAndConvert(env, hasParseBlocks, parse, postContent, held).blocks
    ensures r.1 == ParseAndConvert(env, hasParseBlocks, parse, postContent, held).scripts
  {
    var acc := ParseAndConvert(env, hasParseBlocks, parse, postContent, held);
    PresentAsSlots(acc.blocks);
    (AppendChildren(n, AsSlots(acc.blocks)), acc.scripts)
  }
}
