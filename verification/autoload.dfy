/** The class-name to file-path mapping of the autoloaders registered by
    autoload.php and inc/autoload.php: the `WP_Components` and `WP_Render`
    loaders, which look for a class file and a trait file under the plugin
    directory, and the theme loader, whose namespace and path come from
    filters. Whether a file exists and `require_once` are the file system's
    business: a loader here yields the paths it would probe. */
module Autoload {
  import opened Wrappers
  import opened Php

  /** A namespace loader: the namespace it serves and the directory its
      files live in. */
  datatype Loader = Loader(ns: string, dir: string)

  const ComponentsLoader: Loader := Loader("WP_Components", "wp-components")
  const RenderLoader: Loader := Loader("WP_Render", "wp-render")

  /** The two files a loader probes for one class name. */
  datatype Paths = Paths(classPath: string, traitPath: string)

  /** `strtolower( str_replace( '_', '-', $s ) )`. */
  function Slug(s: string): (r: string)
    ensures |r| == |s|
    ensures forall i :: 0 <= i < |s| ==> r[i] != '_' && !IsUpper(r[i])
    ensures forall i :: 0 <= i < |s| ==> (r[i] == '\\' <==> s[i] == '\\') && (r[i] == '/' <==> s[i] == '/')
  {
    Lower(ReplaceChar(s, '_', '-'))
  }

  /** `ltrim( $object, '\\' )`, then the namespace test. */
  predicate Served(l: Loader, name: string) {
    Contains(LTrimChar(name, '\\'), l.ns)
  }

  /** The name with its namespace prefix removed, slugged. */
  function Normalise(l: Loader, name: string): string {
    Slug(ReplaceAll(LTrimChar(name, '\\'), l.ns + "\\", ""))
  }

  /** `$dirs = explode( '\\', $object ); $object = array_pop( $dirs );`:
      the directories and the file stem of `s`. */
  function Split(s: string): (r: (seq<string>, string))
    ensures Implode("\\", r.0 + [r.1]) == s
    ensures forall i :: 0 <= i < |r.1| ==> r.1[i] != '\\' && r.1[i] in s
    ensures forall k, i :: 0 <= k < |r.0| && 0 <= i < |r.0[k]| ==> r.0[k][i] != '\\' && r.0[k][i] in s
  {
    var ws := Explode('\\', s);
    ExplodeRoundTrip('\\', s);
    ExplodeChars('\\', s);
    assert ws == ws[..|ws| - 1] + [ws[|ws| - 1]];
    (ws[..|ws| - 1], ws[|ws| - 1])
  }

  /** `rtrim( '/inc/' . implode( '/', $dirs ), '/' )`. */
  function IncDir(dirs: seq<string>): string {
    RTrimChar("/inc/" + Implode("/", dirs), '/')
  }

  /** The two kinds of file a loader probes. */
  datatype Kind = ClassFile | TraitFile {
    /** `classes` or `traits`. */
    function Dir(): string {
      match this
      case ClassFile => "classes"
      case TraitFile => "traits"
    }

    /** `class-` or `trait-`. */
    function Prefix(): string {
      match this
      case ClassFile => "class-"
      case TraitFile => "trait-"
    }
  }

  /** The path a loader probes, as written: the sub-namespace directories
      come between `/inc` and the loader's directory. */
  function PathAsWritten(base: string, l: Loader, dirs: seq<string>, k: Kind, stem: string): string {
    base + IncDir(dirs) + FileIn(l, k, stem)
  }

  /** `"/<dir>/classes/class-{$object}.php"` and its trait counterpart. */
  function FileIn(l: Loader, k: Kind, stem: string): string {
    "/" + l.dir + "/" + k.Dir() + "/" + k.Prefix() + stem + ".php"
  }

  /** The `WP_Components` (or `WP_Render`) autoloader as written: no paths
      for a name outside the namespace; otherwise the class file and the
      trait file it would require. */
  function ResolveAsWritten(l: Loader, base: string, name: string): (r: Option<Paths>)
    ensures r.None? <==> !Served(l, name)
  {
    if !Served(l, name) then None
    else
      var (dirs, stem) := Split(Normalise(l, name));
      Some(Paths(PathAsWritten(base, l, dirs, ClassFile, stem), PathAsWritten(base, l, dirs, TraitFile, stem)))
  }

  /** The path a loader should probe: the sub-namespace directories go
      below the loader's `classes` or `traits` directory, where the plugin
      keeps them. */
  function PathOf(base: string, l: Loader, dirs: seq<string>, k: Kind, stem: string): (r: string)
    ensures StartsWith(r, base + "/inc/" + l.dir + "/" + k.Dir() + "/")
  {
    var top := base + "/inc/" + l.dir + "/" + k.Dir() + "/";
    var r := top + Implode("/", dirs + [k.Prefix() + stem + ".php"]);
    assert r[..|top|] == top;
    r
  }

  /** The autoloader with sub-namespaces under the kind directory. */
  function Resolve(l: Loader, base: string, name: string): (r: Option<Paths>)
    ensures r.None? <==> !Served(l, name)
    ensures r.Some? ==> StartsWith(r.value.classPath, base + "/inc/" + l.dir + "/classes/")
    ensures r.Some? ==> StartsWith(r.value.traitPath, base + "/inc/" + l.dir + "/traits/")
  {
    if !Served(l, name) then None
    else
      var (dirs, stem) := Split(Normalise(l, name));
      Some(Paths(PathOf(base, l, dirs, ClassFile, stem), PathOf(base, l, dirs, TraitFile, stem)))
  }

  // ------------------------------------------------------------ properties

  /** A loader namespace: non-empty and not starting with a backslash. */
  predicate ValidNs(ns: string) {
    |ns| > 0 && ns[0] != '\\'
  }

  /** Leading backslashes do not matter: `\WP_Components\Body` and
      `WP_Components\Body` resolve alike. */
  lemma LeadingBackslash(l: Loader, base: string, name: string)
    ensures ResolveAsWritten(l, base, "\\" + name) == ResolveAsWritten(l, base, name)
    ensures Resolve(l, base, "\\" + name) == Resolve(l, base, name)
  {
    assert ("\\" + name)[1..] == name;
  }

  /** Every stem and directory a loader computes is lower case, without
      `_` and without a backslash. */
  lemma StemShape(l: Loader, name: string)
    ensures var (dirs, stem) := Split(Normalise(l, name));
      (forall i :: 0 <= i < |stem| ==> stem[i] != '_' && stem[i] != '\\' && !IsUpper(stem[i])) &&
      (forall k, i :: 0 <= k < |dirs| && 0 <= i < |dirs[k]| ==> dirs[k][i] != '_' && dirs[k][i] != '\\' && !IsUpper(dirs[k][i]))
  {
    var s := Normalise(l, name);
    assert forall c :: c in s ==> c != '_' && !IsUpper(c);
  }

  /** `str_replace` on a string that starts with the needle and has no
      further occurrence of it drops the leading one. */
  lemma StripLeading(p: string, rest: string)
    requires |p| > 0 && !Contains(rest, p)
    ensures ReplaceAll(p + rest, p, "") == rest
  {
    var s := p + rest;
    assert s[..|p|] == p && s[|p|..] == rest;
    ReplaceAllAbsent(rest, p, "");
  }

  lemma NestedName(ns: string, d: string, x: string)
    ensures ns + "\\" + d + "\\" + x == (ns + "\\") + (d + "\\" + x)
  {
  }

  /** Removing a prefix that ends in a backslash from a name that has no
      further backslash leaves the rest. */
  lemma StripPrefix(p: string, x: string)
    requires |p| > 0 && p[|p| - 1] == '\\' && '\\' !in x
    ensures ReplaceAll(p + x, p, "") == x
  {
    assert !Contains(x, p) by {
      forall i | 0 <= i <= |x| - |p| ensures !OccursAt(x, p, i) {
        assert x[i + |p| - 1] in x;
        assert x[i..i + |p|][|p| - 1] == x[i + |p| - 1];
      }
    }
    StripLeading(p, x);
  }

  /** The name `<ns>\<x>` with `x` free of backslashes, normalised. */
  lemma NormaliseTopLevel(l: Loader, x: string)
    requires ValidNs(l.ns) && '\\' !in x
    ensures Served(l, l.ns + "\\" + x)
    ensures Normalise(l, l.ns + "\\" + x) == Slug(x)
  {
    var name := l.ns + "\\" + x;
    assert name == (l.ns + "\\") + x;
    assert OccursAt(name, l.ns, 0);
    StripPrefix(l.ns + "\\", x);
  }

  /** A name without a backslash is all stem. */
  lemma SplitFlat(s: string)
    requires '\\' !in s
    ensures Split(s) == ([], s)
  {
    ExplodeWithoutDelimiter('\\', s);
  }

  /** A class directly in a loader's namespace: both mappings give
      `<base>/inc/<dir>/classes/class-<slug>.php` and the matching trait
      path, so they agree. */
  lemma TopLevelPaths(l: Loader, base: string, x: string)
    requires ValidNs(l.ns) && '\\' !in x
    ensures ResolveAsWritten(l, base, l.ns + "\\" + x) == Some(Paths(
      base + "/inc" + FileIn(l, ClassFile, Slug(x)),
      base + "/inc" + FileIn(l, TraitFile, Slug(x))))
    ensures Resolve(l, base, l.ns + "\\" + x) == ResolveAsWritten(l, base, l.ns + "\\" + x)
  {
    NormaliseTopLevel(l, x);
    var stem := Slug(x);
    assert '\\' !in stem;
    SplitFlat(stem);
    FlatPath(base, l, ClassFile, stem);
    FlatPath(base, l, TraitFile, stem);
  }

  /** With no sub-namespace both path formulas coincide. */
  lemma FlatPath(base: string, l: Loader, k: Kind, stem: string)
    ensures PathAsWritten(base, l, [], k, stem) == base + "/inc" + FileIn(l, k, stem)
    ensures PathOf(base, l, [], k, stem) == PathAsWritten(base, l, [], k, stem)
  {
    assert "/inc/" + Implode("/", []) == "/inc/";
    assert "/inc/"[..4] == "/inc";
    var f := k.Prefix() + stem + ".php";
    assert [] + [f] == [f];
    assert Implode("/", [f]) == f;
    FileInSplit(l, k, stem);
    assert "/inc" + "/" == "/inc/";
    Regroup(base, "/inc", "/", l.dir, k.Dir(), f);
  }

  lemma Regroup(base: string, inc: string, sep: string, d: string, kd: string, f: string)
    ensures base + (inc + sep) + d + sep + kd + sep + f == base + inc + (sep + d + sep + kd + sep + f)
  {
  }

  lemma FileInSplit(l: Loader, k: Kind, stem: string)
    ensures FileIn(l, k, stem) == "/" + l.dir + "/" + k.Dir() + "/" + (k.Prefix() + stem + ".php")
  {
  }

  /** `\WP_Components\Body` is looked for in `class-body.php` and
      `trait-body.php` directly under `/inc/wp-components`. */
  lemma BodyPath(base: string)
    ensures ResolveAsWritten(ComponentsLoader, base, "\\WP_Components\\Body") == Some(Paths(
      base + "/inc" + FileIn(ComponentsLoader, ClassFile, "body"),
      base + "/inc" + FileIn(ComponentsLoader, TraitFile, "body")))
  {
    assert "\\WP_Components\\Body" == "\\" + (ComponentsLoader.ns + "\\" + "Body");
    LeadingBackslash(ComponentsLoader, base, ComponentsLoader.ns + "\\" + "Body");
    BodyLiterals();
    TopLevelPaths(ComponentsLoader, base, "Body");
  }

  lemma BodyLiterals()
    ensures '\\' !in "Body"
    ensures Slug("Body") == "body"
  {
    assert "Body" == ['B', 'o', 'd', 'y'];
    var t := Slug("Body");
    assert t[0] == 'b' && t[1] == 'o' && t[2] == 'd' && t[3] == 'y';
  }

  /** `\WP_Render\Render_Controller` is looked for in
      `class-render-controller.php` and `trait-render-controller.php`
      directly under `/inc/wp-render`. */
  lemma RenderControllerPath(base: string)
    ensures ResolveAsWritten(RenderLoader, base, "\\WP_Render\\Render_Controller") == Some(Paths(
      base + "/inc" + FileIn(RenderLoader, ClassFile, "render-controller"),
      base + "/inc" + FileIn(RenderLoader, TraitFile, "render-controller")))
  {
    assert "\\WP_Render\\Render_Controller" == "\\" + (RenderLoader.ns + "\\" + "Render_Controller");
    LeadingBackslash(RenderLoader, base, RenderLoader.ns + "\\" + "Render_Controller");
    RenderControllerLiterals();
    TopLevelPaths(RenderLoader, base, "Render_Controller");
  }

  lemma RenderControllerLiterals()
    ensures '\\' !in "Render_Controller"
    ensures Slug("Render_Controller") == "render-controller"
  {
    assert "Render_Controller" == ['R', 'e', 'n', 'd', 'e', 'r', '_', 'C', 'o', 'n', 't', 'r', 'o', 'l', 'l', 'e', 'r'];
    SlugRenderController();
  }

  lemma SlugRenderController()
    ensures Slug("Render_Controller") == "render-controller"
  {
    var t := Slug("Render_Controller");
    assert t[0] == 'r' && t[1] == 'e' && t[2] == 'n' && t[3] == 'd' && t[4] == 'e' && t[5] == 'r';
    assert t[6] == '-';
    assert t[7] == 'c' && t[8] == 'o' && t[9] == 'n' && t[10] == 't' && t[11] == 'r';
    assert t[12] == 'o' && t[13] == 'l' && t[14] == 'l' && t[15] == 'e' && t[16] == 'r';
  }

  // -------------------------------------------------------- sub-namespaces

  /** Slugging works piece by piece across a backslash. */
  lemma SlugAround(a: string, b: string)
    ensures Slug(a + "\\" + b) == Slug(a) + "\\" + Slug(b)
  {
    var s := a + "\\" + b;
    var r := Slug(a) + "\\" + Slug(b);
    forall i | 0 <= i < |s| ensures Slug(s)[i] == r[i] {
      if i < |a| {
        assert s[i] == a[i] && r[i] == Slug(a)[i];
      } else if i > |a| {
        assert s[i] == b[i - |a| - 1] && r[i] == Slug(b)[i - |a| - 1];
      }
    }
  }

  /** The namespace prefix cannot occur again in `<d>\<x>` unless `d`
      ends with the namespace. */
  lemma NoNestedPrefix(ns: string, d: string, x: string)
    requires |ns| > 0 && '\\' !in d && '\\' !in x && !Contains(d, ns)
    ensures !Contains(d + "\\" + x, ns + "\\")
  {
    var s := d + "\\" + x;
    var p := ns + "\\";
    forall i | 0 <= i <= |s| - |p| ensures !OccursAt(s, p, i) {
      var j := i + |ns|;
      assert p[|ns|] == '\\';
      assert s[i..i + |p|][|ns|] == s[j];
      if j < |d| {
        assert s[j] == d[j] && d[j] in d;
      } else if j > |d| {
        assert s[j] == x[j - |d| - 1] && x[j - |d| - 1] in x;
      } else {
        assert s[..|d|] == d;
        assert s[i..i + |ns|] == s[..|d|][i..];
        assert s[i..i + |p|][..|ns|] == s[i..i + |ns|];
        assert p[..|ns|] == ns;
        assert !OccursAt(d, ns, i);
      }
    }
  }

  /** The name `<ns>\<d>\<x>`, normalised. */
  lemma NormaliseNested(l: Loader, d: string, x: string)
    requires ValidNs(l.ns) && '\\' !in d && '\\' !in x && !Contains(d, l.ns)
    ensures Served(l, l.ns + "\\" + d + "\\" + x)
    ensures Normalise(l, l.ns + "\\" + d + "\\" + x) == Slug(d) + "\\" + Slug(x)
  {
    var name := l.ns + "\\" + d + "\\" + x;
    var p := l.ns + "\\";
    var rest := d + "\\" + x;
    NestedName(l.ns, d, x);
    assert OccursAt(name, l.ns, 0);
    NoNestedPrefix(l.ns, d, x);
    StripLeading(p, rest);
    SlugAround(d, x);
  }

  /** `<d>\<x>` splits into the directory `d` and the stem `x`. */
  lemma SplitNested(d: string, x: string)
    requires '\\' !in d && '\\' !in x
    ensures Split(d + "\\" + x) == ([d], x)
  {
    ExplodeAfter('\\', d, x);
    ExplodeWithoutDelimiter('\\', x);
  }

  lemma IncDirOne(d: string)
    requires |d| > 0 && d[|d| - 1] != '/'
    ensures IncDir([d]) == "/inc/" + d
  {
  }

  /** The directory and stem of a class one sub-namespace deep. */
  lemma SplitOneDeep(l: Loader, d: string, x: string)
    requires ValidNs(l.ns) && |d| > 0 && '\\' !in d && '/' !in d && '\\' !in x && !Contains(d, l.ns)
    ensures Served(l, l.ns + "\\" + d + "\\" + x)
    ensures Split(Normalise(l, l.ns + "\\" + d + "\\" + x)) == ([Slug(d)], Slug(x))
    ensures |Slug(d)| > 0 && Slug(d)[|Slug(d)| - 1] != '/'
  {
    NormaliseNested(l, d, x);
    var sd, sx := Slug(d), Slug(x);
    assert '\\' !in sd && '\\' !in sx;
    SplitNested(sd, sx);
    assert d[|d| - 1] in d;
  }

  /** A class one sub-namespace deep, as written: its directory lands
      between `/inc` and the loader's directory. */
  lemma NestedAsWritten(l: Loader, base: string, d: string, x: string)
    requires ValidNs(l.ns) && |d| > 0 && '\\' !in d && '/' !in d && '\\' !in x && !Contains(d, l.ns)
    ensures ResolveAsWritten(l, base, l.ns + "\\" + d + "\\" + x) == Some(Paths(
      base + ("/inc/" + Slug(d)) + FileIn(l, ClassFile, Slug(x)),
      base + ("/inc/" + Slug(d)) + FileIn(l, TraitFile, Slug(x))))
  {
    SplitOneDeep(l, d, x);
    IncDirOne(Slug(d));
  }

  /** A class one sub-namespace deep, corrected: its directory lands below
      `classes/` or `traits/`. */
  lemma NestedResolved(l: Loader, base: string, d: string, x: string)
    requires ValidNs(l.ns) && |d| > 0 && '\\' !in d && '/' !in d && '\\' !in x && !Contains(d, l.ns)
    ensures Resolve(l, base, l.ns + "\\" + d + "\\" + x) == Some(Paths(
      base + "/inc/" + l.dir + "/classes/" + (Slug(d) + "/class-" + Slug(x) + ".php"),
      base + "/inc/" + l.dir + "/traits/" + (Slug(d) + "/trait-" + Slug(x) + ".php")))
  {
    SplitOneDeep(l, d, x);
    NestedPathOf(base, l, ClassFile, Slug(d), Slug(x));
    NestedPathOf(base, l, TraitFile, Slug(d), Slug(x));
    KindDirs(base + "/inc/" + l.dir, Slug(d));
  }

  lemma NestedPathOf(base: string, l: Loader, k: Kind, d: string, stem: string)
    ensures PathOf(base, l, [d], k, stem) == base + "/inc/" + l.dir + "/" + k.Dir() + "/" + (d + "/" + k.Prefix() + stem + ".php")
  {
    var f := k.Prefix() + stem + ".php";
    assert [d] + [f] == [d, f];
    assert Implode("/", [d, f]) == d + "/" + f;
    assert d + "/" + f == d + "/" + k.Prefix() + stem + ".php";
  }

  /** `/<dir>/` and `/<prefix>` spelled out for both kinds. */
  lemma KindDirs(top: string, d: string)
    ensures top + "/" + ClassFile.Dir() + "/" == top + "/classes/"
    ensures top + "/" + TraitFile.Dir() + "/" == top + "/traits/"
    ensures d + "/" + ClassFile.Prefix() == d + "/class-"
    ensures d + "/" + TraitFile.Prefix() == d + "/trait-"
  {
  }

  // ------------------------------------------------ the embed block class

  lemma CoreEmbedName()
    ensures "\\WP_Components\\Blocks\\Core_Embed" == "\\" + (ComponentsLoader.ns + "\\" + "Blocks" + "\\" + "Core_Embed")
  {
  }

  lemma CoreEmbedLiterals()
    ensures '\\' !in "Blocks" && '/' !in "Blocks" && '\\' !in "Core_Embed"
    ensures !Contains("Blocks", ComponentsLoader.ns)
  {
    assert "Blocks" == ['B', 'l', 'o', 'c', 'k', 's'];
    assert "Core_Embed" == ['C', 'o', 'r', 'e', '_', 'E', 'm', 'b', 'e', 'd'];
  }

  lemma CoreEmbedSlugs()
    ensures Slug("Blocks") == "blocks"
    ensures Slug("Core_Embed") == "core-embed"
  {
    var b := Slug("Blocks");
    assert b[0] == 'b' && b[1] == 'l' && b[2] == 'o' && b[3] == 'c' && b[4] == 'k' && b[5] == 's';
    var e := Slug("Core_Embed");
    assert e[0] == 'c' && e[1] == 'o' && e[2] == 'r' && e[3] == 'e' && e[4] == '-';
    assert e[5] == 'e' && e[6] == 'm' && e[7] == 'b' && e[8] == 'e' && e[9] == 'd';
  }

  /** As written, `\WP_Components\Blocks\Core_Embed` is looked for
      under `/inc/blocks/wp-components/`, outside `/inc/wp-components/`
      where the plugin keeps every class, so this loader never finds it. */
  lemma CoreEmbedAsWritten(base: string)
    ensures ResolveAsWritten(ComponentsLoader, base, "\\WP_Components\\Blocks\\Core_Embed") == Some(Paths(
      base + ("/inc/" + "blocks") + FileIn(ComponentsLoader, ClassFile, "core-embed"),
      base + ("/inc/" + "blocks") + FileIn(ComponentsLoader, TraitFile, "core-embed")))
    ensures !StartsWith(ResolveAsWritten(ComponentsLoader, base, "\\WP_Components\\Blocks\\Core_Embed").value.classPath,
      base + "/inc/wp-components/")
  {
    CoreEmbedName();
    CoreEmbedLiterals();
    CoreEmbedSlugs();
    var name := ComponentsLoader.ns + "\\" + "Blocks" + "\\" + "Core_Embed";
    LeadingBackslash(ComponentsLoader, base, name);
    NestedAsWritten(ComponentsLoader, base, "Blocks", "Core_Embed");
    OutsideComponentsDir(base, FileIn(ComponentsLoader, ClassFile, "core-embed"));
  }

  /** A path under `/inc/blocks` is not under `/inc/wp-components`. */
  lemma OutsideComponentsDir(base: string, f: string)
    ensures !StartsWith(base + ("/inc/" + "blocks") + f, base + "/inc/wp-components/")
  {
    var t := "/inc/" + "blocks" + f;
    assert base + ("/inc/" + "blocks") + f == base + t;
    FifthChars(f);
    Diverge(base, t, "/inc/wp-components/", 5);
  }

  lemma FifthChars(f: string)
    ensures ("/inc/" + "blocks" + f)[5] == 'b'
    ensures "/inc/wp-components/"[5] == 'w'
  {
  }

  /** Strings that differ at one position past a common prefix do not
      start one with the other. */
  lemma Diverge(base: string, t: string, u: string, i: nat)
    requires i < |t| && i < |u| && t[i] != u[i]
    ensures !StartsWith(base + t, base + u)
  {
    var k := |base| + i;
    assert (base + t)[k] == t[i] && (base + u)[k] == u[i];
    if |base + u| <= |base + t| {
      assert (base + t)[..|base + u|][k] == (base + t)[k];
    }
  }

  /** Corrected, the same class is looked for in
      `/inc/wp-components/classes/blocks/class-core-embed.php`, where the
      plugin keeps it. */
  lemma CoreEmbedResolved(base: string)
    ensures Resolve(ComponentsLoader, base, "\\WP_Components\\Blocks\\Core_Embed") == Some(Paths(
      base + "/inc/" + ComponentsLoader.dir + "/classes/" + ("blocks" + "/class-" + "core-embed" + ".php"),
      base + "/inc/" + ComponentsLoader.dir + "/traits/" + ("blocks" + "/trait-" + "core-embed" + ".php")))
  {
    CoreEmbedName();
    CoreEmbedLiterals();
    CoreEmbedSlugs();
    var name := ComponentsLoader.ns + "\\" + "Blocks" + "\\" + "Core_Embed";
    LeadingBackslash(ComponentsLoader, base, name);
    NestedResolved(ComponentsLoader, base, "Blocks", "Core_Embed");
  }

  // -------------------------------------------------------- theme loader

  /** The theme loader: `ns` is what the
      `wp_components_theme_components_namespace` filter returns and
      `pathFor` stands for the `wp_components_theme_components_path`
      filter, given the stem and the directories. An empty namespace
      (`''` or `'0'`) turns the loader off; a name outside the namespace
      yields nothing; otherwise the filtered path is the file to require. */
  function ThemeResolve(ns: string, pathFor: (string, seq<string>) -> string, name: string): (r: Option<string>)
    ensures r.None? <==> EmptyString(ns) || !Contains(LTrimChar(name, '\\'), ns)
  {
    if EmptyString(ns) then None
    else
      var n := LTrimChar(name, '\\');
      if !Contains(n, ns) then None
      else
        var (dirs, stem) := Split(Slug(ReplaceAll(n, ns, "")));
        Some(pathFor(stem, dirs))
  }

  /** A class directly in a theme namespace that ends in a backslash is
      handed to the path filter with no directories. */
  lemma ThemeTopLevel(ns: string, pathFor: (string, seq<string>) -> string, x: string)
    requires !EmptyString(ns) && ns[0] != '\\' && ns[|ns| - 1] == '\\' && '\\' !in x
    ensures ThemeResolve(ns, pathFor, ns + x) == Some(pathFor(Slug(x), []))
  {
    assert OccursAt(ns + x, ns, 0);
    StripPrefix(ns, x);
    assert '\\' !in Slug(x);
    SplitFlat(Slug(x));
  }

  lemma ContainsLonger(s: string, a: string, b: string)
    requires Contains(s, a + b)
    ensures Contains(s, a)
  {
    var i :| 0 <= i <= |s| - |a + b| && OccursAt(s, a + b, i);
    assert s[i..i + |a|] == s[i..i + |a + b|][..|a|];
    assert OccursAt(s, a, i);
  }

  /** With the namespace `WP_Components\` the theme loader computes the
      same stem and directories as the `WP_Components` loader, and hands
      them to the path filter instead of building the plugin path. */
  lemma ThemeAgreesWithLoader(l: Loader, base: string, pathFor: (string, seq<string>) -> string, name: string)
    requires Contains(LTrimChar(name, '\\'), l.ns + "\\")
    ensures ResolveAsWritten(l, base, name).Some?
    ensures ThemeResolve(l.ns + "\\", pathFor, name) ==
      Some(pathFor(Split(Normalise(l, name)).1, Split(Normalise(l, name)).0))
  {
    ContainsLonger(LTrimChar(name, '\\'), l.ns, "\\");
    assert !EmptyString(l.ns + "\\") by {
      assert (l.ns + "\\")[|l.ns|] == '\\';
    }
  }
}
