/** The first-generation `WP_Component\Component` (inc/classes/class-component.php):
    a name, a config array, a list of children and a key whitelist, with no
    groups, themes, hooks or validity flag. Its `camel_case_keys` splits
    keys on `_` only and merges a nested array into whatever the result
    already holds under the same camel-cased key. */
module Legacy {
  import opened Wrappers
  import opened Assocs
  import opened Php
  import opened CamelCase
  import opened Falsy
  import Component

  datatype LegacyNode = LegacyNode(
    name: string,
    config: Assoc<Value>,
    children: seq<Option<LegacyNode>>,
    whitelist: seq<string>)

  /** What a subclass declares. */
  datatype LegacyDecl = LegacyDecl(
    name: string,
    defaults: Assoc<Value>,                    // `default_config()`
    defaultChildren: seq<Option<LegacyNode>>,  // `default_children()`
    whitelist: seq<string>)

  // ------------------------------------------------------------------ config

  /** `get_config($key)`: `null` when the key is absent. */
  function GetConfig(n: LegacyNode, k: string): (r: Value)
    ensures k !in Keys(n.config) ==> r == VNull
    ensures UniqueKeys(n.config) ==> forall i :: 0 <= i < |n.config| && n.config[i].key == k ==> r == n.config[i].val
  {
    Get(n.config, k).GetOr(VNull)
  }

  /** `new Class()`: the defaults are assigned wholesale, with no hook. */
  function Construct(d: LegacyDecl): (r: LegacyNode)
    ensures forall k :: GetConfig(r, k) == Get(d.defaults, k).GetOr(VNull)
    ensures r.children == d.defaultChildren && r.name == d.name && r.whitelist == d.whitelist
  {
    LegacyNode(d.name, d.defaults, d.defaultChildren, d.whitelist)
  }

  /** Both generations of the constructor leave every default readable
      the same way. */
  lemma ConstructAgrees(d: LegacyDecl, cd: Component.ClassDecl, k: string)
    requires cd.defaults == d.defaults && UniqueKeys(d.defaults)
    ensures GetConfig(Construct(d), k) == Component.GetConfig(Component.Construct(cd), k)
  {
    Component.ConstructConfig(cd, k);
  }

  /** `set_config($key, $value)` with a single key. */
  function SetConfig(n: LegacyNode, k: string, v: Value): (r: LegacyNode)
    ensures r.(config := n.config) == n
    ensures k in Keys(n.config) ==> Keys(r.config) == Keys(n.config)
    ensures k !in Keys(n.config) ==> Keys(r.config) == Keys(n.config) + [k]
  {
    n.(config := Put(n.config, k, v))
  }

  /** The last write to a key wins and other keys read as before. */
  lemma GetSetConfig(n: LegacyNode, k: string, v: Value, k': string)
    ensures GetConfig(SetConfig(n, k, v), k') == if k' == k then v else GetConfig(n, k')
  {
    GetPut(n.config, k, v, k');
  }

  /** `set_config($array)`: an array with a null value replaces the config. */
  function ReplaceConfig(n: LegacyNode, c: Assoc<Value>): (r: LegacyNode)
    ensures forall k :: GetConfig(r, k) == Get(c, k).GetOr(VNull)
    ensures r.(config := n.config) == n
  {
    n.(config := c)
  }

  /** `set_name($name)`. */
  function SetName(n: LegacyNode, s: string): (r: LegacyNode)
    ensures r.name == s && r.(name := n.name) == n
  {
    n.(name := s)
  }

  // ---------------------------------------------------------------- children

  /** `set_children($children, $append)`: falsy entries are dropped. */
  function SetChildren(n: LegacyNode, cs: seq<Option<LegacyNode>>, append: bool): (r: LegacyNode)
    ensures r.(children := n.children) == n
    ensures Present(r.children) == (if append then Present(n.children) else []) + Present(cs)
    ensures forall i :: (if append then |n.children| else 0) <= i < |r.children| ==> r.children[i].Some?
    ensures append ==> |r.children| >= |n.children| && r.children[..|n.children|] == n.children
  {
    var kept := AsSlots(Present(cs));
    PresentAsSlots(Present(cs));
    PresentAppend(n.children, kept);
    assert [] + Present(cs) == Present(cs);
    if append then n.(children := n.children + kept) else n.(children := kept)
  }

  /** `append_child($child)`: pushed as given, falsy or not. */
  function AppendChild(n: LegacyNode, c: Option<LegacyNode>): (r: LegacyNode)
    ensures r.(children := n.children) == n
    ensures |r.children| == |n.children| + 1 && r.children[..|n.children|] == n.children
    ensures Present(r.children) == Present(n.children) + Present([c])
  {
    PresentAppend(n.children, [c]);
    n.(children := n.children + [c])
  }

  /** `prepend_child($child)` as written: it unshifts the undefined
      variable `$chilld`, which reads as `null`, so the argument is ignored. */
  function PrependChildAsWritten(n: LegacyNode, c: Option<LegacyNode>): (r: LegacyNode)
    ensures r.(children := n.children) == n
    ensures |r.children| == |n.children| + 1 && r.children[1..] == n.children
  {
    n.(children := [None] + n.children)
  }

  /** The prepended child never reaches `to_array()`: the filtered children
      are the same as before the call, whatever the argument. */
  lemma PrependChildLosesChild(n: LegacyNode, c: LegacyNode)
    ensures Present(PrependChildAsWritten(n, Some(c)).children) == Present(n.children)
    ensures Present(PrependChild(n, Some(c)).children) == [c] + Present(n.children)
  {
    PresentAppend([None], n.children);
    PresentAppend([Some(c)], n.children);
  }

  /** `prepend_child($child)` as intended: the argument becomes the first
      child. */
  function PrependChild(n: LegacyNode, c: Option<LegacyNode>): (r: LegacyNode)
    ensures r.(children := n.children) == n
    ensures |r.children| == |n.children| + 1 && r.children[0] == c && r.children[1..] == n.children
    ensures Present(r.children) == Present([c]) + Present(n.children)
  {
    PresentAppend([c], n.children);
    n.(children := [c] + n.children)
  }

  // --------------------------------------------------------- camel-casing

  /** The key transformation of the first generation: explode on `_`,
      `ucwords` each piece, implode, lower the first character. A key with
      no character besides `_` ends empty and the final
      `$new_key[0] = ...` is a PHP error. */
  function LegacyCamelString(s: string): (r: string)
    requires HasWordChar(s)
    ensures |r| > 0 && !IsUpper(r[0])
    ensures forall j :: 0 <= j < |r| ==> r[j] != '_' && (r[j] == '-' ==> '-' in s)
  {
    JoinedWordsEmptyIff(s);
    JoinedWordsChars(s);
    var j := JoinedWords(s);
    [LowerChar(j[0])] + j[1..]
  }

  /** On keys without `-` both generations camel-case alike and fail
      alike. */
  lemma CamelStringAgrees(s: string)
    requires '-' !in s
    ensures Camelable(s) <==> HasWordChar(s)
    ensures HasWordChar(s) ==> CamelCaseString(s) == LegacyCamelString(s)
  {
    assert ReplaceChar(s, '-', '_') == s;
    if HasWordChar(s) {
      var i :| 0 <= i < |s| && s[i] != '_';
      assert !IsSeparator(s[i]);
    }
  }

  /** A dash is a word separator only for the second generation. */
  lemma CamelStringDash()
    ensures HasWordChar("a-b") && LegacyCamelString("a-b") == "a-b"
    ensures Camelable("a-b") && CamelCaseString("a-b") == "aB"
  {
    assert "a-b"[0] != '_' && !IsSeparator("a-b"[0]);
    ExplodeWithoutDelimiter('_', "a-b");
    assert UcWords("a-b") == "A-b";
    assert Implode("", ["A-b"]) == "A-b";
    assert ReplaceChar("a-b", '-', '_') == "a_b";
    SnakeExample();
  }

  /** `a_b` camel-cases to `aB` in both generations. */
  lemma SnakeExample()
    ensures JoinedWords("a_b") == "AB"
    ensures HasWordChar("a_b") && LegacyCamelString("a_b") == "aB"
    ensures Camelable("a_b") && CamelCaseString("a_b") == "aB"
  {
    ExplodeWithoutDelimiter('_', "b");
    assert "a_b"[1..] == "_b" && "_b"[1..] == "b";
    var rest := Explode('_', "_b");
    assert rest == ["", "b"];
    assert "a_b"[0] == 'a' && ['a'] + rest[0] == "a" && rest[1..] == ["b"];
    assert Explode('_', "a_b") == ["a", "b"];
    assert UcWords("a") == "A" && UcWords("b") == "B";
    assert UcAll(["a", "b"]) == ["A", "B"];
    assert Implode("", ["A", "B"]) == "AB";
    assert "a_b"[0] != '_';
    CamelStringAgrees("a_b");
  }

  /** Every key the new transform leaves as it is, the first generation
      leaves as it is too: such a key has no `-`, where the two agree. */
  lemma CamelFixedPoint(s: string)
    requires IsCamel(s)
    ensures HasWordChar(s) && LegacyCamelString(s) == s
  {
    assert '-' !in CamelCaseString(s);
    CamelStringAgrees(s);
  }

  /** The keys `aB`, `x` and `y` are their own camel case in both
      generations. */
  lemma PlainExample(s: string)
    requires s == "aB" || s == "x" || s == "y"
    ensures HasWordChar(s) && LegacyCamelString(s) == s
    ensures Camelable(s) && CamelCaseString(s) == s
  {
    assert s[0] != '_';
    ExplodeWithoutDelimiter('_', s);
    assert Implode("", [UcWords(s)]) == UcWords(s);
    assert UcAll([s]) == [UcWords(s)];
    CamelStringAgrees(s);
  }

  /** No value is nested: the configs on which the two generations agree. */
  predicate Flat(es: Assoc<Value>) {
    forall i :: 0 <= i < |es| ==> !es[i].val.VMap?
  }

  /** `camel_case_keys($array, $array_holder)`: the loop starts from the
      holder when it is not `empty()`, otherwise from `[]`. */
  function CamelCaseKeys(m: Assoc<Value>, holder: Value, whitelist: seq<string>): (r: Result<Value, Fault>)
    ensures Empty(holder) && r.Success? ==> r.value.VMap? && UniqueKeys(r.value.entries)
    ensures r.Success? ==> forall i :: 0 <= i < |m| && Kept(whitelist, m[i].key) ==> HasWordChar(m[i].key)
    decreases m, 1
  {
    CamelInto(if Empty(holder) then VMap([]) else holder, m, whitelist)
  }

  /** The foreach loop of `camel_case_keys` from the partial result `acc`.
      Writing a key into a holder that is not an array is a fault; a nested
      array is converted with the value already stored under its new key as
      holder, so nested arrays that land on the same key are merged. */
  function CamelInto(acc: Value, es: Assoc<Value>, whitelist: seq<string>): (r: Result<Value, Fault>)
    ensures r.Success? && acc.VMap? ==> r.value.VMap?
    ensures r.Success? && acc.VMap? && UniqueKeys(acc.entries) ==> UniqueKeys(r.value.entries)
    ensures r.Success? ==> forall i :: 0 <= i < |es| && Kept(whitelist, es[i].key) ==> HasWordChar(es[i].key)
    ensures (forall i :: 0 <= i < |es| ==> !Kept(whitelist, es[i].key)) ==> r == Success(acc)
    ensures !acc.VMap? && (exists i :: 0 <= i < |es| && Kept(whitelist, es[i].key)) ==> r.Failure?
    decreases es, 0
  {
    if |es| == 0 then Success(acc)
    else
      var e := es[0];
      assert forall i :: 1 <= i < |es| ==> es[i] == es[1..][i - 1];
      if !Kept(whitelist, e.key) then
        CamelInto(acc, es[1..], whitelist)
      else if !HasWordChar(e.key) then
        Failure(EmptyCamelCaseKey(e.key))
      else if !acc.VMap? then
        Failure(ScalarOffset(e.key))
      else
        var nk := LegacyCamelString(e.key);
        if !e.val.VMap? then
          PutUniqueIfUnique(acc.entries, nk, e.val);
          CamelInto(VMap(Put(acc.entries, nk, e.val)), es[1..], whitelist)
        else
          var holder := Get(acc.entries, nk).GetOr(VNull);
          match CamelCaseKeys(e.val.entries, holder, whitelist)
          case Failure(f) => Failure(f)
          case Success(v) =>
            PutUniqueIfUnique(acc.entries, nk, v);
            CamelInto(VMap(Put(acc.entries, nk, v)), es[1..], whitelist)
  }

  /** Some entry of `es` that survives the whitelist is camel-cased to `k`. */
  ghost predicate NamesKey(es: Assoc<Value>, whitelist: seq<string>, k: string) {
    exists i :: 0 <= i < |es| && Kept(whitelist, es[i].key) && HasWordChar(es[i].key) && LegacyCamelString(es[i].key) == k
  }

  /** The keys of a successful result are the holder's keys and the
      camel-cased kept keys. */
  lemma {:induction false} CamelIntoKeys(acc: Assoc<Value>, es: Assoc<Value>, whitelist: seq<string>, k: string)
    requires CamelInto(VMap(acc), es, whitelist).Success?
    ensures k in Keys(CamelInto(VMap(acc), es, whitelist).value.entries) <==> k in Keys(acc) || NamesKey(es, whitelist, k)
    decreases es
  {
    if |es| > 0 {
      var e := es[0];
      var tail := es[1..];
      assert NamesKey(es, whitelist, k) <==>
        (Kept(whitelist, e.key) && HasWordChar(e.key) && LegacyCamelString(e.key) == k) || NamesKey(tail, whitelist, k) by {
        if NamesKey(es, whitelist, k) {
          var i :| 0 <= i < |es| && Kept(whitelist, es[i].key) && HasWordChar(es[i].key) && LegacyCamelString(es[i].key) == k;
          if i > 0 {
            assert tail[i - 1] == es[i];
          }
        }
        if NamesKey(tail, whitelist, k) {
          var i :| 0 <= i < |tail| && Kept(whitelist, tail[i].key) && HasWordChar(tail[i].key) && LegacyCamelString(tail[i].key) == k;
          assert es[i + 1] == tail[i];
        }
      }
      if !Kept(whitelist, e.key) {
        CamelIntoKeys(acc, tail, whitelist, k);
      } else {
        var nk := LegacyCamelString(e.key);
        var v := if !e.val.VMap? then e.val
          else CamelCaseKeys(e.val.entries, Get(acc, nk).GetOr(VNull), whitelist).value;
        assert CamelInto(VMap(acc), es, whitelist) == CamelInto(VMap(Put(acc, nk, v)), tail, whitelist);
        CamelIntoKeys(Put(acc, nk, v), tail, whitelist, k);
        PutKeys(acc, nk, v);
      }
    }
  }

  /** A config with no nested array converts alike in both generations
      when no key has a `-` (the second generation has no preserved keys
      here, as the first has none at all). */
  lemma {:induction false} FlatAgrees(acc: Assoc<Value>, es: Assoc<Value>, whitelist: seq<string>)
    requires Flat(es)
    requires forall i :: 0 <= i < |es| ==> '-' !in es[i].key
    ensures CamelInto(VMap(acc), es, whitelist) == AsValue(CamelCase.CamelInto(acc, es, whitelist, []))
    decreases es
  {
    if |es| > 0 {
      var e := es[0];
      CamelStringAgrees(e.key);
      assert Flat(es[1..]) by {
        forall i | 0 <= i < |es[1..]| ensures !es[1..][i].val.VMap? {
          assert es[1..][i] == es[i + 1];
        }
      }
      assert forall i :: 0 <= i < |es[1..]| ==> '-' !in es[1..][i].key by {
        forall i | 0 <= i < |es[1..]| ensures '-' !in es[1..][i].key {
          assert es[1..][i] == es[i + 1];
        }
      }
      assert !e.val.VMap? && !Recurses([], e.key, e.val);
      if !Kept(whitelist, e.key) {
        FlatAgrees(acc, es[1..], whitelist);
      } else if HasWordChar(e.key) {
        FlatAgrees(Put(acc, LegacyCamelString(e.key), e.val), es[1..], whitelist);
      }
    }
  }

  /** The second generation's result, as a PHP value. */
  function AsValue(r: Result<Assoc<Value>, Fault>): (v: Result<Value, Fault>)
    ensures v.Success? <==> r.Success?
    ensures r.Success? ==> v.value == VMap(r.value)
    ensures r.Failure? ==> v.error == r.error
  {
    match r
    case Success(m) => Success(VMap(m))
    case Failure(f) => Failure(f)
  }

  /** For a flat config without `-` in its keys, `to_array()` of both
      generations produces the same config. */
  lemma FlatConfigAgrees(m: Assoc<Value>, whitelist: seq<string>)
    requires Flat(m)
    requires forall i :: 0 <= i < |m| ==> '-' !in m[i].key
    ensures CamelCaseKeys(m, VNull, whitelist) == AsValue(CamelCase.CamelCaseKeys(m, whitelist, []))
  {
    FlatAgrees([], m, whitelist);
  }

  /** Two nested arrays whose keys camel-case to the same name (as `a_b`
      and `aB` do, by `SnakeExample` and `PlainExample`) are merged by the
      first generation: the second is converted into the converted first. */
  lemma NestedMerge(k1: string, k2: string, a: Assoc<Value>, b: Assoc<Value>, a': Assoc<Value>)
    requires HasWordChar(k1) && HasWordChar(k2) && LegacyCamelString(k1) == LegacyCamelString(k2)
    requires CamelCaseKeys(a, VNull, []) == Success(VMap(a')) && |a'| > 0
    ensures var r := CamelCaseKeys([Entry(k1, VMap(a)), Entry(k2, VMap(b))], VNull, []);
      var inner := CamelInto(VMap(a'), b, []);
      (r.Success? <==> inner.Success?) && (r.Success? ==> r.value == VMap([Entry(LegacyCamelString(k1), inner.value)]))
  {
    var k := LegacyCamelString(k1);
    NestedFirst(k1, k2, a, b, a');
    NestedSecond(k, k2, a', b);
  }

  /** The first generation of `NestedMerge`: the first array is converted
      and stored, the second entry is still to come. */
  lemma NestedFirst(k1: string, k2: string, a: Assoc<Value>, b: Assoc<Value>, a': Assoc<Value>)
    requires HasWordChar(k1) && CamelCaseKeys(a, VNull, []) == Success(VMap(a'))
    ensures CamelCaseKeys([Entry(k1, VMap(a)), Entry(k2, VMap(b))], VNull, [])
      == CamelInto(VMap([Entry(LegacyCamelString(k1), VMap(a'))]), [Entry(k2, VMap(b))], [])
  {
    var m := [Entry(k1, VMap(a)), Entry(k2, VMap(b))];
    NestedStep([], m);
    assert Put([], LegacyCamelString(k1), VMap(a')) == [Entry(LegacyCamelString(k1), VMap(a'))];
    assert m[1..] == [m[1]];
  }

  /** The second generation of `NestedMerge`: the second array is
      converted into the non-empty first one stored under the same key. */
  lemma NestedSecond(k: string, k2: string, a': Assoc<Value>, b: Assoc<Value>)
    requires HasWordChar(k2) && LegacyCamelString(k2) == k && |a'| > 0
    ensures var r := CamelInto(VMap([Entry(k, VMap(a'))]), [Entry(k2, VMap(b))], []);
      var inner := CamelInto(VMap(a'), b, []);
      (r.Success? <==> inner.Success?) && (r.Success? ==> r.value == VMap([Entry(k, inner.value)]))
  {
    var p1 := [Entry(k, VMap(a'))];
    var es := [Entry(k2, VMap(b))];
    var inner := CamelInto(VMap(a'), b, []);
    assert Get(p1, k) == Some(VMap(a'));
    assert CamelCaseKeys(b, Get(p1, k).GetOr(VNull), []) == inner;
    if inner.Success? {
      NestedStep(p1, es);
      assert Put(p1, k, inner.value) == [Entry(k, inner.value)];
      assert es[1..] == [];
    }
  }

  /** The loop over a nested entry: convert it with the value already
      stored under the new key as holder, store the result, continue. */
  lemma NestedStep(acc: Assoc<Value>, es: Assoc<Value>)
    requires |es| > 0 && HasWordChar(es[0].key) && es[0].val.VMap?
    requires CamelCaseKeys(es[0].val.entries, Get(acc, LegacyCamelString(es[0].key)).GetOr(VNull), []).Success?
    ensures var nk := LegacyCamelString(es[0].key);
      CamelInto(VMap(acc), es, []) == CamelInto(VMap(Put(acc, nk, CamelCaseKeys(es[0].val.entries, Get(acc, nk).GetOr(VNull), []).value)), es[1..], [])
  {
  }

  /** The second generation keeps only the last of them. */
  lemma NestedOverwrite(k1: string, k2: string, a: Assoc<Value>, b: Assoc<Value>)
    requires Camelable(k1) && Camelable(k2) && CamelCaseString(k1) == CamelCaseString(k2)
    requires CamelCase.CamelCaseKeys(a, [], []).Success?
    ensures var r := CamelCase.CamelCaseKeys([Entry(k1, VMap(a)), Entry(k2, VMap(b))], [], []);
      var inner := CamelCase.CamelCaseKeys(b, [], []);
      (r.Success? <==> inner.Success?) && (r.Success? ==> r.value == [Entry(CamelCaseString(k1), VMap(inner.value))])
  {
    var k := CamelCaseString(k1);
    var m := [Entry(k1, VMap(a)), Entry(k2, VMap(b))];
    var a' := CamelCase.CamelCaseKeys(a, [], []).value;
    var p1 := [Entry(k, VMap(a'))];
    assert m[1..] == [m[1]];
    assert CamelCase.CamelCaseKeys(m, [], []) == CamelCase.CamelInto(p1, [m[1]], [], []) by {
      assert Put([], k, VMap(a')) == p1;
    }
    var inner := CamelCase.CamelCaseKeys(b, [], []);
    if inner.Success? {
      assert Put(p1, k, VMap(inner.value)) == [Entry(k, VMap(inner.value))];
      assert [m[1]][1..] == [];
      assert CamelCase.CamelInto(p1, [m[1]], [], []) == CamelCase.CamelInto([Entry(k, VMap(inner.value))], [], [], []);
    } else {
      assert CamelCase.CamelInto(p1, [m[1]], [], []).Failure?;
    }
  }

  /** The loop over `a + b` is the loop over `b` started from the result
      over `a`; a fault in `a` is the fault of the whole. */
  lemma {:induction false} CamelIntoAppend(acc: Value, a: Assoc<Value>, b: Assoc<Value>, whitelist: seq<string>)
    ensures CamelInto(acc, a + b, whitelist) ==
      if CamelInto(acc, a, whitelist).Success? then CamelInto(CamelInto(acc, a, whitelist).value, b, whitelist)
      else CamelInto(acc, a, whitelist)
    decreases a
  {
    if |a| == 0 {
      assert a + b == b;
    } else {
      var e := a[0];
      assert (a + b)[0] == e;
      assert (a + b)[1..] == a[1..] + b;
      if !Kept(whitelist, e.key) {
        CamelIntoAppend(acc, a[1..], b, whitelist);
      } else if HasWordChar(e.key) && acc.VMap? {
        var nk := LegacyCamelString(e.key);
        if !e.val.VMap? {
          CamelIntoAppend(VMap(Put(acc.entries, nk, e.val)), a[1..], b, whitelist);
        } else {
          var inner := CamelCaseKeys(e.val.entries, Get(acc.entries, nk).GetOr(VNull), whitelist);
          if inner.Success? {
            CamelIntoAppend(VMap(Put(acc.entries, nk, inner.value)), a[1..], b, whitelist);
          }
        }
      }
    }
  }

  /** A key that no kept entry is camel-cased to reads as it did in the
      holder. */
  lemma {:induction false} CamelIntoUntouched(acc: Assoc<Value>, es: Assoc<Value>, whitelist: seq<string>, k: string)
    requires CamelInto(VMap(acc), es, whitelist).Success?
    requires !NamesKey(es, whitelist, k)
    ensures Get(CamelInto(VMap(acc), es, whitelist).value.entries, k) == Get(acc, k)
    decreases es
  {
    if |es| > 0 {
      var e := es[0];
      assert forall i :: 0 <= i < |es[1..]| ==> es[1..][i] == es[i + 1];
      if Kept(whitelist, e.key) {
        var nk := LegacyCamelString(e.key);
        if !e.val.VMap? {
          CamelIntoUntouched(Put(acc, nk, e.val), es[1..], whitelist, k);
          GetPut(acc, nk, e.val, k);
        } else {
          var v := CamelCaseKeys(e.val.entries, Get(acc, nk).GetOr(VNull), whitelist).value;
          CamelIntoUntouched(Put(acc, nk, v), es[1..], whitelist, k);
          GetPut(acc, nk, v, k);
        }
      } else {
        CamelIntoUntouched(acc, es[1..], whitelist, k);
      }
    }
  }

  /** The value under a camel-cased key is decided by the last kept entry
      that names it: a scalar is stored as is, and a nested array is
      converted, with the same whitelist, into whatever the earlier entries
      left under that key. */
  lemma CamelIntoValue(acc: Assoc<Value>, es: Assoc<Value>, whitelist: seq<string>, i: int)
    requires CamelInto(VMap(acc), es, whitelist).Success?
    requires 0 <= i < |es| && Kept(whitelist, es[i].key) && HasWordChar(es[i].key)
    requires !NamesKey(es[i + 1..], whitelist, LegacyCamelString(es[i].key))
    ensures CamelInto(VMap(acc), es[..i], whitelist).Success?
    ensures var k := LegacyCamelString(es[i].key);
      var before := CamelInto(VMap(acc), es[..i], whitelist).value.entries;
      es[i].val.VMap? ==> CamelCaseKeys(es[i].val.entries, Get(before, k).GetOr(VNull), whitelist).Success?
    ensures var k := LegacyCamelString(es[i].key);
      var before := CamelInto(VMap(acc), es[..i], whitelist).value.entries;
      Get(CamelInto(VMap(acc), es, whitelist).value.entries, k) ==
        Some(if es[i].val.VMap? then CamelCaseKeys(es[i].val.entries, Get(before, k).GetOr(VNull), whitelist).value
             else es[i].val)
  {
    var a := es[..i];
    var b := es[i..];
    assert es == a + b;
    CamelIntoAppend(VMap(acc), a, b, whitelist);
    var p := CamelInto(VMap(acc), a, whitelist).value;
    var e := es[i];
    var k := LegacyCamelString(e.key);
    assert b[0] == e && b[1..] == es[i + 1..];
    if e.val.VMap? {
      var inner := CamelCaseKeys(e.val.entries, Get(p.entries, k).GetOr(VNull), whitelist);
      assert inner.Success?;
      CamelIntoUntouched(Put(p.entries, k, inner.value), es[i + 1..], whitelist, k);
      GetPut(p.entries, k, inner.value, k);
    } else {
      CamelIntoUntouched(Put(p.entries, k, e.val), es[i + 1..], whitelist, k);
      GetPut(p.entries, k, e.val, k);
    }
  }

  // ---------------------------------------------------------------- to_array

  /** The array `to_array()` returns. */
  datatype LegacySerialized = LegacySerialized(name: string, config: Value, children: seq<LegacyNode>)

  /** `to_array()`: the name, the camel-cased config and the non-falsy
      children. */
  function ToArray(n: LegacyNode): (r: Result<LegacySerialized, Fault>)
    ensures r.Success? <==> CamelCaseKeys(n.config, VNull, n.whitelist).Success?
    ensures r.Success? ==> r.value.name == n.name && r.value.config.VMap? && UniqueKeys(r.value.config.entries)
    ensures r.Success? ==> r.value.config == CamelCaseKeys(n.config, VNull, n.whitelist).value
    ensures r.Success? ==> r.value.children == Present(n.children)
    ensures r.Success? ==> forall x :: x in r.value.children <==> Some(x) in n.children
    ensures r.Success? ==> forall i :: 0 <= i < |n.config| && Kept(n.whitelist, n.config[i].key) ==> HasWordChar(n.config[i].key)
    ensures Flat(n.config) ==> (r.Success? <==> forall i :: 0 <= i < |n.config| && Kept(n.whitelist, n.config[i].key) ==> HasWordChar(n.config[i].key))
  {
    FlatSucceeds([], n.config, n.whitelist);
    var config :- CamelCaseKeys(n.config, VNull, n.whitelist);
    Success(LegacySerialized(n.name, config, Present(n.children)))
  }

  /** Without nested arrays the conversion fails only on a kept key with no
      character besides `_`. */
  lemma {:induction false} FlatSucceeds(acc: Assoc<Value>, es: Assoc<Value>, whitelist: seq<string>)
    ensures Flat(es) ==> (CamelInto(VMap(acc), es, whitelist).Success? <==> forall i :: 0 <= i < |es| && Kept(whitelist, es[i].key) ==> HasWordChar(es[i].key))
    decreases es
  {
    if |es| > 0 && Flat(es) {
      var e := es[0];
      assert Flat(es[1..]) by {
        forall i | 0 <= i < |es[1..]| ensures !es[1..][i].val.VMap? {
          assert es[1..][i] == es[i + 1];
        }
      }
      assert forall i :: 1 <= i < |es| ==> es[i] == es[1..][i - 1];
      if !Kept(whitelist, e.key) {
        FlatSucceeds(acc, es[1..], whitelist);
      } else if HasWordChar(e.key) {
        FlatSucceeds(Put(acc, LegacyCamelString(e.key), e.val), es[1..], whitelist);
      }
    }
  }
}
