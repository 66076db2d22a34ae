/** The key transformation of `WP_Components\Component`: `camel_case_string`
    turns a snake- or kebab-case name into camelCase, and `camel_case_keys`
    applies it to the keys of a config array, honouring the component's
    `whitelist` and `preserve_inner_keys`. */
module CamelCase {
  import opened Wrappers
  import opened Assocs
  import opened Php

  predicate IsSeparator(c: char) {
    c == '_' || c == '-'
  }

  /** `camel_case_string` only succeeds on names with a character that is
      neither `_` nor `-`; on the others it ends in an empty string, and the
      final `$string[0] = ...` is a PHP error. */
  predicate Camelable(s: string) {
    exists i :: 0 <= i < |s| && !IsSeparator(s[i])
  }

  predicate NoSeparators(s: string) {
    forall i :: 0 <= i < |s| ==> !IsSeparator(s[i])
  }

  /** `explode('_', str_replace('-', '_', $s))`. */
  function Words(s: string): seq<string> {
    Explode('_', ReplaceChar(s, '-', '_'))
  }

  /** `ucwords` applied to every word. */
  function UcAll(ws: seq<string>): (r: seq<string>)
    ensures |r| == |ws|
    ensures forall i :: 0 <= i < |ws| ==> r[i] == UcWords(ws[i])
  {
    seq(|ws|, i requires 0 <= i < |ws| => UcWords(ws[i]))
  }

  /** `implode('', $words)` after `ucwords` on every piece of
      `explode('_', $t)`: the reassembled string before its first character
      is lowered. */
  function JoinedWords(t: string): string {
    Implode("", UcAll(Explode('_', t)))
  }

  /** The reassembled string of `camel_case_string($s)`. */
  function Joined(s: string): string {
    JoinedWords(ReplaceChar(s, '-', '_'))
  }

  /** `camel_case_string($s)`. */
  function CamelCaseString(s: string): (r: string)
    requires Camelable(s)
    ensures |r| > 0
    ensures NoSeparators(r)
    ensures !IsUpper(r[0])
  {
    JoinedEmptyIff(s);
    JoinedClean(s);
    var j := Joined(s);
    [LowerChar(j[0])] + j[1..]
  }

  /** A string with a character other than `_`. */
  predicate HasWordChar(t: string) {
    exists i :: 0 <= i < |t| && t[i] != '_'
  }

  /** The reassembled string is empty exactly when the input has no
      character besides `_`. */
  lemma JoinedWordsEmptyIff(t: string)
    ensures |JoinedWords(t)| > 0 <==> HasWordChar(t)
  {
    var ws := Explode('_', t);
    ExplodeChars('_', t);
    ExplodeRoundTrip('_', t);
    if HasWordChar(t) {
      var i :| 0 <= i < |t| && t[i] != '_';
      if forall k :: 0 <= k < |ws| ==> |ws[k]| == 0 {
        ImplodeKeeps("_", ws, c => c == '_');
        assert false;
      }
      var k :| 0 <= k < |ws| && |ws[k]| > 0;
      ImplodeNonEmpty(UcAll(ws), k);
    } else {
      ExplodeOnlyDelimiters('_', t);
      ImplodeOfEmpties(UcAll(ws));
    }
  }

  /** The reassembled string of `camel_case_string` is empty exactly when
      the name has no character besides `_` and `-`. */
  lemma JoinedEmptyIff(s: string)
    ensures |Joined(s)| > 0 <==> Camelable(s)
  {
    var t := ReplaceChar(s, '-', '_');
    JoinedWordsEmptyIff(t);
    if Camelable(s) {
      var i :| 0 <= i < |s| && !IsSeparator(s[i]);
      assert t[i] != '_';
    }
  }

  /** The reassembled string has no `_`, and a `-` only when the input has one. */
  lemma JoinedWordsChars(t: string)
    ensures forall j :: 0 <= j < |JoinedWords(t)| ==> JoinedWords(t)[j] != '_' && (JoinedWords(t)[j] == '-' ==> '-' in t)
  {
    var ws := Explode('_', t);
    var p := c => c != '_' && (c == '-' ==> '-' in t);
    ExplodeChars('_', t);
    var us := UcAll(ws);
    forall k, j | 0 <= k < |us| && 0 <= j < |us[k]| ensures p(us[k][j]) {
      assert us[k][j] == UcWordsAt(ws[k], j);
      assert ws[k][j] in t;
    }
    ImplodeKeeps("", us, p);
  }

  /** The reassembled string contains no `_` and no `-`. */
  lemma JoinedClean(s: string)
    ensures NoSeparators(Joined(s))
  {
    var t := ReplaceChar(s, '-', '_');
    JoinedWordsChars(t);
    assert '-' !in t;
  }

  // ------------------------------------------------------------ idempotence

  predicate UpperFixed(c: char) {
    UpperChar(c) == c
  }

  /** Every character that follows a word delimiter is already upper-case. */
  predicate CapsAfterDelimiters(s: string) {
    forall i :: 0 < i < |s| && IsWordDelimiter(s[i - 1]) ==> UpperFixed(s[i])
  }

  predicate StartsUpperFixed(s: string) {
    |s| > 0 ==> UpperFixed(s[0])
  }

  lemma UcWordsShape(w: string)
    ensures CapsAfterDelimiters(UcWords(w)) && StartsUpperFixed(UcWords(w))
  {
    var u := UcWords(w);
    forall i | 0 < i < |u| && IsWordDelimiter(u[i - 1]) ensures UpperFixed(u[i]) {
      assert IsWordDelimiter(w[i - 1]);
    }
  }

  lemma {:induction false} ImplodeShape(ws: seq<string>)
    requires forall k :: 0 <= k < |ws| ==> CapsAfterDelimiters(ws[k]) && StartsUpperFixed(ws[k])
    ensures CapsAfterDelimiters(Implode("", ws)) && StartsUpperFixed(Implode("", ws))
  {
    if |ws| > 1 {
      ImplodeShape(ws[1..]);
      var a := ws[0];
      var b := Implode("", ws[1..]);
      assert Implode("", ws) == a + b;
      var all := a + b;
      forall i | 0 < i < |all| && IsWordDelimiter(all[i - 1]) ensures UpperFixed(all[i]) {
        if i < |a| {
          assert all[i - 1] == a[i - 1] && all[i] == a[i];
        } else if i == |a| {
          assert all[i] == b[0];
        } else {
          assert all[i - 1] == b[i - 1 - |a|] && all[i] == b[i - |a|];
        }
      }
      if |a| == 0 {
        assert all == b;
      }
    }
  }

  lemma JoinedWordsShape(t: string)
    ensures CapsAfterDelimiters(JoinedWords(t)) && StartsUpperFixed(JoinedWords(t))
  {
    var ws := Explode('_', t);
    var us := UcAll(ws);
    forall k | 0 <= k < |us| ensures CapsAfterDelimiters(us[k]) && StartsUpperFixed(us[k]) {
      UcWordsShape(ws[k]);
    }
    ImplodeShape(us);
  }

  /** `camel_case_string` is idempotent: a camel-cased name passes through
      unchanged, so a value camel-cased twice (as `set_theme` stores it and
      `to_array` camel-cases the keys again) reads the same. */
  lemma CamelCaseStringIdempotent(s: string)
    requires Camelable(s)
    ensures Camelable(CamelCaseString(s))
    ensures CamelCaseString(CamelCaseString(s)) == CamelCaseString(s)
  {
    var out := CamelCaseString(s);
    assert !IsSeparator(out[0]);
    JoinedEmptyIff(s);
    JoinedWordsShape(ReplaceChar(s, '-', '_'));
    var j := Joined(s);
    assert out == [LowerChar(j[0])] + j[1..];
    assert CapsAfterDelimiters(out) by {
      forall i | 0 < i < |out| && IsWordDelimiter(out[i - 1]) ensures UpperFixed(out[i]) {
        assert out[i] == j[i];
        if i == 1 {
          assert IsWordDelimiter(j[0]);
        } else {
          assert out[i - 1] == j[i - 1];
        }
      }
    }
    assert ReplaceChar(out, '-', '_') == out;
    assert '_' !in out;
    ExplodeWithoutDelimiter('_', out);
    assert Words(out) == [out];
    assert UcAll([out]) == [UcWords(out)];
    assert Joined(out) == UcWords(out);
    var u := UcWords(out);
    assert u == [UpperChar(out[0])] + out[1..];
    assert LowerChar(UpperChar(LowerChar(j[0]))) == LowerChar(j[0]);
  }

  // --------------------------------------------------------- camel_case_keys

  /** A key survives a non-empty whitelist only if it is listed in it
      (checked against the original key). */
  predicate Kept(whitelist: seq<string>, key: string) {
    |whitelist| == 0 || key in whitelist
  }

  /** The value is a nested array whose keys are transformed as well: it is
      an array and its original key is not in `preserve_inner_keys`. */
  predicate Recurses(preserve: seq<string>, key: string, v: Value) {
    v.VMap? && !(|preserve| > 0 && key in preserve)
  }

  /** `camel_case_keys($array)` on `$this` with the given `whitelist` and
      `preserve_inner_keys`; the result is `Failure` when some key that
      survives the whitelist cannot be camel-cased. */
  function CamelCaseKeys(m: Assoc<Value>, whitelist: seq<string>, preserve: seq<string>): (r: Result<Assoc<Value>, Fault>)
    ensures r.Success? <==> Convertible(m, whitelist, preserve)
    ensures r.Success? ==> UniqueKeys(r.value)
  {
    CamelInto([], m, whitelist, preserve)
  }

  /** The foreach loop of `camel_case_keys`, from the partial result `acc`
      over the remaining entries `es`. */
  function CamelInto(acc: Assoc<Value>, es: Assoc<Value>, whitelist: seq<string>, preserve: seq<string>): (r: Result<Assoc<Value>, Fault>)
    ensures r.Success? <==> Convertible(es, whitelist, preserve)
    ensures r.Success? && UniqueKeys(acc) ==> UniqueKeys(r.value)
    decreases es
  {
    if |es| == 0 then Success(acc)
    else
      var e := es[0];
      if !Kept(whitelist, e.key) then
        CamelInto(acc, es[1..], whitelist, preserve)
      else if !Camelable(e.key) then
        Failure(EmptyCamelCaseKey(e.key))
      else
        var nk := CamelCaseString(e.key);
        if !Recurses(preserve, e.key, e.val) then
          PutUniqueIfUnique(acc, nk, e.val);
          CamelInto(Put(acc, nk, e.val), es[1..], whitelist, preserve)
        else
          match CamelInto([], e.val.entries, whitelist, preserve)
          case Failure(f) => Failure(f)
          case Success(inner) =>
            PutUniqueIfUnique(acc, nk, VMap(inner));
            CamelInto(Put(acc, nk, VMap(inner)), es[1..], whitelist, preserve)
  }

  lemma PutUniqueIfUnique<V>(m: Assoc<V>, k: string, v: V)
    ensures UniqueKeys(m) ==> UniqueKeys(Put(m, k, v))
  {
    if UniqueKeys(m) {
      PutUnique(m, k, v);
    }
  }

  /** Every key that survives the whitelist, at every depth the transform
      reaches, can be camel-cased. */
  ghost predicate Convertible(es: Assoc<Value>, whitelist: seq<string>, preserve: seq<string>)
    decreases es
  {
    forall i :: 0 <= i < |es| && Kept(whitelist, es[i].key) ==>
      Camelable(es[i].key)
      && (Recurses(preserve, es[i].key, es[i].val) ==> Convertible(es[i].val.entries, whitelist, preserve))
  }

  /** Some entry of `es` that survives the whitelist is camel-cased to `k`. */
  ghost predicate NamesKey(es: Assoc<Value>, whitelist: seq<string>, k: string) {
    exists i :: 0 <= i < |es| && Kept(whitelist, es[i].key) && Camelable(es[i].key) && CamelCaseString(es[i].key) == k
  }

  lemma NamesKeyCons(es: Assoc<Value>, whitelist: seq<string>, k: string)
    requires |es| > 0
    ensures NamesKey(es, whitelist, k) <==>
      (Kept(whitelist, es[0].key) && Camelable(es[0].key) && CamelCaseString(es[0].key) == k)
      || NamesKey(es[1..], whitelist, k)
  {
    if NamesKey(es, whitelist, k) {
      var i :| 0 <= i < |es| && Kept(whitelist, es[i].key) && Camelable(es[i].key) && CamelCaseString(es[i].key) == k;
      if i > 0 {
        assert es[1..][i - 1] == es[i];
      }
    }
    if NamesKey(es[1..], whitelist, k) {
      var i :| 0 <= i < |es[1..]| && Kept(whitelist, es[1..][i].key) && Camelable(es[1..][i].key) && CamelCaseString(es[1..][i].key) == k;
      assert es[i + 1] == es[1..][i];
    }
  }

  /** The keys of the result are exactly the camel-cased names of the keys
      that survive the whitelist. */
  lemma CamelCaseKeysKeys(m: Assoc<Value>, whitelist: seq<string>, preserve: seq<string>)
    requires CamelCaseKeys(m, whitelist, preserve).Success?
    ensures forall k :: k in Keys(CamelCaseKeys(m, whitelist, preserve).value) <==> NamesKey(m, whitelist, k)
  {
    CamelIntoKeys([], m, whitelist, preserve);
  }

  lemma {:induction false} CamelIntoKeys(acc: Assoc<Value>, es: Assoc<Value>, whitelist: seq<string>, preserve: seq<string>)
    requires CamelInto(acc, es, whitelist, preserve).Success?
    ensures forall k :: k in Keys(CamelInto(acc, es, whitelist, preserve).value) <==> k in Keys(acc) || NamesKey(es, whitelist, k)
    decreases es
  {
    if |es| > 0 {
      var e := es[0];
      forall k ensures NamesKey(es, whitelist, k) <==>
        (Kept(whitelist, e.key) && Camelable(e.key) && CamelCaseString(e.key) == k) || NamesKey(es[1..], whitelist, k)
      {
        NamesKeyCons(es, whitelist, k);
      }
      if !Kept(whitelist, e.key) {
        CamelIntoKeys(acc, es[1..], whitelist, preserve);
      } else {
        var nk := CamelCaseString(e.key);
        var v := if !Recurses(preserve, e.key, e.val) then e.val
                 else VMap(CamelInto([], e.val.entries, whitelist, preserve).value);
        assert CamelInto(acc, es, whitelist, preserve) == CamelInto(Put(acc, nk, v), es[1..], whitelist, preserve);
        PutKeys(acc, nk, v);
        CamelIntoKeys(Put(acc, nk, v), es[1..], whitelist, preserve);
      }
    }
  }

  /** Entries whose camel-cased name no later entry of `es` produces: the
      loop assigns that name last at entry `i`. */
  ghost predicate LastNamed(es: Assoc<Value>, whitelist: seq<string>, i: int)
    requires 0 <= i < |es| && Camelable(es[i].key)
  {
    forall j :: i < j < |es| && Kept(whitelist, es[j].key) && Camelable(es[j].key) ==>
      CamelCaseString(es[j].key) != CamelCaseString(es[i].key)
  }

  /** The value stored under the camel-cased name of the entry that assigns
      it last: a scalar or a preserved array is copied as is, any other array
      is itself transformed. */
  lemma CamelCaseKeysValue(m: Assoc<Value>, whitelist: seq<string>, preserve: seq<string>, i: int)
    requires CamelCaseKeys(m, whitelist, preserve).Success?
    requires 0 <= i < |m| && Kept(whitelist, m[i].key) && Camelable(m[i].key) && LastNamed(m, whitelist, i)
    ensures !Recurses(preserve, m[i].key, m[i].val) ==>
      Get(CamelCaseKeys(m, whitelist, preserve).value, CamelCaseString(m[i].key)) == Some(m[i].val)
    ensures Recurses(preserve, m[i].key, m[i].val) ==>
      CamelCaseKeys(m[i].val.entries, whitelist, preserve).Success?
      && Get(CamelCaseKeys(m, whitelist, preserve).value, CamelCaseString(m[i].key))
         == Some(VMap(CamelCaseKeys(m[i].val.entries, whitelist, preserve).value))
  {
    CamelIntoValue([], m, whitelist, preserve, i);
  }

  lemma {:induction false} CamelIntoValue(acc: Assoc<Value>, es: Assoc<Value>, whitelist: seq<string>, preserve: seq<string>, i: int)
    requires CamelInto(acc, es, whitelist, preserve).Success?
    requires 0 <= i < |es| && Kept(whitelist, es[i].key) && Camelable(es[i].key) && LastNamed(es, whitelist, i)
    ensures Recurses(preserve, es[i].key, es[i].val) ==> CamelInto([], es[i].val.entries, whitelist, preserve).Success?
    ensures Get(CamelInto(acc, es, whitelist, preserve).value, CamelCaseString(es[i].key)) == Some(StepValue(es[i], whitelist, preserve))
    decreases es, 1
  {
    if i == 0 {
      CamelIntoValueHead(acc, es, whitelist, preserve);
    } else {
      CamelIntoValueLater(acc, es, whitelist, preserve, i);
    }
  }

  /** `CamelIntoValue` for an entry after the first: the loop handles the
      first entry and the rest of the loop assigns the name. */
  lemma {:induction false} CamelIntoValueLater(acc: Assoc<Value>, es: Assoc<Value>, whitelist: seq<string>, preserve: seq<string>, i: int)
    requires CamelInto(acc, es, whitelist, preserve).Success?
    requires 0 < i < |es| && Kept(whitelist, es[i].key) && Camelable(es[i].key) && LastNamed(es, whitelist, i)
    ensures Recurses(preserve, es[i].key, es[i].val) ==> CamelInto([], es[i].val.entries, whitelist, preserve).Success?
    ensures Get(CamelInto(acc, es, whitelist, preserve).value, CamelCaseString(es[i].key)) == Some(StepValue(es[i], whitelist, preserve))
    decreases es, 0
  {
    CamelIntoStep(acc, es, whitelist, preserve);
    var acc' := StepAcc(acc, es[0], whitelist, preserve);
    LastNamedTail(es, whitelist, i);
    CamelIntoValue(acc', es[1..], whitelist, preserve, i - 1);
  }

  /** Dropping the first entry keeps a later entry last-named. */
  lemma LastNamedTail(es: Assoc<Value>, whitelist: seq<string>, i: int)
    requires 0 < i < |es| && Camelable(es[i].key) && LastNamed(es, whitelist, i)
    ensures es[1..][i - 1] == es[i] && LastNamed(es[1..], whitelist, i - 1)
  {
    forall j | i - 1 < j < |es[1..]| && Kept(whitelist, es[1..][j].key) && Camelable(es[1..][j].key)
      ensures CamelCaseString(es[1..][j].key) != CamelCaseString(es[1..][i - 1].key)
    {
      assert es[1..][j] == es[j + 1];
    }
  }

  lemma CamelIntoValueHead(acc: Assoc<Value>, es: Assoc<Value>, whitelist: seq<string>, preserve: seq<string>)
    requires CamelInto(acc, es, whitelist, preserve).Success?
    requires 0 < |es| && Kept(whitelist, es[0].key) && Camelable(es[0].key) && LastNamed(es, whitelist, 0)
    ensures Recurses(preserve, es[0].key, es[0].val) ==> CamelInto([], es[0].val.entries, whitelist, preserve).Success?
    ensures Get(CamelInto(acc, es, whitelist, preserve).value, CamelCaseString(es[0].key)) == Some(StepValue(es[0], whitelist, preserve))
  {
    CamelIntoStep(acc, es, whitelist, preserve);
    var e := es[0];
    var nk := CamelCaseString(e.key);
    assert !NamesKey(es[1..], whitelist, nk) by {
      forall j | 0 <= j < |es[1..]| && Kept(whitelist, es[1..][j].key) && Camelable(es[1..][j].key)
        ensures CamelCaseString(es[1..][j].key) != nk
      {
        assert es[1..][j] == es[j + 1];
      }
    }
    CamelIntoUntouched(StepAcc(acc, e, whitelist, preserve), es[1..], whitelist, preserve, nk);
    GetPut(acc, nk, StepValue(e, whitelist, preserve), nk);
  }

  /** The value the loop assigns for a kept entry. */
  ghost function StepValue(e: Entry<Value>, whitelist: seq<string>, preserve: seq<string>): Value
    requires Recurses(preserve, e.key, e.val) ==> CamelInto([], e.val.entries, whitelist, preserve).Success?
  {
    if !Recurses(preserve, e.key, e.val) then e.val
    else VMap(CamelInto([], e.val.entries, whitelist, preserve).value)
  }

  /** The partial result after the loop has handled entry `e`. */
  ghost function StepAcc(acc: Assoc<Value>, e: Entry<Value>, whitelist: seq<string>, preserve: seq<string>): Assoc<Value>
    requires Kept(whitelist, e.key) ==> Camelable(e.key)
    requires Kept(whitelist, e.key) && Recurses(preserve, e.key, e.val) ==> CamelInto([], e.val.entries, whitelist, preserve).Success?
  {
    if !Kept(whitelist, e.key) then acc
    else Put(acc, CamelCaseString(e.key), StepValue(e, whitelist, preserve))
  }

  /** A successful loop handles its first entry and continues. */
  lemma CamelIntoStep(acc: Assoc<Value>, es: Assoc<Value>, whitelist: seq<string>, preserve: seq<string>)
    requires CamelInto(acc, es, whitelist, preserve).Success? && |es| > 0
    ensures Kept(whitelist, es[0].key) ==> Camelable(es[0].key)
    ensures Kept(whitelist, es[0].key) && Recurses(preserve, es[0].key, es[0].val) ==>
      CamelInto([], es[0].val.entries, whitelist, preserve).Success?
    ensures CamelInto(acc, es, whitelist, preserve) == CamelInto(StepAcc(acc, es[0], whitelist, preserve), es[1..], whitelist, preserve)
  {
  }

  /** Entries that produce no camel-cased `k` leave the value under `k` as
      the partial result had it. */
  lemma {:induction false} CamelIntoUntouched(acc: Assoc<Value>, es: Assoc<Value>, whitelist: seq<string>, preserve: seq<string>, k: string)
    requires CamelInto(acc, es, whitelist, preserve).Success?
    requires !NamesKey(es, whitelist, k)
    ensures Get(CamelInto(acc, es, whitelist, preserve).value, k) == Get(acc, k)
    decreases es
  {
    if |es| > 0 {
      var e := es[0];
      NamesKeyCons(es, whitelist, k);
      if !Kept(whitelist, e.key) {
        CamelIntoUntouched(acc, es[1..], whitelist, preserve, k);
      } else {
        var nk := CamelCaseString(e.key);
        var v := if !Recurses(preserve, e.key, e.val) then e.val
                 else VMap(CamelInto([], e.val.entries, whitelist, preserve).value);
        assert CamelInto(acc, es, whitelist, preserve) == CamelInto(Put(acc, nk, v), es[1..], whitelist, preserve);
        GetPut(acc, nk, v, k);
        CamelIntoUntouched(Put(acc, nk, v), es[1..], whitelist, preserve, k);
      }
    }
  }

  /** `k` is a camel-case fixed point: what camel-casing any key yields. */
  predicate IsCamel(k: string) {
    Camelable(k) && CamelCaseString(k) == k
  }

  /** The key was produced from a whitelisted key. */
  predicate Listed(whitelist: seq<string>, k: string) {
    |whitelist| == 0 || exists j :: 0 <= j < |whitelist| && Camelable(whitelist[j]) && CamelCaseString(whitelist[j]) == k
  }

  /** Some entry of `preserve_inner_keys` is camel-cased to `k`. */
  predicate PreservedName(preserve: seq<string>, k: string) {
    |preserve| > 0 && exists j :: 0 <= j < |preserve| && Camelable(preserve[j]) && CamelCaseString(preserve[j]) == k
  }

  /** The shape of a `camel_case_keys` result: unique camelCase keys, each
      from the whitelist, and the same below every nested array that no
      preserved key can have produced. */
  ghost predicate Shaped(m: Assoc<Value>, whitelist: seq<string>, preserve: seq<string>)
    decreases m
  {
    UniqueKeys(m) && forall i :: 0 <= i < |m| ==> EntryShaped(m[i], whitelist, preserve)
  }

  ghost predicate EntryShaped(e: Entry<Value>, whitelist: seq<string>, preserve: seq<string>)
    decreases e
  {
    IsCamel(e.key) && Listed(whitelist, e.key)
    && (e.val.VMap? && !PreservedName(preserve, e.key) ==> Shaped(e.val.entries, whitelist, preserve))
  }

  /** Every result of `camel_case_keys` has that shape. */
  lemma CamelCaseKeysShaped(m: Assoc<Value>, whitelist: seq<string>, preserve: seq<string>)
    requires CamelCaseKeys(m, whitelist, preserve).Success?
    ensures Shaped(CamelCaseKeys(m, whitelist, preserve).value, whitelist, preserve)
  {
    CamelIntoShaped([], m, whitelist, preserve);
  }

  lemma {:induction false} CamelIntoShaped(acc: Assoc<Value>, es: Assoc<Value>, whitelist: seq<string>, preserve: seq<string>)
    requires CamelInto(acc, es, whitelist, preserve).Success?
    requires Shaped(acc, whitelist, preserve)
    ensures Shaped(CamelInto(acc, es, whitelist, preserve).value, whitelist, preserve)
    decreases es
  {
    if |es| > 0 {
      var e := es[0];
      if !Kept(whitelist, e.key) {
        CamelIntoShaped(acc, es[1..], whitelist, preserve);
      } else {
        var nk := CamelCaseString(e.key);
        CamelCaseStringIdempotent(e.key);
        if |whitelist| > 0 {
          var j :| 0 <= j < |whitelist| && whitelist[j] == e.key;
        }
        var v := if !Recurses(preserve, e.key, e.val) then e.val
                 else VMap(CamelInto([], e.val.entries, whitelist, preserve).value);
        if Recurses(preserve, e.key, e.val) {
          CamelIntoShaped([], e.val.entries, whitelist, preserve);
        } else if e.val.VMap? {
          var j :| 0 <= j < |preserve| && preserve[j] == e.key;
        }
        assert EntryShaped(Entry(nk, v), whitelist, preserve);
        assert CamelInto(acc, es, whitelist, preserve) == CamelInto(Put(acc, nk, v), es[1..], whitelist, preserve);
        PutUnique(acc, nk, v);
        PutEntries(acc, nk, v);
        CamelIntoShaped(Put(acc, nk, v), es[1..], whitelist, preserve);
      }
    }
  }

  /** An array already in that shape (with neither whitelist nor preserved
      keys) is returned unchanged. */
  lemma CamelCaseKeysOfShaped(m: Assoc<Value>)
    requires Shaped(m, [], [])
    ensures CamelCaseKeys(m, [], []) == Success(m)
  {
    CamelIntoOfShaped([], m);
    assert [] + m == m;
  }

  lemma {:induction false} CamelIntoOfShaped(acc: Assoc<Value>, es: Assoc<Value>)
    requires Shaped(es, [], [])
    requires UniqueKeys(acc + es)
    ensures CamelInto(acc, es, [], []) == Success(acc + es)
    decreases es, 1
  {
    if |es| > 0 {
      var e := es[0];
      ShapedSplit(acc, es);
      if e.val.VMap? {
        InnerOfShaped(e.val.entries);
      }
      assert Put(acc, e.key, e.val) == acc + [e];
      assert (acc + [e]) + es[1..] == acc + es;
      CamelIntoOfShaped(acc + [e], es[1..]);
    } else {
      assert acc + es == acc;
    }
  }

  lemma {:induction false} InnerOfShaped(m: Assoc<Value>)
    requires Shaped(m, [], [])
    ensures CamelInto([], m, [], []) == Success(m)
    decreases m, 2
  {
    CamelIntoOfShaped([], m);
    assert [] + m == m;
  }

  /** The first entry of a shaped remainder is shaped, has a fresh key and
      leaves a shaped tail. */
  lemma ShapedSplit(acc: Assoc<Value>, es: Assoc<Value>)
    requires |es| > 0 && Shaped(es, [], []) && UniqueKeys(acc + es)
    ensures EntryShaped(es[0], [], []) && es[0].key !in Keys(acc)
    ensures es[0].val.VMap? ==> Shaped(es[0].val.entries, [], [])
    ensures Shaped(es[1..], [], []) && UniqueKeys((acc + [es[0]]) + es[1..])
  {
    var e := es[0];
    assert EntryShaped(e, [], []);
    FreshHead(acc, es);
    ShapedTail(es);
    assert (acc + [e]) + es[1..] == acc + es;
  }

  lemma FreshHead(acc: Assoc<Value>, es: Assoc<Value>)
    requires |es| > 0 && UniqueKeys(acc + es)
    ensures es[0].key !in Keys(acc)
  {
    assert (acc + es)[|acc|] == es[0];
    forall i | 0 <= i < |acc| ensures acc[i].key != es[0].key {
      assert (acc + es)[i] == acc[i];
    }
  }

  lemma ShapedTail(es: Assoc<Value>)
    requires |es| > 0 && Shaped(es, [], [])
    ensures Shaped(es[1..], [], [])
  {
    forall i | 0 <= i < |es[1..]| ensures EntryShaped(es[1..][i], [], []) {
      assert es[1..][i] == es[i + 1];
    }
  }

  /** `camel_case_keys` with neither whitelist nor preserved keys is
      idempotent. */
  lemma CamelCaseKeysIdempotent(m: Assoc<Value>)
    requires CamelCaseKeys(m, [], []).Success?
    ensures CamelCaseKeys(CamelCaseKeys(m, [], []).value, [], []) == CamelCaseKeys(m, [], [])
  {
    CamelCaseKeysShaped(m, [], []);
    CamelCaseKeysOfShaped(CamelCaseKeys(m, [], []).value);
  }
}
