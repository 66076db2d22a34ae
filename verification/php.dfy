/** The slice of PHP's runtime that the component code leans on: a value
    type for config entries, PHP's notion of "empty", and the ASCII string
    functions (`strtolower`, `ucwords`, `explode`, `implode`, `str_replace`,
    `ltrim`/`rtrim`/`trim`, `strpos`) used by the key transformations and the
    autoloaders. Strings are `seq<char>` and case mapping is ASCII only. */
module Php {
  import opened Assocs

  /** A config value: PHP scalars plus string-keyed (nested) arrays. */
  datatype Value =
    | VNull
    | VBool(b: bool)
    | VInt(i: int)
    | VStr(s: string)
    | VMap(entries: Assoc<Value>)

  /** A PHP runtime error that ends the request. */
  datatype Fault =
    | EmptyCamelCaseKey(key: string)   // `$string[0] = ''` on an empty camel-cased key
    | ScalarOffset(key: string)        // writing `$scalar[$key]`
    | NullChild                        // calling a method on a null child
    | NotAnArray(key: string)          // a non-array passed to an `array` parameter
    | NotAnArrayReturned               // a method declared `: array` returning an object

  /** `empty($s)` for a string: only `''` and `'0'` are empty. */
  predicate EmptyString(s: string) {
    s == "" || s == "0"
  }

  /** `empty($v)`: PHP's falsy values. */
  predicate Empty(v: Value) {
    match v
    case VNull => true
    case VBool(b) => !b
    case VInt(i) => i == 0
    case VStr(s) => EmptyString(s)
    case VMap(es) => |es| == 0
  }

  /** `absint()` on an integer. */
  function AbsInt(i: int): (r: nat)
    ensures r == i || r == -i
  {
    if i < 0 then -i else i
  }

  /** Decimal rendering of an integer, as PHP's string conversion does. */
  function IntToString(i: int): (s: string)
    ensures |s| > 0
    decreases if i < 0 then 1 - i else i
  {
    if i < 0 then "-" + IntToString(-i)
    else if i < 10 then [('0' as int + i) as char]
    else IntToString(i / 10) + IntToString(i % 10)
  }

  /** `(string) $v` for the values the model carries. */
  function ToPhpString(v: Value): string {
    match v
    case VNull => ""
    case VBool(b) => if b then "1" else ""
    case VInt(i) => IntToString(i)
    case VStr(s) => s
    case VMap(_) => "Array"
  }

  // ---------------------------------------------------------------- chars

  predicate IsUpper(c: char) { 'A' <= c <= 'Z' }

  predicate IsLower(c: char) { 'a' <= c <= 'z' }

  function LowerChar(c: char): (r: char)
    ensures !IsUpper(r)
    ensures !IsUpper(c) ==> r == c
  {
    if IsUpper(c) then (c as int + 32) as char else c
  }

  function UpperChar(c: char): (r: char)
    ensures !IsLower(r)
    ensures !IsLower(c) ==> r == c
  {
    if IsLower(c) then (c as int - 32) as char else c
  }

  /** The word delimiters `ucwords` uses by default. */
  predicate IsWordDelimiter(c: char) {
    c == ' ' || c == '\t' || c == '\r' || c == '\n' || c == '\U{000C}' || c == '\U{000B}'
  }

  // -------------------------------------------------------------- strings

  /** `strtolower`. */
  function Lower(s: string): (r: string)
    ensures |r| == |s|
    ensures forall i :: 0 <= i < |s| ==> r[i] == LowerChar(s[i])
  {
    seq(|s|, i requires 0 <= i < |s| => LowerChar(s[i]))
  }

  /** The character `ucwords` leaves at position `i` of `s`. */
  function UcWordsAt(s: string, i: nat): char
    requires i < |s|
  {
    if i == 0 || IsWordDelimiter(s[i - 1]) then UpperChar(s[i]) else s[i]
  }

  /** `ucwords`: upper-case the first character and every character that
      follows a delimiter. */
  function UcWords(s: string): (r: string)
    ensures |r| == |s|
    ensures forall i :: 0 <= i < |s| ==> r[i] == UcWordsAt(s, i)
  {
    seq(|s|, i requires 0 <= i < |s| => UcWordsAt(s, i))
  }

  /** `str_replace($from, $to, $s)` for single characters. */
  function ReplaceChar(s: string, from: char, to: char): (r: string)
    ensures |r| == |s|
    ensures forall i :: 0 <= i < |s| ==> r[i] == (if s[i] == from then to else s[i])
  {
    seq(|s|, i requires 0 <= i < |s| => if s[i] == from then to else s[i])
  }

  predicate StartsWith(s: string, p: string) {
    |p| <= |s| && s[..|p|] == p
  }

  /** `false !== strpos($s, $sub)`. */
  predicate Contains(s: string, sub: string) {
    exists i :: 0 <= i <= |s| - |sub| && OccursAt(s, sub, i)
  }

  predicate OccursAt(s: string, sub: string, i: int) {
    0 <= i <= |s| - |sub| && s[i..i + |sub|] == sub
  }

  /** `str_replace($needle, $rep, $s)`: a left-to-right scan replacing
      non-overlapping occurrences; an empty needle changes nothing. */
  function ReplaceAll(s: string, needle: string, rep: string): string
    decreases |s|
  {
    if |needle| == 0 || |s| < |needle| then s
    else if s[..|needle|] == needle then rep + ReplaceAll(s[|needle|..], needle, rep)
    else [s[0]] + ReplaceAll(s[1..], needle, rep)
  }

  /** `explode($d, $s)` for a one-character delimiter. */
  function Explode(d: char, s: string): (ws: seq<string>)
    ensures |ws| > 0
  {
    if |s| == 0 then [""]
    else if s[0] == d then [""] + Explode(d, s[1..])
    else
      var rest := Explode(d, s[1..]);
      [[s[0]] + rest[0]] + rest[1..]
  }

  /** `implode($sep, $ws)`. */
  function Implode(sep: string, ws: seq<string>): string {
    if |ws| == 0 then ""
    else if |ws| == 1 then ws[0]
    else ws[0] + sep + Implode(sep, ws[1..])
  }

  /** `ltrim($s, $c)` for one character. */
  function LTrimChar(s: string, c: char): (r: string)
    ensures |r| == 0 || r[0] != c
    ensures |r| <= |s| && r == s[|s| - |r|..]
  {
    if |s| > 0 && s[0] == c then LTrimChar(s[1..], c) else s
  }

  /** `rtrim($s, $c)` for one character. */
  function RTrimChar(s: string, c: char): (r: string)
    ensures |r| == 0 || r[|r| - 1] != c
    ensures |r| <= |s| && r == s[..|r|]
  {
    if |s| > 0 && s[|s| - 1] == c then RTrimChar(s[..|s| - 1], c) else s
  }

  /** The characters `trim` strips by default. */
  predicate IsTrimmed(c: char) {
    c == ' ' || c == '\t' || c == '\n' || c == '\r' || c == '\0' || c == '\U{000B}'
  }

  function TrimLeft(s: string): (r: string)
    ensures |r| == 0 || !IsTrimmed(r[0])
    ensures |r| <= |s| && r == s[|s| - |r|..]
  {
    if |s| > 0 && IsTrimmed(s[0]) then TrimLeft(s[1..]) else s
  }

  function TrimRight(s: string): (r: string)
    ensures |r| == 0 || !IsTrimmed(r[|r| - 1])
    ensures |r| <= |s| && r == s[..|r|]
  {
    if |s| > 0 && IsTrimmed(s[|s| - 1]) then TrimRight(s[..|s| - 1]) else s
  }

  /** `trim($s)`. */
  function Trim(s: string): string {
    TrimRight(TrimLeft(s))
  }

  // ------------------------------------------------- explode / implode facts

  /** `implode($d, explode($d, $s)) === $s`. */
  lemma {:induction false} ExplodeRoundTrip(d: char, s: string)
    ensures Implode([d], Explode(d, s)) == s
  {
    if |s| > 0 {
      var r := Explode(d, s[1..]);
      ExplodeRoundTrip(d, s[1..]);
      assert s == [s[0]] + s[1..];
      if s[0] == d {
        var ws := [""] + r;
        assert ws[1..] == r;
        calc {
          Implode([d], Explode(d, s));
          Implode([d], ws);
          ws[0] + [d] + Implode([d], ws[1..]);
          [d] + s[1..];
        }
      } else if |r| == 1 {
        calc {
          Implode([d], Explode(d, s));
          Implode([d], [[s[0]] + r[0]]);
          [s[0]] + r[0];
        }
      } else {
        assert Explode(d, s) == [[s[0]] + r[0]] + r[1..];
        ImplodeExtendHead(d, s[0], r);
      }
    }
  }

  /** Putting a character in front of the first of several pieces puts it
      in front of their join. */
  lemma ImplodeExtendHead(d: char, c: char, r: seq<string>)
    requires |r| > 1
    ensures Implode([d], [[c] + r[0]] + r[1..]) == [c] + Implode([d], r)
  {
    var ws := [[c] + r[0]] + r[1..];
    assert ws[1..] == r[1..];
    calc {
      Implode([d], ws);
      ([c] + r[0]) + [d] + Implode([d], r[1..]);
      [c] + (r[0] + [d] + Implode([d], r[1..]));
    }
  }

  /** Every character of every piece of `explode($d, $s)` is a character
      of `$s` other than `$d`. */
  lemma {:induction false} ExplodeChars(d: char, s: string)
    ensures forall i, j :: 0 <= i < |Explode(d, s)| && 0 <= j < |Explode(d, s)[i]| ==>
      Explode(d, s)[i][j] != d && Explode(d, s)[i][j] in s
  {
    if |s| > 0 {
      ExplodeChars(d, s[1..]);
      var r := Explode(d, s[1..]);
      var ws := Explode(d, s);
      forall i, j | 0 <= i < |ws| && 0 <= j < |ws[i]|
        ensures ws[i][j] != d && ws[i][j] in s
      {
        if s[0] == d {
          assert ws[i] == ([""] + r)[i];
          assert i > 0 && ws[i] == r[i - 1];
          assert ws[i][j] in s[1..];
        } else if i == 0 {
          assert ws[0] == [s[0]] + r[0];
          if j > 0 {
            assert ws[i][j] == r[0][j - 1];
            assert ws[i][j] in s[1..];
          }
        } else {
          assert ws[i] == r[i];
          assert ws[i][j] in s[1..];
        }
      }
    }
  }

  /** A character property that holds of the separator and throughout
      every piece holds throughout the imploded string. */
  lemma {:induction false} ImplodeKeeps(sep: string, ws: seq<string>, p: char -> bool)
    requires forall j :: 0 <= j < |sep| ==> p(sep[j])
    requires forall i, j :: 0 <= i < |ws| && 0 <= j < |ws[i]| ==> p(ws[i][j])
    ensures forall j :: 0 <= j < |Implode(sep, ws)| ==> p(Implode(sep, ws)[j])
  {
    if |ws| > 1 {
      ImplodeKeeps(sep, ws[1..], p);
      var rest := Implode(sep, ws[1..]);
      var all := Implode(sep, ws);
      assert all == ws[0] + sep + rest;
      forall j | 0 <= j < |all| ensures p(all[j]) {
        if j < |ws[0]| {
          assert all[j] == ws[0][j];
        } else if j < |ws[0]| + |sep| {
          assert all[j] == sep[j - |ws[0]|];
        } else {
          assert all[j] == rest[j - |ws[0]| - |sep|];
        }
      }
    }
  }

  /** A string without the delimiter explodes to itself. */
  lemma {:induction false} ExplodeWithoutDelimiter(d: char, s: string)
    requires d !in s
    ensures Explode(d, s) == [s]
  {
    if |s| > 0 {
      assert s[0] != d;
      assert d !in s[1..];
      ExplodeWithoutDelimiter(d, s[1..]);
      assert s == [s[0]] + s[1..];
    }
  }

  /** A non-empty piece makes the concatenation non-empty. */
  lemma {:induction false} ImplodeNonEmpty(ws: seq<string>, i: nat)
    requires i < |ws| && |ws[i]| > 0
    ensures |Implode("", ws)| > 0
  {
    if |ws| > 1 && i > 0 {
      ImplodeNonEmpty(ws[1..], i - 1);
    }
  }

  /** A string made only of the delimiter explodes to empty pieces. */
  lemma {:induction false} ExplodeOnlyDelimiters(d: char, s: string)
    requires forall i :: 0 <= i < |s| ==> s[i] == d
    ensures forall k :: 0 <= k < |Explode(d, s)| ==> Explode(d, s)[k] == ""
  {
    if |s| > 0 {
      ExplodeOnlyDelimiters(d, s[1..]);
    }
  }

  /** Concatenating empty pieces gives the empty string. */
  lemma {:induction false} ImplodeOfEmpties(ws: seq<string>)
    requires forall k :: 0 <= k < |ws| ==> ws[k] == ""
    ensures Implode("", ws) == ""
  {
    if |ws| > 1 {
      ImplodeOfEmpties(ws[1..]);
    }
  }

  /** `str_replace` leaves a string without the needle unchanged. */
  lemma {:induction false} ReplaceAllAbsent(s: string, needle: string, rep: string)
    requires |needle| > 0 && !Contains(s, needle)
    ensures ReplaceAll(s, needle, rep) == s
    decreases |s|
  {
    if |s| >= |needle| {
      assert !OccursAt(s, needle, 0);
      assert !Contains(s[1..], needle) by {
        forall i | 0 <= i <= |s[1..]| - |needle| ensures !OccursAt(s[1..], needle, i) {
          assert !OccursAt(s, needle, i + 1);
          assert s[1..][i..i + |needle|] == s[i + 1..i + 1 + |needle|];
        }
      }
      ReplaceAllAbsent(s[1..], needle, rep);
      assert s == [s[0]] + s[1..];
    }
  }

  /** A delimiter after a piece without it ends that piece. */
  lemma {:induction false} ExplodeAfter(d: char, a: string, rest: string)
    requires d !in a
    ensures Explode(d, a + [d] + rest) == [a] + Explode(d, rest)
    decreases |a|
  {
    if |a| == 0 {
      assert a + [d] + rest == [d] + rest;
      assert ([d] + rest)[1..] == rest;
    } else {
      var s := a + [d] + rest;
      assert s[0] == a[0] && s[1..] == a[1..] + [d] + rest;
      assert d !in a[1..];
      ExplodeAfter(d, a[1..], rest);
      assert [a[0]] + a[1..] == a;
    }
  }
}
