/** Ordered association lists: the model of a PHP array with string keys.
    A PHP array remembers insertion order, and assigning to an existing key
    updates that entry in place; assigning to a new key appends it. */
module Assocs {
  import opened Wrappers

  datatype Entry<V> = Entry(key: string, val: V)

  type Assoc<V> = seq<Entry<V>>

  /** The keys of `m`, in order. */
  function Keys<V>(m: Assoc<V>): (ks: seq<string>)
    ensures |ks| == |m|
    ensures forall i :: 0 <= i < |m| ==> ks[i] == m[i].key
  {
    seq(|m|, i requires 0 <= i < |m| => m[i].key)
  }

  /** Every key occurs once: true of every PHP array. */
  predicate UniqueKeys<V>(m: Assoc<V>) {
    forall i, j :: 0 <= i < j < |m| ==> m[i].key != m[j].key
  }

  /** `$m[$k]` when `array_key_exists($k, $m)`, otherwise `None`. */
  function Get<V>(m: Assoc<V>, k: string): (r: Option<V>)
    ensures r.Some? <==> k in Keys(m)
    ensures r.Some? ==> exists i :: 0 <= i < |m| && m[i] == Entry(k, r.value)
    ensures UniqueKeys(m) ==> forall i :: 0 <= i < |m| && m[i].key == k ==> r == Some(m[i].val)
  {
    if |m| == 0 then None
    else if m[0].key == k then Some(m[0].val)
    else
      var r := Get(m[1..], k);
      assert Keys(m) == [m[0].key] + Keys(m[1..]);
      r
  }

  /** `$m[$k] = $v`: update in place, or append a new last entry. */
  function Put<V>(m: Assoc<V>, k: string, v: V): (r: Assoc<V>)
    ensures k in Keys(m) ==> Keys(r) == Keys(m)
    ensures k !in Keys(m) ==> r == m + [Entry(k, v)]
  {
    if |m| == 0 then [Entry(k, v)]
    else if m[0].key == k then [Entry(k, v)] + m[1..]
    else
      var t := Put(m[1..], k, v);
      assert Keys(m) == [m[0].key] + Keys(m[1..]);
      assert Keys([m[0]] + t) == [m[0].key] + Keys(t);
      [m[0]] + t
  }

  /** After `$m[$k] = $v`, reading `$k` gives `$v` and every other key
      reads as before. */
  lemma {:induction false} GetPut<V>(m: Assoc<V>, k: string, v: V, k': string)
    ensures Get(Put(m, k, v), k') == if k' == k then Some(v) else Get(m, k')
  {
    if |m| > 0 && m[0].key != k {
      GetPut(m[1..], k, v, k');
      assert Put(m, k, v)[1..] == Put(m[1..], k, v);
    }
  }

  /** `GetPut` for every key at once. */
  lemma GetPutAll<V>(m: Assoc<V>, k: string, v: V)
    ensures forall k' :: Get(Put(m, k, v), k') == if k' == k then Some(v) else Get(m, k')
  {
    forall k' ensures Get(Put(m, k, v), k') == if k' == k then Some(v) else Get(m, k') {
      GetPut(m, k, v, k');
    }
  }

  /** Assignment keeps keys unique. */
  lemma {:induction false} PutUnique<V>(m: Assoc<V>, k: string, v: V)
    requires UniqueKeys(m)
    ensures UniqueKeys(Put(m, k, v))
  {
    if |m| > 0 && m[0].key != k {
      PutUnique(m[1..], k, v);
      var t := Put(m[1..], k, v);
      assert Put(m, k, v) == [m[0]] + t;
      assert Keys(m) == [m[0].key] + Keys(m[1..]);
      if k in Keys(m[1..]) {
        assert Keys(t) == Keys(m[1..]);
      } else {
        assert Keys(t) == Keys(m[1..]) + [k];
      }
      forall j | 0 <= j < |t| ensures t[j].key != m[0].key {
        assert t[j].key == Keys(t)[j];
      }
      ConsUnique(m[0], t);
    }
  }

  /** An entry whose key the rest lacks can go in front. */
  lemma ConsUnique<V>(e: Entry<V>, t: Assoc<V>)
    requires UniqueKeys(t) && forall j :: 0 <= j < |t| ==> t[j].key != e.key
    ensures UniqueKeys([e] + t)
  {
    var m := [e] + t;
    forall i, j | 0 <= i < j < |m| ensures m[i].key != m[j].key {
      assert m[j] == t[j - 1];
      if i > 0 {
        assert m[i] == t[i - 1];
      }
    }
  }

  /** Every entry after an assignment is an old entry or the new one. */
  lemma {:induction false} PutEntries<V>(m: Assoc<V>, k: string, v: V)
    ensures forall i :: 0 <= i < |Put(m, k, v)| ==> Put(m, k, v)[i] in m || Put(m, k, v)[i] == Entry(k, v)
  {
    if |m| > 0 && m[0].key != k {
      PutEntries(m[1..], k, v);
      var t := Put(m[1..], k, v);
      assert Put(m, k, v) == [m[0]] + t;
      forall i | 0 <= i < |t| ensures t[i] in m || t[i] == Entry(k, v) {
        if t[i] in m[1..] {
          var j :| 0 <= j < |m[1..]| && m[1..][j] == t[i];
          assert m[j + 1] == t[i];
        }
      }
    }
  }

  /** After `$m[$k] = $v` the keys are the old keys and `$k`. */
  lemma PutKeys<V>(m: Assoc<V>, k: string, v: V)
    ensures forall x :: x in Keys(Put(m, k, v)) <==> x in Keys(m) || x == k
  {
    if k !in Keys(m) {
      assert Keys(Put(m, k, v)) == Keys(m) + [k];
    }
  }

  /** Position of the first entry with key `k`, or `|m|` when there is none. */
  function IndexOf<V>(m: Assoc<V>, k: string): (i: nat)
    ensures i <= |m|
    ensures i < |m| <==> k in Keys(m)
    ensures i < |m| ==> m[i].key == k && Get(m, k) == Some(m[i].val)
  {
    if |m| == 0 then 0
    else if m[0].key == k then 0
    else
      assert Keys(m) == [m[0].key] + Keys(m[1..]);
      1 + IndexOf(m[1..], k)
  }

  /** Dropping the first entry of an array with unique keys leaves unique
      keys, none of them the dropped one. */
  lemma UniqueTail<V>(m: Assoc<V>)
    requires |m| > 0 && UniqueKeys(m)
    ensures Keys(m) == [m[0].key] + Keys(m[1..])
    ensures UniqueKeys(m[1..]) && m[0].key !in Keys(m[1..])
  {
    forall i, j | 0 <= i < j < |m[1..]| ensures m[1..][i].key != m[1..][j].key {
      assert m[1..][i] == m[i + 1] && m[1..][j] == m[j + 1];
    }
    forall i | 0 <= i < |m[1..]| ensures Keys(m[1..])[i] != m[0].key {
      assert m[1..][i] == m[i + 1];
    }
  }
}
