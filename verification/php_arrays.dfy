/**
 * The part of PHP's ordered array that `is_groups_active` relies on: an
 * ordered list of key/value entries whose keys are integers or strings, and
 * `array_merge`, which appends the second array to the first, renumbers
 * integer keys from 0 and lets a later string key overwrite the value of an
 * earlier equal key in place.
 *
 * Keys are taken as already normalised the way PHP stores them (a decimal
 * integer string is an integer key), so a `StrKey` is never such a string.
 */
module PhpArrays {

  datatype Key = IntKey(n: int) | StrKey(s: string)

  /** The scalar values the plugin option arrays hold. */
  datatype Value = Str(s: string) | Int(n: int) | Bool(b: bool) | Null

  datatype Entry = Entry(key: Key, value: Value)

  type PhpArray = seq<Entry>

  /** A PHP array never holds the same key twice. */
  predicate WellFormed(a: PhpArray) {
    forall i, j :: 0 <= i < j < |a| ==> a[i].key != a[j].key
  }

  /** `array_key_exists(k, a)` */
  predicate HasKey(a: PhpArray, k: Key) {
    exists i :: 0 <= i < |a| && a[i].key == k
  }

  /** Every integer key of `a` lies below `next`, PHP's next free integer key. */
  predicate IntKeysBelow(a: PhpArray, next: int) {
    forall i :: 0 <= i < |a| && a[i].key.IntKey? ==> a[i].key.n < next
  }

  /** No string key occurs twice in `a`, so merging `a` overwrites nothing. */
  predicate DistinctStrKeys(a: PhpArray) {
    forall i, j :: 0 <= i < j < |a| && a[i].key.StrKey? ==> a[i].key != a[j].key
  }

  /** The values of `a`, in order (`array_values`). */
  function Values(a: PhpArray): (vs: seq<Value>)
    ensures |vs| == |a|
    ensures forall i :: 0 <= i < |a| ==> vs[i] == a[i].value
  {
    if |a| == 0 then [] else [a[0].value] + Values(a[1..])
  }

  /**
   * Assignment `a[k] = v` for a string key: the value of an existing entry
   * with key `k` is replaced where it stands; otherwise the entry is appended.
   */
  function Put(a: PhpArray, k: string, v: Value): PhpArray {
    if |a| == 0 then [Entry(StrKey(k), v)]
    else if a[0].key == StrKey(k) then [Entry(StrKey(k), v)] + a[1..]
    else [a[0]] + Put(a[1..], k, v)
  }

  lemma {:induction false} PutKeys(a: PhpArray, k: string, v: Value, key: Key)
    ensures HasKey(Put(a, k, v), key) <==> HasKey(a, key) || key == StrKey(k)
  {
    if |a| != 0 && a[0].key != StrKey(k) {
      var tail := Put(a[1..], k, v);
      PutKeys(a[1..], k, v, key);
      var r := Put(a, k, v);
      assert r == [a[0]] + tail;
      assert r[0] == a[0];
      if HasKey(a[1..], key) {
        var i :| 0 <= i < |a[1..]| && a[1..][i].key == key;
        assert a[i + 1].key == key;
      }
      if HasKey(a, key) && key != a[0].key {
        var i :| 0 <= i < |a| && a[i].key == key;
        assert a[1..][i - 1].key == key;
      }
      if HasKey(tail, key) {
        var i :| 0 <= i < |tail| && tail[i].key == key;
        assert r[i + 1].key == key;
      }
      if HasKey(r, key) && key != a[0].key {
        var i :| 0 <= i < |r| && r[i].key == key;
        assert tail[i - 1].key == key;
      }
    } else if |a| != 0 {
      var r := Put(a, k, v);
      assert r == [Entry(StrKey(k), v)] + a[1..];
      assert r[0].key == StrKey(k);
      if HasKey(a, key) {
        var i :| 0 <= i < |a| && a[i].key == key;
        if i == 0 {
          assert key == StrKey(k);
        } else {
          assert r[i].key == key;
        }
      }
      if HasKey(r, key) && key != StrKey(k) {
        var i :| 0 <= i < |r| && r[i].key == key;
        assert i != 0;
        assert a[i].key == key;
      }
    } else {
      assert Put(a, k, v)[0].key == StrKey(k);
    }
  }

  lemma {:induction false} PutValues(a: PhpArray, k: string, v: Value, x: Value)
    ensures x in Values(Put(a, k, v)) ==> x in Values(a) || x == v
  {
    if |a| != 0 && a[0].key != StrKey(k) {
      PutValues(a[1..], k, v, x);
      assert Put(a, k, v) == [a[0]] + Put(a[1..], k, v);
      assert Values(a) == [a[0].value] + Values(a[1..]);
    } else if |a| != 0 {
      assert Values(Put(a, k, v)) == [v] + Values(a[1..]);
      assert Values(a) == [a[0].value] + Values(a[1..]);
    }
  }

  /** A string key that is not yet present is appended. */
  lemma {:induction false} PutFresh(a: PhpArray, k: string, v: Value)
    requires !HasKey(a, StrKey(k))
    ensures Put(a, k, v) == a + [Entry(StrKey(k), v)]
  {
    if |a| != 0 {
      assert a[0].key != StrKey(k);
      PutFresh(a[1..], k, v);
      assert a == [a[0]] + a[1..];
    }
  }

  lemma {:induction false} PutWellFormed(a: PhpArray, k: string, v: Value, next: int)
    requires WellFormed(a) && IntKeysBelow(a, next)
    ensures WellFormed(Put(a, k, v)) && IntKeysBelow(Put(a, k, v), next)
  {
    if |a| != 0 {
      PutKeys(a[1..], k, v, a[0].key);
      if a[0].key != StrKey(k) {
        PutWellFormed(a[1..], k, v, next);
        var r := Put(a, k, v);
        assert r == [a[0]] + Put(a[1..], k, v);
        forall i, j | 0 <= i < j < |r|
          ensures r[i].key != r[j].key
        {
          if i == 0 {
            assert r[j] == Put(a[1..], k, v)[j - 1];
          }
        }
      }
    }
  }

  /**
   * The loop inside `array_merge`: entries of `src` are added to `acc` in
   * order; an integer key is replaced by the next free integer key `next`,
   * a string key is assigned with `Put`.
   */
  function MergeFrom(acc: PhpArray, next: int, src: PhpArray): PhpArray
    decreases |src|
  {
    if |src| == 0 then acc
    else match src[0].key
      case IntKey(_) => MergeFrom(acc + [Entry(IntKey(next), src[0].value)], next + 1, src[1..])
      case StrKey(k) => MergeFrom(Put(acc, k, src[0].value), next, src[1..])
  }

  /**
   * `array_merge(a, b)`: the integer-keyed entries of `a` and then `b` are
   * renumbered 0, 1, 2, ... and a string key of a proper array `b` ends up
   * carrying `b`'s value, whatever `a` held under that key.
   */
  function ArrayMerge(a: PhpArray, b: PhpArray): (r: PhpArray)
    ensures forall n :: HasKey(r, IntKey(n)) <==> 0 <= n < IntKeyCount(a) + IntKeyCount(b)
    ensures WellFormed(b) ==> forall i :: 0 <= i < |b| && b[i].key.StrKey? ==> b[i] in r
  {
    ArrayMergeFacts(a, b);
    MergeFrom([], 0, a + b)
  }

  /** The number of entries of `a` with an integer key. */
  function IntKeyCount(a: PhpArray): nat {
    if |a| == 0 then 0 else (if a[0].key.IntKey? then 1 else 0) + IntKeyCount(a[1..])
  }

  lemma {:induction false} IntKeyCountAppend(a: PhpArray, b: PhpArray)
    ensures IntKeyCount(a + b) == IntKeyCount(a) + IntKeyCount(b)
  {
    if |a| != 0 {
      assert (a + b)[1..] == a[1..] + b;
      IntKeyCountAppend(a[1..], b);
    } else {
      assert a + b == b;
    }
  }

  lemma {:induction false} MergeFromStrKeys(acc: PhpArray, next: int, src: PhpArray, k: string)
    ensures HasKey(MergeFrom(acc, next, src), StrKey(k)) <==> HasKey(acc, StrKey(k)) || HasKey(src, StrKey(k))
    decreases |src|
  {
    if |src| != 0 {
      var rest := src[1..];
      if HasKey(src, StrKey(k)) && src[0].key != StrKey(k) {
        var i :| 0 <= i < |src| && src[i].key == StrKey(k);
        assert rest[i - 1].key == StrKey(k);
      }
      if HasKey(rest, StrKey(k)) {
        var i :| 0 <= i < |rest| && rest[i].key == StrKey(k);
        assert src[i + 1].key == StrKey(k);
      }
      match src[0].key
      case IntKey(_) =>
        var acc' := acc + [Entry(IntKey(next), src[0].value)];
        MergeFromStrKeys(acc', next + 1, rest, k);
        if HasKey(acc', StrKey(k)) {
          var i :| 0 <= i < |acc'| && acc'[i].key == StrKey(k);
          assert acc[i].key == StrKey(k);
        }
        if HasKey(acc, StrKey(k)) {
          var i :| 0 <= i < |acc| && acc[i].key == StrKey(k);
          assert acc'[i].key == StrKey(k);
        }
      case StrKey(s) =>
        PutKeys(acc, s, src[0].value, StrKey(k));
        MergeFromStrKeys(Put(acc, s, src[0].value), next, rest, k);
    }
  }

  lemma {:induction false} MergeFromValues(acc: PhpArray, next: int, src: PhpArray, x: Value)
    ensures x in Values(MergeFrom(acc, next, src)) ==> x in Values(acc) || x in Values(src)
    decreases |src|
  {
    if |src| != 0 {
      var rest := src[1..];
      assert Values(src) == [src[0].value] + Values(rest);
      match src[0].key
      case IntKey(_) =>
        var acc' := acc + [Entry(IntKey(next), src[0].value)];
        MergeFromValues(acc', next + 1, rest, x);
        assert Values(acc') == Values(acc) + [src[0].value];
      case StrKey(s) =>
        PutValues(acc, s, src[0].value, x);
        MergeFromValues(Put(acc, s, src[0].value), next, rest, x);
    }
  }

  /** No string key of `src` is already a key of `acc`. */
  predicate FreshStrKeys(acc: PhpArray, src: PhpArray) {
    forall j :: 0 <= j < |src| && src[j].key.StrKey? ==> !HasKey(acc, src[j].key)
  }

  lemma HasKeyAppend(acc: PhpArray, e: Entry, key: Key)
    ensures HasKey(acc + [e], key) <==> HasKey(acc, key) || e.key == key
  {
    if HasKey(acc + [e], key) {
      var i :| 0 <= i < |acc + [e]| && (acc + [e])[i].key == key;
      assert i < |acc| ==> acc[i].key == key;
    }
    if HasKey(acc, key) {
      var i :| 0 <= i < |acc| && acc[i].key == key;
      assert (acc + [e])[i].key == key;
    }
    assert (acc + [e])[|acc|] == e;
  }

  /** Dropping the head of `src` and appending it, or any fresh integer key, keeps the keys fresh. */
  lemma FreshAfterStep(acc: PhpArray, src: PhpArray, e: Entry)
    requires |src| > 0 && DistinctStrKeys(src) && FreshStrKeys(acc, src)
    requires e.key == src[0].key || e.key.IntKey?
    ensures DistinctStrKeys(src[1..]) && FreshStrKeys(acc + [e], src[1..])
  {
  }

  /** The entry a merge step appends when the head of `src` adds a new key. */
  function Appended(next: int, e: Entry): Entry {
    if e.key.IntKey? then Entry(IntKey(next), e.value) else e
  }

  /** One step of the merge when the head of `src` carries no string key already in `acc`. */
  lemma MergeFromFreshStep(acc: PhpArray, next: int, src: PhpArray)
    requires |src| > 0
    requires src[0].key.StrKey? ==> !HasKey(acc, src[0].key)
    ensures MergeFrom(acc, next, src)
         == MergeFrom(acc + [Appended(next, src[0])], if src[0].key.IntKey? then next + 1 else next, src[1..])
  {
    if src[0].key.StrKey? {
      PutFresh(acc, src[0].key.s, src[0].value);
    }
  }

  /** With no string key met twice, merging keeps every value, in order. */
  lemma {:induction false} MergeFromKeepsValues(acc: PhpArray, next: int, src: PhpArray)
    requires DistinctStrKeys(src) && FreshStrKeys(acc, src)
    ensures Values(MergeFrom(acc, next, src)) == Values(acc) + Values(src)
    decreases |src|
  {
    if |src| != 0 {
      var e := Appended(next, src[0]);
      var next' := if src[0].key.IntKey? then next + 1 else next;
      MergeFromFreshStep(acc, next, src);
      FreshAfterStep(acc, src, e);
      MergeFromKeepsValues(acc + [e], next', src[1..]);
      var v := src[0].value;
      ValuesAppend(acc, [e]);
      assert Values([e]) == [v];
      assert src == [src[0]] + src[1..];
      ValuesAppend([src[0]], src[1..]);
      assert Values([src[0]]) == [v];
      SeqAssoc(Values(acc), [v], Values(src[1..]));
    }
  }

  lemma {:induction false} MergeFromWellFormed(acc: PhpArray, next: int, src: PhpArray)
    requires WellFormed(acc) && IntKeysBelow(acc, next)
    ensures WellFormed(MergeFrom(acc, next, src))
    decreases |src|
  {
    if |src| != 0 {
      match src[0].key
      case IntKey(_) =>
        var acc' := acc + [Entry(IntKey(next), src[0].value)];
        assert WellFormed(acc');
        MergeFromWellFormed(acc', next + 1, src[1..]);
      case StrKey(s) =>
        PutWellFormed(acc, s, src[0].value, next);
        MergeFromWellFormed(Put(acc, s, src[0].value), next, src[1..]);
    }
  }

  /** The merge hands out the integer keys `next`, `next + 1`, ... to the integer-keyed entries of `src`. */
  lemma {:induction false} MergeFromIntKeys(acc: PhpArray, next: int, src: PhpArray, n: int)
    ensures HasKey(MergeFrom(acc, next, src), IntKey(n)) <==> HasKey(acc, IntKey(n)) || next <= n < next + IntKeyCount(src)
    decreases |src|
  {
    if |src| != 0 {
      match src[0].key
      case IntKey(_) =>
        var e := Entry(IntKey(next), src[0].value);
        HasKeyAppend(acc, e, IntKey(n));
        MergeFromIntKeys(acc + [e], next + 1, src[1..], n);
      case StrKey(s) =>
        PutKeys(acc, s, src[0].value, IntKey(n));
        MergeFromIntKeys(Put(acc, s, src[0].value), next, src[1..], n);
    }
  }

  lemma {:induction false} PutHasEntry(a: PhpArray, k: string, v: Value)
    ensures Entry(StrKey(k), v) in Put(a, k, v)
  {
    if |a| != 0 && a[0].key != StrKey(k) {
      PutHasEntry(a[1..], k, v);
    }
  }

  lemma {:induction false} PutKeepsEntry(a: PhpArray, k: string, v: Value, e: Entry)
    requires e in a && e.key != StrKey(k)
    ensures e in Put(a, k, v)
  {
    if a[0] != e {
      assert e in a[1..];
      if a[0].key != StrKey(k) {
        PutKeepsEntry(a[1..], k, v, e);
      }
    }
  }

  /** An entry survives a merge of entries that never reuse its key. */
  lemma {:induction false} MergeFromKeepsEntry(acc: PhpArray, next: int, src: PhpArray, e: Entry)
    requires e.key.StrKey? && e in acc
    requires forall j :: 0 <= j < |src| ==> src[j].key != e.key
    ensures e in MergeFrom(acc, next, src)
    decreases |src|
  {
    if |src| != 0 {
      match src[0].key
      case IntKey(_) =>
        MergeFromKeepsEntry(acc + [Entry(IntKey(next), src[0].value)], next + 1, src[1..], e);
      case StrKey(s) =>
        PutKeepsEntry(acc, s, src[0].value, e);
        MergeFromKeepsEntry(Put(acc, s, src[0].value), next, src[1..], e);
    }
  }

  /** The last entry of `src` with a given string key is the one the merge keeps. */
  lemma {:induction false} MergeFromLastStrKeyWins(acc: PhpArray, next: int, src: PhpArray, j: nat)
    requires j < |src| && src[j].key.StrKey?
    requires forall j' :: j < j' < |src| ==> src[j'].key != src[j].key
    ensures src[j] in MergeFrom(acc, next, src)
    decreases |src|
  {
    var rest := src[1..];
    if j == 0 {
      var s := src[0].key.s;
      PutHasEntry(acc, s, src[0].value);
      MergeFromKeepsEntry(Put(acc, s, src[0].value), next, rest, src[0]);
    } else {
      assert rest[j - 1] == src[j];
      match src[0].key
      case IntKey(_) =>
        MergeFromLastStrKeyWins(acc + [Entry(IntKey(next), src[0].value)], next + 1, rest, j - 1);
      case StrKey(s) =>
        MergeFromLastStrKeyWins(Put(acc, s, src[0].value), next, rest, j - 1);
    }
  }

  lemma ArrayMergeFacts(a: PhpArray, b: PhpArray)
    ensures forall n :: HasKey(MergeFrom([], 0, a + b), IntKey(n)) <==> 0 <= n < IntKeyCount(a) + IntKeyCount(b)
    ensures WellFormed(b) ==>
              forall i :: 0 <= i < |b| && b[i].key.StrKey? ==> b[i] in MergeFrom([], 0, a + b)
  {
    IntKeyCountAppend(a, b);
    forall n
      ensures HasKey(MergeFrom([], 0, a + b), IntKey(n)) <==> 0 <= n < IntKeyCount(a) + IntKeyCount(b)
    {
      MergeFromIntKeys([], 0, a + b, n);
    }
    if WellFormed(b) {
      forall i | 0 <= i < |b| && b[i].key.StrKey?
        ensures b[i] in MergeFrom([], 0, a + b)
      {
        assert (a + b)[|a| + i] == b[i];
        MergeFromLastStrKeyWins([], 0, a + b, |a| + i);
      }
    }
  }

  /**
   * `array_merge` yields a proper PHP array whose string keys are exactly
   * those of its two arguments, and whose values all come from them.
   */
  lemma ArrayMergeKeysAndValues(a: PhpArray, b: PhpArray)
    ensures WellFormed(ArrayMerge(a, b))
    ensures forall k: string :: HasKey(ArrayMerge(a, b), StrKey(k)) <==> HasKey(a, StrKey(k)) || HasKey(b, StrKey(k))
    ensures forall x :: x in Values(ArrayMerge(a, b)) ==> x in Values(a) || x in Values(b)
  {
    MergeFromWellFormed([], 0, a + b);
    forall k: string
      ensures HasKey(ArrayMerge(a, b), StrKey(k)) <==> HasKey(a, StrKey(k)) || HasKey(b, StrKey(k))
    {
      MergeFromStrKeys([], 0, a + b, k);
      if HasKey(a + b, StrKey(k)) {
        var i :| 0 <= i < |a + b| && (a + b)[i].key == StrKey(k);
        if i >= |a| {
          assert b[i - |a|].key == StrKey(k);
        }
      }
      if HasKey(b, StrKey(k)) {
        var i :| 0 <= i < |b| && b[i].key == StrKey(k);
        assert (a + b)[|a| + i].key == StrKey(k);
      }
      if HasKey(a, StrKey(k)) {
        var i :| 0 <= i < |a| && a[i].key == StrKey(k);
        assert (a + b)[i].key == StrKey(k);
      }
    }
    forall x | x in Values(ArrayMerge(a, b))
      ensures x in Values(a) || x in Values(b)
    {
      MergeFromValues([], 0, a + b, x);
      ValuesAppend(a, b);
    }
  }

  /** When no string key occurs twice across both arrays, no value is lost. */
  lemma ArrayMergeKeepsValues(a: PhpArray, b: PhpArray)
    requires DistinctStrKeys(a + b)
    ensures Values(ArrayMerge(a, b)) == Values(a) + Values(b)
  {
    assert FreshStrKeys([], a + b);
    MergeFromKeepsValues([], 0, a + b);
    ValuesAppend(a, b);
  }

  lemma SeqAssoc<T>(a: seq<T>, b: seq<T>, c: seq<T>)
    ensures (a + b) + c == a + (b + c)
  {
  }

  lemma ValuesAppend(a: PhpArray, b: PhpArray)
    ensures Values(a + b) == Values(a) + Values(b)
  {
  }
}
