/**
 * The ordering of keyframe selectors in src/rcss/process_x/keyframes.rs:
 * when every selector ends in `%`, the selectors are sorted, stably, by the
 * number in front of the `%` read as a `u32` (0 when it does not parse).
 */
module FrameOrder {
  import opened Wrappers
  import opened Text

  predicate IsDigit(c: char) { '0' <= c <= '9' }

  /** The value of a string of decimal digits. */
  function DecimalValue(ds: string): nat
    requires forall i :: 0 <= i < |ds| ==> IsDigit(ds[i])
  {
    if ds == [] then 0
    else
      assert IsDigit(ds[|ds| - 1]);
      DecimalValue(ds[..|ds| - 1]) * 10 + (ds[|ds| - 1] as int - '0' as int)
  }

  const MaxU32: nat := 4294967295

  /**
   * `str::parse::<u32>`: an optional `+`, then at least one decimal digit
   * and nothing else, with a value that fits in 32 bits.
   */
  function ParseU32(s: string): (r: Option<nat>)
    ensures r.Some? ==> r.value <= MaxU32
    ensures r.Some? ==> s != [] && s != "+"
    ensures r.Some? ==> forall i :: 0 <= i < |s| ==> IsDigit(s[i]) || (i == 0 && s[i] == '+')
  {
    var ds := if s != [] && s[0] == '+' then s[1..] else s;
    if ds == [] || exists i :: 0 <= i < |ds| && !IsDigit(ds[i]) then None
    else if DecimalValue(ds) <= MaxU32 then Some(DecimalValue(ds))
    else None
  }

  /** The sort key of a selector: the number before the trailing `%` signs, or 0. */
  function SortKey(k: string): nat {
    ParseU32(TrimEndChars(k, {'%'})).GetOr(0)
  }

  predicate AllPercent(keys: seq<string>) {
    forall i :: 0 <= i < |keys| ==> EndsWith(keys[i], "%")
  }

  /** A sort key; the sorting below is stated for any key and used with `SortKey`. */
  type Key = string -> nat

  /** `x` placed after every element whose key is not greater than its own. */
  function Insert(key: Key, sorted: seq<string>, x: string): (r: seq<string>)
    ensures |r| == |sorted| + 1
  {
    if sorted == [] then [x]
    else if key(x) < key(sorted[0]) then [x] + sorted
    else [sorted[0]] + Insert(key, sorted[1..], x)
  }

  /** `slice::sort_by_key(SortKey)`: a stable sort, here by insertion from the left. */
  function SortByKey(key: Key, keys: seq<string>): (r: seq<string>)
    ensures |r| == |keys|
  {
    if keys == [] then [] else Insert(key, SortByKey(key, keys[..|keys| - 1]), keys[|keys| - 1])
  }

  /** `sorted_keys`: sorted only when every selector ends in `%`. */
  function SortedKeys(keys: seq<string>): seq<string> {
    if AllPercent(keys) then SortByKey(SortKey, keys) else keys
  }

  // ---------------------------------------------------------------- properties

  predicate SortedByKey(key: Key, s: seq<string>) {
    forall i :: 0 < i < |s| ==> key(s[i - 1]) <= key(s[i])
  }

  /** The elements of `s` with key `v`, in order. */
  function WithKey(key: Key, s: seq<string>, v: nat): seq<string> {
    if s == [] then [] else (if key(s[0]) == v then [s[0]] else []) + WithKey(key, s[1..], v)
  }

  lemma {:induction false} WithKeyAppend(key: Key, a: seq<string>, b: seq<string>, v: nat)
    ensures WithKey(key, a + b, v) == WithKey(key, a, v) + WithKey(key, b, v)
  {
    if a == [] {
      assert a + b == b;
    } else {
      var ab := a + b;
      assert ab[0] == a[0] && ab[1..] == a[1..] + b;
      var h := if key(a[0]) == v then [a[0]] else [];
      assert WithKey(key, ab, v) == h + WithKey(key, a[1..] + b, v);
      WithKeyAppend(key, a[1..], b, v);
      assert WithKey(key, a, v) == h + WithKey(key, a[1..], v);
    }
  }

  lemma {:induction false} SortedHeadSmallest(key: Key, s: seq<string>)
    requires SortedByKey(key, s) && s != []
    ensures forall i :: 0 <= i < |s| ==> key(s[0]) <= key(s[i])
  {
    if |s| > 1 {
      SortedHeadSmallest(key, s[1..]);
      assert forall i :: 1 <= i < |s| ==> s[i] == s[1..][i - 1];
    }
  }

  lemma {:induction false} NoneWithKey(key: Key, s: seq<string>, v: nat)
    requires forall i :: 0 <= i < |s| ==> key(s[i]) != v
    ensures WithKey(key, s, v) == []
  {
    if s != [] {
      NoneWithKey(key, s[1..], v);
    }
  }

  /** Inserting keeps the order sorted; the new head is `x` or the old head. */
  lemma {:induction false} InsertSorted(key: Key, sorted: seq<string>, x: string)
    requires SortedByKey(key, sorted)
    ensures SortedByKey(key, Insert(key, sorted, x))
    ensures Insert(key, sorted, x)[0] == x || (sorted != [] && Insert(key, sorted, x)[0] == sorted[0])
  {
    if sorted != [] && key(x) >= key(sorted[0]) {
      var rest := sorted[1..];
      assert SortedByKey(key, rest) by {
        assert forall i :: 0 <= i < |rest| ==> rest[i] == sorted[i + 1];
      }
      InsertSorted(key, rest, x);
      var r := [sorted[0]] + Insert(key, rest, x);
      assert forall i :: 1 <= i < |r| ==> r[i] == Insert(key, rest, x)[i - 1];
    }
  }

  /** Inserting adds exactly `x`. */
  lemma {:induction false} InsertMultiset(key: Key, sorted: seq<string>, x: string)
    ensures multiset(Insert(key, sorted, x)) == multiset(sorted) + multiset{x}
  {
    if sorted == [] {
      assert Insert(key, sorted, x) == [x];
    } else if key(x) < key(sorted[0]) {
      assert Insert(key, sorted, x) == [x] + sorted;
    } else {
      var rest := sorted[1..];
      InsertMultiset(key, rest, x);
      assert Insert(key, sorted, x) == [sorted[0]] + Insert(key, rest, x);
      assert sorted == [sorted[0]] + rest;
      assert multiset(sorted) == multiset{sorted[0]} + multiset(rest);
    }
  }

  /** Among the elements of one key, `x` lands after all those already there. */
  lemma {:induction false} InsertWithKey(key: Key, sorted: seq<string>, x: string, v: nat)
    requires SortedByKey(key, sorted)
    ensures WithKey(key, Insert(key, sorted, x), v) == WithKey(key, sorted, v) + (if key(x) == v then [x] else [])
  {
    if sorted == [] {
      assert WithKey(key, [x], v) == (if key(x) == v then [x] else []) + WithKey(key, [], v);
    } else if key(x) < key(sorted[0]) {
      SortedHeadSmallest(key, sorted);
      NoneWithKey(key, sorted, key(x));
      assert ([x] + sorted)[1..] == sorted;
    } else {
      var rest := sorted[1..];
      assert SortedByKey(key, rest) by {
        assert forall i :: 0 <= i < |rest| ==> rest[i] == sorted[i + 1];
      }
      InsertWithKey(key, rest, x, v);
      assert ([sorted[0]] + Insert(key, rest, x))[1..] == Insert(key, rest, x);
    }
  }

  /**
   * `SortByKey` returns the same selectors, sorted by key, and keeps
   * selectors with equal keys in their original order (it is stable).
   */
  lemma {:induction false} SortByKeySpec(key: Key, keys: seq<string>)
    ensures SortedByKey(key, SortByKey(key, keys))
    ensures multiset(SortByKey(key, keys)) == multiset(keys)
    ensures forall v :: WithKey(key, SortByKey(key, keys), v) == WithKey(key, keys, v)
  {
    if keys != [] {
      var init := keys[..|keys| - 1];
      var x := keys[|keys| - 1];
      SortByKeySpec(key, init);
      InsertSorted(key, SortByKey(key, init), x);
      InsertMultiset(key, SortByKey(key, init), x);
      assert keys == init + [x];
      forall v ensures WithKey(key, SortByKey(key, keys), v) == WithKey(key, keys, v) {
        SortStepWithKey(key, init, x, v);
      }
    }
  }

  lemma SortStepWithKey(key: Key, init: seq<string>, x: string, v: nat)
    requires SortedByKey(key, SortByKey(key, init))
    requires WithKey(key, SortByKey(key, init), v) == WithKey(key, init, v)
    ensures WithKey(key, Insert(key, SortByKey(key, init), x), v) == WithKey(key, init + [x], v)
  {
    InsertWithKey(key, SortByKey(key, init), x, v);
    WithKeyAppend(key, init, [x], v);
    assert [x][1..] == [];
    assert WithKey(key, [x], v) == (if key(x) == v then [x] else []);
  }

  /**
   * Two sorted orders of the same selectors are equal when no two
   * selectors share a key: the order then depends only on the selectors.
   */
  lemma {:induction false} SortedUnique(key: Key, a: seq<string>, b: seq<string>)
    requires SortedByKey(key, a) && SortedByKey(key, b) && multiset(a) == multiset(b)
    requires forall i, j :: 0 <= i < |a| && 0 <= j < |a| && key(a[i]) == key(a[j]) ==> a[i] == a[j]
    ensures a == b
    decreases |a|
  {
    if a != [] {
      assert |a| == |multiset(a)| == |multiset(b)| == |b|;
      HeadsEqual(key, a, b);
      TailsAgree(a, b);
      SortedTail(key, a);
      SortedTail(key, b);
      KeysDistinctTail(key, a);
      SortedUnique(key, a[1..], b[1..]);
    }
  }

  lemma TailsAgree(a: seq<string>, b: seq<string>)
    requires a != [] && b != [] && a[0] == b[0] && multiset(a) == multiset(b)
    ensures multiset(a[1..]) == multiset(b[1..])
  {
    assert a == [a[0]] + a[1..] && b == [b[0]] + b[1..];
    assert multiset(a[1..]) == multiset(a) - multiset{a[0]};
    assert multiset(b[1..]) == multiset(b) - multiset{b[0]};
  }

  lemma SortedTail(key: Key, s: seq<string>)
    requires s != [] && SortedByKey(key, s)
    ensures SortedByKey(key, s[1..])
  {
    assert forall i :: 0 <= i < |s| - 1 ==> s[1..][i] == s[i + 1];
  }

  lemma KeysDistinctTail(key: Key, a: seq<string>)
    requires a != []
    requires forall i, j :: 0 <= i < |a| && 0 <= j < |a| && key(a[i]) == key(a[j]) ==> a[i] == a[j]
    ensures forall i, j :: 0 <= i < |a[1..]| && 0 <= j < |a[1..]| && key(a[1..][i]) == key(a[1..][j]) ==> a[1..][i] == a[1..][j]
  {
    forall i, j | 0 <= i < |a[1..]| && 0 <= j < |a[1..]| && key(a[1..][i]) == key(a[1..][j])
      ensures a[1..][i] == a[1..][j]
    {
      assert a[1..][i] == a[i + 1] && a[1..][j] == a[j + 1];
    }
  }

  /** The heads of two such orders are the same selector: the one with the smallest key. */
  lemma HeadsEqual(key: Key, a: seq<string>, b: seq<string>)
    requires a != [] && b != [] && SortedByKey(key, a) && SortedByKey(key, b) && multiset(a) == multiset(b)
    requires forall i, j :: 0 <= i < |a| && 0 <= j < |a| && key(a[i]) == key(a[j]) ==> a[i] == a[j]
    ensures a[0] == b[0]
  {
    assert a[0] in multiset(b) && b[0] in multiset(a);
    SortedHeadSmallest(key, a);
    SortedHeadSmallest(key, b);
    var i :| 0 <= i < |b| && b[i] == a[0];
    var j :| 0 <= j < |a| && a[j] == b[0];
    assert key(a[0]) == key(b[0]);
  }

  /** Selectors with the same number are the same selector. */
  predicate DistinctSortKeys(keys: seq<string>) {
    forall i, j :: 0 <= i < |keys| && 0 <= j < |keys| && SortKey(keys[i]) == SortKey(keys[j]) ==> keys[i] == keys[j]
  }

  /**
   * When every selector ends in `%` and their keys differ, the sorted order
   * is the same from any enumeration of the same selectors.
   */
  lemma SortedKeysIgnoreEnumeration(o1: seq<string>, o2: seq<string>)
    requires multiset(o1) == multiset(o2) && AllPercent(o1) && DistinctSortKeys(o1)
    ensures SortedKeys(o1) == SortedKeys(o2)
  {
    forall i | 0 <= i < |o2| ensures EndsWith(o2[i], "%") {
      assert o2[i] in multiset(o1);
    }
    SortByKeySpec(SortKey, o1);
    SortByKeySpec(SortKey, o2);
    var a := SortByKey(SortKey, o1);
    forall i, j | 0 <= i < |a| && 0 <= j < |a| && SortKey(a[i]) == SortKey(a[j]) ensures a[i] == a[j] {
      assert a[i] in multiset(o1) && a[j] in multiset(o1);
    }
    SortedUnique(SortKey, a, SortByKey(SortKey, o2));
  }

  /** The decimal digits of `n`, without leading zeros. */
  function DecimalString(n: nat): (r: string)
    ensures r != [] && forall i :: 0 <= i < |r| ==> IsDigit(r[i])
  {
    if n < 10 then [('0' as int + n) as char]
    else DecimalString(n / 10) + [('0' as int + n % 10) as char]
  }

  /** Reading the digits of `n` back gives `n`. */
  lemma {:induction false} DecimalRoundTrip(n: nat)
    ensures DecimalValue(DecimalString(n)) == n
  {
    var ds := DecimalString(n);
    if n >= 10 {
      DecimalRoundTrip(n / 10);
      assert ds[..|ds| - 1] == DecimalString(n / 10);
    }
  }

  /** `parse::<u32>` reads a decimal numeral back exactly when it fits in 32 bits. */
  lemma ParseDecimal(n: nat)
    ensures ParseU32(DecimalString(n)) == if n <= MaxU32 then Some(n) else None
  {
    var ds := DecimalString(n);
    DecimalRoundTrip(n);
    assert ds[0] != '+' by { assert IsDigit(ds[0]); }
  }

  /**
   * A selector whose number part holds a character that is neither a digit
   * nor a leading `+` does not parse, so it sorts under 0.
   */
  lemma UnparseableKeyZero(k: string, i: nat)
    requires var t := TrimEndChars(k, {'%'}); i < |t| && !IsDigit(t[i]) && !(i == 0 && t[i] == '+')
    ensures ParseU32(TrimEndChars(k, {'%'})).None?
    ensures SortKey(k) == 0
  {
  }

  /** `x%` sorts under 0. */
  lemma LetterKeyZero()
    ensures SortKey("x%") == 0
  {
  }

  /** The selector `n%` sorts under `n`, for every `n` that fits in 32 bits. */
  lemma PercentKey(n: nat)
    requires n <= MaxU32
    ensures SortKey(DecimalString(n) + "%") == n
  {
    var ds := DecimalString(n);
    var s := ds + "%";
    var t := TrimEndChars(s, {'%'});
    assert s[|ds| - 1] == ds[|ds| - 1] && IsDigit(s[|ds| - 1]);
    assert s[|s| - 1] == '%';
    assert t == s[..|ds|] == ds;
    ParseDecimal(n);
  }
}
