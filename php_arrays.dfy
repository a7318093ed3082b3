/**
 * PHP's ordered arrays as far as array_merge needs them: a sequence of
 * key/value entries with integer or string keys.
 */
module PhpArrays {

  datatype Key = IntKey(i: int) | StrKey(s: string)

  /** Values are strings: the action links the filter receives are HTML snippets. */
  type PhpArray = seq<(Key, string)>

  /** A PHP array never holds a key twice. */
  predicate DistinctKeys(a: PhpArray) {
    forall i, j :: 0 <= i < j < |a| ==> a[i].0 != a[j].0
  }

  predicate HasKey(a: PhpArray, k: Key) {
    exists i :: 0 <= i < |a| && a[i].0 == k
  }

  predicate NoIntKeys(a: PhpArray) {
    forall i :: 0 <= i < |a| ==> a[i].0.StrKey?
  }

  /** The position of the first entry with key k, or -1. */
  function Find(a: PhpArray, k: Key): (r: int)
    ensures -1 <= r < |a|
    ensures r >= 0 ==> a[r].0 == k
    decreases |a|
  {
    if a == [] then -1
    else if a[0].0 == k then 0
    else
      var r := Find(a[1..], k);
      if r == -1 then -1 else r + 1
  }

  /** Find reports -1 exactly when the key is absent, and otherwise the first position holding it. */
  lemma {:induction false} FindIsFirst(a: PhpArray, k: Key)
    ensures Find(a, k) == -1 <==> !HasKey(a, k)
    ensures Find(a, k) >= 0 ==> forall j :: 0 <= j < Find(a, k) ==> a[j].0 != k
    decreases |a|
  {
    if a != [] && a[0].0 != k {
      FindIsFirst(a[1..], k);
      assert forall j :: 1 <= j < |a| ==> a[j] == a[1..][j - 1];
    }
  }

  /** The number of integer-keyed entries: array_merge's next free integer key. */
  function CountIntKeys(a: PhpArray): nat
    decreases |a|
  {
    if a == [] then 0 else (if a[0].0.IntKey? then 1 else 0) + CountIntKeys(a[1..])
  }

  /** array_merge adding one entry: an integer key is renumbered, a string key overwrites in place or is appended. */
  function Put(acc: PhpArray, e: (Key, string)): PhpArray {
    if e.0.IntKey? then acc + [(IntKey(CountIntKeys(acc)), e.1)]
    else
      var at := Find(acc, e.0);
      if at == -1 then acc + [e] else acc[at := e]
  }

  /** Adding the entries of one array, in order. */
  function Append(acc: PhpArray, es: PhpArray): PhpArray
    decreases |es|
  {
    if es == [] then acc else Append(Put(acc, es[0]), es[1..])
  }

  /** array_merge($a, $b) */
  function ArrayMerge(a: PhpArray, b: PhpArray): PhpArray {
    Append(Append([], a), b)
  }

  /** Integer keys replaced by n, n+1, ... in order; string-keyed entries kept. */
  function Renumber(es: PhpArray, n: nat): PhpArray
    decreases |es|
  {
    if es == [] then []
    else if es[0].0.IntKey? then [(IntKey(n), es[0].1)] + Renumber(es[1..], n + 1)
    else [es[0]] + Renumber(es[1..], n)
  }

  /** The value the last entry with key k in es gives, or d. */
  function LastValueFor(es: PhpArray, k: Key, d: string): string
    decreases |es|
  {
    if es == [] then d else LastValueFor(es[1..], k, if es[0].0 == k then es[0].1 else d)
  }

  /** The entry an integer-keyed entry becomes when it is given key n; string-keyed entries are kept. */
  function Renumbered(e: (Key, string), n: nat): (Key, string) {
    if e.0.IntKey? then (IntKey(n), e.1) else e
  }

  /** Adding an entry whose string key is new appends it, renumbered. */
  lemma PutFresh(acc: PhpArray, e: (Key, string))
    requires e.0.StrKey? ==> !HasKey(acc, e.0)
    ensures Put(acc, e) == acc + [Renumbered(e, CountIntKeys(acc))]
  {
    FindIsFirst(acc, e.0);
  }

  lemma AppendStep(acc: PhpArray, es: PhpArray)
    requires |es| > 0 && (es[0].0.StrKey? ==> !HasKey(acc, es[0].0))
    ensures Append(acc, es) == Append(acc + [Renumbered(es[0], CountIntKeys(acc))], es[1..])
  {
    PutFresh(acc, es[0]);
  }

  lemma RenumberStep(es: PhpArray, n: nat)
    requires |es| > 0
    ensures Renumber(es, n) == [Renumbered(es[0], n)] + Renumber(es[1..], if es[0].0.IntKey? then n + 1 else n)
  {
  }

  /** The string keys of a. */
  function StrKeys(a: PhpArray): set<string>
    decreases |a|
  {
    if a == [] then {} else (if a[0].0.StrKey? then {a[0].0.s} else {}) + StrKeys(a[1..])
  }

  /** Walking es from the left, no string key repeats one already used. */
  predicate FreshStrKeys(used: set<string>, es: PhpArray)
    decreases |es|
  {
    es == [] ||
    match es[0].0
    case IntKey(_) => FreshStrKeys(used, es[1..])
    case StrKey(k) => k !in used && FreshStrKeys(used + {k}, es[1..])
  }

  lemma {:induction false} StrKeysOfHasKey(a: PhpArray, k: string)
    requires HasKey(a, StrKey(k))
    ensures k in StrKeys(a)
    decreases |a|
  {
    if a[0].0 != StrKey(k) {
      var i :| 0 <= i < |a| && a[i].0 == StrKey(k);
      assert a[1..][i - 1] == a[i];
      StrKeysOfHasKey(a[1..], k);
    }
  }

  lemma {:induction false} StrKeysAppend(a: PhpArray, e: (Key, string))
    ensures StrKeys(a + [e]) == StrKeys(a) + (if e.0.StrKey? then {e.0.s} else {})
    decreases |a|
  {
    if a == [] {
      assert [] + [e] == [e];
    } else {
      assert (a + [e])[1..] == a[1..] + [e];
      StrKeysAppend(a[1..], e);
    }
  }

  /** The string keys used so far after one fresh entry. */
  lemma FreshAfterOne(acc: PhpArray, es: PhpArray)
    requires |es| > 0 && FreshStrKeys(StrKeys(acc), es)
    ensures FreshStrKeys(StrKeys(acc + [Renumbered(es[0], CountIntKeys(acc))]), es[1..])
  {
    var e' := Renumbered(es[0], CountIntKeys(acc));
    StrKeysAppend(acc, e');
    if es[0].0.StrKey? {
      assert StrKeys(acc + [e']) == StrKeys(acc) + {es[0].0.s};
    } else {
      assert StrKeys(acc + [e']) == StrKeys(acc);
    }
  }

  /** One step of merging a fresh entry, on both sides of the equation below. */
  lemma AppendFreshStep(acc: PhpArray, es: PhpArray)
    requires |es| > 0 && FreshStrKeys(StrKeys(acc), es)
    ensures var e' := Renumbered(es[0], CountIntKeys(acc));
      && Append(acc, es) == Append(acc + [e'], es[1..])
      && Renumber(es, CountIntKeys(acc)) == [e'] + Renumber(es[1..], CountIntKeys(acc + [e']))
  {
    var e' := Renumbered(es[0], CountIntKeys(acc));
    if es[0].0.StrKey? && HasKey(acc, es[0].0) {
      StrKeysOfHasKey(acc, es[0].0.s);
    }
    AppendStep(acc, es);
    CountIntKeysAppend(acc, e');
    RenumberStep(es, CountIntKeys(acc));
  }

  /** An array whose string keys are all new gains its entries at the end, integer keys renumbered. */
  lemma {:induction false} AppendFreshKeys(acc: PhpArray, es: PhpArray)
    requires FreshStrKeys(StrKeys(acc), es)
    ensures Append(acc, es) == acc + Renumber(es, CountIntKeys(acc))
    decreases |es|
  {
    if es == [] {
      assert acc + [] == acc;
    } else {
      var e' := Renumbered(es[0], CountIntKeys(acc));
      FreshAfterOne(acc, es);
      AppendFreshStep(acc, es);
      AppendFreshKeys(acc + [e'], es[1..]);
      var tail := Renumber(es[1..], CountIntKeys(acc + [e']));
      assert (acc + [e']) + tail == acc + ([e'] + tail);
    }
  }

  /** Distinct keys, none of them a used string key, walk fresh. */
  lemma {:induction false} DistinctKeysAreFresh(used: set<string>, es: PhpArray)
    requires DistinctKeys(es)
    requires forall i :: 0 <= i < |es| && es[i].0.StrKey? ==> es[i].0.s !in used
    ensures FreshStrKeys(used, es)
    decreases |es|
  {
    if es != [] {
      var rest := es[1..];
      var used' := if es[0].0.StrKey? then used + {es[0].0.s} else used;
      forall i, j | 0 <= i < j < |rest| ensures rest[i].0 != rest[j].0 {
        assert rest[i] == es[i + 1] && rest[j] == es[j + 1];
      }
      forall i | 0 <= i < |rest| && rest[i].0.StrKey? ensures rest[i].0.s !in used' {
        assert rest[i] == es[i + 1];
        assert es[0].0 != es[i + 1].0;
      }
      DistinctKeysAreFresh(used', rest);
    }
  }

  /** array_merge with a one-entry, string-keyed first array starts from that entry. */
  lemma MergeFromSingleEntry(e: (Key, string), es: PhpArray)
    requires e.0.StrKey?
    ensures ArrayMerge([e], es) == Append([e], es)
  {
    assert Put([], e) == [e];
    assert Append([], [e]) == Append([e], []);
  }

  lemma {:induction false} CountIntKeysAppend(a: PhpArray, e: (Key, string))
    ensures CountIntKeys(a + [e]) == CountIntKeys(a) + (if e.0.IntKey? then 1 else 0)
    decreases |a|
  {
    if a != [] {
      assert (a + [e])[1..] == a[1..] + [e];
      CountIntKeysAppend(a[1..], e);
    }
  }

  /** Renumbering leaves an array of string keys as it is. */
  lemma {:induction false} RenumberStringKeys(es: PhpArray, n: nat)
    requires NoIntKeys(es)
    ensures Renumber(es, n) == es
    decreases |es|
  {
    if es != [] {
      RenumberStringKeys(es[1..], n);
    }
  }

  /** Merging never moves the first entry: its key stays, its value is the last one es gives for that string key. */
  lemma {:induction false} AppendKeepsFirstEntry(acc: PhpArray, es: PhpArray)
    requires |acc| > 0 && acc[0].0.StrKey?
    ensures |Append(acc, es)| > 0
    ensures Append(acc, es)[0] == (acc[0].0, LastValueFor(es, acc[0].0, acc[0].1))
    decreases |es|
  {
    if es != [] {
      var acc' := Put(acc, es[0]);
      assert |acc'| > 0 && acc'[0] == (acc[0].0, if es[0].0 == acc[0].0 then es[0].1 else acc[0].1);
      AppendKeepsFirstEntry(acc', es[1..]);
    }
  }

  /** In an array with distinct keys, the last value for a present key is the value stored under it. */
  lemma {:induction false} LastValueOfDistinct(es: PhpArray, k: Key, d: string, i: nat)
    requires DistinctKeys(es) && i < |es| && es[i].0 == k
    ensures LastValueFor(es, k, d) == es[i].1
    decreases |es|
  {
    if i == 0 {
      LastValueAbsent(es[1..], k, es[0].1);
    } else {
      assert es[0].0 != k;
      assert es[1..][i - 1] == es[i];
      LastValueOfDistinct(es[1..], k, d, i - 1);
    }
  }

  lemma {:induction false} LastValueAbsent(es: PhpArray, k: Key, d: string)
    requires forall j :: 0 <= j < |es| ==> es[j].0 != k
    ensures LastValueFor(es, k, d) == d
    decreases |es|
  {
    if es != [] {
      LastValueAbsent(es[1..], k, d);
    }
  }

  /** Merging an array with fresh string keys behind one string-keyed entry: that entry, then the array renumbered. */
  lemma MergeFreshBehindEntry(e: (Key, string), es: PhpArray)
    requires e.0.StrKey? && FreshStrKeys({e.0.s}, es)
    ensures ArrayMerge([e], es) == [e] + Renumber(es, 0)
  {
    MergeFromSingleEntry(e, es);
    assert StrKeys([e]) == {e.0.s};
    assert CountIntKeys([e]) == 0;
    AppendFreshKeys([e], es);
  }
}
