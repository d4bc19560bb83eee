/** Small value-level helpers shared by the model: optional values, Python's
    string ordering, '.'-join / split, and Python's stable `sorted(..., key=...)`. */
module Text {

  datatype Option<+T> = None | Some(value: T)

  datatype Result<+T, +E> = Ok(value: T) | Err(error: E)

  // ---------------------------------------------------------------------------
  // Python's `<` on str: lexicographic by code point, a proper prefix is smaller.

  predicate StrLt(a: string, b: string)
    decreases |a|
  {
    if |b| == 0 then false
    else if |a| == 0 then true
    else if a[0] != b[0] then a[0] < b[0]
    else StrLt(a[1..], b[1..])
  }

  predicate StrLe(a: string, b: string) {
    a == b || StrLt(a, b)
  }

  lemma {:induction false} StrLtIrreflexive(a: string)
    ensures !StrLt(a, a)
    decreases |a|
  {
    if |a| > 0 { StrLtIrreflexive(a[1..]); }
  }

  lemma {:induction false} StrLtTransitive(a: string, b: string, c: string)
    requires StrLt(a, b) && StrLt(b, c)
    ensures StrLt(a, c)
    decreases |a|
  {
    if |a| > 0 && a[0] == b[0] && b[0] == c[0] {
      StrLtTransitive(a[1..], b[1..], c[1..]);
    }
  }

  lemma {:induction false} StrLtTotal(a: string, b: string)
    requires a != b
    ensures StrLt(a, b) || StrLt(b, a)
    decreases |a|
  {
    if |a| > 0 && |b| > 0 && a[0] == b[0] {
      assert a == [a[0]] + a[1..] && b == [b[0]] + b[1..];
      StrLtTotal(a[1..], b[1..]);
    }
  }

  lemma StrLtAsymmetric(a: string, b: string)
    requires StrLt(a, b)
    ensures !StrLt(b, a)
  {
    if StrLt(b, a) {
      StrLtTransitive(a, b, a);
      StrLtIrreflexive(a);
    }
  }

  lemma StrLeTransitive(a: string, b: string, c: string)
    requires StrLe(a, b) && StrLe(b, c)
    ensures StrLe(a, c)
  {
    if a != b && b != c { StrLtTransitive(a, b, c); }
  }

  lemma StrLeTotal(a: string, b: string)
    ensures StrLe(a, b) || StrLe(b, a)
  {
    if a != b { StrLtTotal(a, b); }
  }

  lemma StrLeAntisymmetric(a: string, b: string)
    requires StrLe(a, b) && StrLe(b, a)
    ensures a == b
  {
    if a != b { StrLtAsymmetric(a, b); }
  }

  // ---------------------------------------------------------------------------
  // Python's `sep.join(parts)`, and `s.split(sep)` for a one-character separator.

  lemma Assoc<T>(a: seq<T>, b: seq<T>, c: seq<T>)
    ensures (a + b) + c == a + (b + c)
  {
  }

  function Join(parts: seq<string>, sep: string): string
  {
    if |parts| == 0 then ""
    else if |parts| == 1 then parts[0]
    else parts[0] + sep + Join(parts[1..], sep)
  }

  /** `s.split(sep)`: never empty; "" splits into [""]. */
  function Split(s: string, sep: char): (r: seq<string>)
    ensures |r| >= 1
    decreases |s|
  {
    if |s| == 0 then [""]
    else
      var rest := Split(s[1..], sep);
      if s[0] == sep then [""] + rest
      else [[s[0]] + rest[0]] + rest[1..]
  }

  predicate NoSep(parts: seq<string>, sep: char) {
    forall i :: 0 <= i < |parts| ==> sep !in parts[i]
  }

  lemma {:induction false} SplitPlain(w: string, sep: char, tail: string)
    requires sep !in w
    ensures Split(w + tail, sep) == [w + Split(tail, sep)[0]] + Split(tail, sep)[1..]
    decreases |w|
  {
    if |w| > 0 {
      assert (w + tail)[1..] == w[1..] + tail;
      SplitPlain(w[1..], sep, tail);
      assert [w[0]] + (w[1..] + Split(tail, sep)[0]) == w + Split(tail, sep)[0];
    } else {
      var r := Split(tail, sep);
      assert w + tail == tail;
      assert r == [r[0]] + r[1..];
      assert w + r[0] == r[0];
    }
  }

  /** Splitting what was joined gives the parts back, provided there is at
      least one part and no part contains the separator. */
  lemma {:induction false} SplitJoin(parts: seq<string>, sep: char)
    requires |parts| >= 1 && NoSep(parts, sep)
    ensures Split(Join(parts, [sep]), sep) == parts
    decreases |parts|
  {
    if |parts| == 1 {
      assert parts[0] + "" == parts[0];
      SplitPlain(parts[0], sep, "");
      assert Split("", sep) == [""];
      assert Split(parts[0], sep) == [parts[0] + ""] + [""][1..];
      assert parts == [parts[0]];
    } else {
      var rest := Join(parts[1..], [sep]);
      SplitJoin(parts[1..], sep);
      SplitPlain(parts[0], sep, [sep] + rest);
      assert ([sep] + rest)[0] == sep && ([sep] + rest)[1..] == rest;
      assert Split([sep] + rest, sep) == [""] + parts[1..];
      assert Join(parts, [sep]) == parts[0] + ([sep] + rest);
      assert Split(Join(parts, [sep]), sep) == [parts[0] + ""] + parts[1..];
      assert parts[0] + "" == parts[0];
      assert (parts[0] + [sep] + rest) == parts[0] + ([sep] + rest);
      assert ([sep] + rest)[1..] == rest;
      assert parts == [parts[0]] + parts[1..];
    }
  }

  // ---------------------------------------------------------------------------
  // Python's `sorted(xs, key=k)` for string keys: an insertion sort, stable
  // like Python's (SortByStable).

  predicate SortedBy<T>(s: seq<T>, key: T -> string) {
    forall i, j :: 0 <= i < j < |s| ==> StrLe(key(s[i]), key(s[j]))
  }

  predicate DistinctKeys<T>(s: seq<T>, key: T -> string) {
    forall i, j :: 0 <= i < j < |s| ==> key(s[i]) != key(s[j])
  }

  /** Insert x before the first element whose key is not smaller, so x comes
      ahead of the elements whose key equals its own. */
  function Insert<T>(x: T, s: seq<T>, key: T -> string): (r: seq<T>)
    ensures multiset(r) == multiset(s) + multiset{x}
    ensures |r| == |s| + 1
  {
    if |s| == 0 then [x]
    else if StrLe(key(x), key(s[0])) then [x] + s
    else
      assert s == [s[0]] + s[1..];
      [s[0]] + Insert(x, s[1..], key)
  }

  function SortBy<T>(s: seq<T>, key: T -> string): (r: seq<T>)
    ensures multiset(r) == multiset(s)
    ensures |r| == |s|
  {
    if |s| == 0 then []
    else
      assert s == [s[0]] + s[1..];
      Insert(s[0], SortBy(s[1..], key), key)
  }

  lemma {:induction false} InsertSorted<T>(x: T, s: seq<T>, key: T -> string)
    requires SortedBy(s, key)
    ensures SortedBy(Insert(x, s, key), key)
    decreases |s|
  {
    if |s| > 0 {
      if StrLe(key(x), key(s[0])) {
        var r := [x] + s;
        forall i, j | 0 <= i < j < |r| ensures StrLe(key(r[i]), key(r[j])) {
          if i == 0 && j > 1 { StrLeTransitive(key(x), key(s[0]), key(s[j - 1])); }
        }
      } else {
        InsertSorted(x, s[1..], key);
        var t := Insert(x, s[1..], key);
        var r := [s[0]] + t;
        StrLeTotal(key(x), key(s[0]));
        forall i, j | 0 <= i < j < |r| ensures StrLe(key(r[i]), key(r[j])) {
          if i == 0 {
            assert r[j] in multiset(t);
            assert r[j] == x || r[j] in multiset(s[1..]);
            if r[j] != x {
              var k :| 0 <= k < |s[1..]| && s[1..][k] == r[j];
              assert s[k + 1] == r[j];
            }
          }
        }
      }
    }
  }

  lemma {:induction false} SortBySorted<T>(s: seq<T>, key: T -> string)
    ensures SortedBy(SortBy(s, key), key)
    decreases |s|
  {
    if |s| > 0 {
      SortBySorted(s[1..], key);
      InsertSorted(s[0], SortBy(s[1..], key), key);
    }
  }

  /** The elements of `s` whose key is `k`, in their order in `s`. */
  function KeyRun<T>(s: seq<T>, key: T -> string, k: string): seq<T>
  {
    if |s| == 0 then []
    else (if key(s[0]) == k then [s[0]] else []) + KeyRun(s[1..], key, k)
  }

  lemma KeyRunCons<T>(a: T, t: seq<T>, key: T -> string, k: string)
    ensures KeyRun([a] + t, key, k) == (if key(a) == k then [a] else []) + KeyRun(t, key, k)
  {
    assert ([a] + t)[0] == a && ([a] + t)[1..] == t;
  }

  /** An element whose key differs from x's can be put in front of both
      sides of a run equation for x. */
  lemma KeyRunSkip<T>(a: T, x: T, t: seq<T>, rest: seq<T>, key: T -> string, k: string)
    requires key(a) != key(x)
    requires KeyRun(t, key, k) == (if key(x) == k then [x] else []) + KeyRun(rest, key, k)
    ensures KeyRun([a] + t, key, k) == (if key(x) == k then [x] else []) + KeyRun([a] + rest, key, k)
  {
    KeyRunCons(a, t, key, k);
    KeyRunCons(a, rest, key, k);
    if key(a) == k {
      Assoc([a], [], KeyRun(rest, key, k));
    }
  }

  /** Inserting x puts it ahead of every element with its own key and leaves
      the other keys' runs alone. */
  lemma {:induction false} InsertKeyRun<T>(x: T, s: seq<T>, key: T -> string, k: string)
    ensures KeyRun(Insert(x, s, key), key, k)
         == (if key(x) == k then [x] else []) + KeyRun(s, key, k)
    decreases |s|
  {
    if |s| == 0 || StrLe(key(x), key(s[0])) {
      assert Insert(x, s, key) == [x] + s;
      KeyRunCons(x, s, key, k);
    } else {
      assert Insert(x, s, key) == [s[0]] + Insert(x, s[1..], key);
      InsertKeyRun(x, s[1..], key, k);
      KeyRunSkip(s[0], x, Insert(x, s[1..], key), s[1..], key, k);
      assert s == [s[0]] + s[1..];
    }
  }

  /** The sort is stable: for every key, the elements with that key come out
      in the order they went in, as with Python's `sorted`. */
  lemma {:induction false} SortByStable<T>(s: seq<T>, key: T -> string, k: string)
    ensures KeyRun(SortBy(s, key), key, k) == KeyRun(s, key, k)
    decreases |s|
  {
    if |s| > 0 {
      SortByStable(s[1..], key, k);
      InsertKeyRun(s[0], SortBy(s[1..], key), key, k);
    }
  }

  /** Two sequences sorted by key, without repeated keys and holding the same
      elements, are the same sequence: the sorted order is unique. */
  lemma {:induction false} SortedUnique<T>(a: seq<T>, b: seq<T>, key: T -> string)
    requires SortedBy(a, key) && SortedBy(b, key)
    requires DistinctKeys(a, key)
    requires multiset(a) == multiset(b)
    ensures a == b
    decreases |a|
  {
    assert |a| == |multiset(a)| == |multiset(b)| == |b|;
    if |a| > 0 {
      SortedHeads(a, b, key);
      MultisetTail(a, b);
      assert SortedBy(a[1..], key) && SortedBy(b[1..], key) && DistinctKeys(a[1..], key) by {
        TailSorted(a, key);
        TailSorted(b, key);
        TailDistinct(a, key);
      }
      SortedUnique(a[1..], b[1..], key);
      assert a == [a[0]] + a[1..] && b == [b[0]] + b[1..];
    }
  }

  /** Two sorted sequences holding the same elements, the first without
      repeated keys, start with the same element. */
  lemma SortedHeads<T>(a: seq<T>, b: seq<T>, key: T -> string)
    requires SortedBy(a, key) && SortedBy(b, key)
    requires DistinctKeys(a, key)
    requires multiset(a) == multiset(b) && |a| > 0 && |b| > 0
    ensures a[0] == b[0]
  {
    assert a[0] in multiset(b);
    var i :| 0 <= i < |b| && b[i] == a[0];
    assert b[0] in multiset(a);
    var j :| 0 <= j < |a| && a[j] == b[0];
    assert StrLe(key(b[0]), key(b[i]));
    assert StrLe(key(a[0]), key(a[j]));
    StrLeAntisymmetric(key(a[0]), key(b[0]));
  }

  lemma MultisetTail<T>(a: seq<T>, b: seq<T>)
    requires |a| > 0 && |b| > 0 && a[0] == b[0] && multiset(a) == multiset(b)
    ensures multiset(a[1..]) == multiset(b[1..])
  {
    assert a == [a[0]] + a[1..];
    assert b == [b[0]] + b[1..];
    assert multiset(a) == multiset{a[0]} + multiset(a[1..]);
    assert multiset(b) == multiset{a[0]} + multiset(b[1..]);
    assert multiset(a[1..]) == multiset(a) - multiset{a[0]};
    assert multiset(b[1..]) == multiset(b) - multiset{a[0]};
  }

  lemma TailSorted<T>(a: seq<T>, key: T -> string)
    requires SortedBy(a, key) && |a| > 0
    ensures SortedBy(a[1..], key)
  {
    forall i, j | 0 <= i < j < |a[1..]| ensures StrLe(key(a[1..][i]), key(a[1..][j])) {
      assert a[1..][i] == a[i + 1] && a[1..][j] == a[j + 1];
    }
  }

  lemma TailDistinct<T>(a: seq<T>, key: T -> string)
    requires DistinctKeys(a, key) && |a| > 0
    ensures DistinctKeys(a[1..], key)
  {
    forall i, j | 0 <= i < j < |a[1..]| ensures key(a[1..][i]) != key(a[1..][j]) {
      assert a[1..][i] == a[i + 1] && a[1..][j] == a[j + 1];
    }
  }

  /** In a sequence without repeated keys, each element occurs exactly once. */
  lemma DistinctKeysOnce<T>(a: seq<T>, p: nat, key: T -> string)
    requires DistinctKeys(a, key) && p < |a|
    ensures multiset(a)[a[p]] == 1
  {
    assert a == a[..p] + [a[p]] + a[p + 1..];
    forall k | 0 <= k < |a| && k != p ensures a[k] != a[p] {
      if k < p { assert key(a[k]) != key(a[p]); } else { assert key(a[p]) != key(a[k]); }
    }
    assert a[p] !in a[..p];
    assert a[p] !in a[p + 1..];
  }

  lemma TwiceInMultiset<T>(b: seq<T>, i: nat, j: nat)
    requires i < j < |b| && b[i] == b[j]
    ensures multiset(b)[b[i]] >= 2
  {
    assert b == b[..i] + [b[i]] + b[i + 1..j] + [b[j]] + b[j + 1..];
  }

  lemma DistinctKeysPermutation<T>(a: seq<T>, b: seq<T>, key: T -> string)
    requires DistinctKeys(a, key) && multiset(a) == multiset(b)
    ensures DistinctKeys(b, key)
  {
    forall i, j | 0 <= i < j < |b| ensures key(b[i]) != key(b[j]) {
      assert b[i] in multiset(a) && b[j] in multiset(a);
      var p :| 0 <= p < |a| && a[p] == b[i];
      var q :| 0 <= q < |a| && a[q] == b[j];
      if key(b[i]) == key(b[j]) {
        assert p == q;
        DistinctKeysOnce(a, p, key);
        TwiceInMultiset(b, i, j);
        assert false;
      }
    }
  }

  /** Sorting does not depend on the order the elements arrive in, when keys
      are not repeated: Python's `sorted` over two orderings of one dict's items. */
  lemma SortByOrderIndependent<T>(a: seq<T>, b: seq<T>, key: T -> string)
    requires DistinctKeys(a, key)
    requires multiset(a) == multiset(b)
    ensures SortBy(a, key) == SortBy(b, key)
  {
    SortBySorted(a, key);
    SortBySorted(b, key);
    DistinctKeysPermutation(a, SortBy(a, key), key);
    SortedUnique(SortBy(a, key), SortBy(b, key), key);
  }

  // ---------------------------------------------------------------------------
  // Strictly increasing string sequences are determined by their elements.

  predicate StrictlySorted(s: seq<string>) {
    forall i, j :: 0 <= i < j < |s| ==> StrLt(s[i], s[j])
  }

  /** Every element before the last of a strictly sorted sequence is below it. */
  lemma StrictlySortedLast(s: seq<string>, init: seq<string>)
    requires StrictlySorted(s) && |s| > 0 && init == s[..|s| - 1]
    ensures StrictlySorted(init)
    ensures forall k :: k in init ==> StrLt(k, s[|s| - 1])
  {
    forall k | k in init ensures StrLt(k, s[|s| - 1]) {
      var j :| 0 <= j < |init| && init[j] == k;
      assert s[j] == k;
    }
  }

  /** Appending an element above all others keeps a sequence strictly sorted. */
  lemma StrictlySortedSnoc(s: seq<string>, x: string)
    requires StrictlySorted(s) && forall k :: k in s ==> StrLt(k, x)
    ensures StrictlySorted(s + [x])
  {
    forall i, j | 0 <= i < j < |s + [x]| ensures StrLt((s + [x])[i], (s + [x])[j]) {
      if j == |s| {
        assert (s + [x])[i] == s[i] && s[i] in s;
      } else {
        assert (s + [x])[i] == s[i] && (s + [x])[j] == s[j];
      }
    }
  }

  lemma HeadIn<T>(s: seq<T>)
    ensures |s| > 0 ==> s[0] in s
  {
  }

  lemma {:induction false} StrictlySortedUnique(a: seq<string>, b: seq<string>)
    requires StrictlySorted(a) && StrictlySorted(b)
    requires forall x :: x in a <==> x in b
    ensures a == b
    decreases |a|
  {
    if |a| == 0 {
      HeadIn(b);
    } else {
      assert a[0] in b;
      assert |b| > 0;
      var k :| 0 <= k < |b| && b[k] == a[0];
      assert b[0] in a;
      var m :| 0 <= m < |a| && a[m] == b[0];
      if k > 0 && m > 0 {
        assert StrLt(b[0], a[0]) && StrLt(a[0], b[0]);
        StrLtAsymmetric(a[0], b[0]);
      }
      assert a[0] == b[0];
      assert a == [a[0]] + a[1..] && b == [b[0]] + b[1..];
      forall x ensures x in a[1..] <==> x in b[1..] {
        if x in a[1..] {
          var i :| 0 <= i < |a[1..]| && a[1..][i] == x;
          assert StrLt(a[0], a[i + 1]);
          StrLtIrreflexive(x);
          assert x != b[0] && x in b;
        }
        if x in b[1..] {
          var i :| 0 <= i < |b[1..]| && b[1..][i] == x;
          assert StrLt(b[0], b[i + 1]);
          StrLtIrreflexive(x);
          assert x != a[0] && x in a;
        }
      }
      StrictlySortedUnique(a[1..], b[1..]);
      assert a == [a[0]] + a[1..] && b == [b[0]] + b[1..];
    }
  }

  lemma SortedDistinctIsStrict(s: seq<string>)
    requires SortedBy(s, (x: string) => x) && DistinctKeys(s, (x: string) => x)
    ensures StrictlySorted(s)
  {
  }
}
