/**
 Strings as the byte sequences the program orders, cuts and searches. A `char` stands for one
 unit of the string; order is lexicographic on units, as for Go strings.
 */
module Text {

  datatype Option<+T> = None | Some(value: T) {
    function GetOr(default: T): T {
      if Some? then value else default
    }
  }

  predicate Less(a: string, b: string) {
    b != [] && (a == [] || a[0] < b[0] || (a[0] == b[0] && Less(a[1..], b[1..])))
  }

  /** The texts agree up to k; there the first one ends, or has the smaller character. */
  ghost predicate DiffersAt(a: string, b: string, k: int) {
    0 <= k <= |a| && k < |b| && a[..k] == b[..k] && (k == |a| || a[k] < b[k])
  }

  lemma {:induction false} LessIffFirstDifference(a: string, b: string)
    ensures Less(a, b) <==> exists k :: DiffersAt(a, b, k)
  {
    if b != [] && a != [] && a[0] == b[0] {
      LessIffFirstDifference(a[1..], b[1..]);
      if k :| DiffersAt(a[1..], b[1..], k) {
        assert a == [a[0]] + a[1..] && b == [b[0]] + b[1..];
        assert a[..k + 1] == [a[0]] + a[1..][..k] && b[..k + 1] == [b[0]] + b[1..][..k];
        assert DiffersAt(a, b, k + 1);
      }
      if k :| DiffersAt(a, b, k) {
        assert a[1..][..k - 1] == a[..k][1..] && b[1..][..k - 1] == b[..k][1..];
        assert DiffersAt(a[1..], b[1..], k - 1);
      }
    } else {
      if k :| DiffersAt(a, b, k) {
        FirstAgree(a, b, k);
      }
      assert Less(a, b) ==> DiffersAt(a, b, 0);
    }
  }

  lemma FirstAgree(a: string, b: string, k: int)
    requires DiffersAt(a, b, k)
    ensures b != [] && (k == 0 || (a != [] && a[0] == b[0]))
  {
    if k > 0 {
      assert a[..k][0] == b[..k][0];
    }
  }

  predicate LessEq(a: string, b: string) {
    a == b || Less(a, b)
  }

  lemma {:induction false} LessIsTransitive(a: string, b: string, c: string)
    requires Less(a, b) && Less(b, c)
    ensures Less(a, c)
  {
    if a != [] && a[0] == b[0] && b[0] == c[0] {
      LessIsTransitive(a[1..], b[1..], c[1..]);
    }
  }

  lemma {:induction false} LessIsTotal(a: string, b: string)
    ensures a == b || Less(a, b) || Less(b, a)
  {
    if a != [] && b != [] && a[0] == b[0] {
      LessIsTotal(a[1..], b[1..]);
      assert a == [a[0]] + a[1..] && b == [b[0]] + b[1..];
    }
  }

  lemma {:induction false} LessIsAsymmetric(a: string, b: string)
    ensures !(Less(a, b) && Less(b, a))
    ensures !Less(a, a)
  {
    if a != [] && b != [] {
      LessIsAsymmetric(a[1..], b[1..]);
    }
    if a != [] {
      LessIsAsymmetric(a[1..], []);
    }
  }

  lemma ConcatIsAssociative(a: string, b: string, c: string)
    ensures a + b + c == a + (b + c)
  {
  }

  ghost predicate StrictlySorted(names: seq<string>) {
    forall i, j :: 0 <= i < j < |names| ==> Less(names[i], names[j])
  }

  lemma SortedAt(names: seq<string>, i: nat, j: nat)
    requires StrictlySorted(names) && i < j < |names|
    ensures Less(names[i], names[j])
  {
  }

  // ----- A set of keys in increasing order -----

  predicate IsMinimum(m: string, keys: set<string>) {
    m in keys && forall k :: k in keys ==> LessEq(m, k)
  }

  lemma MinimumIsUnique(keys: set<string>)
    ensures forall m, n :: IsMinimum(m, keys) && IsMinimum(n, keys) ==> m == n
  {
    forall m, n | IsMinimum(m, keys) && IsMinimum(n, keys)
      ensures m == n
    {
      LessIsAsymmetric(m, n);
    }
  }

  lemma {:induction false} MinimumExists(keys: set<string>) returns (m: string)
    requires keys != {}
    ensures IsMinimum(m, keys)
  {
    m :| m in keys;
    if keys != {m} {
      var rest := keys - {m};
      var n := MinimumExists(rest);
      LessIsTotal(m, n);
      if Less(n, m) {
        m := n;
      } else {
        forall k | k in keys
          ensures LessEq(m, k)
        {
          if k != m {
            assert k in rest;
            if k != n {
              LessIsTransitive(m, n, k);
            }
          }
        }
      }
    }
  }

  lemma MinimumExistsIn(keys: set<string>)
    requires keys != {}
    ensures exists m :: IsMinimum(m, keys)
  {
    var _ := MinimumExists(keys);
  }

  function SortedKeys(keys: set<string>): (sorted: seq<string>)
    ensures StrictlySorted(sorted)
    ensures forall k :: k in sorted <==> k in keys
  {
    if keys == {} then []
    else
      MinimumExistsIn(keys);
      MinimumIsUnique(keys);
      var m :| IsMinimum(m, keys);
      var rest := SortedKeys(keys - {m});
      assert forall k :: k in rest ==> Less(m, k);
      [m] + rest
  }

  // ----- First occurrences -----

  /** The elements of a list, each kept where it occurs first. */
  function FirstSeen<T(==)>(s: seq<T>): seq<T> {
    if s == [] then []
    else
      var init := FirstSeen(s[..|s| - 1]);
      if s[|s| - 1] in init then init else init + [s[|s| - 1]]
  }

  ghost predicate NoDuplicates<T>(s: seq<T>) {
    forall i, j :: 0 <= i < j < |s| ==> s[i] != s[j]
  }

  /** Position of the first occurrence. */
  function IndexOf<T(==)>(s: seq<T>, x: T): (i: nat)
    requires x in s
    ensures i < |s| && s[i] == x && x !in s[..i]
  {
    if s[0] == x then 0 else 1 + IndexOf(s[1..], x)
  }

  lemma {:induction false} IndexOfInPrefix<T>(s: seq<T>, n: nat, x: T)
    requires n <= |s| && x in s[..n]
    ensures IndexOf(s[..n], x) == IndexOf(s, x)
  {
    if s[0] != x {
      assert s[..n][1..] == s[1..][..n - 1];
      IndexOfInPrefix(s[1..], n - 1, x);
    }
  }

  lemma {:induction false} FirstSeenKeepsFirstOccurrences<T>(s: seq<T>)
    ensures NoDuplicates(FirstSeen(s))
    ensures forall x :: x in FirstSeen(s) ==> x in s
    ensures forall x :: x in s ==> x in FirstSeen(s)
    ensures forall i, j :: 0 <= i < j < |FirstSeen(s)| && FirstSeen(s)[i] in s && FirstSeen(s)[j] in s ==>
      IndexOf(s, FirstSeen(s)[i]) < IndexOf(s, FirstSeen(s)[j])
  {
    if s != [] {
      var n := |s| - 1;
      var front, last := s[..n], s[n];
      var kept := FirstSeen(front);
      FirstSeenKeepsFirstOccurrences(front);
      assert s == front + [last];
      forall i | 0 <= i < |kept|
        ensures kept[i] in front && IndexOf(s, kept[i]) == IndexOf(front, kept[i]) < n
      {
        assert kept[i] in kept;
        IndexOfInPrefix(s, n, kept[i]);
      }
      if last !in kept {
        assert last !in front;
        assert IndexOf(s, last) == n;
      }
    }
  }

  // ----- Cutting at a separator -----

  /** The text before the first separator. */
  function Before(s: string, sep: char): (r: string)
    ensures r <= s && sep !in r
    ensures r == s || s[|r|] == sep
  {
    if s == [] || s[0] == sep then [] else [s[0]] + Before(s[1..], sep)
  }

  lemma {:induction false} BeforeOf(s: string, below: string, sep: char)
    requires sep !in s
    requires below == [] || below[0] == sep
    ensures Before(s + below, sep) == s
  {
    if s != [] {
      BeforeOf(s[1..], below, sep);
      assert (s + below)[1..] == s[1..] + below;
    } else {
      assert s + below == below;
    }
  }

  // ----- Sorting by a key -----

  function Insert<T>(x: T, s: seq<T>, key: T -> string): seq<T> {
    if s == [] || !Less(key(s[0]), key(x)) then [x] + s else [s[0]] + Insert(x, s[1..], key)
  }

  /** A stable sort: elements with equal keys keep their order. */
  function SortBy<T>(s: seq<T>, key: T -> string): seq<T> {
    if s == [] then [] else Insert(s[0], SortBy(s[1..], key), key)
  }

  ghost predicate SortedBy<T>(s: seq<T>, key: T -> string) {
    forall i, j :: 0 <= i < j < |s| ==> LessEq(key(s[i]), key(s[j]))
  }

  lemma LessEqIsTransitive(a: string, b: string, c: string)
    requires LessEq(a, b) && LessEq(b, c)
    ensures LessEq(a, c)
  {
    if a != b && b != c {
      LessIsTransitive(a, b, c);
    }
  }

  lemma SortedCons<T>(x: T, s: seq<T>, key: T -> string)
    requires SortedBy(s, key)
    requires forall y :: y in s ==> LessEq(key(x), key(y))
    ensures SortedBy([x] + s, key)
  {
  }

  lemma {:induction false} InsertKeepsSorted<T>(x: T, s: seq<T>, key: T -> string)
    requires SortedBy(s, key)
    ensures SortedBy(Insert(x, s, key), key)
    ensures multiset(Insert(x, s, key)) == multiset(s) + multiset{x}
  {
    if s == [] {
      assert SortedBy([x], key);
    } else {
      var first, rest := s[0], s[1..];
      assert s == [first] + rest;
      LessIsTotal(key(first), key(x));
      if Less(key(first), key(x)) {
        InsertKeepsSorted(x, rest, key);
        var inserted := Insert(x, rest, key);
        forall y | y in inserted
          ensures LessEq(key(first), key(y))
        {
          assert y in multiset(inserted);
          assert y == x || y in rest;
        }
        SortedCons(first, inserted, key);
      } else {
        forall y | y in s
          ensures LessEq(key(x), key(y))
        {
          LessEqIsTransitive(key(x), key(first), key(y));
        }
        SortedCons(x, s, key);
      }
    }
  }

  lemma {:induction false} SortBySorts<T>(s: seq<T>, key: T -> string)
    ensures SortedBy(SortBy(s, key), key)
    ensures multiset(SortBy(s, key)) == multiset(s)
  {
    if s != [] {
      SortBySorts(s[1..], key);
      InsertKeepsSorted(s[0], SortBy(s[1..], key), key);
      assert s == [s[0]] + s[1..];
    }
  }

  lemma SortByKeepsMembers<T>(s: seq<T>, key: T -> string, x: T)
    ensures x in SortBy(s, key) <==> x in s
  {
    SortBySorts(s, key);
    assert x in SortBy(s, key) <==> x in multiset(SortBy(s, key));
  }

  ghost predicate DistinctBy<T>(s: seq<T>, key: T -> string) {
    forall i, j :: 0 <= i < j < |s| ==> key(s[i]) != key(s[j])
  }

  ghost predicate StrictlySortedBy<T>(s: seq<T>, key: T -> string) {
    forall i, j :: 0 <= i < j < |s| ==> Less(key(s[i]), key(s[j]))
  }

  lemma {:induction false} SortBySorted<T>(s: seq<T>, key: T -> string)
    requires StrictlySortedBy(s, key)
    ensures SortBy(s, key) == s
  {
    if s != [] {
      SortBySorted(s[1..], key);
      if |s| > 1 {
        LessIsAsymmetric(key(s[0]), key(s[1]));
      }
      assert s == [s[0]] + s[1..];
    }
  }

  ghost function KeyCount<T>(s: seq<T>, key: T -> string, k: string): nat {
    if s == [] then 0 else (if key(s[0]) == k then 1 else 0) + KeyCount(s[1..], key, k)
  }

  lemma {:induction false} KeyCountIsZeroIffAbsent<T>(s: seq<T>, key: T -> string, k: string)
    ensures KeyCount(s, key, k) == 0 <==> forall i :: 0 <= i < |s| ==> key(s[i]) != k
  {
    if s != [] {
      KeyCountIsZeroIffAbsent(s[1..], key, k);
      assert forall i :: 0 < i < |s| ==> s[i] == s[1..][i - 1];
    }
  }

  lemma DistinctUnfolds<T>(s: seq<T>, key: T -> string)
    requires s != []
    ensures DistinctBy(s, key) <==> DistinctBy(s[1..], key) && KeyCount(s[1..], key, key(s[0])) == 0
  {
    var first, rest := key(s[0]), s[1..];
    KeyCountIsZeroIffAbsent(rest, key, first);
    assert forall i :: 0 <= i < |rest| ==> rest[i] == s[i + 1];
    assert forall i :: 0 < i < |s| ==> s[i] == rest[i - 1];
  }

  lemma {:induction false} DistinctIffCountsAtMostOne<T>(s: seq<T>, key: T -> string)
    ensures DistinctBy(s, key) ==> forall k :: KeyCount(s, key, k) <= 1
    ensures (forall k :: KeyCount(s, key, k) <= 1) ==> DistinctBy(s, key)
  {
    if s != [] {
      var first, rest := key(s[0]), s[1..];
      DistinctIffCountsAtMostOne(rest, key);
      DistinctUnfolds(s, key);
      if forall k :: KeyCount(s, key, k) <= 1 {
        assert KeyCount(s, key, first) <= 1;
        forall k
          ensures KeyCount(rest, key, k) <= 1
        {
          assert KeyCount(s, key, k) <= 1;
        }
      }
    }
  }

  lemma {:induction false} InsertKeepsKeyCount<T>(x: T, s: seq<T>, key: T -> string, k: string)
    ensures KeyCount(Insert(x, s, key), key, k) == KeyCount(s, key, k) + if key(x) == k then 1 else 0
  {
    if s == [] || !Less(key(s[0]), key(x)) {
      assert ([x] + s)[1..] == s;
    } else {
      InsertKeepsKeyCount(x, s[1..], key, k);
      assert ([s[0]] + Insert(x, s[1..], key))[1..] == Insert(x, s[1..], key);
    }
  }

  lemma {:induction false} SortByKeepsKeyCount<T>(s: seq<T>, key: T -> string, k: string)
    ensures KeyCount(SortBy(s, key), key, k) == KeyCount(s, key, k)
  {
    if s != [] {
      SortByKeepsKeyCount(s[1..], key, k);
      InsertKeepsKeyCount(s[0], SortBy(s[1..], key), key, k);
    }
  }

  /** Sorting gives a strictly increasing list exactly if no key occurs twice. */
  lemma SortByIsStrictIffDistinct<T>(s: seq<T>, key: T -> string)
    ensures StrictlySortedBy(SortBy(s, key), key) <==> DistinctBy(s, key)
  {
    var sorted := SortBy(s, key);
    SortBySorts(s, key);
    DistinctIffCountsAtMostOne(s, key);
    DistinctIffCountsAtMostOne(sorted, key);
    forall k
      ensures KeyCount(sorted, key, k) == KeyCount(s, key, k)
    {
      SortByKeepsKeyCount(s, key, k);
    }
    if StrictlySortedBy(sorted, key) {
      forall i, j | 0 <= i < j < |sorted|
        ensures key(sorted[i]) != key(sorted[j])
      {
        LessIsAsymmetric(key(sorted[i]), key(sorted[j]));
      }
      forall k
        ensures KeyCount(s, key, k) <= 1
      {
        assert KeyCount(sorted, key, k) <= 1;
      }
    }
    if DistinctBy(s, key) {
      forall k
        ensures KeyCount(sorted, key, k) <= 1
      {
        assert KeyCount(s, key, k) <= 1;
      }
      assert DistinctBy(sorted, key);
    }
  }

  // ----- Replacing substrings -----

  /** Every non-overlapping occurrence of the pattern, from the left, replaced. */
  function ReplaceAll(s: string, pattern: string, replacement: string): string
    requires pattern != []
  {
    if s == [] then []
    else if pattern <= s then replacement + ReplaceAll(s[|pattern|..], pattern, replacement)
    else [s[0]] + ReplaceAll(s[1..], pattern, replacement)
  }

  lemma ReplaceHead(pattern: string, rest: string, replacement: string)
    requires pattern != []
    ensures ReplaceAll(pattern + rest, pattern, replacement) == replacement + ReplaceAll(rest, pattern, replacement)
  {
    assert (pattern + rest)[|pattern|..] == rest;
  }

  lemma ReplaceCopies(c: char, rest: string, pattern: string, replacement: string)
    requires pattern != []
    requires c != pattern[0] || (|pattern| > 1 && (rest == [] || rest[0] != pattern[1]))
    ensures ReplaceAll([c] + rest, pattern, replacement) == [c] + ReplaceAll(rest, pattern, replacement)
  {
    var s := [c] + rest;
    assert s[0] == c && s[1..] == rest;
  }
}
