/** Python's comparison of strings and of tuples (lexicographic), and `list.sort` by a key. */
module Ordering {

  ghost predicate Irreflexive<T(!new)>(lt: (T, T) -> bool) {
    forall x :: !lt(x, x)
  }

  ghost predicate Transitive<T(!new)>(lt: (T, T) -> bool) {
    forall x, y, z :: lt(x, y) && lt(y, z) ==> lt(x, z)
  }

  ghost predicate Trichotomous<T(!new)>(lt: (T, T) -> bool) {
    forall x, y :: x == y || lt(x, y) || lt(y, x)
  }

  ghost predicate StrictTotalOrder<T(!new)>(lt: (T, T) -> bool) {
    Irreflexive(lt) && Transitive(lt) && Trichotomous(lt)
  }

  /** Lexicographic order: the first differing position decides, and a proper prefix is smaller. */
  function LexLt<T(==)>(a: seq<T>, b: seq<T>, lt: (T, T) -> bool): bool
    decreases |a|
  {
    if |b| == 0 then false
    else if |a| == 0 then true
    else lt(a[0], b[0]) || (a[0] == b[0] && LexLt(a[1..], b[1..], lt))
  }

  lemma {:induction false} LexIrreflexive<T(!new)>(a: seq<T>, lt: (T, T) -> bool)
    requires Irreflexive(lt)
    ensures !LexLt(a, a, lt)
    decreases |a|
  {
    if |a| > 0 {
      LexIrreflexive(a[1..], lt);
    }
  }

  lemma {:induction false} LexTransitive<T(!new)>(a: seq<T>, b: seq<T>, c: seq<T>, lt: (T, T) -> bool)
    requires Transitive(lt)
    requires LexLt(a, b, lt) && LexLt(b, c, lt)
    ensures LexLt(a, c, lt)
    decreases |a|
  {
    if |a| > 0 && a[0] == b[0] && b[0] == c[0] && LexLt(a[1..], b[1..], lt) && LexLt(b[1..], c[1..], lt) {
      LexTransitive(a[1..], b[1..], c[1..], lt);
    }
  }

  lemma {:induction false} LexTrichotomous<T(!new)>(a: seq<T>, b: seq<T>, lt: (T, T) -> bool)
    requires Trichotomous(lt)
    ensures a == b || LexLt(a, b, lt) || LexLt(b, a, lt)
    decreases |a|
  {
    if |a| > 0 && |b| > 0 && a[0] == b[0] {
      LexTrichotomous(a[1..], b[1..], lt);
      if a[1..] == b[1..] {
        assert a == [a[0]] + a[1..] && b == [b[0]] + b[1..];
      }
    }
  }

  /** Lexicographic extension of a strict total order is again one. */
  lemma LexStrictTotal<T(!new)>(lt: (T, T) -> bool)
    requires StrictTotalOrder(lt)
    ensures forall a: seq<T> :: !LexLt(a, a, lt)
    ensures forall a: seq<T>, b: seq<T>, c: seq<T> :: LexLt(a, b, lt) && LexLt(b, c, lt) ==> LexLt(a, c, lt)
    ensures forall a: seq<T>, b: seq<T> :: a == b || LexLt(a, b, lt) || LexLt(b, a, lt)
  {
    forall a: seq<T> ensures !LexLt(a, a, lt) {
      LexIrreflexive(a, lt);
    }
    forall a: seq<T>, b: seq<T>, c: seq<T> | LexLt(a, b, lt) && LexLt(b, c, lt) ensures LexLt(a, c, lt) {
      LexTransitive(a, b, c, lt);
    }
    forall a: seq<T>, b: seq<T> ensures a == b || LexLt(a, b, lt) || LexLt(b, a, lt) {
      LexTrichotomous(a, b, lt);
    }
  }

  /** Characters compare by code point, as in Python. */
  function CharLt(x: char, y: char): bool {
    x < y
  }

  /** Python's `<` on `str`. */
  function StrLt(a: string, b: string): bool {
    LexLt(a, b, CharLt)
  }

  /** Python's `<` on a tuple of strings. */
  function TupleLt(a: seq<string>, b: seq<string>): bool {
    LexLt(a, b, StrLt)
  }

  lemma StrLtIsStrictTotal()
    ensures StrictTotalOrder(StrLt)
  {
    LexStrictTotal(CharLt);
  }

  lemma TupleLtIsStrictTotal()
    ensures StrictTotalOrder(TupleLt)
  {
    StrLtIsStrictTotal();
    LexStrictTotal(StrLt);
  }

  /** `s` is in strictly increasing order of `key`. */
  ghost predicate SortedBy<T, K>(s: seq<T>, key: T -> K, lt: (K, K) -> bool) {
    forall i, j :: 0 <= i < j < |s| ==> lt(key(s[i]), key(s[j]))
  }

  /** No two elements of `s` share a key. */
  ghost predicate DistinctKeys<T, K>(s: seq<T>, key: T -> K) {
    forall i, j :: 0 <= i < j < |s| ==> key(s[i]) != key(s[j])
  }

  /** Prepending an element below every element keeps a sequence sorted. */
  lemma ConsSorted<T, K>(y: T, s: seq<T>, key: T -> K, lt: (K, K) -> bool)
    requires SortedBy(s, key, lt)
    requires forall z :: z in s ==> lt(key(y), key(z))
    ensures SortedBy([y] + s, key, lt)
  {
    var t := [y] + s;
    forall i, j | 0 <= i < j < |t| ensures lt(key(t[i]), key(t[j])) {
      assert t[j] == s[j - 1];
      if i > 0 {
        assert t[i] == s[i - 1];
      } else {
        assert s[j - 1] in s;
      }
    }
  }

  lemma SortedTail<T, K>(s: seq<T>, key: T -> K, lt: (K, K) -> bool)
    requires |s| > 0 && SortedBy(s, key, lt)
    ensures SortedBy(s[1..], key, lt)
  {
    forall i, j | 0 <= i < j < |s[1..]| ensures lt(key(s[1..][i]), key(s[1..][j])) {
      assert s[1..][i] == s[i + 1] && s[1..][j] == s[j + 1];
    }
  }

  lemma DistinctTail<T, K>(s: seq<T>, key: T -> K)
    requires |s| > 0 && DistinctKeys(s, key)
    ensures DistinctKeys(s[1..], key)
  {
    forall i, j | 0 <= i < j < |s[1..]| ensures key(s[1..][i]) != key(s[1..][j]) {
      assert s[1..][i] == s[i + 1] && s[1..][j] == s[j + 1];
    }
  }

  /** An element below the head of a sorted sequence is below all of it. */
  lemma BelowHead<T, K(!new)>(x: T, s: seq<T>, key: T -> K, lt: (K, K) -> bool)
    requires StrictTotalOrder(lt) && SortedBy(s, key, lt)
    requires |s| > 0 && lt(key(x), key(s[0]))
    ensures forall z :: z in s ==> lt(key(x), key(z))
  {
    forall z | z in s ensures lt(key(x), key(z)) {
      var j :| 0 <= j < |s| && s[j] == z;
      if j > 0 {
        assert lt(key(s[0]), key(s[j]));
      }
    }
  }

  /** The head of a sorted sequence is below everything in its tail with `x` added, when it is below `x`. */
  lemma HeadBelowRest<T, K>(x: T, s: seq<T>, rest: seq<T>, key: T -> K, lt: (K, K) -> bool)
    requires |s| > 0 && SortedBy(s, key, lt)
    requires lt(key(s[0]), key(x))
    requires multiset(rest) == multiset(s[1..]) + multiset{x}
    ensures forall z :: z in rest ==> lt(key(s[0]), key(z))
  {
    forall z | z in rest ensures lt(key(s[0]), key(z)) {
      assert z in multiset(rest);
      if z != x {
        assert z in multiset(s[1..]);
        var j :| 0 <= j < |s[1..]| && s[1..][j] == z;
        assert s[j + 1] == z;
      }
    }
  }

  /** With distinct keys, no element of a permutation of the tail shares the head's key. */
  lemma HeadKeyFresh<T, K>(s: seq<T>, rest: seq<T>, key: T -> K)
    requires |s| > 0 && DistinctKeys(s, key)
    requires multiset(rest) == multiset(s[1..])
    ensures forall y :: y in rest ==> key(y) != key(s[0])
    ensures multiset(rest) + multiset{s[0]} == multiset(s)
  {
    forall y | y in rest ensures key(y) != key(s[0]) {
      assert y in multiset(s[1..]);
      var j :| 0 <= j < |s[1..]| && s[1..][j] == y;
      assert s[j + 1] == y;
    }
    assert s == [s[0]] + s[1..];
  }

  /** Insert `x` into the sorted sequence `s`. */
  function Insert<T(!new), K(!new)>(x: T, s: seq<T>, key: T -> K, lt: (K, K) -> bool): (r: seq<T>)
    requires StrictTotalOrder(lt)
    requires SortedBy(s, key, lt)
    requires forall y :: y in s ==> key(y) != key(x)
    ensures SortedBy(r, key, lt)
    ensures multiset(r) == multiset(s) + multiset{x}
  {
    if |s| == 0 then [x]
    else if lt(key(x), key(s[0])) then
      BelowHead(x, s, key, lt);
      ConsSorted(x, s, key, lt);
      [x] + s
    else
      assert s == [s[0]] + s[1..];
      assert s[0] in s;
      assert key(s[0]) != key(x);
      assert lt(key(s[0]), key(x));
      SortedTail(s, key, lt);
      var rest := Insert(x, s[1..], key, lt);
      HeadBelowRest(x, s, rest, key, lt);
      ConsSorted(s[0], rest, key, lt);
      [s[0]] + rest
  }

  /** `list.sort(key=...)` for a list whose keys are pairwise distinct (the sorted permutation
      is then unique, so stability plays no part). */
  function Sort<T(!new), K(!new)>(s: seq<T>, key: T -> K, lt: (K, K) -> bool): (r: seq<T>)
    requires StrictTotalOrder(lt)
    requires DistinctKeys(s, key)
    ensures SortedBy(r, key, lt)
    ensures multiset(r) == multiset(s)
  {
    if |s| == 0 then []
    else
      DistinctTail(s, key);
      var rest := Sort(s[1..], key, lt);
      HeadKeyFresh(s, rest, key);
      Insert(s[0], rest, key, lt)
  }

  /** Strictly sorted sequences with the same elements are equal. */
  lemma {:induction false} SortedUnique<T, K(!new)>(a: seq<T>, b: seq<T>, key: T -> K, lt: (K, K) -> bool)
    requires StrictTotalOrder(lt)
    requires SortedBy(a, key, lt) && SortedBy(b, key, lt)
    requires forall x :: x in a <==> x in b
    ensures a == b
    decreases |a|
  {
    if |a| > 0 {
      assert a[0] in a;
    }
    if |b| > 0 {
      assert b[0] in b;
    }
    if |a| > 0 && |b| > 0 {
      if a[0] != b[0] {
        assert false;
      }
      forall x ensures x in a[1..] <==> x in b[1..] {
        if x in a[1..] {
          var i :| 1 <= i < |a| && a[i] == x;
          assert lt(key(a[0]), key(x));
          assert x != b[0];
          assert x in a;
          var k :| 0 <= k < |b| && b[k] == x;
          assert b[1..][k - 1] == x;
        }
        if x in b[1..] {
          var j :| 1 <= j < |b| && b[j] == x;
          assert lt(key(b[0]), key(x));
          assert x != a[0];
          assert x in b;
          var k :| 0 <= k < |a| && a[k] == x;
          assert a[1..][k - 1] == x;
        }
      }
      SortedUnique(a[1..], b[1..], key, lt);
      assert a == [a[0]] + a[1..] && b == [b[0]] + b[1..];
    }
  }
}
