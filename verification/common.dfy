/** Types and limits the other modules share. */
module Common {
  datatype Option<+T> = None | Some(value: T)

  datatype Result<+T, +E> = Ok(value: T) | Err(error: E)

  type byte = b: int | 0 <= b < 256

  const U64_MAX: int := 0xFFFF_FFFF_FFFF_FFFF
  const I64_MAX: int := 0x7FFF_FFFF_FFFF_FFFF
  const I64_MIN: int := -0x8000_0000_0000_0000

  predicate IsU64(n: int) { 0 <= n <= U64_MAX }

  function Min(a: int, b: int): int {
    if a < b then a else b
  }

  lemma PrefixOfPrefix<T>(s: seq<T>, n: nat, i: nat)
    requires i < n <= |s|
    ensures s[..n][..i] == s[..i] && s[..n][i] == s[i]
  {
  }

  function Max(a: int, b: int): int {
    if a < b then b else a
  }

  lemma NextPrefix<T>(s: seq<T>, i: nat, next: nat)
    requires next == i + 1 <= |s|
    ensures s[..next] == s[..i] + [s[i]] && s[..next][..i] == s[..i]
  {
  }

  function First<T>(s: seq<T>, limit: nat): seq<T> { if |s| <= limit then s else s[..limit] }
}

/** Strict orders, strictly ascending sequences and insertion sort over one. */
module Ordering {

  ghost predicate StrictOrder<T(!new)>(less: (T, T) -> bool) {
    && (forall x :: !less(x, x))
    && (forall x, y, z :: less(x, y) && less(y, z) ==> less(x, z))
  }

  ghost predicate Total<T(!new)>(less: (T, T) -> bool) {
    forall x, y :: x != y ==> less(x, y) || less(y, x)
  }

  ghost predicate Ascending<T(!new)>(s: seq<T>, less: (T, T) -> bool) {
    forall i, j :: 0 <= i < j < |s| ==> less(s[i], s[j])
  }

  ghost predicate Distinct<T(!new)>(s: seq<T>) {
    forall i, j :: 0 <= i < j < |s| ==> s[i] != s[j]
  }

  /** A set has at most one strictly ascending enumeration. */
  lemma {:induction false} AscendingUnique<T(!new)>(s: seq<T>, t: seq<T>, less: (T, T) -> bool)
    requires StrictOrder(less) && Ascending(s, less) && Ascending(t, less)
    requires forall x :: x in s <==> x in t
    ensures s == t
  {
    assert |t| > 0 ==> t[0] in t;
    assert |s| > 0 ==> s[0] in s;
    if |s| > 0 && |t| > 0 {
      assert s[0] == t[0];
      forall x ensures x in s[1..] <==> x in t[1..] {
        if x in s[1..] { assert x in t && less(s[0], x); }
        if x in t[1..] { assert x in s && less(t[0], x); }
      }
      AscendingUnique(s[1..], t[1..], less);
    }
  }

  lemma AscendingDistinct<T(!new)>(s: seq<T>, less: (T, T) -> bool)
    requires StrictOrder(less) && Ascending(s, less)
    ensures Distinct(s)
  {
  }

  function Insert<T(!new)>(x: T, s: seq<T>, less: (T, T) -> bool): (r: seq<T>)
    ensures multiset(r) == multiset(s) + multiset{x}
    ensures |r| == |s| + 1
  {
    if s == [] then [x]
    else if less(x, s[0]) then [x] + s
    else
      assert s == [s[0]] + s[1..];
      [s[0]] + Insert(x, s[1..], less)
  }

  function Sort<T(!new)>(s: seq<T>, less: (T, T) -> bool): (r: seq<T>)
    ensures multiset(r) == multiset(s)
    ensures |r| == |s|
  {
    if s == [] then []
    else
      assert s == [s[0]] + s[1..];
      Insert(s[0], Sort(s[1..], less), less)
  }

  lemma InsertMembers<T(!new)>(x: T, s: seq<T>, less: (T, T) -> bool)
    ensures forall y :: y in Insert(x, s, less) <==> y in s || y == x
  {
    var r := Insert(x, s, less);
    forall y ensures y in r <==> y in s || y == x {
      assert y in r <==> y in multiset(r);
      assert y in s <==> y in multiset(s);
    }
  }

  lemma SortMembers<T(!new)>(s: seq<T>, less: (T, T) -> bool)
    ensures forall x :: x in Sort(s, less) <==> x in s
  {
    var r := Sort(s, less);
    forall x ensures x in r <==> x in s {
      assert x in r <==> x in multiset(r);
      assert x in s <==> x in multiset(s);
    }
  }

  lemma {:induction false} InsertAscending<T(!new)>(x: T, s: seq<T>, less: (T, T) -> bool)
    requires StrictOrder(less) && Ascending(s, less) && forall y :: y in s ==> less(x, y) || less(y, x)
    ensures Ascending(Insert(x, s, less), less)
  {
    if s != [] && !less(x, s[0]) {
      InsertAscending(x, s[1..], less);
      var r := Insert(x, s[1..], less);
      forall y | y in r ensures less(s[0], y) {
        assert y in multiset(r);
        assert y == x || y in multiset(s[1..]);
      }
    }
  }

  lemma {:induction false} SortAscending<T(!new)>(s: seq<T>, less: (T, T) -> bool)
    requires StrictOrder(less) && Total(less) && Distinct(s)
    ensures Ascending(Sort(s, less), less)
  {
    if s != [] {
      SortAscending(s[1..], less);
      SortMembers(s[1..], less);
      InsertAscending(s[0], Sort(s[1..], less), less);
    }
  }

  /** Orders with ties, as comparators by some of the fields give. */
  ghost predicate WeakOrder<T(!new)>(less: (T, T) -> bool) {
    && (forall x, y :: less(x, y) ==> !less(y, x))
    && (forall x, y, z :: !less(x, y) && !less(y, z) ==> !less(x, z))
  }

  /** No later element belongs before an earlier one. */
  ghost predicate InOrder<T(!new)>(s: seq<T>, less: (T, T) -> bool) {
    forall i, j :: 0 <= i < j < |s| ==> !less(s[j], s[i])
  }

  lemma {:induction false} InsertInOrder<T(!new)>(x: T, s: seq<T>, less: (T, T) -> bool)
    requires WeakOrder(less) && InOrder(s, less)
    ensures InOrder(Insert(x, s, less), less)
  {
    if s != [] && !less(x, s[0]) {
      InsertInOrder(x, s[1..], less);
      var r := Insert(x, s[1..], less);
      forall y | y in r ensures !less(y, s[0]) {
        assert y in multiset(r);
        assert y == x || y in multiset(s[1..]);
      }
    }
  }

  lemma {:induction false} SortInOrder<T(!new)>(s: seq<T>, less: (T, T) -> bool)
    requires WeakOrder(less)
    ensures InOrder(Sort(s, less), less)
  {
    if s != [] {
      SortInOrder(s[1..], less);
      InsertInOrder(s[0], Sort(s[1..], less), less);
    }
  }

  lemma {:induction false} InsertDistinct<T(!new)>(x: T, s: seq<T>, less: (T, T) -> bool)
    requires Distinct(s) && x !in s
    ensures Distinct(Insert(x, s, less))
  {
    if s != [] && !less(x, s[0]) {
      InsertDistinct(x, s[1..], less);
      var r := Insert(x, s[1..], less);
      forall y | y in r ensures y != s[0] {
        assert y in multiset(r);
        assert y == x || y in multiset(s[1..]);
      }
      assert forall k :: 0 <= k < |r| ==> r[k] in r;
    }
  }

  lemma {:induction false} SortDistinct<T(!new)>(s: seq<T>, less: (T, T) -> bool)
    requires Distinct(s)
    ensures Distinct(Sort(s, less))
  {
    if s != [] {
      SortDistinct(s[1..], less);
      SortMembers(s[1..], less);
      InsertDistinct(s[0], Sort(s[1..], less), less);
    }
  }

  /** A sequence already ascending is its own sort. */
  lemma SortIdentity<T(!new)>(s: seq<T>, less: (T, T) -> bool)
    requires StrictOrder(less) && Total(less) && Ascending(s, less)
    ensures Sort(s, less) == s
  {
    AscendingDistinct(s, less);
    SortAscending(s, less);
    SortMembers(s, less);
    AscendingUnique(Sort(s, less), s, less);
  }

  // ─── Selecting from a sequence ─────────────────────────────────────────────

  function Filter<T(!new)>(s: seq<T>, keep: T -> bool): (r: seq<T>)
    ensures forall x :: x in r <==> x in s && keep(x)
  {
    if s == [] then []
    else
      assert forall x :: x in s <==> x == s[0] || x in s[1..];
      (if keep(s[0]) then [s[0]] else []) + Filter(s[1..], keep)
  }

  lemma {:induction false} FilterConcat<T(!new)>(s: seq<T>, t: seq<T>, keep: T -> bool)
    ensures Filter(s + t, keep) == Filter(s, keep) + Filter(t, keep)
  {
    if s == [] {
      assert s + t == t;
    } else {
      assert (s + t)[0] == s[0] && (s + t)[1..] == s[1..] + t;
      FilterConcat(s[1..], t, keep);
    }
  }

  lemma FilterNext<T(!new)>(s: seq<T>, i: nat, next: nat, keep: T -> bool)
    requires next == i + 1 <= |s|
    ensures Filter(s[..next], keep) == Filter(s[..i], keep) + if keep(s[i]) then [s[i]] else []
  {
    assert s[..next] == s[..i] + [s[i]];
    FilterConcat(s[..i], [s[i]], keep);
  }

  lemma FilterOfPrefix<T(!new)>(s: seq<T>, n: nat, keep: T -> bool)
    requires n <= |s|
    ensures forall x :: x in Filter(s[..n], keep) ==> x in Filter(s, keep)
  {
  }

  lemma {:induction false} FilterAscending<T(!new)>(s: seq<T>, keep: T -> bool, less: (T, T) -> bool)
    requires Ascending(s, less)
    ensures Ascending(Filter(s, keep), less)
  {
    if s != [] {
      FilterAscending(s[1..], keep, less);
      forall x | x in Filter(s[1..], keep) ensures less(s[0], x) {
        var k :| 0 <= k < |s[1..]| && s[1..][k] == x;
      }
    }
  }

  /** The two selections agree when they pick the same elements. */
  lemma FiltersAgree<T(!new)>(s: seq<T>, t: seq<T>, p: T -> bool, q: T -> bool, less: (T, T) -> bool)
    requires StrictOrder(less) && Ascending(s, less) && Ascending(t, less)
    requires forall x :: x in s && p(x) <==> x in t && q(x)
    ensures Filter(s, p) == Filter(t, q)
  {
    FilterAscending(s, p, less);
    FilterAscending(t, q, less);
    AscendingUnique(Filter(s, p), Filter(t, q), less);
  }

  /** Lexicographic order on strings: how JavaScript compares them and how the index stores them. */
  predicate Before(a: string, b: string) {
    |b| > 0 && (|a| == 0 || a[0] < b[0] || (a[0] == b[0] && Before(a[1..], b[1..])))
  }

  lemma {:induction false} BeforeIrreflexive(a: string)
    ensures !Before(a, a)
  {
    if |a| > 0 { BeforeIrreflexive(a[1..]); }
  }

  lemma {:induction false} BeforeTransitive(a: string, b: string, c: string)
    requires Before(a, b) && Before(b, c)
    ensures Before(a, c)
  {
    if |a| > 0 && a[0] == b[0] && b[0] == c[0] {
      BeforeTransitive(a[1..], b[1..], c[1..]);
    }
  }

  lemma {:induction false} BeforeTotal(a: string, b: string)
    requires a != b
    ensures Before(a, b) || Before(b, a)
  {
    if |a| > 0 && |b| > 0 && a[0] == b[0] {
      assert a == [a[0]] + a[1..] && b == [b[0]] + b[1..];
      BeforeTotal(a[1..], b[1..]);
    }
  }

  function Longest(names: seq<string>): (r: nat)
    ensures forall name :: name in names ==> |name| <= r
  {
    if names == [] then 0
    else
      var rest := Longest(names[1..]);
      assert forall name :: name in names ==> name == names[0] || name in names[1..];
      if |names[0]| > rest then |names[0]| else rest
  }

  /** Without the least character, as every encoded signature is. */
  predicate Plain(s: string) { forall i :: 0 <= i < |s| ==> s[i] > '\0' }

  function LeastOf(n: nat): (r: string)
    ensures |r| == n
  {
    seq(n, _ => '\0')
  }

  /** A string that is none of these and lies right behind `name`. */
  function FreshAfter(name: string, names: seq<string>): (r: string)
    ensures r !in names
  {
    name + LeastOf(Longest(names) + 1)
  }

  lemma {:induction false} AfterName(name: string, n: nat, other: string)
    requires n >= 1
    ensures Before(name, name + LeastOf(n))
    ensures Before(name, other) && Plain(other) ==> Before(name + LeastOf(n), other)
  {
    var r := name + LeastOf(n);
    if name == "" {
      assert r[0] == '\0';
    } else {
      assert r[0] == name[0] && r[1..] == name[1..] + LeastOf(n);
      AfterName(name[1..], n, if other == "" then "" else other[1..]);
    }
  }

  lemma BeforeIsOrder()
    ensures StrictOrder(Before) && Total(Before)
  {
    forall a ensures !Before(a, a) { BeforeIrreflexive(a); }
    forall a, b, c | Before(a, b) && Before(b, c) ensures Before(a, c) { BeforeTransitive(a, b, c); }
    forall a, b | a != b ensures Before(a, b) || Before(b, a) { BeforeTotal(a, b); }
  }
}
