/** Sequence operations the handlers are built from: the order-preserving
    filter behind `Array.prototype.filter` and `find(query)`, the first-match
    search behind `findOne`/`findById`, and removal of one position. */
module Seqs {
  import opened Base

  /** `r` can be obtained from `s` by deleting elements, keeping the order
      of the rest. */
  predicate Subseq<T(==)>(r: seq<T>, s: seq<T>)
    decreases |s|
  {
    if r == [] then true
    else if s == [] then false
    else if r[0] == s[0] then Subseq(r[1..], s[1..])
    else Subseq(r, s[1..])
  }

  /** The elements of `s` that satisfy `f`, in their order in `s` and with
      their multiplicities. */
  function Filter<T(==,!new)>(f: T -> bool, s: seq<T>): (r: seq<T>)
    ensures |r| <= |s|
    ensures forall x :: x in r <==> x in s && f(x)
    ensures forall x :: multiset(r)[x] == if f(x) then multiset(s)[x] else 0
    ensures Subseq(r, s)
  {
    if s == [] then []
    else
      var rest := Filter(f, s[1..]);
      assert s == [s[0]] + s[1..];
      if f(s[0]) then
        assert ([s[0]] + rest)[1..] == rest;
        [s[0]] + rest
      else
        assert rest != [] ==> rest[0] in rest && rest[0] != s[0];
        rest
  }

  /** Filtering distributes over concatenation: the filter keeps the order
      of the original sequence. */
  lemma {:induction false} FilterAppend<T(!new)>(f: T -> bool, a: seq<T>, b: seq<T>)
    ensures Filter(f, a + b) == Filter(f, a) + Filter(f, b)
  {
    if a == [] {
      assert a + b == b;
    } else {
      assert (a + b)[1..] == a[1..] + b;
      FilterAppend(f, a[1..], b);
    }
  }

  /** A filter that every element passes is the identity. */
  lemma {:induction false} FilterKeepsAll<T(!new)>(f: T -> bool, s: seq<T>)
    requires forall x :: x in s ==> f(x)
    ensures Filter(f, s) == s
  {
    if s != [] {
      FilterKeepsAll(f, s[1..]);
    }
  }

  /** The index of the first element of `s` satisfying `f`, if any. */
  function FirstIndex<T>(f: T -> bool, s: seq<T>): (r: Option<nat>)
    ensures r.Some? ==> r.value < |s| && f(s[r.value])
    ensures r.Some? ==> forall j :: 0 <= j < r.value ==> !f(s[j])
    ensures r.None? ==> forall j :: 0 <= j < |s| ==> !f(s[j])
  {
    if s == [] then None
    else if f(s[0]) then Some(0)
    else match FirstIndex(f, s[1..])
      case None => None
      case Some(i) => Some(i + 1)
  }

  /** `s` without its element at position `i`; everything else keeps its
      place relative to the others. */
  function RemoveAt<T>(s: seq<T>, i: nat): (r: seq<T>)
    requires i < |s|
    ensures |r| == |s| - 1
    ensures forall j :: 0 <= j < i ==> r[j] == s[j]
    ensures forall j :: i <= j < |r| ==> r[j] == s[j + 1]
  {
    s[..i] + s[i + 1..]
  }

  /** Every occurrence of `x` removed, the rest kept in order:
      `list.filter(y => y !== x)`. */
  function RemoveAll<T(==,!new)>(s: seq<T>, x: T): (r: seq<T>)
    ensures x !in r
    ensures forall y :: y != x ==> (y in r <==> y in s)
    ensures forall y :: y != x ==> multiset(r)[y] == multiset(s)[y]
    ensures Subseq(r, s)
  {
    Filter(y => y != x, s)
  }

  /** Removing every occurrence of `x` from a list that lacks it changes
      nothing, and removing from a list with `x` appended is removing from
      the list. */
  lemma RemoveAllAbsent<T(!new)>(s: seq<T>, x: T)
    requires x !in s
    ensures RemoveAll(s, x) == s
    ensures RemoveAll(s + [x], x) == s
  {
    FilterKeepsAll(y => y != x, s);
    FilterAppend(y => y != x, s, [x]);
    assert Filter(y => y != x, [x]) == [];
  }

  /** A non-empty list counts its head once more than its tail does. */
  lemma MultisetOfCons<T>(s: seq<T>)
    requires s != []
    ensures multiset(s) == multiset([s[0]]) + multiset(s[1..])
  {
    assert s == [s[0]] + s[1..];
  }

  /** No element occurs twice. */
  predicate NoDup<T(==)>(s: seq<T>) {
    forall i, j :: 0 <= i < j < |s| ==> s[i] != s[j]
  }

  /** A list has no duplicates exactly when it counts every element at most
      once. */
  lemma {:induction false} NoDupIffCountsAtMostOne<T>(s: seq<T>)
    ensures NoDup(s) <==> forall y :: multiset(s)[y] <= 1
  {
    if s != [] {
      var t := s[1..];
      NoDupIffCountsAtMostOne(t);
      MultisetOfCons(s);
      assert NoDup(s) <==> s[0] !in t && NoDup(t) by {
        if NoDup(s) {
          forall i, j | 0 <= i < j < |t| ensures t[i] != t[j] {
            assert t[i] == s[i + 1] && t[j] == s[j + 1];
          }
        }
        if s[0] !in t && NoDup(t) {
          forall i, j | 0 <= i < j < |s| ensures s[i] != s[j] {
            assert s[j] == t[j - 1];
            if i > 0 {
              assert s[i] == t[i - 1];
            }
          }
        }
      }
      if forall y :: multiset(s)[y] <= 1 {
        assert multiset(s)[s[0]] == 1 + multiset(t)[s[0]];
        forall y ensures multiset(t)[y] <= 1 {
          assert multiset(s)[y] >= multiset(t)[y];
        }
      }
    }
  }

  /** Removing every occurrence of an element keeps a list free of
      duplicates. */
  lemma RemoveAllKeepsNoDup<T(!new)>(s: seq<T>, x: T)
    requires NoDup(s)
    ensures NoDup(RemoveAll(s, x))
  {
    NoDupIffCountsAtMostOne(s);
    NoDupIffCountsAtMostOne(RemoveAll(s, x));
  }

  // ---- Distinct keys and key bounds, used by the store's invariant ----

  /** No two positions of `s` share a key. */
  ghost predicate KeysDistinct<T, K>(s: seq<T>, key: T -> K) {
    forall i, j :: 0 <= i < j < |s| ==> key(s[i]) != key(s[j])
  }

  /** Every key in `s` is below `bound`. */
  ghost predicate KeysBelow<T>(s: seq<T>, key: T -> nat, bound: nat) {
    forall i :: 0 <= i < |s| ==> key(s[i]) < bound
  }

  /** Appending an element whose key no element has keeps keys distinct. */
  lemma AppendKeepsDistinct<T, K>(s: seq<T>, key: T -> K, x: T)
    requires KeysDistinct(s, key)
    requires forall i :: 0 <= i < |s| ==> key(s[i]) != key(x)
    ensures KeysDistinct(s + [x], key)
  {
  }

  /** Removing a position keeps keys distinct. */
  lemma RemoveAtKeepsDistinct<T, K>(s: seq<T>, i: nat, key: T -> K)
    requires i < |s| && KeysDistinct(s, key)
    ensures KeysDistinct(RemoveAt(s, i), key)
  {
    var r := RemoveAt(s, i);
    forall a, b | 0 <= a < b < |r| ensures key(r[a]) != key(r[b]) {
      var a' := if a < i then a else a + 1;
      var b' := if b < i then b else b + 1;
      assert r[a] == s[a'] && r[b] == s[b'];
    }
  }

  /** Removing a position keeps keys distinct and bounded. */
  lemma RemoveAtKeepsKeys<T>(s: seq<T>, i: nat, key: T -> nat, bound: nat)
    requires i < |s|
    requires KeysDistinct(s, key) && KeysBelow(s, key, bound)
    ensures KeysDistinct(RemoveAt(s, i), key) && KeysBelow(RemoveAt(s, i), key, bound)
  {
    RemoveAtKeepsDistinct(s, i, key);
  }

  /** Replacing one element by one with the same key keeps keys distinct
      and bounded. */
  lemma UpdateKeepsKeys<T, K>(s: seq<T>, i: nat, x: T, key: T -> K)
    requires i < |s| && key(x) == key(s[i])
    requires KeysDistinct(s, key)
    ensures KeysDistinct(s[i := x], key)
  {
    var r := s[i := x];
    forall a, b | 0 <= a < b < |r| ensures key(r[a]) != key(r[b]) {
      assert key(r[a]) == key(s[a]) && key(r[b]) == key(s[b]);
    }
  }

  /** Filtering keeps keys distinct and bounded. */
  lemma {:induction false} FilterKeepsKeys<T(!new)>(f: T -> bool, s: seq<T>, key: T -> nat, bound: nat)
    requires KeysDistinct(s, key) && KeysBelow(s, key, bound)
    ensures KeysDistinct(Filter(f, s), key) && KeysBelow(Filter(f, s), key, bound)
  {
    var r := Filter(f, s);
    if s != [] {
      var t := s[1..];
      assert KeysDistinct(t, key) by {
        forall a, b | 0 <= a < b < |t| ensures key(t[a]) != key(t[b]) {
          assert t[a] == s[a + 1] && t[b] == s[b + 1];
        }
      }
      FilterKeepsKeys(f, t, key, bound);
      var rest := Filter(f, t);
      forall k | 0 <= k < |rest| ensures key(rest[k]) != key(s[0]) {
        assert rest[k] in t;
        var m :| 0 <= m < |t| && t[m] == rest[k];
        assert t[m] == s[m + 1];
      }
      forall k | 0 <= k < |r| ensures key(r[k]) < bound {
        assert r[k] in s;
      }
      if f(s[0]) {
        assert r == [s[0]] + rest;
        forall a, b | 0 <= a < b < |r| ensures key(r[a]) != key(r[b]) {
          if a == 0 {
            assert r[b] == rest[b - 1];
          } else {
            assert r[a] == rest[a - 1] && r[b] == rest[b - 1];
          }
        }
      }
    }
  }
}
