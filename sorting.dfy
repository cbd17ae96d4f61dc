/**
 * Python's `list.sort(key=...)`: a stable ascending sort.  It is modelled
 * on positions: the positions of a list are ordered by their key and,
 * among equal keys, by the position itself, which is exactly what
 * stability promises.
 */
module Sorting {
  import opened Strings

  /** A sort key: a string (code, name) or a number (progress, update time). */
  datatype Key = Text(s: string) | Number(n: int)

  /** Python's `<` on keys of one kind; the two kinds never meet in one sort. */
  predicate KeyLess(a: Key, b: Key) {
    match a
    case Text(x) => (match b case Text(y) => LexLess(x, y) case Number(_) => true)
    case Number(x) => (match b case Text(_) => false case Number(y) => x < y)
  }

  predicate InRange(bound: nat, s: seq<nat>) {
    forall k :: 0 <= k < |s| ==> s[k] < bound
  }

  predicate Distinct<T(==)>(s: seq<T>) {
    forall i, j :: 0 <= i < j < |s| ==> s[i] != s[j]
  }

  /** Position `p` goes before position `q`: a smaller key, or the same key and an earlier position. */
  predicate Before(keys: seq<Key>, p: nat, q: nat)
    requires p < |keys| && q < |keys|
  {
    KeyLess(keys[p], keys[q]) || (keys[p] == keys[q] && p < q)
  }

  /** Every position of `s` goes before every later one. */
  predicate Sorted(keys: seq<Key>, s: seq<nat>)
    requires InRange(|keys|, s)
  {
    forall i, j :: 0 <= i < j < |s| ==> Before(keys, s[i], s[j])
  }

  /** Inserts position `x` into the sorted positions `s`. */
  function Insert(keys: seq<Key>, x: nat, s: seq<nat>): (r: seq<nat>)
    requires x < |keys| && InRange(|keys|, s) && Sorted(keys, s) && x !in s
    ensures InRange(|keys|, r) && Sorted(keys, r)
    ensures multiset(r) == multiset(s) + multiset{x}
  {
    if s == [] then [x]
    else if Before(keys, x, s[0]) then
      assert forall j :: 0 <= j < |s| ==> Before(keys, x, s[j]) by {
        forall j | 0 < j < |s| ensures Before(keys, x, s[j]) {
          BeforeTransitive(keys, x, s[0], s[j]);
        }
      }
      SortedCons(keys, x, s);
      [x] + s
    else
      var rest := Insert(keys, x, s[1..]);
      InsertBehind(keys, x, s, rest);
      [s[0]] + rest
  }

  /** When `x` goes behind the head of `s`, the head followed by `x` inserted into the tail is sorted. */
  lemma InsertBehind(keys: seq<Key>, x: nat, s: seq<nat>, rest: seq<nat>)
    requires x < |keys| && InRange(|keys|, s) && Sorted(keys, s) && s != [] && !Before(keys, x, s[0]) && x != s[0]
    requires InRange(|keys|, rest) && Sorted(keys, rest) && multiset(rest) == multiset(s[1..]) + multiset{x}
    ensures InRange(|keys|, [s[0]] + rest) && Sorted(keys, [s[0]] + rest)
    ensures multiset([s[0]] + rest) == multiset(s) + multiset{x}
  {
    BeforeTotal(keys, x, s[0]);
    assert s == [s[0]] + s[1..];
    AfterInsert(keys, s[0], x, s[1..], rest);
    SortedCons(keys, s[0], rest);
  }

  /** A position that goes before all of the sorted `t` can be put in front of it. */
  lemma SortedCons(keys: seq<Key>, a: nat, t: seq<nat>)
    requires a < |keys| && InRange(|keys|, t) && Sorted(keys, t)
    requires forall j :: 0 <= j < |t| ==> Before(keys, a, t[j])
    ensures InRange(|keys|, [a] + t) && Sorted(keys, [a] + t)
  {
    var u := [a] + t;
    forall i, j | 0 <= i < j < |u| ensures Before(keys, u[i], u[j]) {
      assert u[j] == t[j - 1];
      if i > 0 {
        assert u[i] == t[i - 1];
      }
    }
  }

  /** A position that goes before `x` and before all of `t` goes before all of `t` with `x` inserted. */
  lemma AfterInsert(keys: seq<Key>, a: nat, x: nat, t: seq<nat>, rest: seq<nat>)
    requires a < |keys| && x < |keys| && InRange(|keys|, t) && InRange(|keys|, rest)
    requires Before(keys, a, x) && forall j :: 0 <= j < |t| ==> Before(keys, a, t[j])
    requires multiset(rest) == multiset(t) + multiset{x}
    ensures forall j :: 0 <= j < |rest| ==> Before(keys, a, rest[j])
  {
    forall j | 0 <= j < |rest| ensures Before(keys, a, rest[j]) {
      assert rest[j] in multiset(rest);
      if rest[j] != x {
        assert rest[j] in multiset(t);
        var i :| 0 <= i < |t| && t[i] == rest[j];
      }
    }
  }

  /** `sort` of the positions `ps` by their keys: an insertion sort. */
  function StableSort(keys: seq<Key>, ps: seq<nat>): (r: seq<nat>)
    requires InRange(|keys|, ps) && Distinct(ps)
    ensures InRange(|keys|, r) && Sorted(keys, r)
    ensures multiset(r) == multiset(ps)
  {
    if ps == [] then []
    else
      var rest := StableSort(keys, ps[1..]);
      assert ps == [ps[0]] + ps[1..];
      assert ps[0] !in multiset(ps[1..]);
      Insert(keys, ps[0], rest)
  }

  /** `list(range(n))`. */
  function Range(n: nat): (r: seq<nat>)
    ensures |r| == n && InRange(n, r) && Distinct(r)
  {
    seq(n, i requires 0 <= i < n => i)
  }

  /** The elements of `s` at the positions `idx`, in that order. */
  function Pick<T>(s: seq<T>, idx: seq<nat>): (r: seq<T>)
    requires InRange(|s|, idx)
    ensures |r| == |idx|
  {
    seq(|idx|, k requires 0 <= k < |idx| => s[idx[k]])
  }

  /** `list.reverse()`. */
  function Reversed<T>(s: seq<T>): (r: seq<T>)
    ensures |r| == |s|
  {
    seq(|s|, k requires 0 <= k < |s| => s[|s| - 1 - k])
  }

  // ---------------------------------------------------------------------
  // Keys and positions are strictly totally ordered

  lemma KeyIrreflexive(a: Key)
    ensures !KeyLess(a, a)
  {
    if a.Text? { LexIrreflexive(a.s); }
  }

  lemma KeyTransitive(a: Key, b: Key, c: Key)
    requires KeyLess(a, b) && KeyLess(b, c)
    ensures KeyLess(a, c)
  {
    if a.Text? && b.Text? && c.Text? { LexTransitive(a.s, b.s, c.s); }
  }

  lemma KeyTotal(a: Key, b: Key)
    requires a != b
    ensures KeyLess(a, b) || KeyLess(b, a)
  {
    if a.Text? && b.Text? { LexTotal(a.s, b.s); }
  }

  lemma KeyAsymmetric(a: Key, b: Key)
    requires KeyLess(a, b)
    ensures !KeyLess(b, a)
  {
    if KeyLess(b, a) {
      KeyTransitive(a, b, a);
      KeyIrreflexive(a);
    }
  }

  lemma BeforeTransitive(keys: seq<Key>, p: nat, q: nat, r: nat)
    requires p < |keys| && q < |keys| && r < |keys|
    requires Before(keys, p, q) && Before(keys, q, r)
    ensures Before(keys, p, r)
  {
    if KeyLess(keys[p], keys[q]) && KeyLess(keys[q], keys[r]) {
      KeyTransitive(keys[p], keys[q], keys[r]);
    }
  }

  lemma BeforeTotal(keys: seq<Key>, p: nat, q: nat)
    requires p < |keys| && q < |keys| && p != q
    ensures Before(keys, p, q) || Before(keys, q, p)
  {
    if keys[p] != keys[q] { KeyTotal(keys[p], keys[q]); }
  }

  lemma BeforeIrreflexive(keys: seq<Key>, p: nat)
    requires p < |keys|
    ensures !Before(keys, p, p)
  {
    KeyIrreflexive(keys[p]);
  }

  // ---------------------------------------------------------------------
  // What the sort guarantees

  /**
   * The sorted positions are the input positions rearranged, in ascending
   * key order, and positions with equal keys keep their relative order.
   */
  lemma StableSortOrders(keys: seq<Key>, ps: seq<nat>)
    requires InRange(|keys|, ps) && Distinct(ps)
    ensures var r := StableSort(keys, ps);
      && |r| == |ps| && Distinct(r)
      && (forall x :: x in r <==> x in ps)
      && (forall i, j :: 0 <= i < j < |r| ==> !KeyLess(keys[r[j]], keys[r[i]]))
      && (forall i, j :: 0 <= i < j < |r| && keys[r[i]] == keys[r[j]] ==> r[i] < r[j])
  {
    var r := StableSort(keys, ps);
    assert |r| == |multiset(r)| == |multiset(ps)| == |ps|;
    forall x ensures x in r <==> x in ps {
      assert x in r <==> x in multiset(r);
      assert x in ps <==> x in multiset(ps);
    }
    forall i, j | 0 <= i < j < |r|
      ensures r[i] != r[j] && !KeyLess(keys[r[j]], keys[r[i]])
    {
      assert Before(keys, r[i], r[j]);
      BeforeIrreflexive(keys, r[i]);
      if KeyLess(keys[r[i]], keys[r[j]]) {
        KeyAsymmetric(keys[r[i]], keys[r[j]]);
      } else {
        KeyIrreflexive(keys[r[i]]);
      }
    }
    forall i, j | 0 <= i < j < |r| && keys[r[i]] == keys[r[j]] ensures r[i] < r[j] {
      assert Before(keys, r[i], r[j]);
      KeyIrreflexive(keys[r[i]]);
    }
  }

  // ---------------------------------------------------------------------
  // Positions, picks and reversal

  lemma RangeMembers(n: nat)
    ensures forall i: nat :: i in Range(n) <==> i < n
    ensures forall i, j :: 0 <= i < j < n ==> Range(n)[i] < Range(n)[j]
  {
    forall i: nat | i < n ensures i in Range(n) {
      assert Range(n)[i] == i;
    }
  }

  /** Picking distinct positions of a sequence without repeats gives no repeats. */
  lemma PickDistinct<T>(s: seq<T>, idx: seq<nat>)
    requires InRange(|s|, idx) && Distinct(s) && Distinct(idx)
    ensures Distinct(Pick(s, idx))
  {
    forall a, b | 0 <= a < b < |idx| ensures Pick(s, idx)[a] != Pick(s, idx)[b] {
      assert idx[a] != idx[b];
    }
  }

  /** Picking every position of `s`, in any order, keeps exactly the elements of `s`. */
  lemma PickMembers<T>(s: seq<T>, idx: seq<nat>)
    requires InRange(|s|, idx)
    requires forall p: nat :: p in idx <==> p < |s|
    ensures forall x :: x in Pick(s, idx) <==> x in s
  {
    forall x | x in s ensures x in Pick(s, idx) {
      var p :| 0 <= p < |s| && s[p] == x;
      assert p in idx;
      var k :| 0 <= k < |idx| && idx[k] == p;
      assert Pick(s, idx)[k] == x;
    }
  }

  /** Reversal keeps the elements and the absence of repeats. */
  lemma ReversedRearranges<T>(s: seq<T>)
    ensures forall x :: x in Reversed(s) <==> x in s
    ensures Distinct(s) ==> Distinct(Reversed(s))
  {
    var r := Reversed(s);
    forall x | x in s ensures x in r {
      var k :| 0 <= k < |s| && s[k] == x;
      assert r[|s| - 1 - k] == x;
    }
    if Distinct(s) {
      forall a, b | 0 <= a < b < |r| ensures r[a] != r[b] {
        assert r[a] == s[|s| - 1 - a] && r[b] == s[|s| - 1 - b];
      }
    }
  }

  lemma PickAppend<T>(s: seq<T>, idx: seq<nat>, p: nat)
    requires InRange(|s|, idx) && p < |s|
    ensures InRange(|s|, idx + [p]) && Pick(s, idx + [p]) == Pick(s, idx) + [s[p]]
  {
  }
}
