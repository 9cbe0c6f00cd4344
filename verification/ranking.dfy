/**
 * Stable descending sort by a two-level integer key: the ordering every ranking in the
 * source uses (`array.sort((a, b) => b.x !== a.x ? b.x - a.x : b.y - a.y)`). JavaScript's
 * `Array.prototype.sort` is stable, so elements with equal keys keep their input order;
 * the model is an insertion sort with that property.
 */
module Ranking {
  import opened Seqs

  /** A sort key compared lexicographically: `primary` first, then `secondary`. */
  datatype Key = Key(primary: int, secondary: int)

  /** `a` may precede `b` in a descending order. */
  predicate KeyGe(a: Key, b: Key) {
    a.primary > b.primary || (a.primary == b.primary && a.secondary >= b.secondary)
  }

  /** `a` must precede `b` in a descending order. */
  predicate KeyGt(a: Key, b: Key) {
    a.primary > b.primary || (a.primary == b.primary && a.secondary > b.secondary)
  }

  /** Every earlier element has a key at least that of every later one. */
  predicate SortedDesc<T>(s: seq<T>, key: T -> Key) {
    forall i, j :: 0 <= i < j < |s| ==> KeyGe(key(s[i]), key(s[j]))
  }

  /** Places `x` in front of the first element whose key it reaches. */
  function Insert<T>(x: T, s: seq<T>, key: T -> Key): (r: seq<T>)
    requires SortedDesc(s, key)
    ensures SortedDesc(r, key)
    ensures multiset(r) == multiset(s) + multiset{x}
    ensures forall k :: 0 <= k < |r| ==> r[k] == x || r[k] in s
    decreases |s|
  {
    if |s| == 0 || KeyGe(key(x), key(s[0])) then
      [x] + s
    else
      assert s == [s[0]] + s[1..];
      var rest := Insert(x, s[1..], key);
      assert forall y | y in s[1..] :: KeyGe(key(s[0]), key(y));
      assert forall k :: 0 <= k < |rest| ==> KeyGe(key(s[0]), key(rest[k]));
      [s[0]] + rest
  }

  /** The stable descending sort: each element goes in front of the later elements it ties with. */
  function SortDesc<T>(s: seq<T>, key: T -> Key): (r: seq<T>)
    ensures SortedDesc(r, key)
    ensures multiset(r) == multiset(s)
    ensures |r| == |s|
    decreases |s|
  {
    if |s| == 0 then []
    else
      assert s == [s[0]] + s[1..];
      Insert(s[0], SortDesc(s[1..], key), key)
  }

  /** The elements of `s` whose key is `k`, in their order in `s`. */
  function Ties<T>(s: seq<T>, key: T -> Key, k: Key): seq<T>
    decreases |s|
  {
    if |s| == 0 then []
    else (if key(s[0]) == k then [s[0]] else []) + Ties(s[1..], key, k)
  }

  /** Inserting `x` leaves the elements that tie with `x` in their order, with `x` first. */
  lemma {:induction false} InsertKeepsTies<T>(x: T, s: seq<T>, key: T -> Key, k: Key)
    requires SortedDesc(s, key)
    ensures Ties(Insert(x, s, key), key, k) == (if key(x) == k then [x] else []) + Ties(s, key, k)
    decreases |s|
  {
    if |s| == 0 || KeyGe(key(x), key(s[0])) {
      assert ([x] + s)[1..] == s;
    } else {
      var rest := Insert(x, s[1..], key);
      assert Insert(x, s, key) == [s[0]] + rest;
      assert ([s[0]] + rest)[1..] == rest;
      InsertKeepsTies(x, s[1..], key, k);
    }
  }

  /** Stability: among elements with any one key value, the sort keeps the input order. */
  lemma {:induction false} SortIsStable<T>(s: seq<T>, key: T -> Key, k: Key)
    ensures Ties(SortDesc(s, key), key, k) == Ties(s, key, k)
    decreases |s|
  {
    if |s| > 0 {
      SortIsStable(s[1..], key, k);
      InsertKeepsTies(s[0], SortDesc(s[1..], key), key, k);
    }
  }

  /** Where `Insert` puts `x`: straight after the elements whose key is strictly greater. */
  lemma {:induction false} InsertPosition<T>(x: T, s: seq<T>, key: T -> Key) returns (p: nat)
    requires SortedDesc(s, key)
    ensures p <= |s|
    ensures Insert(x, s, key) == s[..p] + [x] + s[p..]
    ensures forall m :: 0 <= m < p ==> KeyGt(key(s[m]), key(x))
    decreases |s|
  {
    if |s| == 0 || KeyGe(key(x), key(s[0])) {
      p := 0;
    } else {
      var q := InsertPosition(x, s[1..], key);
      p := q + 1;
      assert s[..p] == [s[0]] + s[1..][..q];
      assert s[p..] == s[1..][q..];
    }
  }

  /** Elements of `r` that tie on the key appear in `r` in the order they occupy in `s`. */
  predicate KeepsTieOrder<T(==)>(r: seq<T>, s: seq<T>, key: T -> Key) {
    forall i, j :: 0 <= i < j < |r| && key(r[i]) == key(r[j]) ==> FirstIndex(s, r[i]) < FirstIndex(s, r[j])
  }

  /** Putting a new first element in front of everything it ties with keeps the tie order. */
  lemma InsertKeepsTieOrder<T>(x: T, tail: seq<T>, sortedTail: seq<T>, key: T -> Key, p: nat)
    requires KeepsTieOrder(sortedTail, tail, key)
    requires x !in tail
    requires forall m :: 0 <= m < |sortedTail| ==> sortedTail[m] in tail
    requires p <= |sortedTail|
    requires forall m :: 0 <= m < p ==> KeyGt(key(sortedTail[m]), key(x))
    ensures KeepsTieOrder(sortedTail[..p] + [x] + sortedTail[p..], [x] + tail, key)
  {
    var s := [x] + tail;
    var r := sortedTail[..p] + [x] + sortedTail[p..];
    assert s[1..] == tail;
    forall y | y in tail ensures FirstIndex(s, y) == 1 + FirstIndex(tail, y) {
    }
    forall i, j | 0 <= i < j < |r| && key(r[i]) == key(r[j]) ensures FirstIndex(s, r[i]) < FirstIndex(s, r[j]) {
      if i == p {
        assert r[j] == sortedTail[j - 1];
      } else if i < p {
        assert r[i] == sortedTail[i];
        if j < p {
          assert r[j] == sortedTail[j];
        } else {
          assert j != p;
          assert r[j] == sortedTail[j - 1];
        }
      } else {
        assert r[i] == sortedTail[i - 1];
        assert r[j] == sortedTail[j - 1];
      }
    }
  }

  /**
   * Stability stated by position: for an input without repeated elements, two elements that
   * tie on the key come out in the order of their positions in the input.
   */
  lemma {:induction false} SortKeepsTieOrder<T>(s: seq<T>, key: T -> Key)
    requires Distinct(s)
    ensures KeepsTieOrder(SortDesc(s, key), s, key)
    decreases |s|
  {
    if |s| > 0 {
      var x := s[0];
      var tail := s[1..];
      var sortedTail := SortDesc(tail, key);
      assert s == [x] + tail;
      assert Distinct(tail);
      SortKeepsTieOrder(tail, key);
      var p := InsertPosition(x, sortedTail, key);
      forall m | 0 <= m < |sortedTail| ensures sortedTail[m] in tail {
        assert sortedTail[m] in multiset(sortedTail);
      }
      InsertKeepsTieOrder(x, tail, sortedTail, key, p);
    }
  }
}
