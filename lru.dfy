/**
 * The observable behaviour of the bounded least-recently-used map that
 * caches factories: the cached keys as a sequence from least to most
 * recently used, and what a lookup hit or an insertion does to it.
 */
module Lru {
  import opened Wrappers

  /** MAX_CACHED_FACTORIES, the maximum size the cache is created with. */
  const Capacity: nat := 10

  predicate Distinct<K(==)>(s: seq<K>) {
    forall i, j :: 0 <= i < j < |s| ==> s[i] != s[j]
  }

  /** `s` without `k`, the other elements in their order. */
  function Without<K(==, !new)>(s: seq<K>, k: K): (r: seq<K>)
    ensures forall x :: x in r <==> x in s && x != k
    ensures Distinct(s) ==> Distinct(r)
    ensures Distinct(s) && k in s ==> |r| == |s| - 1
    ensures k !in s ==> r == s
  {
    if s == [] then []
    else if s[0] == k then Without(s[1..], k)
    else
      var rest := Without(s[1..], k);
      assert Distinct(s) ==> s[0] !in s[1..];
      [s[0]] + rest
  }

  /**
   * A lookup hit or an insertion of `k`: `k` becomes the most recently used
   * key; inserting a new key into a full cache first drops the least
   * recently used one, `order[0]`.
   */
  function Put<K(==, !new)>(order: seq<K>, k: K): (r: seq<K>)
    requires Distinct(order)
    ensures Distinct(r) && |r| > 0 && r[|r| - 1] == k
    ensures |order| <= Capacity ==> |r| <= Capacity
    ensures k in order ==> |r| == |order|
    ensures k !in order && |order| < Capacity ==> |r| == |order| + 1
    ensures k !in order && |order| == Capacity ==> |r| == Capacity
  {
    if k in order then Without(order, k) + [k]
    else if |order| >= Capacity then order[1..] + [k]
    else order + [k]
  }

  /**
   * The key an insertion of `k` drops from the cache, if any: only a new key
   * inserted into a full cache drops one, and the one dropped is the cached
   * key at the least recently used end.
   */
  function Evicted<K(==)>(order: seq<K>, k: K): (e: Option<K>)
    ensures e.Some? <==> k !in order && |order| >= Capacity
    ensures e.Some? ==> e.value in order && e.value != k && e.value == order[0]
  {
    if k !in order && |order| >= Capacity && |order| > 0 then Some(order[0]) else None
  }

  /** Exactly the evicted key leaves the cache, exactly `k` enters it, all others stay. */
  lemma PutMembers<K(!new)>(order: seq<K>, k: K)
    requires Distinct(order)
    ensures forall x :: x in Put(order, k) <==> x == k || (x in order && Evicted(order, k) != Some(x))
  {
    forall x ensures x in Put(order, k) <==> x == k || (x in order && Evicted(order, k) != Some(x)) {
      if k !in order && |order| >= Capacity && |order| > 0 && x == order[0] {
        assert order == [order[0]] + order[1..];
      } else if k !in order && |order| >= Capacity && x in order {
        var i :| 0 <= i < |order| && order[i] == x;
        assert order[1..][i - 1] == x;
      }
    }
  }

  /** A sequence without repetitions has as many distinct elements as positions. */
  lemma {:induction false} DistinctCardinality<K(!new)>(s: seq<K>)
    requires Distinct(s)
    ensures |set x | x in s| == |s|
  {
    if s != [] {
      var t := s[1..];
      DistinctCardinality(t);
      assert (set x | x in s) == (set x | x in t) + {s[0]};
      assert s[0] !in t;
    }
  }

  // ----- Recency, defined from the history of accesses -----

  /** The position of the last access to `k` in the history `h`. */
  function LastAccess<K(==)>(h: seq<K>, k: K): (i: nat)
    requires k in h
    ensures i < |h| && h[i] == k
    ensures forall j :: i < j < |h| ==> h[j] != k
  {
    if h[|h| - 1] == k then |h| - 1 else LastAccess(h[..|h| - 1], k)
  }

  lemma LastAccessAppend<K(!new)>(h: seq<K>, k: K, x: K)
    requires x in h + [k]
    ensures LastAccess(h + [k], x) == if x == k then |h| else LastAccess(h, x)
  {
    if x != k {
      assert (h + [k])[..|h|] == h;
    }
  }

  /**
   * `order` lists the keys of the cache after the accesses `h`: at most
   * Capacity of them, each accessed, from least to most recently used; every
   * key accessed but no longer cached was used less recently than every
   * cached key; and while the cache is not full, nothing accessed has left.
   * So the cache holds exactly the most recently used distinct keys.
   */
  ghost predicate HoldsMostRecent<K(!new)>(order: seq<K>, h: seq<K>) {
    && |order| <= Capacity
    && Distinct(order)
    && Ordered(order, h)
    && OlderLeft(order, h)
    && (|order| < Capacity ==> forall x :: x in h ==> x in order)
  }

  /** Every key of `order` was accessed, and `order` runs from least to most recently accessed. */
  ghost predicate Ordered<K(!new)>(order: seq<K>, h: seq<K>) {
    && (forall x :: x in order ==> x in h)
    && forall i, j :: 0 <= i < j < |order| ==>
      order[i] in h && order[j] in h && LastAccess(h, order[i]) < LastAccess(h, order[j])
  }

  /** Every key accessed but no longer cached was used less recently than every cached key. */
  ghost predicate OlderLeft<K(!new)>(order: seq<K>, h: seq<K>) {
    forall x, k :: x in h && x !in order && k in order ==> k in h && LastAccess(h, x) < LastAccess(h, k)
  }

  /** In a sequence without repetitions, `Without` cuts out the one position holding `k`. */
  lemma {:induction false} WithoutAt<K(!new)>(s: seq<K>, k: K, m: nat)
    requires Distinct(s) && m < |s| && s[m] == k
    ensures Without(s, k) == s[..m] + s[m + 1..]
  {
    if m == 0 {
      assert k !in s[1..];
    } else {
      assert s[1..][m - 1] == k;
      WithoutAt(s[1..], k, m - 1);
      assert s[..m] == [s[0]] + s[1..][..m - 1];
      assert s[m + 1..] == s[1..][m..];
    }
  }

  /** Appending `k` to the history moves `k` to the end and leaves every other last access where it was. */
  lemma AccessFacts<K(!new)>(h: seq<K>, k: K)
    ensures LastAccess(h + [k], k) == |h|
    ensures forall x :: x in h && x != k ==> LastAccess(h + [k], x) == LastAccess(h, x) < |h|
  {
    LastAccessAppend(h, k, k);
    forall x | x in h && x != k
      ensures LastAccess(h + [k], x) == LastAccess(h, x)
    {
      LastAccessAppend(h, k, x);
    }
  }

  /** A key accessed now, placed after keys in access order, keeps them in access order. */
  lemma AppendKeepsOrder<K(!new)>(s: seq<K>, h: seq<K>, k: K)
    requires Ordered(s, h) && k !in s
    ensures Ordered(s + [k], h + [k])
  {
    var r, h' := s + [k], h + [k];
    AccessFacts(h, k);
    forall i, j | 0 <= i < j < |r|
      ensures r[i] in h' && r[j] in h' && LastAccess(h', r[i]) < LastAccess(h', r[j])
    {
      assert r[i] == s[i];
      if j < |s| {
        assert r[j] == s[j];
      }
    }
  }

  /** Cutting one position out of a sequence in access order leaves it in access order. */
  lemma CutKeepsOrder<K(!new)>(s: seq<K>, h: seq<K>, m: nat)
    requires Ordered(s, h) && m < |s|
    ensures Ordered(s[..m] + s[m + 1..], h)
  {
    var r := s[..m] + s[m + 1..];
    forall i, j | 0 <= i < j < |r|
      ensures r[i] in h && r[j] in h && LastAccess(h, r[i]) < LastAccess(h, r[j])
    {
      var i' := if i < m then i else i + 1;
      var j' := if j < m then j else j + 1;
      assert r[i] == s[i'] && r[j] == s[j'];
    }
  }

  /** Dropping the first key of a sequence in access order leaves it in access order. */
  lemma TailKeepsOrder<K(!new)>(s: seq<K>, h: seq<K>)
    requires Ordered(s, h) && |s| > 0
    ensures Ordered(s[1..], h)
  {
    forall i, j | 0 <= i < j < |s[1..]|
      ensures s[1..][i] in h && s[1..][j] in h && LastAccess(h, s[1..][i]) < LastAccess(h, s[1..][j])
    {
      assert s[1..][i] == s[i + 1] && s[1..][j] == s[j + 1];
    }
  }

  /** A lookup hit keeps the cache the set of the most recently used keys. */
  lemma TouchKeepsMostRecent<K(!new)>(order: seq<K>, h: seq<K>, k: K, m: nat)
    requires HoldsMostRecent(order, h)
    requires m < |order| && order[m] == k
    ensures HoldsMostRecent(Put(order, k), h + [k])
  {
    var r, h' := Put(order, k), h + [k];
    AccessFacts(h, k);
    WithoutAt(order, k, m);
    CutKeepsOrder(order, h, m);
    AppendKeepsOrder(order[..m] + order[m + 1..], h, k);
    PutMembers(order, k);
    forall x | x in r ensures x in order { }
    forall x, y | x in h' && x !in r && y in r
      ensures LastAccess(h', x) < LastAccess(h', y)
    { }
    forall x | x in h' ensures x in h || x == k { }
  }

  /** The evicted key, if any, was used less recently than every key that stays. */
  lemma InsertKeepsOlderLeft<K(!new)>(order: seq<K>, h: seq<K>, k: K)
    requires Distinct(order) && Ordered(order, h) && OlderLeft(order, h)
    requires k !in order
    ensures OlderLeft(Put(order, k), h + [k])
  {
    var r, h' := Put(order, k), h + [k];
    AccessFacts(h, k);
    PutMembers(order, k);
    forall x, y | x in h' && x !in r && y in r
      ensures LastAccess(h', x) < LastAccess(h', y)
    {
      if y != k && x in order {
        var n :| 0 <= n < |order| && order[n] == y;
        assert x == order[0] && n != 0;
      }
    }
  }

  /** An insertion of a new key keeps the cache the set of the most recently used keys. */
  lemma InsertKeepsMostRecent<K(!new)>(order: seq<K>, h: seq<K>, k: K)
    requires HoldsMostRecent(order, h)
    requires k !in order
    ensures HoldsMostRecent(Put(order, k), h + [k])
  {
    var r, h' := Put(order, k), h + [k];
    if |order| >= Capacity {
      TailKeepsOrder(order, h);
      AppendKeepsOrder(order[1..], h, k);
    } else {
      AppendKeepsOrder(order, h, k);
    }
    InsertKeepsOlderLeft(order, h, k);
    if |r| < Capacity {
      PutMembers(order, k);
      forall x | x in h' ensures x in r { }
    }
  }

  /** A lookup hit or an insertion keeps the cache the set of the most recently used keys. */
  lemma PutKeepsMostRecent<K(!new)>(order: seq<K>, h: seq<K>, k: K)
    requires HoldsMostRecent(order, h)
    ensures HoldsMostRecent(Put(order, k), h + [k])
  {
    if k in order {
      var m :| 0 <= m < |order| && order[m] == k;
      TouchKeepsMostRecent(order, h, k, m);
    } else {
      InsertKeepsMostRecent(order, h, k);
    }
  }

  /** The key an insertion drops is the cached key used least recently. */
  lemma EvictsLeastRecent<K(!new)>(order: seq<K>, h: seq<K>, k: K)
    requires HoldsMostRecent(order, h)
    requires Evicted(order, k).Some?
    ensures forall x :: x in order && x != Evicted(order, k).value ==>
      LastAccess(h, Evicted(order, k).value) < LastAccess(h, x)
  {
    forall x | x in order && x != order[0]
      ensures LastAccess(h, order[0]) < LastAccess(h, x)
    {
      var m :| 0 <= m < |order| && order[m] == x;
      assert m != 0;
    }
  }
}
