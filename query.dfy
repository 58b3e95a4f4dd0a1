/**
 * The query machinery the controllers share: filtering, grouping, ordering by a key,
 * skipping and limiting (MongoDB's find/sort/skip/limit and aggregation stages), and the
 * pagination arithmetic every list endpoint reports.
 */
module Query {

  /** Integer ceiling of a / b for a non-negative dividend: JavaScript's `Math.ceil(a / b)`. */
  function CeilDiv(a: nat, b: nat): (q: nat)
    requires b > 0
    ensures q * b >= a
    ensures q == 0 || (q - 1) * b < a
    ensures a == 0 <==> q == 0
  {
    (a + b - 1) / b
  }

  /** CeilDiv is the least quotient covering the dividend. */
  lemma CeilDivLeast(a: nat, b: nat, k: nat)
    requires b > 0 && k * b >= a
    ensures CeilDiv(a, b) <= k
  {
    var q := CeilDiv(a, b);
    if q > k {
      assert (q - 1) * b >= k * b by {
        assert q - 1 >= k;
        MulMonotone(k, q - 1, b);
      }
    }
  }

  lemma MulMonotone(x: int, y: int, b: nat)
    requires x <= y
    ensures x * b <= y * b
  {
  }

  /** A larger dividend never needs fewer pages or days. */
  lemma CeilDivMonotone(a: nat, a': nat, b: nat)
    requires b > 0 && a <= a'
    ensures CeilDiv(a, b) <= CeilDiv(a', b)
  {
    CeilDivLeast(a, b, CeilDiv(a', b));
  }

  /** The number of rows a page skips: `(page - 1) * limit`. */
  function Skip(page: int, limit: int): (n: int)
    ensures page >= 1 && limit >= 0 ==> n >= 0
  {
    assert page >= 1 && limit >= 0 ==> (page - 1) * limit >= 0 by {
      if page >= 1 && limit >= 0 { MulMonotone(0, page - 1, limit); }
    }
    (page - 1) * limit
  }

  /** The pagination block every list endpoint returns. */
  datatype Pagination = Pagination(currentPage: int, totalPages: nat, totalRecords: nat, limit: int)

  /** Pagination for `total` matches: the page count is `Math.ceil(total / limit)`. */
  function Paginate(total: nat, page: int, limit: int): (p: Pagination)
    requires limit >= 1
    ensures p.totalRecords == total && p.currentPage == page && p.limit == limit
    ensures p.totalPages * limit >= total
    ensures p.totalPages == 0 || (p.totalPages - 1) * limit < total
  {
    Pagination(page, CeilDiv(total, limit), total, limit)
  }

  /** At most `limit` rows of `s` from position `skip` on. */
  function Segment<T>(s: seq<T>, skip: nat, limit: nat): (r: seq<T>)
    ensures |r| <= limit
    ensures skip >= |s| ==> r == []
    ensures skip < |s| ==> |r| == Min(limit, |s| - skip)
    ensures forall i :: 0 <= i < |r| ==> r[i] == s[skip + i]
  {
    if skip >= |s| then [] else s[skip..skip + Min(limit, |s| - skip)]
  }

  /** The window `skip(Skip(page, limit)).limit(limit)` of an ordered result. */
  function PageOf<T>(s: seq<T>, page: int, limit: int): (r: seq<T>)
    requires page >= 1 && limit >= 1
    ensures |r| <= limit
    ensures Skip(page, limit) >= |s| ==> r == []
    ensures Skip(page, limit) < |s| ==> |r| == Min(limit, |s| - Skip(page, limit))
    ensures forall i :: 0 <= i < |r| ==> r[i] == s[Skip(page, limit) + i]
  {
    Segment(s, Skip(page, limit), limit)
  }

  function Min(a: int, b: int): int
  {
    if a <= b then a else b
  }

  /** A page holds rows exactly when its number is within the reported page count. */
  lemma PageNonEmptyIff<T>(s: seq<T>, page: int, limit: int)
    requires page >= 1 && limit >= 1
    ensures |PageOf(s, page, limit)| > 0 <==> page <= Paginate(|s|, page, limit).totalPages
  {
    var n := CeilDiv(|s|, limit);
    if page <= n {
      assert (n - 1) * limit < |s|;
      MulMonotone(page - 1, n - 1, limit);
    } else {
      MulMonotone(n, page - 1, limit);
    }
  }

  /** Every row of an ordered result shows up on exactly one page, at a position given by division. */
  lemma RowOnPage<T>(s: seq<T>, i: nat, limit: int)
    requires i < |s| && limit >= 1
    ensures i / limit >= 0
    ensures var page := i / limit + 1;
      i % limit < |PageOf(s, page, limit)| && PageOf(s, page, limit)[i % limit] == s[i]
  {
    var page := i / limit + 1;
    assert Skip(page, limit) + i % limit == i;
  }

  /** A page of an ordered result is ordered, and it holds rows of that result only. */
  lemma PageSorted<T>(s: seq<T>, page: int, limit: int, key: T -> int)
    requires page >= 1 && limit >= 1 && SortedDesc(s, key)
    ensures SortedDesc(PageOf(s, page, limit), key)
    ensures forall i :: 0 <= i < |PageOf(s, page, limit)| ==> PageOf(s, page, limit)[i] in s
  {
    var r := PageOf(s, page, limit);
    var skip := Skip(page, limit);
    forall i, j | 0 <= i < j < |r| ensures key(r[i]) >= key(r[j]) {
      assert r[i] == s[skip + i] && r[j] == s[skip + j];
    }
  }

  /** The first `n` rows: the aggregation stage `$limit: n`. */
  function Take<T>(s: seq<T>, n: int): (r: seq<T>)
    requires n >= 1
    ensures |r| == Min(n, |s|)
    ensures r == s[..|r|]
    ensures forall i :: 0 <= i < |r| ==> r[i] == s[i]
  {
    if n <= |s| then s[..n] else s
  }

  /** The first rows of an ordered result are ordered. */
  lemma TakeSorted<T>(s: seq<T>, n: int, key: T -> int)
    requires n >= 1 && SortedDesc(s, key)
    ensures SortedDesc(Take(s, n), key)
  {
    var r := Take(s, n);
    forall i, j | 0 <= i < j < |r| ensures key(r[i]) >= key(r[j]) {
      assert r[i] == s[i] && r[j] == s[j];
    }
  }

  /** The rows satisfying a match condition, in their original order. */
  function Filter<T>(s: seq<T>, p: T -> bool): (r: seq<T>)
    ensures |r| <= |s|
    ensures forall i :: 0 <= i < |r| ==> r[i] in s && p(r[i])
    ensures forall i :: 0 <= i < |s| && p(s[i]) ==> s[i] in r
  {
    if s == [] then []
    else if p(s[0]) then [s[0]] + Filter(s[1..], p)
    else Filter(s[1..], p)
  }

  /** Filtering distributes over concatenation. */
  lemma {:induction false} FilterAppend<T>(s: seq<T>, t: seq<T>, p: T -> bool)
    ensures Filter(s + t, p) == Filter(s, p) + Filter(t, p)
  {
    if s == [] {
      assert s + t == t;
    } else {
      assert (s + t)[1..] == s[1..] + t;
      FilterAppend(s[1..], t, p);
    }
  }

  /** Filtering keeps the multiset of matching rows. */
  lemma {:induction false} FilterMultiset<T>(s: seq<T>, p: T -> bool, x: T)
    ensures multiset(Filter(s, p))[x] == if p(x) then multiset(s)[x] else 0
  {
    if s != [] {
      FilterMultiset(s[1..], p, x);
      assert s == [s[0]] + s[1..];
    }
  }

  /** Each distinct key of the rows, in order of first appearance: the `_id` of a `$group` stage. */
  function Distinct<T, K(==)>(s: seq<T>, key: T -> K): (r: seq<K>)
    ensures |r| <= |s|
    ensures forall i, j :: 0 <= i < j < |r| ==> r[i] != r[j]
    ensures forall j :: 0 <= j < |r| ==> exists i :: 0 <= i < |s| && key(s[i]) == r[j]
    ensures forall i :: 0 <= i < |s| ==> key(s[i]) in r
  {
    if s == [] then []
    else
      var init := s[..|s| - 1];
      var rest := Distinct(init, key);
      assert forall i :: 0 <= i < |init| ==> init[i] == s[i];
      if key(s[|s| - 1]) in rest then rest else rest + [key(s[|s| - 1])]
  }

  /** The sum of `f` over the rows: a `$sum` accumulator. */
  function Sum<T>(s: seq<T>, f: T -> int): int
  {
    if s == [] then 0 else f(s[0]) + Sum(s[1..], f)
  }

  /** The rows are in non-increasing order of `key`: the effect of `$sort: { key: -1 }`. */
  ghost predicate SortedDesc<T>(s: seq<T>, key: T -> int)
  {
    forall i, j :: 0 <= i < j < |s| ==> key(s[i]) >= key(s[j])
  }

  /** Insert one row into an ordered sequence, ahead of the rows whose key it does not exceed. */
  function Insert<T>(x: T, s: seq<T>, key: T -> int): (r: seq<T>)
    requires SortedDesc(s, key)
    ensures |r| == |s| + 1
    ensures r[0] == x || (s != [] && r[0] == s[0])
    ensures SortedDesc(r, key)
    ensures multiset(r) == multiset(s) + multiset{x}
  {
    if s == [] then [x]
    else if key(x) >= key(s[0]) then
      ConsSorted(x, s, key);
      [x] + s
    else
      var tail := Insert(x, s[1..], key);
      assert s == [s[0]] + s[1..];
      InsertBelowHead(x, s, tail, key);
      ConsSorted(s[0], tail, key);
      assert multiset([s[0]] + tail) == multiset{s[0]} + multiset(s[1..]) + multiset{x};
      [s[0]] + tail
  }

  /** A tail holding the rest of an ordered sequence and one row below its head stays at most the head's key. */
  lemma InsertBelowHead<T>(x: T, s: seq<T>, tail: seq<T>, key: T -> int)
    requires SortedDesc(s, key) && |s| >= 1 && key(x) < key(s[0])
    requires multiset(tail) == multiset(s[1..]) + multiset{x}
    ensures forall i :: 0 <= i < |tail| ==> key(tail[i]) <= key(s[0])
  {
    forall i | 0 <= i < |tail| ensures key(tail[i]) <= key(s[0]) {
      assert tail[i] in multiset(tail);
      if tail[i] != x {
        assert tail[i] in multiset(s[1..]);
        var j :| 0 <= j < |s[1..]| && s[1..][j] == tail[i];
        assert s[1..][j] == s[j + 1];
      }
    }
  }

  /** A head at least every key of an ordered tail gives an ordered sequence. */
  lemma ConsSorted<T>(y: T, t: seq<T>, key: T -> int)
    requires SortedDesc(t, key) && forall i :: 0 <= i < |t| ==> key(t[i]) <= key(y)
    ensures SortedDesc([y] + t, key)
  {
    var r := [y] + t;
    forall i, j | 0 <= i < j < |r| ensures key(r[i]) >= key(r[j]) {
      assert r[j] == t[j - 1];
      if i > 0 {
        assert r[i] == t[i - 1];
      }
    }
  }

  /** The rows ordered by non-increasing `key` (the order among rows with equal keys is not part of the contract). */
  function SortDesc<T>(s: seq<T>, key: T -> int): (r: seq<T>)
    ensures SortedDesc(r, key)
    ensures multiset(r) == multiset(s)
    ensures |r| == |s|
  {
    if s == [] then []
    else
      assert s == [s[0]] + s[1..];
      Insert(s[0], SortDesc(s[1..], key), key)
  }

  /** A property every row has survives the ordering. */
  lemma SortDescKeeps<T>(s: seq<T>, key: T -> int, p: T -> bool)
    requires forall i :: 0 <= i < |s| ==> p(s[i])
    ensures forall i :: 0 <= i < |SortDesc(s, key)| ==> p(SortDesc(s, key)[i])
  {
    var r := SortDesc(s, key);
    forall i | 0 <= i < |r| ensures p(r[i]) {
      assert r[i] in multiset(r);
      var j :| 0 <= j < |s| && s[j] == r[i];
    }
  }

  /** No two rows share a key: one row per `$group` key. */
  ghost predicate KeysDistinct<T, K>(s: seq<T>, key: T -> K)
  {
    forall i, j :: 0 <= i < j < |s| ==> key(s[i]) != key(s[j])
  }

  /** The keys of the rows, in order. */
  function Keys<T, K>(s: seq<T>, key: T -> K): (r: seq<K>)
    ensures |r| == |s|
    ensures forall i :: 0 <= i < |s| ==> r[i] == key(s[i])
  {
    if s == [] then [] else [key(s[0])] + Keys(s[1..], key)
  }

  /** Dropping the first row keeps the keys distinct. */
  lemma KeysDistinctTail<T, K>(s: seq<T>, key: T -> K)
    requires |s| >= 1 && KeysDistinct(s, key)
    ensures KeysDistinct(s[1..], key)
  {
    forall i, j | 0 <= i < j < |s[1..]| ensures key(s[1..][i]) != key(s[1..][j]) {
      assert s[1..][i] == s[i + 1] && s[1..][j] == s[j + 1];
    }
  }

  /** Every row's key is one of `ids`. */
  ghost predicate KeysIn<T, K>(s: seq<T>, key: T -> K, ids: seq<K>)
  {
    forall i :: 0 <= i < |s| ==> key(s[i]) in ids
  }

  /** A row meeting a condition, put before rows that all meet it, gives rows that all meet it. */
  lemma PrependAll<T>(x: T, rest: seq<T>, p: T -> bool)
    requires p(x) && forall i :: 0 <= i < |rest| ==> p(rest[i])
    ensures forall i :: 0 <= i < |[x] + rest| ==> p(([x] + rest)[i])
  {
    forall i | 0 <= i < |[x] + rest| ensures p(([x] + rest)[i]) {
      if i > 0 {
        assert ([x] + rest)[i] == rest[i - 1];
      }
    }
  }

  /** A row for the first of distinct ids, ahead of rows for the others: keys still among the ids and still distinct. */
  lemma PrependKey<T, K>(x: T, rest: seq<T>, key: T -> K, ids: seq<K>)
    requires |ids| >= 1 && key(x) == ids[0] && ids[0] !in ids[1..]
    requires KeysIn(rest, key, ids[1..]) && KeysDistinct(rest, key)
    ensures KeysIn([x] + rest, key, ids) && KeysDistinct([x] + rest, key)
  {
    var s := [x] + rest;
    forall i | 0 <= i < |s| ensures key(s[i]) in ids {
      if i > 0 {
        assert s[i] == rest[i - 1];
        assert key(rest[i - 1]) in ids[1..];
      }
    }
    forall i, j | 0 <= i < j < |s| ensures key(s[i]) != key(s[j]) {
      assert s[j] == rest[j - 1];
      assert key(rest[j - 1]) in ids[1..];
      if i > 0 {
        assert s[i] == rest[i - 1];
      }
    }
  }

  /** Rows with distinct keys hold each row at most once. */
  lemma {:induction false} DistinctKeysOnce<T, K>(s: seq<T>, key: T -> K, x: T)
    requires KeysDistinct(s, key)
    ensures multiset(s)[x] <= 1
  {
    if s != [] {
      assert s == [s[0]] + s[1..];
      KeysDistinctTail(s, key);
      DistinctKeysOnce(s[1..], key, x);
    }
  }

  /** A row at two positions is counted at least twice. */
  lemma SeenTwice<T>(s: seq<T>, i: int, j: int)
    requires 0 <= i < j < |s| && s[i] == s[j]
    ensures multiset(s)[s[i]] >= 2
  {
    assert s == s[..j] + [s[j]] + s[j + 1..];
    assert s[..j][i] == s[i];
    assert s[i] in multiset(s[..j]);
  }

  /** Reordering keeps the keys distinct. */
  lemma KeysDistinctPermutation<T, K>(a: seq<T>, b: seq<T>, key: T -> K)
    requires multiset(a) == multiset(b) && KeysDistinct(a, key)
    ensures KeysDistinct(b, key)
  {
    forall i, j | 0 <= i < j < |b| ensures key(b[i]) != key(b[j]) {
      if b[i] == b[j] {
        SeenTwice(b, i, j);
        DistinctKeysOnce(a, key, b[i]);
      } else {
        assert b[i] in multiset(a) && b[j] in multiset(a);
        var p :| 0 <= p < |a| && a[p] == b[i];
        var q :| 0 <= q < |a| && a[q] == b[j];
        assert p != q;
        if p < q {
          assert key(a[p]) != key(a[q]);
        } else {
          assert key(a[q]) != key(a[p]);
        }
      }
    }
  }

  /** The ordered rows still have distinct keys. */
  lemma SortDescKeysDistinct<T, K>(s: seq<T>, sortKey: T -> int, key: T -> K)
    requires KeysDistinct(s, key)
    ensures KeysDistinct(SortDesc(s, sortKey), key)
  {
    KeysDistinctPermutation(s, SortDesc(s, sortKey), key);
  }

  /** A match stage keeps the keys distinct. */
  lemma {:induction false} FilterKeysDistinct<T, K>(s: seq<T>, p: T -> bool, key: T -> K)
    requires KeysDistinct(s, key)
    ensures KeysDistinct(Filter(s, p), key)
  {
    if s != [] {
      KeysDistinctTail(s, key);
      FilterKeysDistinct(s[1..], p, key);
      var rest := Filter(s[1..], p);
      if p(s[0]) {
        forall j | 0 <= j < |rest| ensures key(s[0]) != key(rest[j]) {
          var k :| 0 <= k < |s[1..]| && s[1..][k] == rest[j];
          assert s[k + 1] == rest[j];
        }
      }
    }
  }

  /** Ordering keeps exactly the same rows. */
  lemma SortDescSameRows<T>(s: seq<T>, key: T -> int, x: T)
    ensures x in SortDesc(s, key) <==> x in s
  {
    var r := SortDesc(s, key);
    assert x in r <==> x in multiset(r);
    assert x in s <==> x in multiset(s);
  }

  /** A match condition every row meets keeps every row. */
  lemma {:induction false} FilterAll<T>(s: seq<T>, p: T -> bool)
    requires forall i :: 0 <= i < |s| ==> p(s[i])
    ensures Filter(s, p) == s
  {
    if s != [] {
      FilterAll(s[1..], p);
    }
  }

  /** Two match stages in a row are one stage on the conjunction. */
  lemma {:induction false} FilterFilter<T>(s: seq<T>, p: T -> bool, q: T -> bool, both: T -> bool)
    requires forall x :: both(x) == (p(x) && q(x))
    ensures Filter(Filter(s, p), q) == Filter(s, both)
  {
    if s != [] {
      FilterFilter(s[1..], p, q, both);
    }
  }

  /** Summing a difference is the difference of the sums. */
  lemma {:induction false} SumDiff<T>(s: seq<T>, f: T -> int, g: T -> int, h: T -> int)
    requires forall x :: h(x) == f(x) - g(x)
    ensures Sum(s, h) == Sum(s, f) - Sum(s, g)
  {
    if s != [] {
      SumDiff(s[1..], f, g, h);
    }
  }

  /** Sums of functions that agree on every row are equal. */
  lemma {:induction false} SumPointwise<T>(s: seq<T>, f: T -> int, g: T -> int)
    requires forall i :: 0 <= i < |s| ==> f(s[i]) == g(s[i])
    ensures Sum(s, f) == Sum(s, g)
  {
    if s != [] {
      SumPointwise(s[1..], f, g);
    }
  }

  /** A sum of non-negative terms is non-negative. */
  lemma {:induction false} SumNonNegative<T>(s: seq<T>, f: T -> int)
    requires forall i :: 0 <= i < |s| ==> f(s[i]) >= 0
    ensures Sum(s, f) >= 0
  {
    if s != [] {
      SumNonNegative(s[1..], f);
    }
  }

  /** The rows of one group: those whose key is `k`. */
  function Members<T, K(==)>(s: seq<T>, key: T -> K, k: K): (r: seq<T>)
    ensures |r| <= |s|
    ensures forall i :: 0 <= i < |r| ==> r[i] in s && key(r[i]) == k
    ensures forall i :: 0 <= i < |s| && key(s[i]) == k ==> s[i] in r
  {
    if s == [] then []
    else (if key(s[0]) == k then [s[0]] else []) + Members(s[1..], key, k)
  }

  /** A group holds each row with its key exactly as often as the input does, and no other row. */
  lemma {:induction false} MembersMultiset<T, K>(s: seq<T>, key: T -> K, k: K, x: T)
    ensures multiset(Members(s, key, k))[x] == if key(x) == k then multiset(s)[x] else 0
  {
    if s != [] {
      MembersMultiset(s[1..], key, k, x);
      assert s == [s[0]] + s[1..];
    }
  }

  /** Grouping distributes over concatenation. */
  lemma {:induction false} MembersAppend<T, K>(s: seq<T>, t: seq<T>, key: T -> K, k: K)
    ensures Members(s + t, key, k) == Members(s, key, k) + Members(t, key, k)
  {
    if s == [] {
      assert s + t == t;
    } else {
      assert (s + t)[1..] == s[1..] + t;
      MembersAppend(s[1..], t, key, k);
    }
  }

  /** A key no row carries has an empty group. */
  lemma {:induction false} MembersNone<T, K>(s: seq<T>, key: T -> K, k: K)
    requires forall i :: 0 <= i < |s| ==> key(s[i]) != k
    ensures Members(s, key, k) == []
  {
    if s != [] {
      MembersNone(s[1..], key, k);
    }
  }

  /** A group reported by `$group` is never empty. */
  lemma GroupNonEmpty<T, K>(s: seq<T>, key: T -> K, j: nat)
    requires j < |Distinct(s, key)|
    ensures |Members(s, key, Distinct(s, key)[j])| >= 1
  {
    var k := Distinct(s, key)[j];
    var i :| 0 <= i < |s| && key(s[i]) == k;
    assert s[i] in Members(s, key, k);
  }

  /** The sizes of the groups of the given keys, added up. */
  function GroupSizes<T, K(==)>(keys: seq<K>, s: seq<T>, key: T -> K): nat
  {
    if keys == [] then 0 else |Members(s, key, keys[0])| + GroupSizes(keys[1..], s, key)
  }

  /** Adding a row to the input adds one to the group sizes when its key is one of the (distinct) keys. */
  lemma {:induction false} GroupSizesSnoc<T, K>(keys: seq<K>, s: seq<T>, x: T, key: T -> K)
    requires forall i, j :: 0 <= i < j < |keys| ==> keys[i] != keys[j]
    ensures GroupSizes(keys, s + [x], key) == GroupSizes(keys, s, key) + (if key(x) in keys then 1 else 0)
  {
    if keys != [] {
      MembersAppend(s, [x], key, keys[0]);
      assert key(x) in keys[1..] <==> key(x) in keys && key(x) != keys[0];
      GroupSizesSnoc(keys[1..], s, x, key);
    }
  }

  /** The group sizes over a key list with one more key at the end. */
  lemma {:induction false} GroupSizesAppend<T, K>(keys: seq<K>, k: K, s: seq<T>, key: T -> K)
    ensures GroupSizes(keys + [k], s, key) == GroupSizes(keys, s, key) + |Members(s, key, k)|
  {
    if keys == [] {
      assert keys + [k] == [k];
    } else {
      assert (keys + [k])[1..] == keys[1..] + [k];
      GroupSizesAppend(keys[1..], k, s, key);
    }
  }

  /** Every row lands in exactly one group: the group sizes add up to the number of rows. */
  lemma {:induction false} GroupSizesTotal<T, K>(s: seq<T>, key: T -> K)
    ensures GroupSizes(Distinct(s, key), s, key) == |s|
  {
    if s != [] {
      var init := s[..|s| - 1];
      var x := s[|s| - 1];
      assert s == init + [x];
      var d := Distinct(init, key);
      GroupSizesTotal(init, key);
      GroupSizesSnoc(d, init, x, key);
      if key(x) in d {
        assert Distinct(s, key) == d;
      } else {
        assert Distinct(s, key) == d + [key(x)];
        GroupSizesAppend(d, key(x), s, key);
        MembersAppend(init, [x], key, key(x));
        MembersNone(init, key, key(x));
      }
    }
  }
}
