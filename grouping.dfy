/** Group-by-and-sum keyed on a name, and sorting by count.

    `groupby(key).sum()` and `dissolve(by=key)` drop rows whose key is missing
    and return one row per distinct key in ascending key order; the key order
    is Python's `str` order (code point by code point, a proper prefix first).
    `sort_values(ascending=False)` and `value_counts()` sort by count, largest
    first, with an unstable sort: only the count order is promised, not the
    order among equal counts. */
module Grouping {
  import opened Collections

  /** One (name, number of hospitals) row. */
  datatype KeyCount = KeyCount(key: string, count: int)

  /** Python's `<` on `str`. */
  predicate StrLess(a: string, b: string)
  {
    if b == [] then false
    else if a == [] then true
    else if a[0] != b[0] then a[0] < b[0]
    else StrLess(a[1..], b[1..])
  }

  lemma {:induction false} StrLessIrreflexive(a: string)
    ensures !StrLess(a, a)
  {
    if a != [] {
      StrLessIrreflexive(a[1..]);
    }
  }

  lemma {:induction false} StrLessTransitive(a: string, b: string, c: string)
    requires StrLess(a, b) && StrLess(b, c)
    ensures StrLess(a, c)
  {
    if a != [] && a[0] == b[0] && b[0] == c[0] {
      StrLessTransitive(a[1..], b[1..], c[1..]);
    }
  }

  lemma {:induction false} StrLessTotal(a: string, b: string)
    requires a != b
    ensures StrLess(a, b) || StrLess(b, a)
  {
    if a != [] && b != [] && a[0] == b[0] {
      assert a == [a[0]] + a[1..] && b == [b[0]] + b[1..];
      StrLessTotal(a[1..], b[1..]);
    }
  }

  /** The set of names in a table. */
  function Keys(t: seq<KeyCount>): set<string>
  {
    set e | e in t :: e.key
  }

  /** The sum of the counts of the rows named `k`. */
  function SumFor(t: seq<KeyCount>, k: string): int
  {
    if t == [] then 0
    else (if t[0].key == k then t[0].count else 0) + SumFor(t[1..], k)
  }

  /** The sum of all counts. */
  function Total(t: seq<KeyCount>): int
  {
    if t == [] then 0 else t[0].count + Total(t[1..])
  }

  predicate KeysAscending(t: seq<KeyCount>)
  {
    forall i, j :: 0 <= i < j < |t| ==> StrLess(t[i].key, t[j].key)
  }

  predicate DistinctKeys(t: seq<KeyCount>)
  {
    forall i, j :: 0 <= i < j < |t| ==> t[i].key != t[j].key
  }

  predicate NonIncreasing(t: seq<KeyCount>)
  {
    forall i, j :: 0 <= i < j < |t| ==> t[i].count >= t[j].count
  }

  lemma {:induction false} SumForAbsent(t: seq<KeyCount>, k: string)
    requires k !in Keys(t)
    ensures SumFor(t, k) == 0
  {
    if t != [] {
      assert t[0] in t;
      assert Keys(t[1..]) <= Keys(t) by {
        forall e | e in t[1..] ensures e in t { }
      }
      SumForAbsent(t[1..], k);
    }
  }

  lemma KeysCons(x: KeyCount, t: seq<KeyCount>)
    ensures Keys([x] + t) == {x.key} + Keys(t)
  {
    assert forall e :: e in [x] + t <==> e == x || e in t;
  }

  /** The first row of a table without repeated names is the only one with its name. */
  lemma HeadKeyUnique(t: seq<KeyCount>)
    requires DistinctKeys(t) && t != []
    ensures DistinctKeys(t[1..]) && t[0].key !in Keys(t[1..])
  {
  }

  /** In a table without repeated names, the row named `t[i].key` is `t[i]` itself. */
  lemma {:induction false} SumForDistinct(t: seq<KeyCount>, i: int)
    requires DistinctKeys(t) && 0 <= i < |t|
    ensures SumFor(t, t[i].key) == t[i].count
  {
    HeadKeyUnique(t);
    if i == 0 {
      SumForAbsent(t[1..], t[0].key);
    } else {
      assert t[1..][i - 1] == t[i];
      SumForDistinct(t[1..], i - 1);
    }
  }

  lemma AscendingIsDistinct(t: seq<KeyCount>)
    requires KeysAscending(t)
    ensures DistinctKeys(t)
  {
    forall i, j | 0 <= i < j < |t| ensures t[i].key != t[j].key {
      StrLessIrreflexive(t[i].key);
    }
  }

  /** Adds `v` to the row named `k` of a key-sorted table, inserting the row in
      key order when it is not there yet. */
  function AddTo(t: seq<KeyCount>, k: string, v: int): (r: seq<KeyCount>)
    requires KeysAscending(t)
    ensures KeysAscending(r)
    ensures Keys(r) == Keys(t) + {k}
  {
    if t == [] then [KeyCount(k, v)]
    else if t[0].key == k then [KeyCount(k, t[0].count + v)] + t[1..]
    else if StrLess(k, t[0].key) then
      var r := [KeyCount(k, v)] + t;
      assert KeysAscending(r) by {
        forall i, j | 0 <= i < j < |r| ensures StrLess(r[i].key, r[j].key) {
          if i == 0 && j > 1 {
            StrLessTransitive(k, t[0].key, t[j - 1].key);
          }
        }
      }
      KeysCons(KeyCount(k, v), t);
      r
    else
      StrLessTotal(k, t[0].key);
      var rest := AddTo(t[1..], k, v);
      var r := [t[0]] + rest;
      AscendingAfterHead(t, k, rest);
      KeysCons(t[0], rest);
      KeysCons(t[0], t[1..]);
      assert t == [t[0]] + t[1..];
      r
  }

  /** The head of a key-sorted table stays in front of its tail with a
      larger key added. */
  lemma AscendingAfterHead(t: seq<KeyCount>, k: string, rest: seq<KeyCount>)
    requires KeysAscending(t) && t != [] && StrLess(t[0].key, k)
    requires KeysAscending(rest) && Keys(rest) == Keys(t[1..]) + {k}
    ensures KeysAscending([t[0]] + rest)
  {
    var r := [t[0]] + rest;
    forall j | 0 < j < |r| ensures StrLess(t[0].key, r[j].key) {
      assert r[j] == rest[j - 1];
      assert r[j].key in Keys(t[1..]) + {k};
      if r[j].key != k {
        var e :| e in t[1..] && e.key == r[j].key;
        var m :| 0 <= m < |t[1..]| && t[1..][m] == e;
        assert t[m + 1] == e;
      }
    }
    forall i, j | 0 < i < j < |r| ensures StrLess(r[i].key, r[j].key) {
      assert r[i] == rest[i - 1] && r[j] == rest[j - 1];
    }
  }

  lemma {:induction false} AddToSums(t: seq<KeyCount>, k: string, v: int, k': string)
    requires KeysAscending(t)
    ensures SumFor(AddTo(t, k, v), k') == SumFor(t, k') + (if k' == k then v else 0)
    ensures Total(AddTo(t, k, v)) == Total(t) + v
  {
    if t == [] {
    } else if t[0].key == k {
      assert ([KeyCount(k, t[0].count + v)] + t[1..])[1..] == t[1..];
    } else if StrLess(k, t[0].key) {
      assert ([KeyCount(k, v)] + t)[1..] == t;
    } else {
      AddToSums(t[1..], k, v, k');
      assert ([t[0]] + AddTo(t[1..], k, v))[1..] == AddTo(t[1..], k, v);
    }
  }

  /** `groupby(key)[count].sum()`: one row per distinct name, in ascending name order. */
  function GroupSum(pairs: seq<KeyCount>): (r: seq<KeyCount>)
    ensures KeysAscending(r)
    ensures Keys(r) == Keys(pairs)
  {
    if pairs == [] then []
    else
      var r := AddTo(GroupSum(pairs[1..]), pairs[0].key, pairs[0].count);
      KeysCons(pairs[0], pairs[1..]);
      assert pairs == [pairs[0]] + pairs[1..];
      r
  }

  /** Each group's count is the sum of the counts of the rows with its name,
      and the grand total is unchanged. */
  lemma {:induction false} GroupSumSums(pairs: seq<KeyCount>, k: string)
    ensures SumFor(GroupSum(pairs), k) == SumFor(pairs, k)
    ensures Total(GroupSum(pairs)) == Total(pairs)
  {
    if pairs != [] {
      GroupSumSums(pairs[1..], k);
      AddToSums(GroupSum(pairs[1..]), pairs[0].key, pairs[0].count, k);
    }
  }

  /** In a table sorted by count, no row counts more than the first. */
  lemma HeadIsLargest(t: seq<KeyCount>)
    requires NonIncreasing(t) && t != []
    ensures forall e :: e in t ==> e.count <= t[0].count
  {
    forall e | e in t ensures e.count <= t[0].count {
      var m :| 0 <= m < |t| && t[m] == e;
    }
  }

  /** Inserts `x` before the first row whose count is not larger than its own. */
  function InsertDesc(x: KeyCount, t: seq<KeyCount>): (r: seq<KeyCount>)
    requires NonIncreasing(t)
    ensures NonIncreasing(r)
    ensures multiset(r) == multiset(t) + multiset{x}
  {
    if t == [] then [x]
    else if x.count >= t[0].count then
      HeadIsLargest(t);
      [x] + t
    else
      var rest := InsertDesc(x, t[1..]);
      var r := [t[0]] + rest;
      assert t == [t[0]] + t[1..];
      assert NonIncreasing(r) by {
        HeadIsLargest(t);
        forall j | 0 < j < |r| ensures r[j].count <= t[0].count {
          assert r[j] in multiset(rest);
        }
      }
      r
  }

  /** `sort_values(by=count, ascending=False)`: a permutation of `t` with the
      counts in non-increasing order. */
  function SortByCountDesc(t: seq<KeyCount>): (r: seq<KeyCount>)
    ensures NonIncreasing(r)
    ensures multiset(r) == multiset(t)
  {
    if t == [] then []
    else
      assert t == [t[0]] + t[1..];
      InsertDesc(t[0], SortByCountDesc(t[1..]))
  }

  lemma {:induction false} InsertDescSums(x: KeyCount, t: seq<KeyCount>, k: string)
    requires NonIncreasing(t)
    ensures SumFor(InsertDesc(x, t), k) == SumFor(t, k) + (if x.key == k then x.count else 0)
    ensures Total(InsertDesc(x, t)) == Total(t) + x.count
  {
    if t != [] && x.count < t[0].count {
      var rest := InsertDesc(x, t[1..]);
      InsertDescSums(x, t[1..], k);
      assert InsertDesc(x, t)[1..] == rest;
    }
  }

  lemma InsertDescKeys(x: KeyCount, t: seq<KeyCount>)
    requires NonIncreasing(t)
    ensures Keys(InsertDesc(x, t)) == Keys(t) + {x.key}
  {
    var r := InsertDesc(x, t);
    assert forall e :: e in r <==> e in multiset(r);
    assert forall e :: e in t <==> e in multiset(t);
  }

  lemma {:induction false} InsertDescDistinct(x: KeyCount, t: seq<KeyCount>)
    requires NonIncreasing(t) && DistinctKeys(t) && x.key !in Keys(t)
    ensures DistinctKeys(InsertDesc(x, t))
  {
    var r := InsertDesc(x, t);
    if t == [] {
    } else if x.count >= t[0].count {
      forall j | 0 < j < |r| ensures r[0].key != r[j].key {
        assert r[j] in t;
      }
    } else {
      HeadKeyUnique(t);
      var rest := InsertDesc(x, t[1..]);
      InsertDescDistinct(x, t[1..]);
      InsertDescKeys(x, t[1..]);
      assert x.key != t[0].key;
      forall j | 0 < j < |r| ensures r[0].key != r[j].key {
        assert r[j] in rest;
      }
    }
  }

  /** Sorting keeps every name's count and the total. */
  lemma {:induction false} SortSums(t: seq<KeyCount>, k: string)
    ensures SumFor(SortByCountDesc(t), k) == SumFor(t, k)
    ensures Total(SortByCountDesc(t)) == Total(t)
  {
    if t != [] {
      SortSums(t[1..], k);
      InsertDescSums(t[0], SortByCountDesc(t[1..]), k);
    }
  }

  /** Sorting keeps the names, and a table without repeated names stays so. */
  lemma {:induction false} SortKeys(t: seq<KeyCount>)
    ensures Keys(SortByCountDesc(t)) == Keys(t)
    ensures DistinctKeys(t) ==> DistinctKeys(SortByCountDesc(t))
  {
    if t != [] {
      SortKeys(t[1..]);
      InsertDescKeys(t[0], SortByCountDesc(t[1..]));
      KeysCons(t[0], t[1..]);
      assert t == [t[0]] + t[1..];
      if DistinctKeys(t) {
        HeadKeyUnique(t);
        InsertDescDistinct(t[0], SortByCountDesc(t[1..]));
      }
    }
  }
}
