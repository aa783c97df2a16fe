/** `nlargest(10, 'N_HOSPITALES')` on the district counts (src/app.py): the
    rows with the largest counts, largest first; among equal counts the row
    that comes first in the layer wins (`keep='first'`).

    The selection is computed on row positions: the positions are put in the
    order "larger count first, then smaller position first", and the first
    `k` of them are taken. */
module AppTopDistricts {
  import opened AppDistricts

  /** Position `a` ranks before position `b` in `nlargest` order. */
  predicate Before(cs: seq<int>, a: int, b: int)
  {
    0 <= a < |cs| && 0 <= b < |cs| && (cs[a] > cs[b] || (cs[a] == cs[b] && a < b))
  }

  predicate Ranked(cs: seq<int>, t: seq<nat>)
  {
    forall i, j {:trigger Before(cs, t[i], t[j])} :: 0 <= i < j < |t| ==> Before(cs, t[i], t[j])
  }

  predicate InRange(t: seq<nat>, n: int)
  {
    forall i :: 0 <= i < |t| ==> t[i] < n
  }

  /** A ranked list stays ranked under a new head that ranks before all of it. */
  lemma RankedCons(cs: seq<int>, h: nat, t: seq<nat>)
    requires Ranked(cs, t)
    requires forall j :: 0 <= j < |t| ==> Before(cs, h, t[j])
    ensures Ranked(cs, [h] + t)
  {
    forall i, j | 0 <= i < j < |[h] + t| ensures Before(cs, ([h] + t)[i], ([h] + t)[j]) {
      assert ([h] + t)[j] == t[j - 1];
      if i > 0 {
        assert ([h] + t)[i] == t[i - 1];
      }
    }
  }

  /** The head of a ranked list ranks before every element of its tail with
      one more position added that the head also ranks before. */
  lemma HeadBeforeAll(cs: seq<int>, t: seq<nat>, x: nat, rest: seq<nat>)
    requires Ranked(cs, t) && t != [] && Before(cs, t[0], x)
    requires forall y :: y in rest ==> y == x || y in t[1..]
    ensures forall j :: 0 <= j < |rest| ==> Before(cs, t[0], rest[j])
  {
    forall j | 0 <= j < |rest| ensures Before(cs, t[0], rest[j]) {
      assert rest[j] in rest;
      if rest[j] != x {
        var m :| 0 <= m < |t[1..]| && t[1..][m] == rest[j];
        assert t[m + 1] == rest[j];
      }
    }
  }

  /** Inserts position `x` before the first position it ranks before: one
      entry more, holding exactly `x` and the positions of `t`. */
  function Insert(cs: seq<int>, x: nat, t: seq<nat>): (r: seq<nat>)
    ensures |r| == |t| + 1
    ensures forall y :: y in r <==> y == x || y in t
  {
    if t == [] then [x]
    else if Before(cs, x, t[0]) then [x] + t
    else
      assert t == [t[0]] + t[1..];
      [t[0]] + Insert(cs, x, t[1..])
  }

  /** Inserting a new position into a ranked list keeps it ranked. */
  lemma {:induction false} InsertRanked(cs: seq<int>, x: nat, t: seq<nat>)
    requires x < |cs| && InRange(t, |cs|) && Ranked(cs, t) && x !in t
    ensures Ranked(cs, Insert(cs, x, t))
  {
    if t == [] {
    } else if Before(cs, x, t[0]) {
      forall j | 0 < j < |t| ensures Before(cs, x, t[j]) {
        assert Before(cs, t[0], t[j]);
      }
      RankedCons(cs, x, t);
    } else {
      assert t[0] in t && Before(cs, t[0], x);
      var rest := Insert(cs, x, t[1..]);
      InsertRanked(cs, x, t[1..]);
      assert t == [t[0]] + t[1..];
      HeadBeforeAll(cs, t, x, rest);
      RankedCons(cs, t[0], rest);
    }
  }

  /** All positions of `cs` below `n`, in `nlargest` order. */
  function Order(cs: seq<int>, n: nat): seq<nat>
  {
    if n == 0 then [] else Insert(cs, n - 1, Order(cs, n - 1))
  }

  /** The order has `n` entries and holds exactly the positions below `n`. */
  lemma {:induction false} OrderPositions(cs: seq<int>, n: nat)
    ensures |Order(cs, n)| == n
    ensures forall q: nat :: q in Order(cs, n) <==> q < n
  {
    if n > 0 {
      OrderPositions(cs, n - 1);
    }
  }

  /** The order ranks the positions: larger count first, then smaller
      position first. */
  lemma {:induction false} OrderRanked(cs: seq<int>, n: nat)
    requires n <= |cs|
    ensures Ranked(cs, Order(cs, n)) && InRange(Order(cs, n), n)
  {
    if n > 0 {
      var prev := Order(cs, n - 1);
      OrderRanked(cs, n - 1);
      InsertNext(cs, prev, n - 1, Order(cs, n));
    }
  }

  /** One step of the order: the next position inserted into the ranked
      positions below it. */
  lemma InsertNext(cs: seq<int>, prev: seq<nat>, m: nat, r: seq<nat>)
    requires m < |cs| && Ranked(cs, prev) && InRange(prev, m)
    requires r == Insert(cs, m, prev)
    ensures Ranked(cs, r) && InRange(r, m + 1)
  {
    assert m !in prev;
    InsertRanked(cs, m, prev);
    forall i | 0 <= i < |r| ensures r[i] < m + 1 {
      assert r[i] in r;
      if r[i] != m {
        var j :| 0 <= j < |prev| && prev[j] == r[i];
      }
    }
  }

  /** Along a ranked list the counts do not increase. */
  lemma RankedCounts(cs: seq<int>, p: seq<nat>)
    requires Ranked(cs, p) && InRange(p, |cs|)
    ensures forall i, j :: 0 <= i < j < |p| ==> cs[p[i]] >= cs[p[j]]
  {
    forall i, j | 0 <= i < j < |p| ensures cs[p[i]] >= cs[p[j]] {
      assert Before(cs, p[i], p[j]);
    }
  }

  function CountColumn(rows: seq<DistrictCount>): seq<int>
  {
    seq(|rows|, i requires 0 <= i < |rows| => rows[i].nHospitales)
  }

  /** The positions `nlargest(k)` selects, in the order it returns them. */
  function TopPositions(rows: seq<DistrictCount>, k: nat): seq<nat>
  {
    var p := Order(CountColumn(rows), |rows|);
    p[..if k < |p| then k else |p|]
  }

  /** The `k` districts `nlargest` returns, largest count first. */
  function NLargest(rows: seq<DistrictCount>, k: nat): (top: seq<DistrictCount>)
    ensures |top| == if k < |rows| then k else |rows|
    ensures forall i, j :: 0 <= i < j < |top| ==> top[i].nHospitales >= top[j].nHospitales
  {
    var cs := CountColumn(rows);
    var p := Order(cs, |rows|);
    OrderRanked(cs, |rows|);
    OrderPositions(cs, |rows|);
    var s := TopPositions(rows, k);
    RankedCounts(cs, p);
    seq(|s|, i requires 0 <= i < |s| => rows[s[i]])
  }

  /** The top-10 districts drawn on the third static map. */
  function TopDistricts(rows: seq<DistrictCount>): seq<DistrictCount>
  {
    NLargest(rows, 10)
  }

  /** For every `k`, each selected row is the district at its selected
      position, and the selected positions are distinct positions of the
      layer. */
  lemma NLargestRows(rows: seq<DistrictCount>, k: nat)
    ensures var s := TopPositions(rows, k);
            |NLargest(rows, k)| == |s| &&
            (forall i :: 0 <= i < |s| ==> s[i] < |rows| && NLargest(rows, k)[i] == rows[s[i]]) &&
            (forall i, j :: 0 <= i < j < |s| ==> s[i] != s[j])
  {
    var cs := CountColumn(rows);
    var p := Order(cs, |rows|);
    OrderRanked(cs, |rows|);
    OrderPositions(cs, |rows|);
    var s := TopPositions(rows, k);
    forall i, i' | 0 <= i < i' < |s| ensures s[i] != s[i'] {
      assert Before(cs, p[i], p[i']);
    }
  }

  /** Every row left out ranks below every row selected: its count is
      smaller, or equal with a later position. */
  lemma NLargestSelectsTop(rows: seq<DistrictCount>, k: nat, q: nat)
    requires q < |rows| && q !in TopPositions(rows, k)
    ensures var s := TopPositions(rows, k);
            forall i :: 0 <= i < |s| ==>
              s[i] < |rows| &&
              (rows[q].nHospitales < rows[s[i]].nHospitales ||
               (rows[q].nHospitales == rows[s[i]].nHospitales && s[i] < q))
  {
    var cs := CountColumn(rows);
    var p := Order(cs, |rows|);
    OrderRanked(cs, |rows|);
    OrderPositions(cs, |rows|);
    var s := TopPositions(rows, k);
    assert q in p;
    var j :| 0 <= j < |p| && p[j] == q;
    assert j >= |s|;
    forall i | 0 <= i < |s|
      ensures rows[q].nHospitales < rows[s[i]].nHospitales ||
              (rows[q].nHospitales == rows[s[i]].nHospitales && s[i] < q)
    {
      assert Before(cs, p[i], p[j]);
    }
  }
}
