/** The department tally at module level in src/TASK4.py: `value_counts` of
    the hospitals' department name, a left merge onto the dissolved
    departments on DEPARTAMENTO, and `fillna(0)` on N_HOSPITALES. */
module Task4Departments {
  import opened Collections
  import opened Records
  import opened Grouping

  /** One pair (name, 1) per hospital that has a department name. */
  function OnePairs(hp: seq<Hospital>): seq<KeyCount>
  {
    if hp == [] then []
    else (if hp[0].record.departamento.Some? then [KeyCount(hp[0].record.departamento.value, 1)] else [])
         + OnePairs(hp[1..])
  }

  /** The department names the hospital table carries. */
  function HospitalNames(hp: seq<Hospital>): set<string>
  {
    set h | h in hp && h.record.departamento.Some? :: h.record.departamento.value
  }

  predicate Named(h: Hospital)
  {
    h.record.departamento.Some?
  }

  /** `value_counts` of the hospitals' department name: one row per name carried by a
      hospital, by count, largest first, with no promised order among ties. */
  function ValueCounts(hp: seq<Hospital>): (t: seq<KeyCount>)
    ensures DistinctKeys(t)
    ensures Keys(t) == HospitalNames(hp)
    ensures NonIncreasing(t)
  {
    OnePairsKeys(hp);
    var grouped := GroupSum(OnePairs(hp));
    AscendingIsDistinct(grouped);
    SortKeys(grouped);
    SortByCountDesc(grouped)
  }

  lemma {:induction false} OnePairsKeys(hp: seq<Hospital>)
    ensures Keys(OnePairs(hp)) == HospitalNames(hp)
  {
    if hp != [] {
      var head := if hp[0].record.departamento.Some? then [KeyCount(hp[0].record.departamento.value, 1)] else [];
      OnePairsKeys(hp[1..]);
      assert OnePairs(hp) == head + OnePairs(hp[1..]);
      assert Keys(head + OnePairs(hp[1..])) == Keys(head) + Keys(OnePairs(hp[1..]));
      assert HospitalNames(hp) == HospitalNames(hp[..1]) + HospitalNames(hp[1..]) by {
        assert hp == hp[..1] + hp[1..];
        assert forall h :: h in hp <==> h in hp[..1] || h in hp[1..];
      }
    }
  }

  lemma {:induction false} OnePairsSums(hp: seq<Hospital>, k: string)
    ensures SumFor(OnePairs(hp), k) == Count(hp, HospitalIn(k))
    ensures Total(OnePairs(hp)) == Count(hp, Named)
  {
    if hp != [] {
      OnePairsSums(hp[1..], k);
      var rest := OnePairs(hp[1..]);
      if hp[0].record.departamento.Some? {
        var x := KeyCount(hp[0].record.departamento.value, 1);
        assert OnePairs(hp) == [x] + rest;
        assert ([x] + rest)[1..] == rest;
      } else {
        assert [] + rest == rest;
        assert OnePairs(hp) == rest;
      }
    }
  }

  /** The value-count table holds, for every name, the number of hospitals
      carrying it (0 for a name it does not list), and its counts add up to
      the number of hospitals that have a name. */
  lemma ValueCountsCounts(hp: seq<Hospital>, k: string)
    ensures SumFor(ValueCounts(hp), k) == Count(hp, HospitalIn(k))
    ensures Total(ValueCounts(hp)) == Count(hp, Named)
  {
    var grouped := GroupSum(OnePairs(hp));
    SortSums(grouped, k);
    GroupSumSums(OnePairs(hp), k);
    OnePairsSums(hp, k);
  }

  /** A row of `peru_dptos_gdf` after the merge, before `fillna`. */
  datatype MergedRow = MergedRow(departamento: string, nHospitales: Option<int>)

  /** The count a left merge on the name brings from `t`: that of the first
      row with the name, or none. */
  function Lookup(t: seq<KeyCount>, k: string): (cell: Option<int>)
    ensures cell.None? <==> k !in Keys(t)
  {
    if t == [] then None
    else if t[0].key == k then Some(t[0].count)
    else
      assert Keys(t) == {t[0].key} + Keys(t[1..]) by { KeysCons(t[0], t[1..]); assert t == [t[0]] + t[1..]; }
      Lookup(t[1..], k)
  }

  /** In a table without repeated names, the merged count is the table's sum
      for the name. */
  lemma {:induction false} LookupDistinct(t: seq<KeyCount>, k: string)
    requires DistinctKeys(t) && k in Keys(t)
    ensures Lookup(t, k) == Some(SumFor(t, k))
  {
    HeadKeyUnique(t);
    if t[0].key == k {
      SumForAbsent(t[1..], k);
    } else {
      KeysCons(t[0], t[1..]);
      assert t == [t[0]] + t[1..];
      LookupDistinct(t[1..], k);
    }
  }

  function MergeLeft(names: seq<string>, summary: seq<KeyCount>): (rows: seq<MergedRow>)
    ensures |rows| == |names|
    ensures forall i :: 0 <= i < |rows| ==> rows[i].departamento == names[i]
  {
    seq(|names|, i requires 0 <= i < |names| => MergedRow(names[i], Lookup(summary, names[i])))
  }

  function FillNa(rows: seq<MergedRow>): seq<KeyCount>
  {
    seq(|rows|, i requires 0 <= i < |rows| =>
      KeyCount(rows[i].departamento, if rows[i].nHospitales.Some? then rows[i].nHospitales.value else 0))
  }

  /** The module-level tally: every department row is kept, in order, and
      carries the number of hospitals with its name, 0 when none has it. */
  method DepartmentTally(hp: seq<Hospital>, peruDptos: seq<string>) returns (merged: seq<KeyCount>)
    ensures |merged| == |peruDptos|
    ensures forall i :: 0 <= i < |merged| ==> merged[i] == KeyCount(peruDptos[i], Count(hp, HospitalIn(peruDptos[i])))
  {
    var dptoSummary := ValueCounts(hp);
    var withCounts := MergeLeft(peruDptos, dptoSummary);
    merged := FillNa(withCounts);
    forall i | 0 <= i < |merged|
      ensures merged[i] == KeyCount(peruDptos[i], Count(hp, HospitalIn(peruDptos[i])))
    {
      var k := peruDptos[i];
      ValueCountsCounts(hp, k);
      if k in Keys(dptoSummary) {
        LookupDistinct(dptoSummary, k);
      } else {
        SumForAbsent(dptoSummary, k);
      }
    }
  }

  // ---------------------------------------------------------------------
  // Conservation: the merged counts account for every hospital whose name
  // is a department row, once.

  /** The hospital names `names` accounts for. */
  function NameIn(names: seq<string>): Hospital -> bool
  {
    (h: Hospital) => h.record.departamento.Some? && h.record.departamento.value in names
  }

  function Tallied(hp: seq<Hospital>, names: seq<string>): int
  {
    if names == [] then 0 else Count(hp, HospitalIn(names[0])) + Tallied(hp, names[1..])
  }

  /** Counting two predicates that never both hold adds up. */
  lemma {:induction false} CountDisjoint(hp: seq<Hospital>, p: Hospital -> bool, q: Hospital -> bool, both: Hospital -> bool)
    requires forall h :: !(p(h) && q(h))
    requires forall h :: both(h) == (p(h) || q(h))
    ensures Count(hp, both) == Count(hp, p) + Count(hp, q)
  {
    if hp != [] {
      CountDisjoint(hp[1..], p, q, both);
    }
  }

  lemma {:induction false} TalliedCounts(hp: seq<Hospital>, names: seq<string>)
    requires forall i, j :: 0 <= i < j < |names| ==> names[i] != names[j]
    ensures Tallied(hp, names) == Count(hp, NameIn(names))
  {
    if names == [] {
      assert Count(hp, NameIn(names)) == 0;
    } else {
      var rest := names[1..];
      TalliedCounts(hp, rest);
      assert names[0] !in rest by {
        assert forall j :: 0 <= j < |rest| ==> rest[j] == names[j + 1];
      }
      assert forall h :: !(HospitalIn(names[0])(h) && NameIn(rest)(h));
      assert forall h :: NameIn(names)(h) == (HospitalIn(names[0])(h) || NameIn(rest)(h)) by {
        assert names == [names[0]] + rest;
      }
      CountDisjoint(hp, HospitalIn(names[0]), NameIn(rest), NameIn(names));
    }
  }

  lemma {:induction false} TotalIsTallied(merged: seq<KeyCount>, hp: seq<Hospital>, names: seq<string>)
    requires |merged| == |names|
    requires forall i :: 0 <= i < |merged| ==> merged[i] == KeyCount(names[i], Count(hp, HospitalIn(names[i])))
    ensures Total(merged) == Tallied(hp, names)
  {
    if merged != [] {
      TotalIsTallied(merged[1..], hp, names[1..]);
    }
  }

  /** With distinct department names, the merged counts add up to the
      number of hospitals whose name is one of them; hospitals with any other
      name, or none, are in no row. */
  lemma TallyConserves(hp: seq<Hospital>, peruDptos: seq<string>, merged: seq<KeyCount>)
    requires forall i, j :: 0 <= i < j < |peruDptos| ==> peruDptos[i] != peruDptos[j]
    requires |merged| == |peruDptos|
    requires forall i :: 0 <= i < |merged| ==> merged[i] == KeyCount(peruDptos[i], Count(hp, HospitalIn(peruDptos[i])))
    ensures Total(merged) == Count(hp, NameIn(peruDptos))
  {
    TotalIsTallied(merged, hp, peruDptos);
    TalliedCounts(hp, peruDptos);
  }
}
