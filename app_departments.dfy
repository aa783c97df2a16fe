/** `analyze_departments` of src/app.py: the district counts dissolved by
    DEPARTAMEN with N_HOSPITALES summed, and the summary table sorted by that
    sum, largest first. Only the attribute part of `dissolve` is modelled; the
    union of the district polygons is not. */
module AppDepartments {
  import opened Collections
  import opened Records
  import opened Grouping
  import opened AppDistricts

  /** `departamentos_gdf` (one row per department, in ascending name order)
      and `summary_table` (the same rows, by count, largest first). */
  datatype Departments = Departments(departamentos: seq<KeyCount>, summary: seq<KeyCount>)

  /** The (DEPARTAMEN, N_HOSPITALES) pairs `dissolve` groups; a district
      without a department name belongs to no group. */
  function DepartmentPairs(rows: seq<DistrictCount>): seq<KeyCount>
  {
    if rows == [] then []
    else (if rows[0].district.departamen.Some?
          then [KeyCount(rows[0].district.departamen.value, rows[0].nHospitales)] else [])
         + DepartmentPairs(rows[1..])
  }

  /** The department names that occur in the district rows. */
  function DepartmentNames(rows: seq<DistrictCount>): set<string>
  {
    set r | r in rows && r.district.departamen.Some? :: r.district.departamen.value
  }

  /** The sum of the counts of the districts of department `k`. */
  function DistrictSum(rows: seq<DistrictCount>, k: string): int
  {
    if rows == [] then 0
    else (if rows[0].district.departamen == Some(k) then rows[0].nHospitales else 0)
         + DistrictSum(rows[1..], k)
  }

  /** The sum of the counts of the districts that have a department name. */
  function NamedTotal(rows: seq<DistrictCount>): int
  {
    if rows == [] then 0
    else (if rows[0].district.departamen.Some? then rows[0].nHospitales else 0)
         + NamedTotal(rows[1..])
  }

  /** The sum of the counts of all districts. */
  function DistrictTotal(rows: seq<DistrictCount>): int
  {
    if rows == [] then 0 else rows[0].nHospitales + DistrictTotal(rows[1..])
  }

  function AnalyzeDepartments(rows: seq<DistrictCount>): (r: Departments)
    ensures KeysAscending(r.departamentos)
    ensures Keys(r.departamentos) == DepartmentNames(rows)
    ensures NonIncreasing(r.summary)
    ensures multiset(r.summary) == multiset(r.departamentos)
  {
    PairsKeys(rows);
    var departamentos := GroupSum(DepartmentPairs(rows));
    Departments(departamentos, SortByCountDesc(departamentos))
  }

  lemma {:induction false} PairsKeys(rows: seq<DistrictCount>)
    ensures Keys(DepartmentPairs(rows)) == DepartmentNames(rows)
  {
    if rows != [] {
      var head := if rows[0].district.departamen.Some?
                  then [KeyCount(rows[0].district.departamen.value, rows[0].nHospitales)] else [];
      PairsKeys(rows[1..]);
      assert DepartmentPairs(rows) == head + DepartmentPairs(rows[1..]);
      assert Keys(head + DepartmentPairs(rows[1..])) == Keys(head) + Keys(DepartmentPairs(rows[1..]));
      assert DepartmentNames(rows) == DepartmentNames(rows[..1]) + DepartmentNames(rows[1..]) by {
        assert rows == rows[..1] + rows[1..];
        assert forall r :: r in rows <==> r in rows[..1] || r in rows[1..];
      }
    }
  }

  lemma {:induction false} PairsSums(rows: seq<DistrictCount>, k: string)
    ensures SumFor(DepartmentPairs(rows), k) == DistrictSum(rows, k)
    ensures Total(DepartmentPairs(rows)) == NamedTotal(rows)
  {
    if rows != [] {
      PairsSums(rows[1..], k);
      var rest := DepartmentPairs(rows[1..]);
      if rows[0].district.departamen.Some? {
        var x := KeyCount(rows[0].district.departamen.value, rows[0].nHospitales);
        assert DepartmentPairs(rows) == [x] + rest;
        assert ([x] + rest)[1..] == rest;
      } else {
        assert [] + rest == rest;
        assert DepartmentPairs(rows) == rest;
      }
    }
  }

  /** Each department row carries the sum of the counts of its districts. */
  lemma DepartmentCountIsDistrictSum(rows: seq<DistrictCount>, i: int)
    requires 0 <= i < |AnalyzeDepartments(rows).departamentos|
    ensures var t := AnalyzeDepartments(rows).departamentos;
            t[i].count == DistrictSum(rows, t[i].key)
  {
    var t := AnalyzeDepartments(rows).departamentos;
    AscendingIsDistinct(t);
    SumForDistinct(t, i);
    GroupSumSums(DepartmentPairs(rows), t[i].key);
    PairsSums(rows, t[i].key);
  }

  /** The department totals add up to the total of the districts that have a
      department name, and to the total of all districts when every district
      has one. */
  lemma DepartmentTotal(rows: seq<DistrictCount>)
    ensures Total(AnalyzeDepartments(rows).departamentos) == NamedTotal(rows)
    ensures (forall i :: 0 <= i < |rows| ==> rows[i].district.departamen.Some?)
            ==> Total(AnalyzeDepartments(rows).departamentos) == DistrictTotal(rows)
  {
    GroupSumSums(DepartmentPairs(rows), "");
    PairsSums(rows, "");
    if forall i :: 0 <= i < |rows| ==> rows[i].district.departamen.Some? {
      AllNamed(rows);
    }
  }

  lemma {:induction false} AllNamed(rows: seq<DistrictCount>)
    requires forall i :: 0 <= i < |rows| ==> rows[i].district.departamen.Some?
    ensures NamedTotal(rows) == DistrictTotal(rows)
  {
    if rows != [] {
      AllNamed(rows[1..]);
    }
  }

  /** The summary table has one row per department name and each row keeps
      the sum of its districts' counts; the grand total is unchanged. */
  lemma SummaryRows(rows: seq<DistrictCount>, i: int)
    requires 0 <= i < |AnalyzeDepartments(rows).summary|
    ensures var s := AnalyzeDepartments(rows).summary;
            DistinctKeys(s) && Keys(s) == DepartmentNames(rows) &&
            s[i].count == DistrictSum(rows, s[i].key) && Total(s) == NamedTotal(rows)
  {
    var r := AnalyzeDepartments(rows);
    var t, s := r.departamentos, r.summary;
    AscendingIsDistinct(t);
    SortKeys(t);
    SortSums(t, s[i].key);
    SumForDistinct(s, i);
    GroupSumSums(DepartmentPairs(rows), s[i].key);
    PairsSums(rows, s[i].key);
  }
}
