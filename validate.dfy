/**
 * The data tests of validate.py: element-wise comparisons over columns, the
 * four checks of the NYT suite, and the runner that applies a suite to a frame.
 */
module Validate {
  import opened Wrappers
  import opened Text
  import opened Frames

  /** A cell that compares as a number. */
  predicate IsNumber(v: Value)
  {
    v.Int? || v.Float?
  }

  function Number(v: Value): int
    requires IsNumber(v)
  {
    if v.Int? then v.i else v.whole
  }

  /** A cell a numeric comparison accepts: a number or a missing value. */
  predicate Comparable(v: Value)
  {
    IsNumber(v) || v.NaN?
  }

  /**
   * `a <= b` for two cells of numeric columns: numbers compare by value, a
   * missing value compared with a number or a missing value is false, and any
   * other pair raises, a missing value against a text included.
   */
  function LessEq(a: Value, b: Value): (r: Result<bool>)
    ensures r.Ok? <==> Comparable(a) && Comparable(b)
    ensures r.Err? ==> r.error == TypeError
    ensures r == Ok(true) <==> IsNumber(a) && IsNumber(b) && Number(a) <= Number(b)
  {
    if IsNumber(a) && IsNumber(b) then Ok(Number(a) <= Number(b))
    else if Comparable(a) && Comparable(b) then Ok(false)
    else Err(TypeError)
  }

  /** A missing value on either side gives false against a number or a missing value, and raises against anything else. */
  lemma LessEqMissing(v: Value)
    ensures LessEq(NaN, v) == (if Comparable(v) then Ok(false) else Err(TypeError))
    ensures LessEq(v, NaN) == (if Comparable(v) then Ok(false) else Err(TypeError))
  {
  }

  /** `(xs <= ys).all()` for two aligned columns. */
  function AllLessEq(xs: seq<Value>, ys: seq<Value>): (r: Result<bool>)
    requires |xs| == |ys|
    ensures r.Ok? <==> forall i :: 0 <= i < |xs| ==> LessEq(xs[i], ys[i]).Ok?
    ensures r.Err? ==> r.error == TypeError
    ensures r == Ok(true) <==> forall i :: 0 <= i < |xs| ==> LessEq(xs[i], ys[i]) == Ok(true)
    decreases |xs|
  {
    if |xs| == 0 then Ok(true)
    else
      var first := LessEq(xs[0], ys[0]);
      var rest := AllLessEq(xs[1..], ys[1..]);
      assert forall i :: 1 <= i < |xs| ==> xs[1..][i - 1] == xs[i] && ys[1..][i - 1] == ys[i];
      if first.Err? then first
      else if rest.Err? then rest
      else Ok(first.value && rest.value)
  }

  /**
   * `range_test(series, lo, hi)`: the lower comparison first; `and` evaluates the
   * upper one only when the lower one holds.
   */
  function RangeTest(series: seq<Value>, lo: int, hi: int): (r: Result<bool>)
  {
    var atLeast :- AllLessEq(Repeat(Int(lo), |series|), series);
    if !atLeast then Ok(false)
    else AllLessEq(series, Repeat(Int(hi), |series|))
  }

  /**
   * range_test raises exactly when some cell is neither a number nor missing, and
   * holds exactly when every cell is a number within [lo, hi].
   */
  lemma RangeTestMeaning(series: seq<Value>, lo: int, hi: int)
    ensures RangeTest(series, lo, hi).Err? <==> exists i :: 0 <= i < |series| && !Comparable(series[i])
    ensures RangeTest(series, lo, hi) == Ok(true) <==>
      forall i :: 0 <= i < |series| ==> IsNumber(series[i]) && lo <= Number(series[i]) <= hi
  {
    var n := |series|;
    var lower := AllLessEq(Repeat(Int(lo), n), series);
    if lower.Err? {
      var i :| 0 <= i < n && LessEq(Repeat(Int(lo), n)[i], series[i]).Err?;
      assert !Comparable(series[i]);
    } else if !lower.value {
      var i :| 0 <= i < n && LessEq(Repeat(Int(lo), n)[i], series[i]) != Ok(true);
      assert !(IsNumber(series[i]) && lo <= Number(series[i]));
    } else {
      assert forall i :: 0 <= i < n ==> IsNumber(series[i]) && lo <= Number(series[i]) by {
        forall i | 0 <= i < n
          ensures IsNumber(series[i]) && lo <= Number(series[i])
        {
          assert LessEq(Repeat(Int(lo), n)[i], series[i]) == Ok(true);
        }
      }
      forall i | 0 <= i < n
        ensures LessEq(series[i], Repeat(Int(hi), n)[i]) == Ok(true) <==> Number(series[i]) <= hi
        ensures LessEq(series[i], Repeat(Int(hi), n)[i]).Ok?
      {
      }
    }
  }

  const CASES_MAX := 10000000   // 10e6
  const DEATHS_MAX := 100000    // 1e5

  /** The checks of the NYT suite. */
  datatype Check = CasesVsDeaths | UniqueRecords | CasesRange | DeathsRange

  /** `df[['date', 'fips']]` as one (date, fips) pair per row. */
  function KeyPairs(date: seq<Value>, fips: seq<Value>): (r: seq<(Value, Value)>)
    requires |date| == |fips|
    ensures |r| == |date| && forall i :: 0 <= i < |date| ==> r[i] == (date[i], fips[i])
  {
    seq(|date|, i requires 0 <= i < |date| => (date[i], fips[i]))
  }

  /** `drop_duplicates()`: the first occurrence of every pair, in order. */
  function Dedup(xs: seq<(Value, Value)>): (r: seq<(Value, Value)>)
    ensures |r| <= |xs|
    decreases |xs|
  {
    if |xs| == 0 then []
    else
      var last := xs[|xs| - 1];
      Dedup(xs[..|xs| - 1]) + (if last in xs[..|xs| - 1] then [] else [last])
  }

  predicate Distinct(xs: seq<(Value, Value)>)
  {
    forall i, j :: 0 <= i < j < |xs| ==> xs[i] != xs[j]
  }

  /** Dropping duplicates keeps every row exactly when no two rows are equal. */
  lemma {:induction false} DedupKeepsAll(xs: seq<(Value, Value)>)
    ensures |Dedup(xs)| == |xs| <==> Distinct(xs)
    decreases |xs|
  {
    if |xs| > 0 {
      var init := xs[..|xs| - 1];
      var last := xs[|xs| - 1];
      DedupKeepsAll(init);
      if Distinct(xs) {
        assert Distinct(init) by {
          forall i, j | 0 <= i < j < |init|
            ensures init[i] != init[j]
          {
            assert init[i] == xs[i] && init[j] == xs[j];
          }
        }
      }
      if |Dedup(xs)| == |xs| {
        assert last !in init && Distinct(init);
        forall i, j | 0 <= i < j < |xs|
          ensures xs[i] != xs[j]
        {
          if j < |xs| - 1 {
            assert init[i] == xs[i] && init[j] == xs[j];
          } else {
            assert init[i] == xs[i];
          }
        }
      }
    }
  }

  /** `unique_records(df)`. */
  function UniqueRecordsTest(f: Frame): (r: Result<bool>)
    requires WellFormed(f)
    ensures r.Ok? <==> "date" in f.names && "fips" in f.names
  {
    var date :- GetColumn(f, "date");
    var fips :- GetColumn(f, "fips");
    Ok(|Dedup(KeyPairs(date, fips))| == f.height)
  }

  /** unique_records holds exactly when no two rows share both date and FIPS code. */
  lemma UniqueRecordsMeaning(f: Frame)
    requires WellFormed(f) && "date" in f.names && "fips" in f.names
    ensures var date := GetColumn(f, "date").value;
      var fips := GetColumn(f, "fips").value;
      UniqueRecordsTest(f) == Ok(true) <==>
        forall i, j :: 0 <= i < j < f.height ==> (date[i], fips[i]) != (date[j], fips[j])
  {
    var date := GetColumn(f, "date").value;
    var fips := GetColumn(f, "fips").value;
    var pairs := KeyPairs(date, fips);
    DedupKeepsAll(pairs);
    assert Distinct(pairs) <==> forall i, j :: 0 <= i < j < f.height ==> (date[i], fips[i]) != (date[j], fips[j]) by {
      assert forall i :: 0 <= i < f.height ==> pairs[i] == (date[i], fips[i]);
    }
  }

  /** One check of the suite on one frame. */
  function Run(check: Check, f: Frame): (r: Result<bool>)
    requires WellFormed(f)
  {
    match check
    case CasesVsDeaths =>
      var deaths :- GetColumn(f, "deaths");
      var cases :- GetColumn(f, "cases");
      AllLessEq(deaths, cases)
    case UniqueRecords => UniqueRecordsTest(f)
    case CasesRange =>
      var cases :- GetColumn(f, "cases");
      RangeTest(cases, 0, CASES_MAX)
    case DeathsRange =>
      var deaths :- GetColumn(f, "deaths");
      RangeTest(deaths, 0, DEATHS_MAX)
  }

  /** cases_vs_deaths holds exactly when every row's deaths and cases are numbers with deaths <= cases. */
  lemma CasesVsDeathsMeaning(f: Frame)
    requires WellFormed(f) && "deaths" in f.names && "cases" in f.names
    ensures var deaths := GetColumn(f, "deaths").value;
      var cases := GetColumn(f, "cases").value;
      Run(CasesVsDeaths, f) == Ok(true) <==>
        forall i :: 0 <= i < f.height ==>
          IsNumber(deaths[i]) && IsNumber(cases[i]) && Number(deaths[i]) <= Number(cases[i])
  {
  }

  /** The range checks hold exactly when every count is a number in [0, 10M] (cases) or [0, 100K] (deaths). */
  lemma RangeChecksMeaning(f: Frame)
    requires WellFormed(f) && "deaths" in f.names && "cases" in f.names
    ensures var cases := GetColumn(f, "cases").value;
      Run(CasesRange, f) == Ok(true) <==>
        forall i :: 0 <= i < f.height ==> IsNumber(cases[i]) && 0 <= Number(cases[i]) <= CASES_MAX
    ensures var deaths := GetColumn(f, "deaths").value;
      Run(DeathsRange, f) == Ok(true) <==>
        forall i :: 0 <= i < f.height ==> IsNumber(deaths[i]) && 0 <= Number(deaths[i]) <= DEATHS_MAX
  {
    RangeTestMeaning(GetColumn(f, "cases").value, 0, CASES_MAX);
    RangeTestMeaning(GetColumn(f, "deaths").value, 0, DEATHS_MAX);
  }

  /** A test of a suite: a check and the message logged when it fails. */
  datatype Test = Test(check: Check, message: string)

  /** The suite `nyt_cases_counties`, in its order. */
  const NYT_CASES_COUNTIES: seq<Test> := [
    Test(CasesVsDeaths, "Death counts cannot exceed case counts."),
    Test(UniqueRecords, "Only one record per FIPs, per date allowed."),
    Test(CasesRange, "Cases must be non-negative and <= 10M"),
    Test(DeathsRange, "Deaths must be non-negative and <= 100K")]

  /** The suites main.py can name. */
  const SUITES: map<string, seq<Test>> := map["nyt_cases_counties" := NYT_CASES_COUNTIES]

  /** The results of running the tests in order; the first one that raises ends the run. */
  function Results(f: Frame, tests: seq<Test>): (r: Result<seq<bool>>)
    requires WellFormed(f)
    ensures r.Ok? ==> |r.value| == |tests| && forall i :: 0 <= i < |tests| ==> Run(tests[i].check, f) == Ok(r.value[i])
    decreases |tests|
  {
    if |tests| == 0 then Ok([])
    else
      var earlier :- Results(f, tests[..|tests| - 1]);
      var last :- Run(tests[|tests| - 1].check, f);
      assert forall i :: 0 <= i < |tests| - 1 ==> tests[..|tests| - 1][i] == tests[i];
      Ok(earlier + [last])
  }

  /** Once a prefix of the suite raises, the whole run raises the same error. */
  lemma {:induction false} ResultsAfterError(f: Frame, tests: seq<Test>, i: nat)
    requires WellFormed(f) && i <= |tests| && Results(f, tests[..i]).Err?
    ensures Results(f, tests) == Results(f, tests[..i])
    decreases |tests| - i
  {
    if i < |tests| {
      var longer := tests[..i + 1];
      assert longer[..i] == tests[..i];
      assert Results(f, longer).Err?;
      ResultsAfterError(f, tests, i + 1);
    } else {
      assert tests[..i] == tests;
    }
  }

  /** What `test_data(df, tests)` returns: whether every result is true, that is sum == len. */
  function TestDataSpec(f: Frame, tests: seq<Test>): (r: Result<bool>)
    requires WellFormed(f)
  {
    var results :- Results(f, tests);
    Ok(CountTrue(results) == |results|)
  }

  /** `test_data(df, tests)`: run each test on a copy of the frame; log and count its outcome. */
  method TestData(df: DataFrame, tests: seq<Test>) returns (r: Result<bool>)
    requires df.Valid()
    ensures r == TestDataSpec(df.Contents(), tests)
  {
    var results: seq<bool> := [];
    var i := 0;
    while i < |tests|
      invariant 0 <= i <= |tests|
      invariant Results(df.Contents(), tests[..i]) == Ok(results)
    {
      var copy := df.Copy();
      var outcome := Run(tests[i].check, copy.Contents());
      assert tests[..i + 1][..i] == tests[..i];
      if outcome.Err? {
        ResultsAfterError(df.Contents(), tests, i + 1);
        return Err(outcome.error);
      }
      results := results + [outcome.value];
      i := i + 1;
    }
    assert tests[..i] == tests;
    r := Ok(CountTrue(results) == |results|);
  }

  lemma {:induction false} CountTrueAll(results: seq<bool>)
    ensures CountTrue(results) == |results| <==> forall k :: 0 <= k < |results| ==> results[k]
    decreases |results|
  {
    if |results| > 0 {
      CountTrueAll(results[1..]);
      assert forall k :: 1 <= k < |results| ==> results[1..][k - 1] == results[k];
    }
  }

  /**
   * test_data returns true exactly when every test returns true, false exactly
   * when every test returns and some returns false; an empty suite passes.
   */
  lemma TestDataMeaning(f: Frame, tests: seq<Test>)
    requires WellFormed(f)
    ensures TestDataSpec(f, tests) == Ok(true) <==> forall i :: 0 <= i < |tests| ==> Run(tests[i].check, f) == Ok(true)
    ensures TestDataSpec(f, tests) == Ok(false) <==>
      (forall i :: 0 <= i < |tests| ==> Run(tests[i].check, f).Ok?) &&
      exists i :: 0 <= i < |tests| && Run(tests[i].check, f) == Ok(false)
    ensures |tests| == 0 ==> TestDataSpec(f, tests) == Ok(true)
  {
    var results := Results(f, tests);
    if results.Ok? {
      CountTrueAll(results.value);
    } else {
      ResultsRaise(f, tests);
    }
  }

  /** When the run raises, some test raises. */
  lemma {:induction false} ResultsRaise(f: Frame, tests: seq<Test>)
    requires WellFormed(f) && Results(f, tests).Err?
    ensures exists i :: 0 <= i < |tests| && Run(tests[i].check, f).Err?
    decreases |tests|
  {
    var init := tests[..|tests| - 1];
    if Results(f, init).Err? {
      ResultsRaise(f, init);
      var i :| 0 <= i < |init| && Run(init[i].check, f).Err?;
      assert init[i] == tests[i];
    }
  }

  /** The NYT suite passes exactly when all four checks pass. */
  lemma NytSuiteMeaning(f: Frame)
    requires WellFormed(f)
    ensures TestDataSpec(f, SUITES["nyt_cases_counties"]) == Ok(true) <==>
      && Run(CasesVsDeaths, f) == Ok(true)
      && Run(UniqueRecords, f) == Ok(true)
      && Run(CasesRange, f) == Ok(true)
      && Run(DeathsRange, f) == Ok(true)
  {
    TestDataMeaning(f, NYT_CASES_COUNTIES);
    assert NYT_CASES_COUNTIES[0].check == CasesVsDeaths;
    assert NYT_CASES_COUNTIES[1].check == UniqueRecords;
    assert NYT_CASES_COUNTIES[2].check == CasesRange;
    assert NYT_CASES_COUNTIES[3].check == DeathsRange;
  }

  /** A one-row frame with three cases and five deaths. */
  function DeathsOverCases(): (f: Frame)
    ensures WellFormed(f)
  {
    Frame(["date", "fips", "cases", "deaths"], [[NaN], [Str("01001")], [Int(3)], [Int(5)]], 1)
  }

  lemma DeathsOverCasesColumns()
    ensures GetColumn(DeathsOverCases(), "date") == Ok([NaN])
    ensures GetColumn(DeathsOverCases(), "fips") == Ok([Str("01001")])
    ensures GetColumn(DeathsOverCases(), "cases") == Ok([Int(3)])
    ensures GetColumn(DeathsOverCases(), "deaths") == Ok([Int(5)])
  {
    var names := DeathsOverCases().names;
    IndexOfFirst(names, "date", 0);
    IndexOfFirst(names, "fips", 1);
    IndexOfFirst(names, "cases", 2);
    IndexOfFirst(names, "deaths", 3);
  }

  lemma DeathsOverCasesCounts()
    ensures Run(CasesVsDeaths, DeathsOverCases()) == Ok(false)
    ensures Run(CasesRange, DeathsOverCases()) == Ok(true)
    ensures Run(DeathsRange, DeathsOverCases()) == Ok(true)
  {
    var f := DeathsOverCases();
    DeathsOverCasesColumns();
    RangeChecksMeaning(f);
    assert AllLessEq([Int(5)], [Int(3)]) == Ok(false);
  }

  lemma DeathsOverCasesUnique()
    ensures Run(UniqueRecords, DeathsOverCases()) == Ok(true)
  {
    DeathsOverCasesColumns();
    assert KeyPairs([NaN], [Str("01001")]) == [(NaN, Str("01001"))];
    assert Dedup([(NaN, Str("01001"))]) == [(NaN, Str("01001"))];
  }

  /** When every check of the NYT suite returns and the first returns false, the suite fails without raising. */
  lemma NytSuiteFails(f: Frame)
    requires WellFormed(f) && Run(CasesVsDeaths, f) == Ok(false)
    requires Run(UniqueRecords, f).Ok? && Run(CasesRange, f).Ok? && Run(DeathsRange, f).Ok?
    ensures TestDataSpec(f, NYT_CASES_COUNTIES) == Ok(false)
  {
    assert NYT_CASES_COUNTIES[0].check == CasesVsDeaths;
    assert NYT_CASES_COUNTIES[1].check == UniqueRecords;
    assert NYT_CASES_COUNTIES[2].check == CasesRange;
    assert NYT_CASES_COUNTIES[3].check == DeathsRange;
    var tests := NYT_CASES_COUNTIES;
    forall i | 0 <= i < |tests|
      ensures Run(tests[i].check, f).Ok?
    {
      assert i == 0 || i == 1 || i == 2 || i == 3;
    }
    assert Run(tests[0].check, f) == Ok(false);
    TestDataMeaning(f, tests);
  }

  /** A frame reporting more deaths than cases fails the NYT suite without raising. */
  lemma MoreDeathsThanCasesFails()
    ensures TestDataSpec(DeathsOverCases(), NYT_CASES_COUNTIES) == Ok(false)
  {
    DeathsOverCasesCounts();
    DeathsOverCasesUnique();
    NytSuiteFails(DeathsOverCases());
  }
}
