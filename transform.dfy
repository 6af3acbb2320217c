/**
 * The three named transforms of transform.py and the FIPS cleaner its test
 * expects. Each transform is a method over a DataFrame object that, like the
 * Python code, may write into the caller's frame before working on a copy;
 * each is tied to a function that says what it returns.
 */
module Transform {
  import opened Wrappers
  import opened Text
  import opened Frames
  import Decimal

  const FIPS_WIDTH: nat := 5
  const PUERTO_RICO := Str("Puerto Rico")

  /**
   * `(.*)\.` matches `s[i..j + 1]`: the group `s[i..j]` holds no '\n' (the
   * regular expression's `.` does not match one) and `s[j]` is a '.'.
   */
  predicate MatchesAt(s: string, i: nat, j: nat)
  {
    i <= j < |s| && s[j] == '.' && '\n' !in s[i..j]
  }

  /** The match `re.search` reports: it starts as early as any match can, and is then as long as it can be. */
  predicate SearchMatch(s: string, i: nat, j: nat)
  {
    && MatchesAt(s, i, j)
    && (forall i': nat, j': nat :: i' < i && j' < |s| ==> !MatchesAt(s, i', j'))
    && (forall j': nat :: j < j' < |s| ==> !MatchesAt(s, i, j'))
  }

  /** Where the line holding index `d` starts: just after the last '\n' before it. */
  function LineStart(s: string, d: nat): (i: nat)
    requires d <= |s|
    ensures i <= d && (i == 0 || s[i - 1] == '\n') && forall k :: i <= k < d ==> s[k] != '\n'
  {
    match LastIndexOf(s[..d], '\n')
    case Some(k) => k + 1
    case None => 0
  }

  /** Where the line holding index `d` ends: at the first '\n' from `d` on, or at the end of `s`. */
  function LineEnd(s: string, d: nat): (e: nat)
    requires d <= |s|
    ensures d <= e <= |s| && (e == |s| || s[e] == '\n') && forall k :: d <= k < e ==> s[k] != '\n'
  {
    match FirstIndexOf(s[d..], '\n')
    case Some(k) => d + k
    case None => |s|
  }

  /**
   * `.str.extract('(.*)\.')` of one text: the group of the first match, which
   * lies on the first line holding a '.' and runs from that line's start to its
   * last '.'; nothing when the text holds no '.'. A one-line text gives what
   * stands before its last '.'.
   */
  function ExtractBeforeLastDot(s: string): (r: Option<string>)
    ensures r.Some? <==> '.' in s
    ensures '\n' !in s && '.' in s ==> r == Some(CutAtLast(s, '.'))
  {
    match FirstIndexOf(s, '.')
    case None => None
    case Some(d) =>
      var i := LineStart(s, d);
      var e := LineEnd(s, d);
      assert s[..e][d] == '.';
      var j := LastIndexOf(s[..e], '.').value;
      assert '\n' !in s ==> i == 0 && e == |s| && s[..e] == s;
      Some(s[i..j])
  }

  /** The group is exactly the one of the match `re.search` finds, and there is none without a match. */
  lemma ExtractIsSearch(s: string)
    ensures ExtractBeforeLastDot(s).None? ==> forall i: nat, j: nat :: !MatchesAt(s, i, j)
    ensures ExtractBeforeLastDot(s).Some? ==>
      exists i: nat, j: nat :: SearchMatch(s, i, j) && ExtractBeforeLastDot(s).value == s[i..j]
  {
    match FirstIndexOf(s, '.')
    case None =>
    case Some(d) =>
      var i := LineStart(s, d);
      var e := LineEnd(s, d);
      assert s[..e][d] == '.';
      var j := LastIndexOf(s[..e], '.').value;
      assert d <= j < e;
      assert MatchesAt(s, i, j) by {
        forall k | i <= k < j
          ensures s[k] != '\n'
        {
          if k >= d {
            assert d <= k < e;
          }
        }
      }
      forall i': nat, j': nat | i' < i && j' < |s|
        ensures !MatchesAt(s, i', j')
      {
        if i' <= j' && s[j'] == '.' {
          assert j' >= d;
          assert s[i'..j'][i - 1 - i'] == '\n';
        }
      }
      forall j': nat | j < j' < |s|
        ensures !MatchesAt(s, i, j')
      {
        if j' < e {
          assert s[..e][j'] != '.';
        } else if j' == e {
          assert s[j'] == '\n';
        } else {
          assert s[i..j'][e - i] == '\n';
        }
      }
      assert SearchMatch(s, i, j);
  }

  /** The FIPS cell as transform.py line 11 computes it: astype(str), extract, zfill(5). */
  function NytFips(v: Value): Value
  {
    match ExtractBeforeLastDot(Render(v))
    case Some(p) => Str(ZFill(p, FIPS_WIDTH))
    case None => NaN
  }

  /** The FIPS cleaner the test calls: cut at the last '.', if any, then zero-pad to five. */
  function FipsClean(v: Value): (r: string)
    ensures |r| >= FIPS_WIDTH
  {
    ZFill(CutAtLast(Render(v), '.'), FIPS_WIDTH)
  }

  /** `str(1001)` and `str(11001)`, one digit at a time. */
  lemma TextOfTestCodes()
    ensures Render(Int(1001)) == "1001" && Render(Int(11001)) == "11001"
    ensures Render(Float(1001)) == "1001.0" && Render(Float(11001)) == "11001.0"
  {
    assert Decimal.NatToText(1) == "1";
    assert Decimal.NatToText(10) == "10";
    assert Decimal.NatToText(100) == "100";
    assert Decimal.NatToText(1001) == "1001";
    assert Decimal.NatToText(1100) == "1100";
    assert Decimal.NatToText(11) == "11";
    assert Decimal.NatToText(110) == "110";
    assert Decimal.NatToText(11001) == "11001";
  }

  /** A text of at least five characters without '.' is its own clean code. */
  lemma CleanOfDotless(s: string)
    requires |s| >= FIPS_WIDTH && '.' !in s
    ensures FipsClean(Str(s)) == s
  {
  }

  /** A float whose text is `d.0` cleans to `d` padded. */
  lemma CleanOfFloatText(v: Value, d: string)
    requires Render(v) == d + ".0"
    ensures FipsClean(v) == ZFill(d, FIPS_WIDTH)
  {
    assert d + ".0" == d + ['.'] + "0";
    CutAtLastAppend(d, '.', "0");
  }

  /** The seven cases of the cleaner's test, one per input kind. */
  lemma FipsCleanTestCases()
    ensures FipsClean(Str("01001")) == "01001"
    ensures FipsClean(Str("1001")) == "01001"
    ensures FipsClean(Int(1001)) == "01001"
    ensures FipsClean(Float(1001)) == "01001"
    ensures FipsClean(Str("11001")) == "11001"
    ensures FipsClean(Int(11001)) == "11001"
    ensures FipsClean(Float(11001)) == "11001"
  {
    TextOfTestCodes();
    assert ZFill("1001", FIPS_WIDTH) == "01001" by {
      assert Repeat('0', 1) == "0";
    }
    assert '.' !in "1001" && '.' !in "01001" && '.' !in "11001";
    CleanOfDotless("01001");
    CleanOfDotless("11001");
    CleanOfFloatText(Float(1001), "1001");
    CleanOfFloatText(Float(11001), "11001");
  }

  /**
   * For a county code 0 <= n < 100000, written as an int, a float or a text,
   * the cleaner gives the same five digits, and they denote n.
   */
  lemma FipsCleanCountyCode(n: nat)
    requires n < 100000
    ensures FipsClean(Int(n)) == FipsClean(Float(n)) == FipsClean(Str(Decimal.IntToText(n)))
    ensures |FipsClean(Int(n))| == FIPS_WIDTH && Decimal.AllDigits(FipsClean(Int(n)))
    ensures Decimal.DigitsValue(FipsClean(Int(n))) == n
  {
    var digits := Decimal.NatToText(n);
    assert Render(Int(n)) == digits && Render(Str(Decimal.IntToText(n))) == digits;
    CleanOfFloatText(Float(n), digits);
    assert Decimal.Pow10(5) == 100000;
    Decimal.NatToTextLength(n, 5);
    Decimal.NatToTextValue(n);
    Decimal.LeadingZeros(FIPS_WIDTH - |digits|, digits);
  }

  /** The text of a number or of a missing cell is one line. */
  lemma NumberTextOneLine(v: Value)
    requires v.Int? || v.Float? || v.NaN?
    ensures '\n' !in Render(v)
  {
    var w := if v.Int? then v.i else if v.Float? then v.whole else 0;
    var digits := Decimal.NatToText(if w < 0 then -w else w);
    assert '\n' !in digits by {
      forall k | 0 <= k < |digits|
        ensures digits[k] != '\n'
      {
        assert Decimal.IsDigit(digits[k]);
      }
    }
  }

  /**
   * The inline expression of line 11 agrees with the cleaner on every value whose
   * text is one line holding a '.' (every int, float and missing cell is one
   * line), and makes every value whose text has no '.' missing (so an int or
   * text FIPS code without '.' becomes NaN there).
   */
  lemma NytFipsVersusClean(v: Value)
    ensures '.' in Render(v) && '\n' !in Render(v) ==> NytFips(v) == Str(FipsClean(v))
    ensures '.' !in Render(v) ==> NytFips(v) == NaN
    ensures v.Int? || v.Float? || v.NaN? ==> '\n' !in Render(v)
  {
    if v.Int? || v.Float? || v.NaN? {
      NumberTextOneLine(v);
    }
  }

  /**
   * On a text of several lines the two part ways: the regular expression stops
   * at the first line holding a '.', the cleaner cuts at the last '.' of all.
   */
  lemma NytFipsOfTwoLines()
    ensures NytFips(Str("1\n2.0")) == Str("00002")
    ensures FipsClean(Str("1\n2.0")) == "001\n2"
  {
    TwoLines("1\n2.0");
  }

  lemma TwoLines(s: string)
    requires s == "1\n2.0"
    ensures NytFips(Str(s)) == Str("00002") && FipsClean(Str(s)) == "001\n2"
  {
    TwoLineCuts(s);
    TwoLinePads("2", "1\n2");
  }

  lemma TwoLinePads(a: string, b: string)
    requires a == "2" && b == "1\n2"
    ensures ZFill(a, FIPS_WIDTH) == "00002" && ZFill(b, FIPS_WIDTH) == "001\n2"
  {
    assert Repeat('0', 4) == "0000" && Repeat('0', 2) == "00";
  }

  lemma TwoLineCuts(s: string)
    requires s == "1\n2.0"
    ensures ExtractBeforeLastDot(s) == Some("2") && CutAtLast(s, '.') == "1\n2"
  {
    assert s[0] == '1' && s[1] == '\n' && s[2] == '2' && s[3] == '.' && s[4] == '0';
    var d := FirstIndexOf(s, '.').value;
    assert d == 3;
    assert LineStart(s, d) == 2;
    assert LineEnd(s, d) == |s|;
    assert s[..|s|] == s;
    assert LastIndexOf(s, '.') == Some(3);
    assert s[2..3] == "2" && s[..3] == "1\n2";
  }

  /** Line 11 on the inputs of the cleaner's test: floats are cleaned, ints and texts lost. */
  lemma NytFipsOnTestInputs()
    ensures NytFips(Float(1001)) == Str("01001")
    ensures NytFips(Float(11001)) == Str("11001")
    ensures NytFips(Int(1001)) == NaN && NytFips(Str("01001")) == NaN
  {
    NytOfFloatCode(1001, "01001");
    NytOfFloatCode(11001, "11001");
    TextOfTestCodes();
    NytOfDotless(Int(1001), "1001");
    NytOfDotless(Str("01001"), "01001");
  }

  lemma NytOfFloatCode(w: int, code: string)
    requires (w == 1001 && code == "01001") || (w == 11001 && code == "11001")
    ensures NytFips(Float(w)) == Str(code)
  {
    FipsCleanTestCases();
    TextOfTestCodes();
    var t := Render(Float(w));
    assert t[|t| - 2] == '.';
    NytFipsVersusClean(Float(w));
  }

  lemma NytOfDotless(v: Value, t: string)
    requires Render(v) == t && (t == "1001" || t == "01001")
    ensures NytFips(v) == NaN
  {
    assert '.' !in t;
    NytFipsVersusClean(v);
  }

  /** `.str.zfill(width)` of one cell: texts are padded, any other cell becomes missing. */
  function StrZFill(v: Value): (r: Value)
    ensures v.Str? ==> r == Str(ZFill(v.s, FIPS_WIDTH))
    ensures !v.Str? ==> r == NaN
  {
    if v.Str? then Str(ZFill(v.s, FIPS_WIDTH)) else NaN
  }

  /** `.str.slice(-5,)` of one cell: the last five characters of a text; any other cell becomes missing. */
  function LastFive(v: Value): (r: Value)
    ensures v.Str? ==> r.Str? && |r.s| == (if |v.s| < 5 then |v.s| else 5) && r.s == v.s[|v.s| - |r.s|..]
    ensures !v.Str? ==> r == NaN
  {
    if v.Str? then Str(TakeLast(v.s, 5)) else NaN
  }

  /** pandas lets a column use `.str` when it is empty or holds at least one text. */
  predicate HoldsText(col: seq<Value>)
  {
    |col| == 0 || exists i :: 0 <= i < |col| && col[i].Str?
  }

  /**
   * `col.str.<op>`: AttributeError on a column with cells but no text (a
   * column of numbers, say); otherwise `op` on every cell, which turns each
   * cell that is not a text into a missing one.
   */
  function StrMap(op: Value -> Value, col: seq<Value>): (r: Result<seq<Value>>)
    ensures r.Err? <==> |col| > 0 && forall i :: 0 <= i < |col| ==> !col[i].Str?
    ensures r.Err? ==> r.error == AttributeError
    ensures r.Ok? ==> |r.value| == |col| && forall i :: 0 <= i < |col| ==> r.value[i] == op(col[i])
  {
    if HoldsText(col) then Ok(MapValues(op, col)) else Err(AttributeError)
  }

  /** The mask `df['state'] != 'Puerto Rico'`. */
  function NotPuertoRico(state: seq<Value>): (mask: seq<bool>)
    ensures |mask| == |state| && forall i :: 0 <= i < |state| ==> (mask[i] <==> state[i] != PUERTO_RICO)
  {
    seq(|state|, i requires 0 <= i < |state| => state[i] != PUERTO_RICO)
  }

  // ---------------------------------------------------------------- nyt_cases_counties

  /** What nyt_cases_counties leaves in the caller's frame: lines 9 and 11 write into it. */
  function NytInPlace(f: Frame): (r: Frame)
    requires WellFormed(f)
    ensures WellFormed(r) && r.height == f.height
  {
    match GetColumn(f, "date")
    case Err(_) => f
    case Ok(date) =>
      var f1 := WithColumn(f, "date", MapValues(ToDatetime, date));
      match GetColumn(f1, "fips")
      case Err(_) => f1
      case Ok(fips) => WithColumn(f1, "fips", MapValues(NytFips, fips))
  }

  /** What nyt_cases_counties returns. */
  function NytSpec(f: Frame): (r: Result<Frame>)
    requires WellFormed(f)
    ensures r.Ok? ==> WellFormed(r.value)
  {
    var date :- GetColumn(f, "date");
    var f1 := WithColumn(f, "date", MapValues(ToDatetime, date));
    var fips :- GetColumn(f1, "fips");
    var f2 := WithColumn(f1, "fips", MapValues(NytFips, fips));
    var state :- GetColumn(f2, "state");
    var f3 := Filtered(f2, NotPuertoRico(state));
    var deaths :- GetColumn(f3, "deaths");
    var ints :- CastInts(deaths);
    Ok(WithColumn(f3, "deaths", ints))
  }

  method NytCasesCounties(df: DataFrame) returns (r: Result<DataFrame>)
    requires df.Valid()
    modifies df
    ensures df.Valid() && df.Contents() == NytInPlace(old(df.Contents()))
    ensures r.Ok? ==> fresh(r.value)
    ensures Delivers(r, NytSpec(old(df.Contents())))
  {
    var date :- df.Column("date");
    df.Assign("date", MapValues(ToDatetime, date));
    var fips :- df.Column("fips");
    df.Assign("fips", MapValues(NytFips, fips));
    var state :- df.Column("state");
    var kept := df.Loc(NotPuertoRico(state));
    var deaths :- kept.Column("deaths");
    var ints :- CastInts(deaths);
    kept.Assign("deaths", ints);
    r := Ok(kept);
  }

  /** nyt_cases_counties fails exactly when a column it reads is missing or a kept death count is no integer. */
  lemma NytSpecOk(f: Frame)
    requires WellFormed(f)
    ensures NytSpec(f).Ok? <==>
      && "date" in f.names && "fips" in f.names && "state" in f.names && "deaths" in f.names
      && (var state := GetColumn(f, "state").value;
          var deaths := GetColumn(f, "deaths").value;
          forall x :: x in FilterBy(deaths, NotPuertoRico(state)) ==> AsInt(x).Ok?)
  {
    if NytSpec(f).Ok? {
      NytSpecNeedsColumns(f);
    }
    if "date" in f.names && "fips" in f.names && "state" in f.names && "deaths" in f.names {
      NytSpecWithColumns(f);
    }
  }

  lemma NytSpecNeedsColumns(f: Frame)
    requires WellFormed(f) && NytSpec(f).Ok?
    ensures "date" in f.names && "fips" in f.names && "state" in f.names && "deaths" in f.names
  {
    var date := GetColumn(f, "date").value;
    var f1 := WithColumn(f, "date", MapValues(ToDatetime, date));
    var fips := GetColumn(f1, "fips").value;
    var f2 := WithColumn(f1, "fips", MapValues(NytFips, fips));
    var state := GetColumn(f2, "state").value;
    var f3 := Filtered(f2, NotPuertoRico(state));
    assert GetColumn(f3, "deaths").Ok?;
  }

  lemma NytSpecWithColumns(f: Frame)
    requires WellFormed(f)
    requires "date" in f.names && "fips" in f.names && "state" in f.names && "deaths" in f.names
    ensures var state := GetColumn(f, "state").value;
      var deaths := FilterBy(GetColumn(f, "deaths").value, NotPuertoRico(state));
      NytSpec(f).Ok? <==> forall x :: x in deaths ==> AsInt(x).Ok?
  {
    var date := GetColumn(f, "date").value;
    var f1 := WithColumn(f, "date", MapValues(ToDatetime, date));
    var fips := GetColumn(f1, "fips").value;
    var f2 := WithColumn(f1, "fips", MapValues(NytFips, fips));
    var state := GetColumn(f2, "state").value;
    assert state == GetColumn(f, "state").value;
    var f3 := Filtered(f2, NotPuertoRico(state));
    var deaths := GetColumn(f3, "deaths").value;
    assert deaths == FilterBy(GetColumn(f, "deaths").value, NotPuertoRico(state));
    assert NytSpec(f).Ok? <==> CastInts(deaths).Ok?;
    assert (forall x :: x in deaths ==> AsInt(x).Ok?) <==> (forall i :: 0 <= i < |deaths| ==> AsInt(deaths[i]).Ok?);
  }

  /**
   * The output keeps exactly the rows whose state is not Puerto Rico, in their
   * order: its state column is the input's filtered by that mask, it holds no
   * Puerto Rico cell, it has one row per such input row, and its deaths are integers.
   */
  lemma NytDropsPuertoRico(f: Frame)
    requires WellFormed(f) && NytSpec(f).Ok?
    ensures "state" in f.names
    ensures var state := GetColumn(f, "state").value;
      var g := NytSpec(f).value;
      && GetColumn(g, "state") == Ok(FilterBy(state, NotPuertoRico(state)))
      && PUERTO_RICO !in GetColumn(g, "state").value
      && g.height == CountTrue(NotPuertoRico(state))
      && (forall x :: x in GetColumn(g, "deaths").value ==> x.Int?)
  {
    var date := GetColumn(f, "date").value;
    var f1 := WithColumn(f, "date", MapValues(ToDatetime, date));
    var fips := GetColumn(f1, "fips").value;
    var f2 := WithColumn(f1, "fips", MapValues(NytFips, fips));
    var state := GetColumn(f2, "state").value;
    var mask := NotPuertoRico(state);
    var f3 := Filtered(f2, mask);
    var deaths := GetColumn(f3, "deaths").value;
    var ints := CastInts(deaths).value;
    var g := NytSpec(f).value;
    assert g == WithColumn(f3, "deaths", ints);
    FilterByMember(state, mask, PUERTO_RICO);
    forall x | x in GetColumn(g, "deaths").value
      ensures x.Int?
    {
      var i :| 0 <= i < |ints| && ints[i] == x;
    }
  }

  /** With no Puerto Rico row in the input, every row is kept and the state column is unchanged. */
  lemma NytKeepsEveryOtherRow(f: Frame)
    requires WellFormed(f) && NytSpec(f).Ok?
    requires PUERTO_RICO !in GetColumn(f, "state").value
    ensures NytSpec(f).value.height == f.height
    ensures GetColumn(NytSpec(f).value, "state") == GetColumn(f, "state")
  {
    NytDropsPuertoRico(f);
    var state := GetColumn(f, "state").value;
    FilterByAll(state, NotPuertoRico(state));
    assert CountTrue(NotPuertoRico(state)) == |FilterBy(state, NotPuertoRico(state))|;
  }

  /** The output's FIPS column is line 11's rewrite of the input's, restricted to the kept rows. */
  lemma NytFipsColumn(f: Frame)
    requires WellFormed(f) && NytSpec(f).Ok?
    ensures "fips" in f.names && "state" in f.names
    ensures var state := GetColumn(f, "state").value;
      GetColumn(NytSpec(f).value, "fips")
        == Ok(FilterBy(MapValues(NytFips, GetColumn(f, "fips").value), NotPuertoRico(state)))
  {
  }

  // ---------------------------------------------------------------- cdc_vaccines_counties

  const CDC_KEEP_COLUMNS: seq<string> := [
    "date",
    "fips",
    "series_complete_pop_pct",
    "series_complete_yes",
    "series_complete_18plus",
    "series_complete_18pluspop_pct",
    "series_complete_65plus",
    "series_complete_65pluspop_pct",
    "completeness_pct"]

  /** `[col.lower() for col in df.columns]`. */
  function LowerAll(names: seq<string>): (r: seq<string>)
    ensures |r| == |names| && forall i :: 0 <= i < |names| ==> r[i] == Lower(names[i])
  {
    seq(|names|, i requires 0 <= i < |names| => Lower(names[i]))
  }

  /** What cdc_vaccines_counties leaves in the caller's frame: line 21 renames its columns. */
  function CdcInPlace(f: Frame): (r: Frame)
    requires WellFormed(f)
    ensures WellFormed(r) && r.cols == f.cols && r.names == LowerAll(f.names)
  {
    Renamed(f, LowerAll(f.names))
  }

  /** What cdc_vaccines_counties returns. */
  function CdcSpec(f: Frame): (r: Result<Frame>)
    requires WellFormed(f)
    ensures r.Ok? ==> WellFormed(r.value)
  {
    var lowered := Renamed(f, LowerAll(f.names));
    var kept :- Selected(lowered, CDC_KEEP_COLUMNS);
    var dated := WithColumn(kept, "date", MapValues(ToDatetime, GetColumn(kept, "date").value));
    var padded :- StrMap(StrZFill, GetColumn(dated, "fips").value);
    Ok(WithColumn(dated, "fips", padded))
  }

  method CdcVaccinesCounties(df: DataFrame) returns (r: Result<DataFrame>)
    requires df.Valid()
    modifies df
    ensures df.Valid() && df.Contents() == CdcInPlace(old(df.Contents()))
    ensures r.Ok? ==> fresh(r.value)
    ensures Delivers(r, CdcSpec(old(df.Contents())))
  {
    df.SetColumns(LowerAll(df.columns));
    var kept :- df.Take(CDC_KEEP_COLUMNS);
    var date := kept.Column("date");
    kept.Assign("date", MapValues(ToDatetime, date.value));
    var fips := kept.Column("fips");
    var padded :- StrMap(StrZFill, fips.value);
    kept.Assign("fips", padded);
    r := Ok(kept);
  }

  /**
   * cdc_vaccines_counties succeeds exactly when every kept column exists once
   * names are lowercased and the FIPS column may use `.str`; when only the
   * latter fails it raises AttributeError. Its output has exactly the nine kept
   * columns in their listed order and as many rows as its input, and its FIPS
   * column is the lowercased frame's, zero-padded.
   */
  lemma CdcShape(f: Frame)
    requires WellFormed(f)
    ensures CdcSpec(f).Ok? <==>
      && (forall k :: k in CDC_KEEP_COLUMNS ==> k in LowerAll(f.names))
      && "fips" in LowerAll(f.names) && HoldsText(GetColumn(CdcInPlace(f), "fips").value)
    ensures (forall k :: k in CDC_KEEP_COLUMNS ==> k in LowerAll(f.names))
      && "fips" in LowerAll(f.names) && !HoldsText(GetColumn(CdcInPlace(f), "fips").value)
      ==> CdcSpec(f) == Err(AttributeError)
    ensures CdcSpec(f).Ok? ==>
      && CdcSpec(f).value.names == CDC_KEEP_COLUMNS
      && CdcSpec(f).value.height == f.height
      && GetColumn(CdcSpec(f).value, "fips")
           == Ok(MapValues(StrZFill, GetColumn(CdcInPlace(f), "fips").value))
  {
    var lowered := Renamed(f, LowerAll(f.names));
    var sel := Selected(lowered, CDC_KEEP_COLUMNS);
    if sel.Ok? {
      SelectedColumn(lowered, CDC_KEEP_COLUMNS, "fips");
      assert "date" in sel.value.names;
      var kept := sel.value;
      var dated := WithColumn(kept, "date", MapValues(ToDatetime, GetColumn(kept, "date").value));
      assert GetColumn(dated, "fips") == GetColumn(lowered, "fips");
      assert "fips" in LowerAll(f.names);
    } else {
      var k :| 0 <= k < |CDC_KEEP_COLUMNS| && CDC_KEEP_COLUMNS[k] !in lowered.names;
      assert CDC_KEEP_COLUMNS[k] in CDC_KEEP_COLUMNS;
    }
  }

  // ---------------------------------------------------------------- acs_population_counties

  const ACS_KEEP_COLUMNS: seq<string> := [
    "fips",
    "total_population",
    "population_16plus",
    "population_18plus",
    "population_65plus"]

  /** What acs_population_counties returns; it writes only into its own copy. */
  function AcsSpec(f: Frame): (r: Result<Frame>)
    requires WellFormed(f)
    ensures r.Ok? ==> WellFormed(r.value)
  {
    var body := DropFirst(f);
    var geo :- GetColumn(body, "GEO_ID");
    var fips :- StrMap(LastFive, geo);
    AcsCasts(WithColumn(body, "fips", fips))
  }

  /** The four integer casts of acs_population_counties, then the selection of the kept columns. */
  function AcsCasts(f1: Frame): (r: Result<Frame>)
    requires WellFormed(f1)
    ensures r.Ok? ==> WellFormed(r.value)
  {
    var f2 :- CastInto(f1, "S0101_C01_001E", "total_population");
    var f3 :- CastInto(f2, "S0101_C01_025E", "population_16plus");
    var f4 :- CastInto(f3, "S0101_C01_026E", "population_18plus");
    var f5 :- CastInto(f4, "S0101_C01_030E", "population_65plus");
    Selected(f5, ACS_KEEP_COLUMNS)
  }

  method AcsPopulationCounties(df: DataFrame) returns (r: Result<DataFrame>)
    requires df.Valid()
    ensures r.Ok? ==> fresh(r.value)
    ensures Delivers(r, AcsSpec(df.Contents()))
  {
    var body := df.FromSecondRow();
    var geo :- body.Column("GEO_ID");
    var fips :- StrMap(LastFive, geo);
    body.Assign("fips", fips);
    r := CastAndSelect(body);
  }

  method CastAndSelect(body: DataFrame) returns (r: Result<DataFrame>)
    requires body.Valid()
    modifies body
    ensures r.Ok? ==> fresh(r.value)
    ensures Delivers(r, AcsCasts(old(body.Contents())))
  {
    var done :- body.AssignCast("S0101_C01_001E", "total_population");
    done :- body.AssignCast("S0101_C01_025E", "population_16plus");
    done :- body.AssignCast("S0101_C01_026E", "population_18plus");
    done :- body.AssignCast("S0101_C01_030E", "population_65plus");
    r := body.Take(ACS_KEEP_COLUMNS);
  }

  /**
   * acs_population_counties drops exactly the first row and keeps the five listed
   * columns in order; its FIPS column is the last five characters of each
   * remaining GEO_ID.
   */
  lemma AcsShape(f: Frame)
    requires WellFormed(f) && AcsSpec(f).Ok?
    ensures "GEO_ID" in f.names
    ensures AcsSpec(f).value.names == ACS_KEEP_COLUMNS
    ensures AcsSpec(f).value.height == if f.height == 0 then 0 else f.height - 1
    ensures GetColumn(AcsSpec(f).value, "fips")
              == Ok(MapValues(LastFive, GetColumn(f, "GEO_ID").value[f.height - AcsSpec(f).value.height..]))
  {
    var body := DropFirst(f);
    var geo := GetColumn(body, "GEO_ID").value;
    var f1 := WithColumn(body, "fips", MapValues(LastFive, geo));
    var f2 := CastInto(f1, "S0101_C01_001E", "total_population").value;
    var f3 := CastInto(f2, "S0101_C01_025E", "population_16plus").value;
    var f4 := CastInto(f3, "S0101_C01_026E", "population_18plus").value;
    var f5 := CastInto(f4, "S0101_C01_030E", "population_65plus").value;
    assert AcsSpec(f) == AcsCasts(f1) == Selected(f5, ACS_KEEP_COLUMNS);
    assert f5.height == body.height;
    assert GetColumn(f2, "fips") == GetColumn(f1, "fips");
    assert GetColumn(f3, "fips") == GetColumn(f2, "fips");
    assert GetColumn(f4, "fips") == GetColumn(f3, "fips");
    assert GetColumn(f5, "fips") == GetColumn(f4, "fips");
    SelectedColumn(f5, ACS_KEEP_COLUMNS, "fips");
  }

  /**
   * Line 46 needs `.str` on the GEO_ID column left after the header row is
   * dropped: a column of cells none of which is a text raises AttributeError
   * before any cast runs, and a successful run had a column that may use `.str`.
   */
  lemma AcsGeoIdText(f: Frame)
    requires WellFormed(f) && "GEO_ID" in f.names
    ensures !HoldsText(GetColumn(DropFirst(f), "GEO_ID").value) ==> AcsSpec(f) == Err(AttributeError)
    ensures AcsSpec(f).Ok? ==> HoldsText(GetColumn(DropFirst(f), "GEO_ID").value)
  {
  }

  // ---------------------------------------------------------------- registry

  /** The transforms main.py can name. */
  datatype Name = NytCases | CdcVaccines | AcsPopulation

  /** The transforms by the names main.py looks them up under. */
  const TRANSFORMS: map<string, Name> := map[
    "nyt_cases_counties" := NytCases,
    "cdc_vaccines_counties" := CdcVaccines,
    "acs_population_counties" := AcsPopulation]

  function ApplySpec(t: Name, f: Frame): (r: Result<Frame>)
    requires WellFormed(f)
    ensures r.Ok? ==> WellFormed(r.value)
  {
    match t
    case NytCases => NytSpec(f)
    case CdcVaccines => CdcSpec(f)
    case AcsPopulation => AcsSpec(f)
  }

  function InPlace(t: Name, f: Frame): (r: Frame)
    requires WellFormed(f)
    ensures WellFormed(r)
  {
    match t
    case NytCases => NytInPlace(f)
    case CdcVaccines => CdcInPlace(f)
    case AcsPopulation => f
  }

  /** `getattr(transform, name)(df)`. */
  method Apply(t: Name, df: DataFrame) returns (r: Result<DataFrame>)
    requires df.Valid()
    modifies df
    ensures df.Valid() && df.Contents() == InPlace(t, old(df.Contents()))
    ensures r.Ok? ==> fresh(r.value)
    ensures Delivers(r, ApplySpec(t, old(df.Contents())))
  {
    match t
    case NytCases => r := NytCasesCounties(df);
    case CdcVaccines => r := CdcVaccinesCounties(df);
    case AcsPopulation => r := AcsPopulationCounties(df);
  }
}
