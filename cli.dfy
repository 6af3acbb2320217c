/**
 * The command line of main.py (lines 87-98): entries starting with '-' name
 * options, the others are positionals; two flags are booleans, the remaining
 * options take the leading positionals in order, and the last two positionals
 * are the source and the destination.
 */
module Cli {
  import opened Wrappers
  import opened Text

  /** `[opt[1:] for opt in argv if opt.startswith("-")]`. */
  function OptionNames(argv: seq<string>): (r: seq<string>)
    ensures |r| <= |argv|
  {
    if |argv| == 0 then []
    else (if StartsWith(argv[0], "-") then [argv[0][1..]] else []) + OptionNames(argv[1..])
  }

  /** `[arg for arg in argv if not arg.startswith("-")]`. */
  function Positionals(argv: seq<string>): (r: seq<string>)
    ensures |r| <= |argv|
  {
    if |argv| == 0 then []
    else (if StartsWith(argv[0], "-") then [] else [argv[0]]) + Positionals(argv[1..])
  }

  const LOCAL_SOURCE := "local_source"
  const VALIDATE_DATA := "validate_data"

  /** `[opt for opt in opts if opt not in ['local_source', 'validate_data']]`. */
  function KeyedOptions(opts: seq<string>): (r: seq<string>)
    ensures |r| <= |opts|
    ensures forall k :: 0 <= k < |r| ==> r[k] != LOCAL_SOURCE && r[k] != VALIDATE_DATA
  {
    if |opts| == 0 then []
    else
      (if opts[0] == LOCAL_SOURCE || opts[0] == VALIDATE_DATA then [] else [opts[0]]) + KeyedOptions(opts[1..])
  }

  /** `dict(zip(keys, values))`: a later key overrides an earlier one. */
  function ZipToMap(keys: seq<string>, values: seq<string>): (m: map<string, string>)
    requires |keys| == |values|
    ensures forall k :: k in m <==> k in keys
    decreases |keys|
  {
    if |keys| == 0 then map[]
    else
      var n := |keys| - 1;
      assert forall k :: k in keys <==> k in keys[..n] || k == keys[n];
      ZipToMap(keys[..n], values[..n])[keys[n] := values[n]]
  }

  /** What main receives from the command line. */
  datatype Command = Command(
    source: string,
    destination: string,
    localSource: bool,
    validateData: bool,
    options: map<string, string>)

  /** Lines 87-98 on `sys.argv[1:]`. */
  function ParseCommand(argv: seq<string>): (r: Result<Command>)
  {
    var opts := OptionNames(argv);
    var keyed := KeyedOptions(opts);
    var args := Positionals(argv);
    if |args| != |keyed| + 2 then Err(UsageError)
    else
      var n := |args|;
      Ok(Command(args[n - 2], args[n - 1], LOCAL_SOURCE in opts, VALIDATE_DATA in opts,
                 ZipToMap(keyed, args[..n - 2])))
  }

  /**
   * Every entry is an option or a positional; neither list reorders the entries
   * (OptionNamesAppend, PositionalsAppend).
   */
  lemma {:induction false} OptionsAndPositionalsPartition(argv: seq<string>)
    ensures |OptionNames(argv)| + |Positionals(argv)| == |argv|
    ensures forall a :: a in Positionals(argv) <==> a in argv && !StartsWith(a, "-")
    ensures forall a :: "-" + a in argv <==> a in OptionNames(argv)
  {
    if |argv| > 0 {
      OptionsAndPositionalsPartition(argv[1..]);
      assert argv == [argv[0]] + argv[1..];
      var x := argv[0];
      forall a
        ensures "-" + a == x <==> StartsWith(x, "-") && x[1..] == a
      {
        if StartsWith(x, "-") && x[1..] == a {
          assert x == "-" + x[1..];
        }
      }
    }
  }

  /** The options of two stretches of the command line are those of the first, then those of the second. */
  lemma {:induction false} OptionNamesAppend(a: seq<string>, b: seq<string>)
    ensures OptionNames(a + b) == OptionNames(a) + OptionNames(b)
    decreases |a|
  {
    if |a| > 0 {
      assert (a + b)[1..] == a[1..] + b;
      OptionNamesAppend(a[1..], b);
    } else {
      assert a + b == b;
    }
  }

  /** The positionals of two stretches of the command line are those of the first, then those of the second. */
  lemma {:induction false} PositionalsAppend(a: seq<string>, b: seq<string>)
    ensures Positionals(a + b) == Positionals(a) + Positionals(b)
    decreases |a|
  {
    if |a| > 0 {
      assert (a + b)[1..] == a[1..] + b;
      PositionalsAppend(a[1..], b);
    } else {
      assert a + b == b;
    }
  }

  /** The two flags are set exactly when `-local_source` or `-validate_data` is on the command line. */
  lemma FlagsMeaning(argv: seq<string>)
    requires ParseCommand(argv).Ok?
    ensures ParseCommand(argv).value.localSource <==> "-local_source" in argv
    ensures ParseCommand(argv).value.validateData <==> "-validate_data" in argv
  {
    OptionsAndPositionalsPartition(argv);
    assert "-local_source" == "-" + LOCAL_SOURCE && "-validate_data" == "-" + VALIDATE_DATA;
  }

  lemma {:induction false} KeyedOptionsMembers(opts: seq<string>)
    ensures forall k :: k in KeyedOptions(opts) <==> k in opts && k != LOCAL_SOURCE && k != VALIDATE_DATA
  {
    if |opts| > 0 {
      KeyedOptionsMembers(opts[1..]);
      assert opts == [opts[0]] + opts[1..];
    }
  }

  /**
   * Parsing succeeds exactly when there are two more positionals than options
   * other than the flags; the source and destination are then the last two
   * positionals and the option names are exactly those options.
   */
  lemma ParseCommandMeaning(argv: seq<string>)
    ensures ParseCommand(argv).Ok? <==> |Positionals(argv)| == |KeyedOptions(OptionNames(argv))| + 2
    ensures ParseCommand(argv).Err? ==> ParseCommand(argv).error == UsageError
    ensures ParseCommand(argv).Ok? ==>
      var c := ParseCommand(argv).value;
      var args := Positionals(argv);
      && args[|args| - 2..] == [c.source, c.destination]
      && forall k :: k in c.options <==> "-" + k in argv && k != LOCAL_SOURCE && k != VALIDATE_DATA
  {
    OptionsAndPositionalsPartition(argv);
    KeyedOptionsMembers(OptionNames(argv));
  }

  /** A key that does not occur again later is bound to the value at its own position. */
  lemma {:induction false} ZipToMapPairs(keys: seq<string>, values: seq<string>, i: nat)
    requires |keys| == |values| && i < |keys|
    requires forall j :: i < j < |keys| ==> keys[j] != keys[i]
    ensures ZipToMap(keys, values)[keys[i]] == values[i]
    decreases |keys|
  {
    var n := |keys| - 1;
    if i < n {
      ZipToMapPairs(keys[..n], values[..n], i);
    }
  }

  /** Of two equal keys, the later one's value is kept. */
  lemma ZipToMapLastWins()
    ensures ZipToMap(["name", "name"], ["a", "b"]) == map["name" := "b"]
  {
    assert ["name", "name"][..1] == ["name"];
    assert ["a", "b"][..1] == ["a"];
  }

  const USUAL_ARGV := ["-validate_data", "-name", "nyt_cases_counties", "https://x/us-counties.csv", "s.t"]

  lemma UsualArgvSplit()
    ensures OptionNames(USUAL_ARGV) == [VALIDATE_DATA, "name"]
    ensures Positionals(USUAL_ARGV) == USUAL_ARGV[2..]
  {
    var argv := USUAL_ARGV;
    forall k | 0 <= k < |argv|
      ensures StartsWith(argv[k], "-") <==> k < 2
    {
      StartsWithChar(argv[k], '-');
    }
    assert argv[1..][1..] == argv[2..];
    assert argv[2..][1..] == argv[3..] && argv[3..][1..] == argv[4..] && argv[4..][1..] == [];
    assert argv[2..][0] == argv[2] && argv[3..][0] == argv[3] && argv[4..][0] == argv[4];
    assert OptionNames(argv[4..]) == [];
    assert OptionNames(argv[3..]) == [];
    assert OptionNames(argv[2..]) == [];
    assert Positionals(argv[4..]) == [argv[4]];
    assert Positionals(argv[3..]) == [argv[3], argv[4]];
    assert Positionals(argv[2..]) == [argv[2], argv[3], argv[4]];
    assert argv[2..] == [argv[2], argv[3], argv[4]];
  }

  /** The usual invocation: a flag, one option, its value, a source and a destination. */
  lemma ParseUsualCommand()
    ensures ParseCommand(USUAL_ARGV)
      == Ok(Command("https://x/us-counties.csv", "s.t", false, true, map["name" := "nyt_cases_counties"]))
  {
    UsualArgvSplit();
    var opts := [VALIDATE_DATA, "name"];
    assert opts[1..] == ["name"] && opts[1..][1..] == [];
    assert KeyedOptions(opts[1..][1..]) == [];
    assert KeyedOptions(opts[1..]) == ["name"];
    assert KeyedOptions(opts) == ["name"];
    assert LOCAL_SOURCE !in opts by {
      assert LOCAL_SOURCE[0] != VALIDATE_DATA[0];
      assert |LOCAL_SOURCE| != |"name"|;
    }
    var args := USUAL_ARGV[2..];
    assert args == ["nyt_cases_counties", "https://x/us-counties.csv", "s.t"];
    assert args[..1] == ["nyt_cases_counties"];
    assert ZipToMap(["name"], args[..1]) == map["name" := "nyt_cases_counties"] by {
      assert ["name"][..0] == [] && args[..1][..0] == [];
    }
  }

  /**
   * Options take positionals by position, not by adjacency: with the option
   * after the source, the source's text becomes the option's value.
   */
  lemma PairsByPositionNotAdjacency()
    ensures ParseCommand(["a.csv", "-name", "nyt_cases_counties", "s.t"]).Ok?
    ensures ParseCommand(["a.csv", "-name", "nyt_cases_counties", "s.t"]).value.options == map["name" := "a.csv"]
    ensures ParseCommand(["a.csv", "-name", "nyt_cases_counties", "s.t"]).value.source == "nyt_cases_counties"
  {
    var argv := ["a.csv", "-name", "nyt_cases_counties", "s.t"];
    forall k | 0 <= k < |argv|
      ensures StartsWith(argv[k], "-") <==> k == 1
    {
      StartsWithChar(argv[k], '-');
    }
    assert !StartsWith(argv[0], "-") && StartsWith(argv[1], "-");
    assert !StartsWith(argv[2], "-") && !StartsWith(argv[3], "-");
    assert argv[1..][1..] == argv[2..] && argv[2..][1..] == argv[3..] && argv[3..][1..] == [];
    assert OptionNames(argv) == ["name"];
    assert Positionals(argv) == ["a.csv", "nyt_cases_counties", "s.t"];
    assert KeyedOptions(["name"]) == ["name"];
    assert ["a.csv", "nyt_cases_counties", "s.t"][..1] == ["a.csv"];
    assert ["name"][..0] == [];
  }
}
