/**
 * The pandas DataFrame as the scripts use it: named columns of equal length,
 * read by name, written by name, selected, filtered by a row mask and sliced.
 * A frame is kept column by column, as pandas keeps it; its height (the length
 * of its index) is stored so that a frame with no columns still has rows.
 */
module Frames {
  import opened Wrappers
  import opened Text
  import Decimal

  /** A cell. */
  datatype Value =
    | Str(s: string)            // a text cell
    | Int(i: int)               // an integer cell
    | Float(whole: int)         // a float cell that holds a whole number, such as 1001.0
    | NaN                       // a missing cell (NaN, None, NaT)
    | Timestamp(source: Value)  // what pd.to_datetime makes of `source`, kept opaque

  /** `str(v)`, as `astype(str)` writes a cell. */
  function Render(v: Value): string
  {
    match v
    case Str(s) => s
    case Int(i) => Decimal.IntToText(i)
    case Float(w) => Decimal.IntToText(w) + ".0"
    case NaN => "nan"
    case Timestamp(src) => Render(src)
  }

  /** `pd.to_datetime` of one cell; a missing cell stays missing. */
  function ToDatetime(v: Value): (r: Value)
    ensures v.NaN? <==> r.NaN?
    ensures r.NaN? || r.Timestamp?
  {
    match v
    case NaN => NaN
    case Timestamp(_) => v
    case _ => Timestamp(v)
  }

  /** `astype(int)` of one cell: integers stay, whole floats and integer texts convert, the rest raise. */
  function AsInt(v: Value): (r: Result<Value>)
    ensures r.Ok? ==> r.value.Int?
    ensures r.Err? ==> r.error == CastError
    ensures v.Int? ==> r == Ok(v)
    ensures v.NaN? ==> r.Err?
  {
    match v
    case Int(_) => Ok(v)
    case Float(w) => Ok(Int(w))
    case Str(s) =>
      (match Decimal.ParseInt(s)
       case Some(i) => Ok(Int(i))
       case None => Err(CastError))
    case _ => Err(CastError)
  }

  /** Writing an integer as text and casting it back gives the integer. */
  lemma AsIntOfRendered(i: int)
    ensures AsInt(Str(Render(Int(i)))) == Ok(Int(i))
    ensures AsInt(Float(i)) == Ok(Int(i))
  {
    Decimal.ParseIntOfText(i);
  }

  /** A column with `f` applied to every cell. */
  function MapValues(f: Value -> Value, col: seq<Value>): (r: seq<Value>)
    ensures |r| == |col| && forall i :: 0 <= i < |col| ==> r[i] == f(col[i])
  {
    seq(|col|, i requires 0 <= i < |col| => f(col[i]))
  }

  /** `astype(int)` of a column: it raises when any cell does. */
  function CastInts(col: seq<Value>): (r: Result<seq<Value>>)
    ensures r.Ok? <==> forall i :: 0 <= i < |col| ==> AsInt(col[i]).Ok?
    ensures r.Ok? ==> |r.value| == |col| && forall i :: 0 <= i < |col| ==> r.value[i] == AsInt(col[i]).value
    ensures r.Err? ==> r.error == CastError
    decreases |col|
  {
    if |col| == 0 then Ok([])
    else
      match AsInt(col[0])
      case Err(e) => Err(e)
      case Ok(v) =>
        match CastInts(col[1..])
        case Err(e) => Err(e)
        case Ok(rest) => Ok([v] + rest)
  }

  datatype Frame = Frame(names: seq<string>, cols: seq<seq<Value>>, height: nat)

  /** One name per column, and every column as long as the index. */
  predicate WellFormed(f: Frame)
  {
    |f.names| == |f.cols| && forall j :: 0 <= j < |f.cols| ==> |f.cols[j]| == f.height
  }

  /** The position of the first column called `name`. */
  function IndexOf(names: seq<string>, name: string): (r: Option<nat>)
    ensures r.Some? ==> r.value < |names| && names[r.value] == name
    ensures r.Some? ==> forall k :: 0 <= k < r.value ==> names[k] != name
    ensures r.None? <==> name !in names
    decreases |names|
  {
    if |names| == 0 then None
    else if names[0] == name then Some(0)
    else
      match IndexOf(names[1..], name)
      case Some(k) => Some(k + 1)
      case None => None
  }

  lemma IndexOfFirst(names: seq<string>, name: string, k: nat)
    requires k < |names| && names[k] == name
    requires forall i :: 0 <= i < k ==> names[i] != name
    ensures IndexOf(names, name) == Some(k)
  {
    assert name in names;
  }

  /** `df[name]`: the column, or KeyError. */
  function GetColumn(f: Frame, name: string): (r: Result<seq<Value>>)
    requires WellFormed(f)
    ensures r.Ok? <==> name in f.names
    ensures r.Ok? ==> |r.value| == f.height
    ensures r.Err? ==> r.error == KeyError(name)
  {
    match IndexOf(f.names, name)
    case Some(j) => Ok(f.cols[j])
    case None => Err(KeyError(name))
  }

  lemma ReplacedColumnReads(f: Frame, j: nat, name: string, vals: seq<Value>)
    requires WellFormed(f) && |vals| == f.height && IndexOf(f.names, name) == Some(j)
    ensures forall n :: n != name ==> GetColumn(Frame(f.names, f.cols[j := vals], f.height), n) == GetColumn(f, n)
  {
    var r := Frame(f.names, f.cols[j := vals], f.height);
    forall n | n != name
      ensures GetColumn(r, n) == GetColumn(f, n)
    {
      match IndexOf(f.names, n)
      case Some(k) => assert k != j;
      case None =>
    }
  }

  lemma AddedColumnReads(f: Frame, name: string, vals: seq<Value>)
    requires WellFormed(f) && |vals| == f.height && name !in f.names
    ensures IndexOf(f.names + [name], name) == Some(|f.names|)
    ensures forall n :: n != name ==> GetColumn(Frame(f.names + [name], f.cols + [vals], f.height), n) == GetColumn(f, n)
  {
    var names := f.names + [name];
    var r := Frame(names, f.cols + [vals], f.height);
    IndexOfFirst(names, name, |f.names|);
    forall n | n != name
      ensures GetColumn(r, n) == GetColumn(f, n)
    {
      match IndexOf(f.names, n)
      case Some(k) => IndexOfFirst(names, n, k);
      case None => assert n !in names;
    }
  }

  /**
   * `df[name] = vals`: the column called `name` is replaced, or a new column
   * is added at the end; every other column reads as before.
   */
  function WithColumn(f: Frame, name: string, vals: seq<Value>): (r: Frame)
    requires WellFormed(f) && |vals| == f.height
    ensures WellFormed(r) && r.height == f.height
    ensures r.names == if name in f.names then f.names else f.names + [name]
    ensures GetColumn(r, name) == Ok(vals)
    ensures forall n :: n != name ==> GetColumn(r, n) == GetColumn(f, n)
  {
    match IndexOf(f.names, name)
    case Some(j) =>
      ReplacedColumnReads(f, j, name, vals);
      Frame(f.names, f.cols[j := vals], f.height)
    case None =>
      AddedColumnReads(f, name, vals);
      Frame(f.names + [name], f.cols + [vals], f.height)
  }

  /** `df.columns = names`: the same columns under new names. */
  function Renamed(f: Frame, names: seq<string>): (r: Frame)
    requires WellFormed(f) && |names| == |f.names|
    ensures WellFormed(r) && r.names == names && r.cols == f.cols && r.height == f.height
  {
    Frame(names, f.cols, f.height)
  }

  /** `df[keys]`: the named columns in the order of `keys`, or KeyError when one is missing. */
  function Selected(f: Frame, keys: seq<string>): (r: Result<Frame>)
    requires WellFormed(f)
    ensures r.Ok? <==> forall k :: 0 <= k < |keys| ==> keys[k] in f.names
    ensures r.Err? ==> r.error.KeyError?
    ensures r.Ok? ==> WellFormed(r.value) && r.value.names == keys && r.value.height == f.height
    ensures r.Ok? ==> forall k :: 0 <= k < |keys| ==> r.value.cols[k] == GetColumn(f, keys[k]).value
    decreases |keys|
  {
    if |keys| == 0 then Ok(Frame([], [], f.height))
    else
      match GetColumn(f, keys[0])
      case Err(e) => Err(e)
      case Ok(c) =>
        match Selected(f, keys[1..])
        case Err(e) => Err(e)
        case Ok(rest) => Ok(Frame([keys[0]] + rest.names, [c] + rest.cols, f.height))
  }

  /** A column of a selection reads as the same column of the frame. */
  lemma SelectedColumn(f: Frame, keys: seq<string>, name: string)
    requires WellFormed(f) && Selected(f, keys).Ok? && name in keys
    ensures GetColumn(Selected(f, keys).value, name) == GetColumn(f, name)
  {
    var g := Selected(f, keys).value;
    var k := IndexOf(keys, name).value;
    assert g.cols[k] == GetColumn(f, keys[k]).value;
  }

  function CountTrue(mask: seq<bool>): (n: nat)
    ensures n <= |mask|
  {
    if |mask| == 0 then 0 else (if mask[0] then 1 else 0) + CountTrue(mask[1..])
  }

  /** The cells whose mask entry is true, in their order. */
  function FilterBy(xs: seq<Value>, mask: seq<bool>): (r: seq<Value>)
    requires |mask| == |xs|
    ensures |r| == CountTrue(mask)
    decreases |xs|
  {
    if |xs| == 0 then []
    else if mask[0] then [xs[0]] + FilterBy(xs[1..], mask[1..])
    else FilterBy(xs[1..], mask[1..])
  }

  /** A cell is kept exactly when it stands at a position the mask keeps. */
  lemma {:induction false} FilterByMember(xs: seq<Value>, mask: seq<bool>, x: Value)
    requires |mask| == |xs|
    ensures x in FilterBy(xs, mask) <==> exists i :: 0 <= i < |xs| && mask[i] && xs[i] == x
    decreases |xs|
  {
    if |xs| > 0 {
      FilterByMember(xs[1..], mask[1..], x);
      if i :| 1 <= i < |xs| && mask[i] && xs[i] == x {
        assert mask[1..][i - 1] && xs[1..][i - 1] == x;
      }
      if i :| 0 <= i < |xs| - 1 && mask[1..][i] && xs[1..][i] == x {
        assert mask[i + 1] && xs[i + 1] == x;
      }
    }
  }

  /** When the mask keeps every row, nothing is dropped. */
  lemma {:induction false} FilterByAll(xs: seq<Value>, mask: seq<bool>)
    requires |mask| == |xs| && forall i :: 0 <= i < |mask| ==> mask[i]
    ensures FilterBy(xs, mask) == xs
    decreases |xs|
  {
    if |xs| > 0 {
      FilterByAll(xs[1..], mask[1..]);
      assert xs == [xs[0]] + xs[1..];
    }
  }

  /** `df.loc[mask]`: the rows whose mask entry is true, in their order. */
  function Filtered(f: Frame, mask: seq<bool>): (r: Frame)
    requires WellFormed(f) && |mask| == f.height
    ensures WellFormed(r) && r.names == f.names && r.height == CountTrue(mask)
    ensures forall n :: n in f.names ==> GetColumn(r, n) == Ok(FilterBy(GetColumn(f, n).value, mask))
  {
    Frame(f.names, seq(|f.cols|, j requires 0 <= j < |f.cols| => FilterBy(f.cols[j], mask)), CountTrue(mask))
  }

  /** `df.iloc[1:, :]`: every row but the first (none of an empty frame). */
  function DropFirst(f: Frame): (r: Frame)
    requires WellFormed(f)
    ensures WellFormed(r) && r.names == f.names
    ensures r.height == if f.height == 0 then 0 else f.height - 1
    ensures forall n :: n in f.names ==> GetColumn(r, n) == Ok(GetColumn(f, n).value[f.height - r.height..])
  {
    var start := if f.height == 0 then 0 else 1;
    Frame(f.names, seq(|f.cols|, j requires 0 <= j < |f.cols| => f.cols[j][start..]), f.height - start)
  }

  /** The rows of a frame, each with one cell per column in column order. */
  function Rows(f: Frame): (rows: seq<seq<Value>>)
    requires WellFormed(f)
    ensures |rows| == f.height
    ensures forall i :: 0 <= i < f.height ==> |rows[i]| == |f.cols|
    ensures forall i, j :: 0 <= i < f.height && 0 <= j < |f.cols| ==> rows[i][j] == f.cols[j][i]
  {
    seq(f.height, i requires 0 <= i < f.height => seq(|f.cols|, j requires 0 <= j < |f.cols| => f.cols[j][i]))
  }

  /** `df[target] = df[source].astype(int)`. */
  function CastInto(f: Frame, source: string, target: string): (r: Result<Frame>)
    requires WellFormed(f)
    ensures r.Ok? <==> source in f.names && CastInts(GetColumn(f, source).value).Ok?
    ensures r.Ok? ==> r.value == WithColumn(f, target, CastInts(GetColumn(f, source).value).value)
    ensures r.Err? ==> r.error.KeyError? || r.error == CastError
  {
    var col :- GetColumn(f, source);
    var ints :- CastInts(col);
    Ok(WithColumn(f, target, ints))
  }

  /** A data frame object; the transforms write into it in place. */
  class DataFrame {
    var columns: seq<string>
    var data: seq<seq<Value>>
    var length: nat

    function Contents(): Frame
      reads this
    {
      Frame(columns, data, length)
    }

    predicate Valid()
      reads this
    {
      WellFormed(Contents())
    }

    constructor (f: Frame)
      requires WellFormed(f)
      ensures Valid() && Contents() == f
    {
      columns, data, length := f.names, f.cols, f.height;
    }

    /** `df[name]`. */
    method Column(name: string) returns (r: Result<seq<Value>>)
      requires Valid()
      ensures r == GetColumn(Contents(), name)
      ensures r.Ok? ==> |r.value| == length
    {
      match IndexOf(columns, name)
      case Some(j) => r := Ok(data[j]);
      case None => r := Err(KeyError(name));
    }

    /** `df[name] = vals`. */
    method Assign(name: string, vals: seq<Value>)
      requires Valid() && |vals| == length
      modifies this
      ensures Valid() && Contents() == WithColumn(old(Contents()), name, vals)
    {
      match IndexOf(columns, name)
      case Some(j) => data := data[j := vals];
      case None => columns, data := columns + [name], data + [vals];
    }

    /** `df[target] = df[source].astype(int)`; nothing changes when the cast raises. */
    method AssignCast(source: string, target: string) returns (r: Result<()>)
      requires Valid()
      modifies this
      ensures Valid()
      ensures r.Ok? <==> CastInto(old(Contents()), source, target).Ok?
      ensures r.Ok? ==> Contents() == CastInto(old(Contents()), source, target).value
      ensures r.Err? ==> r.error == CastInto(old(Contents()), source, target).error && Contents() == old(Contents())
    {
      var col :- Column(source);
      var ints :- CastInts(col);
      Assign(target, ints);
      r := Ok(());
    }

    /** `df.columns = names`. */
    method SetColumns(names: seq<string>)
      requires Valid() && |names| == |columns|
      modifies this
      ensures Valid() && Contents() == Renamed(old(Contents()), names)
    {
      columns := names;
    }

    /** `df[keys].copy()`. */
    method Take(keys: seq<string>) returns (r: Result<DataFrame>)
      requires Valid()
      ensures r.Ok? ==> fresh(r.value)
      ensures Delivers(r, Selected(Contents(), keys))
    {
      var sel := Selected(Contents(), keys);
      if sel.Err? {
        return Err(sel.error);
      }
      var copy := new DataFrame(sel.value);
      r := Ok(copy);
    }

    /** `df.loc[mask].copy()`. */
    method Loc(mask: seq<bool>) returns (r: DataFrame)
      requires Valid() && |mask| == length
      ensures fresh(r) && r.Valid() && r.Contents() == Filtered(Contents(), mask)
    {
      r := new DataFrame(Filtered(Contents(), mask));
    }

    /** `df.iloc[1:, :].copy()`. */
    method FromSecondRow() returns (r: DataFrame)
      requires Valid()
      ensures fresh(r) && r.Valid() && r.Contents() == DropFirst(Contents())
    {
      r := new DataFrame(DropFirst(Contents()));
    }

    /** `df.copy()`. */
    method Copy() returns (r: DataFrame)
      requires Valid()
      ensures fresh(r) && r.Valid() && r.Contents() == Contents()
    {
      r := new DataFrame(Contents());
    }
  }

  /** `r` holds a frame with the contents `spec` describes, or the error `spec` raises. */
  predicate Delivers(r: Result<DataFrame>, spec: Result<Frame>)
    reads if r.Ok? then {r.value} else {}
  {
    match r
    case Ok(df) => spec.Ok? && df.Valid() && df.Contents() == spec.value
    case Err(e) => spec == Err(e)
  }
}
