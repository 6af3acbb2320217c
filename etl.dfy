/**
 * `main` of main.py: extract, optionally transform, optionally validate, then
 * load. The extract step is I/O and enters as two functions, one for a local
 * file and one for an HTTP source.
 */
module Etl {
  import opened Wrappers
  import opened Frames
  import opened Store
  import Transform
  import Validate
  import Load

  /** An extract step that only yields well-formed frames for this source. */
  predicate Extracts(read: string -> Result<Frame>, source: string)
  {
    read(source).Ok? ==> WellFormed(read(source).value)
  }

  /** The frame the extract step returns: from the local file iff `localSource`. */
  function Extracted(source: string, localSource: bool,
                     readLocal: string -> Result<Frame>, readRemote: string -> Result<Frame>): (r: Result<Frame>)
  {
    if localSource then readLocal(source) else readRemote(source)
  }

  /** The transform stage: the named transform's result, the frame itself when no name is given. */
  function Transformed(f: Frame, options: map<string, string>): (r: Result<Frame>)
    requires WellFormed(f)
    ensures r.Ok? ==> WellFormed(r.value)
    ensures "name" !in options ==> r == Ok(f)
    ensures "name" in options && options["name"] !in Transform.TRANSFORMS ==> r == Err(UnknownTransform(options["name"]))
  {
    if "name" !in options then Ok(f)
    else if options["name"] in Transform.TRANSFORMS then Transform.ApplySpec(Transform.TRANSFORMS[options["name"]], f)
    else Err(UnknownTransform(options["name"]))
  }

  /** The validation stage: skipped unless both a name and the flag are given. */
  function Validated(f: Frame, options: map<string, string>, validateData: bool): (r: Result<()>)
    requires WellFormed(f)
  {
    if "name" !in options || !validateData then Ok(())
    else if options["name"] !in Validate.SUITES then Err(UnknownSuite(options["name"]))
    else
      var passed :- Validate.TestDataSpec(f, Validate.SUITES[options["name"]]);
      if passed then Ok(()) else Err(ValidationFailed)
  }

  /** What `main(src, dest, local_src, validate_data, options)` does to the server and returns. */
  function EtlSpec(tables: map<TableId, Table>, source: string, destination: string, localSource: bool,
                   validateData: bool, options: map<string, string>, connection: Option<string>,
                   accepts: string -> bool,
                   readLocal: string -> Result<Frame>, readRemote: string -> Result<Frame>): (o: Outcome)
    requires Extracts(readLocal, source) && Extracts(readRemote, source)
  {
    match Extracted(source, localSource, readLocal, readRemote)
    case Err(e) => Outcome(tables, [], Err(e))
    case Ok(f) =>
      match Transformed(f, options)
      case Err(e) => Outcome(tables, [], Err(e))
      case Ok(g) =>
        match Validated(g, options, validateData)
        case Err(e) => Outcome(tables, [], Err(e))
        case Ok(_) => Load.ToTableSpec(tables, g, destination, connection, accepts)
  }

  method RunEtl(db: Database, source: string, destination: string, localSource: bool, validateData: bool,
                options: map<string, string>, connection: Option<string>,
                readLocal: string -> Result<Frame>, readRemote: string -> Result<Frame>) returns (r: Result<()>)
    requires Extracts(readLocal, source) && Extracts(readRemote, source)
    modifies db
    ensures var o := EtlSpec(old(db.tables), source, destination, localSource, validateData, options,
                             connection, db.accepts, readLocal, readRemote);
      db.tables == o.tables && db.log == old(db.log) + o.events && r == o.result
  {
    // EXTRACT
    var frame :- if localSource then readLocal(source) else readRemote(source);
    var df := new DataFrame(frame);
    // TRANSFORM
    df :- TransformStage(df, options);
    // VALIDATE
    var done :- ValidateStage(df, options, validateData);
    // LOAD
    r := Load.ToTable(db, df, destination, connection);
  }

  /** `if 'name' in options: df = getattr(transform, options['name'])(df)`. */
  method TransformStage(df: DataFrame, options: map<string, string>) returns (r: Result<DataFrame>)
    requires df.Valid()
    modifies df
    ensures Delivers(r, Transformed(old(df.Contents()), options))
  {
    if "name" !in options {
      return Ok(df);
    }
    var name := options["name"];
    if name !in Transform.TRANSFORMS {
      return Err(UnknownTransform(name));
    }
    r := Transform.Apply(Transform.TRANSFORMS[name], df);
  }

  /** `if 'name' in options and validate_data`: look up the suite and stop unless test_data passes. */
  method ValidateStage(df: DataFrame, options: map<string, string>, validateData: bool) returns (r: Result<()>)
    requires df.Valid()
    ensures r == Validated(df.Contents(), options, validateData)
  {
    if "name" !in options || !validateData {
      return Ok(());
    }
    var name := options["name"];
    if name !in Validate.SUITES {
      return Err(UnknownSuite(name));
    }
    var passed :- Validate.TestData(df, Validate.SUITES[name]);
    if !passed {
      return Err(ValidationFailed);
    }
    r := Ok(());
  }

  // ---------------------------------------------------------------- properties of main

  /** Nothing reaches the server unless every earlier stage succeeded and validation was skipped or passed. */
  lemma LoadOnlyAfterStages(tables: map<TableId, Table>, source: string, destination: string, localSource: bool,
                            validateData: bool, options: map<string, string>, connection: Option<string>,
                            accepts: string -> bool,
                            readLocal: string -> Result<Frame>, readRemote: string -> Result<Frame>)
    requires Extracts(readLocal, source) && Extracts(readRemote, source)
    ensures var o := EtlSpec(tables, source, destination, localSource, validateData, options,
                             connection, accepts, readLocal, readRemote);
      var x := Extracted(source, localSource, readLocal, readRemote);
      o.events != [] || o.tables != tables ==>
        && x.Ok?
        && Transformed(x.value, options).Ok?
        && ("name" in options && validateData ==>
              options["name"] in Validate.SUITES
              && Validate.TestDataSpec(Transformed(x.value, options).value, Validate.SUITES[options["name"]]) == Ok(true))
  {
  }

  /** A name that is not a transform raises before validation and load: nothing is sent, nothing changes. */
  lemma UnknownTransformStops(tables: map<TableId, Table>, source: string, destination: string, localSource: bool,
                              validateData: bool, options: map<string, string>, connection: Option<string>,
                              accepts: string -> bool,
                              readLocal: string -> Result<Frame>, readRemote: string -> Result<Frame>)
    requires Extracts(readLocal, source) && Extracts(readRemote, source)
    requires Extracted(source, localSource, readLocal, readRemote).Ok?
    requires "name" in options && options["name"] !in Transform.TRANSFORMS
    ensures EtlSpec(tables, source, destination, localSource, validateData, options, connection, accepts,
                    readLocal, readRemote)
      == Outcome(tables, [], Err(UnknownTransform(options["name"])))
  {
  }

  /** Without a name, the extracted frame is loaded as it is, whatever the flag says. */
  lemma NoNameLoadsExtracted(tables: map<TableId, Table>, source: string, destination: string, localSource: bool,
                             validateData: bool, options: map<string, string>, connection: Option<string>,
                             accepts: string -> bool,
                             readLocal: string -> Result<Frame>, readRemote: string -> Result<Frame>)
    requires Extracts(readLocal, source) && Extracts(readRemote, source)
    requires Extracted(source, localSource, readLocal, readRemote).Ok?
    requires "name" !in options
    ensures EtlSpec(tables, source, destination, localSource, validateData, options, connection, accepts,
                    readLocal, readRemote)
      == Load.ToTableSpec(tables, Extracted(source, localSource, readLocal, readRemote).value, destination,
                          connection, accepts)
  {
  }

  /**
   * Only the NYT transform has a suite of the same name: validating a CDC or ACS
   * load raises after the transform and before anything is sent.
   */
  lemma OnlyNytHasSuite(tables: map<TableId, Table>, source: string, destination: string, localSource: bool,
                        options: map<string, string>, connection: Option<string>, accepts: string -> bool,
                        readLocal: string -> Result<Frame>, readRemote: string -> Result<Frame>)
    requires Extracts(readLocal, source) && Extracts(readRemote, source)
    requires "name" in options && options["name"] in Transform.TRANSFORMS
    requires options["name"] != "nyt_cases_counties"
    ensures var o := EtlSpec(tables, source, destination, localSource, true, options, connection, accepts,
                             readLocal, readRemote);
      o.events == [] && o.tables == tables && o.result.Err?
  {
  }
}
