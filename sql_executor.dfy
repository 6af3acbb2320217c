/**
 * sql_executor.py: read a SQL script, substitute the owner and repository
 * names, cut it at every ';', and send each non-empty piece in order on one
 * connection after setting the statement timeout.
 */
module SqlExecutor {
  import opened Wrappers
  import opened Text
  import opened Store
  import Load

  const OWNER_PLACEHOLDER := "$OWNER"
  const REPO_PLACEHOLDER := "$REPO"

  /** The two replacements of lines 24-25, `$OWNER` first. */
  function Substitute(sql: string, owner: string, repo: string): string
  {
    ReplaceAll(ReplaceAll(sql, OWNER_PLACEHOLDER, owner), REPO_PLACEHOLDER, repo)
  }

  /** `sql.split(';')` of the substituted script. */
  function Commands(sql: string, owner: string, repo: string): (r: seq<string>)
    ensures |r| >= 1
  {
    SplitOn(Substitute(sql, owner, repo), ";")
  }

  /** Joining the commands with ';' gives back the substituted script. */
  lemma CommandsRejoin(sql: string, owner: string, repo: string)
    ensures Join(Commands(sql, owner, repo), ";") == Substitute(sql, owner, repo)
    ensures forall k :: 0 <= k < |Commands(sql, owner, repo)| ==> ';' !in Commands(sql, owner, repo)[k]
  {
    JoinOfSplit(Substitute(sql, owner, repo), ";");
    SplitCharPiecesFree(Substitute(sql, owner, repo), ';');
  }

  /**
   * The `$REPO` pass runs second, so it also rewrites the owner value: a script
   * that is just `$OWNER` becomes the owner with every `$REPO` in it replaced.
   */
  lemma OwnerValueIsRewritten(owner: string, repo: string)
    ensures Substitute(OWNER_PLACEHOLDER, owner, repo) == ReplaceAll(owner, REPO_PLACEHOLDER, repo)
  {
    var p := OWNER_PLACEHOLDER;
    assert StartsWith(p, OWNER_PLACEHOLDER);
    assert p[|OWNER_PLACEHOLDER|..] == "";
    assert ReplaceAll(p, OWNER_PLACEHOLDER, owner) == owner + "";
    assert owner + "" == owner;
  }

  /** So an owner value `$REPO` comes out as the repository name. */
  lemma OwnerNamedRepo(repo: string)
    ensures Substitute(OWNER_PLACEHOLDER, REPO_PLACEHOLDER, repo) == repo
  {
    OwnerValueIsRewritten(REPO_PLACEHOLDER, repo);
    var p := REPO_PLACEHOLDER;
    assert StartsWith(p, REPO_PLACEHOLDER);
    assert p[|REPO_PLACEHOLDER|..] == "";
    assert ReplaceAll(p, REPO_PLACEHOLDER, repo) == repo + "";
  }

  /** The pieces of nonzero length, in order. */
  function NonEmpty(commands: seq<string>): (r: seq<string>)
    ensures |r| <= |commands|
    ensures forall k :: 0 <= k < |r| ==> |r[k]| > 0
  {
    if |commands| == 0 then []
    else (if |commands[0]| > 0 then [commands[0]] else []) + NonEmpty(commands[1..])
  }

  function Statements(commands: seq<string>): (r: seq<Event>)
    ensures |r| == |commands| && forall k :: 0 <= k < |commands| ==> r[k] == Statement(commands[k])
  {
    seq(|commands|, k requires 0 <= k < |commands| => Statement(commands[k]))
  }

  lemma StatementsCons(c: string, commands: seq<string>)
    ensures Statements([c] + commands) == [Statement(c)] + Statements(commands)
  {
  }

  /** The loop of lines 30-32: what it sends and whether it ends normally or on a refused command. */
  function ExecSpec(commands: seq<string>, accepts: string -> bool): (r: (seq<Event>, Result<()>))
    ensures r.1.Err? ==> r.1.error.SqlFailed?
  {
    if |commands| == 0 then ([], Ok(()))
    else
      var c := commands[0];
      if |c| == 0 then ExecSpec(commands[1..], accepts)
      else if !accepts(c) then ([Statement(c)], Err(SqlFailed(c)))
      else
        var rest := ExecSpec(commands[1..], accepts);
        ([Statement(c)] + rest.0, rest.1)
  }

  /** `for command in commands: if len(command) > 0: conn.execute(command)`. */
  method ExecuteAll(db: Database, commands: seq<string>) returns (r: Result<()>)
    modifies db
    ensures db.tables == old(db.tables)
    ensures db.log == old(db.log) + ExecSpec(commands, db.accepts).0
    ensures r == ExecSpec(commands, db.accepts).1
  {
    ghost var sent: seq<Event> := [];
    ghost var spec := ExecSpec(commands, db.accepts);
    var i := 0;
    assert commands[0..] == commands;
    while i < |commands|
      invariant 0 <= i <= |commands|
      invariant db.tables == old(db.tables)
      invariant db.log == old(db.log) + sent
      invariant spec.0 == sent + ExecSpec(commands[i..], db.accepts).0
      invariant spec.1 == ExecSpec(commands[i..], db.accepts).1
    {
      assert commands[i..][1..] == commands[i + 1..] && commands[i..][0] == commands[i];
      if |commands[i]| > 0 {
        var result := db.Execute(commands[i]);
        sent := sent + [Statement(commands[i])];
        if result.Err? {
          return result;
        }
      }
      i := i + 1;
    }
    r := Ok(());
  }

  /** The pieces up to the first refused non-empty one are all accepted, and none after it is sent. */
  lemma ExecSpecMeaning(commands: seq<string>, accepts: string -> bool)
    ensures ExecSpec(commands, accepts).1.Ok? <==> forall k :: 0 <= k < |commands| && |commands[k]| > 0 ==> accepts(commands[k])
    ensures ExecSpec(commands, accepts).1.Ok? ==> ExecSpec(commands, accepts).0 == Statements(NonEmpty(commands))
    ensures ExecSpec(commands, accepts).1.Err? ==> exists k :: 0 <= k < |commands| && RefusedFirstAt(commands, accepts, k)
  {
    ExecSpecOk(commands, accepts);
    ExecSpecRefused(commands, accepts);
  }

  lemma {:induction false} ExecSpecOk(commands: seq<string>, accepts: string -> bool)
    ensures ExecSpec(commands, accepts).1.Ok? <==> forall k :: 0 <= k < |commands| && |commands[k]| > 0 ==> accepts(commands[k])
    ensures ExecSpec(commands, accepts).1.Ok? ==> ExecSpec(commands, accepts).0 == Statements(NonEmpty(commands))
    decreases |commands|
  {
    if |commands| > 0 {
      var c := commands[0];
      var tail := commands[1..];
      ExecSpecOk(tail, accepts);
      assert forall k :: 1 <= k < |commands| ==> commands[k] == tail[k - 1];
      if |c| > 0 {
        StatementsCons(c, NonEmpty(tail));
      }
    }
  }

  lemma {:induction false} ExecSpecRefused(commands: seq<string>, accepts: string -> bool)
    ensures ExecSpec(commands, accepts).1.Err? ==> exists k :: 0 <= k < |commands| && RefusedFirstAt(commands, accepts, k)
    decreases |commands|
  {
    if |commands| > 0 {
      var c := commands[0];
      var tail := commands[1..];
      if |c| > 0 && !accepts(c) {
        assert commands[..0] == [];
        assert Statements(NonEmpty(commands[..0])) == [];
        assert RefusedFirstAt(commands, accepts, 0);
      } else {
        ExecSpecRefused(tail, accepts);
        if ExecSpec(tail, accepts).1.Err? {
          var k :| 0 <= k < |tail| && RefusedFirstAt(tail, accepts, k);
          RefusedLater(commands, accepts, k);
        }
      }
    }
  }

  /** A refusal in the tail, after an accepted or empty first piece, is a refusal of the whole. */
  lemma RefusedLater(commands: seq<string>, accepts: string -> bool, k: nat)
    requires k + 1 < |commands| && (|commands[0]| == 0 || accepts(commands[0]))
    requires RefusedFirstAt(commands[1..], accepts, k)
    ensures RefusedFirstAt(commands, accepts, k + 1)
  {
    var c := commands[0];
    var tail := commands[1..];
    assert commands[..k + 1] == [c] + tail[..k];
    assert ([c] + tail[..k])[1..] == tail[..k];
    assert forall j :: 1 <= j < |commands| ==> commands[j] == tail[j - 1];
    if |c| > 0 {
      StatementsCons(c, NonEmpty(tail[..k]));
    }
  }

  /**
   * The k-th piece is the first refused non-empty one: every non-empty piece
   * before it was sent and accepted, then it was sent and the loop stopped.
   */
  predicate RefusedFirstAt(commands: seq<string>, accepts: string -> bool, k: nat)
    requires k < |commands|
  {
    && |commands[k]| > 0 && !accepts(commands[k])
    && (forall j :: 0 <= j < k && |commands[j]| > 0 ==> accepts(commands[j]))
    && ExecSpec(commands, accepts).0 == Statements(NonEmpty(commands[..k])) + [Statement(commands[k])]
    && ExecSpec(commands, accepts).1 == Err(SqlFailed(commands[k]))
  }

  /** A text without the first character of a pattern does not hold the pattern. */
  lemma LacksFirstChar(s: string, pat: string)
    requires |pat| > 0 && pat[0] !in s
    ensures !Contains(s, pat)
  {
    forall i | 0 <= i <= |s|
      ensures !OccursAt(s, pat, i)
    {
      if i + |pat| <= |s| {
        assert s[i..i + |pat|][0] == s[i];
      }
    }
  }

  /** A script without '$' is left as it is by the substitution. */
  lemma DollarFreeUnchanged(sql: string, owner: string, repo: string)
    requires '$' !in sql
    ensures Substitute(sql, owner, repo) == sql
  {
    LacksFirstChar(sql, OWNER_PLACEHOLDER);
    ReplaceAbsent(sql, OWNER_PLACEHOLDER, owner);
    LacksFirstChar(sql, REPO_PLACEHOLDER);
    ReplaceAbsent(sql, REPO_PLACEHOLDER, repo);
  }

  const NEWLINE_SCRIPT := "SELECT 1;\n"

  /** A script ending in ";\n" is cut into the statement and a last piece "\n". */
  lemma TrailingNewlineIsKept()
    ensures Commands(NEWLINE_SCRIPT, "o", "r") == ["SELECT 1", "\n"]
  {
    DollarFreeUnchanged(NEWLINE_SCRIPT, "o", "r");
    var parts := ["SELECT 1", "\n"];
    assert parts[1..] == ["\n"];
    assert Join(parts, [';']) == NEWLINE_SCRIPT;
    assert ';' !in parts[0] && ';' !in parts[1];
    SplitOfJoin(parts, ';');
  }

  /** That last piece has nonzero length, so it is sent as a statement of its own. */
  lemma TrailingNewlineIsSent(accepts: string -> bool)
    requires forall c :: accepts(c)
    ensures ExecSpec(Commands(NEWLINE_SCRIPT, "o", "r"), accepts).0 == [Statement("SELECT 1"), Statement("\n")]
  {
    TrailingNewlineIsKept();
    var commands := ["SELECT 1", "\n"];
    assert commands[1..] == ["\n"] && commands[1..][1..] == [];
    assert ExecSpec(commands[1..], accepts).0 == [Statement("\n")];
  }

  /** What `main(script_path, owner, repo)` sends and returns; `read` is the file system. */
  function ScriptSpec(connection: Option<string>, scriptPath: string, owner: string, repo: string,
                      read: string -> Result<string>, accepts: string -> bool): (r: (seq<Event>, Result<()>))
  {
    if connection.None? then ([], Err(MissingConnectionString))
    else match read(scriptPath)
    case Err(e) => ([], Err(e))
    case Ok(sql) =>
      var preamble := [Connect, Statement(Load.TIMEOUT_SQL)];
      if !accepts(Load.TIMEOUT_SQL) then (preamble, Err(SqlFailed(Load.TIMEOUT_SQL)))
      else
        var run := ExecSpec(Commands(sql, owner, repo), accepts);
        (preamble + run.0, run.1)
  }

  method RunScript(db: Database, connection: Option<string>, scriptPath: string, owner: string, repo: string,
                   read: string -> Result<string>) returns (r: Result<()>)
    modifies db
    ensures db.tables == old(db.tables)
    ensures db.log == old(db.log) + ScriptSpec(connection, scriptPath, owner, repo, read, db.accepts).0
    ensures r == ScriptSpec(connection, scriptPath, owner, repo, read, db.accepts).1
  {
    if connection.None? {
      return Err(MissingConnectionString);
    }
    var sql :- read(scriptPath);
    var commands := Commands(sql, owner, repo);
    db.Open();
    var done :- db.Execute(Load.TIMEOUT_SQL);
    r := ExecuteAll(db, commands);
  }

  /** The timeout is the first statement, on the one connection, before any command. */
  lemma TimeoutFirst(connection: Option<string>, scriptPath: string, owner: string, repo: string,
                     read: string -> Result<string>, accepts: string -> bool)
    requires connection.Some? && read(scriptPath).Ok?
    ensures var sent := ScriptSpec(connection, scriptPath, owner, repo, read, accepts).0;
      && sent[..2] == [Connect, Statement(Load.TIMEOUT_SQL)]
      && Connect !in sent[1..]
  {
    var sql := read(scriptPath).value;
    ExecSpecSendsStatements(Commands(sql, owner, repo), accepts);
  }

  lemma {:induction false} ExecSpecSendsStatements(commands: seq<string>, accepts: string -> bool)
    ensures Connect !in ExecSpec(commands, accepts).0
    decreases |commands|
  {
    if |commands| > 0 {
      ExecSpecSendsStatements(commands[1..], accepts);
    }
  }

  /** `script_path, owner, repo = args` after the check that there are exactly three. */
  function ScriptArgs(argv: seq<string>): (r: Result<(string, string, string)>)
    ensures r.Ok? <==> |argv| == 3
    ensures r.Ok? ==> [r.value.0, r.value.1, r.value.2] == argv
    ensures r.Err? ==> r.error == UsageError
  {
    if |argv| != 3 then Err(UsageError) else Ok((argv[0], argv[1], argv[2]))
  }

  /** The script entry point: wrong argument counts raise before any work. */
  method ScriptMain(db: Database, argv: seq<string>, connection: Option<string>, read: string -> Result<string>)
    returns (r: Result<()>)
    modifies db
    ensures |argv| != 3 ==> r == Err(UsageError) && db.log == old(db.log)
    ensures |argv| == 3 ==>
      db.log == old(db.log) + ScriptSpec(connection, argv[0], argv[1], argv[2], read, db.accepts).0
      && r == ScriptSpec(connection, argv[0], argv[1], argv[2], read, db.accepts).1
    ensures db.tables == old(db.tables)
  {
    var args :- ScriptArgs(argv);
    r := RunScript(db, connection, args.0, args.1, args.2, read);
  }
}
