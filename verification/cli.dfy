/**
 * The direct command line (main.cpp), which opens the store itself instead
 * of going through the daemon: `record` logs one execution, `suggest` prints
 * the search results, `search` opens the interactive browser (not
 * modelled). The working directory, the clock and the git lookup are
 * parameters.
 */
module Cli {
  import opened Wrappers
  import opened Text
  import opened Argv
  import opened HistoryDb
  import Daemon

  // ---------------------------------------------------------------------------
  // record: key/value pairs

  /**
   * The pair loop from position `i` on, writing into `m`: `args[argv[i]] =
   * argv[i + 1]` for i = 2, 4, ... while i < argc - 1.
   */
  function Pairs(argv: seq<string>, i: nat, m: map<string, string>): map<string, string>
    decreases |argv| - i
  {
    if i + 1 >= |argv| then m else Pairs(argv, i + 2, m[argv[i] := argv[i + 1]])
  }

  /** The map the record loop builds. */
  function RecordArgs(argv: seq<string>): map<string, string> {
    Pairs(argv, 2, map[])
  }

  /** `args[key]` on a std::map: a missing key reads as the empty string. */
  function Get(m: map<string, string>, key: string): (v: string)
    ensures key !in m ==> v == ""
    ensures key in m ==> v == m[key]
  {
    if key in m then m[key] else ""
  }

  /** Position `j` of argv is read as a key, and holds `key`. */
  predicate KeyAt(argv: seq<string>, j: nat, key: string) {
    2 <= j && j % 2 == 0 && j + 1 < |argv| && argv[j] == key
  }

  /**
   * A key ends up in the map exactly when the loop reads it as a key, and
   * its value is the one after its last such position: later pairs
   * overwrite earlier ones.
   */
  lemma {:induction false} PairsMeaning(argv: seq<string>, i: nat, m: map<string, string>, key: string)
    requires i >= 2 && i % 2 == 0
    ensures var r := Pairs(argv, i, m);
            && (key in r <==> key in m || exists j: nat :: i <= j && KeyAt(argv, j, key))
            && forall j: nat :: i <= j && KeyAt(argv, j, key) && (forall j': nat :: KeyAt(argv, j', key) ==> j' <= j)
                 ==> key in r && r[key] == argv[j + 1]
    ensures (forall j: nat :: i <= j ==> !KeyAt(argv, j, key)) && key in m ==> Pairs(argv, i, m)[key] == m[key]
    decreases |argv| - i
  {
    if i + 1 < |argv| {
      var m' := m[argv[i] := argv[i + 1]];
      PairsMeaning(argv, i + 2, m', key);
      var r := Pairs(argv, i, m);
      if argv[i] == key {
        assert KeyAt(argv, i, key);
      }
      forall j: nat | i <= j && KeyAt(argv, j, key) && (forall j': nat :: KeyAt(argv, j', key) ==> j' <= j)
        ensures key in r && r[key] == argv[j + 1]
      {
        if j == i {
          assert forall j2: nat :: i + 2 <= j2 ==> !KeyAt(argv, j2, key);
        }
      }
      if exists j: nat :: i <= j && KeyAt(argv, j, key) {
        var j: nat :| i <= j && KeyAt(argv, j, key);
        if j < i + 2 {
          assert j == i;
        }
      }
    }
  }

  /** In the whole map: a key is there exactly when some pair names it, and the last such pair wins. */
  lemma RecordArgsMeaning(argv: seq<string>, key: string)
    ensures key in RecordArgs(argv) <==> exists j: nat :: KeyAt(argv, j, key)
    ensures forall j: nat :: KeyAt(argv, j, key) && (forall j': nat :: KeyAt(argv, j', key) ==> j' <= j)
              ==> Get(RecordArgs(argv), key) == argv[j + 1]
  {
    PairsMeaning(argv, 2, map[], key);
    if exists j: nat :: KeyAt(argv, j, key) {
      var j: nat :| KeyAt(argv, j, key);
      assert 2 <= j;
    }
  }

  /** An argument left over after the last pair is ignored. */
  lemma {:induction false} PairsIgnoreOddTail(argv: seq<string>, i: nat, m: map<string, string>, x: string)
    requires |argv| % 2 == 0 && i % 2 == 0
    ensures Pairs(argv + [x], i, m) == Pairs(argv, i, m)
    decreases |argv| - i
  {
    if i + 1 < |argv| {
      assert (argv + [x])[i] == argv[i] && (argv + [x])[i + 1] == argv[i + 1];
      PairsIgnoreOddTail(argv, i + 2, m[argv[i] := argv[i + 1]], x);
    }
  }

  /** The pair loop of main.cpp. */
  method CollectPairs(argv: seq<string>) returns (args: map<string, string>)
    ensures args == RecordArgs(argv)
  {
    args := map[];
    var i := 2;
    while i < |argv| - 1
      invariant i >= 2
      invariant RecordArgs(argv) == Pairs(argv, i, args)
      decreases |argv| - i
    {
      args := args[argv[i] := argv[i + 1]];
      i := i + 2;
    }
  }

  // ---------------------------------------------------------------------------
  // suggest: the flag loop

  /** The search parameters the suggest loop fills in. */
  datatype SuggestOptions = SuggestOptions(scope: Scope, context: string, onlySuccess: bool)

  const SuggestDefaults: SuggestOptions := SuggestOptions(Global, "", false)

  predicate SuggestTakesValue(arg: string) {
    arg == "--scope" || arg == "--cwd" || arg == "--branch"
  }

  /**
   * One pass of the loop body: --scope switches only to "dir" or "branch";
   * --cwd sets the context only under DIRECTORY and --branch only under
   * BRANCH, otherwise their value is skipped.
   */
  function SuggestApply(o: SuggestOptions, arg: string, value: Option<string>): SuggestOptions {
    if arg == "--scope" && value.Some? then
      if value.value == "dir" then o.(scope := Directory)
      else if value.value == "branch" then o.(scope := Branch)
      else o
    else if arg == "--cwd" && value.Some? then
      if o.scope == Directory then o.(context := value.value) else o
    else if arg == "--branch" && value.Some? then
      if o.scope == Branch then o.(context := value.value) else o
    else if arg == "--success" then o.(onlySuccess := true)
    else o
  }

  function SuggestScan(argv: seq<string>): SuggestOptions {
    Scan(argv, 3, SuggestTakesValue, SuggestApply, SuggestDefaults)
  }

  /** A context is only captured once a scope was chosen, so a global search has none. */
  lemma GlobalHasNoContext(argv: seq<string>)
    ensures SuggestScan(argv).scope == Global ==> SuggestScan(argv).context == ""
  {
    ScanKeeps(argv, 3, SuggestTakesValue, SuggestApply, SuggestDefaults,
              (o: SuggestOptions) => o.scope == Global ==> o.context == "");
  }

  /** Without "dir" or "branch" among the arguments, the search is global with no context. */
  lemma NoScopeMeansGlobal(argv: seq<string>)
    requires "dir" !in argv && "branch" !in argv
    ensures SuggestScan(argv).scope == Global && SuggestScan(argv).context == ""
  {
    ScanKeeps(argv, 3, SuggestTakesValue, SuggestApply, SuggestDefaults,
              (o: SuggestOptions) => o.scope == Global && o.context == "");
  }

  /**
   * A --cwd the loop reaches with a value after it sets the context to that
   * value exactly when the scope chosen by the arguments before it is
   * DIRECTORY; otherwise the pair is skipped and changes nothing.
   */
  lemma CwdTakenOnlyUnderDirectory(argv: seq<string>, j: nat)
    requires 3 <= j && j + 1 < |argv| && argv[j] == "--cwd" && Visits(argv, SuggestTakesValue, 3, j)
    ensures var before := SuggestScan(argv[..j]);
            SuggestScan(argv)
              == Scan(argv, j + 2, SuggestTakesValue, SuggestApply,
                      if before.scope == Directory then before.(context := argv[j + 1]) else before)
  {
    ScanPrefix(argv, 3, j, SuggestTakesValue, SuggestApply, SuggestDefaults);
  }

  /**
   * A --branch the loop reaches with a value after it sets the context to
   * that value exactly when the scope chosen before it is BRANCH; otherwise
   * the pair is skipped and changes nothing.
   */
  lemma BranchTakenOnlyUnderBranch(argv: seq<string>, j: nat)
    requires 3 <= j && j + 1 < |argv| && argv[j] == "--branch" && Visits(argv, SuggestTakesValue, 3, j)
    ensures var before := SuggestScan(argv[..j]);
            SuggestScan(argv)
              == Scan(argv, j + 2, SuggestTakesValue, SuggestApply,
                      if before.scope == Branch then before.(context := argv[j + 1]) else before)
  {
    ScanPrefix(argv, 3, j, SuggestTakesValue, SuggestApply, SuggestDefaults);
  }

  /**
   * A --scope the loop reaches with a value after it switches to DIRECTORY
   * for "dir" and to BRANCH for "branch", keeping the context; any other
   * value leaves the options as they were, whatever scope was chosen before.
   */
  lemma ScopeSwitchesOnlyToDirOrBranch(argv: seq<string>, j: nat)
    requires 3 <= j && j + 1 < |argv| && argv[j] == "--scope" && Visits(argv, SuggestTakesValue, 3, j)
    ensures var before := SuggestScan(argv[..j]);
            SuggestScan(argv)
              == Scan(argv, j + 2, SuggestTakesValue, SuggestApply,
                      if argv[j + 1] == "dir" then before.(scope := Directory)
                      else if argv[j + 1] == "branch" then before.(scope := Branch)
                      else before)
  {
    ScanPrefix(argv, 3, j, SuggestTakesValue, SuggestApply, SuggestDefaults);
  }

  /** The order matters, as CwdTakenOnlyUnderDirectory says: a --cwd before --scope dir is skipped, after it is kept. */
  lemma CwdNeedsScopeFirst(q: string, d: string)
    ensures SuggestScan(["bsh", "suggest", q, "--cwd", d, "--scope", "dir"]) == SuggestOptions(Directory, "", false)
    ensures SuggestScan(["bsh", "suggest", q, "--scope", "dir", "--cwd", d]) == SuggestOptions(Directory, d, false)
  {
    var a := ["bsh", "suggest", q, "--cwd", d, "--scope", "dir"];
    assert Scan(a, 3, SuggestTakesValue, SuggestApply, SuggestDefaults)
        == Scan(a, 5, SuggestTakesValue, SuggestApply, SuggestDefaults);
    assert Scan(a, 5, SuggestTakesValue, SuggestApply, SuggestDefaults)
        == Scan(a, 7, SuggestTakesValue, SuggestApply, SuggestOptions(Directory, "", false));
    var b := ["bsh", "suggest", q, "--scope", "dir", "--cwd", d];
    assert Scan(b, 3, SuggestTakesValue, SuggestApply, SuggestDefaults)
        == Scan(b, 5, SuggestTakesValue, SuggestApply, SuggestOptions(Directory, "", false));
    assert Scan(b, 5, SuggestTakesValue, SuggestApply, SuggestOptions(Directory, "", false))
        == Scan(b, 7, SuggestTakesValue, SuggestApply, SuggestOptions(Directory, d, false));
  }

  // ---------------------------------------------------------------------------
  // main

  /**
   * How main ends: with a status code and what it printed; by an uncaught
   * exception from stoi; or in the interactive browser.
   */
  datatype Status = Exit(code: int, output: string) | Aborted | Interactive

  datatype Run = Run(status: Status, tables: Tables)

  /**
   * main after initSchema, for the store `t`. `currentDir` stands for
   * fs::current_path(), `now` for time(nullptr), `branchOf` for the git lookup.
   */
  function CliRun(argv: seq<string>, t: Tables, currentDir: string, now: int,
                  branchOf: string -> Option<string>): Run
  {
    if |argv| < 2 then Run(Exit(0, ""), t)
    else if argv[1] == "record" then
      var args := RecordArgs(argv);
      var cmd := Get(args, "--cmd");
      if cmd == "" then Run(Exit(1, ""), t)
      else
        var cwd := if Get(args, "--cwd") == "" then currentDir else Get(args, "--cwd");
        var branch := branchOf(cwd).GetOr("");
        match (Daemon.NumberField(Get(args, "--exit")), Daemon.NumberField(Get(args, "--duration")))
        case (Some(exitCode), Some(duration)) =>
          Run(Exit(0, ""), Logged(t, cmd, Get(args, "--session"), cwd, branch, exitCode, duration, now))
        case _ => Run(Aborted, t)
    else if argv[1] == "search" then Run(Interactive, t)
    else if argv[1] == "suggest" then
      if |argv| < 3 then Run(Exit(0, ""), t)
      else
        var o := SuggestScan(argv);
        Run(Exit(0, Daemon.Lines(Search(t, argv[2], o.scope, o.context, o.onlySuccess))), t)
    else Run(Exit(0, ""), t)
  }

  /** A record whose every --cmd is empty, or that has none, exits with 1 and logs nothing. */
  lemma RecordNeedsCommand(argv: seq<string>, t: Tables, currentDir: string, now: int,
                           branchOf: string -> Option<string>)
    requires |argv| >= 2 && argv[1] == "record"
    requires forall j: nat :: KeyAt(argv, j, "--cmd") ==> argv[j + 1] == ""
    ensures CliRun(argv, t, currentDir, now, branchOf) == Run(Exit(1, ""), t)
  {
    RecordArgsMeaning(argv, "--cmd");
    if exists j: nat :: KeyAt(argv, j, "--cmd") {
      var k: nat :| KeyAt(argv, k, "--cmd");
      var j := LastKeyFrom(argv, "--cmd", k);
    }
  }

  /** The last key position at or after `k`. */
  lemma {:induction false} LastKeyFrom(argv: seq<string>, key: string, k: nat) returns (j: nat)
    requires KeyAt(argv, k, key)
    ensures KeyAt(argv, j, key) && forall j': nat :: KeyAt(argv, j', key) ==> j' <= j
    decreases |argv| - k
  {
    if exists j': nat :: KeyAt(argv, j', key) && j' > k {
      var j': nat :| KeyAt(argv, j', key) && j' > k;
      j := LastKeyFrom(argv, key, j');
    } else {
      j := k;
    }
  }

  /**
   * A record with a command logs exactly one execution with the numbers
   * std::stoi reads from --exit and --duration (empty counts as 0), an
   * empty --cwd standing for the current directory and an undetected branch
   * as ""; when either number does not read, stoi throws and nothing is
   * logged. Only a logged record changes the store.
   */
  lemma RecordLogs(argv: seq<string>, t: Tables, currentDir: string, now: int,
                   branchOf: string -> Option<string>)
    requires Valid(t)
    requires |argv| >= 2 && argv[1] == "record"
    ensures var args := RecordArgs(argv);
            var r := CliRun(argv, t, currentDir, now, branchOf);
            var cwd := if Get(args, "--cwd") == "" then currentDir else Get(args, "--cwd");
            && Valid(r.tables)
            && (r.tables != t ==> r.status == Exit(0, ""))
            && (Get(args, "--cmd") != "" && Get(args, "--exit") == "" && Get(args, "--duration") == "" ==>
                  r == Run(Exit(0, ""), Logged(t, Get(args, "--cmd"), Get(args, "--session"), cwd,
                                             branchOf(cwd).GetOr(""), 0, 0, now)))
    ensures var args := RecordArgs(argv);
            var e, d := Daemon.NumberField(Get(args, "--exit")), Daemon.NumberField(Get(args, "--duration"));
            var cwd := if Get(args, "--cwd") == "" then currentDir else Get(args, "--cwd");
            Get(args, "--cmd") != "" && e.Some? && d.Some? ==>
              CliRun(argv, t, currentDir, now, branchOf)
                == Run(Exit(0, ""), Logged(t, Get(args, "--cmd"), Get(args, "--session"), cwd,
                                           branchOf(cwd).GetOr(""), e.value, d.value, now))
    ensures var args := RecordArgs(argv);
            var e, d := Daemon.NumberField(Get(args, "--exit")), Daemon.NumberField(Get(args, "--duration"));
            Get(args, "--cmd") != "" && (e.None? || d.None?) ==>
              CliRun(argv, t, currentDir, now, branchOf) == Run(Aborted, t)
  {
    var args := RecordArgs(argv);
    var cwd := if Get(args, "--cwd") == "" then currentDir else Get(args, "--cwd");
    var e, d := Daemon.NumberField(Get(args, "--exit")), Daemon.NumberField(Get(args, "--duration"));
    if Get(args, "--cmd") != "" && e.Some? && d.Some? {
      LoggedEffect(t, Get(args, "--cmd"), Get(args, "--session"), cwd, branchOf(cwd).GetOr(""), e.value, d.value, now);
    }
  }

  /** Fewer than two arguments, or suggest without a query, prints nothing and exits with 0. */
  lemma ShortArgvDoesNothing(argv: seq<string>, t: Tables, currentDir: string, now: int,
                             branchOf: string -> Option<string>)
    requires |argv| < 2 || (argv[1] == "suggest" && |argv| < 3)
    ensures CliRun(argv, t, currentDir, now, branchOf) == Run(Exit(0, ""), t)
  {
  }

  /** suggest prints each result's text on its own line, in result order, and writes nothing. */
  lemma SuggestPrintsResults(argv: seq<string>, t: Tables, currentDir: string, now: int,
                             branchOf: string -> Option<string>)
    requires |argv| >= 3 && argv[1] == "suggest"
    ensures var o := SuggestScan(argv);
            var rs := SearchWith(t, Filter(argv[2], o.scope, o.context, o.onlySuccess));
            var r := CliRun(argv, t, currentDir, now, branchOf);
            && r.tables == t && r.status == Exit(0, Daemon.Lines(rs))
            && ((forall i :: 0 <= i < |rs| ==> '\n' !in rs[i].cmd) ==>
                  Split(r.status.output, '\n') == Daemon.Texts(rs) + [""])
  {
    var o := SuggestScan(argv);
    var rs := SearchWith(t, Filter(argv[2], o.scope, o.context, o.onlySuccess));
    if forall i :: 0 <= i < |rs| ==> '\n' !in rs[i].cmd {
      Daemon.LinesRoundTrip(rs);
    }
  }

  /** main.cpp's main after the store is opened. */
  method RunCli(history: HistoryDB, argv: seq<string>, currentDir: string, now: int,
                branchOf: string -> Option<string>) returns (status: Status)
    modifies history.file
    ensures Run(status, history.file.tables) == CliRun(argv, old(history.file.tables), currentDir, now, branchOf)
  {
    if |argv| < 2 {
      return Exit(0, "");
    }
    var mode := argv[1];
    if mode == "record" {
      var args := CollectPairs(argv);
      var cmd := Get(args, "--cmd");
      var cwd := Get(args, "--cwd");
      var exitStr := Get(args, "--exit");
      var durationStr := Get(args, "--duration");
      var session := Get(args, "--session");
      if cmd == "" {
        return Exit(1, "");
      }
      if cwd == "" {
        cwd := currentDir;
      }
      var branch := branchOf(cwd).GetOr("");
      var exitCode := Daemon.NumberField(exitStr);
      var duration := Daemon.NumberField(durationStr);
      if exitCode.None? || duration.None? {
        return Aborted;
      }
      history.LogCommand(cmd, session, cwd, branch, exitCode.value, duration.value, now);
      status := Exit(0, "");
    } else if mode == "search" {
      status := Interactive;
    } else if mode == "suggest" {
      if |argv| < 3 {
        return Exit(0, "");
      }
      var query := argv[2];
      var scope := Global;
      var contextVal := "";
      var successOnly := false;
      var i := 3;
      while i < |argv|
        invariant 3 <= i <= |argv|
        invariant SuggestScan(argv)
                  == Scan(argv, i, SuggestTakesValue, SuggestApply, SuggestOptions(scope, contextVal, successOnly))
      {
        var arg := argv[i];
        if arg == "--scope" && i + 1 < |argv| {
          i := i + 1;
          var s := argv[i];
          if s == "dir" {
            scope := Directory;
          }
          if s == "branch" {
            scope := Branch;
          }
        } else if arg == "--cwd" && i + 1 < |argv| {
          if scope == Directory {
            i := i + 1;
            contextVal := argv[i];
          } else {
            i := i + 1;
          }
        } else if arg == "--branch" && i + 1 < |argv| {
          if scope == Branch {
            i := i + 1;
            contextVal := argv[i];
          } else {
            i := i + 1;
          }
        } else if arg == "--success" {
          successOnly := true;
        }
        i := i + 1;
      }
      var results := history.Search(query, scope, contextVal, successOnly);
      var output := Daemon.AppendLines(results);
      status := Exit(0, output);
    } else {
      status := Exit(0, "");
    }
  }
}
