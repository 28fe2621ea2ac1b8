/**
 * The history store of db.hpp / db.cpp: a `commands` table of unique command
 * texts and an append-only `executions` table, written by logCommand and read
 * by search. The two tables are a value (`Tables`); the database file that
 * holds them is an object whose tables HistoryDB.LogCommand replaces.
 */
module HistoryDb {
  import opened Wrappers
  import SqlLike

  /** SearchScope: exactly one of three breadths. */
  datatype Scope = Global | Directory | Branch

  /** SearchResult: a command id paired with its text. */
  datatype SearchResult = SearchResult(id: nat, cmd: string)

  /** One row of `executions`; None stands for SQL NULL. */
  datatype Execution = Execution(
    commandId: nat,
    sessionId: string,
    cwd: Option<string>,
    gitBranch: Option<string>,
    exitCode: int,
    durationMs: int,
    timestamp: int)

  /**
   * Both tables. By the model's convention the id of `commands[k]` is k + 1;
   * SQLite's AUTOINCREMENT ids only increase and may skip values, so the
   * numbers can differ from the program's while the text behind each id
   * does not.
   */
  datatype Tables = Tables(commands: seq<string>, executions: seq<Execution>)

  /** What the schema and the writers guarantee of every reachable state. */
  predicate Valid(t: Tables) {
    // cmd_text is UNIQUE
    && (forall i, j :: 0 <= i < j < |t.commands| ==> t.commands[i] != t.commands[j])
    // command_id refers to an existing command
    && (forall k :: 0 <= k < |t.executions| ==> 1 <= t.executions[k].commandId <= |t.commands|)
    // an empty branch is never stored: it is written as NULL
    && (forall k :: 0 <= k < |t.executions| ==> t.executions[k].gitBranch != Some(""))
  }

  /** initSchema on a fresh database file: both tables exist and are empty. */
  function EmptyTables(): (t: Tables)
    ensures Valid(t) && |t.commands| == 0 && |t.executions| == 0
  {
    Tables([], [])
  }

  // ---------------------------------------------------------------------------
  // logCommand

  /** Position of the first row holding `text`. */
  function IndexOf(cmds: seq<string>, text: string): (k: nat)
    requires text in cmds
    ensures k < |cmds| && cmds[k] == text
    ensures forall j :: 0 <= j < k ==> cmds[j] != text
  {
    if cmds[0] == text then 0 else 1 + IndexOf(cmds[1..], text)
  }

  /** `SELECT id FROM commands WHERE cmd_text = ?` */
  function CommandId(t: Tables, text: string): nat
    requires text in t.commands
  {
    IndexOf(t.commands, text) + 1
  }

  /** `INSERT OR IGNORE INTO commands (cmd_text) VALUES (?)` */
  function InsertOrIgnore(t: Tables, text: string): Tables {
    if text in t.commands then t else t.(commands := t.commands + [text])
  }

  /** The git_branch column: an empty branch is bound as NULL, any other verbatim. */
  function BranchColumn(branch: string): (c: Option<string>)
    ensures c == None <==> branch == ""
    ensures c.Some? ==> c.value == branch
  {
    if branch == "" then None else Some(branch)
  }

  /**
   * The three statements every writer issues for one execution: insert the
   * text if new, look its id up by exact text, append one execution row.
   */
  function Recorded(t: Tables, cmd: string, sessionId: string, cwd: Option<string>,
                    gitBranch: Option<string>, exitCode: int, durationMs: int,
                    timestamp: int): Tables
  {
    var t1 := InsertOrIgnore(t, cmd);
    var id := CommandId(t1, cmd);
    t1.(executions := t1.executions + [Execution(id, sessionId, cwd, gitBranch, exitCode, durationMs, timestamp)])
  }

  /** The effect of HistoryDB::logCommand on the tables. */
  function Logged(t: Tables, cmd: string, session: string, cwd: string, branch: string,
                  exitCode: int, duration: int, timestamp: int): Tables
  {
    Recorded(t, cmd, session, Some(cwd), BranchColumn(branch), exitCode, duration, timestamp)
  }

  /**
   * Recording a text adds a `commands` row only when the text is new, appends
   * exactly one execution carrying the given values and the id of that text,
   * and leaves every earlier row alone.
   */
  lemma RecordedEffect(t: Tables, cmd: string, sessionId: string, cwd: Option<string>,
                       gitBranch: Option<string>, exitCode: int, durationMs: int, timestamp: int)
    requires Valid(t)
    ensures var r := Recorded(t, cmd, sessionId, cwd, gitBranch, exitCode, durationMs, timestamp);
            && (cmd in t.commands ==> r.commands == t.commands)
            && (cmd !in t.commands ==> r.commands == t.commands + [cmd])
            && |r.executions| == |t.executions| + 1
            && r.executions[..|t.executions|] == t.executions
            && var e := r.executions[|t.executions|];
               && 1 <= e.commandId <= |r.commands| && r.commands[e.commandId - 1] == cmd
               && e.sessionId == sessionId && e.cwd == cwd && e.gitBranch == gitBranch
               && e.exitCode == exitCode && e.durationMs == durationMs && e.timestamp == timestamp
  {
  }

  /** Recording keeps the store valid as long as an empty branch is not written. */
  lemma RecordedValid(t: Tables, cmd: string, sessionId: string, cwd: Option<string>,
                      gitBranch: Option<string>, exitCode: int, durationMs: int, timestamp: int)
    requires Valid(t) && gitBranch != Some("")
    ensures Valid(Recorded(t, cmd, sessionId, cwd, gitBranch, exitCode, durationMs, timestamp))
  {
    var t1 := InsertOrIgnore(t, cmd);
    if cmd !in t.commands {
      assert forall i, j :: 0 <= i < j < |t1.commands| ==> t1.commands[i] != t1.commands[j] by {
        forall i, j | 0 <= i < j < |t1.commands| ensures t1.commands[i] != t1.commands[j] {
          if j == |t.commands| {
            assert t.commands[i] in t.commands;
          }
        }
      }
    }
  }

  /**
   * logCommand: the execution row refers to the row whose text is exactly
   * `cmd` (stored verbatim, so texts differing in white space are distinct
   * rows), the branch column is NULL exactly for an empty branch, and the
   * store stays valid.
   */
  lemma LoggedEffect(t: Tables, cmd: string, session: string, cwd: string, branch: string,
                     exitCode: int, duration: int, timestamp: int)
    requires Valid(t)
    ensures var r := Logged(t, cmd, session, cwd, branch, exitCode, duration, timestamp);
            && Valid(r)
            && |r.commands| == |t.commands| + (if cmd in t.commands then 0 else 1)
            && |r.executions| == |t.executions| + 1
            && r.executions[..|t.executions|] == t.executions
            && var e := r.executions[|t.executions|];
               && r.commands[e.commandId - 1] == cmd
               && e == Execution(e.commandId, session, Some(cwd), if branch == "" then None else Some(branch),
                                 exitCode, duration, timestamp)
  {
    RecordedEffect(t, cmd, session, Some(cwd), BranchColumn(branch), exitCode, duration, timestamp);
    RecordedValid(t, cmd, session, Some(cwd), BranchColumn(branch), exitCode, duration, timestamp);
  }

  /** Logging the same text twice leaves a single `commands` row for it. */
  lemma LoggedTwiceOneRow(t: Tables, cmd: string, s1: string, c1: string, b1: string, e1: int, d1: int, ts1: int,
                          s2: string, c2: string, b2: string, e2: int, d2: int, ts2: int)
    requires Valid(t)
    ensures var r := Logged(Logged(t, cmd, s1, c1, b1, e1, d1, ts1), cmd, s2, c2, b2, e2, d2, ts2);
            && r.commands == InsertOrIgnore(t, cmd).commands
            && multiset(r.commands)[cmd] == 1
            && r.executions[|t.executions|].commandId == r.executions[|t.executions| + 1].commandId
  {
    var r1 := Logged(t, cmd, s1, c1, b1, e1, d1, ts1);
    LoggedEffect(t, cmd, s1, c1, b1, e1, d1, ts1);
    LoggedEffect(r1, cmd, s2, c2, b2, e2, d2, ts2);
    var r := Logged(r1, cmd, s2, c2, b2, e2, d2, ts2);
    UniqueCount(r.commands, IndexOf(r.commands, cmd));
  }

  /** In a sequence without repeats, an element occurs once. */
  lemma {:induction false} UniqueCount(s: seq<string>, k: nat)
    requires k < |s|
    requires forall i, j :: 0 <= i < j < |s| ==> s[i] != s[j]
    ensures multiset(s)[s[k]] == 1
  {
    if |s| > 1 {
      var init := s[..|s| - 1];
      assert s == init + [s[|s| - 1]];
      if k < |s| - 1 {
        UniqueCount(init, k);
        assert s[|s| - 1] != s[k];
      } else {
        assert forall j :: 0 <= j < |init| ==> init[j] != s[k];
      }
    }
  }

  /** The database file: the two tables it holds. */
  class HistoryFile {
    var tables: Tables

    /** A fresh file after initSchema. */
    constructor ()
      ensures tables == EmptyTables()
    {
      tables := EmptyTables();
    }
  }

  /**
   * `SELECT id FROM commands WHERE cmd_text = ?` after the text has been
   * inserted: the id of the first row holding the text.
   */
  method LookupId(cmds: seq<string>, text: string) returns (id: nat)
    requires text in cmds
    ensures 1 <= id <= |cmds| && cmds[id - 1] == text
    ensures forall j :: 0 <= j < id - 1 ==> cmds[j] != text
  {
    var k := 0;
    while cmds[k] != text
      invariant 0 <= k < |cmds|
      invariant forall j :: 0 <= j < k ==> cmds[j] != text
      invariant text in cmds[k..]
      decreases |cmds| - k
    {
      assert cmds[k..] == [cmds[k]] + cmds[k + 1..];
      k := k + 1;
    }
    id := k + 1;
  }

  /**
   * HistoryDB: the source object holds only the database path and opens the
   * file it names on every call; here `file` stands for that database, so
   * two objects share history exactly when they are given the same `file`.
   */
  class HistoryDB {
    const dbPath: string
    const file: HistoryFile

    constructor (dbPath: string, file: HistoryFile)
      ensures this.dbPath == dbPath && this.file == file
    {
      this.dbPath := dbPath;
      this.file := file;
    }

    /** logCommand: insert-or-ignore the text, look its id up, append one execution. */
    method LogCommand(cmd: string, session: string, cwd: string, branch: string,
                      exitCode: int, duration: int, timestamp: int)
      modifies file
      ensures file.tables == Logged(old(file.tables), cmd, session, cwd, branch, exitCode, duration, timestamp)
    {
      // 1. INSERT OR IGNORE
      if cmd !in file.tables.commands {
        file.tables := file.tables.(commands := file.tables.commands + [cmd]);
      }
      // 2. SELECT id
      var cmdId := LookupId(file.tables.commands, cmd);
      // 3. INSERT INTO executions
      var gitBranch := if branch == "" then None else Some(branch);
      var row := Execution(cmdId, session, Some(cwd), gitBranch, exitCode, duration, timestamp);
      file.tables := file.tables.(executions := file.tables.executions + [row]);
    }

    /**
     * search: runs the query and collects its rows in order, one result per
     * ranked group.
     */
    method Search(query: string, scope: Scope, context: string, onlySuccess: bool := false)
      returns (rs: seq<SearchResult>)
      ensures rs == SearchWith(file.tables, Filter(query, scope, context, onlySuccess))
    {
      var t := file.tables;
      var f := Filter(query, scope, context, onlySuccess);
      RankedInRange(t, f);
      rs := CollectRows(Ranked(t, f), t.commands);
    }
  }

  /** The `executeStep` loop of search: one result per row of the query, in order. */
  method CollectRows(top: seq<Group>, cmds: seq<string>) returns (rs: seq<SearchResult>)
    requires forall g :: g in top ==> 1 <= g.id <= |cmds|
    ensures rs == Results(top, cmds)
  {
    rs := [];
    var i := 0;
    while i < |top|
      invariant i <= |top| && |rs| == i
      invariant forall j :: 0 <= j < i ==> rs[j] == SearchResult(top[j].id, cmds[top[j].id - 1])
    {
      var g := top[i];
      assert g in top;
      rs := rs + [SearchResult(g.id, cmds[g.id - 1])];
      i := i + 1;
    }
  }

  // ---------------------------------------------------------------------------
  // search

  /** The parameters of one search call; `only_success` defaults to false. */
  datatype Filter = Filter(query: string, scope: Scope, context: string, onlySuccess: bool := false)

  /** The text conditions: `LIKE '%query%'` and none of the three exclusions. */
  predicate TextSelected(text: string, query: string) {
    && SqlLike.Like(text, "%" + query + "%")
    && !SqlLike.Like(text, "bsh%")
    && !SqlLike.Like(text, "./bsh%")
    && !SqlLike.Like(SqlLike.Trim(text), "#%")
  }

  /** An execution that survives the join and every WHERE condition. */
  predicate RowSelected(t: Tables, e: Execution, f: Filter) {
    && 1 <= e.commandId <= |t.commands|
    && TextSelected(t.commands[e.commandId - 1], f.query)
    && (f.scope == Directory ==> e.cwd == Some(f.context))
    && (f.scope == Branch ==> e.gitBranch == Some(f.context))
    && (f.onlySuccess ==> e.exitCode == 0)
  }

  /** RowSelected as a function value: the grouping below never looks inside it. */
  function Selector(t: Tables, f: Filter): Execution -> bool {
    e => RowSelected(t, e, f)
  }

  /** Row `k` of `rows` is an execution of command `id` that `sel` keeps. */
  predicate SelectedUse(rows: seq<Execution>, sel: Execution -> bool, id: nat, k: int) {
    0 <= k < |rows| && rows[k].commandId == id && sel(rows[k])
  }

  /** MAX(e.timestamp) over the kept executions of command `id`, if any. */
  function LatestUse(rows: seq<Execution>, sel: Execution -> bool, id: nat): Option<int> {
    if rows == [] then None
    else
      var e := rows[|rows| - 1];
      var rest := LatestUse(rows[..|rows| - 1], sel, id);
      if e.commandId == id && sel(e) then
        if rest.Some? && rest.value > e.timestamp then rest else Some(e.timestamp)
      else
        rest
  }

  /**
   * LatestUse is the maximum: it exists exactly when some kept execution of
   * the command exists, it is the timestamp of one of them, and no kept
   * execution is later.
   */
  lemma {:induction false} LatestUseIsMax(rows: seq<Execution>, sel: Execution -> bool, id: nat)
    ensures var r := LatestUse(rows, sel, id);
            && (r.Some? <==> exists k :: SelectedUse(rows, sel, id, k))
            && (r.Some? ==> exists k :: SelectedUse(rows, sel, id, k) && rows[k].timestamp == r.value)
            && (r.Some? ==> forall k :: SelectedUse(rows, sel, id, k) ==> rows[k].timestamp <= r.value)
    decreases |rows|
  {
    if rows != [] {
      var init := rows[..|rows| - 1];
      var last := |rows| - 1;
      var e := rows[last];
      var rest := LatestUse(init, sel, id);
      LatestUseIsMax(init, sel, id);
      assert forall k :: 0 <= k < |init| ==> init[k] == rows[k];
      assert forall k :: SelectedUse(rows, sel, id, k) ==> k == last || SelectedUse(init, sel, id, k);
      assert forall k :: SelectedUse(init, sel, id, k) ==> SelectedUse(rows, sel, id, k);
      if rest.Some? {
        var k :| SelectedUse(init, sel, id, k) && init[k].timestamp == rest.value;
        assert SelectedUse(rows, sel, id, k) && rows[k].timestamp == rest.value;
      }
      if e.commandId == id && sel(e) {
        assert SelectedUse(rows, sel, id, last);
      } else {
        assert !SelectedUse(rows, sel, id, last);
      }
    }
  }

  /** The latest timestamp of command `id` among the executions that pass `f`. */
  function Latest(t: Tables, f: Filter, id: nat): Option<int> {
    LatestUse(t.executions, Selector(t, f), id)
  }

  /** One GROUP BY group: a command and its latest selected timestamp. */
  datatype Group = Group(id: nat, latest: int)

  predicate IdsDistinct(gs: seq<Group>) {
    forall i, j :: 0 <= i < j < |gs| ==> gs[i].id != gs[j].id
  }

  /** The groups of commands 1..n, in id order. */
  function GroupsUpTo(rows: seq<Execution>, sel: Execution -> bool, n: nat): (gs: seq<Group>)
    ensures forall i, j :: 0 <= i < j < |gs| ==> gs[i].id < gs[j].id
    ensures forall g :: g in gs ==> 1 <= g.id <= n
  {
    if n == 0 then []
    else
      var gs := GroupsUpTo(rows, sel, n - 1);
      match LatestUse(rows, sel, n)
      case Some(m) => gs + [Group(n, m)]
      case None => gs
  }

  /**
   * GROUP BY c.id over the selected rows: there is a group for a command
   * exactly when it has a selected execution, and its value is the latest
   * selected timestamp.
   */
  lemma {:induction false} GroupsUpToMembers(rows: seq<Execution>, sel: Execution -> bool, n: nat, g: Group)
    ensures g in GroupsUpTo(rows, sel, n) <==> 1 <= g.id <= n && LatestUse(rows, sel, g.id) == Some(g.latest)
  {
    if n > 0 {
      var gs := GroupsUpTo(rows, sel, n - 1);
      GroupsUpToMembers(rows, sel, n - 1, g);
      var latest := LatestUse(rows, sel, n);
      if latest.Some? {
        assert GroupsUpTo(rows, sel, n) == gs + [Group(n, latest.value)];
      } else {
        assert GroupsUpTo(rows, sel, n) == gs;
      }
    }
  }

  /** Position of the first group with the greatest latest timestamp. */
  function MostRecent(gs: seq<Group>): (i: nat)
    requires gs != []
    ensures i < |gs| && forall j :: 0 <= j < |gs| ==> gs[j].latest <= gs[i].latest
  {
    if |gs| == 1 then 0
    else
      var i := MostRecent(gs[..|gs| - 1]);
      if gs[|gs| - 1].latest > gs[i].latest then |gs| - 1 else i
  }

  /** The groups other than the one at position `i`. */
  function Without(gs: seq<Group>, i: nat): seq<Group>
    requires i < |gs|
  {
    seq(|gs| - 1, j requires 0 <= j < |gs| - 1 => if j < i then gs[j] else gs[j + 1])
  }

  /** Position by position, Without shifts the groups after `i` down by one. */
  lemma WithoutIndex(gs: seq<Group>, i: nat)
    requires i < |gs|
    ensures var rest := Without(gs, i);
            && |rest| == |gs| - 1
            && (forall j :: 0 <= j < i ==> rest[j] == gs[j])
            && (forall j :: i <= j < |rest| ==> rest[j] == gs[j + 1])
  {
  }

  /** Every group other than the removed one is still there. */
  lemma WithoutKeeps(gs: seq<Group>, i: nat)
    requires i < |gs|
    ensures forall g :: g in gs && g != gs[i] ==> g in Without(gs, i)
  {
    var rest := Without(gs, i);
    WithoutIndex(gs, i);
    forall g | g in gs && g != gs[i] ensures g in rest {
      var j :| 0 <= j < |gs| && gs[j] == g;
      if j < i {
        assert rest[j] == g;
      } else {
        assert rest[j - 1] == g;
      }
    }
  }

  /** No group is added, and with distinct ids none shares the removed one's id. */
  lemma WithoutSubset(gs: seq<Group>, i: nat)
    requires i < |gs| && IdsDistinct(gs)
    ensures forall x :: x in Without(gs, i) ==> x in gs && x.id != gs[i].id
  {
    var rest := Without(gs, i);
    WithoutIndex(gs, i);
    forall x | x in rest ensures x in gs && x.id != gs[i].id {
      var j :| 0 <= j < |rest| && rest[j] == x;
      var j' := if j < i then j else j + 1;
      assert gs[j'] == x;
    }
  }

  /** Removing a group keeps the ids distinct. */
  lemma WithoutDistinct(gs: seq<Group>, i: nat)
    requires i < |gs| && IdsDistinct(gs)
    ensures IdsDistinct(Without(gs, i))
  {
    var rest := Without(gs, i);
    WithoutIndex(gs, i);
    forall a, b | 0 <= a < b < |rest| ensures rest[a].id != rest[b].id {
      var a' := if a < i then a else a + 1;
      var b' := if b < i then b else b + 1;
      assert rest[a] == gs[a'] && rest[b] == gs[b'];
    }
  }

  /** ORDER BY latest DESC LIMIT k: the most recent group first, then the rest. */
  function TopRecent(gs: seq<Group>, k: nat): (r: seq<Group>)
    ensures |r| <= k
    decreases k
  {
    if k == 0 || gs == [] then []
    else
      var i := MostRecent(gs);
      [gs[i]] + TopRecent(Without(gs, i), k - 1)
  }

  predicate NonIncreasing(gs: seq<Group>) {
    forall i, j :: 0 <= i < j < |gs| ==> gs[j].latest <= gs[i].latest
  }

  /** Whatever `kept` leaves out of `gs` is no more recent than all it keeps. */
  predicate KeepsMostRecent(gs: seq<Group>, kept: seq<Group>, k: nat) {
    forall g :: g in gs && g !in kept ==> |kept| == k && forall x :: x in kept ==> g.latest <= x.latest
  }

  /** Putting in front a group at least as recent as, and distinct from, all of a list. */
  lemma ConsOrdered(h: Group, tail: seq<Group>)
    requires IdsDistinct(tail) && NonIncreasing(tail)
    requires forall x :: x in tail ==> x.id != h.id && x.latest <= h.latest
    ensures IdsDistinct([h] + tail) && NonIncreasing([h] + tail)
  {
    var r := [h] + tail;
    forall a, b | 0 <= a < b < |r| ensures r[a].id != r[b].id && r[b].latest <= r[a].latest {
      assert r[b] == tail[b - 1] && r[b] in tail;
      if a > 0 {
        assert r[a] == tail[a - 1];
      }
    }
  }

  /** The left-out property carries over from the rest of the groups to all of them. */
  lemma ConsKeepsMostRecent(gs: seq<Group>, i: nat, rest: seq<Group>, tail: seq<Group>, k: nat)
    requires i < |gs| && k > 0
    requires forall j :: 0 <= j < |gs| ==> gs[j].latest <= gs[i].latest
    requires forall g :: g in gs && g != gs[i] ==> g in rest
    requires KeepsMostRecent(rest, tail, k - 1)
    ensures KeepsMostRecent(gs, [gs[i]] + tail, k)
  {
    var r := [gs[i]] + tail;
    forall g | g in gs && g !in r
      ensures |r| == k && forall x :: x in r ==> g.latest <= x.latest
    {
      assert g != gs[i] && g !in tail;
      var j :| 0 <= j < |gs| && gs[j] == g;
      assert forall x :: x in r ==> x == gs[i] || x in tail;
    }
  }

  /** What the rest of the list keeps lies below the most recent group and apart from it. */
  lemma BelowHead(gs: seq<Group>, i: nat, rest: seq<Group>, tail: seq<Group>)
    requires i < |gs| && forall j :: 0 <= j < |gs| ==> gs[j].latest <= gs[i].latest
    requires forall x :: x in rest ==> x in gs && x.id != gs[i].id
    requires forall x :: x in tail ==> x in rest
    ensures forall x :: x in tail ==> x.id != gs[i].id && x.latest <= gs[i].latest
    ensures forall x :: x in [gs[i]] + tail ==> x in gs
  {
    forall x | x in tail ensures x.id != gs[i].id && x.latest <= gs[i].latest {
      var j :| 0 <= j < |gs| && gs[j] == x;
    }
    assert forall x :: x in [gs[i]] + tail ==> x == gs[i] || x in tail;
  }

  /**
   * TopRecent keeps distinct groups taken from its input, in non-increasing
   * order, and a group it leaves out is no more recent than every one kept,
   * which can only happen when k groups were kept.
   */
  lemma {:induction false} TopRecentProps(gs: seq<Group>, k: nat)
    requires IdsDistinct(gs)
    ensures forall x :: x in TopRecent(gs, k) ==> x in gs
    ensures IdsDistinct(TopRecent(gs, k))
    ensures NonIncreasing(TopRecent(gs, k))
    ensures KeepsMostRecent(gs, TopRecent(gs, k), k)
    decreases k
  {
    if k > 0 && gs != [] {
      var i := MostRecent(gs);
      var rest := Without(gs, i);
      WithoutKeeps(gs, i);
      WithoutSubset(gs, i);
      WithoutDistinct(gs, i);
      var tail := TopRecent(rest, k - 1);
      TopRecentProps(rest, k - 1);
      TopRecentStep(gs, i, rest, tail, k);
      assert TopRecent(gs, k) == [gs[i]] + tail;
    }
  }

  /** The inductive step of TopRecentProps: the most recent group in front of what the rest keeps. */
  lemma TopRecentStep(gs: seq<Group>, i: nat, rest: seq<Group>, tail: seq<Group>, k: nat)
    requires i < |gs| && k > 0 && forall j :: 0 <= j < |gs| ==> gs[j].latest <= gs[i].latest
    requires forall g :: g in gs && g != gs[i] ==> g in rest
    requires forall x :: x in rest ==> x in gs && x.id != gs[i].id
    requires forall x :: x in tail ==> x in rest
    requires IdsDistinct(tail) && NonIncreasing(tail) && KeepsMostRecent(rest, tail, k - 1)
    ensures var r := [gs[i]] + tail;
            && (forall x :: x in r ==> x in gs)
            && IdsDistinct(r) && NonIncreasing(r) && KeepsMostRecent(gs, r, k)
  {
    BelowHead(gs, i, rest, tail);
    ConsOrdered(gs[i], tail);
    ConsKeepsMostRecent(gs, i, rest, tail, k);
  }

  /** Whether some result carries command `id`. */
  predicate Returned(rs: seq<SearchResult>, id: nat) {
    exists i :: 0 <= i < |rs| && rs[i].id == id
  }

  /** `LIMIT 5` */
  const SearchLimit: nat := 5

  /** The groups that `search` returns, before their texts are attached. */
  function Ranked(t: Tables, f: Filter): seq<Group> {
    var gs := GroupsUpTo(t.executions, Selector(t, f), |t.commands|);
    TopRecent(gs, SearchLimit)
  }

  /** Attaches to each group the text of its command. */
  function Results(top: seq<Group>, cmds: seq<string>): (rs: seq<SearchResult>)
    requires forall g :: g in top ==> 1 <= g.id <= |cmds|
    ensures |rs| == |top|
    ensures forall i :: 0 <= i < |rs| ==> rs[i].id == top[i].id
    ensures forall i :: 0 <= i < |rs| ==> 1 <= rs[i].id <= |cmds| && rs[i].cmd == cmds[rs[i].id - 1]
  {
    seq(|top|, i requires 0 <= i < |top| =>
      assert top[i] in top;
      SearchResult(top[i].id, cmds[top[i].id - 1]))
  }

  /** The ranked groups name existing commands. */
  lemma RankedInRange(t: Tables, f: Filter)
    ensures forall x :: x in Ranked(t, f) ==> 1 <= x.id <= |t.commands|
  {
    TopRecentProps(GroupsUpTo(t.executions, Selector(t, f), |t.commands|), SearchLimit);
  }

  /**
   * HistoryDB::search: the commands with at least one execution that passes
   * the filters, grouped by text, most recent first, at most five. Each
   * result carries the text stored under its id. Ties on the latest
   * timestamp are not ordered by the query; this model keeps the lower id
   * first, and the lemmas below promise only non-increasing order.
   */
  function Search(t: Tables, query: string, scope: Scope, context: string, onlySuccess: bool := false)
    : (rs: seq<SearchResult>)
    ensures |rs| <= SearchLimit
  {
    var f := Filter(query, scope, context, onlySuccess);
    RankedInRange(t, f);
    Results(Ranked(t, f), t.commands)
  }

  /** The results of `search` for the filter `f`, with `search`'s own defaults. */
  function SearchWith(t: Tables, f: Filter): seq<SearchResult> {
    Search(t, f.query, f.scope, f.context, f.onlySuccess)
  }

  /** The results are the ranked groups with their texts attached. */
  lemma SearchRanked(t: Tables, f: Filter)
    ensures var rs, top := SearchWith(t, f), Ranked(t, f);
            && |rs| == |top|
            && (forall i :: 0 <= i < |rs| ==> rs[i].id == top[i].id)
            && forall i :: 0 <= i < |rs| ==> 1 <= rs[i].id <= |t.commands| && rs[i].cmd == t.commands[rs[i].id - 1]
  {
    assert Filter(f.query, f.scope, f.context, f.onlySuccess) == f;
    RankedInRange(t, f);
  }

  /** Each result carries a command id of the store and the text stored under it. */
  lemma SearchTexts(t: Tables, f: Filter)
    ensures var rs := SearchWith(t, f);
            forall i :: 0 <= i < |rs| ==> 1 <= rs[i].id <= |t.commands| && rs[i].cmd == t.commands[rs[i].id - 1]
  {
    SearchRanked(t, f);
  }

  /** TopRecentProps for the groups of one search. */
  lemma RankedProps(t: Tables, f: Filter)
    ensures var gs, top := GroupsUpTo(t.executions, Selector(t, f), |t.commands|), Ranked(t, f);
            IdsDistinct(top) && NonIncreasing(top) && (forall x :: x in top ==> x in gs)
            && KeepsMostRecent(gs, top, SearchLimit)
  {
    TopRecentProps(GroupsUpTo(t.executions, Selector(t, f), |t.commands|), SearchLimit);
  }

  /** Every result is a command that has a selected execution. */
  lemma SearchSelected(t: Tables, f: Filter)
    ensures var rs := SearchWith(t, f);
            forall i :: 0 <= i < |rs| ==> Latest(t, f, rs[i].id).Some?
  {
    var rs := SearchWith(t, f);
    var top := Ranked(t, f);
    SearchRanked(t, f);
    RankedProps(t, f);
    forall i | 0 <= i < |rs| ensures Latest(t, f, rs[i].id).Some? {
      assert top[i] in top;
      GroupsUpToMembers(t.executions, Selector(t, f), |t.commands|, top[i]);
    }
  }

  /** No command is returned twice. */
  lemma SearchDistinctIds(t: Tables, f: Filter)
    ensures var rs := SearchWith(t, f);
            forall i, j :: 0 <= i < j < |rs| ==> rs[i].id != rs[j].id
  {
    SearchRanked(t, f);
    RankedProps(t, f);
  }

  /** ORDER BY MAX(timestamp) DESC: results come most recent first. */
  lemma SearchOrdered(t: Tables, f: Filter)
    ensures var rs := SearchWith(t, f);
            forall i, j :: 0 <= i < j < |rs| ==>
              Latest(t, f, rs[i].id).Some? && Latest(t, f, rs[j].id).Some?
              && Latest(t, f, rs[j].id).value <= Latest(t, f, rs[i].id).value
  {
    var rs := SearchWith(t, f);
    var top := Ranked(t, f);
    SearchRanked(t, f);
    RankedProps(t, f);
    forall i | 0 <= i < |rs| ensures Latest(t, f, rs[i].id) == Some(top[i].latest) {
      assert top[i] in top;
      GroupsUpToMembers(t.executions, Selector(t, f), |t.commands|, top[i]);
    }
  }

  /**
   * LIMIT 5 drops only what is no more recent than what it keeps: a command
   * with a selected execution that is not returned means five results were
   * returned, each at least as recent.
   */
  lemma SearchComplete(t: Tables, f: Filter, id: nat)
    requires 1 <= id <= |t.commands| && Latest(t, f, id).Some?
    ensures var rs := SearchWith(t, f);
            !Returned(rs, id) ==>
              && |rs| == SearchLimit
              && forall i :: 0 <= i < |rs| ==>
                   Latest(t, f, rs[i].id).Some? && Latest(t, f, id).value <= Latest(t, f, rs[i].id).value
  {
    var rs := SearchWith(t, f);
    var gs := GroupsUpTo(t.executions, Selector(t, f), |t.commands|);
    var top := Ranked(t, f);
    SearchRanked(t, f);
    RankedProps(t, f);
    var g := Group(id, Latest(t, f, id).value);
    GroupsUpToMembers(t.executions, Selector(t, f), |t.commands|, g);
    if g in top {
      var i :| 0 <= i < |top| && top[i] == g;
      assert rs[i].id == id;
    } else {
      forall i | 0 <= i < |rs|
        ensures Latest(t, f, rs[i].id).Some? && Latest(t, f, id).value <= Latest(t, f, rs[i].id).value
      {
        assert top[i] in top;
        GroupsUpToMembers(t.executions, Selector(t, f), |t.commands|, top[i]);
      }
    }
  }

  /** With a store as the writers keep it, results have pairwise distinct texts. */
  lemma SearchDistinctTexts(t: Tables, f: Filter)
    requires Valid(t)
    ensures var rs := SearchWith(t, f);
            forall i, j :: 0 <= i < j < |rs| ==> rs[i].cmd != rs[j].cmd
  {
    SearchDistinctIds(t, f);
  }

  /** A kept execution of a command whose latest kept use exists. */
  lemma SomeSelectedUse(rows: seq<Execution>, sel: Execution -> bool, id: nat) returns (k: nat)
    requires LatestUse(rows, sel, id).Some?
    ensures SelectedUse(rows, sel, id, k)
  {
    LatestUseIsMax(rows, sel, id);
    k :| SelectedUse(rows, sel, id, k);
  }

  /** Applying the selector is checking RowSelected. */
  lemma SelectorMeans(t: Tables, f: Filter, e: Execution)
    requires Selector(t, f)(e)
    ensures RowSelected(t, e, f)
  {
  }

  /** A selected execution's command text passed the text conditions. */
  lemma SelectedText(t: Tables, f: Filter, e: Execution, c: string)
    requires Selector(t, f)(e) && 1 <= e.commandId <= |t.commands| && c == t.commands[e.commandId - 1]
    ensures TextSelected(c, f.query)
  {
    SelectorMeans(t, f, e);
  }

  /** A selected execution of a result's command. */
  lemma SelectedRow(t: Tables, f: Filter, i: nat) returns (k: nat)
    requires i < |SearchWith(t, f)|
    ensures k < |t.executions| && t.executions[k].commandId == SearchWith(t, f)[i].id
    ensures Selector(t, f)(t.executions[k])
  {
    var id := SearchWith(t, f)[i].id;
    SearchSelected(t, f);
    k := SomeSelectedUse(t.executions, Selector(t, f), id);
  }

  /**
   * Each result has an execution that passed every filter: its cwd equals the
   * context under DIRECTORY, its branch equals it under BRANCH, and its exit
   * code is 0 when only successes are asked for.
   */
  lemma SearchResultsHaveSelectedUse(t: Tables, f: Filter, i: nat)
    requires i < |SearchWith(t, f)|
    ensures var r := SearchWith(t, f)[i];
            exists k :: 0 <= k < |t.executions| && t.executions[k].commandId == r.id
              && (f.scope == Directory ==> t.executions[k].cwd == Some(f.context))
              && (f.scope == Branch ==> t.executions[k].gitBranch == Some(f.context))
              && (f.onlySuccess ==> t.executions[k].exitCode == 0)
  {
    var k := SelectedRow(t, f, i);
    SelectorMeans(t, f, t.executions[k]);
  }

  /** The text of the result at position `i`. */
  lemma ResultText(t: Tables, f: Filter, i: nat)
    requires i < |SearchWith(t, f)|
    ensures var r := SearchWith(t, f)[i]; 1 <= r.id <= |t.commands| && r.cmd == t.commands[r.id - 1]
  {
    SearchTexts(t, f);
  }

  /** Every result passed the text conditions of the WHERE clause. */
  lemma SearchTextSelected(t: Tables, f: Filter, i: nat)
    requires i < |SearchWith(t, f)|
    ensures TextSelected(SearchWith(t, f)[i].cmd, f.query)
  {
    var k := SelectedRow(t, f, i);
    var e := t.executions[k];
    ResultText(t, f, i);
    SelectedText(t, f, e, SearchWith(t, f)[i].cmd);
  }


  /**
   * The text conditions spelled out: the text matches `LIKE '%query%'`, which
   * for a wildcard-free query means the query occurs in it ignoring ASCII
   * case; it does not start with `bsh` or `./bsh` (ignoring ASCII case), nor
   * with `#` once spaces are trimmed.
   */
  lemma TextSelectedMeaning(c: string, query: string)
    requires TextSelected(c, query)
    ensures SqlLike.WildcardFree(query) ==> exists j: nat :: SqlLike.OccursAt(c, query, j)
    ensures !(|c| >= 3 && SqlLike.FoldEq(c[..3], "bsh"))
    ensures !(|c| >= 5 && SqlLike.FoldEq(c[..5], "./bsh"))
    ensures var tc := SqlLike.Trim(c); !(|tc| >= 1 && tc[0] == '#')
  {
    if SqlLike.WildcardFree(query) {
      SqlLike.LikeContains(c, query);
    }
    SqlLike.PrefixPatterns(c);
    SqlLike.PrefixPatterns(SqlLike.Trim(c));
  }

  /**
   * A BRANCH search for the empty branch finds nothing: empty branches are
   * stored as NULL, and NULL equals no context.
   */
  lemma SearchEmptyBranch(t: Tables, query: string, onlySuccess: bool)
    requires Valid(t)
    ensures SearchWith(t, Filter(query, Branch, "", onlySuccess)) == []
  {
    var f := Filter(query, Branch, "", onlySuccess);
    if SearchWith(t, f) != [] {
      var k := SelectedRow(t, f, 0);
      SelectorMeans(t, f, t.executions[k]);
    }
  }

  /** An empty store has no results, whatever the query. */
  lemma SearchEmptyStore(query: string, scope: Scope, context: string, onlySuccess: bool)
    ensures Search(EmptyTables(), query, scope, context, onlySuccess) == []
  {
  }
}
