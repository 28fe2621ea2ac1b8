# bsh — a model of the shell-history daemon

bsh remembers the commands typed in a shell and offers them back as suggestions.
A shell hook runs `bsh-client record …` after every command and `bsh-client suggest …`
while the user types. The client sends a one-line request over a Unix socket to the
daemon. The daemon splits the request on the byte 0x1F and answers:

- `RECORD`: it resolves the git branch of the directory and logs one execution in SQLite;
- `SUGGEST`: it returns up to five matching command texts, most recent first, one per line.

`bsh record` and `bsh suggest` do the same work without the daemon. A Python script
imports an existing zsh history into a fresh database.

This project models that core in Dafny:

- The two SQLite tables are a value `Tables(commands, executions)`. In the model a
  command's id is its position in `commands` plus one (see "Left out" for how this
  differs from SQLite's `AUTOINCREMENT`).
- `HistoryDB::logCommand` and `HistoryDB::search` are functions on that value, with
  methods on the `HistoryDB` and `HistoryFile` classes proved equal to them.
  - `search` is specified by what the SQL promises: the result is the top five by latest
    passing timestamp, has distinct ids and texts, and is in non-increasing order.
  - `LIKE` (ASCII case-insensitive, `%` and `_`) and `TRIM` are modelled in `SqlLike`.
- The daemon's accept-loop body is the function `Daemon.HandleRequest`. `Daemon.Serve` is
  proved equal to it.
- The client's and the direct CLI's argument loops share one argv scanner (`Argv.Scan`).
  The methods `Client.BuildMessage`, `Cli.CollectPairs` and `Cli.RunCli` run the loops and
  are proved equal to the specifying functions.
- The git branch cache is the class `GitUtils.BranchCache`. The steady clock and what
  libgit2 reports are parameters.
- The zsh importer is `ImportZsh.ParseZshHistory` and the method `ImportZsh.ImportHistory`.

Some facts about the code that shape the model:

- `RECORD` logs synchronously before replying `OK`;
- self-invocations are stored like any other command; `search` filters out texts
  `LIKE 'bsh%'` or `'./bsh%'`, and texts whose `TRIM` starts with `#`;
- command texts are stored as received, without trimming;
- the branch cache `get_git_branch_cached` (src/git_utils.cpp:50) has no caller: the
  daemon's `RECORD` path (src/daemon.cpp:139) and `bsh record` (src/main.cpp:54) both call
  the uncached `get_git_branch`. The cache is modelled on its own, as `GitUtils.BranchCache`.

Strings are sequences of characters: the C++ code's byte strings and the importer's
Python strings alike, one character per element. Integers are unbounded. `std::stoi`
is modelled with its `int` range, and a value outside it is the error it throws.

## Model

| member | source | states |
|---|---|---|
| Ipc.SocketPath | src/ipc.hpp:6-12 | `$XDG_RUNTIME_DIR/bsh.sock` when the variable is set (even to ""), otherwise `/tmp/bsh_<uid>.sock`; always ends in `.sock` |
| Ipc.FallbackPathsDistinct | src/ipc.hpp:11 | without XDG_RUNTIME_DIR, two different uids get two different socket paths |
| Text.DecimalRoundTrip | src/ipc.hpp:11 | reading back the decimal rendering of a number gives the number |
| Text.DecimalInjective | src/ipc.hpp:11 | different numbers render differently |
| Text.Stoi | src/daemon.cpp:134-135 | `std::stoi`: a value is produced only inside the 32-bit `int` range |
| Text.StoiDecimal | src/daemon.cpp:134-135 | `stoi` of a rendered in-range number gives that number |
| Text.StoiNegative | src/daemon.cpp:134-135 | `stoi` of `-` followed by a rendered number gives its negation, down to INT_MIN |
| Text.StoiNeedsDigit | src/daemon.cpp:134-135 | a field with no digit at all is rejected |
| Text.StripLeft | import_zsh.py:18 | removes only leading white space, and stops at the first non-space |
| Text.StripLeftSuffix | import_zsh.py:18 | what StripLeft keeps is a suffix of its input |
| Text.StripRight | import_zsh.py:18 | removes only trailing white space and keeps a prefix |
| Text.StripSlice | import_zsh.py:18 | `strip()` returns a contiguous slice whose outside is all white space |
| Text.StripEnds | import_zsh.py:18 | a stripped string is empty or starts and ends with a non-space |
| Text.StripIdempotent | import_zsh.py:25-29 | stripping twice is stripping once: the second `strip()` of a plain line changes nothing |
| Text.StripNoop | import_zsh.py:18 | a string that starts and ends with a non-space is its own strip |
| Text.SplitPiece | src/daemon.cpp:18-26 | a piece without the separator splits into itself |
| Text.SplitAfterSeparator | src/daemon.cpp:18-26 | splitting `p + sep + w` gives the pieces of `p` followed by `w` |
| Text.JoinSplit | src/daemon.cpp:18-26 | joining the pieces of a split with the separator restores the string |
| Text.SplitJoin | src/client.cpp:36 | splitting a join of separator-free fields gives back the fields |
| SqlLike.Lower | src/db.cpp:96 | LIKE folds only the ASCII capitals A-Z |
| SqlLike.PercentMatchesAll | src/db.cpp:121 | `%` alone matches every text |
| SqlLike.LikePrefix | src/db.cpp:97-99 | `lit%` matches exactly the texts that start with `lit`, ignoring ASCII case |
| SqlLike.LikeContains | src/db.cpp:121 | `%q%` with a wildcard-free q matches exactly the texts that contain q, ignoring ASCII case |
| SqlLike.PrefixPatterns | src/db.cpp:97-99 | the three exclusion patterns: starts with `bsh`, starts with `./bsh`, starts with `#` |
| SqlLike.Trim | src/db.cpp:99 | `TRIM` keeps a contiguous piece of the text, removes only spaces, and leaves none at either end |
| HistoryDb.EmptyTables | src/db.cpp:16-32 | the tables just after `initSchema` are empty and satisfy the schema's guarantees |
| HistoryDb.IndexOf | src/db.cpp:58-61 | the first row holding the text |
| HistoryDb.LookupId | src/db.cpp:58-61 | `SELECT id … WHERE cmd_text = ?` finds the one id whose text is the given one |
| HistoryDb.BranchColumn | src/db.cpp:71-72 | an empty branch is bound as NULL, any other verbatim |
| HistoryDb.RecordedEffect | src/db.cpp:52-76 | a new text adds one `commands` row, a known one none; exactly one execution is appended with the given values and the text's id; earlier rows are unchanged |
| HistoryDb.RecordedValid | src/db.cpp:52-76 | UNIQUE text, the foreign key, and never a stored empty branch are preserved |
| HistoryDb.LoggedEffect | src/db.cpp:46-81 | logCommand's whole effect, including the NULL branch for "" |
| HistoryDb.LoggedTwiceOneRow | src/db.cpp:53-55 | logging a text twice leaves a single `commands` row for it, shared by both executions |
| HistoryDb.HistoryFile.constructor | src/db.cpp:6-44 | a new database holds empty tables |
| HistoryDb.HistoryDB.constructor | src/db.hpp:13-27 | the object keeps its database path and the database that path names |
| HistoryDb.HistoryDB.LogCommand | src/db.cpp:46-81 | insert-or-ignore, id lookup and the execution insert leave exactly the logged tables |
| HistoryDb.HistoryDB.Search | src/db.cpp:83-136 | the collected rows are exactly the specified search result |
| HistoryDb.CollectRows | src/db.cpp:127-132 | the `executeStep` loop yields one result per ranked group, in order, with that id's text |
| HistoryDb.LatestUseIsMax | src/db.cpp:116 | `MAX(e.timestamp)` over a command's selected executions: present iff one exists, attained, and an upper bound |
| HistoryDb.GroupsUpTo | src/db.cpp:116 | GROUP BY yields each command id once, in range |
| HistoryDb.GroupsUpToMembers | src/db.cpp:116 | a group appears iff its command has a selected execution, and it carries the latest timestamp |
| HistoryDb.MostRecent | src/db.cpp:116 | picks a group whose latest use is the largest |
| HistoryDb.TopRecentProps | src/db.cpp:116 | ORDER BY … DESC LIMIT k keeps distinct groups in non-increasing order, and every group left out is no more recent than any kept one |
| HistoryDb.Results | src/db.cpp:127-131 | each row carries the group's id and the text stored under it |
| HistoryDb.Search | src/db.cpp:116 | at most five results |
| HistoryDb.SearchRanked | src/db.cpp:93-131 | results are the ranked groups with their texts |
| HistoryDb.RankedProps | src/db.cpp:116 | the ranked groups are distinct, non-increasing, drawn from the groups, and keep the five most recent |
| HistoryDb.SearchSelected | src/db.cpp:93-111 | every result has at least one execution passing all the filters |
| HistoryDb.SearchDistinctIds | src/db.cpp:116 | no command is returned twice |
| HistoryDb.SearchDistinctTexts | src/db.cpp:116 | no text is returned twice, because texts are UNIQUE |
| HistoryDb.SearchOrdered | src/db.cpp:116 | results are in non-increasing order of latest matching use |
| HistoryDb.SearchComplete | src/db.cpp:116 | a command with a matching use that is not returned means five results were returned, each at least as recent |
| HistoryDb.SearchResultsHaveSelectedUse | src/db.cpp:102-111 | each result has an execution in the directory, on the branch, and with exit 0, as the scope and flag ask |
| HistoryDb.SearchTextSelected | src/db.cpp:96-99 | each result's text passes the LIKE query and the three exclusions |
| HistoryDb.TextSelectedMeaning | src/db.cpp:96-99 | the text contains the query; does not start with `bsh` or `./bsh` in any ASCII case; does not start with `#` once trimmed |
| HistoryDb.SearchEmptyBranch | src/db.cpp:102-106 | a branch search for "" finds nothing, because an empty branch is stored as NULL |
| HistoryDb.SearchEmptyStore | src/db.cpp:83-136 | an empty database gives no results |
| Daemon.MessageFields | src/daemon.cpp:18-26 | `getline` pieces: none contains the delimiter; no pieces iff the request is empty |
| Daemon.MessageFieldsJoin | src/daemon.cpp:18-26 | the request is the join of its pieces, or that join plus one trailing delimiter |
| Daemon.FieldsRoundTrip | src/daemon.cpp:18-26 | a joined message splits back into its fields, except that an empty last field is lost |
| Daemon.SplitMsg | src/daemon.cpp:18-26 | the character loop yields exactly MessageFields |
| Daemon.ScopeOf | src/daemon.cpp:103-107 | `dir` is Directory, `branch` is Branch, anything else Global |
| Daemon.ContextOf | src/daemon.cpp:115-121 | under branch scope `unknown` becomes "", otherwise the context is passed through |
| Daemon.NumberField | src/daemon.cpp:134-135 | an empty field is 0; otherwise `stoi`, in int range |
| Daemon.Texts | src/daemon.cpp:124-126 | one text per result, in order |
| Daemon.LinesJoin | src/daemon.cpp:124-126 | the response is the texts each followed by a newline |
| Daemon.LinesRoundTrip | src/daemon.cpp:124-126 | a client splitting the response on newlines recovers the texts, then one empty piece |
| Daemon.AppendLines | src/daemon.cpp:124-126 | the append loop builds exactly that response |
| Daemon.ClosedOnlyWhenEmpty | src/daemon.cpp:88-91 | the connection is closed without a reply iff the request is empty, and nothing is stored |
| Daemon.HandleChangesOnlyOnRecord | src/daemon.cpp:93-147 | only a reply of `OK` comes with a change to the database |
| Daemon.HandleRecord | src/daemon.cpp:130-147 | RECORD with six fields replies OK and logs iff both numbers parse; otherwise ERR and nothing changes |
| Daemon.RecordRejectsNonNumeric | src/daemon.cpp:130-147 | a non-empty exit field without digits gives ERR and no change |
| Daemon.HandleSuggest | src/daemon.cpp:97-127 | SUGGEST never changes the database and replies with exactly the search its fields describe, one text per line in result order |
| Daemon.SuggestUnknownBranch | src/daemon.cpp:106-123 | branch `unknown` searches for the empty branch and finds nothing |
| Daemon.HandleUnknown | src/daemon.cpp:93-149 | any other non-empty request, or one with too few fields, gets an empty reply and no change |
| Daemon.HandleKeepsValid | src/daemon.cpp:84-149 | every request keeps the schema's guarantees |
| Daemon.Serve | src/daemon.cpp:84-150 | the accept-loop body on a live database has exactly the specified reply and effect |
| Daemon.DecodeFields | src/daemon.cpp:18-26 | corrected decoder: no delimiter in any field; no fields iff the request is empty |
| Daemon.DecodeFieldsRoundTrip | src/daemon.cpp:18-26 | corrected decoder: every non-empty join of fields decodes to exactly those fields, including an empty last one |
| Argv.Step | src/client.cpp:24-35 | an option taking a value, not in last position, moves the index by two; anything else by one |
| Argv.ScanThrough | src/client.cpp:24-35 | the loop's state at a visited index determines the rest of the run |
| Argv.ScanPrefix | src/main.cpp:86-102 | the state the loop has on reaching an index is the one it builds from the arguments before that index |
| Argv.ScanLast | src/client.cpp:24-35 | an argument reached in last position is looked at alone, after everything before it |
| Argv.ScanFinalPair | src/client.cpp:24-35 | an option reached just before the last argument takes it as its value |
| Argv.ScanKeeps | src/client.cpp:42-51 | a property every step keeps holds after the loop |
| Argv.ScanKeepsVisited | src/client.cpp:24-35 | a property kept by every step the loop actually takes holds after the loop |
| Argv.ScanFixed | src/client.cpp:42-51 | a state no step changes is the final state |
| Client.SuggestSuccessFlag | src/client.cpp:19-34 | the success field is always `0` or `1` |
| Client.SuggestDefaultsKept | src/client.cpp:19-21 | without options the defaults `global`, "", `0` are sent |
| Client.SuggestSuccessSticks | src/client.cpp:32-34 | a `--success` the loop reaches makes the field `1` for good |
| Client.SuggestLastContextWins | src/client.cpp:29-31 | `--cwd` and `--branch` share one slot: the last of them the loop reaches with a value sets the context, whatever follows |
| Client.SuggestTrailingOptionIgnored | src/client.cpp:26-31 | an option in last position, lacking its value, has no effect |
| Client.RecordLastKeyWins | src/client.cpp:44-50 | a known key the loop reaches with a value sets its field to it unless the same key is reached again later |
| Client.RecordUnknownKeyAlone | src/client.cpp:42-50 | an unknown key consumes no value |
| Client.RecordDefaultsKept | src/client.cpp:40 | without known keys every field is empty |
| Client.BuildMessage | src/client.cpp:10-57 | the two loops and the concatenations build exactly that message |
| Client.SuggestReachesDaemon | src/client.cpp:16-36 | the daemon decodes exactly the five fields and answers with the search for them, changing nothing |
| Client.RecordFieldsArrive | src/client.cpp:38-53 | the daemon decodes the six fields, or only five when the duration is empty |
| Client.RecordReachesDaemon | src/client.cpp:38-53 | with a duration, the daemon handles exactly the six fields sent |
| Client.RecordWithoutDurationIgnored | src/client.cpp:52-53 | as written: a record without a duration is answered with "" and logs nothing |
| Client.RecordWithoutDurationFixed | src/daemon.cpp:135 | corrected: the daemon handles all six fields, and an empty duration is logged as 0 |
| Cli.Get | src/main.cpp:41-45 | `args[key]` on a missing key is "" |
| Cli.PairsMeaning | src/main.cpp:36-39 | a key is in the map iff it sits at an even position from 2 with a value after it; its value comes from the last such position |
| Cli.RecordArgsMeaning | src/main.cpp:36-45 | the same, for the whole of argv |
| Cli.PairsIgnoreOddTail | src/main.cpp:37 | a dangling last argument is never read |
| Cli.CollectPairs | src/main.cpp:36-39 | the loop builds exactly that map |
| Cli.GlobalHasNoContext | src/main.cpp:89-102 | under global scope the context stays "" |
| Cli.NoScopeMeansGlobal | src/main.cpp:81-92 | without `dir` or `branch` anywhere the scope stays global |
| Cli.CwdTakenOnlyUnderDirectory | src/main.cpp:94-97 | a `--cwd` with a value sets the context to it iff the scope chosen before it is `dir`, and is otherwise skipped |
| Cli.BranchTakenOnlyUnderBranch | src/main.cpp:98-101 | a `--branch` with a value sets the context to it iff the scope chosen before it is `branch`, and is otherwise skipped |
| Cli.ScopeSwitchesOnlyToDirOrBranch | src/main.cpp:89-93 | `--scope` switches to `dir` or `branch` only, keeping the context; any other value changes nothing |
| Cli.CwdNeedsScopeFirst | src/main.cpp:94-98 | an illustration of Cli.CwdTakenOnlyUnderDirectory: `--cwd` before `--scope dir` is skipped; after it, it is captured |
| Cli.RecordNeedsCommand | src/main.cpp:47 | a record whose `--cmd` is missing or empty exits with 1 and logs nothing |
| Cli.LastKeyFrom | src/main.cpp:37-38 | a key present at some pair position has a last such position |
| Cli.RecordLogs | src/main.cpp:35-65 | a record with a command logs exactly one execution with the numbers `stoi` reads (empty as 0, current directory for an empty `--cwd`) and exits 0; a number that does not read aborts with nothing logged; only a logged record changes the database |
| Cli.ShortArgvDoesNothing | src/main.cpp:31-79 | too few arguments exit with 0 and change nothing |
| Cli.SuggestPrintsResults | src/main.cpp:76-115 | suggest exits 0 printing each result's text followed by a newline, in search order, and changes nothing |
| Cli.RunCli | src/main.cpp:25-115 | the program's run has exactly the specified status and effect |
| GitUtils.GitBranch | src/git_utils.cpp:13-40 | a branch exactly when the repository opens, HEAD resolves and has a shorthand name |
| GitUtils.FreshWindow | src/git_utils.cpp:57 | whole seconds truncated toward zero are below 2 iff the age is below 2·10⁹ ns |
| GitUtils.RepeatWithinWindow | src/git_utils.cpp:50-72 | within two seconds of asking git, a lookup does not ask again and returns the same answer, "" reading as no branch |
| GitUtils.ExpiredAsksGit | src/git_utils.cpp:57-71 | an entry two or more seconds old is replaced by git's current answer |
| GitUtils.LookupTouchesOneEntry | src/git_utils.cpp:55-68 | a lookup changes only its own directory's entry and removes none |
| GitUtils.AnswerSource | src/git_utils.cpp:50-72 | every answer is git's current one or one stored less than two seconds before |
| GitUtils.BranchCache.constructor | src/git_utils.cpp:47 | the cache starts empty |
| GitUtils.BranchCache.GetBranch | src/git_utils.cpp:50-72 | the lookup returns and stores exactly the specified step, asking git once on a miss and never on a hit |
| ImportZsh.ParseAppend | import_zsh.py:17 | the entries of a file are those of its parts, in file order |
| ImportZsh.AtMostOnePerLine | import_zsh.py:17-31 | no line yields more than one entry |
| ImportZsh.LineClean | import_zsh.py:18-31 | a yielded command is non-empty and stripped |
| ImportZsh.EntriesClean | import_zsh.py:12-31 | every command yielded is non-empty and stripped |
| ImportZsh.MatchAt | import_zsh.py:13-21 | the pattern matches colon, spaces, digits, colon, digits, semicolon, and captures the rest |
| ImportZsh.ExtendedLineMatches | import_zsh.py:13-24 | the pattern recovers start time, duration and command from a line in zsh's extended format |
| ImportZsh.ExtendedLineRoundTrip | import_zsh.py:21-27 | such a line yields exactly its command, start time and duration |
| ImportZsh.BlankExtendedLineDropped | import_zsh.py:25-27 | an extended line with a blank command yields nothing, with no fallback to the plain case |
| ImportZsh.PlainLine | import_zsh.py:28-31 | a non-blank line not starting with `:` is imported whole, stripped, at time 0 |
| ImportZsh.ImportedGrows | import_zsh.py:84-100 | importing keeps earlier rows and the schema's guarantees, and adds one execution per entry |
| ImportZsh.ImportedRows | import_zsh.py:84-100 | the k-th new execution is entry k's: its text, session `import`, no directory or branch, exit 0, its duration and time |
| ImportZsh.ImportedCommands | import_zsh.py:86 | afterwards the commands are the earlier ones plus exactly the imported texts |
| ImportZsh.ImportedDuplicateOneRow | import_zsh.py:86-99 | an illustration of ImportZsh.ImportedDuplicateSharesId: a text imported twice into an empty store has one `commands` row and two executions with the same id |
| ImportZsh.ImportedDuplicateSharesId | import_zsh.py:86-99 | into any valid store, two imported entries with the same text get executions with the same command id |
| ImportZsh.InsertEntry | import_zsh.py:86-99 | one pass of the insert loop records the entry |
| ImportZsh.ImportLine | import_zsh.py:79-99 | one line through the generator and the insert loop adds exactly the entry it yields, if any, and counts it |
| ImportZsh.ImportHistory | import_zsh.py:33-109 | on a fresh database the loop writes exactly the parsed entries and counts them |

## Left out

- Sockets are left out: connect, accept, send, close, the 8192-byte read and its
  NUL-terminated copy. A request is a string and a reply is a value. A message that fills
  the whole buffer has no terminator in the source, and that case is not modelled.
- Also left out: `daemonize`, `get_db_path`, the search TUI (`bsh search` is an
  `Interactive` status), and the benchmark scripts.
- SQLite failures are left out. `logCommand` and `search` never throw in the model, so
  their `catch` branches and the importer's rollback are absent.
- Also left out: the pragmas, the indexes, WAL files, transactions, and deleting the old
  database file, which the importer's fresh start stands for.
- SQLite `INTEGER` overflow and the C++ `int`/`long long` parameter widths are left out.
  Values are unbounded except where `stoi` checks them.
- Ids: SQLite promises only increasing `AUTOINCREMENT` ids. An insert attempt that
  fails, such as an `INSERT OR IGNORE` of a text already stored, may leave a gap. The
  model numbers commands by position, so its `SearchResult.id` values may differ from
  the program's; the texts, and which text goes with which id, do not.
- HistoryDb.HistoryDB: the source object opens the file its path names on every call;
  the model gives it that database as `file`, and two objects opened on the same path
  share history only when they are given the same `file`.
- SqlLike.Like: SQLite's `_` matches one UTF-8 character, the model's one string element.
  They differ only when a multi-byte character sits under a `_`: `aéb` LIKE `a_b` holds
  in SQLite, and in the model only when `é` is one element.
- HistoryDb.Search: ties on the latest timestamp are not ordered by the SQL query. The
  function keeps the lower id first. The lemmas promise only the non-increasing order the
  query guarantees.
- libgit2 itself is left out: opening the repository and resolving HEAD become the
  `RepoProbe` input. The clock is the `now` parameter.
- The cache mutex and concurrency are left out. Each lookup is one atomic step; in the
  source another thread may update the entry between the two locked sections.
- Daemon.Handle: the git branch of a RECORD is the parameter `branchOf`, which stands for
  the uncached `get_git_branch` the daemon calls.
- ImportZsh.ParseLine: Python's `\d` also matches non-ASCII decimal digits, and the model
  accepts only `0`-`9`.
- ImportZsh.ImportHistory: the model takes the file as its lines. Opening the file,
  decoding with `errors='replace'`, splitting it into lines and the progress `print`s are
  left out.
- The `LIKE` escape of `%` and `_` in the user's query is not modelled (the source does
  none either). TextSelectedMeaning states containment only for wildcard-free queries.

## Findings

| source | as written | input that shows it | evidently intended | confidence | as-written member | corrected member |
|---|---|---|---|---|---|---|
| src/client.cpp:52-53 with src/daemon.cpp:18-26 | a record without `--duration` ends in the delimiter; `split_msg` drops the empty last field, so the daemon sees 5 fields and ignores the RECORD | `bsh-client record --cmd ls --exit 0` | the daemon treats an empty duration as 0 (src/daemon.cpp:135), so the record should be logged with duration 0 | not executed | Client.RecordWithoutDurationIgnored | Client.RecordWithoutDurationFixed |
