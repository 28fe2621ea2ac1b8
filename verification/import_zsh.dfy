/**
 * The one-off importer (import_zsh.py): parses the lines of a zsh history
 * file, plain or in zsh's extended format `: <start>:<elapsed>;<command>`,
 * and writes each command into a fresh database as an execution of the
 * session "import".
 */
module ImportZsh {
  import opened Wrappers
  import opened Text
  import opened HistoryDb

  /** One command the parser yields, with its start time and duration (0 and 0 for a plain line). */
  datatype HistEntry = HistEntry(cmd: string, timestamp: nat, duration: nat)

  /** The groups of a successful match of the extended-format pattern. */
  datatype ExtendedMatch = ExtendedMatch(timestamp: nat, duration: nat, rest: string)

  // ---------------------------------------------------------------------------
  // parse_zsh_history

  /** First index at or after `i` holding a newline: where the regex `.*` stops. */
  function LineEnd(s: string, i: nat): (j: nat)
    requires i <= |s|
    ensures i <= j <= |s|
    ensures forall k :: i <= k < j ==> s[k] != '\n'
    ensures j < |s| ==> s[j] == '\n'
    decreases |s| - i
  {
    if i < |s| && s[i] != '\n' then LineEnd(s, i + 1) else i
  }

  /**
   * `re.match(r':\s*(\d+):(\d+);(.*)', line)`: anchored at the start of the
   * line, not at its end. No backtracking is needed: a digit is never white
   * space, and neither `:` nor `;` is a digit.
   */
  function MatchExtended(line: string): Option<ExtendedMatch> {
    if line == [] || line[0] != ':' then None
    else
      var i := SkipSpace(line, 1, IsPySpace);
      var j := DigitRunEnd(line, i);
      if j == i || j == |line| || line[j] != ':' then None
      else
        var k := DigitRunEnd(line, j + 1);
        if k == j + 1 || k == |line| || line[k] != ';' then None
        else Some(Groups(line, i, j, k))
  }

  /** The three groups once the pattern has matched with its digit runs at `i..j` and `j + 1..k`. */
  function Groups(line: string, i: nat, j: nat, k: nat): ExtendedMatch
    requires i <= j < k < |line| && AllDigits(line[i..j]) && AllDigits(line[j + 1..k])
  {
    ExtendedMatch(DigitsValue(line[i..j]), DigitsValue(line[j + 1..k]), line[k + 1..LineEnd(line, k + 1)])
  }

  /**
   * The loop body for one line of the file: a blank line yields nothing; a
   * line in the extended format yields its stripped command, or nothing
   * when that is blank; any other line yields itself, stripped, at time 0.
   */
  function ParseLine(raw: string): Option<HistEntry> {
    var line := PyStrip(raw);
    if line == "" then None
    else
      match MatchExtended(line)
      case Some(m) =>
        var cmd := PyStrip(m.rest);
        if cmd == "" then None else Some(HistEntry(cmd, m.timestamp, m.duration))
      case None =>
        var cmd := PyStrip(line);
        if cmd == "" then None else Some(HistEntry(cmd, 0, 0))
  }

  function Yielded(o: Option<HistEntry>): (es: seq<HistEntry>)
    ensures |es| <= 1
  {
    if o.Some? then [o.value] else []
  }

  /** Everything the generator yields for the lines of the file, in file order. */
  function ParseZshHistory(lines: seq<string>): (es: seq<HistEntry>)
    decreases |lines|
  {
    if lines == [] then []
    else ParseZshHistory(lines[..|lines| - 1]) + Yielded(ParseLine(lines[|lines| - 1]))
  }

  /** The importer reads a file line by line: the entries of a file are those of its parts, in order. */
  lemma {:induction false} ParseAppend(a: seq<string>, b: seq<string>)
    ensures ParseZshHistory(a + b) == ParseZshHistory(a) + ParseZshHistory(b)
    decreases |b|
  {
    if b == [] {
      assert a + b == a;
    } else {
      var front := b[..|b| - 1];
      assert (a + b)[..|a + b| - 1] == a + front;
      ParseAppend(a, front);
    }
  }

  /** No line yields more than one entry. */
  lemma {:induction false} AtMostOnePerLine(lines: seq<string>)
    ensures |ParseZshHistory(lines)| <= |lines|
    decreases |lines|
  {
    if lines != [] {
      AtMostOnePerLine(lines[..|lines| - 1]);
    }
  }

  /** A command is never empty and never starts or ends with white space. */
  predicate Clean(cmd: string) {
    cmd != [] && !IsPySpace(cmd[0]) && !IsPySpace(cmd[|cmd| - 1])
  }

  lemma LineClean(raw: string)
    ensures ParseLine(raw).Some? ==> Clean(ParseLine(raw).value.cmd)
  {
    var line := PyStrip(raw);
    if line != "" {
      match MatchExtended(line)
      case Some(m) => StripEnds(m.rest, IsPySpace);
      case None => StripEnds(line, IsPySpace);
    }
  }

  /** Every entry of the file carries a clean command. */
  lemma {:induction false} EntriesClean(lines: seq<string>)
    ensures forall e :: e in ParseZshHistory(lines) ==> Clean(e.cmd)
    decreases |lines|
  {
    if lines != [] {
      EntriesClean(lines[..|lines| - 1]);
      LineClean(lines[|lines| - 1]);
    }
  }

  /** A run of digits followed by a non-digit (or the end) is exactly what DigitRunEnd finds. */
  lemma DigitRunEndAt(s: string, i: nat, j: nat)
    requires i <= j <= |s| && AllDigits(s[i..j]) && (j < |s| ==> !IsDigit(s[j]))
    ensures DigitRunEnd(s, i) == j
  {
    var r := DigitRunEnd(s, i);
    forall q | i <= q < j ensures IsDigit(s[q]) {
      assert s[i..j][q - i] == s[q];
    }
    forall q | i <= q < r ensures IsDigit(s[q]) {
      assert s[i..r][q - i] == s[q];
    }
  }

  /** A run of white space followed by a non-space (or the end) is exactly what SkipSpace skips. */
  lemma SkipSpaceAt(s: string, i: nat, j: nat, isSpace: char -> bool)
    requires i <= j <= |s| && (forall q :: i <= q < j ==> isSpace(s[q])) && (j < |s| ==> !isSpace(s[j]))
    ensures SkipSpace(s, i, isSpace) == j
  {
  }

  /** The pattern matches a line laid out as colon, spaces, digits, colon, digits, semicolon, rest. */
  lemma MatchAt(line: string, i: nat, j: nat, k: nat)
    requires 1 <= i < j && j + 1 < k < |line|
    requires line[0] == ':' && (forall q :: 1 <= q < i ==> IsPySpace(line[q])) && IsDigit(line[i])
    requires AllDigits(line[i..j]) && line[j] == ':' && AllDigits(line[j + 1..k]) && line[k] == ';'
    ensures MatchExtended(line) == Some(Groups(line, i, j, k))
  {
    DigitNotSpace(line[i]);
    SkipSpaceAt(line, 1, i, IsPySpace);
    DigitRunEndAt(line, i, j);
    DigitRunEndAt(line, j + 1, k);
  }

  lemma DigitNotSpace(c: char)
    requires IsDigit(c)
    ensures !IsPySpace(c)
  {
  }

  /** A line that is already stripped and matches yields its stripped command, if any. */
  lemma ParseMatched(line: string, m: ExtendedMatch)
    requires line != "" && PyStrip(line) == line && MatchExtended(line) == Some(m)
    ensures ParseLine(line) == if PyStrip(m.rest) == "" then None else Some(HistEntry(PyStrip(m.rest), m.timestamp, m.duration))
  {
  }

  /** The line zsh's extended history format writes for a command. */
  function ExtendedLine(ts: nat, dur: nat, cmd: string): string {
    ": " + Decimal(ts) + ":" + Decimal(dur) + ";" + cmd
  }

  /** Where the parts of an extended line sit. */
  lemma ExtendedLayout(d1: string, d2: string, cmd: string)
    ensures var line := ": " + d1 + ":" + d2 + ";" + cmd;
            var j, k := 2 + |d1|, 3 + |d1| + |d2|;
            && |line| == k + 1 + |cmd|
            && line[0] == ':' && line[1] == ' ' && line[j] == ':' && line[k] == ';'
            && line[2..j] == d1 && line[j + 1..k] == d2 && line[k + 1..] == cmd
  {
    var line := ": " + d1 + ":" + d2 + ";" + cmd;
    var j, k := 2 + |d1|, 3 + |d1| + |d2|;
    assert line[2..j] == d1 by {
      forall q | 0 <= q < |d1| ensures line[2 + q] == d1[q] {}
    }
    assert line[j + 1..k] == d2 by {
      forall q | 0 <= q < |d2| ensures line[j + 1 + q] == d2[q] {}
    }
    assert line[k + 1..] == cmd by {
      forall q | 0 <= q < |cmd| ensures line[k + 1 + q] == cmd[q] {}
    }
  }

  /** A line laid out as `: d1:d2;cmd`, with digit runs d1 and d2 and no newline in cmd, matches with those groups. */
  lemma LaidOutMatches(line: string, d1: string, d2: string, cmd: string)
    requires d1 != [] && d2 != [] && AllDigits(d1) && AllDigits(d2) && '\n' !in cmd
    requires |line| == 4 + |d1| + |d2| + |cmd|
    requires line[0] == ':' && line[1] == ' ' && line[2 + |d1|] == ':' && line[3 + |d1| + |d2|] == ';'
    requires line[2..2 + |d1|] == d1 && line[3 + |d1|..3 + |d1| + |d2|] == d2 && line[4 + |d1| + |d2|..] == cmd
    ensures MatchExtended(line) == Some(ExtendedMatch(DigitsValue(d1), DigitsValue(d2), cmd))
  {
    var j, k := 2 + |d1|, 3 + |d1| + |d2|;
    assert line[2] == line[2..j][0];
    MatchAt(line, 2, j, k);
    RestGroup(line, k, cmd);
  }

  /** After the semicolon, `.*` takes a newline-free rest whole. */
  lemma RestGroup(line: string, k: nat, cmd: string)
    requires k < |line| && line[k + 1..] == cmd && '\n' !in cmd
    ensures line[k + 1..LineEnd(line, k + 1)] == cmd
  {
    forall q | k + 1 <= q < |line| ensures line[q] != '\n' {
      assert line[q] == cmd[q - (k + 1)];
    }
    LineEndAll(line, k + 1);
  }

  /** The pattern recovers the start time, the duration and the command of an extended line. */
  lemma ExtendedLineMatches(ts: nat, dur: nat, cmd: string)
    requires '\n' !in cmd
    ensures MatchExtended(ExtendedLine(ts, dur, cmd)) == Some(ExtendedMatch(ts, dur, cmd))
  {
    var d1, d2 := Decimal(ts), Decimal(dur);
    ExtendedLayout(d1, d2, cmd);
    LaidOutMatches(ExtendedLine(ts, dur, cmd), d1, d2, cmd);
    DecimalRoundTrip(ts);
    DecimalRoundTrip(dur);
  }

  /**
   * The line zsh writes for a command in extended format reads back as
   * that command with its start time and duration.
   */
  lemma ExtendedLineRoundTrip(ts: nat, dur: nat, cmd: string)
    requires Clean(cmd) && '\n' !in cmd
    ensures ParseLine(ExtendedLine(ts, dur, cmd)) == Some(HistEntry(cmd, ts, dur))
  {
    var line := ExtendedLine(ts, dur, cmd);
    ExtendedLayout(Decimal(ts), Decimal(dur), cmd);
    ExtendedLineMatches(ts, dur, cmd);
    assert line[|line| - 1] == cmd[|cmd| - 1];
    StripNoop(line, IsPySpace);
    StripNoop(cmd, IsPySpace);
    ParseMatched(line, ExtendedMatch(ts, dur, cmd));
  }

  /** Without a newline after `i`, the pattern's `.*` takes the rest of the line. */
  lemma LineEndAll(s: string, i: nat)
    requires i <= |s| && forall q :: i <= q < |s| ==> s[q] != '\n'
    ensures LineEnd(s, i) == |s|
  {
  }

  /** An extended-format line whose command is blank yields nothing: it does not fall back to a plain line. */
  lemma BlankExtendedLineDropped(ts: nat, dur: nat)
    ensures ParseLine(ExtendedLine(ts, dur, "")) == None
  {
    var line := ExtendedLine(ts, dur, "");
    ExtendedLayout(Decimal(ts), Decimal(dur), "");
    ExtendedLineMatches(ts, dur, "");
    assert line[|line| - 1] == ';';
    StripNoop(line, IsPySpace);
    ParseMatched(line, ExtendedMatch(ts, dur, ""));
  }

  /** A non-blank line that does not start with a colon is imported whole, stripped, at time 0. */
  lemma PlainLine(raw: string)
    requires PyStrip(raw) != "" && PyStrip(raw)[0] != ':'
    ensures ParseLine(raw) == Some(HistEntry(PyStrip(raw), 0, 0))
  {
    StripIdempotent(raw, IsPySpace);
  }

  // ---------------------------------------------------------------------------
  // import_history

  /** The session every imported execution belongs to. */
  const ImportSession: string := "import"

  /**
   * The tables after the insert loop has written `entries` into `t`, one
   * execution each with no directory, no branch and exit code 0.
   */
  function Imported(t: Tables, entries: seq<HistEntry>): Tables
    decreases |entries|
  {
    if entries == [] then t
    else
      var e := entries[|entries| - 1];
      Recorded(Imported(t, entries[..|entries| - 1]), e.cmd, ImportSession, None, None, 0, e.duration, e.timestamp)
  }

  /** The execution row the importer writes for an entry whose text has id `id`. */
  function ImportRow(id: nat, e: HistEntry): Execution {
    Execution(id, ImportSession, None, None, 0, e.duration, e.timestamp)
  }

  /** Importing keeps every earlier row and the schema's guarantees, and adds one execution per entry. */
  lemma {:induction false} ImportedGrows(t: Tables, entries: seq<HistEntry>)
    requires Valid(t)
    ensures var r := Imported(t, entries);
            && Valid(r)
            && t.commands <= r.commands
            && t.executions <= r.executions
            && |r.executions| == |t.executions| + |entries|
    decreases |entries|
  {
    if entries != [] {
      var front := entries[..|entries| - 1];
      var e := entries[|entries| - 1];
      ImportedGrows(t, front);
      var p := Imported(t, front);
      RecordedEffect(p, e.cmd, ImportSession, None, None, 0, e.duration, e.timestamp);
      RecordedValid(p, e.cmd, ImportSession, None, None, 0, e.duration, e.timestamp);
    }
  }

  /**
   * Execution `n` of `r` is the row the importer writes for `e`: it carries
   * the entry's duration and start time, the session "import", no
   * directory, no branch and exit code 0, and points at the entry's text.
   */
  predicate ImportedAt(r: Tables, n: nat, e: HistEntry) {
    && n < |r.executions|
    && var x := r.executions[n];
       && 1 <= x.commandId <= |r.commands| && r.commands[x.commandId - 1] == e.cmd
       && x == ImportRow(x.commandId, e)
  }

  /** One imported entry: earlier rows stay, and the new execution is the entry's row. */
  lemma RecordedImportRow(p: Tables, e: HistEntry)
    ensures var r := Recorded(p, e.cmd, ImportSession, None, None, 0, e.duration, e.timestamp);
            && p.commands <= r.commands
            && |r.executions| == |p.executions| + 1 && p.executions <= r.executions
            && ImportedAt(r, |p.executions|, e)
  {
  }

  /** A row stays the row of its entry when rows are appended after it. */
  lemma ImportedAtKept(p: Tables, r: Tables, n: nat, e: HistEntry)
    requires ImportedAt(p, n, e) && p.commands <= r.commands && p.executions <= r.executions
    ensures ImportedAt(r, n, e)
  {
    var x := p.executions[n];
    assert r.executions[n] == x;
    assert r.commands[x.commandId - 1] == p.commands[x.commandId - 1];
  }

  /** The import appends, in order, the row of each entry after the existing ones. */
  lemma {:induction false} ImportedRows(t: Tables, entries: seq<HistEntry>)
    ensures t.commands <= Imported(t, entries).commands
    ensures t.executions <= Imported(t, entries).executions
    ensures |Imported(t, entries).executions| == |t.executions| + |entries|
    ensures forall k :: 0 <= k < |entries| ==> ImportedAt(Imported(t, entries), |t.executions| + k, entries[k])
    decreases |entries|
  {
    if entries != [] {
      var front := entries[..|entries| - 1];
      var e := entries[|entries| - 1];
      ImportedRows(t, front);
      var p := Imported(t, front);
      var r := Imported(t, entries);
      RecordedImportRow(p, e);
      assert entries[|front|] == e;
      forall k | 0 <= k < |front|
        ensures ImportedAt(r, |t.executions| + k, entries[k])
      {
        assert entries[k] == front[k];
        ImportedAtKept(p, r, |t.executions| + k, entries[k]);
      }
    }
  }

  /** After the import, the `commands` table holds the earlier texts and exactly the imported ones besides. */
  lemma {:induction false} ImportedCommands(t: Tables, entries: seq<HistEntry>)
    ensures forall c :: c in Imported(t, entries).commands <==>
                          c in t.commands || exists k :: 0 <= k < |entries| && entries[k].cmd == c
    decreases |entries|
  {
    if entries != [] {
      var front := entries[..|entries| - 1];
      ImportedCommands(t, front);
      forall c | c in Imported(t, entries).commands
        ensures c in t.commands || exists k :: 0 <= k < |entries| && entries[k].cmd == c
      {
        if c in Imported(t, front).commands {
          if !(c in t.commands) {
            var k :| 0 <= k < |front| && front[k].cmd == c;
            assert entries[k] == front[k];
          }
        }
      }
      forall c | c in t.commands || exists k :: 0 <= k < |entries| && entries[k].cmd == c
        ensures c in Imported(t, entries).commands
      {
        if c !in t.commands {
          var k :| 0 <= k < |entries| && entries[k].cmd == c;
          if k < |front| {
            assert front[k] == entries[k];
          }
        }
      }
    }
  }

  /**
   * Two entries with the same text, imported into any valid store, get rows
   * pointing at the same `commands` row: the text is stored once.
   */
  lemma ImportedDuplicateSharesId(t: Tables, entries: seq<HistEntry>, i: nat, j: nat)
    requires Valid(t)
    requires i < j < |entries| && entries[i].cmd == entries[j].cmd
    ensures var r := Imported(t, entries);
            && |t.executions| + j < |r.executions|
            && r.executions[|t.executions| + i].commandId == r.executions[|t.executions| + j].commandId
  {
    ImportedGrows(t, entries);
    ImportedRows(t, entries);
    var r := Imported(t, entries);
    assert ImportedAt(r, |t.executions| + i, entries[i]);
    assert ImportedAt(r, |t.executions| + j, entries[j]);
  }

  /** On an empty store, an instance of ImportedDuplicateSharesId: a text imported twice gives two executions but one `commands` row. */
  lemma ImportedDuplicateOneRow(e1: HistEntry, e2: HistEntry)
    requires e1.cmd == e2.cmd
    ensures var r := Imported(EmptyTables(), [e1, e2]);
            && r.commands == [e1.cmd]
            && r.executions == [ImportRow(1, e1), ImportRow(1, e2)]
  {
    var t1 := Imported(EmptyTables(), [e1]);
    assert [e1, e2][..1] == [e1];
    assert [e1][..0] == [];
    assert Imported(EmptyTables(), []) == EmptyTables();
    assert t1 == Recorded(EmptyTables(), e1.cmd, ImportSession, None, None, 0, e1.duration, e1.timestamp);
    assert t1.commands == [e1.cmd];
    assert CommandId(t1, e1.cmd) == 1;
    assert t1.executions == [ImportRow(1, e1)];
  }

  /** One more line of the file adds what that line yields. */
  lemma ParseStep(lines: seq<string>, i: nat)
    requires i < |lines|
    ensures ParseZshHistory(lines[..i + 1]) == ParseZshHistory(lines[..i]) + Yielded(ParseLine(lines[i]))
  {
    assert lines[..i + 1][..i] == lines[..i];
  }

  /** One more entry adds what recording it adds. */
  lemma ImportedSnoc(entries: seq<HistEntry>, e: HistEntry)
    ensures Imported(EmptyTables(), entries + [e])
            == Recorded(Imported(EmptyTables(), entries), e.cmd, ImportSession, None, None, 0, e.duration, e.timestamp)
  {
    assert (entries + [e])[..|entries|] == entries;
  }

  /** One pass of the insert loop: insert-or-ignore the text, look its id up, append the execution. */
  method InsertEntry(file: HistoryFile, e: HistEntry)
    modifies file
    ensures file.tables == Recorded(old(file.tables), e.cmd, ImportSession, None, None, 0, e.duration, e.timestamp)
  {
    // 1. INSERT OR IGNORE
    if e.cmd !in file.tables.commands {
      file.tables := file.tables.(commands := file.tables.commands + [e.cmd]);
    }
    // 2. SELECT id
    var cmdId := LookupId(file.tables.commands, e.cmd);
    // 3. INSERT INTO executions
    file.tables := file.tables.(executions := file.tables.executions + [ImportRow(cmdId, e)]);
  }

  /** One line through the generator and, when it yields an entry, through the insert loop. */
  method ImportLine(file: HistoryFile, ghost entries: seq<HistEntry>, line: string) returns (added: nat)
    requires file.tables == Imported(EmptyTables(), entries)
    modifies file
    ensures file.tables == Imported(EmptyTables(), entries + Yielded(ParseLine(line)))
    ensures added == |Yielded(ParseLine(line))|
  {
    var parsed := ParseLine(line);
    if parsed.Some? {
      var e := parsed.value;
      ImportedSnoc(entries, e);
      InsertEntry(file, e);
      added := 1;
    } else {
      assert entries + Yielded(parsed) == entries;
      added := 0;
    }
  }

  /**
   * import_history on a database created afresh: the generator's loop over
   * the lines and the insert loop run together, one line at a time. The
   * `SELECT id` after `INSERT OR IGNORE` always finds the row, so every
   * entry is written and counted.
   */
  method ImportHistory(file: HistoryFile, lines: seq<string>) returns (count: nat)
    modifies file
    ensures file.tables == Imported(EmptyTables(), ParseZshHistory(lines))
    ensures count == |ParseZshHistory(lines)|
  {
    file.tables := EmptyTables();
    count := 0;
    ghost var entries: seq<HistEntry> := [];
    var i := 0;
    while i < |lines|
      invariant i <= |lines|
      invariant entries == ParseZshHistory(lines[..i])
      invariant file.tables == Imported(EmptyTables(), entries)
      invariant count == |entries|
    {
      ParseStep(lines, i);
      var added := ImportLine(file, entries, lines[i]);
      entries := entries + Yielded(ParseLine(lines[i]));
      count := count + added;
      i := i + 1;
    }
    assert lines[..i] == lines;
  }
}
