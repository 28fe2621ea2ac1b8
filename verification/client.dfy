/**
 * The thin client (client.cpp): reads its argv into one request for the
 * daemon. `suggest` sends SUGGEST with the query, scope, context and
 * success flag; `record` sends RECORD with the command, session, cwd, exit
 * code and duration. The socket exchange and the printing of the reply are
 * not modelled.
 */
module Client {
  import opened Wrappers
  import opened Text
  import opened Ipc
  import opened Argv
  import opened HistoryDb
  import opened Daemon

  // ---------------------------------------------------------------------------
  // suggest

  /** The three strings the suggest loop fills in. */
  datatype SuggestOptions = SuggestOptions(scope: string, context: string, success: string)

  /** Scope "global", no context, success "0". */
  const SuggestDefaults: SuggestOptions := SuggestOptions("global", "", "0")

  /** The options of the suggest loop that take a value. */
  predicate SuggestTakesValue(arg: string) {
    arg == "--scope" || arg == "--cwd" || arg == "--branch"
  }

  /** One pass of the suggest loop body: --cwd and --branch fill the same slot. */
  function SuggestApply(o: SuggestOptions, arg: string, value: Option<string>): SuggestOptions {
    if arg == "--scope" && value.Some? then o.(scope := value.value)
    else if (arg == "--cwd" || arg == "--branch") && value.Some? then o.(context := value.value)
    else if arg == "--success" then o.(success := "1")
    else o
  }

  /** The options after the loop over argv[3..]. */
  function SuggestScan(argv: seq<string>): SuggestOptions {
    Scan(argv, 3, SuggestTakesValue, SuggestApply, SuggestDefaults)
  }

  /** `SUGGEST⟨D⟩query⟨D⟩scope⟨D⟩context⟨D⟩success` */
  function SuggestMessage(query: string, o: SuggestOptions): string {
    Join(["SUGGEST", query, o.scope, o.context, o.success], Delimiter)
  }

  /** The success field is always "0" or "1". */
  lemma SuggestSuccessFlag(argv: seq<string>)
    ensures SuggestScan(argv).success == "0" || SuggestScan(argv).success == "1"
  {
    ScanKeeps(argv, 3, SuggestTakesValue, SuggestApply, SuggestDefaults,
              (o: SuggestOptions) => o.success == "0" || o.success == "1");
  }

  /** With none of the four options after the query, the defaults are sent. */
  lemma SuggestDefaultsKept(argv: seq<string>)
    requires forall k :: 3 <= k < |argv| ==> !SuggestTakesValue(argv[k]) && argv[k] != "--success"
    ensures SuggestScan(argv) == SuggestDefaults
  {
    ScanFixed(argv, 3, SuggestTakesValue, SuggestApply, SuggestDefaults);
  }

  /** `--success` sets the flag to "1" wherever the loop meets it. */
  lemma SuggestSuccessSticks(argv: seq<string>, j: nat)
    requires 3 <= j < |argv| && argv[j] == "--success" && Visits(argv, SuggestTakesValue, 3, j)
    ensures SuggestScan(argv).success == "1"
  {
    var mid := ScanThrough(argv, 3, j, SuggestTakesValue, SuggestApply, SuggestDefaults);
    var next := SuggestApply(mid, argv[j], None);
    assert Scan(argv, j, SuggestTakesValue, SuggestApply, mid) == Scan(argv, j + 1, SuggestTakesValue, SuggestApply, next);
    ScanKeeps(argv, j + 1, SuggestTakesValue, SuggestApply, next, (o: SuggestOptions) => o.success == "1");
  }

  /**
   * --cwd and --branch fill the same slot, so the last of them the loop
   * meets with a value after it sets the context, whatever follows.
   */
  lemma SuggestLastContextWins(argv: seq<string>, j: nat)
    requires 3 <= j && j + 1 < |argv| && Visits(argv, SuggestTakesValue, 3, j)
    requires argv[j] == "--cwd" || argv[j] == "--branch"
    requires forall k: nat :: k + 1 < |argv| && Visits(argv, SuggestTakesValue, j + 2, k)
                              ==> argv[k] != "--cwd" && argv[k] != "--branch"
    ensures SuggestScan(argv).context == argv[j + 1]
  {
    var mid := ScanThrough(argv, 3, j, SuggestTakesValue, SuggestApply, SuggestDefaults);
    var next := SuggestApply(mid, argv[j], Some(argv[j + 1]));
    assert Scan(argv, j, SuggestTakesValue, SuggestApply, mid)
        == Scan(argv, j + 2, SuggestTakesValue, SuggestApply, next);
    ScanKeepsVisited(argv, j + 2, SuggestTakesValue, SuggestApply, next,
                     (o: SuggestOptions) => o.context == argv[j + 1]);
  }

  /** An option that wants a value but comes last is ignored and consumes nothing. */
  lemma SuggestTrailingOptionIgnored(argv: seq<string>)
    requires |argv| >= 4 && Visits(argv, SuggestTakesValue, 3, |argv| - 1)
    requires SuggestTakesValue(argv[|argv| - 1])
    ensures SuggestScan(argv) == SuggestScan(argv[..|argv| - 1])
  {
    ScanLast(argv, 3, SuggestTakesValue, SuggestApply, SuggestDefaults);
  }

  // ---------------------------------------------------------------------------
  // record

  /** The five strings the record loop fills in; all start empty. */
  datatype RecordOptions = RecordOptions(cmd: string, session: string, cwd: string, exitCode: string, duration: string)

  const RecordDefaults: RecordOptions := RecordOptions("", "", "", "", "")

  /** The keys of the record loop; each takes a value. */
  predicate RecordTakesValue(key: string) {
    key == "--cmd" || key == "--session" || key == "--cwd" || key == "--exit" || key == "--duration"
  }

  /** One pass of the record loop body. */
  function RecordApply(o: RecordOptions, key: string, value: Option<string>): RecordOptions {
    match value
    case None => o
    case Some(v) =>
      if key == "--cmd" then o.(cmd := v)
      else if key == "--session" then o.(session := v)
      else if key == "--cwd" then o.(cwd := v)
      else if key == "--exit" then o.(exitCode := v)
      else if key == "--duration" then o.(duration := v)
      else o
  }

  /** The options after the loop over argv[2..]. */
  function RecordScan(argv: seq<string>): RecordOptions {
    Scan(argv, 2, RecordTakesValue, RecordApply, RecordDefaults)
  }

  /** `RECORD⟨D⟩cmd⟨D⟩session⟨D⟩cwd⟨D⟩exit⟨D⟩duration` */
  function RecordMessage(o: RecordOptions): string {
    Join(["RECORD", o.cmd, o.session, o.cwd, o.exitCode, o.duration], Delimiter)
  }

  /** The slot a record key fills. */
  function RecordField(o: RecordOptions, key: string): string
    requires RecordTakesValue(key)
  {
    if key == "--cmd" then o.cmd
    else if key == "--session" then o.session
    else if key == "--cwd" then o.cwd
    else if key == "--exit" then o.exitCode
    else o.duration
  }

  /**
   * A key the loop meets with a value after it sets its field to that
   * value, unless the loop meets the same key with a value again later.
   */
  lemma RecordLastKeyWins(argv: seq<string>, j: nat)
    requires 2 <= j && j + 1 < |argv| && Visits(argv, RecordTakesValue, 2, j)
    requires RecordTakesValue(argv[j])
    requires forall k: nat :: k + 1 < |argv| && Visits(argv, RecordTakesValue, j + 2, k) ==> argv[k] != argv[j]
    ensures RecordField(RecordScan(argv), argv[j]) == argv[j + 1]
  {
    var mid := ScanThrough(argv, 2, j, RecordTakesValue, RecordApply, RecordDefaults);
    var next := RecordApply(mid, argv[j], Some(argv[j + 1]));
    assert Scan(argv, j, RecordTakesValue, RecordApply, mid)
        == Scan(argv, j + 2, RecordTakesValue, RecordApply, next);
    var key := argv[j];
    ScanKeepsVisited(argv, j + 2, RecordTakesValue, RecordApply, next,
                     (o: RecordOptions) => RecordField(o, key) == argv[j + 1]);
  }

  /** An argument that is not a key does not consume the one after it. */
  lemma RecordUnknownKeyAlone(argv: seq<string>, j: nat)
    requires 2 <= j < |argv| && Visits(argv, RecordTakesValue, 2, j) && !RecordTakesValue(argv[j])
    ensures Visits(argv, RecordTakesValue, 2, j + 1)
  {
    VisitsNext(argv, RecordTakesValue, 2, j);
  }

  /** With no key after the mode, all five fields are empty. */
  lemma RecordDefaultsKept(argv: seq<string>)
    requires forall k :: 2 <= k < |argv| ==> !RecordTakesValue(argv[k])
    ensures RecordScan(argv) == RecordDefaults
  {
    ScanFixed(argv, 2, RecordTakesValue, RecordApply, RecordDefaults);
  }

  // ---------------------------------------------------------------------------
  // The message the client sends

  /**
   * What the client sends: nothing with fewer than two arguments or an
   * unknown mode; `suggest` without a query reads argv[argc], a null
   * pointer, which std::string does not accept.
   */
  datatype Outgoing = NoMessage | Message(msg: string) | NullQuery

  function ClientMessage(argv: seq<string>): Outgoing {
    if |argv| < 2 then NoMessage
    else if argv[1] == "suggest" then
      if |argv| < 3 then NullQuery else Message(SuggestMessage(argv[2], SuggestScan(argv)))
    else if argv[1] == "record" then Message(RecordMessage(RecordScan(argv)))
    else NoMessage
  }

  /** Joining five fields writes them out with a delimiter between each two. */
  lemma Join5(a: string, b: string, c: string, d: string, e: string)
    ensures Join([a, b, c, d, e], Delimiter) == a + [Delimiter] + b + [Delimiter] + c + [Delimiter] + d + [Delimiter] + e
  {
    JoinLast([a], b, Delimiter);
    JoinLast([a, b], c, Delimiter);
    JoinLast([a, b, c], d, Delimiter);
    JoinLast([a, b, c, d], e, Delimiter);
    assert [a] + [b] == [a, b];
    assert [a, b] + [c] == [a, b, c];
    assert [a, b, c] + [d] == [a, b, c, d];
    assert [a, b, c, d] + [e] == [a, b, c, d, e];
  }

  /** Joining six fields writes them out with a delimiter between each two. */
  lemma Join6(a: string, b: string, c: string, d: string, e: string, g: string)
    ensures Join([a, b, c, d, e, g], Delimiter)
            == a + [Delimiter] + b + [Delimiter] + c + [Delimiter] + d + [Delimiter] + e + [Delimiter] + g
  {
    Join5(a, b, c, d, e);
    JoinLast([a, b, c, d, e], g, Delimiter);
    assert [a, b, c, d, e] + [g] == [a, b, c, d, e, g];
  }

  /** client.cpp's main up to the connect: builds the message with `+=`. */
  method BuildMessage(argv: seq<string>) returns (out: Outgoing)
    ensures out == ClientMessage(argv)
  {
    if |argv| < 2 {
      return NoMessage;
    }
    var mode := argv[1];
    var msg := "";
    if mode == "suggest" {
      if |argv| < 3 {
        return NullQuery;
      }
      msg := "SUGGEST";
      msg := msg + [Delimiter] + argv[2];
      var scope, context, success := "global", "", "0";
      var i := 3;
      while i < |argv|
        invariant 3 <= i <= |argv|
        invariant SuggestScan(argv)
                  == Scan(argv, i, SuggestTakesValue, SuggestApply, SuggestOptions(scope, context, success))
      {
        var arg := argv[i];
        if arg == "--scope" && i + 1 < |argv| {
          i := i + 1;
          scope := argv[i];
        } else if (arg == "--cwd" || arg == "--branch") && i + 1 < |argv| {
          i := i + 1;
          context := argv[i];
        } else if arg == "--success" {
          success := "1";
        }
        i := i + 1;
      }
      msg := msg + [Delimiter] + scope + [Delimiter] + context + [Delimiter] + success;
      Join5("SUGGEST", argv[2], scope, context, success);
    } else if mode == "record" {
      msg := "RECORD";
      var cmd, session, cwd, exitCode, duration := "", "", "", "", "";
      var i := 2;
      while i < |argv|
        invariant 2 <= i <= |argv|
        invariant RecordScan(argv)
                  == Scan(argv, i, RecordTakesValue, RecordApply, RecordOptions(cmd, session, cwd, exitCode, duration))
      {
        var k := argv[i];
        if i + 1 < |argv| {
          if k == "--cmd" {
            i := i + 1;
            cmd := argv[i];
          } else if k == "--session" {
            i := i + 1;
            session := argv[i];
          } else if k == "--cwd" {
            i := i + 1;
            cwd := argv[i];
          } else if k == "--exit" {
            i := i + 1;
            exitCode := argv[i];
          } else if k == "--duration" {
            i := i + 1;
            duration := argv[i];
          }
        }
        i := i + 1;
      }
      msg := msg + [Delimiter] + cmd + [Delimiter] + session + [Delimiter] + cwd
             + [Delimiter] + exitCode + [Delimiter] + duration;
      Join6("RECORD", cmd, session, cwd, exitCode, duration);
    } else {
      return NoMessage;
    }
    out := Message(msg);
  }

  // ---------------------------------------------------------------------------
  // What the daemon makes of it

  /** No argument of the client holds the delimiter. */
  predicate PlainArgs(argv: seq<string>) {
    forall k :: 0 <= k < |argv| ==> Delimiter !in argv[k]
  }

  /** The options the loops fill come from argv or the defaults, so they hold no delimiter. */
  lemma SuggestScanPlain(argv: seq<string>)
    requires PlainArgs(argv)
    ensures var o := SuggestScan(argv);
            Delimiter !in o.scope && Delimiter !in o.context && Delimiter !in o.success
  {
    ScanKeeps(argv, 3, SuggestTakesValue, SuggestApply, SuggestDefaults,
              (o: SuggestOptions) => Delimiter !in o.scope && Delimiter !in o.context && Delimiter !in o.success);
  }

  predicate RecordPlain(o: RecordOptions) {
    Delimiter !in o.cmd && Delimiter !in o.session && Delimiter !in o.cwd
    && Delimiter !in o.exitCode && Delimiter !in o.duration
  }

  lemma RecordScanPlain(argv: seq<string>)
    requires PlainArgs(argv)
    ensures RecordPlain(RecordScan(argv))
  {
    ScanKeeps(argv, 2, RecordTakesValue, RecordApply, RecordDefaults, RecordPlain);
  }

  /**
   * A suggest message always reaches the daemon as its five fields (the
   * success flag is never empty), so the daemon runs the search the client
   * asked for.
   */
  lemma SuggestReachesDaemon(argv: seq<string>, t: Tables, now: int, branchOf: string -> Option<string>)
    requires |argv| >= 3 && argv[1] == "suggest" && PlainArgs(argv)
    ensures ClientMessage(argv).Message?
    ensures var o := SuggestScan(argv);
            && MessageFields(ClientMessage(argv).msg) == ["SUGGEST", argv[2], o.scope, o.context, o.success]
            && HandleRequest(ClientMessage(argv).msg, t, now, branchOf)
               == Outcome(Sent(Lines(Search(t, argv[2], ScopeOf(o.scope), ContextOf(o.scope, o.context), o.success == "1"))), t)
  {
    var o := SuggestScan(argv);
    SuggestSuccessFlag(argv);
    SuggestScanPlain(argv);
    var fs := ["SUGGEST", argv[2], o.scope, o.context, o.success];
    assert SeparatorFree(fs, Delimiter) by {
      forall k | 0 <= k < |fs| ensures Delimiter !in fs[k] {
        if k == 0 {
          assert Delimiter !in "SUGGEST";
        }
      }
    }
    FieldsRoundTrip(fs);
  }

  /** The five record fields the client sent, decoded in full. */
  function RecordArgs(o: RecordOptions): seq<string> {
    ["RECORD", o.cmd, o.session, o.cwd, o.exitCode, o.duration]
  }

  /** The record fields are delimiter-free, "RECORD" included. */
  lemma RecordArgsPlain(argv: seq<string>)
    requires PlainArgs(argv)
    ensures SeparatorFree(RecordArgs(RecordScan(argv)), Delimiter)
  {
    var o := RecordScan(argv);
    RecordScanPlain(argv);
    var fs := RecordArgs(o);
    forall k | 0 <= k < |fs| ensures Delimiter !in fs[k] {
      if k == 0 {
        assert Delimiter !in "RECORD";
      }
    }
  }

  /**
   * A record message with a duration reaches the daemon as its six fields;
   * without one, its empty last field is dropped and five arrive.
   */
  lemma RecordFieldsArrive(argv: seq<string>)
    requires |argv| >= 2 && argv[1] == "record" && PlainArgs(argv)
    ensures ClientMessage(argv).Message?
    ensures var o := RecordScan(argv);
            && (o.duration != "" ==> MessageFields(ClientMessage(argv).msg) == RecordArgs(o))
            && (o.duration == "" ==> MessageFields(ClientMessage(argv).msg) == RecordArgs(o)[..5])
  {
    RecordArgsPlain(argv);
    FieldsRoundTrip(RecordArgs(RecordScan(argv)));
  }

  /** A record message with a duration is handled as the six fields the client meant. */
  lemma RecordReachesDaemon(argv: seq<string>, t: Tables, now: int, branchOf: string -> Option<string>)
    requires |argv| >= 2 && argv[1] == "record" && PlainArgs(argv)
    requires RecordScan(argv).duration != ""
    ensures ClientMessage(argv).Message?
    ensures HandleRequest(ClientMessage(argv).msg, t, now, branchOf) == Handle(RecordArgs(RecordScan(argv)), t, now, branchOf)
  {
    RecordFieldsArrive(argv);
  }

  /**
   * As written: a record without --duration (or with an empty one) reaches
   * the daemon as five fields, fewer than RECORD needs, so the daemon
   * replies with nothing and logs nothing.
   */
  lemma RecordWithoutDurationIgnored(argv: seq<string>, t: Tables, now: int, branchOf: string -> Option<string>)
    requires |argv| >= 2 && argv[1] == "record" && PlainArgs(argv)
    requires RecordScan(argv).duration == ""
    ensures ClientMessage(argv).Message?
    ensures HandleRequest(ClientMessage(argv).msg, t, now, branchOf) == Outcome(Sent(""), t)
  {
    RecordFieldsArrive(argv);
  }

  /**
   * With the corrected decoder, every record message is handled as the six
   * fields the client meant; an empty duration reads as 0, so a record
   * without a duration is logged once its exit field reads.
   */
  lemma RecordWithoutDurationFixed(argv: seq<string>, t: Tables, now: int, branchOf: string -> Option<string>)
    requires |argv| >= 2 && argv[1] == "record" && PlainArgs(argv)
    ensures ClientMessage(argv).Message?
    ensures var o := RecordScan(argv);
            && HandleRequestFixed(ClientMessage(argv).msg, t, now, branchOf) == Handle(RecordArgs(o), t, now, branchOf)
            && (o.duration == "" && NumberField(o.exitCode).Some? ==>
                  HandleRequestFixed(ClientMessage(argv).msg, t, now, branchOf)
                  == Outcome(Sent("OK"), Logged(t, o.cmd, o.session, o.cwd, branchOf(o.cwd).GetOr(""),
                                                NumberField(o.exitCode).value, 0, now)))
  {
    var o := RecordScan(argv);
    RecordArgsPlain(argv);
    Join6("RECORD", o.cmd, o.session, o.cwd, o.exitCode, o.duration);
    DecodeFieldsRoundTrip(RecordArgs(o));
  }
}
