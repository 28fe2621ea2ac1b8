/**
 * The daemon's request handling (daemon.cpp): a request is split into
 * fields on the 0x1F delimiter; SUGGEST runs a search and answers with the
 * matching texts, one per line; RECORD logs one execution and answers "OK",
 * or "ERR" when a numeric field does not parse. Sockets, forking and the
 * accept loop itself are not modelled: one iteration of the loop is
 * `HandleRequest` as a function and `Serve` as a method on the store.
 */
module Daemon {
  import opened Wrappers
  import opened Text
  import opened Ipc
  import opened HistoryDb

  // ---------------------------------------------------------------------------
  // split_msg

  /**
   * split_msg: the fields std::getline extracts, which is the plain split
   * with the last field dropped when it is empty. So "" gives no field, and
   * a message ending in the delimiter loses its empty last field.
   */
  function MessageFields(msg: string): (parts: seq<string>)
    ensures forall k :: 0 <= k < |parts| ==> Delimiter !in parts[k]
    ensures parts == [] <==> msg == ""
  {
    var pieces := Split(msg, Delimiter);
    if pieces[|pieces| - 1] == "" then
      assert |pieces| == 1 ==> msg == "" by {
        if |pieces| == 1 {
          JoinSplit(msg, Delimiter);
        }
      }
      pieces[..|pieces| - 1]
    else
      pieces
  }

  /**
   * Nothing but the separators is lost: rejoining the fields gives the
   * message back, up to one trailing delimiter.
   */
  lemma MessageFieldsJoin(msg: string)
    ensures var parts := MessageFields(msg);
            msg == Join(parts, Delimiter) || (parts != [] && msg == Join(parts, Delimiter) + [Delimiter])
  {
    var pieces := Split(msg, Delimiter);
    JoinSplit(msg, Delimiter);
    if pieces[|pieces| - 1] == "" && |pieces| > 1 {
      var parts := pieces[..|pieces| - 1];
      assert parts + [""] == pieces;
      JoinLast(parts, "", Delimiter);
    }
  }

  /**
   * Joining delimiter-free fields and splitting them again gives the fields
   * back when the last one is not empty, and drops it when it is.
   */
  lemma FieldsRoundTrip(fs: seq<string>)
    requires fs != [] && SeparatorFree(fs, Delimiter)
    ensures fs[|fs| - 1] != "" ==> MessageFields(Join(fs, Delimiter)) == fs
    ensures fs[|fs| - 1] == "" ==> MessageFields(Join(fs, Delimiter)) == fs[..|fs| - 1]
  {
    SplitJoin(fs, Delimiter);
  }

  /** The getline loop of split_msg, one character at a time. */
  method SplitMsg(msg: string) returns (parts: seq<string>)
    ensures parts == MessageFields(msg)
  {
    parts := [];
    var item := "";
    var i := 0;
    while i < |msg|
      invariant i <= |msg|
      invariant Split(msg[..i], Delimiter) == parts + [item]
    {
      assert msg[..i + 1][..i] == msg[..i];
      if msg[i] == Delimiter {
        parts := parts + [item];
        item := "";
      } else {
        item := item + [msg[i]];
      }
      i := i + 1;
    }
    assert msg[..i] == msg;
    if item != "" {
      parts := parts + [item];
    } else {
      assert (parts + [item])[..|parts|] == parts;
    }
  }

  // ---------------------------------------------------------------------------
  // Replies

  /** What the daemon does with the connection: close it silently, or send a payload. */
  datatype Reply = Closed | Sent(payload: string)

  /** The reply and the store after one request. */
  datatype Outcome = Outcome(reply: Reply, tables: Tables)

  /** The SUGGEST scope field: "dir" and "branch" narrow the search, anything else is global. */
  function ScopeOf(field: string): (s: Scope)
    ensures s == Directory <==> field == "dir"
    ensures s == Branch <==> field == "branch"
    ensures s == Global <==> field != "dir" && field != "branch"
  {
    if field == "branch" then Branch else if field == "dir" then Directory else Global
  }

  /** The SUGGEST context field: under branch scope "unknown" stands for no branch. */
  function ContextOf(scopeField: string, context: string): (c: string)
    ensures scopeField == "branch" && context == "unknown" ==> c == ""
    ensures !(scopeField == "branch" && context == "unknown") ==> c == context
  {
    if scopeField == "branch" && context == "unknown" then "" else context
  }

  /** The exit and duration fields: empty reads as 0, anything else goes through stoi. */
  function NumberField(field: string): (n: Option<int>)
    ensures field == "" ==> n == Some(0)
    ensures n.Some? ==> IntMin <= n.value <= IntMax
  {
    if field == "" then Some(0) else Stoi(field)
  }

  /** The SUGGEST payload: every text followed by a newline, in result order. */
  function Lines(rs: seq<SearchResult>): string {
    if rs == [] then "" else Lines(rs[..|rs| - 1]) + rs[|rs| - 1].cmd + "\n"
  }

  /** The texts of the results, in order. */
  function Texts(rs: seq<SearchResult>): (ts: seq<string>)
    ensures |ts| == |rs| && forall i :: 0 <= i < |rs| ==> ts[i] == rs[i].cmd
  {
    seq(|rs|, i requires 0 <= i < |rs| => rs[i].cmd)
  }

  /** The payload is the texts joined by newlines, with one more at the end when there is a text. */
  lemma {:induction false} LinesJoin(rs: seq<SearchResult>)
    ensures Lines(rs) == Join(Texts(rs) + [""], '\n')
    decreases |rs|
  {
    if rs != [] {
      var front := rs[..|rs| - 1];
      var c := rs[|rs| - 1].cmd;
      LinesJoin(front);
      assert Texts(rs) == Texts(front) + [c];
      JoinLine(Texts(front), c);
    }
  }

  /** One more text adds itself and a newline to the newline-joined payload. */
  lemma JoinLine(ts: seq<string>, c: string)
    ensures Join(ts + [c] + [""], '\n') == Join(ts + [""], '\n') + c + "\n"
  {
    var j := Join(ts + [c], '\n');
    JoinLast(ts + [c], "", '\n');
    if ts != [] {
      JoinLast(ts, "", '\n');
      JoinLast(ts, c, '\n');
      assert j == Join(ts + [""], '\n') + c;
    } else {
      assert j == c;
      assert Join(ts + [""], '\n') == "";
    }
  }

  /** A client that splits the payload at newlines reads back exactly the texts, then an empty tail. */
  lemma LinesRoundTrip(rs: seq<SearchResult>)
    requires forall i :: 0 <= i < |rs| ==> '\n' !in rs[i].cmd
    ensures Split(Lines(rs), '\n') == Texts(rs) + [""]
  {
    LinesJoin(rs);
    TextsNewlineFree(rs);
    SplitJoin(Texts(rs) + [""], '\n');
  }

  lemma TextsNewlineFree(rs: seq<SearchResult>)
    requires forall i :: 0 <= i < |rs| ==> '\n' !in rs[i].cmd
    ensures SeparatorFree(Texts(rs) + [""], '\n')
  {
    var fs := Texts(rs) + [""];
    forall k | 0 <= k < |fs| ensures '\n' !in fs[k] {
      if k < |rs| {
        assert fs[k] == rs[k].cmd;
      }
    }
  }

  // ---------------------------------------------------------------------------
  // The handler

  /**
   * One request, decoded into `args`: the reply and the new store. `now` is
   * time(nullptr); `branchOf` is the uncached git lookup of a directory.
   */
  function Handle(args: seq<string>, t: Tables, now: int, branchOf: string -> Option<string>): Outcome {
    if args == [] then Outcome(Closed, t)
    else if args[0] == "SUGGEST" && |args| >= 5 then
      var rs := Search(t, args[1], ScopeOf(args[2]), ContextOf(args[2], args[3]), args[4] == "1");
      Outcome(Sent(Lines(rs)), t)
    else if args[0] == "RECORD" && |args| >= 6 then
      match (NumberField(args[4]), NumberField(args[5]))
      case (Some(exitCode), Some(duration)) =>
        var branch := branchOf(args[3]).GetOr("");
        Outcome(Sent("OK"), Logged(t, args[1], args[2], args[3], branch, exitCode, duration, now))
      case _ => Outcome(Sent("ERR"), t)
    else Outcome(Sent(""), t)
  }

  /** The body of the accept loop for one request string. */
  function HandleRequest(request: string, t: Tables, now: int, branchOf: string -> Option<string>): Outcome {
    Handle(MessageFields(request), t, now, branchOf)
  }

  /** Only the empty request closes the connection without a reply. */
  lemma ClosedOnlyWhenEmpty(request: string, t: Tables, now: int, branchOf: string -> Option<string>)
    ensures HandleRequest(request, t, now, branchOf).reply == Closed <==> request == ""
    ensures request == "" ==> HandleRequest(request, t, now, branchOf).tables == t
  {
  }

  /**
   * Only a RECORD request that gets "OK" changes the store, and it logs
   * exactly one execution; every other request leaves the store as it was.
   */
  lemma HandleChangesOnlyOnRecord(args: seq<string>, t: Tables, now: int, branchOf: string -> Option<string>)
    ensures var o := Handle(args, t, now, branchOf);
            o.reply != Sent("OK") ==> o.tables == t
  {
  }

  /**
   * RECORD with six fields or more: "OK" exactly when both numeric fields
   * read (empty counts as 0), and then one execution is logged with the
   * resolved branch (or "" when there is none) and the current time; "ERR"
   * and an unchanged store otherwise.
   */
  lemma HandleRecord(args: seq<string>, t: Tables, now: int, branchOf: string -> Option<string>)
    requires |args| >= 6 && args[0] == "RECORD"
    ensures var o := Handle(args, t, now, branchOf);
            var e, d := NumberField(args[4]), NumberField(args[5]);
            && (o.reply == Sent("OK") <==> e.Some? && d.Some?)
            && (o.reply == Sent("OK") || (o.reply == Sent("ERR") && o.tables == t))
            && (e.Some? && d.Some? ==>
                  o.tables == Logged(t, args[1], args[2], args[3], if branchOf(args[3]).Some? then branchOf(args[3]).value else "",
                                     e.value, d.value, now))
  {
  }

  /** A numeric field with no digit makes RECORD answer "ERR" and log nothing. */
  lemma RecordRejectsNonNumeric(args: seq<string>, t: Tables, now: int, branchOf: string -> Option<string>)
    requires |args| >= 6 && args[0] == "RECORD"
    requires args[4] != "" && forall k :: 0 <= k < |args[4]| ==> !IsDigit(args[4][k])
    ensures Handle(args, t, now, branchOf) == Outcome(Sent("ERR"), t)
  {
    StoiNeedsDigit(args[4]);
  }

  /**
   * SUGGEST with five fields or more answers with the results of the
   * search its fields describe, one text per line in result order, and
   * leaves the store alone; success is asked for exactly by "1".
   */
  lemma HandleSuggest(args: seq<string>, t: Tables, now: int, branchOf: string -> Option<string>)
    requires |args| >= 5 && args[0] == "SUGGEST"
    ensures var o := Handle(args, t, now, branchOf);
            var f := Filter(args[1], ScopeOf(args[2]), ContextOf(args[2], args[3]), args[4] == "1");
            && o.tables == t
            && o.reply == Sent(Lines(SearchWith(t, f)))
            && ((forall i :: 0 <= i < |SearchWith(t, f)| ==> '\n' !in SearchWith(t, f)[i].cmd) ==>
                  Split(o.reply.payload, '\n') == Texts(SearchWith(t, f)) + [""])
  {
    var f := Filter(args[1], ScopeOf(args[2]), ContextOf(args[2], args[3]), args[4] == "1");
    var rs := SearchWith(t, f);
    if forall i :: 0 <= i < |rs| ==> '\n' !in rs[i].cmd {
      LinesRoundTrip(rs);
    }
  }

  /**
   * A branch-scoped SUGGEST for the branch "unknown" searches for the empty
   * branch, which the store never holds, so the reply is empty.
   */
  lemma SuggestUnknownBranch(args: seq<string>, t: Tables, now: int, branchOf: string -> Option<string>)
    requires Valid(t)
    requires |args| >= 5 && args[0] == "SUGGEST" && args[2] == "branch" && args[3] == "unknown"
    ensures Handle(args, t, now, branchOf) == Outcome(Sent(""), t)
  {
    SearchEmptyBranch(t, args[1], args[4] == "1");
  }

  /** An unknown verb, or too few fields for its verb, gets an empty reply and changes nothing. */
  lemma HandleUnknown(args: seq<string>, t: Tables, now: int, branchOf: string -> Option<string>)
    requires args != []
    requires !(args[0] == "SUGGEST" && |args| >= 5) && !(args[0] == "RECORD" && |args| >= 6)
    ensures Handle(args, t, now, branchOf) == Outcome(Sent(""), t)
  {
  }

  /** Every request keeps the store valid. */
  lemma HandleKeepsValid(args: seq<string>, t: Tables, now: int, branchOf: string -> Option<string>)
    requires Valid(t)
    ensures Valid(Handle(args, t, now, branchOf).tables)
  {
    if |args| >= 6 && args[0] == "RECORD" {
      var e, d := NumberField(args[4]), NumberField(args[5]);
      if e.Some? && d.Some? {
        LoggedEffect(t, args[1], args[2], args[3], branchOf(args[3]).GetOr(""), e.value, d.value, now);
      }
    }
  }

  // ---------------------------------------------------------------------------
  // Serving one request on the store

  /** `response += r.cmd + "\n"` over the results. */
  method AppendLines(rs: seq<SearchResult>) returns (response: string)
    ensures response == Lines(rs)
  {
    response := "";
    var i := 0;
    while i < |rs|
      invariant i <= |rs|
      invariant response == Lines(rs[..i])
    {
      assert rs[..i + 1][..i] == rs[..i];
      response := response + rs[i].cmd + "\n";
      i := i + 1;
    }
    assert rs[..i] == rs;
  }

  /** One iteration of the accept loop, on the daemon's HistoryDB. */
  method Serve(history: HistoryDB, request: string, now: int, branchOf: string -> Option<string>)
    returns (reply: Reply)
    modifies history.file
    ensures Outcome(reply, history.file.tables) == HandleRequest(request, old(history.file.tables), now, branchOf)
  {
    var args := SplitMsg(request);
    if args == [] {
      return Closed;
    }
    var response := "";
    var command := args[0];
    if command == "SUGGEST" && |args| >= 5 {
      var rs := history.Search(args[1], ScopeOf(args[2]), ContextOf(args[2], args[3]), args[4] == "1");
      response := AppendLines(rs);
    } else if command == "RECORD" && |args| >= 6 {
      var exitCode := NumberField(args[4]);
      var duration := NumberField(args[5]);
      if exitCode.None? || duration.None? {
        response := "ERR";
      } else {
        var branch := branchOf(args[3]).GetOr("");
        history.LogCommand(args[1], args[2], args[3], branch, exitCode.value, duration.value, now);
        response := "OK";
      }
    }
    reply := Sent(response);
  }

  // ---------------------------------------------------------------------------
  // A decoder that keeps a trailing empty field

  /**
   * The plain split, for every non-empty request: unlike split_msg it keeps
   * an empty last field, so an empty duration still arrives as a field.
   */
  function DecodeFields(msg: string): (parts: seq<string>)
    ensures forall k :: 0 <= k < |parts| ==> Delimiter !in parts[k]
    ensures parts == [] <==> msg == ""
  {
    if msg == "" then [] else Split(msg, Delimiter)
  }

  /** Every non-empty join of delimiter-free fields decodes to those fields, an empty last one included. */
  lemma DecodeFieldsRoundTrip(fs: seq<string>)
    requires fs != [] && SeparatorFree(fs, Delimiter) && Join(fs, Delimiter) != ""
    ensures DecodeFields(Join(fs, Delimiter)) == fs
  {
    SplitJoin(fs, Delimiter);
  }

  /** The handler with the corrected decoder. */
  function HandleRequestFixed(request: string, t: Tables, now: int, branchOf: string -> Option<string>): Outcome {
    Handle(DecodeFields(request), t, now, branchOf)
  }
}
