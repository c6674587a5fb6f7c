/**
 Startup of the service (src/main.rs lines 32-86): read the pending-removal
 journal `prm.txt`, load the data log, blank the url of every record whose
 token is pending, rewrite the log if anything was pending, and empty the
 journal.
 */
module Recovery {
  import opened Wrappers
  import opened Text
  import opened DataLog

  /** The running service: the in-memory list and the current text of both files. */
  datatype Store = Store(records: seq<Record>, log: string, journal: string)

  /** Startup aborts (an `unwrap` panics) when rewriting the log or emptying the journal fails. */
  datatype StartupError = RewriteFailed | ClearFailed

  /**
   Token text parsing and re-rendering (`Uuid::from_str` then `to_string`),
   supplied by the caller: None for text that is not a UUID, else its
   canonical form.
   */
  type TokenParser = string -> Option<string>

  /** The pending tokens: the canonical form of every journal line that parses, in order. */
  function ReadJournal(lines: seq<string>, parse: TokenParser): (pending: seq<string>)
    ensures |pending| <= |lines|
    ensures forall t :: t in pending <==> exists j :: 0 <= j < |lines| && parse(lines[j]) == Some(t)
  {
    if |lines| == 0 then []
    else
      var rest := ReadJournal(lines[1..], parse);
      assert forall j :: 1 <= j < |lines| ==> lines[j] == lines[1..][j - 1];
      match parse(lines[0])
      case None => rest
      case Some(t) => [t] + rest
  }

  lemma {:induction false} ReadJournalAppend(a: seq<string>, b: seq<string>, parse: TokenParser)
    ensures ReadJournal(a + b, parse) == ReadJournal(a, parse) + ReadJournal(b, parse)
  {
    if |a| == 0 {
      assert a + b == b;
    } else {
      assert (a + b)[0] == a[0];
      assert (a + b)[1..] == a[1..] + b;
      ReadJournalAppend(a[1..], b, parse);
    }
  }

  /** One record after the pending pass. */
  function Blank(r: Record, pending: seq<string>): Record {
    if r.token in pending then Record("", r.token) else r
  }

  /**
   The tombstone pass: exactly the records whose token is pending get an
   empty url; every token, every other url and the length stay as they were.
   */
  function Tombstone(rs: seq<Record>, pending: seq<string>): (out: seq<Record>)
    ensures |out| == |rs|
    ensures forall i :: 0 <= i < |rs| ==> out[i].token == rs[i].token
    ensures forall i :: 0 <= i < |rs| ==> out[i].url == (if rs[i].token in pending then "" else rs[i].url)
  {
    if |rs| == 0 then [] else [Blank(rs[0], pending)] + Tombstone(rs[1..], pending)
  }

  /** Applying the pass a second time changes nothing. */
  lemma TombstoneIdempotent(rs: seq<Record>, pending: seq<string>)
    ensures Tombstone(Tombstone(rs, pending), pending) == Tombstone(rs, pending)
  {
  }

  /** With nothing pending the pass is the identity. */
  lemma TombstoneNothing(rs: seq<Record>)
    ensures Tombstone(rs, []) == rs
  {
  }

  /** The pass works record by record, so it distributes over concatenation. */
  lemma TombstoneAppend(a: seq<Record>, b: seq<Record>, pending: seq<string>)
    ensures Tombstone(a + b, pending) == Tombstone(a, pending) + Tombstone(b, pending)
  {
  }

  /**
   Lines 55-86 once both files have been read: the in-memory list after the
   pending pass, the log rewritten from it when `rewrite` holds, and the
   journal emptied.  Each file operation may fail, which aborts startup.
   */
  function Recover(loaded: seq<Record>, pending: seq<string>, log: string,
                   rewrite: bool, rewriteOk: bool, clearOk: bool): (r: Result<Store, StartupError>)
    ensures r.Success? <==> clearOk && (rewrite ==> rewriteOk)
    ensures r.Success? ==> r.value.records == Tombstone(loaded, pending) && r.value.journal == []
    ensures r.Success? ==> r.value.log == (if rewrite then Serialise(r.value.records) else log)
  {
    var data := if |pending| == 0 then loaded else Tombstone(loaded, pending);
    assert |pending| == 0 ==> data == Tombstone(loaded, pending) by {
      if |pending| == 0 { TombstoneNothing(loaded); }
    }
    if rewrite && !rewriteOk then Failure(RewriteFailed)
    else if !clearOk then Failure(ClearFailed)
    else Success(Store(data, if rewrite then Serialise(data) else log, []))
  }

  /**
   Startup exactly as the source does it: the log is rewritten only when the
   journal held at least one token.
   */
  function StartupAsWritten(log: string, journal: string, parse: TokenParser,
                            rewriteOk: bool, clearOk: bool): (r: Result<Store, StartupError>)
    ensures var pending := ReadJournal(Lines(journal), parse);
            && (r.Success? <==> clearOk && (|pending| > 0 ==> rewriteOk))
            && (r.Success? ==> r.value.records == Tombstone(Load(Lines(log)), pending))
            && (r.Success? && |pending| == 0 ==> r.value.records == Load(Lines(log)) && r.value.log == log)
            && (r.Success? && |pending| > 0 ==> r.value.log == Serialise(r.value.records))
            && (r.Success? ==> r.value.journal == [])
  {
    var pending := ReadJournal(Lines(journal), parse);
    var loaded := Load(Lines(log));
    TombstoneNothing(loaded);
    Recover(loaded, pending, log, |pending| > 0, rewriteOk, clearOk)
  }

  /**
   Startup with the torn-tail repair: the log is also rewritten when its
   last line has no line feed, so that the next append starts a fresh line.
   */
  function Startup(log: string, journal: string, parse: TokenParser,
                   rewriteOk: bool, clearOk: bool): (r: Result<Store, StartupError>)
    ensures var pending := ReadJournal(Lines(journal), parse);
            var rewrite := |pending| > 0 || !Terminated(log);
            && (r.Success? <==> clearOk && (rewrite ==> rewriteOk))
            && (r.Success? ==> r.value.records == Tombstone(Load(Lines(log)), pending))
            && (r.Success? ==> Terminated(r.value.log) && r.value.journal == [])
            && (r.Success? && !rewrite ==> r.value.records == Load(Lines(log)) && r.value.log == log)
            && (r.Success? && rewrite ==> r.value.log == Serialise(r.value.records))
  {
    var pending := ReadJournal(Lines(journal), parse);
    var loaded := Load(Lines(log));
    TombstoneNothing(loaded);
    Recover(loaded, pending, log, |pending| > 0 || !Terminated(log), rewriteOk, clearOk)
  }

  /** On a log that ends with a line feed the repair never triggers: both startups agree. */
  lemma StartupAgreesOnTerminatedLog(log: string, journal: string, parse: TokenParser,
                                     rewriteOk: bool, clearOk: bool)
    requires Terminated(log)
    ensures Startup(log, journal, parse, rewriteOk, clearOk)
         == StartupAsWritten(log, journal, parse, rewriteOk, clearOk)
  {
  }

  /**
   The source's startup is idempotent too: a second run finds an empty
   journal, so it neither rewrites the log nor changes the list.
   */
  lemma StartupAsWrittenIdempotent(log: string, journal: string, parse: TokenParser)
    requires forall i :: 0 <= i < |Load(Lines(log))| ==> Storable(Load(Lines(log))[i])
    requires StartupAsWritten(log, journal, parse, true, true).Success?
    ensures var s := StartupAsWritten(log, journal, parse, true, true).value;
            StartupAsWritten(s.log, s.journal, parse, true, true) == Success(s)
  {
    var pending := ReadJournal(Lines(journal), parse);
    var s := StartupAsWritten(log, journal, parse, true, true).value;
    assert Lines(s.journal) == [];
    assert ReadJournal(Lines(s.journal), parse) == [];
    var rs := s.records;
    assert forall i :: 0 <= i < |rs| ==> Storable(rs[i]) by {
      forall i | 0 <= i < |rs| ensures Storable(rs[i]) {
        assert Storable(Load(Lines(log))[i]);
      }
    }
    if |pending| > 0 {
      SerialiseRoundTrip(rs);
    }
    assert Load(Lines(s.log)) == rs;
    TombstoneNothing(rs);
  }

  /**
   A second startup right after a successful one finds an empty journal and
   a terminated log and changes nothing, neither the list nor either file.
   */
  lemma StartupIdempotent(log: string, journal: string, parse: TokenParser)
    requires forall i :: 0 <= i < |Load(Lines(log))| ==> Storable(Load(Lines(log))[i])
    requires Startup(log, journal, parse, true, true).Success?
    ensures var s := Startup(log, journal, parse, true, true).value;
            Startup(s.log, s.journal, parse, true, true) == Success(s)
  {
    var pending := ReadJournal(Lines(journal), parse);
    var s := Startup(log, journal, parse, true, true).value;
    assert Lines(s.journal) == [];
    assert ReadJournal(Lines(s.journal), parse) == [];
    var rs := s.records;
    assert forall i :: 0 <= i < |rs| ==> Storable(rs[i]) by {
      forall i | 0 <= i < |rs| ensures Storable(rs[i]) {
        assert Storable(Load(Lines(log))[i]);
      }
    }
    if |pending| > 0 || !Terminated(log) {
      SerialiseRoundTrip(rs);
    }
    assert Load(Lines(s.log)) == rs;
    TombstoneNothing(rs);
  }
}
