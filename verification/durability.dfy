/**
 Durability of the store: every change is on disk before it is visible in
 memory, so a restart rebuilds exactly the in-memory list.  The invariant
 `Consistent` says that the list equals what startup would recover from the
 two files; create and delete preserve it, and the corrected startup
 (`Startup`) establishes it.
 */
module Durability {
  import opened Wrappers
  import opened Text
  import opened DataLog
  import opened Base36
  import opened Recovery
  import opened StoreApi

  predicate IsTokenChar(c: char) {
    '0' <= c <= '9' || 'a' <= c <= 'f' || c == '-'
  }

  /** Canonical hyphenated lowercase UUID text, as `Uuid::to_string` renders it. */
  predicate ValidToken(t: string) {
    |t| == TOKEN_LEN && forall i :: 0 <= i < |t| ==> IsTokenChar(t[i])
  }

  /** A url as `Url::to_string` renders it: never empty, never holding a line break. */
  predicate ValidUrl(u: string) {
    |u| > 0 && LF !in u && CR !in u
  }

  /**
   The token parser behaves like UUID parsing followed by canonical
   rendering: what it produces is canonical token text, and parsing that
   text again gives the same token.
   */
  ghost predicate CanonicalParser(parse: TokenParser) {
    forall x :: parse(x).Some? ==> ValidToken(parse(x).value) && parse(parse(x).value) == parse(x)
  }

  function Pending(s: Store, parse: TokenParser): seq<string> {
    ReadJournal(Lines(s.journal), parse)
  }

  /** Every record could be written to the log and read back unchanged, and no token repeats. */
  ghost predicate WellFormed(rs: seq<Record>) {
    && DistinctTokens(rs)
    && forall i :: 0 <= i < |rs| ==> Storable(rs[i])
  }

  /** Some record carries this token. */
  ghost predicate Known(t: string, rs: seq<Record>) {
    exists i :: 0 <= i < |rs| && rs[i].token == t
  }

  /** The in-memory list is what a restart would rebuild from the two files. */
  ghost predicate Consistent(s: Store, parse: TokenParser) {
    && Terminated(s.log)
    && Terminated(s.journal)
    && s.records == Tombstone(Load(Lines(s.log)), Pending(s, parse))
    && WellFormed(s.records)
    && forall t :: t in Pending(s, parse) ==> Known(t, s.records)
  }

  /** Appending a storable record with a fresh token keeps the list well formed. */
  lemma AppendWellFormed(rs: seq<Record>, r: Record)
    requires WellFormed(rs) && Storable(r)
    requires forall i :: 0 <= i < |rs| ==> rs[i].token != r.token
    ensures WellFormed(rs + [r])
    ensures forall t :: Known(t, rs) ==> Known(t, rs + [r])
  {
    var rs' := rs + [r];
    forall t | Known(t, rs) ensures Known(t, rs') {
      var i :| 0 <= i < |rs| && rs[i].token == t;
      assert rs'[i] == rs[i];
    }
  }

  lemma ValidTokenPlain(t: string)
    requires ValidToken(t)
    ensures LF !in t && CR !in t && PlainLine(t)
  {
    assert forall i :: 0 <= i < |t| ==> t[i] != LF && t[i] != CR;
  }

  /** A create with a fresh token keeps the list equal to what a restart would rebuild. */
  lemma CreatePreservesConsistency(s: Store, token: string, url: string, ok: bool, parse: TokenParser)
    requires Consistent(s, parse)
    requires ValidToken(token) && ValidUrl(url)
    requires forall i :: 0 <= i < |s.records| ==> s.records[i].token != token
    ensures Consistent(Create(s, token, url, ok).store, parse)
  {
    if ok {
      var s' := Create(s, token, url, true).store;
      var r := Record(url, token);
      ValidTokenPlain(token);
      assert Storable(r);
      var p := Pending(s, parse);
      assert token !in p;
      LogAppendLoads(s.log, r);
      assert Pending(s', parse) == p;
      TombstoneAppend(Load(Lines(s.log)), [r], p);
      assert Tombstone([r], p) == [r];
      assert s'.records == s.records + [r];
      AppendWellFormed(s.records, r);
    }
  }

  /** Appending a storable record's line to a terminated log adds exactly that record to what loads. */
  lemma LogAppendLoads(log: string, r: Record)
    requires Terminated(log)
    requires Storable(r)
    ensures Terminated(log + LineOf(r) + [LF])
    ensures Load(Lines(log + LineOf(r) + [LF])) == Load(Lines(log)) + [r]
  {
    var line := LineOf(r);
    var lines := Lines(log);
    StorableLinePlain(r);
    LinesAppend(log, line);
    LoadAppend(lines, [line]);
    LoadLine(line);
    assert line[TOKEN_LEN..] == r.url && line[..TOKEN_LEN] == r.token;
  }

  /** A delete keeps the list equal to what a restart would rebuild: the journal names the blanked token. */
  lemma DeletePreservesConsistency(s: Store, raw: string, ok: bool, parse: TokenParser)
    requires Consistent(s, parse)
    requires CanonicalParser(parse)
    ensures Consistent(Delete(s, raw, parse, ok).store, parse)
  {
    var d := Delete(s, raw, parse, ok);
    if d.result.Success? {
      var t := parse(raw).value;
      var i := FirstLive(s.records, t).value;
      assert ValidToken(t) && parse(t) == Some(t);
      BlankPreservesConsistency(s, d.store, t, i, parse);
    }
  }

  /** Blanking record `i` in memory and journalling its token, as a successful delete does. */
  lemma BlankPreservesConsistency(s: Store, s': Store, t: string, i: nat, parse: TokenParser)
    requires Consistent(s, parse)
    requires ValidToken(t) && parse(t) == Some(t)
    requires i < |s.records| && s.records[i].token == t
    requires s' == Store(s.records[i := Record([], t)], s.log, s.journal + t + [LF])
    ensures Consistent(s', parse)
  {
    var p := Pending(s, parse);
    var rs := s.records;
    JournalAppendPending(s, s', t, parse);
    assert forall k :: 0 <= k < |rs| && k != i ==> rs[k].token != t by {
      assert DistinctTokens(rs);
    }
    BlankMirrors(rs, Load(Lines(s.log)), p, t, i);
    assert s'.records == Tombstone(Load(Lines(s'.log)), Pending(s', parse));
    BlankWellFormed(rs, i, t);
    forall u | u in Pending(s', parse) ensures Known(u, s'.records) {
      if u != t {
        assert u in p;
      }
    }
  }

  /** Blanking a record keeps the list well formed and every token known. */
  lemma BlankWellFormed(rs: seq<Record>, i: nat, t: string)
    requires WellFormed(rs)
    requires i < |rs| && rs[i].token == t
    ensures WellFormed(rs[i := Record([], t)])
    ensures forall u :: Known(u, rs) ==> Known(u, rs[i := Record([], t)])
    ensures Known(t, rs[i := Record([], t)])
  {
    var rs' := rs[i := Record([], t)];
    assert rs'[i].token == t;
    forall u | Known(u, rs) ensures Known(u, rs') {
      var j :| 0 <= j < |rs| && rs[j].token == u;
      assert rs'[j].token == u;
    }
  }

  /** Appending a canonical token to the journal adds exactly that token to the pending list. */
  lemma JournalAppendPending(s: Store, s': Store, t: string, parse: TokenParser)
    requires ValidToken(t) && parse(t) == Some(t)
    requires Terminated(s.journal)
    requires s'.journal == s.journal + t + [LF]
    ensures Terminated(s'.journal)
    ensures Pending(s', parse) == Pending(s, parse) + [t]
  {
    ValidTokenPlain(t);
    LinesAppend(s.journal, t);
    ReadJournalAppend(Lines(s.journal), [t], parse);
    assert ReadJournal([t], parse) == [t] by {
      assert [t][1..] == [];
    }
  }

  /** Blanking the one record with token `t` matches adding `t` to the pending list, when no other record has `t`. */
  lemma BlankMirrors(rs: seq<Record>, loaded: seq<Record>, p: seq<string>, t: string, i: nat)
    requires rs == Tombstone(loaded, p)
    requires i < |rs| && rs[i].token == t
    requires forall k :: 0 <= k < |rs| && k != i ==> rs[k].token != t
    ensures rs[i := Record([], t)] == Tombstone(loaded, p + [t])
  {
    var out := Tombstone(loaded, p + [t]);
    var rs' := rs[i := Record([], t)];
    forall k | 0 <= k < |out|
      ensures out[k] == rs'[k]
    {
      MirrorAt(loaded[k], rs[k], out[k], p, t);
    }
  }

  /** One position of `BlankMirrors`: the pass with `t` added differs only where the token is `t`. */
  lemma MirrorAt(l: Record, r: Record, o: Record, p: seq<string>, t: string)
    requires r.token == l.token && r.url == (if l.token in p then "" else l.url)
    requires o.token == l.token && o.url == (if l.token in p + [t] then "" else l.url)
    ensures l.token == t ==> o == Record([], t)
    ensures l.token != t ==> o == r
  {
    assert t in p + [t];
    assert (l.token in p + [t]) == (l.token in p || l.token == t);
  }

  lemma StepPreservesConsistency(s: Store, op: Op, parse: TokenParser)
    requires Consistent(s, parse)
    requires CanonicalParser(parse)
    requires op.CreateOp? ==> ValidToken(op.token) && ValidUrl(op.url)
    requires op.CreateOp? ==> forall i :: 0 <= i < |s.records| ==> s.records[i].token != op.token
    ensures Consistent(Step(s, op, parse), parse)
  {
    match op
    case CreateOp(token, url, ok) => CreatePreservesConsistency(s, token, url, ok, parse);
    case DeleteOp(raw, ok) => DeletePreservesConsistency(s, raw, ok, parse);
    case ResolveOp(_) =>
  }

  /**
   A successful startup yields a consistent store, provided the log holds
   storable records with distinct tokens (as every log this service wrote does).
   */
  lemma StartupConsistent(log: string, journal: string, parse: TokenParser, rewriteOk: bool, clearOk: bool)
    requires forall i :: 0 <= i < |Load(Lines(log))| ==> Storable(Load(Lines(log))[i])
    requires DistinctTokens(Load(Lines(log)))
    ensures var r := Startup(log, journal, parse, rewriteOk, clearOk);
            r.Success? ==> Consistent(r.value, parse)
  {
    var r := Startup(log, journal, parse, rewriteOk, clearOk);
    if r.Success? {
      var s := r.value;
      var loaded := Load(Lines(log));
      var pending := ReadJournal(Lines(journal), parse);
      assert Lines(s.journal) == [];
      assert Pending(s, parse) == [];
      assert forall i :: 0 <= i < |s.records| ==> Storable(s.records[i]) by {
        forall i | 0 <= i < |s.records| ensures Storable(s.records[i]) {
          assert Storable(loaded[i]);
        }
      }
      if |pending| > 0 || !Terminated(log) {
        assert s.log == Serialise(s.records);
        SerialiseRoundTrip(s.records);
      } else {
        assert s.log == log && s.records == loaded;
      }
      TombstoneNothing(s.records);
    }
  }

  /**
   The durability theorem: restarting from the files of a consistent store
   succeeds (when its file operations do) and rebuilds exactly the list that
   was in memory, into a store that is consistent again.  The source's own
   startup does the same on these files.
   */
  lemma RestartRecoversMemory(s: Store, parse: TokenParser)
    requires Consistent(s, parse)
    ensures var r := Startup(s.log, s.journal, parse, true, true);
            && r.Success?
            && r.value.records == s.records
            && Consistent(r.value, parse)
    ensures StartupAsWritten(s.log, s.journal, parse, true, true) == Startup(s.log, s.journal, parse, true, true)
  {
    var loaded := Load(Lines(s.log));
    var p := Pending(s, parse);
    var r := Startup(s.log, s.journal, parse, true, true).value;
    assert r.records == s.records;
    var s' := r;
    assert Lines(s'.journal) == [];
    assert Pending(s', parse) == [];
    if |p| > 0 {
      SerialiseRoundTrip(s.records);
    }
    TombstoneNothing(s.records);
    assert forall t :: t !in Pending(s', parse);
  }

  /** A whole run of requests keeps the store consistent when each created token is fresh. */
  predicate FreshTokens(s: Store, ops: seq<Op>, parse: TokenParser)
    decreases |ops|
  {
    |ops| > 0 ==>
      && (ops[0].CreateOp? ==>
            && ValidToken(ops[0].token) && ValidUrl(ops[0].url)
            && forall i :: 0 <= i < |s.records| ==> s.records[i].token != ops[0].token)
      && FreshTokens(Step(s, ops[0], parse), ops[1..], parse)
  }

  /** After any run of requests, a restart rebuilds the in-memory list. */
  lemma {:induction false} RunPreservesConsistency(s: Store, ops: seq<Op>, parse: TokenParser)
    requires Consistent(s, parse)
    requires CanonicalParser(parse)
    requires FreshTokens(s, ops, parse)
    ensures Consistent(Run(s, ops, parse), parse)
    decreases |ops|
  {
    if |ops| > 0 {
      StepPreservesConsistency(s, ops[0], parse);
      RunPreservesConsistency(Step(s, ops[0], parse), ops[1..], parse);
    }
  }

  /**
   Finding, as written: a log whose last line was torn (no line feed) and an
   empty journal.  Startup keeps the torn text; the next create's line is
   glued onto it; the following restart reads one record made of the torn
   text and the front of the token as its token, and the rest of the token
   before the url as its url.  So the url never reads back, and unless the
   torn text happens to repeat the token's start, the redirect can no longer
   be deleted either.
   */
  lemma TornTailCorruptsNextRecord(torn: string, token: string, url: string, parse: TokenParser)
    requires 0 < |torn| < TOKEN_LEN && LF !in torn && CR !in torn
    requires ValidToken(token) && ValidUrl(url)
    ensures var s := StartupAsWritten(torn, [], parse, true, true);
            && s.Success? && s.value.records == [] && s.value.log == torn
            && var c := Create(s.value, token, url, true).store;
               && c.records == [Record(url, token)]
               && var s2 := StartupAsWritten(c.log, c.journal, parse, true, true);
                  && s2.Success?
                  && var k := TOKEN_LEN - |torn|;
                     && s2.value.records == [Record(token[k..] + url, torn + token[..k])]
                     && s2.value.records[0].url != url
                     && (torn[0] != token[0] ==> s2.value.records[0].token != token)
  {
    LoadLine(torn);
    assert Lines([]) == [];
    var s := StartupAsWritten(torn, [], parse, true, true).value;
    var c := Create(s, token, url, true).store;
    assert c.log == torn + (token + url) + [LF];
    ValidTokenPlain(token);
    assert url[|url| - 1] != CR;
    GluedLineLoads(torn, token, url);
    var k := TOKEN_LEN - |torn|;
    var r := Record(token[k..] + url, torn + token[..k]);
    assert Load(Lines(c.log)) == [r];
    assert |r.url| > |url|;
    assert r.token[0] == torn[0];
  }

  /** The torn text and the next record's line, read back together as one line. */
  lemma GluedLineLoads(torn: string, token: string, url: string)
    requires 0 < |torn| < TOKEN_LEN && LF !in torn
    requires |token| == TOKEN_LEN && LF !in token
    requires |url| > 0 && LF !in url && url[|url| - 1] != CR
    ensures var k := TOKEN_LEN - |torn|;
            Load(Lines(torn + (token + url) + [LF])) == [Record(token[k..] + url, torn + token[..k])]
  {
    var line := torn + (token + url);
    assert line[|line| - 1] == url[|url| - 1];
    assert PlainLine(line);
    LineAlone(line);
    LoadLine(line);
    SplitGlued(torn, token, url);
  }

  lemma SplitGlued(torn: string, token: string, url: string)
    requires 0 < |torn| < TOKEN_LEN && |token| == TOKEN_LEN
    ensures var k := TOKEN_LEN - |torn|;
            var line := torn + (token + url);
            line[..TOKEN_LEN] == torn + token[..k] && line[TOKEN_LEN..] == token[k..] + url
  {
  }

  lemma LineAlone(line: string)
    requires PlainLine(line)
    ensures Lines(line + [LF]) == [line]
  {
    assert line + [LF] == Join([line]);
    LinesOfJoin([line]);
  }

  /**
   Corrected startup on the same files: the torn line is dropped by the
   rewrite, and the created record survives the next restart unchanged.
   */
  lemma TornTailRepaired(torn: string, token: string, url: string, parse: TokenParser)
    requires 0 < |torn| < TOKEN_LEN && LF !in torn
    requires ValidToken(token) && ValidUrl(url)
    ensures var s := Startup(torn, [], parse, true, true);
            && s.Success? && s.value.records == []
            && var c := Create(s.value, token, url, true).store;
               && var s2 := Startup(c.log, c.journal, parse, true, true);
                  && s2.Success?
                  && s2.value.records == [Record(url, token)]
  {
    LoadLine(torn);
    StartupConsistent(torn, [], parse, true, true);
    var s := Startup(torn, [], parse, true, true).value;
    CreatePreservesConsistency(s, token, url, true, parse);
    RestartRecoversMemory(Create(s, token, url, true).store, parse);
  }
}
