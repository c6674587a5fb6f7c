/**
 The data log `data.txt`: one line per redirect, written as the 36-character
 token immediately followed by the URL.  At startup every line read back is
 split at position 36; a line too short to hold a token is a torn write and
 is skipped (src/main.rs lines 45-53, and the rewrite at lines 72-77).
 */
module DataLog {
  import opened Wrappers
  import opened Text

  /** Length of the canonical hyphenated UUID text used as a deletion token. */
  const TOKEN_LEN: nat := 36

  /** One redirect, the source's `(url, token)` tuple.  An empty url is a tombstone. */
  datatype Record = Record(url: string, token: string)

  /** The log line of a record: token first, then the url. */
  function LineOf(r: Record): string {
    r.token + r.url
  }

  /** A record whose line reads back unchanged: a full-width token and no line break inside. */
  predicate Storable(r: Record) {
    && |r.token| == TOKEN_LEN
    && LF !in r.token && CR !in r.token
    && LF !in r.url
    && (|r.url| == 0 || r.url[|r.url| - 1] != CR)
  }

  /** One line read at startup: None for a torn line, else the split at the token width. */
  function ParseLine(line: string): (r: Option<Record>)
    ensures r.Some? <==> |line| >= TOKEN_LEN
    ensures r.Some? ==> |r.value.token| == TOKEN_LEN && LineOf(r.value) == line
  {
    if |line| < TOKEN_LEN then None else Some(Record(line[TOKEN_LEN..], line[..TOKEN_LEN]))
  }

  /** The records loaded from the log's lines, in order. */
  function Load(lines: seq<string>): (rs: seq<Record>)
    ensures |rs| <= |lines|
    ensures forall i :: 0 <= i < |rs| ==> |rs[i].token| == TOKEN_LEN
    ensures (forall j :: 0 <= j < |lines| ==> |lines[j]| >= TOKEN_LEN) ==>
              |rs| == |lines| && forall i :: 0 <= i < |rs| ==> LineOf(rs[i]) == lines[i]
  {
    if |lines| == 0 then []
    else
      var rest := Load(lines[1..]);
      match ParseLine(lines[0])
      case None => rest
      case Some(r) => [r] + rest
  }

  /** Load of a single line: nothing for a torn line, else the line split at the token width. */
  lemma LoadLine(line: string)
    ensures |line| < TOKEN_LEN ==> Load([line]) == []
    ensures |line| >= TOKEN_LEN ==> Load([line]) == [Record(line[TOKEN_LEN..], line[..TOKEN_LEN])]
  {
    assert [line][1..] == [];
  }

  /** Loading is line by line: the kept lines of a concatenation keep their order. */
  lemma {:induction false} LoadAppend(a: seq<string>, b: seq<string>)
    ensures Load(a + b) == Load(a) + Load(b)
  {
    if |a| == 0 {
      assert a + b == b;
    } else {
      assert (a + b)[0] == a[0];
      assert (a + b)[1..] == a[1..] + b;
      LoadAppend(a[1..], b);
    }
  }

  /** The lines of a list of records, as the rewrite writes them. */
  function LogLines(rs: seq<Record>): seq<string> {
    seq(|rs|, i requires 0 <= i < |rs| => LineOf(rs[i]))
  }

  /** The whole text of a rewritten log: `token ++ url ++ "\n"` per record. */
  function Serialise(rs: seq<Record>): (text: string)
    ensures Terminated(text)
    ensures |text| == 0 <==> |rs| == 0
    ensures |rs| > 0 ==> LineOf(rs[0]) + [LF] <= text
  {
    Join(LogLines(rs))
  }

  /** Loading the lines of full-width records gives the records back. */
  lemma {:induction false} LoadLogLines(rs: seq<Record>)
    requires forall i :: 0 <= i < |rs| ==> |rs[i].token| == TOKEN_LEN
    ensures Load(LogLines(rs)) == rs
  {
    if |rs| > 0 {
      var ls := LogLines(rs);
      assert ls[1..] == LogLines(rs[1..]);
      LoadLogLines(rs[1..]);
      var r := rs[0];
      assert ls[0] == r.token + r.url;
      assert ls[0][TOKEN_LEN..] == r.url && ls[0][..TOKEN_LEN] == r.token;
      assert rs == [r] + rs[1..];
    }
  }

  /** Serialise, then read back and load: the same records, when each one is storable. */
  lemma SerialiseRoundTrip(rs: seq<Record>)
    requires forall i :: 0 <= i < |rs| ==> Storable(rs[i])
    ensures Load(Lines(Serialise(rs))) == rs
  {
    var ls := LogLines(rs);
    forall i | 0 <= i < |ls|
      ensures PlainLine(ls[i])
    {
      StorableLinePlain(rs[i]);
    }
    LinesOfJoin(ls);
    LoadLogLines(rs);
  }

  lemma StorableLinePlain(r: Record)
    requires Storable(r)
    ensures PlainLine(LineOf(r))
  {
    var l := LineOf(r);
    if |r.url| == 0 {
      assert l[|l| - 1] == r.token[|r.token| - 1];
    } else {
      assert l[|l| - 1] == r.url[|r.url| - 1];
    }
  }
}
