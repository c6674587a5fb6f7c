/**
 The three request kinds of the request loop (src/main.rs lines 102-227)
 as transitions of the store: create (`+url`), delete (`-token`) and
 resolve (any other path, read as a base-36 id).  The HTTP reply is left
 out; each operation returns its result and the new store.  Whether a file
 append succeeds is an input.
 */
module StoreApi {
  import opened Wrappers
  import opened Text
  import opened DataLog
  import opened Base36
  import opened Recovery

  datatype ApiError =
    | EmptyRequest    // the path after '/' is empty
    | InvalidUrl      // the text after '+' is not a URL
    | InvalidId       // the path is not a base-36 u64
    | InvalidToken    // the text after '-' is not a UUID
    | NotFound        // no such id, a tombstone, or no live record with that token
    | WriteError      // a file append failed

  /** What an operation answers, and the store after it. */
  datatype Reply<T> = Reply(result: Result<T, ApiError>, store: Store)

  /** The answer to a create: the new record's id text and its deletion token. */
  datatype Created = Created(id: string, token: string)

  /**
   Create with an already validated url and a freshly generated token: the
   line is appended to the log first, and only if that append succeeds is the
   record pushed; its id is the old length of the list.
   */
  function Create(s: Store, token: string, url: string, logWriteOk: bool): (r: Reply<Created>)
    ensures r.result.Success? <==> logWriteOk
    ensures !logWriteOk ==> r.store == s && r.result == Failure(WriteError)
    ensures logWriteOk ==>
              && |r.store.records| == |s.records| + 1
              && r.store.records[..|s.records|] == s.records
              && r.store.records[|s.records|] == Record(url, token)
              && r.store.log == s.log + LineOf(Record(url, token)) + [LF]
              && r.store.journal == s.journal
              && r.result.value.token == token
              && r.result.value.id == EncodeBase36(|s.records|)
              && (|s.records| < U64_LIMIT ==> DecodeBase36(r.result.value.id) == Some(|s.records|))
  {
    if !logWriteOk then Reply(Failure(WriteError), s)
    else
      var id := EncodeBase36(|s.records|);
      Reply(Success(Created(id, token)),
            Store(s.records + [Record(url, token)], s.log + (token + url) + [LF], s.journal))
  }

  /** A record delete can still act on: not yet blanked, and carrying the token. */
  predicate Live(r: Record, token: string) {
    r.url != [] && r.token == token
  }

  /** Rust's `position`: the first index holding a live record with this token. */
  function FirstLive(rs: seq<Record>, token: string): (k: Option<nat>)
    ensures k.Some? ==> k.value < |rs| && Live(rs[k.value], token)
    ensures k.Some? ==> forall j :: 0 <= j < k.value ==> !Live(rs[j], token)
    ensures k.None? <==> forall j :: 0 <= j < |rs| ==> !Live(rs[j], token)
  {
    if |rs| == 0 then None
    else if Live(rs[0], token) then Some(0)
    else match FirstLive(rs[1..], token)
      case None => None
      case Some(k) => Some(k + 1)
  }

  /**
   Delete by token: the raw text must parse as a UUID; the first live record
   with its canonical form is looked up; the token is appended to the
   journal; only then is that record's url blanked in memory, and the old
   url is returned.
   */
  function Delete(s: Store, raw: string, parse: TokenParser, journalWriteOk: bool): (r: Reply<string>)
    ensures r.result.Failure? ==> r.store == s
    ensures r.result == Failure(InvalidToken) <==> parse(raw).None?
    ensures r.result.Success? <==>
              parse(raw).Some? && FirstLive(s.records, parse(raw).value).Some? && journalWriteOk
    ensures r.result == Failure(NotFound) <==>
              parse(raw).Some? && forall j :: 0 <= j < |s.records| ==> !Live(s.records[j], parse(raw).value)
    ensures r.result == Failure(WriteError) <==>
              parse(raw).Some? && FirstLive(s.records, parse(raw).value).Some? && !journalWriteOk
    ensures r.result.Success? ==>
              var t := parse(raw).value;
              var i := FirstLive(s.records, t).value;
              && r.result.value == s.records[i].url != []
              && |r.store.records| == |s.records|
              && r.store.records[i] == Record([], t)
              && (forall j :: 0 <= j < |s.records| && j != i ==> r.store.records[j] == s.records[j])
              && r.store.journal == s.journal + t + [LF]
              && r.store.log == s.log
  {
    match parse(raw)
    case None => Reply(Failure(InvalidToken), s)
    case Some(t) =>
      match FirstLive(s.records, t)
      case None => Reply(Failure(NotFound), s)
      case Some(i) =>
        if !journalWriteOk then Reply(Failure(WriteError), s)
        else
          Reply(Success(s.records[i].url),
                Store(s.records[i := Record([], t)], s.log, s.journal + t + [LF]))
  }

  /**
   Resolve a path: it must decode as a base-36 u64; the id must be in range
   and its url non-empty; the url is returned and nothing changes.
   */
  function Resolve(s: Store, param: string): (r: Result<string, ApiError>)
    ensures DecodeBase36(param).None? ==> r == Failure(InvalidId)
    ensures r.Success? <==>
              && DecodeBase36(param).Some?
              && DecodeBase36(param).value < |s.records|
              && s.records[DecodeBase36(param).value].url != []
    ensures r.Success? ==> r.value == s.records[DecodeBase36(param).value].url
    ensures r.Failure? && DecodeBase36(param).Some? ==> r == Failure(NotFound)
  {
    match DecodeBase36(param)
    case None => Failure(InvalidId)
    case Some(id) =>
      if id >= |s.records| then Failure(NotFound)
      else if s.records[id].url == [] then Failure(NotFound)
      else Success(s.records[id].url)
  }

  /** URL validation and normalisation (`Url::parse` then `to_string`), supplied by the caller. */
  type UrlParser = string -> Option<string>

  /** What a request answers on success. */
  datatype Answer =
    | Registered(created: Created)   // JSON with the new id and token
    | Removed(url: string)           // the url a delete blanked
    | Redirect(url: string)          // the Location of a 302

  /**
   One turn of the request loop on the path after its leading '/': an empty
   path is refused; '+' registers the rest as a url with the given fresh
   token; '-' deletes by the rest as a token; any other path is resolved as
   an id.
   */
  function Handle(s: Store, path: string, parseUrl: UrlParser, parse: TokenParser,
                  token: string, writeOk: bool): (r: Reply<Answer>)
    ensures |path| == 0 ==> r == Reply(Failure(EmptyRequest), s)
    ensures |path| > 0 && path[0] == '+' && parseUrl(path[1..]).None? ==> r == Reply(Failure(InvalidUrl), s)
    ensures |path| > 0 && path[0] == '+' && parseUrl(path[1..]).Some? ==>
              var c := Create(s, token, parseUrl(path[1..]).value, writeOk);
              && r.store == c.store
              && r.result == (if c.result.Success? then Success(Registered(c.result.value))
                              else Failure(c.result.error))
    ensures |path| > 0 && path[0] == '-' ==>
              var d := Delete(s, path[1..], parse, writeOk);
              && r.store == d.store
              && r.result == (if d.result.Success? then Success(Removed(d.result.value))
                              else Failure(d.result.error))
    ensures |path| > 0 && path[0] != '+' && path[0] != '-' ==>
              var v := Resolve(s, path);
              && r.store == s
              && r.result == (if v.Success? then Success(Redirect(v.value)) else Failure(v.error))
    ensures r.result.Failure? ==> r.store == s
  {
    if |path| == 0 then Reply(Failure(EmptyRequest), s)
    else if path[0] == '+' then
      match parseUrl(path[1..])
      case None => Reply(Failure(InvalidUrl), s)
      case Some(url) =>
        var c := Create(s, token, url, writeOk);
        match c.result
        case Success(created) => Reply(Success(Registered(created)), c.store)
        case Failure(e) => Reply(Failure(e), c.store)
    else if path[0] == '-' then
      var d := Delete(s, path[1..], parse, writeOk);
      match d.result
      case Success(url) => Reply(Success(Removed(url)), d.store)
      case Failure(e) => Reply(Failure(e), d.store)
    else
      match Resolve(s, path)
      case Success(url) => Reply(Success(Redirect(url)), s)
      case Failure(e) => Reply(Failure(e), s)
  }

  /**
   A non-empty path that decodes to a live id answers with that record's url
   and leaves the store untouched.  (The empty path, which would decode to 0,
   is refused before decoding.)
   */
  lemma HandleResolves(s: Store, path: string, parseUrl: UrlParser, parse: TokenParser, token: string, ok: bool)
    requires |path| > 0
    requires DecodeBase36(path).Some? && DecodeBase36(path).value < |s.records|
    requires s.records[DecodeBase36(path).value].url != []
    ensures Handle(s, path, parseUrl, parse, token, ok)
         == Reply(Success(Redirect(s.records[DecodeBase36(path).value].url)), s)
  {
    assert IsDigit(path[0]);
  }

  /**
   Through the request loop: registering a url and then requesting the id
   the reply reported redirects to that url, and the second request changes
   nothing.
   */
  lemma HandleCreateThenResolve(s: Store, url: string, parseUrl: UrlParser, parse: TokenParser,
                                token: string, ok: bool)
    requires parseUrl(url).Some? && parseUrl(url).value != []
    requires |s.records| < U64_LIMIT
    requires Handle(s, ['+'] + url, parseUrl, parse, token, true).result.Success?
    ensures var r := Handle(s, ['+'] + url, parseUrl, parse, token, true);
            && r.result.value.Registered?
            && r.result.value.created.token == token
            && Handle(r.store, r.result.value.created.id, parseUrl, parse, token, ok)
               == Reply(Success(Redirect(parseUrl(url).value)), r.store)
  {
    var path := ['+'] + url;
    assert path[1..] == url;
    var r := Handle(s, path, parseUrl, parse, token, true);
    var id := r.result.value.created.id;
    assert IsLowerDigit(id[0]);
    HandleResolves(r.store, id, parseUrl, parse, token, ok);
  }

  /** A created redirect resolves to its url through the id it was reported under. */
  lemma ResolveAfterCreate(s: Store, token: string, url: string)
    requires url != []
    requires |s.records| < U64_LIMIT
    ensures var r := Create(s, token, url, true);
            Resolve(r.store, r.result.value.id) == Success(url)
  {
  }

  /** After a successful delete the record's id no longer resolves. */
  lemma ResolveAfterDelete(s: Store, raw: string, parse: TokenParser, id: string)
    requires Delete(s, raw, parse, true).result.Success?
    requires DecodeBase36(id) == Some(FirstLive(s.records, parse(raw).value).value)
    ensures Resolve(Delete(s, raw, parse, true).store, id) == Failure(NotFound)
  {
  }

  /** Tokens are pairwise different (random 128-bit tokens are assumed not to collide). */
  predicate DistinctTokens(rs: seq<Record>) {
    forall i, j :: 0 <= i < j < |rs| ==> rs[i].token != rs[j].token
  }

  /**
   Repeating a successful delete: when tokens are distinct it is not-found;
   in any case it never hits the record the first delete blanked.
   */
  lemma DeleteTwice(s: Store, raw: string, parse: TokenParser, ok: bool)
    requires Delete(s, raw, parse, true).result.Success?
    ensures var s1 := Delete(s, raw, parse, true).store;
            var i := FirstLive(s.records, parse(raw).value).value;
            var again := Delete(s1, raw, parse, ok);
            && (again.result.Success? ==> FirstLive(s1.records, parse(raw).value).value > i)
            && (DistinctTokens(s.records) ==> again.result == Failure(NotFound))
  {
    var t := parse(raw).value;
    var s1 := Delete(s, raw, parse, true).store;
    var i := FirstLive(s.records, t).value;
    assert !Live(s1.records[i], t);
    if DistinctTokens(s.records) {
      forall j | 0 <= j < |s1.records|
        ensures !Live(s1.records[j], t)
      {
        if j != i { assert s.records[j].token != s.records[i].token; }
      }
    }
  }

  /** The requests of the loop, with the outcome of each file append as an input. */
  datatype Op =
    | CreateOp(token: string, url: string, logWriteOk: bool)
    | DeleteOp(raw: string, journalWriteOk: bool)
    | ResolveOp(param: string)

  /** One request's effect on the store: only a create whose log append succeeds adds a record. */
  function Step(s: Store, op: Op, parse: TokenParser): (r: Store)
    ensures |r.records| == |s.records| + (if op.CreateOp? && op.logWriteOk then 1 else 0)
    ensures op.ResolveOp? ==> r == s
  {
    match op
    case CreateOp(token, url, ok) => Create(s, token, url, ok).store
    case DeleteOp(raw, ok) => Delete(s, raw, parse, ok).store
    case ResolveOp(_) => s
  }

  /** The number of requests in `ops` that add a record. */
  function Creates(ops: seq<Op>): nat {
    if |ops| == 0 then 0
    else (if ops[0].CreateOp? && ops[0].logWriteOk then 1 else 0) + Creates(ops[1..])
  }

  /** The request loop over a sequence of requests: the list grows by one per successful create. */
  function Run(s: Store, ops: seq<Op>, parse: TokenParser): (r: Store)
    ensures |r.records| == |s.records| + Creates(ops)
    decreases |ops|
  {
    if |ops| == 0 then s else Run(Step(s, ops[0], parse), ops[1..], parse)
  }

  /** The request a path stands for, as far as the store is concerned. */
  function RequestOp(path: string, parseUrl: UrlParser, token: string, ok: bool): Op {
    if |path| > 0 && path[0] == '+' && parseUrl(path[1..]).Some? then CreateOp(token, parseUrl(path[1..]).value, ok)
    else if |path| > 0 && path[0] == '-' then DeleteOp(path[1..], ok)
    else ResolveOp(path)
  }

  /**
   `Handle` and `Step` agree: every turn of the request loop changes the store
   as one `Op` does, so results about runs of `Op`s cover the loop.
   */
  lemma HandleIsStep(s: Store, path: string, parseUrl: UrlParser, parse: TokenParser, token: string, ok: bool)
    ensures Handle(s, path, parseUrl, parse, token, ok).store == Step(s, RequestOp(path, parseUrl, token, ok), parse)
  {
  }

  /**
   How the list may change over time: it only grows; an existing record keeps
   its token; its url either stays or becomes empty; a tombstone stays empty.
   */
  predicate Evolves(s: Store, s': Store) {
    && |s.records| <= |s'.records|
    && forall i :: 0 <= i < |s.records| ==>
         && s'.records[i].token == s.records[i].token
         && (s'.records[i].url == s.records[i].url || s'.records[i].url == [])
  }

  lemma StepEvolves(s: Store, op: Op, parse: TokenParser)
    ensures Evolves(s, Step(s, op, parse))
  {
  }

  /** Any run of requests only appends records, never retokens them, never revives a tombstone. */
  lemma {:induction false} RunEvolves(s: Store, ops: seq<Op>, parse: TokenParser)
    ensures Evolves(s, Run(s, ops, parse))
    decreases |ops|
  {
    if |ops| > 0 {
      var s1 := Step(s, ops[0], parse);
      StepEvolves(s, ops[0], parse);
      RunEvolves(s1, ops[1..], parse);
    }
  }

  /**
   Ids are never reused: a create after any run of requests reports an id
   naming a position beyond every record that existed before the run; ids are
   handed out densely, one per successful create.
   */
  lemma IdsNeverReused(s: Store, ops: seq<Op>, parse: TokenParser, token: string, url: string)
    ensures var s' := Run(s, ops, parse);
            var id := Create(s', token, url, true).result.value.id;
            && AllDigits(id)
            && Value(id) >= |s.records|
            && Value(id) == |s.records| + Creates(ops)
  {
    RunEvolves(s, ops, parse);
  }
}
