# url-shorter redirect store, modelled in Dafny

This project models the core of a small URL-shortening service written in
Rust, as pure functions with proved contracts. A client registers a target
URL with `+<url>` and gets back a sequential base-36 id and a random UUID
deletion token. A path `<id>` redirects to the URL. `-<token>` deletes the
redirect that carries the token.

State is kept in two append-only text files and one in-memory list:

- the **data log** `data.txt`: one line per redirect, the 36-character token
  immediately followed by the URL;
- the **pending-removal journal** `prm.txt`: one deleted token per line;
- the **list**: `(url, token)` records. A record's position is its id, and an
  empty URL is a tombstone.

At startup the journal is read and the log is loaded. Every record whose
token is pending gets an empty URL. If anything was pending, the log is
rewritten in place. The journal is then emptied.

Modules, one per component:

- `Wrappers`: the `Option` and `Result` types.
- `Base36`: `encode_base36` and `decode_base36`. `Value` is the unbounded
  positional value, used as the reference meaning of a digit string.
- `Text`: file text and `BufRead::lines`. It splits at each LF, and drops one
  CR only in front of an LF.
- `DataLog`: `Record`, the split of a line at byte 36, `Load`, and the
  `token ++ url ++ "\n"` serialisation.
- `Recovery`: the `Store` state (the list plus the text of both files), the
  journal read, the tombstone pass and startup.
- `StoreApi`: create, delete and resolve as state transitions, the routing of
  one request, and runs of requests.
- `Durability`: the invariant `Consistent`. It says the in-memory list is
  exactly what a restart would rebuild from the two files. Create and delete
  preserve it, the corrected startup (`Recovery.Startup`) establishes it, and
  a restart gives back the list.

Every file write has a success flag as an input. The UUID parser
(`Uuid::from_str` / `parse_str` followed by `to_string`) is a function
parameter. The durability results assume only that it is canonical: what it
returns is 36-character lowercase UUID text, and parsing that text again gives
the same result.

Some consequences of the code that a reader might not expect:

- delete is keyed by the token alone; no id is sent with it;
- the journal `prm.txt` holds tokens, one per line;
- the log is rewritten in place (truncate, seek, write);
- `InvalidToken` means the text after `-` does not parse as a UUID; a UUID
  that matches no live record is `NotFound`.

## Model

| member | source | states |
|---|---|---|
| Base36.DigitValue | src/main.rs:235-243 | exactly `0-9`, `a-z` and `A-Z` are digits, each below 36 |
| Base36.DigitChar | src/main.rs:255-260 | the character written for a digit is lowercase and decodes back to that digit |
| Base36.Push | src/main.rs:234-243 | one loop turn succeeds exactly when the accumulator is valid, the character is a digit and `acc*36+d` fits in u64, and then yields that value |
| Base36.DecodeBase36 | src/main.rs:231-246 | succeeds exactly when every character is a digit of either case and the positional value is below 2^64, and then returns that value; the empty string gives 0 |
| Base36.Digits | src/main.rs:253-263 | the digit loop produces lowercase digits, no leading zero, and a positional value equal to the input |
| Base36.EncodeBase36 | src/main.rs:248-264 | "0" exactly for 0; otherwise lowercase digits with no leading '0'; decoding gives back n for every u64 n |
| Base36.EncodeFitsCapacity | src/main.rs:252 | a u64 never needs more than the 13 characters reserved |
| Base36.DecodeIgnoresCase | src/main.rs:237-240 | lower-casing the input never changes the decoded result |
| Base36.EncodeDecodeCanonical | src/main.rs:231-264 | on canonical text (lowercase, no leading zero) a canonical text is the encoding of its own value, so two different canonical texts never name the same id |
| Text.Lines | src/main.rs:36-47 | `BufRead::lines` on a file's text: a non-empty text gives at least one line, and a text without LF is read as that single line (an unterminated last segment is kept); `LinesOfJoin`, `LinesAppend` and `LinesConcat` show it splits at each LF, and `LinesDropsCr` that it drops one CR before an LF |
| Text.LinesDropsCr | src/main.rs:36-47 | a line ended by CR LF reads back without its CR, and the rest of the text is read on from after the LF |
| Text.LinesOfJoin | src/main.rs:72-78 | lines written each followed by LF read back as the same lines, when none holds LF or ends with CR |
| Text.LinesAppend | src/main.rs:120 | appending `line ++ "\n"` to an LF-terminated file adds exactly that line to what is read |
| DataLog.ParseLine | src/main.rs:48-52 | a line is kept exactly when it has at least 36 characters; the token is 36 long and token ++ url is the line |
| DataLog.Load | src/main.rs:46-53 | every loaded token has 36 characters, no more records than lines; when no line is short, one record per line, in order, each rebuilding its line |
| DataLog.LoadLine | src/main.rs:48-52 | a short line loads nothing; a long one loads its last part as the URL and its first 36 characters as the token |
| DataLog.LoadAppend | src/main.rs:47-53 | loading works line by line, so kept lines keep their order and a skipped line does not shift later ones |
| DataLog.LoadLogLines | src/main.rs:73-77 | loading the lines of records with 36-character tokens gives the records back |
| DataLog.Serialise | src/main.rs:72-77 | the rewritten log text ends with LF, is empty exactly when the list is, and starts with the first record's `token ++ url` line; `SerialiseRoundTrip` is its inverse |
| DataLog.SerialiseRoundTrip | src/main.rs:72-78 | serialising, then reading the lines and loading, gives the same records when tokens are 36 long and no line holds LF or ends with CR |
| Recovery.ReadJournal | src/main.rs:36-43 | a token is pending exactly when some journal line parses to it |
| Recovery.ReadJournalAppend | src/main.rs:38-43 | the journal is read line by line |
| Recovery.Tombstone | src/main.rs:56-67 | same length and tokens; the URL becomes empty exactly for records whose token is pending; other records unchanged |
| Recovery.TombstoneIdempotent | src/main.rs:58-67 | applying the pass twice equals applying it once |
| Recovery.TombstoneNothing | src/main.rs:56 | with nothing pending the pass changes nothing |
| Recovery.TombstoneAppend | src/main.rs:58-67 | the pass acts record by record |
| Recovery.Recover | src/main.rs:55-86 | succeeds exactly when the journal clear works and, if a rewrite is due, the rewrite works; the list is the tombstoned load, the journal ends empty, and the log is the serialised list when rewritten and the old text otherwise |
| Recovery.StartupAsWritten | src/main.rs:32-86 | fails only when a needed rewrite or the journal clear fails; the list is the tombstoned load; with an empty journal the loaded list and the log text are kept; otherwise the log is the serialised list; the journal ends empty |
| Recovery.Startup | src/main.rs:32-86 | as above, and the log is also rewritten when its last line has no LF, so the resulting log always ends with LF |
| Recovery.StartupAgreesOnTerminatedLog | src/main.rs:55-79 | on a log ending in LF the corrected startup is the source's startup |
| Recovery.StartupAsWrittenIdempotent | src/main.rs:32-86 | the source's startup, run again straight after a successful run, changes neither the list nor either file |
| Recovery.StartupIdempotent | src/main.rs:32-86 | the same for the corrected startup (`Startup`), which may also have rewritten an unterminated log |
| StoreApi.Create | src/main.rs:116-132 | on a failed log append nothing changes and WriteError is returned; otherwise one record is added at position old length, earlier records stay, the log gains its line, and the id is `encode_base36(old length)`, which decodes to the old length |
| StoreApi.FirstLive | src/main.rs:162-171 | the first index whose record has a non-empty URL and the token; None exactly when there is none |
| StoreApi.Delete | src/main.rs:147-186 | InvalidToken exactly for non-UUID text; success exactly when the text parses, a live record has the token and the journal append works; NotFound exactly when no live record has the token; WriteError exactly when the journal append fails; on every failure nothing changes; on success only the first live record's URL becomes empty, its token and the length are kept, the token is journalled and the old URL returned |
| StoreApi.Resolve | src/main.rs:188-213 | InvalidId when the path does not decode; success exactly when the id is in range and its URL is non-empty, returning that URL |
| StoreApi.Handle | src/main.rs:90-227 | an empty path is refused and changes nothing; '+' answers InvalidUrl when the URL parser rejects the rest, and otherwise exactly what create answers (the new id and token, or its error) with create's store; '-' answers exactly what delete by the rest answers (the removed URL or its error); any other path answers exactly what resolve answers (a redirect to the URL or its error) without touching the store; no failed request changes the store |
| StoreApi.HandleCreateThenResolve | src/main.rs:116-213 | registering a URL through the loop and then requesting the reported id redirects to the normalised URL and changes nothing |
| StoreApi.HandleResolves | src/main.rs:188-226 | a non-empty path decoding to a live id redirects to that record's URL with the store unchanged; the empty path never reaches decoding |
| StoreApi.ResolveAfterCreate | src/main.rs:125-132 | the id reported by a create resolves to its URL |
| StoreApi.ResolveAfterDelete | src/main.rs:179-180 | after a delete, the blanked record's id is not found |
| StoreApi.DeleteTwice | src/main.rs:162-180 | a repeated delete never hits the record already blanked, and with distinct tokens it is not found |
| StoreApi.StepEvolves | src/main.rs:102-227 | one request only appends records, keeps every token, and can only blank a URL |
| StoreApi.Step | src/main.rs:102-227 | one request's effect on the store: the list grows by one exactly for a create whose log append succeeds, and a resolve changes nothing |
| StoreApi.Run | src/main.rs:90-228 | the request loop over a sequence of requests: the list grows by exactly the number of successful creates, so ids stay dense |
| StoreApi.HandleIsStep | src/main.rs:90-227 | every turn of the loop as `Handle` models it changes the store exactly as the `Op` its path stands for does under `Step`, so the results about `Run` cover the loop |
| StoreApi.RunEvolves | src/main.rs:90-228 | the same over any sequence of requests (which cover the loop by `HandleIsStep`): tokens immutable, tombstones permanent, records only appended |
| StoreApi.IdsNeverReused | src/main.rs:125-132 | after any requests, a new id names a position beyond every record that already existed; it is exactly the old length plus the number of successful creates in between |
| Durability.CreatePreservesConsistency | src/main.rs:119-132 | a create with a fresh, valid token and URL keeps the list equal to what a restart would rebuild |
| Durability.DeletePreservesConsistency | src/main.rs:173-180 | a delete keeps the list equal to what a restart would rebuild, because the journal names the blanked token |
| Durability.StepPreservesConsistency | src/main.rs:102-186 | every request kind keeps the invariant |
| Durability.RunPreservesConsistency | src/main.rs:90-228 | any run of requests keeps the invariant; by `StoreApi.HandleIsStep` this covers every turn of the loop as `Handle` models it |
| Durability.StartupConsistent | src/main.rs:32-86 | the corrected startup yields a consistent store from a log of storable records with distinct tokens |
| Durability.RestartRecoversMemory | src/main.rs:32-86 | restarting from the files of a consistent store rebuilds exactly the in-memory list, and the source's startup agrees there |
| Durability.TornTailCorruptsNextRecord | src/main.rs:45-79 | the source's startup keeps a torn last line of any length below 36; the next created line is glued to it and reads back as one record whose token is the torn text plus the front of the real token and whose URL is the rest of the token plus the real URL, so the URL never reads back, and the token differs whenever the torn text does not start like it |
| Durability.TornTailRepaired | src/main.rs:55-79 | with the corrected startup, the same create survives the restart unchanged |

## Left out

- `src/threadpool.rs`: an elastic worker pool built on mutexes, condition variables and atomics. It is a concurrency primitive that `main` does not use.
- HTTP serving and replies (`tiny_http`, `respond_with_error`, the JSON text, status codes, the `Location` header). `StoreApi.Handle` keeps the routing and the answer's content, not its JSON text, status code or headers.
- `Url::parse` and `url_parse_error_to_string`: foreign library behaviour. URL parsing is a function parameter of `Handle`, and its error detail is reduced to `InvalidUrl`. Everywhere else the URL is an opaque, already validated string. The durability results assume it is non-empty and contains no CR or LF, which holds for the url crate's serialisation.
- The resolve branch's `invalid-url` answer when `Header::from_bytes` rejects the stored URL: foreign library behaviour.
- UUID generation and parsing. New tokens are inputs, and the parser is a parameter. Fresh tokens are assumed not to collide with existing ones; this is a precondition of the preservation lemmas.
- Real file operations (`set_len`, `seek`, `BufWriter`, `flush`), crash atomicity of the in-place rewrite, and partial writes. A failed write is modelled as writing nothing, and a failed startup step as an aborted startup with no resulting store.
- Bytes and UTF-8: text is a sequence of characters, one per byte. Everything the service writes is ASCII. Two cases are not modelled: `lines()` failing on invalid UTF-8, and `split_at(36)` panicking when byte 36 falls inside a multi-byte character.
- Machine widths: `data.len() as u64` and `id as usize` are identities on a 64-bit target. `EncodeBase36` is therefore defined on every natural number, and the round trip is stated below 2^64.
- The global `mimalloc` allocator.

## Findings

| source | as written | input that shows it | evidently intended | confidence | as-written member | corrected member |
|---|---|---|---|---|---|---|
| src/main.rs:55-79 | the log is rewritten only when the journal is non-empty, so a torn last line with no line feed stays in `data.txt`; the next create's `writeln!` continues that line | log text `x` (a crash-torn fragment, no LF), empty journal; create with a valid token T and URL U; restart | short torn lines are skipped so that the next complete record reads back as (U, T) with its token | not executed; follows from the append and line-reading semantics | Durability.TornTailCorruptsNextRecord | Recovery.Startup |

`Recovery.StartupAsWritten` models the code. `Recovery.Startup` also rewrites
the log when its last line has no LF, and the durability results
(`Durability.StartupConsistent`, `Durability.RestartRecoversMemory`,
`Durability.TornTailRepaired`) are stated for it. The two agree on every log
that ends with a line feed (`Recovery.StartupAgreesOnTerminatedLog`).
