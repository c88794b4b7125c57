# Gestetner in Dafny

Gestetner is a pastebin with two front doors. A client can pipe text into a raw TCP socket, netcat style. Or it can POST a form to a small web server. Either way, the text is stored as a file under a random four-letter name and the client gets back a URL. The web server then serves that file back as plain text.

Before a paste is written, the paste directory is pruned so that the new file fits under a byte capacity. On the socket, each client is rate-limited by its address. An IPv6 client is limited by its /64 network, not by its full address.

This project models the core of that program:

- **`Slug`**: `random_slug`. A slug of `l` letters, each drawn from `b'a'..b'z'`, so the range excludes `z`.
- **`Pruning`**: the pure meaning of `maybe_prune_oldest`. This covers:
  - the stable sort of the listing by creation time, where a missing time counts as the Unix epoch;
  - the total size of the listing;
  - how many files survive the eviction loop.
- **`Store`**: the paste directory as a class, `PasteDir`, over a map from file name to bytes. Its two methods mirror the source:
  - `MaybePruneOldest` keeps the source's loop, over a sorted copy of the listing;
  - `CreatePaste` models `create_paste`.

  `CreateSpec` states what `create_paste` returns and what the directory looks like afterwards.
- **`RateLimiter`**: `normalise_ip_addr`, plus the step in `check_key` that normalises the key and then hands it to the underlying limiter. That limiter's decision is a parameter.
- **`Utf8`**: the check `String::from_utf8` makes, written as the well-formed byte sequences of RFC 3629, section 4. It comes with an encoder and proofs that the two agree. The web path uses the encoder as the bytes of a Rust `String`.
- **`Socket`**: `handle_paste`. It covers:
  - the rate-limit reply;
  - capturing at most `max_paste_size` bytes;
  - the three replies;
  - the call into `create_paste`.
- **`Http`**: the request handler installed by `serve`. It covers:
  - GET of a stored file, and 404;
  - POST of the form field `content`, and the 400 replies;
  - 405 for any other method.

  The framework's response values are modelled too: `Response::text`, `with_status_code`, `with_unique_header` (header names compare without regard to ASCII case), `empty_400` and `is_success`.

Where the code and its documentation disagree, the model follows the code:

- **Newest files are evicted first.** The doc comment on `maybe_prune_oldest` promises to delete the oldest files. The listing is sorted by creation time in ascending order, but `files.pop()` takes from the end, which is the newest file. `Pruning.EvictsNewestFirst` and `Pruning.EvictsNewerOfTwo` state this.
- **An oversized paste hangs.** When a paste is at least `capacity` bytes, the eviction loop's condition can never fail. Once the list is empty, the loop spins forever, and the paste is never written. The model represents this as the outcome `Diverges`/`Hangs`; see `Pruning.NeverExits` and `Store.CreateHangsWhenTooLarge`.
- **The web server replies 200.** A stored paste gets `Response::text`, which has status 200, not a 201 Created. The reply carries a `Location` header.
- **The web path has no limits.** It applies neither the rate limiter nor `max_paste_size`; see `Http.PostIgnoresMaxPasteSize`.
- **The eviction test includes equality.** The loop condition is `total + new_file_size >= capacity`, so a directory at exactly capacity still evicts; see `Pruning.ExactCapacityEvicts`.
- **A slug length of 0 stores nothing.** `-n 0` is accepted, but then the paste's path is the storage directory itself, and `File::create` cannot open it as a file. The socket drops the connection and the web handler panics; see `Store.EmptySlugNeverStores`, `Socket.EmptySlugDropsConnection` and `Http.StoreFailurePanics`.
- **IPv4 clients can share one bucket.** On a listener bound to `[::]`, as in the usage text, an IPv4 peer is reported as the mapped address `::ffff:a.b.c.d`. Normalisation treats that as an IPv6 address and keeps only its first 64 bits, which are zero. So every such client, and the loopback `::1`, is limited under the one key `::`; see `RateLimiter.MappedV4ClientsShareKey`.

The model covers the program's outside world as follows:

- **The random number generator** is a sequence of raw draws. `gen_range(lo..hi)` maps a draw `d` to `lo + d % (hi - lo)`. The distribution is not modelled.
- **The paste directory** is a `map<string, seq<byte>>`.
- **The directory listing** that `read_dir` yields, after filtering to regular files, is a parameter: a sequence of entries with name, size and optional creation time. `Store.Listed` states when a listing describes a directory: distinct names, each a file whose listed size is its length. `Store.CreateKeepsListedFiles` uses it to carry the capacity bound from the listing to the bytes left in the directory.
- **Whether `File::create` succeeds** is a boolean.
- **On the socket**, what the client sends is a byte sequence, and how the read ends is a `ReadEnd`: end of stream, the read timeout (surfacing as `WouldBlock`), or another error.
- **On the web side**, the request is its method, its path and the parsed form.
- **The rate limiter** is a `ClientRateLimiter` object. It records every normalised key it is asked about. Its verdict is a function of that history, supplied by the caller.

## Model

| member | source | states |
|---|---|---|
| Slug.GenRange | src/main.rs:94 | a draw mapped into `lo..hi` lands in the half-open range |
| Slug.SlugOf | src/main.rs:90-97 | the slug has one character per draw, and every character is in `a`..`y` |
| Slug.SlugOfAt | src/main.rs:93-95 | character `i` of the slug is the letter drawn on iteration `i` |
| Slug.NeverZ | src/main.rs:94 | `z` never occurs in a slug, because the range `b'a'..b'z'` excludes its upper end |
| Slug.EveryLetterReachable | src/main.rs:90-97 | every string of letters `a`..`y` is the slug of some sequence of draws |
| Slug.RandomSlug | src/main.rs:90-97 | the loop pushes `l` letters, each in `a`..`y`, letter `i` coming from draw `i`; the result is `SlugOf` of the first `l` draws |
| RateLimiter.NormaliseIpAddr | src/raterlimiter.rs:12-23 | an IPv4 key is unchanged; an IPv6 key keeps its first four segments and has the last four set to zero |
| RateLimiter.NormaliseIdempotent | src/raterlimiter.rs:13-23 | normalising a normalised key changes nothing |
| RateLimiter.NormalisePreservesFamily | src/raterlimiter.rs:14-21 | normalisation never turns a v4 key into a v6 key or back |
| RateLimiter.V4NeverSharesKeyWithV6 | src/raterlimiter.rs:14-21 | an `IpAddr::V4` value and an `IpAddr::V6` value never normalise to the same key |
| RateLimiter.MappedV4ClientsShareKey | src/raterlimiter.rs:13-23 | every IPv4-mapped address `::ffff:a.b.c.d` normalises to `::`, the key of `::1` as well |
| RateLimiter.SameKeyIffSameClient | src/raterlimiter.rs:30-39 | two addresses share a key exactly when they are the same IPv4 address or lie in the same IPv6 /64 |
| RateLimiter.LowerBitsIgnored | src/raterlimiter.rs:32-33 | the interface identifier (last 64 bits) of an IPv6 address has no effect on its key |
| RateLimiter.TruncatesIpv6 | src/raterlimiter.rs:46-51 | `2001:470:6bd2::41:1` normalises to `2001:470:6bd2::` |
| RateLimiter.ClientRateLimiter.constructor | src/raterlimiter.rs:26-28 | a new limiter wraps the given limiter and has been asked about nobody |
| RateLimiter.ClientRateLimiter.CheckKey | src/raterlimiter.rs:34-39 | the verdict is the underlying limiter's verdict on the normalised key; only normalised keys are ever recorded |
| RateLimiter.SameClientSameVerdict | src/raterlimiter.rs:30-39 | two addresses of the same client always get the same verdict |
| Utf8.Valid | src/main.rs:178 | the definition: a byte sequence is a run of well-formed characters, per the table of RFC 3629, section 4; it is tied to the encoder by Utf8.EncodeAllValid and Utf8.DecodeAll |
| Utf8.CharWidth | src/main.rs:177-178 | the width of the character at the front is at most 4 bytes and fits in the input |
| Utf8.Encode | src/main.rs:143 | a scalar value encodes to 1 to 4 bytes |
| Utf8.EncodeIsOneChar | src/main.rs:177-178 | the decoder reads the encoding of a scalar value as exactly one character |
| Utf8.EncodeAllValid | src/main.rs:177-178 | the encoding of any sequence of scalar values is accepted as UTF-8 |
| Utf8.DecodeCharEncodes | src/main.rs:177-178 | every well-formed character decodes to a scalar value whose encoding is that character's bytes |
| Utf8.DecodeAll | src/main.rs:177-178 | every accepted byte sequence is the encoding of a sequence of scalar values |
| Utf8.AsciiValid | src/main.rs:177-178 | bytes below 0x80 are always accepted |
| Utf8.EmptyValid | src/main.rs:177-181 | the empty buffer is valid UTF-8, so it reaches the `is_empty` check |
| Utf8.RejectedExamples | src/main.rs:177-178 | a lone continuation byte, an overlong form, an encoded surrogate, a value above U+10FFFF and a truncated character are all rejected |
| Utf8.CodePoints | src/main.rs:143 | a string has one scalar value per character |
| Utf8.Utf8BytesValid | src/main.rs:143 | the bytes of a string are valid UTF-8, and are empty exactly when the string is |
| Pruning.CreatedKey | src/main.rs:115-120 | the definition: the sort key is the creation instant, and a file without one sorts as the epoch |
| Pruning.Insert | src/main.rs:115-120 | inserting adds exactly one entry to the multiset of entries |
| Pruning.InsertSorted | src/main.rs:115-120 | insertion keeps a listing sorted by creation key |
| Pruning.SortByCreated | src/main.rs:115-120 | the result is a permutation of the listing, sorted by creation time, where a missing time is the epoch |
| Pruning.InsertStable | src/main.rs:115-120 | insertion keeps entries with equal keys in their original order |
| Pruning.SortStable | src/main.rs:115-120 | the sort is stable: for every key, the entries with that key keep their original order |
| Pruning.SortDistinct | src/main.rs:115-120 | sorting a listing with distinct names keeps the names distinct |
| Pruning.SumSizesInsert | src/main.rs:121-125 | inserting an entry adds exactly its size to the total |
| Pruning.SumSizesSort | src/main.rs:121-125 | sorting does not change the total size |
| Pruning.EvictStep | src/main.rs:128-133 | the definition: one iteration pops the last entry and subtracts its size, or changes nothing on an empty list; Store.PasteDir.MaybePruneOldest runs its loop by this step |
| Pruning.Survivors | src/main.rs:127-134 | the loop leaves at most as many files as were listed |
| Pruning.NeverExits | src/main.rs:127-134 | once the list is empty and the condition holds, the loop body changes nothing and the condition holds forever |
| Pruning.NothingEvictedWhenRoom | src/main.rs:127 | when the listing plus the new file is under capacity, nothing is evicted |
| Pruning.EverythingEvictedWhenTooLarge | src/main.rs:127-134 | when the new file alone reaches capacity, every listed file is evicted |
| Pruning.SurvivorsLeaveRoom | src/main.rs:127-134 | when the new file is smaller than the capacity, the survivors plus the new file are under capacity |
| Pruning.EvictionIsMinimal | src/main.rs:127-134 | the loop stops at the first point where the file fits: keeping any more files would not leave room |
| Pruning.EvictsNewestFirst | src/main.rs:115-134 | every surviving file was created no later than every evicted file |
| Pruning.EvictsNewerOfTwo | src/main.rs:99-134 | of an older and a newer file of 10 bytes, with capacity 15, the newer one is evicted, despite the doc comment |
| Pruning.ExactCapacityEvicts | src/main.rs:127 | a directory that reaches exactly the capacity with the new file still evicts |
| Store.AfterPrune | src/main.rs:99-134 | the definition: the directory without the files the loop pops from the tail of the sorted listing (Pruning.Survivors) |
| Store.PasteUrl | src/main.rs:147 | the definition: `url`, a slash, then the slug |
| Store.CreateSpec | src/main.rs:137-148 | the definition: the slug, then pruning, then a hang when the content reaches capacity, an I/O error when the file cannot be created or the slug is empty, or the file written and `url/slug` returned |
| Store.AfterPruneOnlyDeletes | src/main.rs:127-134 | pruning only deletes; what is left is unchanged |
| Store.AfterPruneKeepsUnlisted | src/main.rs:102-113 | files outside the listing (not regular files, no metadata) are never deleted |
| Store.AfterPruneUnchangedWhenRoom | src/main.rs:127 | when there is room, the directory is left as it was |
| Store.AfterPruneEvictsAllWhenTooLarge | src/main.rs:127-134 | for a new file of at least `capacity` bytes, every listed file is deleted |
| Store.CreateStoresPaste | src/main.rs:137-148 | on success, the slug length is positive, the URL is `url/slug` with a slug of `slug_length` letters `a`..`y`, and the directory maps the slug to the content |
| Store.CreateChangesNothingElse | src/main.rs:137-148 | no file other than the slug is created or changed, and unlisted files survive |
| Store.CreateLeavesRoom | src/main.rs:141-146 | on success, the surviving files plus the new paste are under capacity |
| Store.CreateKeepsListedFiles | src/main.rs:121-146 | given a true listing, after success every surviving listed file other than the slug keeps its length, every evicted one is gone, and the survivors plus the slug's bytes stay below capacity |
| Store.ListedSorted | src/main.rs:115-120 | the sorted listing of a directory is again a listing of it |
| Store.DeleteTailOfListing | src/main.rs:127-134 | deleting the tail of a listing keeps every head file with its length and removes every tail file |
| Store.EmptySlugNeverStores | src/main.rs:138-146 | with `slug_length` 0, `create_paste` hangs or fails and only prunes the directory |
| Store.CreateHangsWhenTooLarge | src/main.rs:127-146 | `create_paste` never returns exactly when the content is at least `capacity` bytes |
| Store.TotalSize | src/main.rs:121-125 | the loop sums the sizes of all listed files |
| Store.PasteDir.MaybePruneOldest | src/main.rs:99-135 | the loop over the sorted listing leaves exactly `AfterPrune` of the old directory, and it spins exactly when the new file is at least `capacity` bytes |
| Store.PasteDir.CreatePaste | src/main.rs:137-148 | result and new directory are those of `CreateSpec`: a slug, then pruning, then hang, I/O error, or the file written and the URL returned |
| Socket.Capture | src/main.rs:166-175 | exactly the first `max_paste_size` bytes are kept (all of them when fewer arrive), a prefix of what was sent; the read fails only on a non-`WouldBlock` error before the limit |
| Socket.HandleSpec | src/main.rs:150-195 | the definition: "Rate limited\n" on denial; otherwise capture, then dropped on a read error, the UTF-8 failure text, "No content", or `create_paste` with `url/slug\n`, dropped or hanging by its outcome |
| Socket.RateLimitedStoresNothing | src/main.rs:157-164 | a denied client gets exactly "Rate limited\n" and the directory is unchanged |
| Socket.RejectedBodiesStoreNothing | src/main.rs:177-192 | a body that is not UTF-8 gets the UTF-8 failure text, an empty one gets "No content", and neither changes the directory |
| Socket.OnlyValidBodiesStored | src/main.rs:157-192 | any file that is new or changed after a session is the slug, and holds the admitted, valid, non-empty captured body |
| Socket.AcceptedBodyReply | src/main.rs:180-184 | an accepted body under capacity gets `url/slug\n` back and is stored under the slug |
| Socket.EmptySlugDropsConnection | src/main.rs:180-182 | with `slug_length` 0 a body that fits is never answered: the `?` on `create_paste` drops the connection |
| Socket.HandlePaste | src/main.rs:150-195 | asks the limiter about the peer once, with the normalised key, and its reply and directory are those of `HandleSpec` |
| Http.WithUniqueHeader | src/http.rs:12 | exactly one header is called `name` (in any ASCII case), with the new value; all other headers, the status and the body are unchanged |
| Http.WithoutRemovesAll | src/http.rs:12 | once the headers called `name` are removed, none is left |
| Http.Route | src/http.rs:8-32 | the handler stores something exactly for a POST with a parsed, non-empty `content`, and what it stores is that content |
| Http.OtherMethodsRejected | src/http.rs:32 | any method other than exactly "GET" or "POST" gets 405 with no headers and no body |
| Http.GetServesStoredPaste | src/http.rs:9-13 | GET of a stored paste gives status 200, its bytes, and a single Content-Type `text/plain; charset=UTF-8` |
| Http.GetMissingIsNotFound | src/http.rs:13-15 | GET of anything else gives 404 with the plain-text body "Not Found" |
| Http.RejectedPostsAre400 | src/http.rs:17-30 | a form that does not parse gets `try_or_400!`'s JSON error, empty content gets the plain-text "No content"; both are 400 and store nothing |
| Http.PostThenGet | src/http.rs:17-27 | a fitting POST replies 200 with `Location: url/slug` and body `url/slug\n`; a later GET of the slug serves the content's UTF-8 bytes |
| Http.PostIgnoresMaxPasteSize | src/http.rs:17-31 | the outcome of a request does not depend on `max_paste_size` |
| Http.StoreFailurePanics | src/http.rs:22-23 | a paste whose file cannot be created, and with `slug_length` 0 every paste that fits, makes `expect` panic |
| Http.ServeSpec | src/http.rs:8-33 | the definition: the route's response, or for a persisted POST `create_paste` with the reply `url/slug\n` and `Location`, a panic on its error, a hang while pruning |
| Http.Serve | src/http.rs:8-33 | the method routes by Http.Route and calls `create_paste` for a non-empty POST; its response and the directory afterwards are those of `ServeSpec` |

## Left out

- `parse_args`, `HELP`, `Args::url_host` and `main`: argument parsing, logging and thread start-up are outside the core.
- `main` calls `http::serve` with two arguments (`src/main.rs:216`), but `serve` takes one; the model follows the one-argument handler, which has no rate limiter.
- Concurrency: connections run on their own threads. Two pastes racing on pruning, or drawing the same slug, are not modelled; each call is modelled alone.
- The underlying rate limiter (the `governor` crate's keyed GCRA limiter) and its clock: its verdict is a caller-supplied function of the keys seen and the time.
- The random number generator's distribution: only which letters each draw can produce is modelled.
- How the platform reports a peer address: the peer is a parameter, so whether an IPv4 client arrives as `IpAddr::V4` or as a mapped IPv6 address is not modelled; RateLimiter.MappedV4ClientsShareKey states what happens in the mapped case.
- Socket details: the `set_read_timeout` call cannot fail in the model, a reply written back never fails, and `peer_addr().unwrap()` never panics.
- The `read_dir`, `file_type` and `metadata` calls: the listing they yield is a parameter, and a file's size and creation time cannot change between two calls.
- Failures of `remove_file` (which panics through `expect`) and partial writes from `write_all`: a created file either holds the whole paste or creation fails before any file exists.
- Store.PasteDir.MaybePruneOldest: the `u64` sums are unbounded integers, so a total that overflows, and the panic that brings in debug builds, are not modelled; neither is the subtraction underflow that a file changing size between the two metadata calls could cause.
- The web framework's internals are not part of this model:
  - Http.MatchAssets: `match_assets` is reduced to "path `/name` names a stored paste". It covers no subdirectories, no percent-decoding, no path filtering and no cache headers. Nor does it cover `with_etag` revalidation: a GET whose `If-None-Match` matches gets 304 with an empty body, which still counts as success, so the handler adds its Content-Type to it. `Request` carries no headers, so the model cannot express this.
  - Http.BadRequest: the JSON error body of `try_or_400!` is an opaque string.
  - form parsing: `post_input!` is abstracted as its result.
  - what the server sends after a handler panics is not modelled.
- Http.WithUniqueHeader: the position of the replaced header in the header list is not modelled; the new header is appended.
- The landing page implied by `Args::url_host` is not part of the handler; the handler has no route for it.
