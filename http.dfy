/**
 * The request handler `serve` installs (src/http.rs): GET serves a stored
 * paste as plain text, POST stores the form field `content` as a new
 * paste, and every other method gets 405.
 *
 * The web framework's responses are modelled as values: a status code, a
 * list of headers and a body of bytes. Parsing the form and looking up the
 * asset file stand for the framework's own code.
 */
module Http {
  import opened Common
  import Utf8
  import Slug
  import opened Pruning
  import opened Store

  datatype Header = Header(name: string, value: string)
  datatype Response = Response(status: nat, headers: seq<Header>, body: seq<byte>)

  /** The Content-Type of `Response::text` and the one GET forces on assets. */
  const TextPlain: string := "text/plain; charset=utf-8"
  const TextPlainUpper: string := "text/plain; charset=UTF-8"

  /** `Response::text(body)`: 200, a plain-text Content-Type, the UTF-8 bytes of `body`. */
  function Text(body: string): Response {
    Response(200, [Header("Content-Type", TextPlain)], Utf8.Utf8Bytes(body))
  }

  /** `Response::empty_400()`: 400, no headers, no body. */
  function Empty400(): Response {
    Response(400, [], [])
  }

  /** `.with_status_code(code)`. */
  function WithStatusCode(r: Response, code: nat): Response {
    r.(status := code)
  }

  /** `is_success()`: a status in [200, 400). */
  predicate IsSuccess(r: Response) {
    200 <= r.status < 400
  }

  function LowerAscii(c: char): char {
    if 'A' <= c <= 'Z' then (c as int + 32) as char else c
  }

  /** Header names compare without regard to ASCII case. */
  predicate SameHeaderName(a: string, b: string) {
    |a| == |b| && forall i :: 0 <= i < |a| ==> LowerAscii(a[i]) == LowerAscii(b[i])
  }

  /** The values of the headers called `name`, in order. */
  function ValuesOf(hs: seq<Header>, name: string): seq<string> {
    if hs == [] then []
    else ValuesOf(hs[..|hs| - 1], name) + (if SameHeaderName(hs[|hs| - 1].name, name) then [hs[|hs| - 1].value] else [])
  }

  /** The headers not called `name`. */
  function Without(hs: seq<Header>, name: string): seq<Header> {
    if hs == [] then []
    else Without(hs[..|hs| - 1], name) + (if SameHeaderName(hs[|hs| - 1].name, name) then [] else [hs[|hs| - 1]])
  }

  lemma {:induction false} ValuesOfConcat(a: seq<Header>, b: seq<Header>, name: string)
    ensures ValuesOf(a + b, name) == ValuesOf(a, name) + ValuesOf(b, name)
    decreases |b|
  {
    if b == [] {
      assert a + b == a;
    } else {
      assert (a + b)[..|a + b| - 1] == a + b[..|b| - 1];
      ValuesOfConcat(a, b[..|b| - 1], name);
    }
  }

  lemma {:induction false} WithoutConcat(a: seq<Header>, b: seq<Header>, name: string)
    ensures Without(a + b, name) == Without(a, name) + Without(b, name)
    decreases |b|
  {
    if b == [] {
      assert a + b == a;
    } else {
      assert (a + b)[..|a + b| - 1] == a + b[..|b| - 1];
      WithoutConcat(a, b[..|b| - 1], name);
    }
  }

  /** Once the headers called `name` are gone, none is left and removing them again changes nothing. */
  lemma {:induction false} WithoutRemovesAll(hs: seq<Header>, name: string)
    ensures ValuesOf(Without(hs, name), name) == []
    ensures Without(Without(hs, name), name) == Without(hs, name)
    decreases |hs|
  {
    if hs != [] {
      var init, last := hs[..|hs| - 1], hs[|hs| - 1];
      WithoutRemovesAll(init, name);
      if !SameHeaderName(last.name, name) {
        assert [last][..0] == [];
        assert Without(hs, name) == Without(init, name) + [last];
        assert ValuesOf([last], name) == [];
        ValuesOfConcat(Without(init, name), [last], name);
        WithoutConcat(Without(init, name), [last], name);
      } else {
        assert Without(hs, name) == Without(init, name) + [];
        assert Without(init, name) + [] == Without(init, name);
      }
    }
  }

  /**
   * `.with_unique_header(name, value)`: afterwards exactly one header is
   * called `name` (in any ASCII case) and it carries `value`; every other
   * header, the status and the body are as before.
   */
  function WithUniqueHeader(r: Response, name: string, value: string): (r': Response)
    ensures r'.status == r.status && r'.body == r.body
    ensures ValuesOf(r'.headers, name) == [value]
    ensures Without(r'.headers, name) == Without(r.headers, name)
  {
    var kept := Without(r.headers, name);
    WithoutRemovesAll(r.headers, name);
    ValuesOfConcat(kept, [Header(name, value)], name);
    WithoutConcat(kept, [Header(name, value)], name);
    assert [Header(name, value)][..0] == [];
    Response(r.status, kept + [Header(name, value)], r.body)
  }

  /**
   * `match_assets(request, &file_path)` for a request path `/<name>`: the
   * file's bytes with status 200 when `<name>` is a paste, `empty_404`
   * otherwise. Slugs have no extension, so the guessed type is the generic
   * one.
   */
  function MatchAssets(dir: Directory, path: string): Response {
    if |path| > 0 && path[0] == '/' && path[1..] in dir
    then Response(200, [Header("Content-Type", "application/octet-stream")], dir[path[1..]])
    else Response(404, [], [])
  }

  /**
   * The outcome of `post_input!` for the field `content`: the text of the
   * field, or the JSON error body `try_or_400!` sends back.
   */
  datatype FormInput = Parsed(content: string) | ParseFailed(errorJson: string)

  datatype Request = Request(verb: string, path: string, form: FormInput)

  /** `try_or_400!`'s reply to a form that does not parse. */
  function BadRequest(errorJson: string): Response {
    Response(400, [Header("Content-Type", "application/json")], Utf8.Utf8Bytes(errorJson))
  }

  /** What the handler decides before it touches the store. */
  datatype Action = Respond(response: Response) | Persist(content: string)

  /**
   * The dispatch closure of `serve`: GET serves the asset as plain text or
   * answers 404, POST persists non-empty content or answers 400, any other
   * method answers 405.
   */
  function Route(req: Request, dir: Directory): (a: Action)
    ensures a.Persist? <==> req.verb == "POST" && req.form.Parsed? && req.form.content != ""
    ensures a.Persist? ==> a.content == req.form.content
  {
    if req.verb == "GET" then
      var response := MatchAssets(dir, req.path);
      if IsSuccess(response) then Respond(WithUniqueHeader(response, "Content-Type", TextPlainUpper))
      else Respond(WithStatusCode(Text("Not Found"), 404))
    else if req.verb == "POST" then
      match req.form
      case ParseFailed(errorJson) => Respond(BadRequest(errorJson))
      case Parsed(content) =>
        if content != "" then Persist(content)
        else Respond(WithStatusCode(Text("No content"), 400))
    else Respond(WithStatusCode(Empty400(), 405))
  }

  /** The reply to a stored paste: its URL and a newline, with `Location: url`. */
  function Created(url: string): Response {
    WithUniqueHeader(Text(url + "\n"), "Location", url)
  }

  /**
   * How one request ends: with a response, with the panic of
   * `expect("Failed to create paste")`, or never, when pruning spins.
   */
  datatype Handled = Returns(response: Response) | Panics | Hangs

  function ServeSpec(args: Args, req: Request, draws: seq<nat>, dir: Directory,
                     listing: seq<FileEntry>, writable: bool): (Handled, Directory)
    requires args.slugLength <= |draws|
  {
    match Route(req, dir)
    case Respond(response) => (Returns(response), dir)
    case Persist(content) =>
      var (r, dir') := CreateSpec(args, draws, dir, listing, Utf8.Utf8Bytes(content), writable);
      match r
      case Ok(url) => (Returns(Created(url)), dir')
      case IoError => (Panics, dir')
      case Diverges => (Hangs, dir')
  }

  /** Any method other than GET and POST (compared exactly) gets 405 with no headers and no body. */
  lemma OtherMethodsRejected(req: Request, dir: Directory)
    requires req.verb != "GET" && req.verb != "POST"
    ensures Route(req, dir) == Respond(Response(405, [], []))
  {
  }

  /**
   * GET of a stored paste serves its bytes with status 200 and a single
   * Content-Type, "text/plain; charset=UTF-8".
   */
  lemma GetServesStoredPaste(dir: Directory, name: string, form: FormInput)
    requires name in dir
    ensures var a := Route(Request("GET", "/" + name, form), dir);
            && a.Respond? && a.response.status == 200 && a.response.body == dir[name]
            && ValuesOf(a.response.headers, "Content-Type") == [TextPlainUpper]
  {
    assert ("/" + name)[1..] == name;
  }

  /** GET of anything else is 404 with the plain-text body "Not Found". */
  lemma GetMissingIsNotFound(dir: Directory, path: string, form: FormInput)
    requires !(|path| > 0 && path[0] == '/' && path[1..] in dir)
    ensures var a := Route(Request("GET", path, form), dir);
            && a.Respond? && a.response.status == 404
            && a.response.body == Utf8.Utf8Bytes("Not Found")
            && ValuesOf(a.response.headers, "Content-Type") == [TextPlain]
  {
    assert !IsSuccess(MatchAssets(dir, path));
    var r := WithStatusCode(Text("Not Found"), 404);
    assert Route(Request("GET", path, form), dir) == Respond(r);
    assert ValuesOf(r.headers, "Content-Type") == [TextPlain] by {
      var h := Header("Content-Type", TextPlain);
      assert r.headers == [h] && [h][..0] == [];
      assert SameHeaderName(h.name, "Content-Type");
    }
  }

  /**
   * A POST whose form does not parse gets `try_or_400!`'s JSON error, one
   * whose content is empty gets the plain-text "No content"; both are 400
   * and store nothing.
   */
  lemma RejectedPostsAre400(args: Args, req: Request, draws: seq<nat>, dir: Directory,
                            listing: seq<FileEntry>, writable: bool)
    requires args.slugLength <= |draws|
    requires req.verb == "POST" && (req.form.ParseFailed? || req.form.content == "")
    ensures var (h, dir') := ServeSpec(args, req, draws, dir, listing, writable);
            && h.Returns? && h.response.status == 400 && dir' == dir
            && (req.form.ParseFailed? ==> h.response == BadRequest(req.form.errorJson))
            && (req.form.Parsed? ==>
                  h.response.body == Utf8.Utf8Bytes("No content")
                  && ValuesOf(h.response.headers, "Content-Type") == [TextPlain])
  {
  }

  /**
   * Storing then fetching: a POST of non-empty `content` that fits replies
   * with status 200 (not a 201), `Location: url/slug` and `url/slug\n` as
   * its body, and a later GET of `/slug` serves the UTF-8 bytes of
   * `content`.
   */
  lemma {:induction false} PostThenGet(args: Args, content: string, path: string, draws: seq<nat>,
                                       dir: Directory, listing: seq<FileEntry>, form: FormInput)
    requires 0 < args.slugLength <= |draws|
    requires content != "" && |Utf8.Utf8Bytes(content)| < args.capacity
    ensures var slug := Slug.SlugOf(draws[..args.slugLength]);
            var url := PasteUrl(args.url, slug);
            var (h, dir') := ServeSpec(args, Request("POST", path, Parsed(content)), draws, dir, listing, true);
            && h == Returns(Created(url))
            && h.response.status == 200
            && ValuesOf(h.response.headers, "Location") == [url]
            && h.response.body == Utf8.Utf8Bytes(url + "\n")
            && var get := Route(Request("GET", "/" + slug, form), dir');
               get.Respond? && get.response.status == 200 && get.response.body == Utf8.Utf8Bytes(content)
  {
    var slug := Slug.SlugOf(draws[..args.slugLength]);
    CreateStoresPaste(args, draws, dir, listing, Utf8.Utf8Bytes(content), true);
    var dir' := ServeSpec(args, Request("POST", path, Parsed(content)), draws, dir, listing, true).1;
    GetServesStoredPaste(dir', slug, form);
  }

  /**
   * The web path applies neither the rate limiter nor `max_paste_size`:
   * its outcome is the same whatever the size limit.
   */
  lemma PostIgnoresMaxPasteSize(args: Args, maxPasteSize: nat, req: Request, draws: seq<nat>,
                                dir: Directory, listing: seq<FileEntry>, writable: bool)
    requires args.slugLength <= |draws|
    ensures ServeSpec(args.(maxPasteSize := maxPasteSize), req, draws, dir, listing, writable)
         == ServeSpec(args, req, draws, dir, listing, writable)
  {
  }

  /**
   * A paste whose file cannot be created makes the handler panic; with
   * `slug_length` 0 that is every paste that fits.
   */
  lemma StoreFailurePanics(args: Args, content: string, path: string, draws: seq<nat>,
                           dir: Directory, listing: seq<FileEntry>, writable: bool)
    requires args.slugLength <= |draws|
    requires content != "" && |Utf8.Utf8Bytes(content)| < args.capacity
    requires !writable || args.slugLength == 0
    ensures ServeSpec(args, Request("POST", path, Parsed(content)), draws, dir, listing, writable).0 == Panics
  {
  }

  /**
   * The handler: route the request; a POST with content creates the paste
   * and answers with its URL, panics when `create_paste` fails, or hangs
   * while pruning.
   */
  method Serve(args: Args, pastes: PasteDir, req: Request, draws: seq<nat>,
               listing: seq<FileEntry>, writable: bool) returns (h: Handled)
    requires args.slugLength <= |draws|
    modifies pastes
    ensures (h, pastes.files) == ServeSpec(args, req, draws, old(pastes.files), listing, writable)
  {
    match Route(req, pastes.files)
    case Respond(response) =>
      h := Returns(response);
    case Persist(content) =>
      var r := pastes.CreatePaste(args, draws, listing, Utf8.Utf8Bytes(content), writable);
      match r
      case Ok(url) => h := Returns(Created(url));
      case IoError => h := Panics;
      case Diverges => h := Hangs;
  }
}
