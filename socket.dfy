/**
 * `handle_paste` (src/main.rs): one connection on the raw paste socket.
 *
 * The socket is replaced by what it delivers: the bytes the client sends
 * and how the read ends (end of stream, the read timeout, which surfaces as
 * `WouldBlock`, or another I/O error). Writes to the socket always
 * succeed; a session ends with the text written back, with the connection
 * dropped before any reply, or never.
 */
module Socket {
  import opened Common
  import Utf8
  import Slug
  import opened RateLimiter
  import opened Pruning
  import opened Store

  /** How the read of the request body ends. */
  datatype ReadEnd = Eof | WouldBlock | Failed

  /** The replies written back to the client. */
  const RateLimitedReply: string := "Rate limited\n"
  const NotUtf8Reply: string := "Failed to parse paste as UTF-8"
  const NoContentReply: string := "No content"

  /** How a session ends. */
  datatype Session = Replied(message: string) | Dropped | Hangs

  /**
   * `rx.take(max_paste_size).read_to_end(&mut buffer)` with the error check
   * after it: the captured buffer, or `None` when the read failed with an
   * error other than `WouldBlock` before the limit was reached.
   */
  function Capture(received: seq<byte>, end: ReadEnd, maxPasteSize: nat): (buffer: Option<seq<byte>>)
    ensures buffer.None? <==> |received| < maxPasteSize && end == Failed
    ensures buffer.Some? ==> |buffer.value| <= maxPasteSize && buffer.value <= received
    ensures buffer.Some? ==> |buffer.value| == if |received| < maxPasteSize then |received| else maxPasteSize
    ensures buffer.Some? && |received| <= maxPasteSize ==> buffer.value == received
  {
    if |received| >= maxPasteSize then Some(received[..maxPasteSize])
    else if end == Failed then None
    else Some(received)
  }

  /**
   * What `handle_paste` writes back and the directory it leaves, given the
   * limiter's verdict, the bytes received and how the read ended, the draws
   * for the slug, the directory listing and whether the file can be created.
   */
  function HandleSpec(args: Args, admitted: bool, received: seq<byte>, end: ReadEnd,
                      draws: seq<nat>, dir: Directory, listing: seq<FileEntry>, writable: bool): (Session, Directory)
    requires args.slugLength <= |draws|
  {
    if !admitted then (Replied(RateLimitedReply), dir)
    else match Capture(received, end, args.maxPasteSize)
      case None => (Dropped, dir)
      case Some(buffer) =>
        if !Utf8.Valid(buffer) then (Replied(NotUtf8Reply), dir)
        else if buffer == [] then (Replied(NoContentReply), dir)
        else
          var (r, dir') := CreateSpec(args, draws, dir, listing, buffer, writable);
          match r
          case Ok(url) => (Replied(url + "\n"), dir')
          case IoError => (Dropped, dir')
          case Diverges => (Hangs, dir')
  }

  /** A denied client gets exactly "Rate limited\n" and nothing is stored. */
  lemma RateLimitedStoresNothing(args: Args, received: seq<byte>, end: ReadEnd,
                                 draws: seq<nat>, dir: Directory, listing: seq<FileEntry>, writable: bool)
    requires args.slugLength <= |draws|
    ensures HandleSpec(args, false, received, end, draws, dir, listing, writable) == (Replied(RateLimitedReply), dir)
  {
  }

  /**
   * The replies that store nothing: a body that is not UTF-8 and an empty
   * body leave the directory as it was.
   */
  lemma RejectedBodiesStoreNothing(args: Args, received: seq<byte>, end: ReadEnd,
                                   draws: seq<nat>, dir: Directory, listing: seq<FileEntry>, writable: bool)
    requires args.slugLength <= |draws|
    requires Capture(received, end, args.maxPasteSize).Some?
    ensures var buffer := Capture(received, end, args.maxPasteSize).value;
            var (session, dir') := HandleSpec(args, true, received, end, draws, dir, listing, writable);
            && (!Utf8.Valid(buffer) ==> session == Replied(NotUtf8Reply) && dir' == dir)
            && (buffer == [] ==> session == Replied(NoContentReply) && dir' == dir)
  {
    Utf8.EmptyValid();
  }

  /**
   * Only a well-formed, non-empty body of at most `max_paste_size` bytes is
   * ever stored, and it is stored exactly: any file that is new or changed
   * afterwards holds that body.
   */
  lemma {:induction false} OnlyValidBodiesStored(args: Args, admitted: bool, received: seq<byte>, end: ReadEnd,
                                                 draws: seq<nat>, dir: Directory, listing: seq<FileEntry>, writable: bool,
                                                 name: string)
    requires args.slugLength <= |draws|
    requires var dir' := HandleSpec(args, admitted, received, end, draws, dir, listing, writable).1;
             name in dir' && (name !in dir || dir'[name] != dir[name])
    ensures var buffer := Capture(received, end, args.maxPasteSize);
            var dir' := HandleSpec(args, admitted, received, end, draws, dir, listing, writable).1;
            && admitted && buffer.Some? && Utf8.Valid(buffer.value) && buffer.value != []
            && |buffer.value| <= args.maxPasteSize
            && name == Slug.SlugOf(draws[..args.slugLength]) && dir'[name] == buffer.value
  {
    var buffer := Capture(received, end, args.maxPasteSize);
    if admitted && buffer.Some? && Utf8.Valid(buffer.value) && buffer.value != [] {
      if name != Slug.SlugOf(draws[..args.slugLength]) {
        CreateChangesNothingElse(args, draws, dir, listing, buffer.value, writable, name);
      }
    }
  }

  /**
   * An accepted body that fits gets `url/slug` and a newline back, and the
   * directory maps the slug to exactly the body (for a non-empty slug; see
   * Store.EmptySlugNeverStores and EmptySlugDropsConnection).
   */
  lemma AcceptedBodyReply(args: Args, received: seq<byte>, end: ReadEnd,
                          draws: seq<nat>, dir: Directory, listing: seq<FileEntry>)
    requires 0 < args.slugLength <= |draws|
    requires var buffer := Capture(received, end, args.maxPasteSize);
             buffer.Some? && Utf8.Valid(buffer.value) && buffer.value != [] && |buffer.value| < args.capacity
    ensures var buffer := Capture(received, end, args.maxPasteSize).value;
            var slug := Slug.SlugOf(draws[..args.slugLength]);
            var (session, dir') := HandleSpec(args, true, received, end, draws, dir, listing, true);
            && session == Replied(args.url + "/" + slug + "\n")
            && slug in dir' && dir'[slug] == buffer
  {
  }

  /**
   * With `slug_length` 0 an accepted body that fits is never stored: the
   * file cannot be created, so the connection is dropped without a reply.
   */
  lemma EmptySlugDropsConnection(args: Args, received: seq<byte>, end: ReadEnd,
                                 draws: seq<nat>, dir: Directory, listing: seq<FileEntry>, writable: bool)
    requires args.slugLength == 0
    requires var buffer := Capture(received, end, args.maxPasteSize);
             buffer.Some? && Utf8.Valid(buffer.value) && buffer.value != [] && |buffer.value| < args.capacity
    ensures HandleSpec(args, true, received, end, draws, dir, listing, writable).0 == Dropped
  {
  }

  /**
   * `handle_paste`: ask the limiter about the peer, reply "Rate limited\n"
   * on denial; otherwise capture at most `max_paste_size` bytes, reply with
   * the UTF-8 failure text or "No content", or create the paste and reply
   * with its URL and a newline.
   */
  method HandlePaste(args: Args, limiter: ClientRateLimiter, store: PasteDir, peer: IpAddr, now: nat,
                     received: seq<byte>, end: ReadEnd, draws: seq<nat>, listing: seq<FileEntry>, writable: bool)
    returns (session: Session)
    requires limiter.Valid()
    requires args.slugLength <= |draws|
    modifies limiter, store
    ensures limiter.Valid()
    ensures limiter.consulted == old(limiter.consulted) + [Query(NormaliseIpAddr(peer), now)]
    ensures var admitted := limiter.governor(old(limiter.consulted), Query(NormaliseIpAddr(peer), now));
            (session, store.files) == HandleSpec(args, admitted, received, end, draws, old(store.files), listing, writable)
  {
    var admitted := limiter.CheckKey(peer, now);
    if !admitted {
      return Replied(RateLimitedReply);
    }
    var read := Capture(received, end, args.maxPasteSize);
    if read.None? {
      return Dropped;
    }
    var buffer := read.value;
    if !Utf8.Valid(buffer) {
      return Replied(NotUtf8Reply);
    }
    if buffer == [] {
      return Replied(NoContentReply);
    }
    var r := store.CreatePaste(args, draws, listing, buffer, writable);
    match r
    case Ok(url) => session := Replied(url + "\n");
    case IoError => session := Dropped;
    case Diverges => session := Hangs;
  }
}
