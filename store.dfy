/**
 * The storage directory and the two operations of src/main.rs that change
 * it: `maybe_prune_oldest` and `create_paste`.
 *
 * The directory is a map from file name to content. The listing that
 * `read_dir` and the regular-file and metadata filters produce is an input,
 * in the order the platform returns it.
 */
module Store {
  import opened Common
  import opened Pruning
  import Slug

  /** The configuration fields the core reads (`Args` in src/main.rs). */
  datatype Args = Args(url: string, slugLength: nat, maxPasteSize: nat, capacity: nat)

  /** The storage directory: file name to content. */
  type Directory = map<string, seq<byte>>

  /**
   * `listing` is a listing of regular files of `dir`: distinct names, each a
   * file of `dir` whose metadata length is the length of its content.
   * Entries of `dir` that are not listed (not regular files, or unreadable)
   * are never touched.
   */
  predicate Listed(dir: Directory, listing: seq<FileEntry>) {
    && DistinctNames(listing)
    && (forall i :: 0 <= i < |listing| ==> listing[i].name in dir && listing[i].size == |dir[listing[i].name]|)
  }

  /** The names of the entries of `s`. */
  function Names(s: seq<FileEntry>): set<string> {
    set i | 0 <= i < |s| :: s[i].name
  }

  /** The directory once `maybe_prune_oldest` has evicted the tail of the sorted listing. */
  function AfterPrune(dir: Directory, listing: seq<FileEntry>, newFileSize: nat, capacity: nat): Directory {
    var sorted := SortByCreated(listing);
    dir - Names(sorted[Survivors(sorted, newFileSize, capacity)..])
  }

  /**
   * How a call ends: with a value, with an I/O error (a `?` in the source),
   * or never, because the eviction loop spins.
   */
  datatype Exit<T> = Ok(value: T) | IoError | Diverges

  /** `format!("{}/{}", args.url, slug)`. */
  function PasteUrl(url: string, slug: string): string {
    url + "/" + slug
  }

  /**
   * What `create_paste` returns and the directory it leaves. `writable`
   * says whether `File::create` succeeds. An empty slug (`-n 0`) makes the
   * path the storage directory itself, which `File::create` cannot open as
   * a file, so that case always fails.
   */
  function CreateSpec(args: Args, draws: seq<nat>, dir: Directory, listing: seq<FileEntry>,
                      content: seq<byte>, writable: bool): (Exit<string>, Directory)
    requires args.slugLength <= |draws|
  {
    var slug := Slug.SlugOf(draws[..args.slugLength]);
    var pruned := AfterPrune(dir, listing, |content|, args.capacity);
    if |content| >= args.capacity then (Diverges, pruned)
    else if !writable || slug == "" then (IoError, pruned)
    else (Ok(PasteUrl(args.url, slug)), pruned[slug := content])
  }

  /** Pruning only deletes: what is left is part of the old directory, unchanged. */
  lemma AfterPruneOnlyDeletes(dir: Directory, listing: seq<FileEntry>, newFileSize: nat, capacity: nat)
    ensures var pruned := AfterPrune(dir, listing, newFileSize, capacity);
            forall name :: name in pruned ==> name in dir && pruned[name] == dir[name]
  {
  }

  /** Files outside the listing are never deleted. */
  lemma {:induction false} AfterPruneKeepsUnlisted(dir: Directory, listing: seq<FileEntry>, newFileSize: nat, capacity: nat, name: string)
    requires name in dir && name !in Names(listing)
    ensures name in AfterPrune(dir, listing, newFileSize, capacity)
  {
    var sorted := SortByCreated(listing);
    var k := Survivors(sorted, newFileSize, capacity);
    forall i | k <= i < |sorted|
      ensures sorted[i].name != name
    {
      assert sorted[i] in multiset(listing);
    }
  }

  /** With room already available, the directory is unchanged. */
  lemma {:induction false} AfterPruneUnchangedWhenRoom(dir: Directory, listing: seq<FileEntry>, newFileSize: nat, capacity: nat)
    requires SumSizes(listing) + newFileSize < capacity
    ensures AfterPrune(dir, listing, newFileSize, capacity) == dir
  {
    var sorted := SortByCreated(listing);
    SumSizesSort(listing);
    NothingEvictedWhenRoom(sorted, newFileSize, capacity);
    assert Names(sorted[|sorted|..]) == {};
  }

  /** A new file as large as the capacity evicts every listed file. */
  lemma {:induction false} AfterPruneEvictsAllWhenTooLarge(dir: Directory, listing: seq<FileEntry>, newFileSize: nat, capacity: nat)
    requires newFileSize >= capacity
    ensures AfterPrune(dir, listing, newFileSize, capacity) == dir - Names(listing)
  {
    var sorted := SortByCreated(listing);
    EverythingEvictedWhenTooLarge(sorted, newFileSize, capacity);
    assert sorted[0..] == sorted;
    forall name ensures name in Names(sorted) <==> name in Names(listing) {
      if name in Names(sorted) {
        var i :| 0 <= i < |sorted| && sorted[i].name == name;
        assert sorted[i] in multiset(listing);
      }
      if name in Names(listing) {
        var i :| 0 <= i < |listing| && listing[i].name == name;
        assert listing[i] in multiset(sorted);
      }
    }
  }

  /**
   * A successful `create_paste` returns `url/slug` with a slug of exactly
   * `slug_length` letters from `a` to `y`, and the directory then maps that
   * slug to exactly the content, whatever was stored under it before.
   */
  lemma {:induction false} CreateStoresPaste(args: Args, draws: seq<nat>, dir: Directory, listing: seq<FileEntry>,
                                             content: seq<byte>, writable: bool)
    requires args.slugLength <= |draws|
    requires CreateSpec(args, draws, dir, listing, content, writable).0.Ok?
    ensures var (r, dir') := CreateSpec(args, draws, dir, listing, content, writable);
            var slug := r.value[|args.url| + 1..];
            && args.slugLength > 0
            && |r.value| == |args.url| + 1 + args.slugLength
            && r.value[..|args.url| + 1] == args.url + "/"
            && (forall i :: 0 <= i < |slug| ==> Slug.IsSlugChar(slug[i]))
            && slug in dir' && dir'[slug] == content
  {
    var slug := Slug.SlugOf(draws[..args.slugLength]);
    var url := PasteUrl(args.url, slug);
    assert url[..|args.url| + 1] == args.url + "/";
    assert url[|args.url| + 1..] == slug;
  }

  /**
   * Nothing else changes: every other file of the directory afterwards was
   * there before with the same content, and unlisted files all survive.
   */
  lemma {:induction false} CreateChangesNothingElse(args: Args, draws: seq<nat>, dir: Directory, listing: seq<FileEntry>,
                                                    content: seq<byte>, writable: bool, name: string)
    requires args.slugLength <= |draws|
    requires name != Slug.SlugOf(draws[..args.slugLength])
    ensures var dir' := CreateSpec(args, draws, dir, listing, content, writable).1;
            && (name in dir' ==> name in dir && dir'[name] == dir[name])
            && (name in dir && name !in Names(listing) ==> name in dir' && dir'[name] == dir[name])
  {
    AfterPruneOnlyDeletes(dir, listing, |content|, args.capacity);
    if name in dir && name !in Names(listing) {
      AfterPruneKeepsUnlisted(dir, listing, |content|, args.capacity, name);
    }
  }

  /**
   * Capacity is respected by what the listing showed: after a successful
   * `create_paste`, the surviving listed files and the new paste together
   * stay below the capacity.
   */
  lemma {:induction false} CreateLeavesRoom(args: Args, draws: seq<nat>, dir: Directory, listing: seq<FileEntry>,
                                            content: seq<byte>, writable: bool)
    requires args.slugLength <= |draws|
    requires CreateSpec(args, draws, dir, listing, content, writable).0.Ok?
    ensures var sorted := SortByCreated(listing);
            SumSizes(sorted[..Survivors(sorted, |content|, args.capacity)]) + |content| < args.capacity
  {
    SurvivorsLeaveRoom(SortByCreated(listing), |content|, args.capacity);
  }

  /**
   * With `slug_length` 0 no paste is ever stored: the call hangs or fails
   * with an I/O error, and the directory is only pruned.
   */
  lemma EmptySlugNeverStores(args: Args, draws: seq<nat>, dir: Directory, listing: seq<FileEntry>,
                             content: seq<byte>, writable: bool)
    requires args.slugLength == 0
    ensures var (r, dir') := CreateSpec(args, draws, dir, listing, content, writable);
            && (r == IoError <==> |content| < args.capacity)
            && (r == Diverges <==> |content| >= args.capacity)
            && dir' == AfterPrune(dir, listing, |content|, args.capacity)
  {
  }

  /** The sorted copy of a listing of `dir` is again a listing of `dir`. */
  lemma ListedSorted(dir: Directory, listing: seq<FileEntry>)
    requires Listed(dir, listing)
    ensures Listed(dir, SortByCreated(listing))
  {
    var sorted := SortByCreated(listing);
    SortDistinct(listing);
    forall i | 0 <= i < |sorted|
      ensures sorted[i].name in dir && sorted[i].size == |dir[sorted[i].name]|
    {
      assert sorted[i] in multiset(listing);
      var p :| 0 <= p < |listing| && listing[p] == sorted[i];
    }
  }

  /**
   * Deleting the tail `s[k..]` of a listing of `dir` keeps every file of
   * the head with its listed length and removes every file of the tail.
   */
  lemma DeleteTailOfListing(dir: Directory, s: seq<FileEntry>, k: nat)
    requires Listed(dir, s) && k <= |s|
    ensures var kept := dir - Names(s[k..]);
            && (forall i :: 0 <= i < k ==> s[i].name in kept && |kept[s[i].name]| == s[i].size)
            && (forall i :: k <= i < |s| ==> s[i].name !in kept)
  {
    var evicted := Names(s[k..]);
    forall i | 0 <= i < k
      ensures s[i].name !in evicted
    {
      assert forall j :: 0 <= j < |s[k..]| ==> s[k..][j].name != s[i].name;
    }
    forall i | k <= i < |s|
      ensures s[i].name in evicted
    {
      assert s[k..][i - k] == s[i];
    }
  }

  /**
   * On the disk as described by a listing of it: after a successful
   * `create_paste`, every surviving listed file other than the slug is still
   * there with its listed length, every evicted one is gone, and the
   * survivors' lengths plus the bytes now under the slug stay below the
   * capacity.
   */
  lemma {:induction false} CreateKeepsListedFiles(args: Args, draws: seq<nat>, dir: Directory, listing: seq<FileEntry>,
                                                  content: seq<byte>, writable: bool)
    requires args.slugLength <= |draws|
    requires Listed(dir, listing)
    requires CreateSpec(args, draws, dir, listing, content, writable).0.Ok?
    ensures var sorted := SortByCreated(listing);
            var k := Survivors(sorted, |content|, args.capacity);
            var slug := Slug.SlugOf(draws[..args.slugLength]);
            var dir' := CreateSpec(args, draws, dir, listing, content, writable).1;
            && (forall i :: 0 <= i < k && sorted[i].name != slug ==>
                  sorted[i].name in dir' && |dir'[sorted[i].name]| == sorted[i].size)
            && (forall i :: k <= i < |sorted| && sorted[i].name != slug ==> sorted[i].name !in dir')
            && slug in dir' && SumSizes(sorted[..k]) + |dir'[slug]| < args.capacity
  {
    var sorted := SortByCreated(listing);
    var k := Survivors(sorted, |content|, args.capacity);
    var slug := Slug.SlugOf(draws[..args.slugLength]);
    var pruned := dir - Names(sorted[k..]);
    assert pruned == AfterPrune(dir, listing, |content|, args.capacity);
    var dir' := pruned[slug := content];
    assert CreateSpec(args, draws, dir, listing, content, writable).1 == dir';
    ListedSorted(dir, listing);
    DeleteTailOfListing(dir, sorted, k);
    CreateLeavesRoom(args, draws, dir, listing, content, writable);
    forall i | 0 <= i < |sorted| && sorted[i].name != slug
      ensures (sorted[i].name in dir' <==> sorted[i].name in pruned)
      ensures sorted[i].name in dir' ==> dir'[sorted[i].name] == pruned[sorted[i].name]
    {
    }
  }

  /** A paste at least as large as the capacity never completes: the request hangs. */
  lemma CreateHangsWhenTooLarge(args: Args, draws: seq<nat>, dir: Directory, listing: seq<FileEntry>,
                                content: seq<byte>, writable: bool)
    requires args.slugLength <= |draws|
    ensures CreateSpec(args, draws, dir, listing, content, writable).0 == Diverges <==> |content| >= args.capacity
  {
  }

  /**
   * One `Some` iteration of the eviction loop keeps its invariants: the
   * list left is a prefix of the sorted list, `total` its size, the same
   * number of survivors ahead.
   */
  lemma PopKeepsInvariant(sorted: seq<FileEntry>, remaining: seq<FileEntry>, newFileSize: nat, capacity: nat)
    requires |remaining| <= |sorted| && remaining == sorted[..|remaining|] && remaining != []
    requires SumSizes(remaining) + newFileSize >= capacity
    ensures var m := |remaining| - 1;
            && remaining[..m] == sorted[..m]
            && SumSizes(remaining) == SumSizes(remaining[..m]) + remaining[m].size
            && Survivors(remaining[..m], newFileSize, capacity) == Survivors(remaining, newFileSize, capacity)
  {
  }

  /** `dir` without the files `s[k..]`, deleted from the last one down. */
  function DeleteSuffix(dir: Directory, s: seq<FileEntry>, k: nat): Directory
    requires k <= |s|
    decreases |s| - k
  {
    if k == |s| then dir else DeleteSuffix(dir, s, k + 1) - {s[k].name}
  }

  lemma {:induction false} DeleteSuffixNames(dir: Directory, s: seq<FileEntry>, k: nat)
    requires k <= |s|
    ensures DeleteSuffix(dir, s, k) == dir - Names(s[k..])
    decreases |s| - k
  {
    if k == |s| {
      assert Names(s[k..]) == {};
    } else {
      DeleteSuffixNames(dir, s, k + 1);
      assert s[k..] == [s[k]] + s[k + 1..];
      assert Names(s[k..]) == Names(s[k + 1..]) + {s[k].name};
    }
  }

  /**
   * When the eviction loop stops, the list left is exactly the survivors, so
   * the directory is the pruned one, and the loop spun exactly when the new
   * file alone reaches the capacity.
   */
  lemma LoopExit(dir: Directory, listing: seq<FileEntry>, remaining: seq<FileEntry>,
                 newFileSize: nat, capacity: nat, spins: bool)
    requires |remaining| <= |listing|
    requires Survivors(remaining, newFileSize, capacity) == Survivors(SortByCreated(listing), newFileSize, capacity)
    requires spins ==> remaining == [] && SumSizes(remaining) + newFileSize >= capacity
    requires !spins ==> SumSizes(remaining) + newFileSize < capacity
    ensures DeleteSuffix(dir, SortByCreated(listing), |remaining|) == AfterPrune(dir, listing, newFileSize, capacity)
    ensures spins <==> newFileSize >= capacity
  {
    DeleteSuffixNames(dir, SortByCreated(listing), |remaining|);
  }

  /**
   * The loop over the sorted files that adds up their metadata lengths,
   * lines 121-125 of `maybe_prune_oldest`.
   */
  method TotalSize(files: seq<FileEntry>) returns (total: nat)
    ensures total == SumSizes(files)
  {
    total := 0;
    for i := 0 to |files|
      invariant total == SumSizes(files[..i])
    {
      assert files[..i + 1][..i] == files[..i];
      total := total + files[i].size;
    }
    assert files[..|files|] == files;
  }

  /** The storage directory on disk. */
  class PasteDir {
    var files: Directory

    constructor (files: Directory)
      ensures this.files == files
    {
      this.files := files;
    }

    /**
     * `maybe_prune_oldest`: sort the listing, sum the sizes, then pop from
     * the tail and delete while `total + newFileSize >= capacity`. The loop
     * variables are an `EvictState`, and each iteration is one `EvictStep`.
     *
     * `pop()` returns `None` only once the list is empty, and from then on
     * an iteration changes nothing: the source's loop never exits if the
     * condition still holds at that point (Pruning.NeverExits). The loop
     * below stops there instead and reports it in `spins`.
     */
    method MaybePruneOldest(listing: seq<FileEntry>, newFileSize: nat, capacity: nat) returns (spins: bool)
      modifies this
      ensures files == AfterPrune(old(files), listing, newFileSize, capacity)
      ensures spins <==> newFileSize >= capacity
    {
      var sorted := SortByCreated(listing);
      var total := TotalSize(sorted);
      var st := EvictState(sorted, total);
      while KeepsEvicting(st, newFileSize, capacity) && st.remaining != []
        invariant |st.remaining| <= |sorted| && st.remaining == sorted[..|st.remaining|]
        invariant st.total == SumSizes(st.remaining)
        invariant Survivors(st.remaining, newFileSize, capacity) == Survivors(sorted, newFileSize, capacity)
        invariant files == DeleteSuffix(old(files), sorted, |st.remaining|)
        decreases |st.remaining|
      {
        var del := st.remaining[|st.remaining| - 1];
        PopKeepsInvariant(sorted, st.remaining, newFileSize, capacity);
        assert DeleteSuffix(old(files), sorted, |st.remaining| - 1) == files - {del.name};
        assert EvictStep(st) == EvictState(st.remaining[..|st.remaining| - 1], st.total - del.size);
        files := files - {del.name};
        st := EvictStep(st);
      }
      spins := KeepsEvicting(st, newFileSize, capacity);
      LoopExit(old(files), listing, st.remaining, newFileSize, capacity, spins);
    }

    /**
     * `create_paste`: generate the slug, prune for the content's length,
     * write the content under the slug (replacing any file of that name)
     * and return `url/slug`; an empty slug names the directory, so creating
     * the file fails.
     */
    method CreatePaste(args: Args, draws: seq<nat>, listing: seq<FileEntry>, content: seq<byte>, writable: bool)
      returns (r: Exit<string>)
      requires args.slugLength <= |draws|
      modifies this
      ensures (r, files) == CreateSpec(args, draws, old(files), listing, content, writable)
    {
      var slug := Slug.RandomSlug(args.slugLength, draws);
      var spins := MaybePruneOldest(listing, |content|, args.capacity);
      if spins {
        return Diverges;
      }
      if !writable || slug == "" {
        return IoError;
      }
      files := files[slug := content];
      r := Ok(PasteUrl(args.url, slug));
    }
  }
}
