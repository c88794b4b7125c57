/**
 * The pure part of `maybe_prune_oldest` (src/main.rs): how the listed files
 * are ordered, what they add up to, and how many of them the eviction loop
 * leaves in place.
 *
 * The loop pops from the TAIL of a list sorted by ascending creation time,
 * so it evicts the newest files first, and it keeps going while
 * `total + new_file_size >= capacity`, so reaching the capacity exactly
 * still evicts.
 */
module Pruning {
  import opened Common

  /**
   * A regular file of the storage directory as the listing sees it: its
   * name, its length from metadata, and its creation instant, measured
   * from the Unix epoch in the platform's resolution, when the platform
   * reports one.
   */
  datatype FileEntry = FileEntry(name: string, size: nat, created: Option<int>)

  /** The sort key: a creation time that cannot be read counts as `UNIX_EPOCH`. */
  function CreatedKey(f: FileEntry): int {
    match f.created
    case Some(t) => t
    case None => 0
  }

  /** Ascending by creation key. */
  predicate SortedByCreated(s: seq<FileEntry>) {
    forall i, j :: 0 <= i < j < |s| ==> CreatedKey(s[i]) <= CreatedKey(s[j])
  }

  /** Every entry of `s` has a key of at least `t`. */
  predicate KeysAtLeast(s: seq<FileEntry>, t: int) {
    forall i :: 0 <= i < |s| ==> t <= CreatedKey(s[i])
  }

  /** Puts `f` before the first entry whose key is not smaller than its own. */
  function Insert(f: FileEntry, s: seq<FileEntry>): (r: seq<FileEntry>)
    ensures |r| == |s| + 1
    ensures multiset(r) == multiset(s) + multiset{f}
  {
    if s == [] || CreatedKey(f) <= CreatedKey(s[0]) then [f] + s
    else
      assert s == [s[0]] + s[1..];
      [s[0]] + Insert(f, s[1..])
  }

  lemma {:induction false} InsertKeysAtLeast(f: FileEntry, s: seq<FileEntry>, t: int)
    requires KeysAtLeast(s, t) && t <= CreatedKey(f)
    ensures KeysAtLeast(Insert(f, s), t)
  {
    if !(s == [] || CreatedKey(f) <= CreatedKey(s[0])) {
      InsertKeysAtLeast(f, s[1..], t);
    }
  }

  /** Inserting into a sorted list keeps it sorted. */
  lemma {:induction false} InsertSorted(f: FileEntry, s: seq<FileEntry>)
    requires SortedByCreated(s)
    ensures SortedByCreated(Insert(f, s))
  {
    if s == [] || CreatedKey(f) <= CreatedKey(s[0]) {
    } else {
      InsertSorted(f, s[1..]);
      InsertKeysAtLeast(f, s[1..], CreatedKey(s[0]));
    }
  }

  /**
   * `files.sort_by_key(created or UNIX_EPOCH)`: a stable sort, written as an
   * insertion sort.
   */
  function SortByCreated(s: seq<FileEntry>): (r: seq<FileEntry>)
    ensures |r| == |s|
    ensures SortedByCreated(r)
    ensures multiset(r) == multiset(s)
  {
    if s == [] then []
    else
      assert s == [s[0]] + s[1..];
      InsertSorted(s[0], SortByCreated(s[1..]));
      Insert(s[0], SortByCreated(s[1..]))
  }

  /** No two entries share a name. */
  predicate DistinctNames(s: seq<FileEntry>) {
    forall i, j :: 0 <= i < j < |s| ==> s[i].name != s[j].name
  }

  /** Putting an entry under a new name in front keeps the names distinct. */
  lemma PrependDistinct(x: FileEntry, s: seq<FileEntry>)
    requires DistinctNames(s) && forall i :: 0 <= i < |s| ==> s[i].name != x.name
    ensures DistinctNames([x] + s)
  {
    var r := [x] + s;
    assert forall j :: 0 < j < |r| ==> r[j] == s[j - 1];
  }

  /** Every entry of `Insert(f, s)` is `f` or an entry of `s`. */
  lemma InsertFrom(f: FileEntry, s: seq<FileEntry>, j: nat)
    requires j < |Insert(f, s)|
    ensures Insert(f, s)[j] == f || exists p :: 0 <= p < |s| && s[p] == Insert(f, s)[j]
  {
    var r := Insert(f, s);
    assert r[j] in multiset(r);
  }

  /** Inserting an entry under a new name keeps the names distinct. */
  lemma {:induction false} InsertDistinct(f: FileEntry, s: seq<FileEntry>)
    requires DistinctNames(s) && forall i :: 0 <= i < |s| ==> s[i].name != f.name
    ensures DistinctNames(Insert(f, s))
  {
    if s == [] || CreatedKey(f) <= CreatedKey(s[0]) {
      PrependDistinct(f, s);
    } else {
      var tail := s[1..];
      assert DistinctNames(tail);
      InsertDistinct(f, tail);
      var ins := Insert(f, tail);
      forall j | 0 <= j < |ins|
        ensures ins[j].name != s[0].name
      {
        InsertFrom(f, tail, j);
        if ins[j] != f {
          var p :| 0 <= p < |tail| && tail[p] == ins[j];
          assert s[p + 1] == ins[j];
        }
      }
      PrependDistinct(s[0], ins);
    }
  }

  /** Sorting keeps the names distinct. */
  lemma {:induction false} SortDistinct(s: seq<FileEntry>)
    requires DistinctNames(s)
    ensures DistinctNames(SortByCreated(s))
  {
    if s != [] {
      var tail := s[1..];
      assert DistinctNames(tail);
      SortDistinct(tail);
      var sortedTail := SortByCreated(tail);
      forall i | 0 <= i < |sortedTail|
        ensures sortedTail[i].name != s[0].name
      {
        assert sortedTail[i] in multiset(sortedTail);
        var p :| 0 <= p < |tail| && tail[p] == sortedTail[i];
        assert s[p + 1] == sortedTail[i];
      }
      InsertDistinct(s[0], sortedTail);
    }
  }

  /** The entries of `s` whose creation key is `t`, in their order in `s`. */
  function WithKey(s: seq<FileEntry>, t: int): seq<FileEntry> {
    if s == [] then []
    else (if CreatedKey(s[0]) == t then [s[0]] else []) + WithKey(s[1..], t)
  }

  lemma {:induction false} InsertStable(f: FileEntry, s: seq<FileEntry>, t: int)
    ensures WithKey(Insert(f, s), t) == (if CreatedKey(f) == t then [f] else []) + WithKey(s, t)
  {
    if s == [] || CreatedKey(f) <= CreatedKey(s[0]) {
      assert ([f] + s)[1..] == s;
    } else {
      var r := [s[0]] + Insert(f, s[1..]);
      assert r[0] == s[0] && r[1..] == Insert(f, s[1..]);
      InsertStable(f, s[1..], t);
      var head := if CreatedKey(s[0]) == t then [s[0]] else [];
      var mid := if CreatedKey(f) == t then [f] else [];
      assert WithKey(s, t) == head + WithKey(s[1..], t);
      assert WithKey(r, t) == head + (mid + WithKey(s[1..], t));
      assert head == [] || mid == [];
      assert head + (mid + WithKey(s[1..], t)) == mid + (head + WithKey(s[1..], t));
    }
  }

  /** The sort is stable: entries with equal keys keep their listing order. */
  lemma {:induction false} SortStable(s: seq<FileEntry>, t: int)
    ensures WithKey(SortByCreated(s), t) == WithKey(s, t)
  {
    if s != [] {
      SortStable(s[1..], t);
      InsertStable(s[0], SortByCreated(s[1..]), t);
    }
  }

  /** The sum of the sizes of the entries of `s`. */
  function SumSizes(s: seq<FileEntry>): nat {
    if s == [] then 0 else SumSizes(s[..|s| - 1]) + s[|s| - 1].size
  }

  lemma {:induction false} SumSizesConcat(a: seq<FileEntry>, b: seq<FileEntry>)
    ensures SumSizes(a + b) == SumSizes(a) + SumSizes(b)
    decreases |b|
  {
    if b == [] {
      assert a + b == a;
    } else {
      var b' := b[..|b| - 1];
      assert (a + b)[..|a + b| - 1] == a + b';
      SumSizesConcat(a, b');
    }
  }

  lemma {:induction false} SumSizesInsert(f: FileEntry, s: seq<FileEntry>)
    ensures SumSizes(Insert(f, s)) == f.size + SumSizes(s)
  {
    if s == [] || CreatedKey(f) <= CreatedKey(s[0]) {
      SumSizesConcat([f], s);
      assert SumSizes([f]) == SumSizes([]) + f.size;
    } else {
      SumSizesInsert(f, s[1..]);
      SumSizesConcat([s[0]], Insert(f, s[1..]));
      SumSizesConcat([s[0]], s[1..]);
      assert [s[0]] + s[1..] == s;
      assert SumSizes([s[0]]) == SumSizes([]) + s[0].size;
    }
  }

  /** Sorting does not change the total: `total` is the size of all listed files. */
  lemma {:induction false} SumSizesSort(s: seq<FileEntry>)
    ensures SumSizes(SortByCreated(s)) == SumSizes(s)
  {
    if s != [] {
      SumSizesSort(s[1..]);
      SumSizesInsert(s[0], SortByCreated(s[1..]));
      SumSizesConcat([s[0]], s[1..]);
      assert [s[0]] + s[1..] == s;
      assert SumSizes([s[0]]) == SumSizes([]) + s[0].size;
    }
  }

  /**
   * How many entries of the sorted list the eviction loop leaves: it pops
   * the last entry while the entries left plus the new file reach the
   * capacity and the list is not empty.
   */
  function Survivors(sorted: seq<FileEntry>, newFileSize: nat, capacity: nat): (k: nat)
    ensures k <= |sorted|
    decreases |sorted|
  {
    if SumSizes(sorted) + newFileSize < capacity then |sorted|
    else if sorted == [] then 0
    else Survivors(sorted[..|sorted| - 1], newFileSize, capacity)
  }

  /** The variables of the eviction loop: the list not yet popped and `total`. */
  datatype EvictState = EvictState(remaining: seq<FileEntry>, total: int)

  /** The loop's condition, `total + new_file_size >= capacity`. */
  predicate KeepsEvicting(st: EvictState, newFileSize: nat, capacity: nat) {
    st.total + newFileSize >= capacity
  }

  /**
   * One iteration of the loop body: `files.pop()`; on `Some`, subtract the
   * file's size; on `None`, nothing happens.
   */
  function EvictStep(st: EvictState): EvictState {
    if st.remaining == [] then st
    else
      var last := st.remaining[|st.remaining| - 1];
      EvictState(st.remaining[..|st.remaining| - 1], st.total - last.size)
  }

  /** The state after `n` iterations of the loop body. */
  function Iterate(st: EvictState, n: nat): EvictState
    decreases n
  {
    if n == 0 then st else Iterate(EvictStep(st), n - 1)
  }

  /**
   * Once the list is empty while the condition still holds, no iteration
   * changes anything and the condition stays true: the loop never exits.
   */
  lemma {:induction false} NeverExits(st: EvictState, newFileSize: nat, capacity: nat, n: nat)
    requires st.remaining == [] && KeepsEvicting(st, newFileSize, capacity)
    ensures Iterate(st, n) == st && KeepsEvicting(Iterate(st, n), newFileSize, capacity)
  {
    if n > 0 {
      NeverExits(st, newFileSize, capacity, n - 1);
    }
  }

  /** When there is already room, nothing is evicted. */
  lemma NothingEvictedWhenRoom(sorted: seq<FileEntry>, newFileSize: nat, capacity: nat)
    requires SumSizes(sorted) + newFileSize < capacity
    ensures Survivors(sorted, newFileSize, capacity) == |sorted|
  {
  }

  /** When the new file alone reaches the capacity, everything is evicted. */
  lemma {:induction false} EverythingEvictedWhenTooLarge(sorted: seq<FileEntry>, newFileSize: nat, capacity: nat)
    requires newFileSize >= capacity
    ensures Survivors(sorted, newFileSize, capacity) == 0
    decreases |sorted|
  {
    if sorted != [] {
      EverythingEvictedWhenTooLarge(sorted[..|sorted| - 1], newFileSize, capacity);
    }
  }

  /** When the new file fits at all, the survivors leave room for it. */
  lemma {:induction false} SurvivorsLeaveRoom(sorted: seq<FileEntry>, newFileSize: nat, capacity: nat)
    requires newFileSize < capacity
    ensures SumSizes(sorted[..Survivors(sorted, newFileSize, capacity)]) + newFileSize < capacity
    decreases |sorted|
  {
    if SumSizes(sorted) + newFileSize < capacity {
      assert sorted[..|sorted|] == sorted;
    } else if sorted != [] {
      var s' := sorted[..|sorted| - 1];
      SurvivorsLeaveRoom(s', newFileSize, capacity);
      assert s'[..Survivors(s', newFileSize, capacity)] == sorted[..Survivors(sorted, newFileSize, capacity)];
    }
  }

  /**
   * No file is evicted that did not have to be: keeping any longer prefix
   * would still reach the capacity.
   */
  lemma {:induction false} EvictionIsMinimal(sorted: seq<FileEntry>, newFileSize: nat, capacity: nat, j: nat)
    requires Survivors(sorted, newFileSize, capacity) < j <= |sorted|
    ensures SumSizes(sorted[..j]) + newFileSize >= capacity
    decreases |sorted|
  {
    if j == |sorted| {
      assert sorted[..j] == sorted;
    } else {
      var s' := sorted[..|sorted| - 1];
      EvictionIsMinimal(s', newFileSize, capacity, j);
      assert s'[..j] == sorted[..j];
    }
  }

  /**
   * Eviction is newest first: on the sorted list, every evicted entry was
   * created no earlier than every surviving one.
   */
  lemma EvictsNewestFirst(listing: seq<FileEntry>, newFileSize: nat, capacity: nat, i: nat, j: nat)
    requires i < Survivors(SortByCreated(listing), newFileSize, capacity) <= j < |listing|
    ensures CreatedKey(SortByCreated(listing)[i]) <= CreatedKey(SortByCreated(listing)[j])
  {
  }

  /** Two files, the older one listed first: the NEWER one is deleted. */
  lemma EvictsNewerOfTwo()
    ensures var older, newer := FileEntry("abcd", 10, Some(100)), FileEntry("wxyz", 10, Some(200));
            var sorted := SortByCreated([newer, older]);
            sorted == [older, newer] && Survivors(sorted, 0, 15) == 1
  {
    var older, newer := FileEntry("abcd", 10, Some(100)), FileEntry("wxyz", 10, Some(200));
    assert SortByCreated([older]) == [older];
    assert [newer, older][1..] == [older];
    assert [older, newer][..1] == [older];
    assert [older][..0] == [];
    assert SumSizes([older]) == 10;
    assert SumSizes([older, newer]) == 20;
  }

  /** Reaching the capacity exactly still evicts. */
  lemma ExactCapacityEvicts()
    ensures Survivors([FileEntry("abcd", 10, None)], 5, 15) == 0
  {
    assert [FileEntry("abcd", 10, None)][..0] == [];
  }
}
