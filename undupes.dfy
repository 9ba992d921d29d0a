/** undupes.Dupes as the imperative procedure it is: the walk callback
    updates the bucket objects of a size map in place, the walk stops at the
    first error the callback returns, and the lists of more than one path are
    gathered and sorted. Each step is proved to compute what UndupesSpec
    defines, so the lemmas there apply to its result. */
module Undupes {
  import opened Files
  import opened Groups
  import opened UndupesSpec

  /** filesWithHashes of undupes.go. */
  class FilesWithHashes {
    var unhashed: string
    var hashes: map<Digest, seq<Path>>

    function Value(): Bucket
      reads this
    {
      Bucket(unhashed, hashes)
    }

    /** The first file of a size is held and not hashed (undupes.go:67-75). */
    constructor (path: Path)
      ensures Value() == Bucket(path, map[])
    {
      unhashed := path;
      hashes := map[];
    }

    /** A later file of this size (undupes.go:76-100); `failed` is the error
        the callback returns. */
    method Add(h: Hasher, path: Path) returns (calls: seq<HashCall>, failed: bool)
      modifies this
      ensures Added(Value(), calls, failed) == AddFile(h, old(Value()), path)
    {
      var r := h.Hash(path, WholeFile);
      calls := [HashCall(path, WholeFile)];
      if r.ReadError? {
        return calls, true;
      }
      var sum := r.digest;
      if sum !in hashes {
        assert [path] == [] + [path];
        hashes := hashes[sum := [path]];
      } else {
        hashes := hashes[sum := hashes[sum] + [path]];
      }
      if unhashed != "" {
        var u: Path := unhashed;
        var ru := h.Hash(u, WholeFile);
        calls := calls + [HashCall(u, WholeFile)];
        if ru.ReadError? {
          return calls, true;
        }
        var sum2 := ru.digest;
        if sum2 !in hashes {
          assert [u] == [] + [u];
          hashes := hashes[sum2 := [u]];
        } else {
          hashes := hashes[sum2 := hashes[sum2] + [u]];
        }
        unhashed := "";
      }
      failed := false;
    }
  }

  /** The buckets' current values, by size. */
  function Snapshot(files: map<nat, FilesWithHashes>): map<nat, Bucket>
    reads files.Values
  {
    map s | s in files :: files[s].Value()
  }

  /** Distinct sizes have distinct bucket objects. */
  predicate Separate(files: map<nat, FilesWithHashes>)
  {
    forall s1, s2 | s1 in files && s2 in files && s1 != s2 :: files[s1] != files[s2]
  }

  /** The walk callback (undupes.go:61-102): directories are skipped, a new
      size gets a fresh bucket holding the file, a known size hands the file
      to its bucket; no other bucket changes. `failed` is the returned error. */
  method Visit(h: Hasher, files: map<nat, FilesWithHashes>, e: Entry)
    returns (files': map<nat, FilesWithHashes>, calls: seq<HashCall>, failed: bool)
    requires Separate(files)
    modifies files.Values
    ensures Separate(files')
    ensures forall s | s in files' :: (s in files && files'[s] == files[s]) || fresh(files'[s])
    ensures Callback(h, old(Snapshot(files)), e) == State(Snapshot(files'), calls, failed)
  {
    if e.isDir {
      return files, [], false;
    }
    if e.size !in files {
      var hs := new FilesWithHashes(e.path);
      files' := files[e.size := hs];
      assert Snapshot(files') == old(Snapshot(files))[e.size := Bucket(e.path, map[])];
      return files', [], false;
    }
    calls, failed := HandOver(h, files, e.path, e.size);
    files' := files;
  }

  /** The bucket of `size` takes the file; the other buckets are untouched. */
  method HandOver(h: Hasher, files: map<nat, FilesWithHashes>, path: Path, size: nat)
    returns (calls: seq<HashCall>, failed: bool)
    requires size in files && Separate(files)
    modifies files[size]
    ensures var a := AddFile(h, old(files[size].Value()), path);
            Snapshot(files) == old(Snapshot(files))[size := a.bucket] && calls == a.calls && failed == a.failed
  {
    ghost var before := Snapshot(files);
    var hs := files[size];
    calls, failed := hs.Add(h, path);
    assert forall s | s in files && s != size :: files[s].Value() == before[s];
    assert Snapshot(files) == before[size := hs.Value()];
  }

  /** filepath.Walk over the reported entries, stopping at the first error
      the callback returns (undupes.go:61-102). */
  method WalkAll(h: Hasher, entries: seq<Entry>)
    returns (files: map<nat, FilesWithHashes>, calls: seq<HashCall>, stopped: bool)
    ensures forall s | s in files :: fresh(files[s])
    ensures State(Snapshot(files), calls, stopped) == Walk(h, entries, |entries|)
  {
    files := map[];
    calls := [];
    stopped := false;
    var i := 0;
    while i < |entries| && !stopped
      invariant 0 <= i <= |entries|
      invariant forall s | s in files :: fresh(files[s])
      invariant Separate(files)
      invariant State(Snapshot(files), calls, stopped) == Walk(h, entries, i)
    {
      var more;
      files, more, stopped := Visit(h, files, entries[i]);
      calls := calls + more;
      i := i + 1;
    }
    if stopped {
      StopIsFinal(h, entries, i, |entries|);
    }
  }

  /** The groups of one bucket whose digests lie in `digests`. */
  function BucketGroups(s: nat, hashes: map<Digest, seq<Path>>, digests: set<Digest>): set<Info>
  {
    set d | d in digests && d in hashes && |hashes[d]| > 1 :: Info(s, hashes[d])
  }

  /** The lists of one bucket with more than one path (undupes.go:105-109). */
  method BucketDupes(size: nat, hashes: map<Digest, seq<Path>>) returns (found: seq<Info>)
    requires forall d1, d2 | d1 in hashes && d2 in hashes && d1 != d2 && |hashes[d1]| > 0 :: hashes[d1] != hashes[d2]
    ensures forall g :: g in found <==> g in BucketGroups(size, hashes, hashes.Keys)
    ensures Distinct(found)
  {
    found := [];
    var digests := hashes.Keys;
    while digests != {}
      invariant digests <= hashes.Keys
      invariant forall g :: g in found <==> g in BucketGroups(size, hashes, hashes.Keys - digests)
      invariant Distinct(found)
    {
      var d :| d in digests;
      var names := hashes[d];
      if |names| > 1 {
        assert Info(size, names) !in found;
        found := found + [Info(size, names)];
      }
      digests := digests - {d};
    }
  }

  /** Every bucket's groups (undupes.go:103-110), one bucket after another. */
  method Gather(files: map<nat, FilesWithHashes>) returns (dupes: seq<Info>)
    requires forall s, d1, d2 | s in files && d1 in files[s].hashes && d2 in files[s].hashes && d1 != d2 && |files[s].hashes[d1]| > 0 ::
               files[s].hashes[d1] != files[s].hashes[d2]
    ensures forall g :: g in dupes <==> g in GroupsOf(Snapshot(files))
    ensures Distinct(dupes)
  {
    ghost var state := Snapshot(files);
    dupes := [];
    var sizes := files.Keys;
    while sizes != {}
      invariant sizes <= files.Keys
      invariant forall g :: g in dupes <==> g in GroupsOf(state) && g.size !in sizes
      invariant Distinct(dupes)
    {
      var size :| size in sizes;
      var hashes := files[size].hashes;
      assert hashes == state[size].hashes;
      var found := BucketDupes(size, hashes);
      forall g ensures g in found <==> g in GroupsOf(state) && g.size == size {
        if g in GroupsOf(state) && g.size == size {
          var s, d :| s in state && d in state[s].hashes && |state[s].hashes[d]| > 1 && g == Info(s, state[s].hashes[d]);
          assert g in BucketGroups(size, hashes, hashes.Keys);
        }
      }
      DistinctConcat(dupes, found);
      dupes := dupes + found;
      sizes := sizes - {size};
    }
  }

  /** Dupes(root) (undupes.go:55-114) over the entries the walk reports for
      `root`. The groups are those of the state the walk ended in, whether or
      not an error stopped it: the error the walk returns is discarded and
      the result's error is always nil, so it is not modelled. */
  method Dupes(entries: seq<Entry>, h: Hasher) returns (dupes: seq<Info>, calls: seq<HashCall>)
    ensures forall g :: g in dupes <==> g in GroupsOf(Walk(h, entries, |entries|).files)
    ensures Distinct(dupes) && SortedBySize(dupes)
    ensures forall i | 0 <= i < |dupes| ::
              && |dupes[i].names| > 1 && SameFullDigest(h, dupes[i])
              && forall k | 0 <= k < |dupes[i].names| :: WalkedAs(entries, |entries|, dupes[i].names[k], dupes[i].size)
    ensures DistinctFiles(entries) ==> forall i | 0 <= i < |dupes| :: Distinct(dupes[i].names)
    ensures DistinctFiles(entries) ==>
              forall i, j, p | 0 <= i < j < |dupes| && p in dupes[i].names :: p !in dupes[j].names
    ensures calls == Walk(h, entries, |entries|).calls
  {
    var files, stopped;
    files, calls, stopped := WalkAll(h, entries);
    ghost var state := Walk(h, entries, |entries|).files;
    forall s, d1, d2 | s in files && d1 in files[s].hashes && d2 in files[s].hashes && d1 != d2 && |files[s].hashes[d1]| > 0
      ensures files[s].hashes[d1] != files[s].hashes[d2]
    {
      assert files[s].hashes == state[s].hashes;
      ListsApart(h, entries, |entries|, s, d1, d2);
    }
    var unsorted := Gather(files);
    dupes := SortBySize(unsorted);
    forall g ensures g in dupes <==> g in GroupsOf(state) {
      SortKeepsMembers(unsorted, g);
    }
    ReturnedGroups(h, entries, dupes);
  }

  /** What holds of any list holding each group of the walk's final state
      once: each is a set of at least two files of its size with one full
      digest; with no path reported twice, no path is repeated in or across
      sets. */
  lemma ReturnedGroups(h: Hasher, entries: seq<Entry>, dupes: seq<Info>)
    requires forall g :: g in dupes <==> g in GroupsOf(Walk(h, entries, |entries|).files)
    requires Distinct(dupes)
    ensures forall i | 0 <= i < |dupes| ::
              && |dupes[i].names| > 1 && SameFullDigest(h, dupes[i])
              && forall k | 0 <= k < |dupes[i].names| :: WalkedAs(entries, |entries|, dupes[i].names[k], dupes[i].size)
    ensures DistinctFiles(entries) ==> forall i | 0 <= i < |dupes| :: Distinct(dupes[i].names)
    ensures DistinctFiles(entries) ==>
              forall i, j, p | 0 <= i < j < |dupes| && p in dupes[i].names :: p !in dupes[j].names
  {
    ghost var state := Walk(h, entries, |entries|).files;
    forall i | 0 <= i < |dupes|
      ensures |dupes[i].names| > 1 && SameFullDigest(h, dupes[i])
      ensures forall k | 0 <= k < |dupes[i].names| :: WalkedAs(entries, |entries|, dupes[i].names[k], dupes[i].size)
    {
      GroupsSound(h, entries, |entries|, dupes[i]);
    }
    if DistinctFiles(entries) {
      ListsDistinct(h, entries, |entries|);
      forall i | 0 <= i < |dupes| ensures Distinct(dupes[i].names) {
        assert dupes[i] in dupes;
        assert dupes[i] in GroupsOf(state);
        var s, d :| s in state && d in state[s].hashes && |state[s].hashes[d]| > 1 && dupes[i] == Info(s, state[s].hashes[d]);
        assert Distinct(state[s].hashes[d]);
      }
      forall i, j, p | 0 <= i < j < |dupes| && p in dupes[i].names ensures p !in dupes[j].names {
        if p in dupes[j].names {
          GroupsDisjoint(h, entries, |entries|, dupes[i], dupes[j], p);
        }
      }
    }
  }
}
