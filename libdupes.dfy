/** libdupes.Dupes as the imperative procedure it is: it indexes the walked
    files into `pending`, runs each file through the bucket of its size
    (objects updated in place), gathers the full-digest lists of more than one
    path, and sorts them. Each step is proved to compute what LibDupesSpec
    defines, so the lemmas of LibDupesProofs apply to its result. */
module LibDupes {
  import opened Files
  import opened Groups
  import opened LibDupesSpec
  import opened LibDupesProofs

  /** filesWithHashes: the state kept for one file size. */
  class FilesWithHashes {
    var unhashed: string
    var firstPassHashes: map<Digest, string>
    var fullHashes: map<Digest, seq<Path>>

    function Value(): Bucket
      reads this
    {
      Bucket(unhashed, firstPassHashes, fullHashes)
    }

    /** The bucket made for the first file of a size: the file is held and
        not hashed (libdupes.go:95-99). */
    constructor (path: Path)
      ensures Value() == NewBucket(path)
    {
      unhashed := path;
      firstPassHashes := map[];
      fullHashes := map[];
    }

    /** A later file of this size (libdupes.go:102-148). Each `continue` of
        the source ends the visit early. */
    method Add(h: Hasher, path: Path, size: nat) returns (calls: seq<HashCall>)
      requires Consistent(Value())
      modifies this
      ensures Outcome(Value(), calls) == Step(h, old(Value()), path, size)
    {
      var blk := Min(InitialBlocksize, size);
      if unhashed != "" {
        if |firstPassHashes| > 0 || |fullHashes| > 0 {
          // panic("logic error!"): Consistent rules this out.
          assert false;
        }
        var u: Path := unhashed;
        var r := h.Hash(u, blk);
        if r.ReadError? {
          return [HashCall(u, blk)];
        }
        firstPassHashes := firstPassHashes[r.digest := u];
        unhashed := "";
        var more := AddCurrent(h, path, blk);
        calls := [HashCall(u, blk)] + more;
      } else {
        calls := AddCurrent(h, path, blk);
      }
    }

    /** The first-pass hash of the current file and what follows from it
        (libdupes.go:117-148). */
    method AddCurrent(h: Hasher, path: Path, blk: int) returns (calls: seq<HashCall>)
      requires unhashed == ""
      modifies this
      ensures Outcome(Value(), calls) == HashCurrent(h, old(Value()), path, blk)
    {
      var r := h.Hash(path, blk);
      if r.ReadError? {
        return [HashCall(path, blk)];
      }
      var sum := r.digest;
      if sum !in firstPassHashes {
        firstPassHashes := firstPassHashes[sum := path];
        return [HashCall(path, blk)];
      }
      var collision := firstPassHashes[sum];
      if collision != "" {
        firstPassHashes := firstPassHashes[sum := ""];
        var c: Path := collision;
        var rc := h.Hash(c, WholeFile);
        if rc.ReadError? {
          return [HashCall(path, blk), HashCall(c, WholeFile)];
        }
        var fs := if rc.digest in fullHashes then fullHashes[rc.digest] else [];
        fullHashes := fullHashes[rc.digest := fs + [c]];
        var more := AddFull(h, path);
        calls := [HashCall(path, blk), HashCall(c, WholeFile)] + more;
      } else {
        var more := AddFull(h, path);
        calls := [HashCall(path, blk)] + more;
      }
    }

    /** The second-pass hash of the current file, appended to the list of
        its full digest (libdupes.go:136-144). */
    method AddFull(h: Hasher, path: Path) returns (calls: seq<HashCall>)
      requires unhashed == ""
      modifies this
      ensures Outcome(Value(), calls) == HashFull(h, old(Value()), path)
    {
      var r := h.Hash(path, WholeFile);
      calls := [HashCall(path, WholeFile)];
      if r.ReadError? {
        return;
      }
      var fs := if r.digest in fullHashes then fullHashes[r.digest] else [];
      fullHashes := fullHashes[r.digest := fs + [path]];
    }
  }

  /** The buckets' current values, by size. */
  function Snapshot(files: map<nat, FilesWithHashes>): map<nat, Bucket>
    reads files.Values
  {
    map s | s in files :: files[s].Value()
  }

  /** The groups of one bucket whose full digests lie in `digests`. */
  function BucketGroups(s: nat, full: map<Digest, seq<Path>>, digests: set<Digest>): set<Info>
  {
    set d | d in digests && d in full && |full[d]| > 1 :: Info(s, full[d])
  }

  /** The walk over every root (libdupes.go:78-90): each file entry's path is
      mapped to its size; directories are skipped. */
  method CollectPending(roots: seq<seq<Entry>>) returns (pending: map<Path, nat>)
    ensures pending == Pending(Walked(roots))
  {
    pending := map[];
    var r := 0;
    while r < |roots|
      invariant 0 <= r <= |roots|
      invariant pending == Pending(Walked(roots[..r]))
    {
      assert roots[..r + 1][..r] == roots[..r];
      pending := CollectRoot(Walked(roots[..r]), roots[r], pending);
      r := r + 1;
    }
    assert roots[..r] == roots;
  }

  /** The walk of one root adds its files to `pending`. */
  method CollectRoot(ghost before: seq<Entry>, entries: seq<Entry>, pending: map<Path, nat>)
    returns (pending': map<Path, nat>)
    requires pending == Pending(before)
    ensures pending' == Pending(before + entries)
  {
    pending' := pending;
    var j := 0;
    assert before + entries[..0] == before;
    while j < |entries|
      invariant 0 <= j <= |entries|
      invariant pending' == Pending(before + entries[..j])
    {
      var e := entries[j];
      assert before + entries[..j + 1] == (before + entries[..j]) + [e];
      PendingSnoc(before + entries[..j], e);
      if !e.isDir {
        pending' := pending'[e.path := e.size];
      }
      j := j + 1;
    }
    assert entries[..j] == entries;
  }

  /** Distinct sizes have distinct bucket objects. */
  predicate Separate(files: map<nat, FilesWithHashes>)
  {
    forall s1, s2 | s1 in files && s2 in files && s1 != s2 :: files[s1] != files[s2]
  }

  /** One iteration of the loop over pending (libdupes.go:93-148): a new size
      gets a fresh bucket holding the file, a known size hands the file to its
      bucket, and no other bucket changes. */
  method Place(h: Hasher, pending: map<Path, nat>, files: map<nat, FilesWithHashes>, path: Path)
    returns (files': map<nat, FilesWithHashes>, more: seq<HashCall>)
    requires path in pending && Separate(files) && AllConsistent(Snapshot(files))
    modifies files.Values
    ensures Separate(files')
    ensures forall s | s in files' :: (s in files && files'[s] == files[s]) || fresh(files'[s])
    ensures var st := Visit(h, pending, State(old(Snapshot(files)), []), path);
              Snapshot(files') == st.files && more == st.calls
  {
    var size := pending[path];
    if size !in files {
      var hs := new FilesWithHashes(path);
      files' := files[size := hs];
      more := [];
      assert Snapshot(files') == old(Snapshot(files))[size := NewBucket(path)];
      return;
    }
    VisitKnownSize(h, pending, Snapshot(files), path);
    more := HandOver(h, files, path, size);
    files' := files;
  }

  /** A file whose size has a bucket is added to that bucket; the other
      buckets do not change. */
  method HandOver(h: Hasher, files: map<nat, FilesWithHashes>, path: Path, size: nat)
    returns (more: seq<HashCall>)
    requires size in files && Separate(files) && Consistent(files[size].Value())
    modifies files[size]
    ensures var o := Step(h, old(files[size].Value()), path, size);
            Snapshot(files) == old(Snapshot(files))[size := o.bucket] && more == o.calls
  {
    ghost var before := Snapshot(files);
    var hs := files[size];
    more := hs.Add(h, path, size);
    assert forall s | s in files && s != size :: files[s].Value() == before[s];
    assert Snapshot(files) == before[size := hs.Value()];
  }

  /** A visit of a file whose size has a bucket hands the file to it. */
  lemma VisitKnownSize(h: Hasher, pending: map<Path, nat>, files: map<nat, Bucket>, path: Path)
    requires path in pending && AllConsistent(files) && pending[path] in files
    ensures var o := Step(h, files[pending[path]], path, pending[path]);
            Visit(h, pending, State(files, []), path) == State(files[pending[path] := o.bucket], o.calls)
  {
    var o := Step(h, files[pending[path]], path, pending[path]);
    assert [] + o.calls == o.calls;
  }

  /** Run over one more path, with the calls of the visit split off. */
  lemma RunOneMore(h: Hasher, pending: map<Path, nat>, order: seq<Path>, i: nat)
    requires forall p | p in order :: p in pending
    requires i < |order|
    ensures var st := Run(h, pending, order[..i]);
            var v := Visit(h, pending, State(st.files, []), order[i]);
            Run(h, pending, order[..i + 1]) == State(v.files, st.calls + v.calls)
  {
    var st := Run(h, pending, order[..i]);
    assert order[..i + 1][..i] == order[..i];
    assert Run(h, pending, order[..i + 1]) == Visit(h, pending, st, order[i]);
    VisitSplitsCalls(h, pending, st, order[i]);
  }

  /** A visit's buckets do not depend on the calls made before it, and its
      calls are appended to them. */
  lemma VisitSplitsCalls(h: Hasher, pending: map<Path, nat>, st: State, path: Path)
    requires path in pending && AllConsistent(st.files)
    ensures var v := Visit(h, pending, State(st.files, []), path);
            Visit(h, pending, st, path) == State(v.files, st.calls + v.calls)
  {
    var size := pending[path];
    if size !in st.files {
      assert st.calls + [] == st.calls;
    } else {
      var o := Step(h, st.files[size], path, size);
      assert [] + o.calls == o.calls;
    }
  }

  /** One iteration of the loop over pending: the run advances by one path. */
  method HashNext(h: Hasher, pending: map<Path, nat>, order: seq<Path>, i: nat, progressCb: bool,
                  files: map<nat, FilesWithHashes>, calls: seq<HashCall>, progress: seq<(int, int)>)
    returns (files': map<nat, FilesWithHashes>, calls': seq<HashCall>, progress': seq<(int, int)>)
    requires forall p | p in order :: p in pending
    requires i < |order| && Separate(files)
    requires State(Snapshot(files), calls) == Run(h, pending, order[..i])
    requires Ticks(progress, if progressCb then i else 0, |pending|)
    modifies files.Values
    ensures Separate(files')
    ensures forall s | s in files' :: (s in files && files'[s] == files[s]) || fresh(files'[s])
    ensures State(Snapshot(files'), calls') == Run(h, pending, order[..i + 1])
    ensures Ticks(progress', if progressCb then i + 1 else 0, |pending|)
  {
    progress' := progress;
    if progressCb {
      TicksGrow(progress, i, |pending|);
      progress' := progress + [(i, |pending|)];
    }
    RunOneMore(h, pending, order, i);
    var more;
    files', more := Place(h, pending, files, order[i]);
    calls' := calls + more;
  }

  /** The progress callback was called with (0, total) .. (n-1, total). */
  predicate Ticks(progress: seq<(int, int)>, n: nat, total: int)
  {
    |progress| == n && forall k | 0 <= k < |progress| :: progress[k] == (k, total)
  }

  lemma TicksGrow(progress: seq<(int, int)>, n: nat, total: int)
    requires Ticks(progress, n, total)
    ensures Ticks(progress + [(n, total)], n + 1, total)
  {
  }

  /** The loop over pending (libdupes.go:92-148), visiting the paths in
      `order`. The buckets are fresh objects, one per size. */
  method HashAll(h: Hasher, pending: map<Path, nat>, order: seq<Path>, progressCb: bool)
    returns (files: map<nat, FilesWithHashes>, progress: seq<(int, int)>, calls: seq<HashCall>)
    requires forall p | p in order :: p in pending
    ensures forall s | s in files :: fresh(files[s])
    ensures Snapshot(files) == Run(h, pending, order).files
    ensures calls == Run(h, pending, order).calls
    ensures |progress| == if progressCb then |order| else 0
    ensures forall k | 0 <= k < |progress| :: progress[k] == (k, |pending|)
  {
    files := map[];
    var i := 0;
    progress := [];
    calls := [];
    while i < |order|
      invariant 0 <= i <= |order|
      invariant forall s | s in files :: fresh(files[s])
      invariant Separate(files)
      invariant State(Snapshot(files), calls) == Run(h, pending, order[..i])
      invariant Ticks(progress, if progressCb then i else 0, |pending|)
    {
      files, calls, progress := HashNext(h, pending, order, i, progressCb, files, calls, progress);
      i := i + 1;
    }
    assert order[..i] == order;
  }

  /** The lists of one bucket with more than one path, in the order the map
      iteration over `full` picks them (libdupes.go:151-155). */
  method BucketDupes(size: nat, full: map<Digest, seq<Path>>) returns (found: seq<Info>)
    requires forall d1, d2 | d1 in full && d2 in full && d1 != d2 && |full[d1]| > 0 :: full[d1] != full[d2]
    ensures forall g :: g in found <==> g in BucketGroups(size, full, full.Keys)
    ensures Distinct(found)
  {
    found := [];
    var digests := full.Keys;
    while digests != {}
      invariant digests <= full.Keys
      invariant forall g :: g in found <==> g in BucketGroups(size, full, full.Keys - digests)
      invariant Distinct(found)
    {
      var d :| d in digests;
      var names := full[d];
      if |names| > 1 {
        assert Info(size, names) !in found;
        found := found + [Info(size, names)];
      }
      digests := digests - {d};
    }
  }

  /** All buckets' groups (libdupes.go:150-157), one bucket after another. */
  method Gather(files: map<nat, FilesWithHashes>) returns (dupes: seq<Info>)
    requires ListsApart(Snapshot(files))
    ensures forall g :: g in dupes <==> g in GroupsOf(Snapshot(files))
    ensures Distinct(dupes)
  {
    ghost var state := Snapshot(files);
    dupes := [];
    var sizes := files.Keys;
    while sizes != {}
      invariant sizes <= files.Keys
      invariant forall g :: g in dupes <==> g in GroupsOf(state) && g.size !in sizes
      invariant Distinct(dupes)
    {
      var size :| size in sizes;
      var full := files[size].fullHashes;
      assert full == state[size].full;
      var found := BucketDupes(size, full);
      forall g ensures g in found <==> g in GroupsOf(state) && g.size == size {
        if g in GroupsOf(state) && g.size == size {
          var s, d :| s in state && d in state[s].full && |state[s].full[d]| > 1 && g == Info(s, state[s].full[d]);
          assert g in BucketGroups(size, full, full.Keys);
        }
      }
      DistinctConcat(dupes, found);
      dupes := dupes + found;
      sizes := sizes - {size};
    }
  }

  /** Dupes(roots, progressCb) (libdupes.go:72-161). `roots` holds what
      filepath.Walk reports for each root, `order` the order in which the map
      iteration over `pending` visits its paths. `progress` lists the
      progressCb(cur, outof) calls and `calls` the hash calls, in order. The
      error result of the source is always nil and is not modelled. */
  method Dupes(roots: seq<seq<Entry>>, h: Hasher, progressCb: bool, order: seq<Path>)
    returns (dupes: seq<Info>, progress: seq<(int, int)>, calls: seq<HashCall>)
    requires Enumerates(order, Pending(Walked(roots)))
    ensures forall g :: g in dupes <==> g in GroupsOf(Run(h, Pending(Walked(roots)), order).files)
    ensures Distinct(dupes) && SortedBySize(dupes)
    ensures forall i | 0 <= i < |dupes| ::
              && |dupes[i].names| > 1 && Distinct(dupes[i].names)
              && WalkedWithSize(Pending(Walked(roots)), dupes[i]) && SameFullDigest(h, dupes[i])
    ensures forall i, j, p | 0 <= i < j < |dupes| && p in dupes[i].names :: p !in dupes[j].names
    ensures calls == Run(h, Pending(Walked(roots)), order).calls
    ensures |progress| == if progressCb then |order| else 0
    ensures forall k | 0 <= k < |progress| :: progress[k] == (k, |Pending(Walked(roots))|)
  {
    var pending := CollectPending(roots);
    var files;
    files, progress, calls := HashAll(h, pending, order, progressCb);
    ghost var state := Run(h, pending, order).files;
    RunListsApart(h, pending, order);
    var unsorted := Gather(files);
    dupes := SortBySize(unsorted);
    forall g ensures g in dupes <==> g in GroupsOf(state) {
      SortKeepsMembers(unsorted, g);
    }
    forall i | 0 <= i < |dupes|
      ensures |dupes[i].names| > 1 && Distinct(dupes[i].names)
      ensures WalkedWithSize(pending, dupes[i]) && SameFullDigest(h, dupes[i])
    {
      GroupsSound(h, pending, order, dupes[i]);
    }
    forall i, j, p | 0 <= i < j < |dupes| && p in dupes[i].names ensures p !in dupes[j].names {
      if p in dupes[j].names {
        GroupsDisjoint(h, pending, order, dupes[i], dupes[j], p);
      }
    }
  }
}
