/** The single-pass duplicate finder of undupes.go, as values. Each size
    bucket holds at most one file that has not been hashed; every later file
    of that size is hashed whole at once and, on the first such file, the held
    one is hashed too. A failed read makes the walk callback return an error,
    which stops the walk; the groups gathered up to that point are still
    returned. The imperative engine in module Undupes is proved equal to these
    functions. */
module UndupesSpec {
  import opened Files
  import opened Groups

  /** filesWithHashes of undupes.go: the one file of this size not hashed yet
      ("" when there is none), and full digest -> paths. */
  datatype Bucket = Bucket(unhashed: string, hashes: map<Digest, seq<Path>>)

  /** A bucket after a later file of its size was handed to it, the hash calls
      made, and whether a read failed. */
  datatype Added = Added(bucket: Bucket, calls: seq<HashCall>, failed: bool)

  /** A later file of the bucket's size (undupes.go:76-100): it is hashed and
      appended under its digest; then, if a file is held, that file is hashed,
      appended and released. A failed read ends the callback with an error,
      leaving whatever was already appended. */
  function AddFile(h: Hasher, hs: Bucket, path: Path): Added
  {
    match h.Hash(path, WholeFile)
    case ReadError => Added(hs, [HashCall(path, WholeFile)], true)
    case Sum(sum) =>
      var added := hs.(hashes := Append(hs.hashes, sum, path));
      if hs.unhashed == "" then Added(added, [HashCall(path, WholeFile)], false)
      else
        var u: Path := hs.unhashed;
        match h.Hash(u, WholeFile)
        case ReadError => Added(added, [HashCall(path, WholeFile), HashCall(u, WholeFile)], true)
        case Sum(sum2) =>
          Added(Bucket("", Append(added.hashes, sum2, u)), [HashCall(path, WholeFile), HashCall(u, WholeFile)], false)
  }

  /** The buckets by size, the hash calls made so far, and whether the walk
      was stopped by an error. */
  datatype State = State(files: map<nat, Bucket>, calls: seq<HashCall>, stopped: bool)

  /** The walk callback for one entry (undupes.go:61-102). */
  function Callback(h: Hasher, files: map<nat, Bucket>, e: Entry): State
  {
    if e.isDir then State(files, [], false)
    else if e.size !in files then State(files[e.size := Bucket(e.path, map[])], [], false)
    else
      var a := AddFile(h, files[e.size], e.path);
      State(files[e.size := a.bucket], a.calls, a.failed)
  }

  /** The state once the walk has reported `entries[..n]`. After an error the
      walk reports nothing more, so the state stays as the error left it. */
  function Walk(h: Hasher, entries: seq<Entry>, n: nat): State
    requires n <= |entries|
  {
    if n == 0 then State(map[], [], false)
    else
      var prev := Walk(h, entries, n - 1);
      if prev.stopped then prev
      else
        var v := Callback(h, prev.files, entries[n - 1]);
        State(v.files, prev.calls + v.calls, v.stopped)
  }

  /** Group assembly (undupes.go:103-110): every digest list of more than one
      path, with the size of its bucket. */
  function GroupsOf(files: map<nat, Bucket>): set<Info>
  {
    set s, d | s in files && d in files[s].hashes && |files[s].hashes[d]| > 1 :: Info(s, files[s].hashes[d])
  }

  // ---------------------------------------------------------------------
  // What the walk keeps true.

  /** Among the first `n` entries, `p` is reported as a file of `s` bytes. */
  predicate WalkedAs(entries: seq<Entry>, n: nat, p: Path, s: nat)
  {
    exists i | 0 <= i < n && i < |entries| :: !entries[i].isDir && entries[i].path == p && entries[i].size == s
  }

  /** The walk reports no file path twice. */
  predicate DistinctFiles(entries: seq<Entry>)
  {
    forall i, j | 0 <= i < j < |entries| && !entries[i].isDir && !entries[j].isDir :: entries[i].path != entries[j].path
  }

  /** While a file is held, nothing of its size has been hashed. */
  predicate Held(b: Bucket)
  {
    b.unhashed != "" ==> b.hashes == map[]
  }

  /** The held file and every listed file were reported with the bucket's
      size, and every listed file hashes to its list's key. */
  ghost predicate BucketSound(h: Hasher, entries: seq<Entry>, n: nat, s: nat, b: Bucket)
  {
    && (b.unhashed != "" ==> WalkedAs(entries, n, b.unhashed, s))
    && ListsSound(h, entries, n, s, b.hashes)
  }

  ghost predicate ListsSound(h: Hasher, entries: seq<Entry>, n: nat, s: nat, m: map<Digest, seq<Path>>)
  {
    forall d, k | d in m && 0 <= k < |m[d]| ::
      WalkedAs(entries, n, m[d][k], s) && h.Hash(m[d][k], WholeFile) == Sum(d)
  }

  /** Appending a reported file of this size under its own digest keeps the
      lists sound. */
  lemma AppendSound(h: Hasher, entries: seq<Entry>, n: nat, s: nat, m: map<Digest, seq<Path>>, x: Digest, p: Path)
    requires ListsSound(h, entries, n, s, m)
    requires WalkedAs(entries, n, p, s) && h.Hash(p, WholeFile) == Sum(x)
    ensures ListsSound(h, entries, n, s, Append(m, x, p))
  {
    var l := if x in m then m[x] else [];
    var m' := Append(m, x, p);
    forall d, k | d in m' && 0 <= k < |m'[d]|
      ensures WalkedAs(entries, n, m'[d][k], s) && h.Hash(m'[d][k], WholeFile) == Sum(d)
    {
      if d == x && k < |l| {
        assert m'[d][k] == m[d][k];
      }
    }
  }

  ghost predicate Sound(h: Hasher, entries: seq<Entry>, n: nat, files: map<nat, Bucket>)
  {
    && (forall s | s in files :: BucketSound(h, entries, n, s, files[s]))
    && (forall s | s in files :: exists i | 0 <= i < n && i < |entries| :: !entries[i].isDir && entries[i].size == s)
  }

  lemma WalkedGrows(entries: seq<Entry>, n: nat, p: Path, s: nat)
    requires 0 < n && WalkedAs(entries, n - 1, p, s)
    ensures WalkedAs(entries, n, p, s)
  {
    var i :| 0 <= i < n - 1 && i < |entries| && !entries[i].isDir && entries[i].path == p && entries[i].size == s;
    assert 0 <= i < n;
  }

  lemma BucketSoundGrows(h: Hasher, entries: seq<Entry>, n: nat, s: nat, b: Bucket)
    requires 0 < n && BucketSound(h, entries, n - 1, s, b)
    ensures BucketSound(h, entries, n, s, b)
  {
    if b.unhashed != "" {
      WalkedGrows(entries, n, b.unhashed, s);
    }
    forall d, k | d in b.hashes && 0 <= k < |b.hashes[d]| ensures WalkedAs(entries, n, b.hashes[d][k], s) {
      WalkedGrows(entries, n, b.hashes[d][k], s);
    }
  }

  /** Handing the n-th reported file to a sound bucket keeps it sound; if
      the walk goes on, the bucket holds no file any more. */
  lemma AddFileKeeps(h: Hasher, entries: seq<Entry>, n: nat, b: Bucket)
    requires 0 < n <= |entries| && !entries[n - 1].isDir
    requires BucketSound(h, entries, n - 1, entries[n - 1].size, b)
    ensures var a := AddFile(h, b, entries[n - 1].path);
      && BucketSound(h, entries, n, entries[n - 1].size, a.bucket)
      && (!a.failed ==> a.bucket.unhashed == "")
  {
    var e := entries[n - 1];
    BucketSoundGrows(h, entries, n, e.size, b);
    assert WalkedAs(entries, n, e.path, e.size);
    match h.Hash(e.path, WholeFile)
    case ReadError =>
    case Sum(sum) =>
      AppendSound(h, entries, n, e.size, b.hashes, sum, e.path);
      if b.unhashed != "" {
        var u: Path := b.unhashed;
        match h.Hash(u, WholeFile)
        case ReadError =>
        case Sum(sum2) =>
          AppendSound(h, entries, n, e.size, Append(b.hashes, sum, e.path), sum2, u);
      }
  }

  /** The walk invariant: every bucket is sound, and while the walk goes on
      no bucket holds a file next to hashed ones (the state undupes.go never
      checks; its libdupes successor panics on it). */
  lemma {:induction false} WalkKeeps(h: Hasher, entries: seq<Entry>, n: nat)
    requires n <= |entries|
    ensures Sound(h, entries, n, Walk(h, entries, n).files)
    ensures !Walk(h, entries, n).stopped ==> AllHeld(Walk(h, entries, n).files)
  {
    if n > 0 {
      WalkKeeps(h, entries, n - 1);
      WalkKeepsStep(h, entries, n);
    }
  }

  /** No bucket holds a file next to hashed ones. */
  predicate AllHeld(files: map<nat, Bucket>)
  {
    forall s | s in files :: Held(files[s])
  }

  /** One more entry keeps the walk invariant. */
  lemma WalkKeepsStep(h: Hasher, entries: seq<Entry>, n: nat)
    requires 0 < n <= |entries|
    requires Sound(h, entries, n - 1, Walk(h, entries, n - 1).files)
    requires !Walk(h, entries, n - 1).stopped ==> AllHeld(Walk(h, entries, n - 1).files)
    ensures Sound(h, entries, n, Walk(h, entries, n).files)
    ensures !Walk(h, entries, n).stopped ==> AllHeld(Walk(h, entries, n).files)
  {
    var prev := Walk(h, entries, n - 1);
    if prev.stopped {
      SoundGrows(h, entries, n, prev.files);
    } else {
      CallbackKeeps(h, entries, n, prev.files);
    }
  }

  /** The callback for the n-th entry keeps the walk invariant. */
  lemma CallbackKeeps(h: Hasher, entries: seq<Entry>, n: nat, files: map<nat, Bucket>)
    requires 0 < n <= |entries| && Sound(h, entries, n - 1, files) && AllHeld(files)
    ensures Sound(h, entries, n, Callback(h, files, entries[n - 1]).files)
    ensures !Callback(h, files, entries[n - 1]).stopped ==> AllHeld(Callback(h, files, entries[n - 1]).files)
  {
    SoundGrows(h, entries, n, files);
    var e := entries[n - 1];
    if !e.isDir {
      assert WalkedAs(entries, n, e.path, e.size);
      assert 0 <= n - 1 < n && !entries[n - 1].isDir && entries[n - 1].size == e.size;
      if e.size !in files {
        SoundUpdate(h, entries, n, files, e.size, Bucket(e.path, map[]));
      } else {
        var a := AddFile(h, files[e.size], e.path);
        AddFileKeeps(h, entries, n, files[e.size]);
        SoundUpdate(h, entries, n, files, e.size, a.bucket);
      }
    }
  }

  /** Replacing one bucket by a sound bucket of a reported size keeps the
      buckets sound. */
  lemma SoundUpdate(h: Hasher, entries: seq<Entry>, n: nat, files: map<nat, Bucket>, s: nat, b: Bucket)
    requires Sound(h, entries, n, files) && BucketSound(h, entries, n, s, b)
    requires exists i | 0 <= i < n && i < |entries| :: !entries[i].isDir && entries[i].size == s
    ensures Sound(h, entries, n, files[s := b])
  {
  }

  /** Soundness after n - 1 entries holds after n. */
  lemma SoundGrows(h: Hasher, entries: seq<Entry>, n: nat, files: map<nat, Bucket>)
    requires 0 < n && Sound(h, entries, n - 1, files)
    ensures Sound(h, entries, n, files)
  {
    forall s | s in files ensures BucketSound(h, entries, n, s, files[s]) {
      BucketSoundGrows(h, entries, n, s, files[s]);
    }
    forall s | s in files ensures exists i | 0 <= i < n && i < |entries| :: !entries[i].isDir && entries[i].size == s {
      var i :| 0 <= i < n - 1 && i < |entries| && !entries[i].isDir && entries[i].size == s;
      assert 0 <= i < n;
    }
  }

  // ---------------------------------------------------------------------
  // Stopping.

  /** Nothing the walk reports after the callback's first error changes the
      state: the result is that of the entries up to the failing one. */
  lemma {:induction false} StopIsFinal(h: Hasher, entries: seq<Entry>, k: nat, n: nat)
    requires k <= n <= |entries|
    requires Walk(h, entries, k).stopped
    ensures Walk(h, entries, n) == Walk(h, entries, k)
  {
    if n > k {
      StopIsFinal(h, entries, k, n - 1);
    }
  }

  /** A walk that is going on at n was going on at every earlier point. */
  lemma {:induction false} NotStoppedBefore(h: Hasher, entries: seq<Entry>, k: nat, n: nat)
    requires k <= n <= |entries| && !Walk(h, entries, n).stopped
    ensures !Walk(h, entries, k).stopped
  {
    if n > k {
      assert !Walk(h, entries, n - 1).stopped;
      NotStoppedBefore(h, entries, k, n - 1);
    }
  }

  /** The groups of a walk stopped at any point k hold only files reported
      among the first k entries. */
  lemma OnlyBeforeStop(h: Hasher, entries: seq<Entry>, k: nat, g: Info)
    requires k <= |entries| && Walk(h, entries, k).stopped
    requires g in GroupsOf(Walk(h, entries, |entries|).files)
    ensures forall i | 0 <= i < |g.names| :: WalkedAs(entries, k, g.names[i], g.size)
  {
    StopIsFinal(h, entries, k, |entries|);
    var files := Walk(h, entries, k).files;
    WalkKeeps(h, entries, k);
    var s, d :| s in files && d in files[s].hashes && |files[s].hashes[d]| > 1 && g == Info(s, files[s].hashes[d]);
    assert BucketSound(h, entries, k, s, files[s]);
  }

  /** The entry whose callback fails adds no group: either its own read
      fails and nothing is appended, or it is appended alone to a bucket that
      was still holding a file, and the held file's read fails. */
  lemma FailureAddsNoGroup(h: Hasher, entries: seq<Entry>, k: nat)
    requires 0 < k <= |entries| && Walk(h, entries, k).stopped && !Walk(h, entries, k - 1).stopped
    ensures GroupsOf(Walk(h, entries, k).files) == GroupsOf(Walk(h, entries, k - 1).files)
  {
    var prev := Walk(h, entries, k - 1).files;
    var e := entries[k - 1];
    WalkKeeps(h, entries, k - 1);
    var b := prev[e.size];
    var a := AddFile(h, b, e.path);
    var files := prev[e.size := a.bucket];
    assert Walk(h, entries, k).files == files;
    FailedAddListsNothing(h, b, e.path);
    SameGroups(prev, e.size, a.bucket);
  }

  /** A failed AddFile on a bucket that holds no file next to hashed ones
      keeps every list, and adds at most a one-path list. */
  lemma FailedAddListsNothing(h: Hasher, b: Bucket, path: Path)
    requires Held(b) && AddFile(h, b, path).failed
    ensures var m := AddFile(h, b, path).bucket.hashes;
      && (forall d | d in b.hashes :: d in m && m[d] == b.hashes[d])
      && (forall d | d in m :: |m[d]| <= 1 || (d in b.hashes && m[d] == b.hashes[d]))
  {
    if h.Hash(path, WholeFile).Sum? {
      var sum := h.Hash(path, WholeFile).digest;
      assert b.unhashed != "" && b.hashes == map[];
      assert AddFile(h, b, path).bucket.hashes == Append(b.hashes, sum, path);
      assert [] + [path] == [path];
    }
  }

  /** Replacing a bucket by one that keeps its lists and adds only lists of
      at most one path changes no group. */
  lemma SameGroups(files: map<nat, Bucket>, s: nat, b: Bucket)
    requires s in files
    requires forall d | d in files[s].hashes :: d in b.hashes && b.hashes[d] == files[s].hashes[d]
    requires forall d | d in b.hashes :: |b.hashes[d]| <= 1 || (d in files[s].hashes && b.hashes[d] == files[s].hashes[d])
    ensures GroupsOf(files[s := b]) == GroupsOf(files)
  {
    var files' := files[s := b];
    forall g ensures g in GroupsOf(files') <==> g in GroupsOf(files) {
      if g in GroupsOf(files') {
        var s', d :| s' in files' && d in files'[s'].hashes && |files'[s'].hashes[d]| > 1 && g == Info(s', files'[s'].hashes[d]);
        assert s' in files && d in files[s'].hashes && files[s'].hashes[d] == files'[s'].hashes[d];
      }
      if g in GroupsOf(files) {
        var s', d :| s' in files && d in files[s'].hashes && |files[s'].hashes[d]| > 1 && g == Info(s', files[s'].hashes[d]);
        assert s' in files' && d in files'[s'].hashes && files[s'].hashes[d] == files'[s'].hashes[d];
      }
    }
  }

  /** The groups of a stopped walk hold only files reported before the
      failing entry, the k-th: the walk's result is the state before it. */
  lemma OnlyBeforeFailure(h: Hasher, entries: seq<Entry>, k: nat, g: Info)
    requires 0 < k <= |entries| && Walk(h, entries, k).stopped && !Walk(h, entries, k - 1).stopped
    requires g in GroupsOf(Walk(h, entries, |entries|).files)
    ensures forall i | 0 <= i < |g.names| :: WalkedAs(entries, k - 1, g.names[i], g.size)
  {
    StopIsFinal(h, entries, k, |entries|);
    FailureAddsNoGroup(h, entries, k);
    GroupsSound(h, entries, k - 1, g);
  }

  /** A size's held file, once released, is never held again. */
  lemma {:induction false} ReleasedStaysReleased(h: Hasher, entries: seq<Entry>, k: nat, n: nat, s: nat)
    requires k <= n <= |entries|
    requires s in Walk(h, entries, k).files && Walk(h, entries, k).files[s].unhashed == ""
    ensures s in Walk(h, entries, n).files && Walk(h, entries, n).files[s].unhashed == ""
  {
    if n > k {
      ReleasedStaysReleased(h, entries, k, n - 1, s);
      WalkStep(h, entries, n, s);
    }
  }

  /** Sizes, once seen, keep their bucket. */
  lemma {:induction false} BucketsStay(h: Hasher, entries: seq<Entry>, k: nat, n: nat, s: nat)
    requires k <= n <= |entries| && s in Walk(h, entries, k).files
    ensures s in Walk(h, entries, n).files
  {
    if n > k {
      BucketsStay(h, entries, k, n - 1, s);
      WalkStep(h, entries, n, s);
    }
  }

  /** One more entry keeps every size's bucket, and a bucket that holds no
      file still holds none. */
  lemma WalkStep(h: Hasher, entries: seq<Entry>, n: nat, s: nat)
    requires 0 < n <= |entries|
    ensures s in Walk(h, entries, n - 1).files ==> s in Walk(h, entries, n).files
    ensures s in Walk(h, entries, n - 1).files && Walk(h, entries, n - 1).files[s].unhashed == "" ==>
              Walk(h, entries, n).files[s].unhashed == ""
  {
    var prev := Walk(h, entries, n - 1);
    var e := entries[n - 1];
    if !prev.stopped && !e.isDir && e.size in prev.files {
      AddFileGrows(h, prev.files[e.size], e.path);
    }
  }

  /** What AddFile keeps and adds: every listed path stays listed under its
      digest; the held file stays held or is released; and when no read
      fails, the new file and the held one are listed under their digests
      and nothing is held any more. */
  lemma AddFileGrows(h: Hasher, b: Bucket, path: Path)
    ensures var a := AddFile(h, b, path);
      && (forall d, q | d in b.hashes && q in b.hashes[d] :: d in a.bucket.hashes && q in a.bucket.hashes[d])
      && (a.bucket.unhashed == "" || a.bucket.unhashed == b.unhashed)
      && (!a.failed ==>
            && a.bucket.unhashed == ""
            && h.Hash(path, WholeFile).Sum?
            && h.Hash(path, WholeFile).digest in a.bucket.hashes
            && path in a.bucket.hashes[h.Hash(path, WholeFile).digest]
            && (b.unhashed != "" ==>
                  && h.Hash(b.unhashed, WholeFile).Sum?
                  && h.Hash(b.unhashed, WholeFile).digest in a.bucket.hashes
                  && b.unhashed in a.bucket.hashes[h.Hash(b.unhashed, WholeFile).digest]))
  {
    match h.Hash(path, WholeFile)
    case ReadError =>
    case Sum(sum) =>
      var added := Append(b.hashes, sum, path);
      assert path in added[sum];
      if b.unhashed != "" {
        var u: Path := b.unhashed;
        match h.Hash(u, WholeFile)
        case ReadError =>
        case Sum(sum2) =>
          var both := Append(added, sum2, u);
          assert u in both[sum2];
          assert path in both[sum];
      }
  }

  /** The first file of a size is held, unhashed, by a new bucket, and the
      callback reads nothing for it. */
  lemma FirstOfSizeHeld(h: Hasher, entries: seq<Entry>, n: nat)
    requires n < |entries| && !entries[n].isDir && !Walk(h, entries, n).stopped
    requires entries[n].size !in Walk(h, entries, n).files
    ensures Walk(h, entries, n + 1).files == Walk(h, entries, n).files[entries[n].size := Bucket(entries[n].path, map[])]
    ensures Walk(h, entries, n + 1).calls == Walk(h, entries, n).calls
  {
  }

  /** Once a second file of a size has been reported and the walk goes on,
      that size holds no file for the rest of the walk. */
  lemma {:induction false} SecondFileReleases(h: Hasher, entries: seq<Entry>, i: nat, j: nat, n: nat)
    requires i < j < n <= |entries|
    requires !entries[i].isDir && !entries[j].isDir && entries[i].size == entries[j].size
    requires !Walk(h, entries, n).stopped
    ensures entries[i].size in Walk(h, entries, n).files
    ensures Walk(h, entries, n).files[entries[i].size].unhashed == ""
  {
    if n == j + 1 {
      NotStoppedBefore(h, entries, j, n);
      SizeKnown(h, entries, i, j);
      LaterFileReleases(h, entries, j);
    } else {
      NotStoppedBefore(h, entries, n - 1, n);
      SecondFileReleases(h, entries, i, j, n - 1);
      WalkStep(h, entries, n, entries[i].size);
    }
  }

  /** A size reported at i has a bucket at every later point j, as long as
      the walk goes on up to j. */
  lemma SizeKnown(h: Hasher, entries: seq<Entry>, i: nat, j: nat)
    requires i < j <= |entries| && !entries[i].isDir && !Walk(h, entries, j).stopped
    ensures entries[i].size in Walk(h, entries, j).files
  {
    NotStoppedBefore(h, entries, i, j);
    ReportedHasBucket(h, entries, i);
    BucketsStay(h, entries, i + 1, j, entries[i].size);
  }

  /** A reported file's size has a bucket once the walk has passed it. */
  lemma ReportedHasBucket(h: Hasher, entries: seq<Entry>, n: nat)
    requires n < |entries| && !entries[n].isDir && !Walk(h, entries, n).stopped
    ensures entries[n].size in Walk(h, entries, n + 1).files
  {
  }

  /** A file of a size that already has a bucket releases its held file,
      unless a read fails. */
  lemma LaterFileReleases(h: Hasher, entries: seq<Entry>, n: nat)
    requires n < |entries| && !entries[n].isDir
    requires entries[n].size in Walk(h, entries, n).files && !Walk(h, entries, n + 1).stopped
    ensures entries[n].size in Walk(h, entries, n + 1).files
    ensures Walk(h, entries, n + 1).files[entries[n].size].unhashed == ""
  {
    var prev := Walk(h, entries, n);
    var e := entries[n];
    assert !prev.stopped;
    AddFileGrows(h, prev.files[e.size], e.path);
  }

  // ---------------------------------------------------------------------
  // The hash calls.

  /** A call reads a whole file reported among the first `n` entries whose
      size another reported entry shares. */
  predicate CallOk(entries: seq<Entry>, n: nat, c: HashCall)
  {
    && c.blocksize == WholeFile
    && exists i, j | 0 <= i < n && 0 <= j < n && i < |entries| && j < |entries| && i != j ::
         && !entries[i].isDir && !entries[j].isDir
         && entries[i].path == c.path && entries[i].size == entries[j].size
  }

  /** Every read hashes a whole file, and a file whose size no other entry
      has is never read. */
  lemma {:induction false} WalkCallsOk(h: Hasher, entries: seq<Entry>, n: nat)
    requires n <= |entries|
    ensures forall c | c in Walk(h, entries, n).calls :: CallOk(entries, n, c)
  {
    if n > 0 {
      WalkCallsOk(h, entries, n - 1);
      var prev := Walk(h, entries, n - 1);
      forall c | c in prev.calls ensures CallOk(entries, n, c) {
        assert CallOk(entries, n - 1, c);
      }
      var e := entries[n - 1];
      if !prev.stopped && !e.isDir && e.size in prev.files {
        WalkKeeps(h, entries, n - 1);
        CallbackCallsOk(h, entries, n - 1, prev.files);
      }
    }
  }

  /** The reads of the callback for entry n: the reported file, and the held
      file of its size, both sharing that size. */
  lemma CallbackCallsOk(h: Hasher, entries: seq<Entry>, n: nat, files: map<nat, Bucket>)
    requires n < |entries| && !entries[n].isDir && entries[n].size in files
    requires Sound(h, entries, n, files)
    ensures forall c | c in Callback(h, files, entries[n]).calls :: CallOk(entries, n + 1, c)
  {
    var e := entries[n];
    var b := files[e.size];
    AddFileCalls(h, b, e.path);
    var i0 :| 0 <= i0 < n && i0 < |entries| && !entries[i0].isDir && entries[i0].size == e.size;
    assert CallOk(entries, n + 1, HashCall(e.path, WholeFile)) by {
      assert n != i0 && entries[n].path == e.path;
    }
    if b.unhashed != "" {
      assert BucketSound(h, entries, n, e.size, b);
      var i1 :| 0 <= i1 < n && i1 < |entries| && !entries[i1].isDir && entries[i1].path == b.unhashed && entries[i1].size == e.size;
      assert CallOk(entries, n + 1, HashCall(b.unhashed, WholeFile)) by {
        assert i1 != n;
      }
    }
  }

  /** AddFile reads the new file, and then the held one if there is one. */
  lemma AddFileCalls(h: Hasher, b: Bucket, path: Path)
    ensures forall c | c in AddFile(h, b, path).calls ::
              c == HashCall(path, WholeFile) || (b.unhashed != "" && c == HashCall(b.unhashed, WholeFile))
  {
  }

  // ---------------------------------------------------------------------
  // The groups.

  /** Every returned group holds more than one path, all reported with the
      group's size and all with one full digest. */
  lemma GroupsSound(h: Hasher, entries: seq<Entry>, n: nat, g: Info)
    requires n <= |entries|
    requires g in GroupsOf(Walk(h, entries, n).files)
    ensures |g.names| > 1 && SameFullDigest(h, g)
    ensures forall i | 0 <= i < |g.names| :: WalkedAs(entries, n, g.names[i], g.size)
  {
    var files := Walk(h, entries, n).files;
    WalkKeeps(h, entries, n);
    var s, d :| s in files && d in files[s].hashes && |files[s].hashes[d]| > 1 && g == Info(s, files[s].hashes[d]);
    assert BucketSound(h, entries, n, s, files[s]);
  }

  /** Two digests of one bucket never hold the same non-empty list. */
  lemma ListsApart(h: Hasher, entries: seq<Entry>, n: nat, s: nat, d1: Digest, d2: Digest)
    requires n <= |entries|
    requires var files := Walk(h, entries, n).files;
      s in files && d1 in files[s].hashes && d2 in files[s].hashes && d1 != d2 && |files[s].hashes[d1]| > 0
    ensures Walk(h, entries, n).files[s].hashes[d1] != Walk(h, entries, n).files[s].hashes[d2]
  {
    var b := Walk(h, entries, n).files[s];
    WalkKeeps(h, entries, n);
    assert BucketSound(h, entries, n, s, b);
    var l1, l2 := b.hashes[d1], b.hashes[d2];
    assert h.Hash(l1[0], WholeFile) == Sum(d1);
    if |l2| > 0 {
      assert h.Hash(l2[0], WholeFile) == Sum(d2);
      assert l1[0] != l2[0];
    }
  }

  /** With no file path reported twice, no path appears twice in one list. */
  lemma {:induction false} ListsDistinct(h: Hasher, entries: seq<Entry>, n: nat)
    requires n <= |entries| && DistinctFiles(entries)
    ensures forall s, d | s in Walk(h, entries, n).files && d in Walk(h, entries, n).files[s].hashes ::
              Distinct(Walk(h, entries, n).files[s].hashes[d])
  {
    if n > 0 {
      ListsDistinct(h, entries, n - 1);
      WalkKeeps(h, entries, n - 1);
      var prev := Walk(h, entries, n - 1);
      var e := entries[n - 1];
      if !prev.stopped && !e.isDir && e.size in prev.files {
        var b := prev.files[e.size];
        assert BucketSound(h, entries, n - 1, e.size, b);
        forall d | d in b.hashes ensures e.path !in b.hashes[d] {
          forall k | 0 <= k < |b.hashes[d]| ensures b.hashes[d][k] != e.path {
            assert WalkedAs(entries, n - 1, b.hashes[d][k], e.size);
          }
        }
        if b.unhashed != "" {
          assert b.unhashed != e.path by {
            assert WalkedAs(entries, n - 1, b.unhashed, e.size);
          }
        }
        AddFileDistinct(h, b, e.path);
      }
    }
  }

  /** Handing a bucket a path it neither holds nor lists keeps its lists
      free of repeats. */
  lemma AddFileDistinct(h: Hasher, b: Bucket, path: Path)
    requires Held(b) && b.unhashed != path
    requires forall d | d in b.hashes :: Distinct(b.hashes[d]) && path !in b.hashes[d]
    ensures forall d | d in AddFile(h, b, path).bucket.hashes :: Distinct(AddFile(h, b, path).bucket.hashes[d])
  {
    match h.Hash(path, WholeFile)
    case ReadError =>
    case Sum(sum) =>
      DistinctAppend(b.hashes, sum, path);
      var added := Append(b.hashes, sum, path);
      if b.unhashed != "" {
        var u: Path := b.unhashed;
        match h.Hash(u, WholeFile)
        case ReadError =>
        case Sum(sum2) =>
          forall d | d in added ensures u !in added[d] {
            assert added.Keys == {sum};
          }
          DistinctAppend(added, sum2, u);
      }
  }

  /** Appending a path that no list holds keeps every list free of repeats. */
  lemma DistinctAppend(m: map<Digest, seq<Path>>, x: Digest, p: Path)
    requires forall d | d in m :: Distinct(m[d]) && p !in m[d]
    ensures forall d | d in Append(m, x, p) :: Distinct(Append(m, x, p)[d])
  {
    var l := if x in m then m[x] else [];
    forall i, j | 0 <= i < j < |l + [p]| ensures (l + [p])[i] != (l + [p])[j] {
      if j == |l| {
        assert (l + [p])[i] == l[i];
      } else {
        assert (l + [p])[i] == l[i] && (l + [p])[j] == l[j];
      }
    }
  }

  /** With no file path reported twice, no path is in two returned groups. */
  lemma GroupsDisjoint(h: Hasher, entries: seq<Entry>, n: nat, g1: Info, g2: Info, p: Path)
    requires n <= |entries| && DistinctFiles(entries)
    requires g1 in GroupsOf(Walk(h, entries, n).files) && g2 in GroupsOf(Walk(h, entries, n).files)
    requires p in g1.names && p in g2.names
    ensures g1 == g2
  {
    WalkKeeps(h, entries, n);
    SoundGroupsDisjoint(h, entries, n, Walk(h, entries, n).files, g1, g2, p);
  }

  /** In sound buckets, a path reported once is listed under one size and
      one digest only. */
  lemma SoundGroupsDisjoint(h: Hasher, entries: seq<Entry>, n: nat, files: map<nat, Bucket>, g1: Info, g2: Info, p: Path)
    requires DistinctFiles(entries) && Sound(h, entries, n, files)
    requires g1 in GroupsOf(files) && g2 in GroupsOf(files)
    requires p in g1.names && p in g2.names
    ensures g1 == g2
  {
    var s1, d1 :| s1 in files && d1 in files[s1].hashes && |files[s1].hashes[d1]| > 1 && g1 == Info(s1, files[s1].hashes[d1]);
    var s2, d2 :| s2 in files && d2 in files[s2].hashes && |files[s2].hashes[d2]| > 1 && g2 == Info(s2, files[s2].hashes[d2]);
    var i :| 0 <= i < |g1.names| && g1.names[i] == p;
    var j :| 0 <= j < |g2.names| && g2.names[j] == p;
    ListedOnce(h, entries, n, s1, files[s1], d1, i, s2, files[s2], d2, j);
  }

  /** A path listed in two sound buckets is listed under the same size and
      the same digest. */
  lemma ListedOnce(h: Hasher, entries: seq<Entry>, n: nat, s1: nat, b1: Bucket, d1: Digest, i: nat,
                   s2: nat, b2: Bucket, d2: Digest, j: nat)
    requires DistinctFiles(entries) && BucketSound(h, entries, n, s1, b1) && BucketSound(h, entries, n, s2, b2)
    requires d1 in b1.hashes && i < |b1.hashes[d1]| && d2 in b2.hashes && j < |b2.hashes[d2]|
    requires b1.hashes[d1][i] == b2.hashes[d2][j]
    ensures s1 == s2 && d1 == d2
  {
    var p := b1.hashes[d1][i];
    assert WalkedAs(entries, n, b1.hashes[d1][i], s1);
    assert WalkedAs(entries, n, b2.hashes[d2][j], s2);
    var a :| 0 <= a < n && a < |entries| && !entries[a].isDir && entries[a].path == p && entries[a].size == s1;
    var b :| 0 <= b < n && b < |entries| && !entries[b].isDir && entries[b].path == p && entries[b].size == s2;
    assert a == b;
    assert h.Hash(b1.hashes[d1][i], WholeFile) == Sum(d1);
    assert h.Hash(b2.hashes[d2][j], WholeFile) == Sum(d2);
  }



  // ---------------------------------------------------------------------
  // Completeness when the walk is not stopped.

  /** Where a reported file sits: it is the held file of its size, or it is
      listed under its full digest. */
  ghost predicate Placed(h: Hasher, files: map<nat, Bucket>, p: Path, s: nat)
  {
    && s in files
    && (|| files[s].unhashed == p
        || (&& h.Hash(p, WholeFile).Sum?
            && h.Hash(p, WholeFile).digest in files[s].hashes
            && p in files[s].hashes[h.Hash(p, WholeFile).digest]))
  }

  lemma {:induction false} WalkPlaces(h: Hasher, entries: seq<Entry>, n: nat)
    requires n <= |entries| && !Walk(h, entries, n).stopped
    ensures forall i | 0 <= i < n && !entries[i].isDir :: Placed(h, Walk(h, entries, n).files, entries[i].path, entries[i].size)
  {
    if n > 0 {
      assert !Walk(h, entries, n - 1).stopped;
      WalkPlaces(h, entries, n - 1);
      forall i | 0 <= i < n && !entries[i].isDir ensures Placed(h, Walk(h, entries, n).files, entries[i].path, entries[i].size) {
        PlacedStep(h, entries, n - 1, entries[i].path, entries[i].size);
      }
    }
  }

  /** The entry just reported is placed, and every placed file stays placed,
      as long as the walk goes on. */
  lemma PlacedStep(h: Hasher, entries: seq<Entry>, n: nat, p: Path, s: nat)
    requires n < |entries| && !Walk(h, entries, n + 1).stopped
    requires Placed(h, Walk(h, entries, n).files, p, s) || (!entries[n].isDir && p == entries[n].path && s == entries[n].size)
    ensures Placed(h, Walk(h, entries, n + 1).files, p, s)
  {
    var prev := Walk(h, entries, n);
    var e := entries[n];
    assert !prev.stopped;
    if !e.isDir && e.size in prev.files {
      var b := prev.files[e.size];
      AddFileGrows(h, b, e.path);
      var a := AddFile(h, b, e.path);
      assert Walk(h, entries, n + 1).files == prev.files[e.size := a.bucket];
      if s == e.size && p != e.path && b.unhashed != p {
        var d := h.Hash(p, WholeFile).digest;
        assert p in b.hashes[d];
      }
    }
  }

  /** Two different placed files of a size whose bucket holds no file next to
      hashed ones are both listed under their full digests. */
  lemma PlacedListed(h: Hasher, files: map<nat, Bucket>, p: Path, q: Path, s: nat)
    requires Placed(h, files, p, s) && Placed(h, files, q, s) && Held(files[s]) && p != q
    ensures h.Hash(p, WholeFile).Sum? && h.Hash(p, WholeFile).digest in files[s].hashes
    ensures p in files[s].hashes[h.Hash(p, WholeFile).digest]
  {
    if files[s].unhashed == p {
      assert false;
    }
  }

  /** Two different placed files with the same bytes share a list of more
      than one path. */
  lemma SameBytesGrouped(h: Hasher, files: map<nat, Bucket>, p: Path, q: Path, s: nat)
    requires Placed(h, files, p, s) && Placed(h, files, q, s) && Held(files[s]) && p != q
    requires p in h.files && q in h.files && h.files[p].content == h.files[q].content
    ensures exists g | g in GroupsOf(files) :: p in g.names && q in g.names
  {
    PlacedListed(h, files, p, q, s);
    PlacedListed(h, files, q, p, s);
    h.SameContentSameHash(p, q, WholeFile);
    var names := files[s].hashes[h.Hash(p, WholeFile).digest];
    assert p in names && q in names;
    assert |names| > 1;
    assert Info(s, names) in GroupsOf(files);
  }

  /** Completeness: when the walk is not stopped, two different reported
      files of the same size and the same bytes end up in one group. */
  lemma GroupsComplete(h: Hasher, entries: seq<Entry>, i: nat, j: nat)
    requires i < |entries| && j < |entries| && !Walk(h, entries, |entries|).stopped
    requires !entries[i].isDir && !entries[j].isDir
    requires entries[i].path != entries[j].path && entries[i].size == entries[j].size
    requires entries[i].path in h.files && entries[j].path in h.files
    requires h.files[entries[i].path].content == h.files[entries[j].path].content
    ensures exists g | g in GroupsOf(Walk(h, entries, |entries|).files) ::
              entries[i].path in g.names && entries[j].path in g.names
  {
    var files := Walk(h, entries, |entries|).files;
    WalkPlaces(h, entries, |entries|);
    WalkKeeps(h, entries, |entries|);
    assert Placed(h, files, entries[i].path, entries[i].size);
    assert Placed(h, files, entries[j].path, entries[j].size);
    SameBytesGrouped(h, files, entries[i].path, entries[j].path, entries[i].size);
  }
}
