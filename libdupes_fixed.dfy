/** A failed first-pass read of the held file, as written and as intended.

    As written (libdupes.go:109-113, LibDupesSpec.Step), the failure ends the
    visit: the current file is skipped and the unreadable file stays held, so
    every later file of that size meets the same failure and is skipped too.
    No group of that size is ever found (HeldFailureHidesSize), even for two
    readable files with equal bytes (EqualFilesLost).

    A failed read of the current file skips only that file. The corrected
    step treats the held file the same way: it drops it and hashes the current
    file as the first hashed file of its size. With
    it, two intact files with equal bytes always end up in one group, whatever
    else is unreadable (GroupsCompleteFixed). */
module LibDupesFixed {
  import opened Files
  import opened Groups
  import opened LibDupesSpec
  import opened LibDupesProofs

  // ---------------------------------------------------------------------
  // The engine as written.

  /** When the first visited file of size `s` cannot be read, the bucket of
      that size keeps holding it for the rest of the run. */
  lemma {:induction false} HeldFailureSticks(h: Hasher, pending: map<Path, nat>, order: seq<Path>, k: nat, s: nat)
    requires forall p | p in order :: p in pending
    requires k < |order| && pending[order[k]] == s && !Intact(h, order[k], s)
    requires forall j | 0 <= j < k :: pending[order[j]] != s
    ensures s in Run(h, pending, order).files && Run(h, pending, order).files[s] == NewBucket(order[k])
  {
    var n := |order| - 1;
    var init := order[..n];
    if k == n {
      BucketIffVisited(h, pending, init, s);
    } else {
      HeldFailureSticks(h, pending, init, k, s);
      var path := order[n];
      if pending[path] == s {
        HeldReadFails(h, NewBucket(order[k]), path, s);
      }
    }
  }

  /** As written, a size whose first visited file cannot be read yields no
      group at all: the unreadable file blocks every later file of its size. */
  lemma HeldFailureHidesSize(h: Hasher, pending: map<Path, nat>, order: seq<Path>, k: nat, s: nat)
    requires forall p | p in order :: p in pending
    requires k < |order| && pending[order[k]] == s && !Intact(h, order[k], s)
    requires forall j | 0 <= j < k :: pending[order[j]] != s
    ensures forall g | g in GroupsOf(Run(h, pending, order).files) :: g.size != s
  {
    HeldFailureSticks(h, pending, order, k, s);
  }

  /** Three files of 5 bytes: "x" is gone by the time it is hashed, "a" and
      "b" hold the same bytes. Visited in the order x, a, b, the engine as
      written returns no group, and the corrected one groups a with b. */
  lemma EqualFilesLost(md5: Bytes -> Digest)
    ensures var x: Path, a: Path, b: Path := "x", "a", "b";
            var h := Hasher(map[a := Blob([1, 2, 3, 4, 5], true), b := Blob([1, 2, 3, 4, 5], true)], md5);
            var pending := map[x := 5, a := 5, b := 5];
            && h.files[a] == h.files[b]
            && GroupsOf(Run(h, pending, [x, a, b]).files) == {}
            && exists g | g in GroupsOf(RunFixed(h, pending, [x, a, b]).files) :: a in g.names && b in g.names
  {
    var x: Path, a: Path, b: Path := "x", "a", "b";
    var h := Hasher(map[a := Blob([1, 2, 3, 4, 5], true), b := Blob([1, 2, 3, 4, 5], true)], md5);
    var pending := map[x := 5, a := 5, b := 5];
    var order := [x, a, b];
    var files := Run(h, pending, order).files;
    HeldFailureHidesSize(h, pending, order, 0, 5);
    forall s | s in files ensures s == 5 {
      BucketIffVisited(h, pending, order, s);
    }
    assert GroupsOf(files) == {};
    assert Distinct(order);
    GroupsCompleteFixed(h, pending, order, a, b);
  }

  // ---------------------------------------------------------------------
  // The corrected engine.

  /** Step, with a failed first-pass read of the held file skipping only the
      held file: the current file is then hashed into the emptied bucket. */
  function StepSkippingUnreadable(h: Hasher, b: Bucket, path: Path, size: nat): (o: Outcome)
    requires Consistent(b)
    ensures o.bucket.unhashed == "" && Consistent(o.bucket)
  {
    var blk := PrefixBlocksize(size);
    if b.unhashed == "" then Step(h, b, path, size)
    else
      var u: Path := b.unhashed;
      if h.Hash(u, blk).ReadError? then
        var o := HashCurrent(h, b.(unhashed := ""), path, blk);
        Outcome(o.bucket, [HashCall(u, blk)] + o.calls)
      else Step(h, b, path, size)
  }

  /** Visit, with the corrected step. */
  function VisitFixed(h: Hasher, pending: map<Path, nat>, st: State, path: Path): (r: State)
    requires path in pending && AllConsistent(st.files)
    ensures AllConsistent(r.files)
  {
    var size := pending[path];
    if size !in st.files then
      State(st.files[size := NewBucket(path)], st.calls)
    else
      var o := StepSkippingUnreadable(h, st.files[size], path, size);
      State(st.files[size := o.bucket], st.calls + o.calls)
  }

  /** Run, with the corrected step. */
  function RunFixed(h: Hasher, pending: map<Path, nat>, order: seq<Path>): (r: State)
    requires forall p | p in order :: p in pending
    ensures AllConsistent(r.files)
  {
    if order == [] then State(map[], [])
    else VisitFixed(h, pending, RunFixed(h, pending, order[..|order| - 1]), order[|order| - 1])
  }

  /** The corrected step differs from the step as written only when a held
      file cannot be read; then it still hashes the current file. */
  lemma FixedStepDiffers(h: Hasher, b: Bucket, path: Path, size: nat)
    requires Consistent(b)
    ensures StepSkippingUnreadable(h, b, path, size) != Step(h, b, path, size) ==>
              && b.unhashed != ""
              && Step(h, b, path, size).bucket == b
              && HashCall(path, PrefixBlocksize(size)) in StepSkippingUnreadable(h, b, path, size).calls
  {
    var blk := PrefixBlocksize(size);
    if b.unhashed != "" {
      var u: Path := b.unhashed;
      if h.Hash(u, blk).ReadError? {
        HeldReadFails(h, b, path, size);
        var o := HashCurrent(h, b.(unhashed := ""), path, blk);
        assert o.calls[0] == HashCall(path, blk);
        assert ([HashCall(u, blk)] + o.calls)[1] == HashCall(path, blk);
      }
    }
  }

  /** The corrected step keeps the bucket well formed. */
  lemma StepFixedKeeps(h: Hasher, pending: map<Path, nat>, seen: set<Path>, s: nat, b: Bucket, path: Path)
    requires WellFormed(h, pending, seen, s, b)
    requires path !in seen && path in pending && pending[path] == s
    ensures WellFormed(h, pending, seen + {path}, s, StepSkippingUnreadable(h, b, path, s).bucket)
  {
    var blk := PrefixBlocksize(s);
    if b.unhashed != "" && !Intact(h, b.unhashed, s) {
      var b0 := b.(unhashed := "");
      assert StepSkippingUnreadable(h, b, path, s).bucket == HashCurrent(h, b0, path, blk).bucket;
      HashCurrentKeeps(h, pending, seen, s, b0, path);
    } else {
      StepKeeps(h, pending, seen, s, b, path);
    }
  }

  /** The corrected run keeps the whole-state invariant. */
  lemma {:induction false} RunFixedKeeps(h: Hasher, pending: map<Path, nat>, order: seq<Path>)
    requires forall p | p in order :: p in pending
    requires Distinct(order)
    ensures Inv(h, pending, Seen(order), RunFixed(h, pending, order).files)
  {
    if order != [] {
      var n := |order| - 1;
      var init := order[..n];
      var path := order[n];
      SplitLast(order);
      RunFixedKeeps(h, pending, init);
      var seen := Seen(init);
      var st := RunFixed(h, pending, init);
      var size := pending[path];
      var files' := RunFixed(h, pending, order).files;
      forall s | s in files' ensures WellFormed(h, pending, seen + {path}, s, files'[s]) {
        if s == size {
          if size in st.files {
            StepFixedKeeps(h, pending, seen, s, st.files[s], path);
          }
        } else {
          WellFormedGrows(h, pending, seen, path, s, st.files[s]);
        }
      }
    }
  }

  /** The corrected step places the current file if it is intact and keeps
      every visited intact file of its size placed, even when the held file
      cannot be read. */
  lemma StepFixedPlaces(h: Hasher, pending: map<Path, nat>, seen: set<Path>, s: nat, b: Bucket, path: Path)
    requires WellFormed(h, pending, seen, s, b)
    requires path !in seen && path in pending && pending[path] == s
    requires forall p: Path | p in seen && p in pending && pending[p] == s && Intact(h, p, s) ::
               Placed(h, s, b, p) && (b.unhashed != "" ==> b.unhashed == p)
    ensures forall p: Path | p in seen + {path} && p in pending && pending[p] == s && Intact(h, p, s) ::
               Placed(h, s, StepSkippingUnreadable(h, b, path, s).bucket, p)
  {
    var blk := PrefixBlocksize(s);
    if b.unhashed != "" && !Intact(h, b.unhashed, s) {
      var b0 := b.(unhashed := "");
      assert StepSkippingUnreadable(h, b, path, s).bucket == HashCurrent(h, b0, path, blk).bucket;
      HashCurrentPlaces(h, pending, seen, s, b0, path);
    } else {
      assert StepSkippingUnreadable(h, b, path, s) == Step(h, b, path, s);
      StepPlaces(h, pending, seen, s, b, path);
    }
  }

  /** After a corrected run, every visited intact file is placed in its
      size's bucket, whatever other files could not be read. */
  lemma {:induction false} RunFixedPlaces(h: Hasher, pending: map<Path, nat>, order: seq<Path>, s: nat)
    requires forall p | p in order :: p in pending
    requires Distinct(order)
    ensures AllPlaced(h, pending, s, Seen(order), RunFixed(h, pending, order).files)
  {
    if order != [] {
      var n := |order| - 1;
      var init := order[..n];
      var path := order[n];
      SplitLast(order);
      RunFixedPlaces(h, pending, init, s);
      RunFixedKeeps(h, pending, init);
      var st := RunFixed(h, pending, init);
      var files := RunFixed(h, pending, order).files;
      var size := pending[path];
      if size in st.files {
        if size == s {
          StepFixedPlaces(h, pending, Seen(init), s, st.files[s], path);
        }
        assert files == st.files[size := StepSkippingUnreadable(h, st.files[size], path, size).bucket];
        forall p: Path | p in Seen(order) && p in pending && pending[p] == s && Intact(h, p, s)
          ensures FilePlaced(h, pending, files, p)
        {
          if size != s {
            assert FilePlaced(h, pending, st.files, p);
          }
        }
      } else {
        assert files == st.files[size := NewBucket(path)];
        forall p: Path | p in Seen(order) && p in pending && pending[p] == s && Intact(h, p, s)
          ensures FilePlaced(h, pending, files, p)
        {
          if p != path {
            assert FilePlaced(h, pending, st.files, p);
          }
        }
      }
    }
  }

  /** Completeness of the corrected engine: two distinct visited files with
      the same walked size and the same bytes, both intact, end up in one
      group, whichever other files cannot be read. */
  lemma GroupsCompleteFixed(h: Hasher, pending: map<Path, nat>, order: seq<Path>, p: Path, q: Path)
    requires forall x | x in order :: x in pending
    requires p in order && q in order && p != q && pending[p] == pending[q]
    requires Distinct(order) && Intact(h, p, pending[p]) && Intact(h, q, pending[q])
    requires h.files[p].content == h.files[q].content
    ensures exists g | g in GroupsOf(RunFixed(h, pending, order).files) :: p in g.names && q in g.names
  {
    var s := pending[p];
    RunFixedPlaces(h, pending, order, s);
    PlacedTogether(h, pending, s, Seen(order), RunFixed(h, pending, order).files, p, q);
  }
}
