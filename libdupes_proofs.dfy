/** What the bucket state machine of LibDupesSpec keeps true while it runs,
    and what that says about the groups it returns. */
module LibDupesProofs {
  import opened Files
  import opened Groups
  import opened LibDupesSpec

  /** The paths visited so far. */
  function Seen(order: seq<Path>): set<Path>
  {
    set p | p in order
  }

  /** `p` has been visited and was walked with size `s`. */
  predicate Filed(pending: map<Path, nat>, seen: set<Path>, s: nat, p: Path)
  {
    p in seen && p in pending && pending[p] == s
  }

  /** Some visited file of size `s` has first-pass digest `d`. */
  ghost predicate PrefixSeen(h: Hasher, pending: map<Path, nat>, seen: set<Path>, s: nat, d: Digest)
  {
    exists q: Path :: Filed(pending, seen, s, q) && h.Hash(q, PrefixBlocksize(s)) == Sum(d)
  }

  /** `p`'s first-pass digest was read and equals that of another visited
      file of the same size: a prefix collision. */
  ghost predicate Collided(h: Hasher, pending: map<Path, nat>, seen: set<Path>, s: nat, p: Path)
  {
    && h.Hash(p, PrefixBlocksize(s)).Sum?
    && exists q: Path :: q != p && Filed(pending, seen, s, q) && h.Hash(q, PrefixBlocksize(s)) == h.Hash(p, PrefixBlocksize(s))
  }

  /** The file held unhashed, if any, was visited and has the bucket's size. */
  ghost predicate HeldOk(pending: map<Path, nat>, seen: set<Path>, s: nat, b: Bucket)
  {
    b.unhashed != "" ==> Filed(pending, seen, s, b.unhashed)
  }

  /** An unresolved prefix slot holds a visited file of this size whose
      first-pass digest is the slot's key; every slot, resolved or not, was
      taken by some visited file with that digest. */
  ghost predicate SlotsOk(h: Hasher, pending: map<Path, nat>, seen: set<Path>, s: nat, b: Bucket)
  {
    && (forall d | d in b.firstPass && b.firstPass[d] != "" ::
          Filed(pending, seen, s, b.firstPass[d]) && h.Hash(b.firstPass[d], PrefixBlocksize(s)) == Sum(d))
    && (forall d | d in b.firstPass :: PrefixSeen(h, pending, seen, s, d))
  }

  /** A path in a full-digest list: visited, of this size, its whole content
      hashes to the list's key, its prefix collided with another file's, and
      its prefix slot is resolved. */
  ghost predicate MemberOk(h: Hasher, pending: map<Path, nat>, seen: set<Path>, s: nat, b: Bucket, d: Digest, p: Path)
  {
    && Filed(pending, seen, s, p)
    && h.Hash(p, WholeFile) == Sum(d)
    && Collided(h, pending, seen, s, p)
    && h.Hash(p, PrefixBlocksize(s)).digest in b.firstPass
    && b.firstPass[h.Hash(p, PrefixBlocksize(s)).digest] == ""
  }

  ghost predicate ListsOk(h: Hasher, pending: map<Path, nat>, seen: set<Path>, s: nat, b: Bucket)
  {
    forall d | d in b.full ::
      && Distinct(b.full[d])
      && forall k | 0 <= k < |b.full[d]| :: MemberOk(h, pending, seen, s, b, d, b.full[d][k])
  }

  /** Everything the bucket of size `s` keeps true once the files of `seen`
      have been visited. */
  ghost predicate WellFormed(h: Hasher, pending: map<Path, nat>, seen: set<Path>, s: nat, b: Bucket)
  {
    && Consistent(b)
    && HeldOk(pending, seen, s, b)
    && SlotsOk(h, pending, seen, s, b)
    && ListsOk(h, pending, seen, s, b)
  }

  /** Whole-state invariant: every bucket is well formed and every visited
      file's size has a bucket. */
  ghost predicate Inv(h: Hasher, pending: map<Path, nat>, seen: set<Path>, files: map<nat, Bucket>)
  {
    && (forall s | s in files :: WellFormed(h, pending, seen, s, files[s]))
    && (forall p | p in seen :: p in pending && pending[p] in files)
  }

  // ---------------------------------------------------------------------

  /** A run of distinct paths is a shorter run of distinct paths and one
      path not visited before. */
  lemma SplitLast(order: seq<Path>)
    requires order != [] && Distinct(order)
    ensures var init := order[..|order| - 1];
            && Distinct(init)
            && order[|order| - 1] !in Seen(init)
            && Seen(order) == Seen(init) + {order[|order| - 1]}
  {
    var n := |order| - 1;
    var init := order[..n];
    forall i, j | 0 <= i < j < |init| ensures init[i] != init[j] {
      assert init[i] == order[i] && init[j] == order[j];
    }
    forall i | 0 <= i < n ensures init[i] != order[n] {
      assert init[i] == order[i];
    }
    assert order == init + [order[n]];
  }

  lemma WellFormedGrows(h: Hasher, pending: map<Path, nat>, seen: set<Path>, x: Path, s: nat, b: Bucket)
    requires WellFormed(h, pending, seen, s, b)
    ensures WellFormed(h, pending, seen + {x}, s, b)
  {
    var seen' := seen + {x};
    forall d | d in b.firstPass ensures PrefixSeen(h, pending, seen', s, d) {
      var q: Path :| Filed(pending, seen, s, q) && h.Hash(q, PrefixBlocksize(s)) == Sum(d);
      assert Filed(pending, seen', s, q);
    }
    forall d, k | d in b.full && 0 <= k < |b.full[d]| ensures MemberOk(h, pending, seen', s, b, d, b.full[d][k]) {
      var p := b.full[d][k];
      assert MemberOk(h, pending, seen, s, b, d, p);
      var q: Path :| q != p && Filed(pending, seen, s, q) && h.Hash(q, PrefixBlocksize(s)) == h.Hash(p, PrefixBlocksize(s));
      assert Filed(pending, seen', s, q);
    }
  }

  /** A visited path in a well-formed bucket is never a fresh one. */
  lemma MembersAreSeen(h: Hasher, pending: map<Path, nat>, seen: set<Path>, s: nat, b: Bucket, path: Path)
    requires WellFormed(h, pending, seen, s, b) && path !in seen
    ensures b.unhashed != path
    ensures forall d | d in b.firstPass :: b.firstPass[d] != path
    ensures forall d | d in b.full :: path !in b.full[d]
  {
    forall d | d in b.full ensures path !in b.full[d] {
      forall k | 0 <= k < |b.full[d]| ensures b.full[d][k] != path {
        assert MemberOk(h, pending, seen, s, b, d, b.full[d][k]);
      }
    }
  }

  /** An unresolved slot's path is in no full-digest list. */
  lemma SlotNotListed(h: Hasher, pending: map<Path, nat>, seen: set<Path>, s: nat, b: Bucket, d: Digest)
    requires WellFormed(h, pending, seen, s, b)
    requires d in b.firstPass && b.firstPass[d] != ""
    ensures forall d2 | d2 in b.full :: b.firstPass[d] !in b.full[d2]
  {
    forall d2, k | d2 in b.full && 0 <= k < |b.full[d2]| ensures b.full[d2][k] != b.firstPass[d] {
      assert MemberOk(h, pending, seen, s, b, d2, b.full[d2][k]);
    }
  }

  /** Filing a path that collided, whose slot is resolved, under its full
      digest keeps the bucket well formed (libdupes.go:138-144). */
  lemma HashFullKeeps(h: Hasher, pending: map<Path, nat>, seen: set<Path>, s: nat, b: Bucket, path: Path)
    requires b.unhashed == "" && WellFormed(h, pending, seen, s, b)
    requires Filed(pending, seen, s, path) && Collided(h, pending, seen, s, path)
    requires forall d | d in b.full :: path !in b.full[d]
    requires h.Hash(path, PrefixBlocksize(s)).digest in b.firstPass
    requires b.firstPass[h.Hash(path, PrefixBlocksize(s)).digest] == ""
    ensures WellFormed(h, pending, seen, s, HashFull(h, b, path).bucket)
  {
    match h.Hash(path, WholeFile)
    case ReadError =>
    case Sum(full) =>
      var b' := HashFull(h, b, path).bucket;
      assert b' == b.(full := Append(b.full, full, path));
      var old_ := if full in b.full then b.full[full] else [];
      assert b'.full[full] == old_ + [path];
      forall d | d in b'.full
        ensures Distinct(b'.full[d])
        ensures forall k | 0 <= k < |b'.full[d]| :: MemberOk(h, pending, seen, s, b', d, b'.full[d][k])
      {
        if d == full {
          forall k | 0 <= k < |b'.full[d]| ensures MemberOk(h, pending, seen, s, b', d, b'.full[d][k]) {
            if k < |old_| {
              assert MemberOk(h, pending, seen, s, b, d, old_[k]);
            }
          }
        } else {
          forall k | 0 <= k < |b'.full[d]| ensures MemberOk(h, pending, seen, s, b', d, b'.full[d][k]) {
            assert MemberOk(h, pending, seen, s, b, d, b.full[d][k]);
          }
        }
      }
  }

  /** The first-pass hash of a fresh path of size `s` and what follows it
      keep the bucket well formed. */
  lemma HashCurrentKeeps(h: Hasher, pending: map<Path, nat>, seen: set<Path>, s: nat, b: Bucket, path: Path)
    requires b.unhashed == "" && WellFormed(h, pending, seen, s, b)
    requires path !in seen && path in pending && pending[path] == s
    ensures WellFormed(h, pending, seen + {path}, s, HashCurrent(h, b, path, PrefixBlocksize(s)).bucket)
  {
    var blk := PrefixBlocksize(s);
    match h.Hash(path, blk)
    case ReadError =>
      WellFormedGrows(h, pending, seen, path, s, b);
    case Sum(sum) =>
      if sum !in b.firstPass {
        NewSlotKeeps(h, pending, seen, s, b, path, sum);
      } else if b.firstPass[sum] != "" {
        CollisionKeeps(h, pending, seen, s, b, path, sum);
      } else {
        ResolvedSlotKeeps(h, pending, seen, s, b, path, sum);
      }
  }

  /** A new prefix digest takes a slot (libdupes.go:145-147). */
  lemma NewSlotKeeps(h: Hasher, pending: map<Path, nat>, seen: set<Path>, s: nat, b: Bucket, path: Path, sum: Digest)
    requires b.unhashed == "" && WellFormed(h, pending, seen, s, b)
    requires path !in seen && path in pending && pending[path] == s
    requires h.Hash(path, PrefixBlocksize(s)) == Sum(sum) && sum !in b.firstPass
    ensures WellFormed(h, pending, seen + {path}, s, HashCurrent(h, b, path, PrefixBlocksize(s)).bucket)
  {
    var seen' := seen + {path};
    var blk := PrefixBlocksize(s);
    WellFormedGrows(h, pending, seen, path, s, b);
    assert Filed(pending, seen', s, path);
    var b' := b.(firstPass := b.firstPass[sum := path]);
    assert HashCurrent(h, b, path, blk).bucket == b';
    assert PrefixSeen(h, pending, seen', s, sum);
    assert ListsOk(h, pending, seen', s, b') by {
      forall d, k | d in b'.full && 0 <= k < |b'.full[d]|
        ensures MemberOk(h, pending, seen', s, b', d, b'.full[d][k])
      {
        var p := b.full[d][k];
        assert MemberOk(h, pending, seen', s, b, d, p);
        assert h.Hash(p, blk).digest != sum;
      }
    }
  }

  /** A prefix digest whose slot is resolved full-hashes only the current
      file (libdupes.go:138-144). */
  lemma ResolvedSlotKeeps(h: Hasher, pending: map<Path, nat>, seen: set<Path>, s: nat, b: Bucket, path: Path, sum: Digest)
    requires b.unhashed == "" && WellFormed(h, pending, seen, s, b)
    requires path !in seen && path in pending && pending[path] == s
    requires h.Hash(path, PrefixBlocksize(s)) == Sum(sum) && sum in b.firstPass && b.firstPass[sum] == ""
    ensures WellFormed(h, pending, seen + {path}, s, HashCurrent(h, b, path, PrefixBlocksize(s)).bucket)
  {
    var seen' := seen + {path};
    var blk := PrefixBlocksize(s);
    MembersAreSeen(h, pending, seen, s, b, path);
    WellFormedGrows(h, pending, seen, path, s, b);
    assert Filed(pending, seen', s, path);
    var q: Path :| Filed(pending, seen, s, q) && h.Hash(q, blk) == Sum(sum);
    assert Collided(h, pending, seen', s, path) by {
      assert q != path && Filed(pending, seen', s, q);
    }
    assert HashCurrent(h, b, path, blk).bucket == HashFull(h, b, path).bucket;
    HashFullKeeps(h, pending, seen', s, b, path);
  }

  /** A prefix digest colliding with an unresolved slot resolves it and
      full-hashes the slot's file, then the current one (libdupes.go:123-144). */
  lemma CollisionKeeps(h: Hasher, pending: map<Path, nat>, seen: set<Path>, s: nat, b: Bucket, path: Path, sum: Digest)
    requires b.unhashed == "" && WellFormed(h, pending, seen, s, b)
    requires path !in seen && path in pending && pending[path] == s
    requires h.Hash(path, PrefixBlocksize(s)) == Sum(sum) && sum in b.firstPass && b.firstPass[sum] != ""
    ensures WellFormed(h, pending, seen + {path}, s, HashCurrent(h, b, path, PrefixBlocksize(s)).bucket)
  {
    var seen' := seen + {path};
    var blk := PrefixBlocksize(s);
    var c: Path := b.firstPass[sum];
    MembersAreSeen(h, pending, seen, s, b, path);
    SlotNotListed(h, pending, seen, s, b, sum);
    var resolved := b.(firstPass := b.firstPass[sum := ""]);
    ResolveKeeps(h, pending, seen, s, b, path, sum);
    assert Filed(pending, seen', s, path) && Filed(pending, seen', s, c);
    // The slot's file was read for its prefix, so it is readable whole.
    assert h.Hash(c, blk) == Sum(sum);
    var full := h.Hash(c, WholeFile).digest;
    assert Collided(h, pending, seen', s, c) by {
      assert path != c && Filed(pending, seen', s, path);
    }
    HashFullKeeps(h, pending, seen', s, resolved, c);
    var withC := resolved.(full := Append(resolved.full, full, c));
    assert withC == HashFull(h, resolved, c).bucket;
    assert Collided(h, pending, seen', s, path) by {
      assert c != path && Filed(pending, seen', s, c);
    }
    AppendKeepsOut(resolved.full, full, c, path);
    HashFullKeeps(h, pending, seen', s, withC, path);
    assert HashCurrent(h, b, path, blk).bucket == HashFull(h, withC, path).bucket;
  }

  /** Marking the slot of a collision resolved keeps the bucket well formed
      once the current file is visited. */
  lemma ResolveKeeps(h: Hasher, pending: map<Path, nat>, seen: set<Path>, s: nat, b: Bucket, path: Path, sum: Digest)
    requires b.unhashed == "" && WellFormed(h, pending, seen, s, b)
    requires path !in seen && path in pending && pending[path] == s
    requires sum in b.firstPass && b.firstPass[sum] != ""
    ensures WellFormed(h, pending, seen + {path}, s, b.(firstPass := b.firstPass[sum := ""]))
  {
    var seen' := seen + {path};
    WellFormedGrows(h, pending, seen, path, s, b);
    var resolved := b.(firstPass := b.firstPass[sum := ""]);
    assert SlotsOk(h, pending, seen', s, resolved) by {
      assert forall d | d in resolved.firstPass :: d in b.firstPass;
    }
    assert ListsOk(h, pending, seen', s, resolved) by {
      forall d, k | d in resolved.full && 0 <= k < |resolved.full[d]|
        ensures MemberOk(h, pending, seen', s, resolved, d, resolved.full[d][k])
      {
        assert MemberOk(h, pending, seen', s, b, d, b.full[d][k]);
      }
    }
  }

  /** A later file of the bucket's size keeps the bucket well formed. */
  lemma StepKeeps(h: Hasher, pending: map<Path, nat>, seen: set<Path>, s: nat, b: Bucket, path: Path)
    requires WellFormed(h, pending, seen, s, b)
    requires path !in seen && path in pending && pending[path] == s
    ensures WellFormed(h, pending, seen + {path}, s, Step(h, b, path, s).bucket)
  {
    var blk := PrefixBlocksize(s);
    if b.unhashed != "" {
      var u: Path := b.unhashed;
      match h.Hash(u, blk)
      case ReadError =>
        WellFormedGrows(h, pending, seen, path, s, b);
      case Sum(sum) =>
        var b' := Bucket("", b.firstPass[sum := u], b.full);
        assert PrefixSeen(h, pending, seen, s, sum) by {
          assert Filed(pending, seen, s, u);
        }
        assert WellFormed(h, pending, seen, s, b');
        HashCurrentKeeps(h, pending, seen, s, b', path);
    } else {
      HashCurrentKeeps(h, pending, seen, s, b, path);
    }
  }

  /** One visit keeps the whole-state invariant. */
  lemma VisitKeeps(h: Hasher, pending: map<Path, nat>, seen: set<Path>, st: State, path: Path)
    requires AllConsistent(st.files) && Inv(h, pending, seen, st.files)
    requires path !in seen && path in pending
    ensures Inv(h, pending, seen + {path}, Visit(h, pending, st, path).files)
  {
    var size := pending[path];
    var files' := Visit(h, pending, st, path).files;
    forall s | s in files' ensures WellFormed(h, pending, seen + {path}, s, files'[s]) {
      if s == size {
        if size in st.files {
          StepKeeps(h, pending, seen, s, st.files[s], path);
        }
      } else {
        WellFormedGrows(h, pending, seen, path, s, st.files[s]);
      }
    }
  }

  /** The invariant holds after any run over distinct pending paths. */
  lemma {:induction false} RunKeeps(h: Hasher, pending: map<Path, nat>, order: seq<Path>)
    requires forall p | p in order :: p in pending
    requires Distinct(order)
    ensures Inv(h, pending, Seen(order), Run(h, pending, order).files)
  {
    if order != [] {
      var n := |order| - 1;
      var init := order[..n];
      SplitLast(order);
      RunKeeps(h, pending, init);
      VisitKeeps(h, pending, Seen(init), Run(h, pending, init), order[n]);
    }
  }

  // ---------------------------------------------------------------------
  // The groups.

  /** Every member of the group was walked as a file of exactly `g.size` bytes. */
  predicate WalkedWithSize(pending: map<Path, nat>, g: Info)
  {
    forall i | 0 <= i < |g.names| :: g.names[i] in pending && pending[g.names[i]] == g.size
  }

  /** Each returned group holds more than one path, no path twice, all of the
      group's size and all with one full digest; and each of its paths had a
      prefix collision with another file of that size. */
  lemma {:induction false} GroupsSound(h: Hasher, pending: map<Path, nat>, order: seq<Path>, g: Info)
    requires forall p | p in order :: p in pending
    requires Distinct(order)
    requires g in GroupsOf(Run(h, pending, order).files)
    ensures |g.names| > 1 && Distinct(g.names)
    ensures WalkedWithSize(pending, g) && SameFullDigest(h, g)
    ensures forall i | 0 <= i < |g.names| :: g.names[i] in order && Collided(h, pending, Seen(order), g.size, g.names[i])
  {
    var files := Run(h, pending, order).files;
    RunKeeps(h, pending, order);
    var s, d :| s in files && d in files[s].full && |files[s].full[d]| > 1 && g == Info(s, files[s].full[d]);
    assert WellFormed(h, pending, Seen(order), s, files[s]);
    forall i | 0 <= i < |g.names|
      ensures g.names[i] in order && g.names[i] in pending && pending[g.names[i]] == g.size
      ensures Collided(h, pending, Seen(order), g.size, g.names[i])
      ensures h.Hash(g.names[i], WholeFile) == Sum(d)
    {
      assert MemberOk(h, pending, Seen(order), s, files[s], d, g.names[i]);
    }
  }

  /** No path is in two returned groups. */
  lemma {:induction false} GroupsDisjoint(h: Hasher, pending: map<Path, nat>, order: seq<Path>, g1: Info, g2: Info, p: Path)
    requires forall p | p in order :: p in pending
    requires Distinct(order)
    requires g1 in GroupsOf(Run(h, pending, order).files) && g2 in GroupsOf(Run(h, pending, order).files)
    requires p in g1.names && p in g2.names
    ensures g1 == g2
  {
    var files := Run(h, pending, order).files;
    var s1, d1 :| s1 in files && d1 in files[s1].full && |files[s1].full[d1]| > 1 && g1 == Info(s1, files[s1].full[d1]);
    var s2, d2 :| s2 in files && d2 in files[s2].full && |files[s2].full[d2]| > 1 && g2 == Info(s2, files[s2].full[d2]);
    ListedOnce(h, pending, order, p, s1, d1, s2, d2);
  }

  /** A path is filed in at most one full-digest list of the whole state,
      and at most once in it. */
  lemma {:induction false} ListedOnce(h: Hasher, pending: map<Path, nat>, order: seq<Path>, p: Path, s1: nat, d1: Digest, s2: nat, d2: Digest)
    requires forall x | x in order :: x in pending
    requires Distinct(order)
    requires var files := Run(h, pending, order).files;
      && s1 in files && d1 in files[s1].full && p in files[s1].full[d1]
      && s2 in files && d2 in files[s2].full && p in files[s2].full[d2]
    ensures s1 == s2 && d1 == d2
    ensures Distinct(Run(h, pending, order).files[s1].full[d1])
  {
    var files := Run(h, pending, order).files;
    RunKeeps(h, pending, order);
    assert WellFormed(h, pending, Seen(order), s1, files[s1]);
    assert WellFormed(h, pending, Seen(order), s2, files[s2]);
    MemberFacts(h, pending, Seen(order), s1, files[s1], d1, p);
    MemberFacts(h, pending, Seen(order), s2, files[s2], d2, p);
  }

  /** A listed path has the bucket's size and the list's full digest, and
      the list holds no repeats. */
  lemma MemberFacts(h: Hasher, pending: map<Path, nat>, seen: set<Path>, s: nat, b: Bucket, d: Digest, p: Path)
    requires WellFormed(h, pending, seen, s, b) && d in b.full && p in b.full[d]
    ensures p in pending && pending[p] == s && h.Hash(p, WholeFile) == Sum(d)
    ensures Distinct(b.full[d])
  {
    var i :| 0 <= i < |b.full[d]| && b.full[d][i] == p;
    assert MemberOk(h, pending, seen, s, b, d, b.full[d][i]);
  }

  /** Within a bucket, two different full digests never hold the same
      non-empty list: a list's first path hashes to its own key. */
  predicate ListsApart(files: map<nat, Bucket>)
  {
    forall s, d1, d2 | s in files && d1 in files[s].full && d2 in files[s].full && d1 != d2 && |files[s].full[d1]| > 0 ::
      files[s].full[d1] != files[s].full[d2]
  }

  lemma RunListsApart(h: Hasher, pending: map<Path, nat>, order: seq<Path>)
    requires forall p | p in order :: p in pending
    requires Distinct(order)
    ensures ListsApart(Run(h, pending, order).files)
  {
    var files := Run(h, pending, order).files;
    RunKeeps(h, pending, order);
    forall s, d1, d2 | s in files && d1 in files[s].full && d2 in files[s].full && d1 != d2 && |files[s].full[d1]| > 0
      ensures files[s].full[d1] != files[s].full[d2]
    {
      var l1, l2 := files[s].full[d1], files[s].full[d2];
      assert WellFormed(h, pending, Seen(order), s, files[s]);
      assert MemberOk(h, pending, Seen(order), s, files[s], d1, l1[0]);
      if |l2| > 0 {
        assert MemberOk(h, pending, Seen(order), s, files[s], d2, l2[0]);
        assert l1[0] != l2[0];
      }
    }
  }

  // ---------------------------------------------------------------------
  // The hash calls.

  /** Another visited file has the same walked size as `p`. */
  ghost predicate SizeShared(pending: map<Path, nat>, seen: set<Path>, p: Path)
  {
    p in pending && exists q: Path :: q != p && Filed(pending, seen, pending[p], q)
  }

  /** A hash call reads a visited file whose size another visited file
      shares, either its first min(4096, size) bytes or all of it. */
  ghost predicate CallOk(pending: map<Path, nat>, seen: set<Path>, c: HashCall)
  {
    && c.path in seen
    && SizeShared(pending, seen, c.path)
    && (c.blocksize == PrefixBlocksize(pending[c.path]) || c.blocksize == WholeFile)
  }

  /** Every bucket's size belongs to some visited file. */
  ghost predicate Populated(pending: map<Path, nat>, seen: set<Path>, files: map<nat, Bucket>)
  {
    forall s | s in files :: exists q: Path :: Filed(pending, seen, s, q)
  }

  lemma CallOkGrows(pending: map<Path, nat>, seen: set<Path>, x: Path, c: HashCall)
    requires CallOk(pending, seen, c)
    ensures CallOk(pending, seen + {x}, c)
  {
    var q: Path :| q != c.path && Filed(pending, seen, pending[c.path], q);
    assert Filed(pending, seen + {x}, pending[c.path], q);
  }

  /** The files a visit reads: the current one, the held one, or one that
      holds a prefix slot; each read is a first-pass read or a whole read. */
  lemma StepReads(h: Hasher, b: Bucket, path: Path, size: nat)
    requires Consistent(b)
    ensures forall c | c in Step(h, b, path, size).calls ::
              && (c.blocksize == PrefixBlocksize(size) || c.blocksize == WholeFile)
              && (c.path == path || c.path == b.unhashed || c.path in b.firstPass.Values)
  {
    var blk := PrefixBlocksize(size);
    if b.unhashed != "" {
      var u: Path := b.unhashed;
      match h.Hash(u, blk)
      case ReadError =>
      case Sum(sum) =>
        var b0 := Bucket("", b.firstPass[sum := u], b.full);
        HashCurrentReads(h, b0, path, blk);
        forall v | v in b0.firstPass.Values ensures v == u || v in b.firstPass.Values {
          var d :| d in b0.firstPass && b0.firstPass[d] == v;
          if d != sum {
            assert b.firstPass[d] == v;
          }
        }
    } else {
      HashCurrentReads(h, b, path, blk);
    }
  }

  lemma HashCurrentReads(h: Hasher, b: Bucket, path: Path, blk: int)
    requires b.unhashed == ""
    ensures forall c | c in HashCurrent(h, b, path, blk).calls ::
              && (c.blocksize == blk || c.blocksize == WholeFile)
              && (c.path == path || c.path in b.firstPass.Values)
  {
    match h.Hash(path, blk)
    case ReadError =>
    case Sum(sum) =>
      if sum in b.firstPass && b.firstPass[sum] != "" {
        var c: Path := b.firstPass[sum];
        var resolved := b.(firstPass := b.firstPass[sum := ""]);
        match h.Hash(c, WholeFile)
        case ReadError =>
        case Sum(full) =>
          var o := HashFull(h, resolved.(full := Append(resolved.full, full, c)), path);
          assert HashCurrent(h, b, path, blk).calls == [HashCall(path, blk), HashCall(c, WholeFile)] + o.calls;
      }
  }

  /** The calls made while visiting `path` in a populated bucket of its size. */
  lemma StepCallsOk(h: Hasher, pending: map<Path, nat>, seen: set<Path>, b: Bucket, path: Path, q: Path)
    requires path in pending && path !in seen
    requires Consistent(b) && HeldOk(pending, seen, pending[path], b)
    requires SlotsOk(h, pending, seen, pending[path], b)
    requires Filed(pending, seen, pending[path], q)
    ensures forall c | c in Step(h, b, path, pending[path]).calls :: CallOk(pending, seen + {path}, c)
  {
    var s := pending[path];
    var seen' := seen + {path};
    StepReads(h, b, path, s);
    forall c | c in Step(h, b, path, s).calls ensures CallOk(pending, seen', c) {
      if c.path == path {
        assert Filed(pending, seen', s, q) && q != path;
      } else {
        if c.path == b.unhashed {
          assert Filed(pending, seen, s, c.path);
        } else {
          var d :| d in b.firstPass && b.firstPass[d] == c.path;
          assert Filed(pending, seen, s, c.path);
        }
        assert path != c.path && Filed(pending, seen', s, path);
      }
    }
  }

  /** Every hash call of a run reads a file visited in it, with block size
      min(4096, size) or the whole file, and of a size that some other visited
      file has: a file whose size is seen once is never read. */
  lemma {:induction false} RunCallsOk(h: Hasher, pending: map<Path, nat>, order: seq<Path>)
    requires forall p | p in order :: p in pending
    requires Distinct(order)
    ensures Populated(pending, Seen(order), Run(h, pending, order).files)
    ensures forall c | c in Run(h, pending, order).calls :: CallOk(pending, Seen(order), c)
  {
    if order != [] {
      var n := |order| - 1;
      var init := order[..n];
      var path := order[n];
      SplitLast(order);
      RunCallsOk(h, pending, init);
      RunKeeps(h, pending, init);
      var st := Run(h, pending, init);
      var seen := Seen(init);
      var size := pending[path];
      assert Filed(pending, Seen(order), size, path);
      forall s | s in Run(h, pending, order).files ensures exists q: Path :: Filed(pending, Seen(order), s, q) {
        if s != size {
          var q: Path :| Filed(pending, seen, s, q);
          assert Filed(pending, Seen(order), s, q);
        }
      }
      forall c | c in st.calls ensures CallOk(pending, Seen(order), c) {
        CallOkGrows(pending, seen, path, c);
      }
      if size in st.files {
        var q: Path :| Filed(pending, seen, size, q);
        assert WellFormed(h, pending, seen, size, st.files[size]);
        StepCallsOk(h, pending, seen, st.files[size], path, q);
      }
    }
  }

  // ---------------------------------------------------------------------
  // Completeness for a size whose first visited file can be read.

  /** `p` can be read, and is at least as long as the first pass for size
      `s` asks for: both of its hashes succeed. */
  ghost predicate Intact(h: Hasher, p: Path, s: nat)
  {
    p in h.files && h.files[p].readable && PrefixBlocksize(s) <= |h.files[p].content|
  }

  /** The first file of size `s` that the run visits, if there is one, is
      intact: it is the only file a bucket ever holds unhashed. Later files
      of that size, and files of other sizes, may be unreadable. */
  ghost predicate FirstIntact(h: Hasher, pending: map<Path, nat>, order: seq<Path>, s: nat)
    requires forall p | p in order :: p in pending
  {
    forall k | 0 <= k < |order| && pending[order[k]] == s && (forall j | 0 <= j < k :: pending[order[j]] != s) ::
      Intact(h, order[k], s)
  }

  /** Dropping the last visited path keeps the first file of size `s` intact. */
  lemma FirstIntactInit(h: Hasher, pending: map<Path, nat>, order: seq<Path>, s: nat)
    requires forall p | p in order :: p in pending
    requires order != [] && FirstIntact(h, pending, order, s)
    ensures FirstIntact(h, pending, order[..|order| - 1], s)
  {
    var init := order[..|order| - 1];
    forall k | 0 <= k < |init| && pending[init[k]] == s && (forall j | 0 <= j < k :: pending[init[j]] != s)
      ensures Intact(h, init[k], s)
    {
      assert init[k] == order[k];
      forall j | 0 <= j < k ensures pending[order[j]] != s {
        assert order[j] == init[j];
      }
    }
  }

  /** A size has a bucket exactly when a file of that size was visited. */
  lemma {:induction false} BucketIffVisited(h: Hasher, pending: map<Path, nat>, order: seq<Path>, s: nat)
    requires forall p | p in order :: p in pending
    ensures s in Run(h, pending, order).files <==> exists i | 0 <= i < |order| :: pending[order[i]] == s
  {
    if order != [] {
      var n := |order| - 1;
      var init := order[..n];
      BucketIffVisited(h, pending, init, s);
      if s in Run(h, pending, init).files {
        var i :| 0 <= i < |init| && pending[init[i]] == s;
        assert order[i] == init[i];
      }
      if exists i | 0 <= i < |order| :: pending[order[i]] == s {
        var i :| 0 <= i < |order| && pending[order[i]] == s;
        if i < n {
          assert init[i] == order[i];
        }
      }
    }
  }

  /** When the first visited file of size `s` is intact, the file that
      size's bucket holds, if any, is intact: it is that first file. */
  lemma {:induction false} RunHeldIntact(h: Hasher, pending: map<Path, nat>, order: seq<Path>, s: nat)
    requires forall p | p in order :: p in pending
    requires FirstIntact(h, pending, order, s)
    ensures s in Run(h, pending, order).files ==> HeldIntact(h, s, Run(h, pending, order).files[s])
  {
    if order != [] {
      var n := |order| - 1;
      var init := order[..n];
      var path := order[n];
      FirstIntactInit(h, pending, order, s);
      RunHeldIntact(h, pending, init, s);
      var st := Run(h, pending, init);
      if pending[path] == s {
        if s !in st.files {
          BucketIffVisited(h, pending, init, s);
          forall j | 0 <= j < n ensures pending[order[j]] != s {
            assert order[j] == init[j];
          }
        } else if st.files[s].unhashed != "" {
          var u: Path := st.files[s].unhashed;
          assert h.Hash(u, PrefixBlocksize(s)).Sum?;
        }
      }
    }
  }

  function PrefixDigest(h: Hasher, p: Path, s: nat): Digest
    requires h.Hash(p, PrefixBlocksize(s)).Sum?
  {
    h.Hash(p, PrefixBlocksize(s)).digest
  }

  function FullDigest(h: Hasher, p: Path): Digest
    requires h.Hash(p, WholeFile).Sum?
  {
    h.Hash(p, WholeFile).digest
  }

  /** Where a visited file of the bucket's size sits when no read fails: it is
      the held file; or it owns its prefix slot; or the slot is resolved and
      the file is filed under its full digest. */
  ghost predicate Placed(h: Hasher, s: nat, b: Bucket, p: Path)
    requires h.Hash(p, PrefixBlocksize(s)).Sum? && h.Hash(p, WholeFile).Sum?
  {
    || b.unhashed == p
    || (&& b.unhashed == ""
        && PrefixDigest(h, p, s) in b.firstPass
        && (|| b.firstPass[PrefixDigest(h, p, s)] == p
            || (&& b.firstPass[PrefixDigest(h, p, s)] == ""
                && FullDigest(h, p) in b.full
                && p in b.full[FullDigest(h, p)])))
  }

  /** Every visited intact file of size `s` is placed. */
  ghost predicate AllPlaced(h: Hasher, pending: map<Path, nat>, s: nat, seen: set<Path>, files: map<nat, Bucket>)
  {
    forall p: Path | p in seen && p in pending && pending[p] == s && Intact(h, p, s) :: FilePlaced(h, pending, files, p)
  }

  /** A visited file has a bucket, is placed in it, and is the held file if
      the bucket holds one. */
  ghost predicate FilePlaced(h: Hasher, pending: map<Path, nat>, files: map<nat, Bucket>, p: Path)
    requires p in pending && Intact(h, p, pending[p])
  {
    && pending[p] in files
    && Placed(h, pending[p], files[pending[p]], p)
    && (files[pending[p]].unhashed != "" ==> files[pending[p]].unhashed == p)
  }

  /** After a run in which the first visited file of size `s` is intact,
      every visited intact file of that size is placed in its bucket. */
  lemma {:induction false} RunPlaces(h: Hasher, pending: map<Path, nat>, order: seq<Path>, s: nat)
    requires forall p | p in order :: p in pending
    requires Distinct(order) && FirstIntact(h, pending, order, s)
    ensures AllPlaced(h, pending, s, Seen(order), Run(h, pending, order).files)
  {
    if order != [] {
      var n := |order| - 1;
      var init := order[..n];
      var path := order[n];
      SplitLast(order);
      FirstIntactInit(h, pending, order, s);
      RunPlaces(h, pending, init, s);
      RunKeeps(h, pending, init);
      RunHeldIntact(h, pending, init, s);
      VisitPlaces(h, pending, s, Seen(init), Run(h, pending, init), path);
    }
  }

  /** When the held file of size `s`, if any, is intact, one visit keeps
      every visited intact file of that size placed, and places the visited
      file if it has that size and is intact. */
  lemma VisitPlaces(h: Hasher, pending: map<Path, nat>, s: nat, seen: set<Path>, st: State, path: Path)
    requires (s in st.files ==> HeldIntact(h, s, st.files[s])) && AllConsistent(st.files)
    requires Inv(h, pending, seen, st.files) && AllPlaced(h, pending, s, seen, st.files)
    requires path !in seen && path in pending
    ensures AllPlaced(h, pending, s, seen + {path}, Visit(h, pending, st, path).files)
  {
    var size := pending[path];
    var files := Visit(h, pending, st, path).files;
    if size in st.files {
      if size == s {
        StepPlaces(h, pending, seen, size, st.files[size], path);
      }
      assert files == st.files[size := Step(h, st.files[size], path, size).bucket];
      forall p: Path | p in seen + {path} && p in pending && pending[p] == s && Intact(h, p, s) ensures FilePlaced(h, pending, files, p) {
        if size != s {
          assert FilePlaced(h, pending, st.files, p);
        }
      }
    } else {
      assert files == st.files[size := NewBucket(path)];
      forall p: Path | p in seen + {path} && p in pending && pending[p] == s && Intact(h, p, s) ensures FilePlaced(h, pending, files, p) {
        if p != path {
          assert FilePlaced(h, pending, st.files, p);
        }
      }
    }
  }

  /** The held file, if there is one, is intact. */
  ghost predicate HeldIntact(h: Hasher, s: nat, b: Bucket)
  {
    b.unhashed != "" ==> var u: Path := b.unhashed; Intact(h, u, s)
  }

  /** When the held file can be read, a visit of `path` places `path` if it
      is intact, keeps every other visited intact file of its size placed,
      and leaves no file held. */
  lemma StepPlaces(h: Hasher, pending: map<Path, nat>, seen: set<Path>, s: nat, b: Bucket, path: Path)
    requires HeldIntact(h, s, b) && WellFormed(h, pending, seen, s, b)
    requires path !in seen && path in pending && pending[path] == s
    requires forall p: Path | p in seen && p in pending && pending[p] == s && Intact(h, p, s) ::
               Placed(h, s, b, p) && (b.unhashed != "" ==> b.unhashed == p)
    ensures forall p: Path | p in seen + {path} && p in pending && pending[p] == s && Intact(h, p, s) ::
               Placed(h, s, Step(h, b, path, s).bucket, p) && Step(h, b, path, s).bucket.unhashed == ""
  {
    var blk := PrefixBlocksize(s);
    var b0 := b;
    if b.unhashed != "" {
      var u: Path := b.unhashed;
      b0 := Bucket("", b.firstPass[PrefixDigest(h, u, s) := u], b.full);
      assert Step(h, b, path, s) == Outcome(HashCurrent(h, b0, path, blk).bucket, [HashCall(u, blk)] + HashCurrent(h, b0, path, blk).calls);
      forall p: Path | p in seen && p in pending && pending[p] == s && Intact(h, p, s) ensures p == u {
      }
      assert Placed(h, s, b0, u);
      assert WellFormed(h, pending, seen, s, b0) by {
        assert PrefixSeen(h, pending, seen, s, PrefixDigest(h, u, s)) by {
          assert Filed(pending, seen, s, u);
        }
      }
    }
    assert Step(h, b, path, s).bucket == HashCurrent(h, b0, path, blk).bucket;
    HashCurrentPlaces(h, pending, seen, s, b0, path);
  }

  /** The first-pass hash of the current file keeps every visited intact
      file of its size placed, and places the current file if it is intact;
      a file whose first-pass read fails changes nothing. */
  lemma HashCurrentPlaces(h: Hasher, pending: map<Path, nat>, seen: set<Path>, s: nat, b: Bucket, path: Path)
    requires WellFormed(h, pending, seen, s, b) && b.unhashed == ""
    requires path !in seen && path in pending && pending[path] == s
    requires forall p: Path | p in seen && p in pending && pending[p] == s && Intact(h, p, s) :: Placed(h, s, b, p)
    ensures forall p: Path | p in seen + {path} && p in pending && pending[p] == s && Intact(h, p, s) ::
               Placed(h, s, HashCurrent(h, b, path, PrefixBlocksize(s)).bucket, p)
  {
    if !Intact(h, path, s) {
      assert HashCurrent(h, b, path, PrefixBlocksize(s)).bucket == b;
      return;
    }
    var sum := PrefixDigest(h, path, s);
    MembersAreSeen(h, pending, seen, s, b, path);
    if sum !in b.firstPass {
      var b' := b.(firstPass := b.firstPass[sum := path]);
      assert HashCurrent(h, b, path, PrefixBlocksize(s)).bucket == b';
      forall p: Path | p in seen + {path} && p in pending && pending[p] == s && Intact(h, p, s) ensures Placed(h, s, b', p) {
        if p != path {
          assert Placed(h, s, b, p);
        }
      }
    } else if b.firstPass[sum] != "" {
      CollisionPlaces(h, pending, seen, s, b, path);
    } else {
      ResolvedSlotPlaces(h, pending, seen, s, b, path);
    }
  }

  lemma CollisionPlaces(h: Hasher, pending: map<Path, nat>, seen: set<Path>, s: nat, b: Bucket, path: Path)
    requires Intact(h, path, s) && WellFormed(h, pending, seen, s, b) && b.unhashed == ""
    requires path !in seen && path in pending && pending[path] == s
    requires forall p: Path | p in seen && p in pending && pending[p] == s && Intact(h, p, s) :: Placed(h, s, b, p)
    requires PrefixDigest(h, path, s) in b.firstPass && b.firstPass[PrefixDigest(h, path, s)] != ""
    ensures forall p: Path | p in seen + {path} && p in pending && pending[p] == s && Intact(h, p, s) ::
               Placed(h, s, HashCurrent(h, b, path, PrefixBlocksize(s)).bucket, p)
  {
    var sum := PrefixDigest(h, path, s);
    var b' := HashCurrent(h, b, path, PrefixBlocksize(s)).bucket;
    var c: Path := b.firstPass[sum];
    assert Filed(pending, seen, s, c);
    var fc := FullDigest(h, c);
    var fp := FullDigest(h, path);
    var resolved := b.(firstPass := b.firstPass[sum := ""]);
    var withC := resolved.(full := Append(resolved.full, fc, c));
    assert b' == withC.(full := Append(withC.full, fp, path));
    forall p: Path | p in seen + {path} && p in pending && pending[p] == s && Intact(h, p, s) ensures Placed(h, s, b', p) {
      if p != path && p != c {
        assert Placed(h, s, b, p);
        OtherStaysPlaced(h, s, b, sum, c, fc, fp, path, p);
      }
    }
  }

  /** Resolving the slot `sum` and filing its file and one more under their
      full digests leaves every other placed file placed. */
  lemma OtherStaysPlaced(h: Hasher, s: nat, b: Bucket, sum: Digest, c: Path, fc: Digest, fp: Digest, path: Path, p: Path)
    requires h.Hash(p, PrefixBlocksize(s)).Sum? && h.Hash(p, WholeFile).Sum?
    requires b.unhashed == "" && sum in b.firstPass && b.firstPass[sum] == c && p != c
    requires Placed(h, s, b, p)
    ensures Placed(h, s, Bucket("", b.firstPass[sum := ""], Append(Append(b.full, fc, c), fp, path)), p)
  {
    var b' := Bucket("", b.firstPass[sum := ""], Append(Append(b.full, fc, c), fp, path));
    if b.firstPass[PrefixDigest(h, p, s)] == p {
      assert PrefixDigest(h, p, s) != sum;
    } else {
      var fd := FullDigest(h, p);
      assert b.full[fd] <= Append(b.full, fc, c)[fd];
      assert p in b'.full[fd];
    }
  }

  lemma ResolvedSlotPlaces(h: Hasher, pending: map<Path, nat>, seen: set<Path>, s: nat, b: Bucket, path: Path)
    requires Intact(h, path, s) && WellFormed(h, pending, seen, s, b) && b.unhashed == ""
    requires path !in seen && path in pending && pending[path] == s
    requires forall p: Path | p in seen && p in pending && pending[p] == s && Intact(h, p, s) :: Placed(h, s, b, p)
    requires PrefixDigest(h, path, s) in b.firstPass && b.firstPass[PrefixDigest(h, path, s)] == ""
    ensures forall p: Path | p in seen + {path} && p in pending && pending[p] == s && Intact(h, p, s) ::
               Placed(h, s, HashCurrent(h, b, path, PrefixBlocksize(s)).bucket, p)
  {
    var b' := HashCurrent(h, b, path, PrefixBlocksize(s)).bucket;
    var fp := FullDigest(h, path);
    assert b' == b.(full := Append(b.full, fp, path));
    forall p: Path | p in seen + {path} && p in pending && pending[p] == s && Intact(h, p, s) ensures Placed(h, s, b', p) {
      if p != path {
        assert Placed(h, s, b, p);
        if b.firstPass[PrefixDigest(h, p, s)] != p {
          assert p in b'.full[FullDigest(h, p)];
        }
      }
    }
  }

  /** Two distinct placed files of size `s` with the same bytes share a
      full-digest list of the bucket, so they are in one group. */
  lemma PlacedTogether(h: Hasher, pending: map<Path, nat>, s: nat, seen: set<Path>, files: map<nat, Bucket>, p: Path, q: Path)
    requires AllPlaced(h, pending, s, seen, files)
    requires Filed(pending, seen, s, p) && Filed(pending, seen, s, q) && p != q
    requires Intact(h, p, s) && Intact(h, q, s) && h.files[p].content == h.files[q].content
    ensures exists g | g in GroupsOf(files) :: p in g.names && q in g.names
  {
    var b := files[s];
    assert Placed(h, s, b, p) && Placed(h, s, b, q);
    h.SameContentSameHash(p, q, PrefixBlocksize(s));
    h.SameContentSameHash(p, q, WholeFile);
    var d := FullDigest(h, p);
    assert b.firstPass[PrefixDigest(h, p, s)] == "";
    var names := b.full[d];
    assert p in names && q in names;
    assert |names| > 1;
    assert Info(s, names) in GroupsOf(files);
  }

  /** Completeness: two distinct intact files with the same walked size and
      the same bytes end up in one group when the first visited file of their
      size is intact too, whatever happens to any other file. When that first
      file is not intact, LibDupesFixed.HeldFailureHidesSize shows that no
      group of the size is found. */
  lemma {:induction false} GroupsComplete(h: Hasher, pending: map<Path, nat>, order: seq<Path>, p: Path, q: Path)
    requires forall x | x in order :: x in pending
    requires p in order && q in order && p != q && pending[p] == pending[q]
    requires Distinct(order) && Intact(h, p, pending[p]) && Intact(h, q, pending[q])
    requires FirstIntact(h, pending, order, pending[p])
    requires h.files[p].content == h.files[q].content
    ensures exists g | g in GroupsOf(Run(h, pending, order).files) :: p in g.names && q in g.names
  {
    var s := pending[p];
    RunPlaces(h, pending, order, s);
    PlacedTogether(h, pending, s, Seen(order), Run(h, pending, order).files, p, q);
  }
}
