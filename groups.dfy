/** The engine's output unit and its ordering: a set of duplicate files is an
    Info (the per-file size and the paths), and the result is sorted by
    sort.Reverse(bySize), descending by Size * len(Names). */
module Groups {
  import opened Files

  /** Info: the per-file size in bytes and the paths of one duplicate set. */
  datatype Info = Info(size: nat, names: seq<Path>)

  /** The key bySize.Less compares: Size * len(Names), the full count and not
      the count minus one. Integer width is not modelled. */
  function Key(g: Info): int
  {
    g.size * |g.names|
  }

  /** Every member of the group hashes, as a whole, to the same digest. */
  ghost predicate SameFullDigest(h: Hasher, g: Info)
  {
    forall i | 0 <= i < |g.names| :: h.Hash(g.names[i], WholeFile).Sum? && h.Hash(g.names[i], WholeFile) == h.Hash(g.names[0], WholeFile)
  }

  /** bySize.Less(a, b): a's key is smaller than b's. */
  predicate Less(a: Info, b: Info)
  {
    Key(a) < Key(b)
  }

  /** The order sort.Sort(sort.Reverse(bySize(s))) establishes: no element is
      Less than one after it. Ties are left in no particular order. */
  predicate SortedBySize(s: seq<Info>)
  {
    forall i, j | 0 <= i < j < |s| :: !Less(s[i], s[j])
  }

  predicate Distinct<T(==)>(s: seq<T>)
  {
    forall i, j | 0 <= i < j < |s| :: s[i] != s[j]
  }

  /** append(m[d], p) stored back under d, where a missing list is nil: the
      digest-to-paths update both engines make. */
  function Append(m: map<Digest, seq<Path>>, d: Digest, p: Path): map<Digest, seq<Path>>
  {
    m[d := (if d in m then m[d] else []) + [p]]
  }

  /** Appending p keeps every other path out of every list. */
  lemma AppendKeepsOut(m: map<Digest, seq<Path>>, d: Digest, p: Path, q: Path)
    requires p != q && forall k | k in m :: q !in m[k]
    ensures forall k | k in Append(m, d, p) :: q !in Append(m, d, p)[k]
  {
    forall k | k in Append(m, d, p) ensures q !in Append(m, d, p)[k] {
      if k == d {
        var l := if d in m then m[d] else [];
        assert Append(m, d, p)[k] == l + [p];
      }
    }
  }

  /** Puts `g` in front of the first element whose key is smaller. */
  function Insert(g: Info, s: seq<Info>): (r: seq<Info>)
    ensures multiset(r) == multiset(s) + multiset{g}
  {
    if s == [] || !Less(g, s[0]) then
      [g] + s
    else
      assert s == [s[0]] + s[1..];
      [s[0]] + Insert(g, s[1..])
  }

  /** Sortedness of a sequence that starts with `x`, from that of its tail. */
  lemma SortedCons(x: Info, s: seq<Info>)
    requires SortedBySize(s)
    requires forall y | y in s :: !Less(x, y)
    ensures SortedBySize([x] + s)
  {
    forall i, j | 0 <= i < j < |[x] + s| ensures !Less(([x] + s)[i], ([x] + s)[j]) {
      if i > 0 {
        assert ([x] + s)[i] == s[i - 1] && ([x] + s)[j] == s[j - 1];
      } else {
        assert ([x] + s)[j] == s[j - 1];
      }
    }
  }

  lemma {:induction false} InsertSorted(g: Info, s: seq<Info>)
    requires SortedBySize(s)
    ensures SortedBySize(Insert(g, s))
    ensures g !in s && Distinct(s) ==> Distinct(Insert(g, s))
  {
    if s == [] || !Less(g, s[0]) {
      forall y | y in s ensures !Less(g, y) {
        var k :| 0 <= k < |s| && s[k] == y;
        assert k == 0 || !Less(s[0], s[k]);
      }
      SortedCons(g, s);
    } else {
      var rest := Insert(g, s[1..]);
      InsertSorted(g, s[1..]);
      forall y | y in rest ensures !Less(s[0], y) {
        assert y in multiset(rest);
        if y != g {
          var k :| 0 <= k < |s[1..]| && s[1..][k] == y;
          assert s[k + 1] == y;
        }
      }
      SortedCons(s[0], rest);
      if g !in s && Distinct(s) {
        DistinctTail(s);
        assert s[0] !in multiset(rest);
        forall i, j | 0 <= i < j < |[s[0]] + rest| ensures ([s[0]] + rest)[i] != ([s[0]] + rest)[j] {
          if i > 0 {
            assert ([s[0]] + rest)[i] == rest[i - 1];
          } else {
            assert ([s[0]] + rest)[j] in rest;
          }
        }
      }
    }
  }

  lemma DistinctTail<T>(s: seq<T>)
    requires |s| > 0 && Distinct(s)
    ensures s[0] !in s[1..] && Distinct(s[1..])
  {
    forall k | 0 <= k < |s[1..]| ensures s[1..][k] != s[0] {
      assert s[1..][k] == s[k + 1];
    }
    forall i, j | 0 <= i < j < |s[1..]| ensures s[1..][i] != s[1..][j] {
      assert s[1..][i] == s[i + 1] && s[1..][j] == s[j + 1];
    }
  }

  lemma DistinctSnoc<T>(s: seq<T>, x: T)
    requires Distinct(s) && x !in s
    ensures Distinct(s + [x])
  {
    forall i, j | 0 <= i < j < |s + [x]| ensures (s + [x])[i] != (s + [x])[j] {
      assert (s + [x])[i] == s[i];
      if j < |s| {
        assert (s + [x])[j] == s[j];
      }
    }
  }

  lemma DistinctConcat<T>(a: seq<T>, b: seq<T>)
    requires Distinct(a) && Distinct(b)
    requires forall x | x in a :: x !in b
    ensures Distinct(a + b)
  {
    forall i, j | 0 <= i < j < |a + b| ensures (a + b)[i] != (a + b)[j] {
      if j < |a| {
        assert (a + b)[i] == a[i] && (a + b)[j] == a[j];
      } else if i < |a| {
        assert (a + b)[i] == a[i] && (a + b)[j] == b[j - |a|];
        assert a[i] in a && b[j - |a|] in b;
      } else {
        assert (a + b)[i] == b[i - |a|] && (a + b)[j] == b[j - |a|];
      }
    }
  }

  /** sort.Sort(sort.Reverse(bySize(s))): a permutation of `s` ordered by
      descending key. Go's sort is not stable; only the key order is promised. */
  function SortBySize(s: seq<Info>): (r: seq<Info>)
    ensures SortedBySize(r)
    ensures multiset(r) == multiset(s)
    ensures Distinct(s) ==> Distinct(r)
  {
    if s == [] then []
    else
      assert s == [s[0]] + s[1..];
      var rest := SortBySize(s[1..]);
      InsertSorted(s[0], rest);
      if Distinct(s) then
        DistinctTail(s);
        assert s[0] !in multiset(rest);
        Insert(s[0], rest)
      else
        Insert(s[0], rest)
  }

  lemma {:induction false} SortKeepsMembers(s: seq<Info>, g: Info)
    ensures g in SortBySize(s) <==> g in s
  {
    assert g in SortBySize(s) <==> g in multiset(SortBySize(s));
  }
}
