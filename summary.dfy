/** The pure pieces of the command line's setup in main.go: the log level
    chosen with -v, the trailing separator added to the root, and the totals
    printed after a scan. */
module Summary {
  import opened Files
  import opened Groups

  // ---------------------------------------------------------------------
  // setLogLevel (main.go:16-25)

  datatype Level = DEBUG | INFO | NOTICE | WARNING | ERROR | CRITICAL

  /** orderedLevels: the -v value is an index into this list. */
  const OrderedLevels: seq<Level> := [DEBUG, INFO, NOTICE, WARNING, ERROR, CRITICAL]

  datatype LevelChoice = SetTo(level: Level) | InvalidLevel

  /** setLogLevel(l): the level at index l, or the "invalid log level"
      error for any other integer. */
  function SetLogLevel(l: int): (r: LevelChoice)
    ensures r.SetTo? <==> 0 <= l < 6
    ensures r.SetTo? ==> r.level == OrderedLevels[l]
  {
    if 0 <= l && l < |OrderedLevels| then SetTo(OrderedLevels[l]) else InvalidLevel
  }

  /** The -v value that selects a level. */
  function LevelIndex(level: Level): (i: nat)
    ensures i < |OrderedLevels| && OrderedLevels[i] == level
  {
    match level
    case DEBUG => 0
    case INFO => 1
    case NOTICE => 2
    case WARNING => 3
    case ERROR => 4
    case CRITICAL => 5
  }

  /** Every level can be selected, by exactly one -v value. */
  lemma SetLogLevelSelectsEachLevelOnce(level: Level, l: int)
    ensures SetLogLevel(LevelIndex(level)) == SetTo(level)
    ensures SetLogLevel(l) == SetTo(level) ==> l == LevelIndex(level)
  {
  }

  // ---------------------------------------------------------------------
  // The trailing separator (main.go:179-181)

  /** os.PathSeparator on the platforms the model covers. */
  const PathSeparator: char := '/'

  /** A root that does not end in the separator gets one appended. The
      source indexes the root's last byte, so it needs a non-empty root. */
  function WithTrailingSeparator(root: string): (r: string)
    requires |root| > 0
    ensures |r| > 0 && r[|r| - 1] == PathSeparator
    ensures root <= r && |r| <= |root| + 1
    ensures root[|root| - 1] == PathSeparator <==> r == root
  {
    if root[|root| - 1] != PathSeparator then root + [PathSeparator] else root
  }

  /** Adding the separator twice adds it once. */
  lemma TrailingSeparatorIdempotent(root: string)
    requires |root| > 0
    ensures WithTrailingSeparator(WithTrailingSeparator(root)) == WithTrailingSeparator(root)
  {
  }

  // ---------------------------------------------------------------------
  // The totals (main.go:187-192)

  /** 2^64: tsize is a uint64 and wraps around. */
  const U64Modulus: int := 0x1_0000_0000_0000_0000

  /** The files a keep-one cleanup would delete: one less than each set. */
  function FileCount(dupes: seq<Info>): int
  {
    if dupes == [] then 0
    else FileCount(dupes[..|dupes| - 1]) + |dupes[|dupes| - 1].names| - 1
  }

  /** The bytes a keep-one cleanup would free, in unbounded integers. */
  function TotalSize(dupes: seq<Info>): int
  {
    if dupes == [] then 0
    else TotalSize(dupes[..|dupes| - 1]) + dupes[|dupes| - 1].size * (|dupes[|dupes| - 1].names| - 1)
  }

  lemma ModAdd(a: int, b: int, m: int)
    requires m > 0
    ensures (a % m + b) % m == (a + b) % m
  {
    var q := a / m;
    assert a == q * m + a % m;
    ModShift(a % m + b, q, m);
  }

  lemma ModShift(x: int, q: int, m: int)
    requires m > 0
    ensures (x + q * m) % m == x % m
  {
    var r := x % m;
    var k := x / m;
    assert x == k * m + r;
    assert x + q * m == (k + q) * m + r;
    ModUnique(x + q * m, k + q, r, m);
  }

  /** The remainder is the only one in [0, m). */
  lemma ModUnique(y: int, d: int, r: int, m: int)
    requires m > 0 && 0 <= r < m && y == d * m + r
    ensures y % m == r
  {
    var q, s := y / m, y % m;
    assert y == q * m + s;
    assert d * m - q * m == s - r;
    MulSub(d, q, m);
    if d - q > 0 {
      MulAtLeast(d - q, m);
    } else if d - q < 0 {
      MulAtLeast(q - d, m);
      MulSub(q, d, m);
    }
  }

  lemma MulSub(a: int, b: int, m: int)
    ensures (a - b) * m == a * m - b * m
  {
  }

  lemma MulAtLeast(a: int, m: int)
    requires a >= 1 && m > 0
    ensures a * m >= m
  {
    assert a * m == (a - 1) * m + m;
  }

  lemma ModMul(a: int, b: int, m: int)
    requires m > 0
    ensures ((a % m) * (b % m)) % m == (a * b) % m
  {
    var qa, ra := a / m, a % m;
    var qb, rb := b / m, b % m;
    MulExpand(a, b, qa, ra, qb, rb, m);
    ModShift(ra * rb, qa * qb * m + qa * rb + qb * ra, m);
  }

  lemma MulExpand(a: int, b: int, qa: int, ra: int, qb: int, rb: int, m: int)
    requires a == qa * m + ra && b == qb * m + rb
    ensures a * b == ra * rb + (qa * qb * m + qa * rb + qb * ra) * m
  {
  }

  /** One more group's contribution to tsize, computed as uint64 does it:
      uint64(len(Names)-1) converts two's-complement, the product and the sum
      wrap modulo 2^64. */
  function AddU64(tsize: int, g: Info): int
  {
    (tsize + ((g.size % U64Modulus) * ((|g.names| - 1) % U64Modulus)) % U64Modulus) % U64Modulus
  }

  /** The summary loop: fcount counts the files beyond the first of each set
      and tsize their bytes, modulo 2^64. Go's int for fcount is taken as
      unbounded. */
  method Summarize(dupes: seq<Info>) returns (fcount: int, tsize: int)
    ensures fcount == FileCount(dupes)
    ensures tsize == TotalSize(dupes) % U64Modulus
    ensures 0 <= tsize < U64Modulus
  {
    fcount := 0;
    tsize := 0;
    var i := 0;
    while i < |dupes|
      invariant 0 <= i <= |dupes|
      invariant fcount == FileCount(dupes[..i])
      invariant tsize == TotalSize(dupes[..i]) % U64Modulus
    {
      var g := dupes[i];
      assert dupes[..i + 1][..i] == dupes[..i];
      fcount := fcount + |g.names| - 1;
      ModMul(g.size, |g.names| - 1, U64Modulus);
      ModAdd(TotalSize(dupes[..i]), g.size * (|g.names| - 1) % U64Modulus, U64Modulus);
      ModAdd(g.size * (|g.names| - 1), TotalSize(dupes[..i]), U64Modulus);
      tsize := AddU64(tsize, g);
      i := i + 1;
    }
    assert dupes[..i] == dupes;
  }

  /** The totals of two lists of sets add up. */
  lemma {:induction false} TotalsAdd(a: seq<Info>, b: seq<Info>)
    ensures FileCount(a + b) == FileCount(a) + FileCount(b)
    ensures TotalSize(a + b) == TotalSize(a) + TotalSize(b)
  {
    if b != [] {
      var n := |b| - 1;
      assert (a + b)[..|a + b| - 1] == a + b[..n];
      TotalsAdd(a, b[..n]);
    } else {
      assert a + b == a;
    }
  }

  /** For sets of more than one file the totals are never negative, and the
      count is at least one per set. */
  lemma {:induction false} TotalsBounds(dupes: seq<Info>)
    requires forall i | 0 <= i < |dupes| :: |dupes[i].names| > 1
    ensures FileCount(dupes) >= |dupes|
    ensures TotalSize(dupes) >= 0
  {
    if dupes != [] {
      var n := |dupes| - 1;
      TotalsBounds(dupes[..n]);
    }
  }

  /** The file count is the number of names minus one per set. */
  lemma {:induction false} FileCountIsNamesLessSets(dupes: seq<Info>)
    ensures FileCount(dupes) + |dupes| == NameCount(dupes)
  {
    if dupes != [] {
      FileCountIsNamesLessSets(dupes[..|dupes| - 1]);
    }
  }

  function NameCount(dupes: seq<Info>): nat
  {
    if dupes == [] then 0 else NameCount(dupes[..|dupes| - 1]) + |dupes[|dupes| - 1].names|
  }
}
