/** The automatic cleanup of runAutomatic (main.go:288-355). Each name of a
    set is classified by the --prefer expression and, if given, the --over
    expression; the policy then removes the non-preferred names (or, with
    --invert, the preferred ones). A regular expression is modelled by the
    predicate "matches this name"; `remove` by the names it is called with. */
module Automatic {
  import opened Files
  import opened Groups

  datatype Option<T> = None | Some(value: T)

  /** p: the names --prefer matches. */
  function Preferred(names: seq<Path>, prefer: Path -> bool): set<Path>
  {
    set n | n in names && prefer(n)
  }

  /** o: the names --over matches and --prefer does not; empty without --over. */
  function Overridden(names: seq<Path>, prefer: Path -> bool, over: Option<Path -> bool>): set<Path>
  {
    if over.None? then {} else set n | n in names && !prefer(n) && over.value(n)
  }

  /** The names the policy removes from one set (main.go:313-350). Nothing
      unless --prefer matched. With --over: nothing unless o is non-empty, and
      then o (or p with --invert). Without --over: nothing unless p has fewer
      names than the set, and then every name outside p (or inside p with
      --invert). */
  function AutoRemovals(names: seq<Path>, prefer: Path -> bool, over: Option<Path -> bool>, invert: bool): set<Path>
  {
    var p := Preferred(names, prefer);
    var o := Overridden(names, prefer, over);
    if |p| == 0 then {}
    else if over.Some? then (if |o| > 0 then (if invert then p else o) else {})
    else if |p| < |names| then set n | n in names && ((n in p) == invert)
    else {}
  }

  /** Removing every key of a map, in the map's (arbitrary) order. */
  method RemoveAll(s: set<Path>) returns (removed: seq<Path>)
    ensures forall x :: x in removed <==> x in s
    ensures Distinct(removed)
  {
    removed := [];
    var left := s;
    while left != {}
      invariant left <= s
      invariant forall x :: x in removed <==> x in s - left
      invariant Distinct(removed)
      decreases |left|
    {
      var n :| n in left;
      DistinctSnoc(removed, n);
      removed := removed + [n];
      left := left - {n};
    }
  }

  /** The first loop of a set: p collects the names --prefer matches, o the
      others that --over matches (main.go:295-312). */
  method Classify(names: seq<Path>, prefer: Path -> bool, over: Option<Path -> bool>)
    returns (p: set<Path>, o: set<Path>)
    ensures p == Preferred(names, prefer)
    ensures o == Overridden(names, prefer, over)
  {
    p, o := {}, {};
    var i := 0;
    while i < |names|
      invariant 0 <= i <= |names|
      invariant p == Preferred(names[..i], prefer)
      invariant o == Overridden(names[..i], prefer, over)
    {
      var n := names[i];
      var pm := prefer(n);
      var om := false;
      if over.Some? {
        om := over.value(n);
      }
      if pm {
        p := p + {n};
      } else if om {
        o := o + {n};
      }
      assert names[..i + 1] == names[..i] + [n];
      i := i + 1;
    }
    assert names[..i] == names;
  }

  /** Without --over: every name outside p, or with --invert every name in
      p, in the set's order (main.go:341-348). */
  method RemoveByPreference(names: seq<Path>, p: set<Path>, invert: bool) returns (removed: seq<Path>)
    ensures forall x :: x in removed <==> x in names && ((x in p) == invert)
  {
    removed := [];
    var j := 0;
    while j < |names|
      invariant 0 <= j <= |names|
      invariant forall x :: x in removed <==> x in names[..j] && ((x in p) == invert)
    {
      var n := names[j];
      if (n in p && invert) || (n !in p && !invert) {
        removed := removed + [n];
      }
      assert names[..j + 1] == names[..j] + [n];
      j := j + 1;
    }
    assert names[..j] == names;
  }

  /** One set of runAutomatic's loop: classify, then apply the policy
      (main.go:313-350). When --over is given, each removed name is removed
      once. */
  method AutomaticSet(names: seq<Path>, prefer: Path -> bool, over: Option<Path -> bool>, invert: bool)
    returns (removed: seq<Path>)
    ensures forall x :: x in removed <==> x in AutoRemovals(names, prefer, over, invert)
    ensures over.Some? ==> Distinct(removed)
  {
    var p, o := Classify(names, prefer, over);
    removed := [];
    if |p| > 0 {
      if over.Some? {
        if |o| > 0 {
          if invert {
            removed := RemoveAll(p);
          } else {
            removed := RemoveAll(o);
          }
        }
      } else if |p| < |names| {
        removed := RemoveByPreference(names, p, invert);
      }
    }
  }

  /** No name is both preferred and overridden. */
  lemma PreferredNotOverridden(names: seq<Path>, prefer: Path -> bool, over: Option<Path -> bool>)
    ensures Preferred(names, prefer) * Overridden(names, prefer, over) == {}
  {
  }

  /** A set in which --prefer matches nothing loses nothing. */
  lemma NoPreferenceNoRemoval(names: seq<Path>, prefer: Path -> bool, over: Option<Path -> bool>, invert: bool)
    requires forall i | 0 <= i < |names| :: !prefer(names[i])
    ensures AutoRemovals(names, prefer, over, invert) == {}
  {
    assert Preferred(names, prefer) == {};
  }

  /** Only names of the set are removed; with --over, only when o is not
      empty, and then exactly o or exactly p. */
  lemma AutoRemovalsShape(names: seq<Path>, prefer: Path -> bool, over: Option<Path -> bool>, invert: bool)
    ensures forall x | x in AutoRemovals(names, prefer, over, invert) :: x in names
    ensures over.Some? && AutoRemovals(names, prefer, over, invert) != {} ==>
              && Overridden(names, prefer, over) != {}
              && AutoRemovals(names, prefer, over, invert)
                 == if invert then Preferred(names, prefer) else Overridden(names, prefer, over)
  {
  }

  /** The distinct names of a list without repeats are as many as its length. */
  lemma {:induction false} DistinctCard(names: seq<Path>)
    requires Distinct(names)
    ensures |set n | n in names| == |names|
  {
    if names != [] {
      DistinctTail(names);
      DistinctCard(names[1..]);
      assert (set n | n in names) == {names[0]} + (set n | n in names[1..]) by {
        assert names == [names[0]] + names[1..];
      }
    }
  }

  /** Safety: in a set of distinct names, the policy never removes every
      name, whatever --prefer, --over and --invert are. */
  lemma AutomaticKeepsOne(names: seq<Path>, prefer: Path -> bool, over: Option<Path -> bool>, invert: bool)
    requires |names| > 0 && Distinct(names)
    ensures exists i | 0 <= i < |names| :: names[i] !in AutoRemovals(names, prefer, over, invert)
  {
    var p := Preferred(names, prefer);
    var o := Overridden(names, prefer, over);
    var r := AutoRemovals(names, prefer, over, invert);
    if |p| == 0 || (over.Some? && |o| == 0) || (over.None? && |p| >= |names|) {
      assert names[0] !in r;
    } else if over.Some? {
      var x :| x in o;
      var y :| y in p;
      var ix :| 0 <= ix < |names| && names[ix] == x;
      var iy :| 0 <= iy < |names| && names[iy] == y;
      if invert {
        assert names[ix] !in r;
      } else {
        assert names[iy] !in r;
      }
    } else {
      var all := set n | n in names;
      DistinctCard(names);
      assert p <= all;
      DiffCard(all, p);
      assert |all - p| > 0;
      var x :| x in all - p;
      var y :| y in p;
      var ix :| 0 <= ix < |names| && names[ix] == x;
      var iy :| 0 <= iy < |names| && names[iy] == y;
      if invert {
        assert names[ix] !in r;
      } else {
        assert names[iy] !in r;
      }
    }
  }

  lemma DiffCard(a: set<Path>, b: set<Path>)
    requires b <= a
    ensures |a - b| == |a| - |b|
  {
    assert a == b + (a - b);
    assert b * (a - b) == {};
  }

  /** Why the names must be distinct: with a name listed twice, p can be all
      of the set while |p| < len(Names), and --invert then removes every name. */
  lemma RepeatedNameCanLoseAll()
    ensures var names: seq<Path> := ["x", "x"];
            forall i | 0 <= i < |names| :: names[i] in AutoRemovals(names, _ => true, None, true)
  {
    var names: seq<Path> := ["x", "x"];
    assert Preferred(names, _ => true) == {"x"};
  }

  // ---------------------------------------------------------------------
  // All sets (main.go:294-352)

  /** Every name any set's policy removes. */
  function AllRemovals(dupes: seq<Info>, prefer: Path -> bool, over: Option<Path -> bool>, invert: bool): set<Path>
  {
    if dupes == [] then {}
    else AllRemovals(dupes[..|dupes| - 1], prefer, over, invert)
         + AutoRemovals(dupes[|dupes| - 1].names, prefer, over, invert)
  }

  method RunAutomatic(dupes: seq<Info>, prefer: Path -> bool, over: Option<Path -> bool>, invert: bool)
    returns (removed: seq<Path>)
    ensures forall x :: x in removed <==> x in AllRemovals(dupes, prefer, over, invert)
  {
    removed := [];
    var i := 0;
    while i < |dupes|
      invariant 0 <= i <= |dupes|
      invariant forall x :: x in removed <==> x in AllRemovals(dupes[..i], prefer, over, invert)
    {
      var r := AutomaticSet(dupes[i].names, prefer, over, invert);
      assert dupes[..i + 1][..i] == dupes[..i];
      removed := removed + r;
      i := i + 1;
    }
    assert dupes[..i] == dupes;
  }

  /** A name is removed only by the policy of a set that lists it. */
  lemma {:induction false} AllRemovalsFrom(dupes: seq<Info>, prefer: Path -> bool, over: Option<Path -> bool>, invert: bool, x: Path)
    ensures x in AllRemovals(dupes, prefer, over, invert) ==>
              exists j | 0 <= j < |dupes| :: x in AutoRemovals(dupes[j].names, prefer, over, invert)
  {
    if dupes != [] {
      var init := dupes[..|dupes| - 1];
      AllRemovalsFrom(init, prefer, over, invert, x);
      if x in AllRemovals(init, prefer, over, invert) {
        var j :| 0 <= j < |init| && x in AutoRemovals(init[j].names, prefer, over, invert);
        assert init[j] == dupes[j];
      }
    }
  }

  /** With sets of distinct names that share no name (as Dupes returns them),
      runAutomatic leaves at least one file of every set. */
  lemma RunAutomaticKeepsOne(dupes: seq<Info>, prefer: Path -> bool, over: Option<Path -> bool>, invert: bool, i: nat)
    requires i < |dupes| && |dupes[i].names| > 0 && Distinct(dupes[i].names)
    requires forall a, b, p | 0 <= a < b < |dupes| && p in dupes[a].names :: p !in dupes[b].names
    ensures exists k | 0 <= k < |dupes[i].names| :: dupes[i].names[k] !in AllRemovals(dupes, prefer, over, invert)
  {
    var names := dupes[i].names;
    AutomaticKeepsOne(names, prefer, over, invert);
    var k :| 0 <= k < |names| && names[k] !in AutoRemovals(names, prefer, over, invert);
    forall j | 0 <= j < |dupes| && j != i ensures names[k] !in AutoRemovals(dupes[j].names, prefer, over, invert) {
      assert names[k] in dupes[i].names;
      AutoRemovalsShape(dupes[j].names, prefer, over, invert);
    }
    AllRemovalsFrom(dupes, prefer, over, invert, names[k]);
  }
}
