/** The interactive review of runInteractive (main.go:200-256): for each set
    of duplicates the user is asked which file to keep, answers are checked
    by the validator until one is accepted, and every other file of the set
    is removed. Reading a line is modelled by the lines the user typed
    (already trimmed); `remove` by the list of paths it is called with. */
module Interactive {
  import opened Files
  import opened Groups

  // ---------------------------------------------------------------------
  // strconv.ParseInt(v, 10, 32)

  const MinInt32: int := -0x8000_0000
  const MaxInt32: int := 0x7fff_ffff

  predicate IsDigit(c: char)
  {
    '0' <= c <= '9'
  }

  predicate AllDigits(s: string)
  {
    forall i | 0 <= i < |s| :: IsDigit(s[i])
  }

  /** The value of a string of decimal digits; leading zeros are allowed. */
  function DigitsValue(s: string): nat
    requires AllDigits(s)
  {
    if s == [] then 0
    else DigitsValue(s[..|s| - 1]) * 10 + (s[|s| - 1] as int - '0' as int)
  }

  datatype Parse = Parsed(value: int) | ParseError

  /** ParseInt with base 10 and bit size 32: an optional '+' or '-', then one
      or more decimal digits (no base prefix, no underscores), and a value in
      the int32 range; a syntax or range error otherwise. */
  function ParseInt32(v: string): (r: Parse)
    ensures r.Parsed? ==> MinInt32 <= r.value <= MaxInt32
    ensures r.Parsed? ==> v != [] && (IsDigit(v[0]) || v[0] == '+' || v[0] == '-')
  {
    if v == [] then ParseError
    else
      var body := if v[0] == '+' || v[0] == '-' then v[1..] else v;
      if body == [] || !AllDigits(body) then ParseError
      else
        var u: int := DigitsValue(body);
        var k := if v[0] == '-' then 0 - u else u;
        if k < MinInt32 || k > MaxInt32 then ParseError else Parsed(k)
  }

  function DigitChar(d: nat): char
    requires d < 10
  {
    ('0' as int + d) as char
  }

  /** The decimal form of k, as the prompt numbers the files ("%d"). */
  function Decimal(k: nat): (s: string)
    ensures |s| > 0 && AllDigits(s)
  {
    if k < 10 then [DigitChar(k)] else Decimal(k / 10) + [DigitChar(k % 10)]
  }

  lemma {:induction false} DecimalValue(k: nat)
    ensures DigitsValue(Decimal(k)) == k
  {
    if k >= 10 {
      DecimalValue(k / 10);
      var s := Decimal(k);
      assert s[..|s| - 1] == Decimal(k / 10);
    }
  }

  /** Parsing the decimal form of an int32 value gives the value back. */
  lemma ParseDecimal(k: nat)
    requires k <= MaxInt32
    ensures ParseInt32(Decimal(k)) == Parsed(k)
  {
    DecimalValue(k);
  }

  // ---------------------------------------------------------------------
  // The validator (main.go:225-243)

  /** What an accepted answer leaves in keep: the index of the one file to
      keep, or none (keep stays -1). */
  datatype Choice = Rejected | KeepAll | KeepOnly(index: nat)

  /** The validator for a set of `n` files: "f"/"F" keeps the first file,
      "a"/"A" keeps all, a decimal k with 1 <= k <= n keeps file k; anything
      else is rejected and the question is asked again. */
  function Choose(v: string, n: nat): Choice
  {
    if v == "f" || v == "F" then KeepOnly(0)
    else if v == "a" || v == "A" then KeepAll
    else
      match ParseInt32(v)
      case ParseError => Rejected
      case Parsed(k) => if k < 1 || k > n then Rejected else KeepOnly(k - 1)
  }

  /** keep after the accepted answer: -1 unless one file was chosen. */
  function KeepIndex(c: Choice): int
  {
    if c.KeepOnly? then c.index else -1
  }

  /** Typing the number the prompt shows next to file j selects file j. */
  lemma ChooseListedNumber(j: nat, n: nat)
    requires j < n && j + 1 <= MaxInt32
    ensures Choose(Decimal(j + 1), n) == KeepOnly(j)
  {
    ParseDecimal(j + 1);
    var s := Decimal(j + 1);
    assert IsDigit(s[0]);
  }

  /** An accepted answer for a non-empty set names a file of the set; and it
      is accepted exactly when it is one of the letters or a number in range. */
  lemma ChooseInRange(v: string, n: nat)
    ensures Choose(v, n).KeepOnly? && n > 0 ==> Choose(v, n).index < n
    ensures Choose(v, n) != Rejected <==>
              v in ["f", "F", "a", "A"] || (ParseInt32(v).Parsed? && 1 <= ParseInt32(v).value <= n)
  {
  }

  // ---------------------------------------------------------------------
  // The deletion loop (main.go:247-253)

  /** The files removed for keep: none when keep is negative, otherwise all
      but the one at index keep (all of them if keep is past the end). */
  function Removals(names: seq<Path>, keep: int): seq<Path>
  {
    if keep < 0 then []
    else if keep < |names| then names[..keep] + names[keep + 1..]
    else names
  }

  method RemoveAllBut(names: seq<Path>, keep: int) returns (removed: seq<Path>)
    ensures removed == Removals(names, keep)
  {
    removed := [];
    if keep >= 0 {
      var i := 0;
      while i < |names|
        invariant 0 <= i <= |names|
        invariant removed == if i <= keep then names[..i] else names[..keep] + names[keep + 1..i]
      {
        if i != keep {
          removed := removed + [names[i]];
        }
        i := i + 1;
      }
      assert names[..|names|] == names;
    }
  }

  /** Keeping file `keep` of a set without repeated paths removes every other
      file of the set, once each, and not that one. */
  lemma RemovalsSpareKept(names: seq<Path>, keep: nat)
    requires keep < |names| && Distinct(names)
    ensures names[keep] !in Removals(names, keep)
    ensures |Removals(names, keep)| == |names| - 1
    ensures forall i | 0 <= i < |names| && i != keep :: names[i] in Removals(names, keep)
  {
    var r := Removals(names, keep);
    forall k | 0 <= k < |r| ensures r[k] != names[keep] {
      if k < keep {
        assert r[k] == names[k];
      } else {
        assert r[k] == names[k + 1];
      }
    }
    forall i | 0 <= i < |names| && i != keep ensures names[i] in r {
      if i < keep {
        assert r[i] == names[i];
      } else {
        assert r[i - 1] == names[i];
      }
    }
  }

  // ---------------------------------------------------------------------
  // One set: getInput with the validator, then the deletion loop.

  /** The first answer the validator accepts, or Rejected if none is. */
  function Decision(answers: seq<string>, n: nat): Choice
  {
    if answers == [] then Rejected
    else if Choose(answers[0], n) != Rejected then Choose(answers[0], n)
    else Decision(answers[1..], n)
  }

  /** The decision is the validator's verdict on the first answer it
      accepts: every earlier answer was rejected. The decision is Rejected
      exactly when every answer is. */
  lemma {:induction false} DecisionIsChoice(answers: seq<string>, n: nat)
    ensures Decision(answers, n) != Rejected ==>
              exists k | 0 <= k < |answers| ::
                && Decision(answers, n) == Choose(answers[k], n)
                && forall j | 0 <= j < k :: Choose(answers[j], n) == Rejected
    ensures Decision(answers, n) == Rejected <==> forall k | 0 <= k < |answers| :: Choose(answers[k], n) == Rejected
  {
    if answers != [] {
      if Choose(answers[0], n) == Rejected {
        var rest := answers[1..];
        DecisionIsChoice(rest, n);
        forall k | 0 <= k < |rest| ensures rest[k] == answers[k + 1] {
        }
        if Decision(answers, n) != Rejected {
          var k :| 0 <= k < |rest| && Decision(rest, n) == Choose(rest[k], n)
                   && forall j | 0 <= j < k :: Choose(rest[j], n) == Rejected;
          assert forall j | 0 <= j < k + 1 :: Choose(answers[j], n) == Rejected by {
            forall j | 0 <= j < k + 1 ensures Choose(answers[j], n) == Rejected {
              if j > 0 {
                assert answers[j] == rest[j - 1];
              }
            }
          }
        } else {
          forall k | 0 <= k < |answers| ensures Choose(answers[k], n) == Rejected {
            if k > 0 {
              assert answers[k] == rest[k - 1];
            }
          }
        }
      }
    }
  }

  /** The review of one set: answers are validated one by one until one is
      accepted; if the input runs out first, getInput fails and the program
      exits (log.Fatalln), removing nothing more. */
  method ReviewSet(names: seq<Path>, answers: seq<string>) returns (removed: seq<Path>, fatal: bool)
    ensures fatal <==> Decision(answers, |names|) == Rejected
    ensures removed == Removals(names, KeepIndex(Decision(answers, |names|)))
  {
    var keep: int := -1;
    var accepted := false;
    var i := 0;
    while i < |answers| && !accepted
      invariant 0 <= i <= |answers|
      invariant !accepted ==> keep == -1 && Decision(answers, |names|) == Decision(answers[i..], |names|)
      invariant accepted ==> Decision(answers, |names|) != Rejected && keep == KeepIndex(Decision(answers, |names|))
    {
      assert answers[i..][1..] == answers[i + 1..];
      var c := Choose(answers[i], |names|);
      if c.KeepOnly? {
        keep := c.index;
        accepted := true;
      } else if c.KeepAll? {
        accepted := true;
      }
      i := i + 1;
    }
    if !accepted {
      return [], true;
    }
    fatal := false;
    removed := RemoveAllBut(names, keep);
  }

  /** Whatever answer is accepted, a set of distinct files keeps at least
      one of them. */
  lemma ReviewKeepsOne(names: seq<Path>, answers: seq<string>)
    requires |names| > 0 && Distinct(names)
    ensures exists i | 0 <= i < |names| :: names[i] !in Removals(names, KeepIndex(Decision(answers, |names|)))
  {
    DecisionIsChoice(answers, |names|);
    var d := Decision(answers, |names|);
    if d.KeepOnly? {
      var k :| 0 <= k < |answers| && d == Choose(answers[k], |names|);
      ChooseInRange(answers[k], |names|);
      RemovalsSpareKept(names, d.index);
      assert names[d.index] !in Removals(names, KeepIndex(d));
    } else {
      assert names[0] !in Removals(names, KeepIndex(d));
    }
  }

  /** Only files of the set are removed. */
  lemma RemovalsFromSet(names: seq<Path>, keep: int, x: Path)
    ensures x in Removals(names, keep) ==> x in names
  {
    if 0 <= keep < |names| && x in Removals(names, keep) {
      assert x in names[..keep] || x in names[keep + 1..];
    }
  }

  // ---------------------------------------------------------------------
  // All sets (main.go:219-254)

  /** The answers typed while set i was shown; none once input has ended. */
  function AnswersFor(answers: seq<seq<string>>, i: nat): seq<string>
  {
    if i < |answers| then answers[i] else []
  }

  /** The files removed, and whether the program exited, when sets i, i+1, ...
      are reviewed in turn. */
  datatype Session = Session(removed: seq<Path>, fatal: bool)

  function SessionFrom(dupes: seq<Info>, answers: seq<seq<string>>, i: nat): Session
    requires i <= |dupes|
    decreases |dupes| - i
  {
    if i == |dupes| then Session([], false)
    else
      var d := Decision(AnswersFor(answers, i), |dupes[i].names|);
      if d == Rejected then Session([], true)
      else
        var rest := SessionFrom(dupes, answers, i + 1);
        Session(Removals(dupes[i].names, KeepIndex(d)) + rest.removed, rest.fatal)
  }

  /** The loop over the sets: each is reviewed in order; an input error ends
      the program at that set. */
  method RunInteractive(dupes: seq<Info>, answers: seq<seq<string>>) returns (removed: seq<Path>, fatal: bool)
    ensures Session(removed, fatal) == SessionFrom(dupes, answers, 0)
  {
    removed := [];
    var i := 0;
    assert [] + SessionFrom(dupes, answers, 0).removed == SessionFrom(dupes, answers, 0).removed;
    while i < |dupes|
      invariant 0 <= i <= |dupes|
      invariant SessionFrom(dupes, answers, 0)
                == Session(removed + SessionFrom(dupes, answers, i).removed, SessionFrom(dupes, answers, i).fatal)
    {
      var r, f := ReviewNext(dupes, answers, i, removed);
      if f {
        return removed, true;
      }
      removed := removed + r;
      i := i + 1;
    }
    assert removed + [] == removed;
    fatal := false;
  }

  /** The review of set i, stated as the step it takes in the session: the
      paths removed so far followed by what the session removes from set i on
      are what it removes from the start. */
  method ReviewNext(dupes: seq<Info>, answers: seq<seq<string>>, i: nat, ghost removed: seq<Path>)
    returns (r: seq<Path>, f: bool)
    requires i < |dupes|
    requires SessionFrom(dupes, answers, 0)
             == Session(removed + SessionFrom(dupes, answers, i).removed, SessionFrom(dupes, answers, i).fatal)
    ensures f ==> SessionFrom(dupes, answers, 0) == Session(removed, true)
    ensures !f ==> SessionFrom(dupes, answers, 0)
                   == Session((removed + r) + SessionFrom(dupes, answers, i + 1).removed, SessionFrom(dupes, answers, i + 1).fatal)
  {
    r, f := ReviewSet(dupes[i].names, AnswersFor(answers, i));
    SessionStep(dupes, answers, i, removed, r, f);
  }

  lemma SessionStep(dupes: seq<Info>, answers: seq<seq<string>>, i: nat, removed: seq<Path>, r: seq<Path>, f: bool)
    requires i < |dupes|
    requires f <==> Decision(AnswersFor(answers, i), |dupes[i].names|) == Rejected
    requires r == Removals(dupes[i].names, KeepIndex(Decision(AnswersFor(answers, i), |dupes[i].names|)))
    ensures f ==> removed + SessionFrom(dupes, answers, i).removed == removed
                  && SessionFrom(dupes, answers, i).fatal
    ensures !f ==> removed + SessionFrom(dupes, answers, i).removed
                   == (removed + r) + SessionFrom(dupes, answers, i + 1).removed
                   && SessionFrom(dupes, answers, i).fatal == SessionFrom(dupes, answers, i + 1).fatal
  {
    var rest := SessionFrom(dupes, answers, i + 1);
    if f {
      assert SessionFrom(dupes, answers, i) == Session([], true);
      assert removed + [] == removed;
    } else {
      assert SessionFrom(dupes, answers, i) == Session(r + rest.removed, rest.fatal);
      assert (removed + r) + rest.removed == removed + (r + rest.removed);
    }
  }

  /** A removed file is removed by the review of some set it belongs to. */
  lemma {:induction false} SessionRemovesFrom(dupes: seq<Info>, answers: seq<seq<string>>, k: nat, x: Path)
    requires k <= |dupes|
    ensures x in SessionFrom(dupes, answers, k).removed ==>
              exists j | k <= j < |dupes| ::
                x in Removals(dupes[j].names, KeepIndex(Decision(AnswersFor(answers, j), |dupes[j].names|)))
    decreases |dupes| - k
  {
    if k < |dupes| {
      var d := Decision(AnswersFor(answers, k), |dupes[k].names|);
      if d != Rejected && x in SessionFrom(dupes, answers, k).removed {
        var mine := Removals(dupes[k].names, KeepIndex(d));
        assert SessionFrom(dupes, answers, k).removed == mine + SessionFrom(dupes, answers, k + 1).removed;
        if x !in mine {
          SessionRemovesFrom(dupes, answers, k + 1, x);
        }
      }
    }
  }

  /** With sets of distinct paths that share no path (as Dupes returns them),
      every set keeps at least one file however the user answers. */
  lemma SessionKeepsOne(dupes: seq<Info>, answers: seq<seq<string>>, i: nat)
    requires i < |dupes| && |dupes[i].names| > 0 && Distinct(dupes[i].names)
    requires forall a, b, p | 0 <= a < b < |dupes| && p in dupes[a].names :: p !in dupes[b].names
    ensures exists k | 0 <= k < |dupes[i].names| :: dupes[i].names[k] !in SessionFrom(dupes, answers, 0).removed
  {
    var names := dupes[i].names;
    ReviewKeepsOne(names, AnswersFor(answers, i));
    var k :| 0 <= k < |names| && names[k] !in Removals(names, KeepIndex(Decision(AnswersFor(answers, i), |names|)));
    forall j | 0 <= j < |dupes| && j != i
      ensures names[k] !in Removals(dupes[j].names, KeepIndex(Decision(AnswersFor(answers, j), |dupes[j].names|)))
    {
      assert names[k] in dupes[i].names;
      RemovalsFromSet(dupes[j].names, KeepIndex(Decision(AnswersFor(answers, j), |dupes[j].names|)), names[k]);
    }
    SessionRemovesFrom(dupes, answers, 0, names[k]);
  }
}
