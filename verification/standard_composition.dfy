/**
 The Canonical Composition Algorithm of the Unicode Standard (section 3.11, D114, D115 and D117), and the
 exact condition under which `createNFC` computes it.
 */
module StandardComposition {
  import opened Wrappers
  import opened Utf8
  import opened UnicodeTables
  import opened Ordering
  import opened Decomposition
  import opened Composition
  import opened Nfc
  import opened Hangul

  /** D115: nothing between starter and `c` has class 0 or a class that reaches the one of `c`. */
  predicate IsFree(t: Tables, between: seq<nat>, c: nat) {
    forall j :: 0 <= j < |between| ==> 0 < t.Class(between[j]) < t.Class(c)
  }

  /**
   D117 from a starter on: `between` has been passed over without composing.  A free character that
   has a primary composite with the starter is replaced; a starter that stays begins a new run.
   */
  function ComposeFrom(t: Tables, starter: nat, between: seq<nat>, rest: seq<nat>): (r: seq<nat>)
    ensures r != []
    decreases rest
  {
    if rest == [] then [starter] + between
    else
      var c := rest[0];
      if IsFree(t, between, c) && t.Primary(starter, c).Some? then
        ComposeFrom(t, t.Primary(starter, c).value, between, rest[1..])
      else if t.Class(c) == 0 then
        [starter] + between + ComposeFrom(t, c, [], rest[1..])
      else
        ComposeFrom(t, starter, between + [c], rest[1..])
  }

  function StandardComposed(t: Tables, s: seq<nat>): seq<nat> {
    if s == [] then []
    else if t.Class(s[0]) != 0 then [s[0]] + StandardComposed(t, s[1..])
    else ComposeFrom(t, s[0], [], s[1..])
  }

  /** `c` would compose with the starter behind the characters `between`. */
  predicate Takes(t: Tables, starter: nat, between: seq<nat>, c: nat) {
    IsFree(t, between, c) && t.Primary(starter, c).Some?
  }

  /** None of `more` composes with the starter when all of them are passed over in turn. */
  predicate TakesNone(t: Tables, starter: nat, between: seq<nat>, more: seq<nat>)
    decreases more
  {
    more == [] ||
    (!Takes(t, starter, between, more[0]) && TakesNone(t, starter, between + [more[0]], more[1..]))
  }

  /** The characters that the composed piece keeps behind its first one. */
  function Left(t: Tables, s: seq<nat>): seq<nat>
    requires s != []
  {
    ComposedPiece(t, s)[1..]
  }

  /** Where the marks that `createNFC` never tries begin: behind the one it took. */
  function Untried(t: Tables, s: seq<nat>): (k: nat)
    requires s != []
    ensures 1 <= k <= Piece(t, s)
  {
    var marks := s[1..Piece(t, s)];
    var k := FirstComposing(t, s[0], marks, 0);
    if t.Class(s[0]) != 0 || k == |marks| then Piece(t, s) else k + 2
  }

  /** What `createNFC` makes of the first starter is no composition exclusion. */
  predicate TakesNoExclusion(t: Tables, s: seq<nat>)
    requires s != []
  {
    ComposedPiece(t, s)[0] == s[0] || ComposedPiece(t, s)[0] !in t.no
  }

  /**
   No starter composes to an excluded character, and nothing is left to compose with a starter once
   `createNFC` is done with it: none of the marks behind the one it took, and not the next starter if
   that has become a neighbour.
   */
  predicate ComposesOnce(t: Tables, s: seq<nat>)
    decreases s
  {
    s == [] ||
    (var n := Piece(t, s);
     && ComposesOnce(t, s[n..])
     && (t.Class(s[0]) == 0 ==>
          && TakesNoExclusion(t, s)
          && TakesNone(t, ComposedPiece(t, s)[0], s[1..Before(t, s)], s[Untried(t, s)..n])
          && (n < |s| && Left(t, s) == [] ==> t.Primary(ComposedPiece(t, s)[0], s[n]).None?)))
  }

  /** The end of the marks that were tried in vain before one was taken. */
  function Before(t: Tables, s: seq<nat>): (k: nat)
    requires s != []
    ensures 1 <= k <= |s|
  {
    if t.Class(s[0]) != 0 then 1
    else 1 + FirstComposing(t, s[0], s[1..Piece(t, s)], 0)
  }

  lemma {:induction false} SkipAll(t: Tables, starter: nat, between: seq<nat>, more: seq<nat>, rest: seq<nat>)
    requires TakesNone(t, starter, between, more)
    requires forall i :: 0 <= i < |more| ==> t.Class(more[i]) > 0
    ensures ComposeFrom(t, starter, between, more + rest) == ComposeFrom(t, starter, between + more, rest)
    decreases more
  {
    if more == [] {
      assert more + rest == rest && between + more == between;
    } else {
      assert (more + rest)[1..] == more[1..] + rest;
      SkipAll(t, starter, between + [more[0]], more[1..], rest);
      assert between + [more[0]] + more[1..] == between + more;
    }
  }

  /** A composition climbs in the order of decompositions, and nothing climbs down again. */
  lemma {:induction false} ComposeFromClimbs(t: Tables, starter: nat, between: seq<nat>, rest: seq<nat>)
    requires t.Valid()
    ensures t.Rank(ComposeFrom(t, starter, between, rest)[0]) >= t.Rank(starter)
    decreases rest
  {
    if rest != [] {
      var c := rest[0];
      if Takes(t, starter, between, c) {
        var p := t.Primary(starter, c).value;
        assert t.ValidDecomposition(p);
        ComposeFromClimbs(t, p, between, rest[1..]);
      } else if t.Class(c) != 0 {
        ComposeFromClimbs(t, starter, between + [c], rest[1..]);
      }
    }
  }

  lemma TakeClimbs(t: Tables, starter: nat, between: seq<nat>, c: nat, rest: seq<nat>)
    requires t.Valid() && Takes(t, starter, between, c)
    ensures ComposeFrom(t, starter, between, [c] + rest)[0] != starter
  {
    var p := t.Primary(starter, c).value;
    assert t.ValidDecomposition(p);
    assert ([c] + rest)[1..] == rest;
    ComposeFromClimbs(t, p, between, rest);
  }

  lemma {:induction false} TakingOneClimbs(t: Tables, starter: nat, between: seq<nat>, more: seq<nat>, rest: seq<nat>)
    requires t.Valid() && !TakesNone(t, starter, between, more)
    requires forall i :: 0 <= i < |more| ==> t.Class(more[i]) > 0
    ensures ComposeFrom(t, starter, between, more + rest)[0] != starter
    decreases more
  {
    assert more + rest == [more[0]] + (more[1..] + rest);
    assert (more + rest)[1..] == more[1..] + rest;
    if Takes(t, starter, between, more[0]) {
      TakeClimbs(t, starter, between, more[0], more[1..] + rest);
    } else {
      TakingOneClimbs(t, starter, between + [more[0]], more[1..], rest);
    }
  }

  /** The first character that comes out is the starter itself or a primary composite. */
  lemma {:induction false} NeverExcluded(t: Tables, starter: nat, between: seq<nat>, rest: seq<nat>)
    ensures var x := ComposeFrom(t, starter, between, rest)[0]; x == starter || x !in t.no
    decreases rest
  {
    if rest != [] {
      var c := rest[0];
      if Takes(t, starter, between, c) {
        NeverExcluded(t, t.Primary(starter, c).value, between, rest[1..]);
      } else if t.Class(c) != 0 {
        NeverExcluded(t, starter, between + [c], rest[1..]);
      }
    }
  }

  /** On sorted marks the two notions of being blocked agree. */
  lemma TakesIffComposes(t: Tables, s: seq<nat>, n: nat, k: nat)
    requires InOrder(t, s) && 1 <= n <= |s| && k < n - 1
    requires forall i :: 1 <= i < n ==> t.Class(s[i]) > 0
    ensures Takes(t, s[0], s[1..1 + k], s[1 + k]) <==>
            Composes(t, s[0], s[1..n], k) && t.Composite(s[0], s[1 + k]).value !in t.no
  {
    var marks, between := s[1..n], s[1..1 + k];
    assert marks[k] == s[1 + k];
    forall j | 0 <= j < k
      ensures 0 < t.Class(between[j]) <= t.Class(s[1 + k]) && between[j] == marks[j]
    {
      SortedRun(t, s, 1 + j, 1 + k);
    }
    if IsBlocked(t, marks, k) {
      var j :| 0 <= j < k && (t.Class(marks[j]) == 0 || t.Class(marks[j]) == t.Class(marks[k]));
      assert t.Class(between[j]) == t.Class(s[1 + k]);
      assert !IsFree(t, between, s[1 + k]);
    } else {
      forall j | 0 <= j < |between| ensures 0 < t.Class(between[j]) < t.Class(s[1 + k]) {
        assert t.Class(marks[j]) != t.Class(marks[k]);
      }
    }
  }

  /** Up to the first mark it takes, the standard's algorithm takes none either. */
  lemma {:induction false} TakesNoneBefore(t: Tables, s: seq<nat>, n: nat, from: nat, k: nat)
    requires InOrder(t, s) && 1 <= n <= |s| && from <= k < n
    requires forall i :: 1 <= i < n ==> t.Class(s[i]) > 0
    requires forall j :: 0 <= j < k ==> !Composes(t, s[0], s[1..n], j)
    ensures TakesNone(t, s[0], s[1..1 + from], s[1 + from..1 + k])
    decreases k - from
  {
    if from < k {
      TakesIffComposes(t, s, n, from);
      assert s[1 + from..1 + k][1..] == s[1 + (from + 1)..1 + k];
      assert s[1..1 + from] + [s[1 + from]] == s[1..1 + (from + 1)];
      TakesNoneBefore(t, s, n, from + 1, k);
    }
  }

  /** Passing over the first `k` marks, of which none composes. */
  lemma PassOver(t: Tables, s: seq<nat>, n: nat, k: nat)
    requires InOrder(t, s) && 1 <= n <= |s| && k < n && t.Class(s[0]) == 0
    requires forall i :: 1 <= i < n ==> t.Class(s[i]) > 0
    requires forall j :: 0 <= j < k ==> !Composes(t, s[0], s[1..n], j)
    ensures StandardComposed(t, s) == ComposeFrom(t, s[0], s[1..1 + k], s[1 + k..])
  {
    TakesNoneBefore(t, s, n, 0, k);
    var marks := s[1..1 + k];
    assert s[1..1] == [] && s[1..] == marks + s[1 + k..] && [] + marks == marks;
    forall i | 0 <= i < |marks| ensures t.Class(marks[i]) > 0 { assert marks[i] == s[1 + i]; }
    SkipAll(t, s[0], [], marks, s[1 + k..]);
  }

  /** What the piece consists of, by positions of the string. */
  lemma PieceParts(t: Tables, s: seq<nat>)
    requires s != [] && t.Class(s[0]) == 0
    ensures var n, x := Piece(t, s), ComposedPiece(t, s);
            && Before(t, s) <= n
            && Left(t, s) == s[1..Before(t, s)] + s[Untried(t, s)..n]
            && x == [x[0]] + Left(t, s)
  {
    var n := Piece(t, s);
    var marks := s[1..n];
    var k := FirstComposing(t, s[0], marks, 0);
    assert marks[..k] == s[1..1 + k];
    if k < |marks| {
      assert marks[k + 1..] == s[k + 2..n];
      assert ComposedPiece(t, s) == [t.Composite(s[0], marks[k]).value] + (marks[..k] + marks[k + 1..]);
    } else {
      assert s[n..n] == [];
    }
  }

  lemma ReachesTaken(t: Tables, s: seq<nat>, n: nat, k: nat)
    requires InOrder(t, s) && 1 <= n <= |s| && k < n - 1 && t.Class(s[0]) == 0
    requires forall i :: 1 <= i < n ==> t.Class(s[i]) > 0
    requires forall j :: 0 <= j < k ==> !Composes(t, s[0], s[1..n], j)
    requires Composes(t, s[0], s[1..n], k) && t.Composite(s[0], s[1..n][k]).value !in t.no
    ensures s[1..n][k] == s[1 + k] && t.Composite(s[0], s[1 + k]).Some?
    ensures StandardComposed(t, s) == ComposeFrom(t, t.Composite(s[0], s[1 + k]).value, s[1..1 + k], s[k + 2..])
  {
    PassOver(t, s, n, k);
    TakesIffComposes(t, s, n, k);
    var rest := s[1 + k..];
    assert rest[0] == s[1 + k] && rest[1..] == s[k + 2..];
    TakeNext(t, s[0], s[1..1 + k], rest);
  }

  /** Unless an exclusion was taken, the standard's algorithm reaches the state in which `createNFC` leaves the starter. */
  lemma ReachesPiece(t: Tables, s: seq<nat>)
    requires t.Valid() && InOrder(t, s) && s != [] && t.Class(s[0]) == 0 && TakesNoExclusion(t, s)
    ensures StandardComposed(t, s) == ComposeFrom(t, ComposedPiece(t, s)[0], s[1..Before(t, s)], s[Untried(t, s)..])
  {
    var n := Piece(t, s);
    var k := FirstComposing(t, s[0], s[1..n], 0);
    PieceState(t, s);
    if k < n - 1 {
      TakenIsPrimary(t, s);
      ReachesTaken(t, s, n, k);
    } else {
      PassOver(t, s, n, k);
    }
  }

  lemma PieceState(t: Tables, s: seq<nat>)
    requires s != [] && t.Class(s[0]) == 0
    ensures var n := Piece(t, s);
            var k := FirstComposing(t, s[0], s[1..n], 0);
            && Before(t, s) == 1 + k
            && Untried(t, s) == (if k < n - 1 then k + 2 else n)
            && ComposedPiece(t, s)[0] == (if k < n - 1 then t.Composite(s[0], s[1..n][k]).value else s[0])
  {
  }

  lemma TakenIsPrimary(t: Tables, s: seq<nat>)
    requires t.Valid() && s != [] && t.Class(s[0]) == 0 && TakesNoExclusion(t, s)
    ensures var n := Piece(t, s);
            var k := FirstComposing(t, s[0], s[1..n], 0);
            k < n - 1 ==> t.Composite(s[0], s[1..n][k]).value !in t.no
  {
    var n := Piece(t, s);
    var k := FirstComposing(t, s[0], s[1..n], 0);
    if k < n - 1 {
      assert t.ValidDecomposition(t.Composite(s[0], s[1..n][k]).value);
    }
  }

  lemma TakeNext(t: Tables, starter: nat, between: seq<nat>, rest: seq<nat>)
    requires rest != [] && Takes(t, starter, between, rest[0])
    ensures ComposeFrom(t, starter, between, rest) ==
            ComposeFrom(t, t.Primary(starter, rest[0]).value, between, rest[1..])
  {
  }

  lemma UntriedAreMarks(t: Tables, s: seq<nat>)
    requires s != [] && t.Class(s[0]) == 0
    ensures var more := s[Untried(t, s)..Piece(t, s)]; forall i :: 0 <= i < |more| ==> t.Class(more[i]) > 0
  {
  }

  /** A run from a state of the standard's algorithm to the next starter: nothing is taken, or the first character changes. */
  lemma RunMeetsStandard(t: Tables, starter: nat, between: seq<nat>, more: seq<nat>, rest: seq<nat>)
    requires t.Valid() && (rest != [] ==> t.Class(rest[0]) == 0)
    requires forall i :: 0 <= i < |more| ==> t.Class(more[i]) > 0
    ensures if TakesNone(t, starter, between, more)
               && (rest != [] && between + more == [] ==> t.Primary(starter, rest[0]).None?)
            then ComposeFrom(t, starter, between, more + rest) == [starter] + (between + more) + StandardComposed(t, rest)
            else ComposeFrom(t, starter, between, more + rest)[0] != starter
  {
    if TakesNone(t, starter, between, more) {
      SkipAll(t, starter, between, more, rest);
      AfterPiece(t, starter, between + more, rest);
    } else {
      TakingOneClimbs(t, starter, between, more, rest);
    }
  }

  lemma TailParts(t: Tables, s: seq<nat>)
    requires s != [] && t.Class(s[0]) == 0
    ensures var n := Piece(t, s);
            && s[Untried(t, s)..] == s[Untried(t, s)..n] + s[n..]
            && (n < |s| ==> t.Class(s[n]) == 0)
  {
  }

  /** For one starter: its piece comes out as `createNFC` makes it, or with another first character. */
  lemma PieceMeetsStandard(t: Tables, s: seq<nat>)
    requires t.Valid() && InOrder(t, s) && s != [] && t.Class(s[0]) == 0
    ensures var n, x := Piece(t, s), ComposedPiece(t, s);
            if TakesNoExclusion(t, s)
               && TakesNone(t, x[0], s[1..Before(t, s)], s[Untried(t, s)..n])
               && (n < |s| && Left(t, s) == [] ==> t.Primary(x[0], s[n]).None?)
            then StandardComposed(t, s) == x + StandardComposed(t, s[n..])
            else StandardComposed(t, s) != [] && StandardComposed(t, s)[0] != x[0]
  {
    if TakesNoExclusion(t, s) {
      var n, x := Piece(t, s), ComposedPiece(t, s);
      ReachesPiece(t, s);
      PieceParts(t, s);
      UntriedAreMarks(t, s);
      TailParts(t, s);
      RunMeetsStandard(t, x[0], s[1..Before(t, s)], s[Untried(t, s)..n], s[n..]);
    } else {
      NeverExcluded(t, s[0], [], s[1..]);
    }
  }

  /** Once all marks are passed over, what follows is a new starter: it is taken or begins the next run. */
  lemma AfterPiece(t: Tables, starter: nat, left: seq<nat>, rest: seq<nat>)
    requires t.Valid() && (rest != [] ==> t.Class(rest[0]) == 0)
    ensures if rest != [] && left == [] && t.Primary(starter, rest[0]).Some?
            then ComposeFrom(t, starter, left, rest)[0] != starter
            else ComposeFrom(t, starter, left, rest) == [starter] + left + StandardComposed(t, rest)
  {
    if rest == [] {
      assert [starter] + left + [] == [starter] + left;
    } else {
      assert left != [] ==> !IsFree(t, left, rest[0]) by {
        assert left != [] ==> t.Class(left[0]) >= t.Class(rest[0]);
      }
      if left == [] && t.Primary(starter, rest[0]).Some? {
        assert [rest[0]] + rest[1..] == rest;
        TakeClimbs(t, starter, left, rest[0], rest[1..]);
      }
    }
  }

  /**
   `createNFC` computes the canonical composition of an ordered string exactly when it takes no composition
   exclusion and nothing is left to compose with a starter that has composed once.
   */
  lemma {:induction false} ComposedMeetsStandardIff(t: Tables, s: seq<nat>)
    requires t.Valid() && InOrder(t, s)
    ensures Composed(t, s) == StandardComposed(t, s) <==> ComposesOnce(t, s)
    decreases s
  {
    if s != [] {
      var n, x := Piece(t, s), ComposedPiece(t, s);
      InOrderParts(t, s, n);
      ComposedMeetsStandardIff(t, s[n..]);
      if t.Class(s[0]) == 0 {
        PieceMeetsStandard(t, s);
      }
      assert Composed(t, s)[..|x|] == x && Composed(t, s)[|x|..] == Composed(t, s[n..]);
      assert (x + StandardComposed(t, s[n..]))[|x|..] == StandardComposed(t, s[n..]);
    }
  }

  /** So the slow path of `toNFC` yields the composition of the standard exactly then. */
  lemma SlowPathMeetsStandardIff(t: Tables, us: seq<nat>)
    requires t.Valid() && AllScalar(us) && QuickCheck(t, us, 0) != Yes
    ensures NfcOf(t, us) == StandardComposed(t, Nfd(t, us)) <==> ComposesOnce(t, Nfd(t, us))
  {
    NfdIsNormal(t, us);
    ComposedMeetsStandardIff(t, Nfd(t, us));
  }

  // Where it fails

  lemma OnlyOnePiece(t: Tables, starter: nat, marks: seq<nat>)
    requires t.Class(starter) == 0 && forall i :: 0 <= i < |marks| ==> t.Class(marks[i]) > 0
    ensures Composed(t, [starter] + marks) == Combined(t, starter, marks)
  {
    var s := [starter] + marks;
    assert forall i :: 1 <= i < |s| ==> t.Class(s[i]) > 0;
    assert Piece(t, s) == |s| && s[1..|s|] == marks && s[|s|..] == [];
  }

  /** A starter and two marks that compose one after the other: the program composes the first only. */
  ghost predicate ComposesTwice(t: Tables, a: nat, m: nat, n: nat, p: nat, q: nat) {
    && t.Class(a) == 0 < t.Class(m) < t.Class(n)
    && IsScalar(a) && IsScalar(m) && IsScalar(n) && IsScalar(q)
    && a !in t.decompose && m !in t.decompose && n !in t.decompose
    && t.Composite(a, m) == Some(p)
    && t.Composite(p, n) == Some(q)
  }

  lemma ComposedStopsAtFirst(t: Tables, a: nat, m: nat, n: nat, p: nat, q: nat)
    requires t.Valid() && ComposesTwice(t, a, m, n, p, q)
    ensures Composed(t, [a, m, n]) == [p, n]
  {
    assert [a, m, n] == [a] + [m, n];
    OnlyOnePiece(t, a, [m, n]);
    assert !IsBlocked(t, [m, n], 0);
    assert FirstComposing(t, a, [m, n], 0) == 0;
  }

  lemma StandardGoesOn(t: Tables, a: nat, m: nat, n: nat, p: nat, q: nat)
    requires t.Valid() && ComposesTwice(t, a, m, n, p, q) && p !in t.no && q !in t.no
    ensures StandardComposed(t, [a, m, n]) == [q]
  {
    assert [a, m, n][1..] == [m, n] && [m, n][1..] == [n] && [n][1..] == [];
    assert ComposeFrom(t, q, [], []) == [q];
    assert ComposeFrom(t, p, [], [n]) == [q];
    assert ComposeFrom(t, a, [], [m, n]) == [q];
  }

  /** The composite of both marks decomposes into the three characters, so the two results are equivalent. */
  lemma TwiceDecomposed(t: Tables, a: nat, m: nat, n: nat, p: nat, q: nat)
    requires t.Valid() && ComposesTwice(t, a, m, n, p, q)
    ensures Nfd(t, [q]) == [a, m, n] == Nfd(t, [a, m, n])
  {
    DecomposePair(t, p, a, m);
    assert t.ValidDecomposition(q) && t.decompose[q] == (p, n);
    assert DecomposeFull(t, n) == [n];
    DecomposeAllCons(t, q, []);
    assert [q] + [] == [q] && [a, m] + [n] + [] == [a, m, n];
    assert AllFinal(t, [a, m, n]);
    DecomposeAllOfFinal(t, [a, m, n]);
    assert InOrder(t, [a, m, n]);
    OrderedIsInOrder(t, [a, m, n]);
  }

  /**
   Two canonically equivalent strings with different results: the quick check lets the composite of
   both marks through, and the three characters come out half composed.
   */
  lemma EquivalentStringsDiffer(t: Tables, a: nat, m: nat, n: nat, p: nat, q: nat)
    requires t.Valid() && ComposesTwice(t, a, m, n, p, q)
    requires QuickCheck(t, [q], 0) == Yes != QuickCheck(t, [a, m, n], 0)
    ensures Nfd(t, [q]) == Nfd(t, [a, m, n])
    ensures NfcOf(t, [q]) == [q] && NfcOf(t, [a, m, n]) == [p, n] != [q]
    ensures p !in t.no ==> StandardComposed(t, Nfd(t, [a, m, n])) == [q] && !ComposesOnce(t, Nfd(t, [a, m, n]))
  {
    TwiceDecomposed(t, a, m, n, p, q);
    ComposedStopsAtFirst(t, a, m, n, p, q);
    QuickYesIff(t, [q]);
    assert [q][0] !in t.no;
    if p !in t.no {
      StandardGoesOn(t, a, m, n, p, q);
    }
    assert AllScalar([a, m, n]);
    SlowPathMeetsStandardIff(t, [a, m, n]);
  }

  /** A pair whose composite is in the set No: the program composes it, and then refuses its own result. */
  lemma OwnResultRefused(t: Tables, a: nat, m: nat, p: nat)
    requires t.Valid() && t.Class(a) == 0 < t.Class(m) && IsScalar(a) && IsScalar(m)
    requires a !in t.decompose && m !in t.decompose
    requires t.Composite(a, m) == Some(p) && p in t.no
    requires QuickCheck(t, [a, m], 0) != Yes
    ensures NfcOf(t, [a, m]) == [p] && !IsNfcOf(t, NfcOf(t, [a, m]))
    ensures StandardComposed(t, Nfd(t, [a, m])) == [a, m] && !ComposesOnce(t, Nfd(t, [a, m]))
  {
    assert AllFinal(t, [a, m]) && InOrder(t, [a, m]);
    DecomposeAllOfFinal(t, [a, m]);
    OrderedIsInOrder(t, [a, m]);
    assert [a, m] == [a] + [m];
    OnlyOnePiece(t, a, [m]);
    assert !IsBlocked(t, [m], 0);
    assert FirstComposing(t, a, [m], 0) == 0;
    assert NfcOf(t, [a, m]) == [p];
    assert [p][0] in t.no;
    assert HasExposedNo(t, [p]);
    assert AllScalar([a, m]);
    NfcAcceptedIff(t, [a, m]);
    assert [a, m][1..] == [m] && [m][1..] == [];
    assert ComposeFrom(t, a, [m], []) == [a, m] && [] + [m] == [m];
    assert StandardComposed(t, [a, m]) == ComposeFrom(t, a, [], [m]) == [a, m];
    SlowPathMeetsStandardIff(t, [a, m]);
  }

  /**
   The entries for LATIN SMALL LETTER A WITH DOT BELOW (AND CIRCUMFLEX) and DEVANAGARI LETTER QA, and the vowels
   and trailing consonants of Hangul in Maybe.
   */
  function SampleTables(): Tables {
    Tables(
      map[0x0323 := 220, 0x0302 := 230, 0x093C := 7],
      map[0x1EA1 := (0x61, 0x0323), 0x1EAD := (0x1EA1, 0x0302), 0x0958 := (0x0915, 0x093C)],
      map[(0x61, 0x0323) := 0x1EA1, (0x1EA1, 0x0302) := 0x1EAD, (0x0915, 0x093C) := 0x0958],
      {0x0958},
      {0x0323, 0x0302, 0x093C} + ComposingJamo(),
      map[0x1EA1 := 0, 0x1EAD := 1, 0x0958 := 0])
  }

  lemma SampleIsValid()
    ensures SampleTables().Valid()
  {
  }

  lemma SampleComposesTwice()
    ensures ComposesTwice(SampleTables(), 0x61, 0x0323, 0x0302, 0x1EA1, 0x1EAD)
  {
  }

  lemma SampleVerdicts()
    ensures QuickCheck(SampleTables(), [0x1EAD], 0) == Yes
    ensures QuickCheck(SampleTables(), [0x1EA1, 0x0302], 0) == Maybe
    ensures QuickCheck(SampleTables(), [0x61, 0x0323, 0x0302], 0) != Yes
  {
    QuickYesIff(SampleTables(), [0x61, 0x0323, 0x0302]);
    assert [0x61, 0x0323, 0x0302][1] in SampleTables().maybe;
    assert [0x1EA1, 0x0302][1..] == [0x0302];
  }

  /** "a", dot below, circumflex comes out half composed, while the composed letter passes the quick check. */
  lemma SampleHalfComposed()
    ensures var t := SampleTables();
            && t.Valid()
            && NfcOf(t, [0x61, 0x0323, 0x0302]) == [0x1EA1, 0x0302]
            && NfcOf(t, [0x1EAD]) == [0x1EAD]
            && Nfd(t, [0x1EAD]) == Nfd(t, [0x61, 0x0323, 0x0302])
  {
    SampleIsValid();
    SampleVerdicts();
    SampleComposesTwice();
    EquivalentStringsDiffer(SampleTables(), 0x61, 0x0323, 0x0302, 0x1EA1, 0x1EAD);
  }

  /** QA is composed although no NFC string contains it, and `isNFC` refuses it. */
  lemma SampleExcluded()
    ensures var t := SampleTables();
            t.Valid() && NfcOf(t, [0x0915, 0x093C]) == [0x0958] && !IsNfcOf(t, [0x0958])
  {
    var t := SampleTables();
    SampleIsValid();
    QuickYesIff(t, [0x0915, 0x093C]);
    assert [0x0915, 0x093C][1] in t.maybe;
    OwnResultRefused(t, 0x0915, 0x093C, 0x0958);
  }
}
