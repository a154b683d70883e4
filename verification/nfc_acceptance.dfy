/**
 What `isNFC` promises by name: the two ways in which it can be wrong, each with a test on the string.  It can
 accept a string that is not in NFC, and it can refuse one that is.
 */
module NfcAcceptance {
  import opened Wrappers
  import opened Utf8
  import opened UnicodeTables
  import opened Ordering
  import opened Decomposition
  import opened Composition
  import opened Nfc
  import opened StandardComposition
  import opened StandardNfc
  import opened Hangul
  import opened NfcPromises

  /** No piece of `s` is composed to an exclusion. */
  predicate TakesNoExclusions(t: Tables, s: seq<nat>) {
    s == [] || (TakesNoExclusion(t, s) && TakesNoExclusions(t, s[Piece(t, s)..]))
  }

  lemma PieceOfComposed(t: Tables, s: seq<nat>)
    requires s != []
    ensures var x, c := ComposedPiece(t, s), Composed(t, s);
            x != [] && c[0] == x[0] && c[..|x|] == x && c[|x|..] == Composed(t, s[Piece(t, s)..])
  {
  }

  /** A composition without exclusions took none. */
  lemma {:induction false} ResultTakesNoExclusions(t: Tables, s: seq<nat>)
    requires NoExclusions(t, Composed(t, s))
    ensures TakesNoExclusions(t, s)
  {
    if s != [] {
      PieceOfComposed(t, s);
      ResultTakesNoExclusions(t, s[Piece(t, s)..]);
    }
  }

  // Accepted by mistake

  lemma {:induction false} TakesNoneParts(t: Tables, starter: nat, bt: seq<nat>, a: seq<nat>, b: seq<nat>)
    ensures TakesNone(t, starter, bt, a + b) <==> TakesNone(t, starter, bt, a) && TakesNone(t, starter, bt + a, b)
    decreases a
  {
    if a == [] {
      assert a + b == b && bt + a == bt;
    } else {
      assert (a + b)[1..] == a[1..] + b;
      assert bt + [a[0]] + a[1..] == bt + a;
      TakesNoneParts(t, starter, bt + [a[0]], a[1..], b);
    }
  }

  /** What composes by the standard is a character outside Maybe and a final one in Maybe, in canonical order. */
  lemma PrimaryParts(t: Tables, a: nat, b: nat)
    requires Coherent(t) && t.Primary(a, b).Some?
    ensures a !in t.maybe && b in t.maybe && b !in t.decompose
    ensures a in t.decompose && t.decompose[a].1 >= 0 ==> !IsReorderablePair(t, t.decompose[a].1, b)
  {
    PrimaryIff(t, a, b, t.Primary(a, b).value);
    assert CoherentAt(t, t.Primary(a, b).value);
  }

  /** A composite does not compose with a mark of a smaller class than the one it has taken. */
  lemma SmallerIsInert(t: Tables, a: nat, m: nat, b: nat)
    requires Coherent(t) && 0 < t.Class(b) < t.Class(m) && t.Composite(a, m).Some?
    ensures t.Primary(t.Composite(a, m).value, b).None?
  {
    var p := t.Composite(a, m).value;
    if t.Primary(p, b).Some? {
      PrimaryParts(t, p, b);
    }
  }

  lemma {:induction false} InertTakesNone(t: Tables, starter: nat, bt: seq<nat>, a: seq<nat>)
    requires forall i :: 0 <= i < |a| ==> t.Primary(starter, a[i]).None?
    ensures TakesNone(t, starter, bt, a)
    decreases a
  {
    if a != [] {
      InertTakesNone(t, starter, bt + [a[0]], a[1..]);
    }
  }

  /** The marks in front of the one that was taken are smaller. */
  lemma SmallerBefore(t: Tables, s: seq<nat>, n: nat, k: nat, i: nat)
    requires InOrder(t, s) && 1 <= n <= |s| && i < k < n - 1
    requires forall j :: 1 <= j < n ==> t.Class(s[j]) > 0
    requires !IsBlocked(t, s[1..n], k)
    ensures 0 < t.Class(s[1 + i]) < t.Class(s[1 + k])
  {
    SortedRun(t, s, 1 + i, 1 + k);
    assert t.Class(s[1..n][i]) != t.Class(s[1..n][k]);
  }

  /** The composed starter takes none of the marks that were passed over. */
  lemma TakesNoneAgain(t: Tables, s: seq<nat>)
    requires Coherent(t) && InOrder(t, s) && s != [] && t.Class(s[0]) == 0
    ensures TakesNone(t, ComposedPiece(t, s)[0], [], s[1..Before(t, s)])
  {
    var n := Piece(t, s);
    var k := FirstComposing(t, s[0], s[1..n], 0);
    PieceState(t, s);
    if k < n - 1 {
      assert s[1..n][k] == s[1 + k];
      var x, between := ComposedPiece(t, s)[0], s[1..1 + k];
      forall i | 0 <= i < |between| ensures t.Primary(x, between[i]).None? {
        SmallerBefore(t, s, n, k, i);
        SmallerIsInert(t, s[0], s[1 + k], s[1 + i]);
      }
      InertTakesNone(t, x, [], between);
    } else {
      assert s[1..1] == [];
      TakesNoneBefore(t, s, n, 0, k);
    }
  }

  /** A starter composes with what becomes of the next one exactly if it composes with the next one itself. */
  lemma SameNext(t: Tables, x: nat, s: seq<nat>)
    requires Coherent(t) && s != [] && t.Class(s[0]) == 0 && ComposedPiece(t, s)[0] !in t.no
    ensures t.Primary(x, ComposedPiece(t, s)[0]).None? <==> t.Primary(x, s[0]).None?
  {
    var p := ComposedPiece(t, s)[0];
    PieceState(t, s);
    if p != s[0] {
      assert p in t.decompose && CoherentAt(t, p);
      if t.Primary(x, p).Some? { PrimaryParts(t, x, p); }
      if t.Primary(x, s[0]).Some? { PrimaryParts(t, x, s[0]); }
    }
  }

  lemma NextPiece(t: Tables, s: seq<nat>, n: nat, x: nat)
    requires Coherent(t) && n < |s| && t.Class(s[n]) == 0 && NoExclusions(t, Composed(t, s[n..]))
    ensures Composed(t, s[n..]) != []
    ensures t.Primary(x, Composed(t, s[n..])[0]).None? <==> t.Primary(x, s[n]).None?
  {
    PieceOfComposed(t, s[n..]);
    SameNext(t, x, s[n..]);
  }

  /** From its own start the composed starter takes as much of what is left as from where `createNFC` stopped. */
  lemma TakesNoneLeft(t: Tables, s: seq<nat>)
    requires Coherent(t) && InOrder(t, s) && s != [] && t.Class(s[0]) == 0
    ensures var x := ComposedPiece(t, s)[0];
            TakesNone(t, x, [], Left(t, s)) <==> TakesNone(t, x, s[1..Before(t, s)], s[Untried(t, s)..Piece(t, s)])
  {
    PieceParts(t, s);
    TakesNoneAgain(t, s);
    TakesNoneParts(t, ComposedPiece(t, s)[0], [], s[1..Before(t, s)], s[Untried(t, s)..Piece(t, s)]);
    assert [] + s[1..Before(t, s)] == s[1..Before(t, s)];
  }

  lemma LeftAreMarks(t: Tables, s: seq<nat>)
    requires s != [] && t.Class(s[0]) == 0
    ensures forall i :: 0 <= i < |Left(t, s)| ==> t.Class(Left(t, s)[i]) > 0
  {
    forall i | 0 <= i < |Left(t, s)| ensures t.Class(Left(t, s)[i]) > 0 {
      CombinedAt(t, s[0], s[1..Piece(t, s)], i + 1);
    }
  }

  /** For one starter: composing what `createNFC` has made changes nothing exactly if nothing was left to compose. */
  lemma ComposedPieceAgain(t: Tables, s: seq<nat>)
    requires Coherent(t) && InOrder(t, s) && s != [] && t.Class(s[0]) == 0 && NoExclusions(t, Composed(t, s))
    ensures var n, x := Piece(t, s), ComposedPiece(t, s)[0];
            var c, rest := Composed(t, s), Composed(t, s[n..]);
            if TakesNone(t, x, s[1..Before(t, s)], s[Untried(t, s)..n])
               && (n < |s| && Left(t, s) == [] ==> t.Primary(x, s[n]).None?)
            then StandardComposed(t, c) == ComposedPiece(t, s) + StandardComposed(t, rest)
            else StandardComposed(t, c) != c
  {
    var n, x := Piece(t, s), ComposedPiece(t, s)[0];
    var rest, left := Composed(t, s[n..]), Left(t, s);
    TakesNoneLeft(t, s);
    LeftAreMarks(t, s);
    RestBegins(t, s);
    TailParts(t, s);
    CombinedIsStarter(t, s);
    ComposedTail(t, s);
    ComposedRunAgain(t, Composed(t, s), left, rest);
  }

  lemma ComposedRunAgain(t: Tables, c: seq<nat>, left: seq<nat>, rest: seq<nat>)
    requires t.Valid() && (rest != [] ==> t.Class(rest[0]) == 0)
    requires forall i :: 0 <= i < |left| ==> t.Class(left[i]) > 0
    requires c != [] && t.Class(c[0]) == 0 && c[1..] == left + rest
    ensures if TakesNone(t, c[0], [], left) && (rest != [] && left == [] ==> t.Primary(c[0], rest[0]).None?)
            then StandardComposed(t, c) == [c[0]] + left + StandardComposed(t, rest)
            else StandardComposed(t, c) != c
  {
    FreshRun(t, c[0], left, rest);
  }

  lemma FreshRun(t: Tables, x: nat, left: seq<nat>, rest: seq<nat>)
    requires t.Valid() && (rest != [] ==> t.Class(rest[0]) == 0)
    requires forall i :: 0 <= i < |left| ==> t.Class(left[i]) > 0
    ensures if TakesNone(t, x, [], left) && (rest != [] && left == [] ==> t.Primary(x, rest[0]).None?)
            then ComposeFrom(t, x, [], left + rest) == [x] + left + StandardComposed(t, rest)
            else ComposeFrom(t, x, [], left + rest)[0] != x
  {
    RunMeetsStandard(t, x, [], left, rest);
    assert [] + left == left;
  }

  lemma ComposedTail(t: Tables, s: seq<nat>)
    requires s != []
    ensures var c, x := Composed(t, s), ComposedPiece(t, s);
            && c != [] && c[0] == x[0] && x == [x[0]] + Left(t, s)
            && c[1..] == Left(t, s) + Composed(t, s[Piece(t, s)..])
  {
    FirstOfConcat(ComposedPiece(t, s), Composed(t, s[Piece(t, s)..]));
  }

  lemma FirstOfConcat(a: seq<nat>, b: seq<nat>)
    requires a != []
    ensures a == [a[0]] + a[1..] && (a + b)[0] == a[0] && (a + b)[1..] == a[1..] + b
  {
  }

  lemma RestBegins(t: Tables, s: seq<nat>)
    requires Coherent(t) && InOrder(t, s) && s != [] && NoExclusions(t, Composed(t, s))
    ensures var n, rest := Piece(t, s), Composed(t, s[Piece(t, s)..]);
            && (n < |s| <==> rest != [])
            && (n < |s| && t.Class(s[n]) == 0 ==> t.Class(rest[0]) == 0)
            && (n < |s| && t.Class(s[n]) == 0 ==>
                  forall x: nat :: t.Primary(x, rest[0]).None? <==> t.Primary(x, s[n]).None?)
  {
    var n := Piece(t, s);
    PieceOfComposed(t, s);
    InOrderParts(t, s, n);
    if n < |s| {
      ComposedIsInOrder(t, s[n..]);
      if t.Class(s[n]) == 0 {
        forall x: nat ensures t.Primary(x, Composed(t, s[n..])[0]).None? <==> t.Primary(x, s[n]).None? {
          NextPiece(t, s, n, x);
        }
      }
    }
  }

  lemma CombinedIsStarter(t: Tables, s: seq<nat>)
    requires t.Valid() && s != [] && t.Class(s[0]) == 0
    ensures t.Class(ComposedPiece(t, s)[0]) == 0
  {
    PieceState(t, s);
    if ComposedPiece(t, s)[0] in t.decompose {
      assert t.ValidDecomposition(ComposedPiece(t, s)[0]);
    }
  }

  /** Composing the result of `createNFC` once more changes nothing exactly if nothing was left to compose. */
  lemma {:induction false} ComposedAgainIff(t: Tables, s: seq<nat>)
    requires Coherent(t) && InOrder(t, s) && NoExclusions(t, Composed(t, s))
    ensures StandardComposed(t, Composed(t, s)) == Composed(t, s) <==> ComposesOnce(t, s)
    decreases s
  {
    if s != [] {
      var n, x := Piece(t, s), ComposedPiece(t, s);
      PieceOfComposed(t, s);
      InOrderParts(t, s, n);
      ComposedAgainIff(t, s[n..]);
      if t.Class(s[0]) == 0 {
        ResultTakesNoExclusions(t, s);
        ComposedPieceAgain(t, s);
      } else {
        assert Composed(t, s)[1..] == Composed(t, s[n..]);
      }
      assert (x + StandardComposed(t, Composed(t, s[n..])))[|x|..] == StandardComposed(t, Composed(t, s[n..]));
    }
  }

  lemma {:induction false} PlainComposeFrom(t: Tables, starter: nat, bt: seq<nat>, rest: seq<nat>)
    requires Coherent(t) && IsPlain(t, rest)
    ensures ComposeFrom(t, starter, bt, rest) == [starter] + bt + rest
    decreases rest
  {
    if rest != [] {
      PlainIsInert(t, starter, rest[0]);
      assert rest == [rest[0]] + rest[1..];
      if t.Class(rest[0]) == 0 {
        PlainComposeFrom(t, rest[0], [], rest[1..]);
        assert [rest[0]] + [] == [rest[0]];
      } else {
        PlainComposeFrom(t, starter, bt + [rest[0]], rest[1..]);
        assert [starter] + (bt + [rest[0]]) + rest[1..] == [starter] + bt + ([rest[0]] + rest[1..]);
      }
    }
  }

  /** Nothing in a plain string composes. */
  lemma {:induction false} PlainStays(t: Tables, s: seq<nat>)
    requires Coherent(t) && IsPlain(t, s)
    ensures StandardComposed(t, s) == s
  {
    if s != [] {
      if t.Class(s[0]) != 0 {
        PlainStays(t, s[1..]);
      } else {
        PlainComposeFrom(t, s[0], [], s[1..]);
      }
    }
  }

  lemma NfcHasNoExclusions(t: Tables, h: Tables, us: seq<nat>)
    requires AreStandard(t, h) && t.no <= t.decompose.Keys && AllScalar(us)
    ensures NoExclusions(t, StandardNfcOf(h, us))
  {
    NfdIsNormal(h, us);
    forall u | u in h.no ensures u in h.decompose { assert EntryOk(t, h, u); }
    StandardHasNoExclusions(h, Nfd(h, us));
  }

  /**
   A string that `isNFC` accepts is in NFC exactly if it holds no exclusion and nothing in it composes by the
   standard, the string being taken as it stands.
   */
  lemma AcceptedIsNfcIff(t: Tables, h: Tables, us: seq<nat>)
    requires AreStandard(t, h) && t.no <= t.decompose.Keys && AllScalar(us) && IsNfcOf(t, us)
    ensures StandardNfcOf(h, us) == us <==> NoExclusions(t, us) && StandardComposed(h, us) == us
  {
    HangulIsCoherent(t, h);
    NfcHasNoExclusions(t, h, us);
    if QuickCheck(t, us, 0) == Yes {
      YesIsNfc(t, h, us);
      QuickYesIff(t, us);
      PlainStays(h, us);
    } else if NoExclusions(t, us) {
      var n := Nfd(t, us);
      NfdIsNormal(t, us);
      SameOrder(t, h, n);
      SameComposed(t, h, n);
      SlowPathIsNfcIff(t, h, us);
      ComposedAgainIff(h, n);
    }
  }

  // Refused by mistake

  /** `u` is no composite of a composite, and none of two starters. */
  predicate IsShallow(t: Tables, u: nat) {
    u in t.decompose ==> t.decompose[u].0 !in t.decompose && t.decompose[u].1 >= 0 && t.Class(t.decompose[u].1) > 0
  }

  predicate AllShallow(t: Tables, us: seq<nat>) {
    forall i :: 0 <= i < |us| ==> IsShallow(t, us[i])
  }

  lemma ShallowPiece(t: Tables, s: seq<nat>)
    requires t.Valid() && AllFinal(t, s) && s != []
    ensures AllShallow(t, ComposedPiece(t, s))
  {
    var marks := s[1..Piece(t, s)];
    var k := FirstComposing(t, s[0], marks, 0);
    if t.Class(s[0]) == 0 && k < |marks| {
      assert marks[k] == s[1 + k];
    }
  }

  /** `createNFC` makes composites of final characters and marks only. */
  lemma {:induction false} ComposedIsShallow(t: Tables, s: seq<nat>)
    requires t.Valid() && AllFinal(t, s)
    ensures AllShallow(t, Composed(t, s))
  {
    if s != [] {
      ShallowPiece(t, s);
      ComposedIsShallow(t, s[Piece(t, s)..]);
    }
  }

  predicate IsDeep(t: Tables, u: nat) {
    u in t.decompose && t.decompose[u].0 in t.decompose
  }

  /** What a composite takes makes it a composite of a composite. */
  lemma {:induction false} CompositeStaysOrIsDeep(t: Tables, x: nat, bt: seq<nat>, rest: seq<nat>)
    requires t.Valid() && x in t.decompose
    ensures var y := ComposeFrom(t, x, bt, rest)[0]; y == x || IsDeep(t, y)
    decreases rest
  {
    if rest != [] {
      var c := rest[0];
      if Takes(t, x, bt, c) {
        CompositeStaysOrIsDeep(t, t.Primary(x, c).value, bt, rest[1..]);
      } else if t.Class(c) != 0 {
        CompositeStaysOrIsDeep(t, x, bt + [c], rest[1..]);
      }
    }
  }

  /** A starter that is composed with the next one does not become shallow again. */
  lemma NextIsNotShallow(t: Tables, x: nat, rest: seq<nat>)
    requires t.Valid() && rest != [] && t.Class(rest[0]) == 0 && t.Primary(x, rest[0]).Some?
    ensures !IsShallow(t, ComposeFrom(t, x, [], rest)[0])
  {
    var p := t.Primary(x, rest[0]).value;
    assert t.ValidDecomposition(p);
    CompositeStaysOrIsDeep(t, p, [], rest[1..]);
  }

  /** A starter that the standard leaves shallow takes no mark if it is a composite, and does not take the next starter. */
  lemma ShallowTakesNone(t: Tables, x: nat, between: seq<nat>, more: seq<nat>, rest: seq<nat>, tail: seq<nat>)
    requires t.Valid() && (rest != [] ==> t.Class(rest[0]) == 0) && (more != [] ==> x in t.decompose)
    requires forall i :: 0 <= i < |more| ==> t.Class(more[i]) > 0
    requires tail == more + rest && IsShallow(t, ComposeFrom(t, x, between, tail)[0])
    ensures TakesNone(t, x, between, more)
    ensures rest != [] && between + more == [] ==> t.Primary(x, rest[0]).None?
  {
    if !TakesNone(t, x, between, more) {
      TakingOneClimbs(t, x, between, more, rest);
      CompositeStaysOrIsDeep(t, x, between, tail);
    } else if rest != [] && between + more == [] && t.Primary(x, rest[0]).Some? {
      assert tail == rest;
      NextIsNotShallow(t, x, rest);
    }
  }

  /** For one starter: if what the standard makes of it is shallow, `createNFC` leaves nothing to compose. */
  lemma ShallowComposesOnce(t: Tables, s: seq<nat>)
    requires t.Valid() && InOrder(t, s) && s != [] && t.Class(s[0]) == 0
    requires TakesNoExclusion(t, s) && IsShallow(t, StandardComposed(t, s)[0])
    ensures TakesNone(t, ComposedPiece(t, s)[0], s[1..Before(t, s)], s[Untried(t, s)..Piece(t, s)])
    ensures Piece(t, s) < |s| && Left(t, s) == [] ==> t.Primary(ComposedPiece(t, s)[0], s[Piece(t, s)]).None?
  {
    var n, x := Piece(t, s), ComposedPiece(t, s)[0];
    var between, more, rest := s[1..Before(t, s)], s[Untried(t, s)..n], s[n..];
    ReachesPiece(t, s);
    LeftParts(t, s);
    TailParts(t, s);
    UntriedAreMarks(t, s);
    UntriedIsEmpty(t, s);
    ShallowTakesNone(t, x, between, more, rest, s[Untried(t, s)..]);
  }

  lemma LeftParts(t: Tables, s: seq<nat>)
    requires s != [] && t.Class(s[0]) == 0
    ensures Left(t, s) == s[1..Before(t, s)] + s[Untried(t, s)..Piece(t, s)]
  {
    PieceParts(t, s);
  }


  lemma UntriedIsEmpty(t: Tables, s: seq<nat>)
    requires t.Valid() && s != [] && t.Class(s[0]) == 0
    ensures s[Untried(t, s)..Piece(t, s)] != [] ==> ComposedPiece(t, s)[0] in t.decompose
  {
    PieceState(t, s);
  }

  /** Where the standard makes shallow characters only and no exclusion is in the way, `createNFC` composes enough. */
  lemma {:induction false} AllShallowComposesOnce(t: Tables, s: seq<nat>)
    requires t.Valid() && AllFinal(t, s) && InOrder(t, s)
    requires AllShallow(t, StandardComposed(t, s)) && TakesNoExclusions(t, s)
    ensures ComposesOnce(t, s)
    decreases s
  {
    if s != [] {
      var n, x := Piece(t, s), ComposedPiece(t, s);
      InOrderParts(t, s, n);
      if t.Class(s[0]) == 0 {
        ShallowComposesOnce(t, s);
        PieceMeetsStandard(t, s);
      }
      assert StandardComposed(t, s) == x + StandardComposed(t, s[n..]);
      forall i | 0 <= i < |StandardComposed(t, s[n..])| ensures IsShallow(t, StandardComposed(t, s[n..])[i]) {
        assert StandardComposed(t, s[n..])[i] == StandardComposed(t, s)[|x| + i];
      }
      AllShallowComposesOnce(t, s[n..]);
    }
  }

  // Hangul that the standard composes does not come back

  lemma SyllableIsShort(t: Tables, h: Tables, x: nat, c: nat)
    requires AddsHangul(t, h) && h.Primary(x, c).Some? && c !in t.decompose
    ensures var p := h.Primary(x, c).value;
            if PairSyllable(x, c).Some? then |DecomposeFull(t, p)| < |DecomposeFull(t, x)| + 1
            else t.Primary(x, c) == Some(p) && |DecomposeFull(t, p)| == |DecomposeFull(t, x)| + 1
  {
    assert PairOk(t, h, x, c);
    var p := h.Primary(x, c).value;
    if PairSyllable(x, c).Some? {
      assert DecomposeFull(t, p) == [p] && DecomposeFull(t, x) == [x];
    } else {
      assert t.ValidDecomposition(p) && t.decompose[p] == (x, c);
      assert DecomposeFull(t, c) == [c];
    }
  }

  lemma SameTakes(t: Tables, h: Tables, x: nat, bt: seq<nat>, c: nat)
    requires AddsHangul(t, h) && !Takes(h, x, bt, c)
    ensures !Takes(t, x, bt, c)
  {
    assert PairOk(t, h, x, c);
    NoHangulPairs(t, x, c);
    if Takes(t, x, bt, c) {
      assert forall j :: 0 <= j < |bt| ==> h.Class(bt[j]) == t.Class(bt[j]);
    }
  }

  /** Only a composed syllable makes the decomposition by the program shorter. */
  lemma {:induction false} ComposeFromShortens(t: Tables, h: Tables, x: nat, bt: seq<nat>, rest: seq<nat>)
    requires AddsHangul(t, h) && AllFinal(t, bt) && AllFinal(t, rest)
    ensures var r, n := |DecomposeAll(t, ComposeFrom(h, x, bt, rest))|, |DecomposeFull(t, x)| + |bt| + |rest|;
            r <= n && (r == n ==> ComposeFrom(h, x, bt, rest) == ComposeFrom(t, x, bt, rest))
    decreases rest
  {
    if rest == [] {
      DecomposeRun(t, x, bt);
    } else {
      var c := rest[0];
      if Takes(h, x, bt, c) {
        SyllableIsShort(t, h, x, c);
        ComposeFromShortens(t, h, h.Primary(x, c).value, bt, rest[1..]);
        assert IsFree(t, bt, c) by { assert forall j :: 0 <= j < |bt| ==> h.Class(bt[j]) == t.Class(bt[j]); }
      } else {
        SameTakes(t, h, x, bt, c);
        if t.Class(c) == 0 {
          ComposeFromShortens(t, h, c, [], rest[1..]);
          DecomposeRuns(t, x, bt, ComposeFrom(h, c, [], rest[1..]));
          assert DecomposeFull(t, c) == [c];
        } else {
          ComposeFromShortens(t, h, x, bt + [c], rest[1..]);
        }
      }
    }
  }

  lemma {:induction false} ComposedShortens(t: Tables, h: Tables, s: seq<nat>)
    requires AddsHangul(t, h) && AllFinal(t, s)
    ensures var r := |DecomposeAll(t, StandardComposed(h, s))|;
            r <= |s| && (r == |s| ==> StandardComposed(h, s) == StandardComposed(t, s))
  {
    if s != [] {
      assert DecomposeFull(t, s[0]) == [s[0]];
      if t.Class(s[0]) != 0 {
        ComposedShortens(t, h, s[1..]);
        DecomposeAllCons(t, s[0], StandardComposed(h, s[1..]));
      } else {
        ComposeFromShortens(t, h, s[0], [], s[1..]);
      }
    }
  }

  /** In the decomposition of a string in NFC there is no Hangul left to compose. */
  lemma NfcNeedsNoHangul(t: Tables, h: Tables, us: seq<nat>)
    requires AreStandard(t, h) && AllScalar(us) && StandardNfcOf(h, us) == us
    ensures StandardComposed(t, Nfd(t, us)) == us
  {
    var n := Nfd(t, us);
    NfdIsNormal(t, us);
    SlowPathIsNfcIff(t, h, us);
    ComposedShortens(t, h, n);
    assert |n| == |DecomposeAll(t, us)|;
  }

  /**
   A string in NFC is accepted by `isNFC` exactly if the quick check says Yes, or each of its composites is one of
   a final character and a mark and no piece of its decomposition is composed to an exclusion.
   */
  lemma NfcIsAcceptedIff(t: Tables, h: Tables, us: seq<nat>)
    requires AreStandard(t, h) && t.no <= t.decompose.Keys && AllScalar(us) && StandardNfcOf(h, us) == us
    ensures IsNfcOf(t, us) <==>
            QuickCheck(t, us, 0) == Yes || (AllShallow(t, us) && TakesNoExclusions(t, Nfd(t, us)))
  {
    var n := Nfd(t, us);
    NfcIsNotNo(t, h, us);
    NfdIsNormal(t, us);
    NfcNeedsNoHangul(t, h, us);
    ComposedMeetsStandardIff(t, n);
    if us == Composed(t, n) {
      ComposedIsShallow(t, n);
      NfcHasNoExclusions(t, h, us);
      ResultTakesNoExclusions(t, n);
    }
    if AllShallow(t, us) && TakesNoExclusions(t, n) {
      AllShallowComposesOnce(t, n);
    }
  }

  lemma NfcIsNotNo(t: Tables, h: Tables, us: seq<nat>)
    requires AreStandard(t, h) && t.no <= t.decompose.Keys && AllScalar(us) && StandardNfcOf(h, us) == us
    ensures QuickCheck(t, us, 0) != No
  {
    SameQuickCheck(t, h, us, 0);
    forall u | u in h.no ensures u in h.decompose { assert EntryOk(t, h, u); }
    if QuickCheck(t, us, 0) == No {
      QuickNoIsNotNfc(h, us);
    }
  }

  // What becomes of the results of toNFC

  /** Some piece of `s` is composed to an exclusion, and nothing in front of it comes out as a Maybe. */
  predicate TakesExposedExclusion(t: Tables, s: seq<nat>) {
    s != [] &&
    (!TakesNoExclusion(t, s) ||
     ((forall u :: u in ComposedPiece(t, s) ==> u !in t.maybe) && TakesExposedExclusion(t, s[Piece(t, s)..])))
  }

  lemma FinalIsNoExclusion(t: Tables, s: seq<nat>)
    requires t.no <= t.decompose.Keys && AllFinal(t, s) && s != []
    ensures forall i :: 1 <= i < |ComposedPiece(t, s)| ==> ComposedPiece(t, s)[i] !in t.no
    ensures ComposedPiece(t, s)[0] in t.no <==> !TakesNoExclusion(t, s)
  {
    if t.Class(s[0]) == 0 {
      forall i | 1 <= i < |ComposedPiece(t, s)| ensures ComposedPiece(t, s)[i] !in t.no {
        CombinedAt(t, s[0], s[1..Piece(t, s)], i);
      }
    }
  }

  lemma ExposedBehind(t: Tables, x: seq<nat>, y: seq<nat>)
    requires forall i :: 0 <= i < |x| ==> x[i] !in t.no && x[i] !in t.maybe
    ensures HasExposedNo(t, x + y) <==> HasExposedNo(t, y)
  {
    var s := x + y;
    if HasExposedNo(t, s) {
      var i :| 0 <= i < |s| && s[i] in t.no && forall j :: 0 <= j < i ==> s[j] !in t.maybe;
      assert y[i - |x|] == s[i] && forall j :: 0 <= j < i - |x| ==> y[j] == s[|x| + j];
    }
    if HasExposedNo(t, y) {
      var i :| 0 <= i < |y| && y[i] in t.no && forall j :: 0 <= j < i ==> y[j] !in t.maybe;
      assert s[|x| + i] == y[i] && forall j :: |x| <= j < |x| + i ==> s[j] == y[j - |x|];
    }
  }

  lemma {:induction false} ExposedIff(t: Tables, s: seq<nat>)
    requires t.no <= t.decompose.Keys && AllFinal(t, s)
    ensures HasExposedNo(t, Composed(t, s)) <==> TakesExposedExclusion(t, s)
  {
    if s != [] {
      var x, rest := ComposedPiece(t, s), Composed(t, s[Piece(t, s)..]);
      PieceOfComposed(t, s);
      FinalIsNoExclusion(t, s);
      ExposedIff(t, s[Piece(t, s)..]);
      if x[0] in t.no {
        assert Composed(t, s)[0] in t.no;
      } else if i :| 0 <= i < |x| && x[i] in t.maybe {
        MaybeInFront(t, x, rest, i);
      } else {
        ExposedBehind(t, x, rest);
      }
    }
  }

  lemma MaybeInFront(t: Tables, x: seq<nat>, y: seq<nat>, i: nat)
    requires i < |x| && x[i] in t.maybe && forall j :: 0 <= j < |x| ==> x[j] !in t.no
    ensures !HasExposedNo(t, x + y)
  {
    assert forall k :: 0 <= k < |x| ==> (x + y)[k] == x[k];
  }

  /**
   `isNFC` refuses the result of `toNFC` exactly if the quick check does not say Yes to the input and composing its
   decomposition takes an exclusion with no Maybe in front of it.
   */
  lemma ResultRefusedIff(t: Tables, us: seq<nat>)
    requires t.Valid() && t.no <= t.decompose.Keys && AllScalar(us)
    ensures !IsNfcOf(t, NfcOf(t, us)) <==> QuickCheck(t, us, 0) != Yes && TakesExposedExclusion(t, Nfd(t, us))
  {
    NfcAcceptedIff(t, us);
    if QuickCheck(t, us, 0) == Yes {
      QuickYesIff(t, us);
    } else {
      NfdIsNormal(t, us);
      ExposedIff(t, Nfd(t, us));
    }
  }

  // Samples

  /** A half composed string is accepted, although its NFC is one character. */
  lemma HalfComposedIsAccepted(t: Tables, h: Tables, a: nat, m: nat, n: nat, p: nat, q: nat)
    requires AreStandard(t, h) && ComposesTwice(t, a, m, n, p, q)
    requires QuickCheck(t, [q], 0) == Yes && QuickCheck(t, [a, m, n], 0) != Yes && QuickCheck(t, [p, n], 0) == Maybe
    ensures IsNfcOf(t, [p, n]) && StandardNfcOf(h, [p, n]) == [q]
  {
    EquivalentStringsDiffer(t, a, m, n, p, q);
    NfcIsIdempotent(t, [a, m, n]);
    NfcKeepsNfd(t, [a, m, n]);
    IsNfcIff(t, [p, n]);
    YesIsNfc(t, h, [q]);
    NfdWithHangul(t, h, [p, n]);
    NfdWithHangul(t, h, [q]);
  }

  lemma SampleFalseAccept(h: Tables)
    requires AreStandard(SampleTables(), h)
    ensures IsNfcOf(SampleTables(), [0x1EA1, 0x0302]) && StandardNfcOf(h, [0x1EA1, 0x0302]) == [0x1EAD]
  {
    SampleVerdicts();
    SampleComposesTwice();
    HalfComposedIsAccepted(SampleTables(), h, 0x61, 0x0323, 0x0302, 0x1EA1, 0x1EAD);
  }

  /** A pair with an excluded composite is refused, although it is in NFC. */
  lemma ExcludedPairIsRefused(t: Tables, h: Tables, a: nat, m: nat, p: nat)
    requires AreStandard(t, h) && t.Class(a) == 0 < t.Class(m) && IsScalar(a) && IsScalar(m)
    requires a !in t.decompose && m !in t.decompose
    requires t.Composite(a, m) == Some(p) && p in t.no
    requires QuickCheck(t, [a, m], 0) != Yes
    ensures !IsNfcOf(t, [a, m]) && StandardNfcOf(h, [a, m]) == [a, m]
  {
    OwnResultRefused(t, a, m, p);
    IsNfcIff(t, [a, m]);
    assert AllFinal(t, [a, m]) && InOrder(t, [a, m]);
    DecomposeAllOfFinal(t, [a, m]);
    OrderedIsInOrder(t, [a, m]);
    SlowPathIsNfcIff(t, h, [a, m]);
    assert PairOk(t, h, a, m);
    NoHangulPairs(t, a, m);
    InertTakesNone(h, a, [], [m]);
    SkipAll(h, a, [], [m], []);
    assert [a, m][1..] == [m] == [m] + [] && [] + [m] == [m] && [a] + [m] == [a, m];
  }

  lemma SampleFalseRefusal(h: Tables)
    requires AreStandard(SampleTables(), h)
    ensures !IsNfcOf(SampleTables(), [0x0915, 0x093C]) && StandardNfcOf(h, [0x0915, 0x093C]) == [0x0915, 0x093C]
  {
    var t := SampleTables();
    QuickYesIff(t, [0x0915, 0x093C]);
    assert [0x0915, 0x093C][1] in t.maybe;
    ExcludedPairIsRefused(t, h, 0x0915, 0x093C, 0x0958);
  }

  /** Both failures, over tables that meet what the theorems suppose. */
  lemma SampleBothWays()
    ensures var t := SampleTables();
            && AreStandard(t, WithHangul(t))
            && IsNfcOf(t, [0x1EA1, 0x0302]) && StandardNfcOf(WithHangul(t), [0x1EA1, 0x0302]) != [0x1EA1, 0x0302]
            && !IsNfcOf(t, [0x0915, 0x093C]) && StandardNfcOf(WithHangul(t), [0x0915, 0x093C]) == [0x0915, 0x093C]
  {
    SampleIsStandard();
    SampleFalseAccept(WithHangul(SampleTables()));
    SampleFalseRefusal(WithHangul(SampleTables()));
  }
}
