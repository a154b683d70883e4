/**
 What `toNFC` promises by name, against the standard with its Hangul (section 3.12 of the Unicode
 Standard): `t` are the tables of the program, and `h` are the same tables with Hangul.
 */
module NfcPromises {
  import opened Wrappers
  import opened Utf8
  import opened UnicodeTables
  import opened Ordering
  import opened Decomposition
  import opened Composition
  import opened Nfc
  import opened StandardComposition
  import opened StandardNfc
  import opened Hangul

  /** Tables as the Unicode data has them: the sets fit the decompositions, and Hangul is added to `h`. */
  ghost predicate AreStandard(t: Tables, h: Tables) {
    Coherent(t) && AddsHangul(t, h)
  }

  lemma SyllableIsCoherent(t: Tables, h: Tables, u: nat)
    requires AreStandard(t, h) && IsSyllable(u)
    ensures u in h.decompose && CoherentAt(h, u)
  {
    var (a, b) := SyllablePair(u);
    assert EntryOk(t, h, u) && EntryOk(t, h, a) && EntryOk(t, h, b) && PairOk(t, h, a, b);
    SyllableParts(u);
    PairOfSyllable(u);
    assert IsHangul(a) && IsHangul(b) && h.Class(a) == t.Class(a) == 0 && h.Class(b) == t.Class(b) == 0;
    if IsSyllable(a) {
      SyllableParts(a);
      assert h.decompose[a] == SyllablePair(a);
    }
  }

  lemma OtherIsCoherent(t: Tables, h: Tables, u: nat)
    requires AreStandard(t, h) && u in t.decompose && u !in t.no && !IsSyllable(u)
    ensures u in h.decompose && CoherentAt(h, u)
  {
    assert CoherentAt(t, u);
    var a, b := t.decompose[u].0, t.decompose[u].1;
    assert EntryOk(t, h, u) && EntryOk(t, h, a) && EntryOk(t, h, b) && PairOk(t, h, a, b);
  }

  lemma HangulIsCoherent(t: Tables, h: Tables)
    requires AreStandard(t, h)
    ensures Coherent(h)
  {
    forall u | u in h.decompose && u !in h.no ensures CoherentAt(h, u) {
      assert EntryOk(t, h, u);
      if IsSyllable(u) { SyllableIsCoherent(t, h, u); } else { OtherIsCoherent(t, h, u); }
    }
  }

  lemma {:induction false} SameQuickCheck(t: Tables, h: Tables, us: seq<nat>, last: nat)
    requires AddsHangul(t, h)
    ensures QuickCheck(h, us, last) == QuickCheck(t, us, last)
  {
    if us != [] {
      SameQuickCheck(t, h, us[1..], t.Class(us[0]));
    }
  }

  // Syllables are composed back

  lemma ExpandStep(t: Tables, h: Tables, s: seq<nat>)
    requires AreStandard(t, h) && s != [] && AllFinal(t, s)
    ensures DecomposeAll(h, s) == DecomposeFull(h, s[0]) + DecomposeAll(h, s[1..])
    ensures !IsSyllable(s[0]) ==> DecomposeAll(h, s) == [s[0]] + DecomposeAll(h, s[1..])
  {
    assert EntryOk(t, h, s[0]);
    if !IsSyllable(s[0]) {
      assert DecomposeFull(h, s[0]) == [s[0]];
    }
  }

  /** A split syllable begins a new run and is composed again. */
  lemma SplitComposes(t: Tables, h: Tables, starter: nat, bt: seq<nat>, u: nat, y: seq<nat>)
    requires AreStandard(t, h) && Coherent(h) && IsSyllable(u)
    ensures ComposeFrom(h, starter, bt, DecomposeFull(h, u) + y) == [starter] + bt + ComposeFrom(h, u, [], y)
  {
    var d := DecomposeFull(h, u);
    SyllableDecomposes(t, h, u);
    var l, r := d[0], d[1..] + y;
    assert [] + ([l] + r) == d + y;
    NewRun(h, starter, bt, [], l, r);
    CharacterComposes(h, u, y);
  }

  lemma SyllableComposes(t: Tables, h: Tables, starter: nat, bt: seq<nat>, u: nat, y: seq<nat>)
    requires AreStandard(t, h) && Coherent(h) && IsSyllable(u)
    ensures ComposeFrom(h, starter, bt, [u] + y) == [starter] + bt + ComposeFrom(h, u, [], y)
  {
    assert IsHangul(u) && u !in t.maybe && h.Class(u) == t.Class(u) == 0;
    NewRun(h, starter, bt, [], u, y);
    assert [] + ([u] + y) == [u] + y;
  }

  lemma {:induction false} ComposeFromSplit(t: Tables, h: Tables, starter: nat, bt: seq<nat>, s: seq<nat>)
    requires AreStandard(t, h) && Coherent(h) && AllFinal(t, s)
    ensures ComposeFrom(h, starter, bt, DecomposeAll(h, s)) == ComposeFrom(h, starter, bt, s)
    decreases s
  {
    if s != [] {
      var c, rest := s[0], s[1..];
      ExpandStep(t, h, s);
      if IsSyllable(c) {
        SplitComposes(t, h, starter, bt, c, DecomposeAll(h, rest));
        SyllableComposes(t, h, starter, bt, c, rest);
        assert [c] + rest == s;
        ComposeFromSplit(t, h, c, [], rest);
      } else {
        var e := DecomposeAll(h, rest);
        assert ([c] + e)[0] == c && ([c] + e)[1..] == e;
        if Takes(h, starter, bt, c) {
          ComposeFromSplit(t, h, h.Primary(starter, c).value, bt, rest);
        } else if h.Class(c) == 0 {
          ComposeFromSplit(t, h, c, [], rest);
        } else {
          ComposeFromSplit(t, h, starter, bt + [c], rest);
        }
      }
    }
  }

  /** Composition undoes the splitting of the syllables. */
  lemma {:induction false} ComposedSplit(t: Tables, h: Tables, s: seq<nat>)
    requires AreStandard(t, h) && Coherent(h) && AllFinal(t, s)
    ensures StandardComposed(h, DecomposeAll(h, s)) == StandardComposed(h, s)
  {
    if s != [] {
      var c, rest := s[0], s[1..];
      ExpandStep(t, h, s);
      if IsSyllable(c) {
        var d, y := DecomposeFull(h, c), DecomposeAll(h, rest);
        SyllableDecomposes(t, h, c);
        assert (d + y)[0] == d[0] && (d + y)[1..] == d[1..] + y;
        CharacterComposes(h, c, y);
        ComposeFromSplit(t, h, c, [], rest);
      } else {
        var e := DecomposeAll(h, rest);
        assert ([c] + e)[0] == c && ([c] + e)[1..] == e;
        if h.Class(c) != 0 {
          ComposedSplit(t, h, rest);
        } else {
          ComposeFromSplit(t, h, c, [], rest);
        }
      }
    }
  }

  /** What the slow path composes, and what the standard makes of the same characters. */
  lemma SlowPathIsNfcIff(t: Tables, h: Tables, us: seq<nat>)
    requires AreStandard(t, h) && AllScalar(us)
    ensures StandardNfcOf(h, us) == StandardComposed(h, Nfd(t, us))
    ensures Composed(t, Nfd(t, us)) == StandardNfcOf(h, us) <==> ComposesOnce(h, Nfd(t, us))
  {
    HangulIsCoherent(t, h);
    NfdIsNormal(t, us);
    NfdWithHangul(t, h, us);
    ComposedSplit(t, h, Nfd(t, us));
    SameComposed(t, h, Nfd(t, us));
    SameOrder(t, h, Nfd(t, us));
    ComposedMeetsStandardIff(h, Nfd(t, us));
  }

  lemma SameOrder(t: Tables, h: Tables, s: seq<nat>)
    requires AddsHangul(t, h)
    ensures InOrder(h, s) <==> InOrder(t, s)
  {
    forall a: nat, b: nat ensures IsReorderablePair(h, a, b) <==> IsReorderablePair(t, a, b) {
    }
  }

  lemma YesIsNfc(t: Tables, h: Tables, us: seq<nat>)
    requires AreStandard(t, h) && AllScalar(us) && QuickCheck(t, us, 0) == Yes
    ensures StandardNfcOf(h, us) == us
  {
    HangulIsCoherent(t, h);
    SameQuickCheck(t, h, us, 0);
    QuickYesIsNfc(h, us);
  }

  // The promises

  /** `toNFC` keeps canonical equivalence, that of Hangul included. */
  lemma NfcKeepsEquivalence(t: Tables, h: Tables, us: seq<nat>)
    requires AreStandard(t, h) && AllScalar(us)
    ensures Nfd(h, NfcOf(t, us)) == Nfd(h, us)
  {
    NfcKeepsNfd(t, us);
    NfdWithHangul(t, h, us);
    NfdWithHangul(t, h, NfcOf(t, us));
  }

  /**
   `toNFC` yields NFC exactly if the quick check says Yes, or composing what the program decomposes takes no
   exclusion, never has to compose a starter twice, and leaves no starters that the standard composes.
   */
  lemma NfcMeetsStandardIff(t: Tables, h: Tables, us: seq<nat>)
    requires AreStandard(t, h) && AllScalar(us)
    ensures NfcOf(t, us) == StandardNfcOf(h, us) <==> QuickCheck(t, us, 0) == Yes || ComposesOnce(h, Nfd(t, us))
  {
    SlowPathIsNfcIff(t, h, us);
    if QuickCheck(t, us, 0) == Yes {
      YesIsNfc(t, h, us);
    }
  }

  /** When two canonically equivalent strings get one result. */
  predicate AgreeOn(t: Tables, h: Tables, us: seq<nat>, vs: seq<nat>)
    requires t.Valid()
  {
    match (QuickCheck(t, us, 0) == Yes, QuickCheck(t, vs, 0) == Yes)
    case (true, true) => true
    case (true, false) => ComposesOnce(h, Nfd(t, vs))
    case (false, true) => ComposesOnce(h, Nfd(t, us))
    case (false, false) => Nfd(t, us) == Nfd(t, vs)
  }

  /**
   Two canonically equivalent strings get one result exactly if both pass the quick check, or one passes and
   the slow path is right on the other, or none passes and the program decomposes both alike.
   */
  lemma EquivalentPairSameNfcIff(t: Tables, h: Tables, us: seq<nat>, vs: seq<nat>)
    requires AreStandard(t, h) && AllScalar(us) && AllScalar(vs) && Nfd(h, us) == Nfd(h, vs)
    ensures NfcOf(t, us) == NfcOf(t, vs) <==> AgreeOn(t, h, us, vs)
  {
    SlowPathIsNfcIff(t, h, us);
    SlowPathIsNfcIff(t, h, vs);
    NfdIsNormal(t, us);
    NfdIsNormal(t, vs);
    ComposedKeepsNfd(t, Nfd(t, us));
    ComposedKeepsNfd(t, Nfd(t, vs));
    if QuickCheck(t, us, 0) == Yes { YesIsNfc(t, h, us); }
    if QuickCheck(t, vs, 0) == Yes { YesIsNfc(t, h, vs); }
  }

  /** A leading consonant and a vowel stand next to each other. */
  predicate SpellsAt(n: seq<nat>, i: nat) {
    i + 1 < |n| && IsLeading(n[i]) && IsVowel(n[i + 1])
  }

  ghost predicate SpellsSyllable(n: seq<nat>) {
    exists i: nat :: SpellsAt(n, i)
  }

  /** The jamo at `i` and behind it, put together. */
  function Joined(n: seq<nat>, i: nat): seq<nat>
    requires SpellsAt(n, i)
  {
    n[..i] + [PairSyllable(n[i], n[i + 1]).value] + n[i + 2..]
  }

  lemma JoinedDecomposes(t: Tables, h: Tables, a: seq<nat>, l: nat, v: nat, b: seq<nat>)
    requires AreStandard(t, h) && AllFinal(h, a) && AllFinal(h, b) && IsLeading(l) && IsVowel(v)
    ensures DecomposeAll(h, a + [PairSyllable(l, v).value] + b) == a + [l, v] + b
  {
    var s := PairSyllable(l, v).value;
    SyllableOfPair(l, v);
    TwoJamo(t, h, s);
    DecomposeAllConcat(h, a + [s], b);
    DecomposeAllConcat(h, a, [s]);
    DecomposeAllCons(h, s, []);
    DecomposeAllOfFinal(h, a);
    DecomposeAllOfFinal(h, b);
    assert [s] + [] == [s] && [l, v] + [] == [l, v];
  }

  lemma JoinedIsEquivalent(t: Tables, h: Tables, n: seq<nat>, i: nat)
    requires AreStandard(t, h) && AllFinal(h, n) && InOrder(h, n) && SpellsAt(n, i)
    ensures AllScalar(Joined(n, i)) && Nfd(h, Joined(n, i)) == n
  {
    JoinedDecomposes(t, h, n[..i], n[i], n[i + 1], n[i + 2..]);
    assert n[..i] + [n[i], n[i + 1]] + n[i + 2..] == n;
    OrderedIsInOrder(h, n);
  }

  lemma JoinedDiffers(t: Tables, h: Tables, n: seq<nat>, i: nat)
    requires AreStandard(t, h) && AllFinal(h, n) && InOrder(h, n) && SpellsAt(n, i)
    ensures Nfd(t, n) == n != Nfd(t, Joined(n, i))
  {
    var v, s := Joined(n, i), PairSyllable(n[i], n[i + 1]).value;
    forall k | 0 <= k < |n| ensures n[k] !in t.decompose && n[k] != s { assert EntryOk(t, h, n[k]); }
    SameOrder(t, h, n);
    DecomposeAllOfFinal(t, n);
    OrderedIsInOrder(t, n);
    forall k | 0 <= k < |v| ensures IsScalar(v[k]) && v[k] !in t.decompose {
      assert v[k] == if k < i then n[k] else if k == i then s else n[k + 1];
    }
    DecomposeAllOfFinal(t, v);
    OrderedIsStablePermutation(t, v);
    assert v[i] == s && s in multiset(v);
    assert s in Nfd(t, v) && s !in n;
  }

  /** When a syllable is spelled, it can be put together: an equivalent string with another result. */
  lemma SpelledIsNotShared(t: Tables, h: Tables, us: seq<nat>)
    requires AreStandard(t, h) && AllScalar(us) && SpellsSyllable(Nfd(h, us))
    ensures exists vs :: AllScalar(vs) && Nfd(h, vs) == Nfd(h, us) && NfcOf(t, vs) != NfcOf(t, us)
  {
    var n := Nfd(h, us);
    var i: nat :| SpellsAt(n, i);
    NfdIsNormal(h, us);
    JoinedIsEquivalent(t, h, n, i);
    JoinedDiffers(t, h, n, i);
    NfcKeepsNfd(t, n);
    NfcKeepsNfd(t, Joined(n, i));
    assert NfcOf(t, n) != NfcOf(t, Joined(n, i));
    assert Nfd(h, n) == n && Nfd(h, Joined(n, i)) == n;
  }

  lemma {:induction false} SyllableSpells(t: Tables, h: Tables, p: seq<nat>, k: nat)
    requires AreStandard(t, h) && AllFinal(t, p) && k < |p| && IsSyllable(p[k])
    ensures SpellsSyllable(DecomposeAll(h, p))
  {
    var a, u, b := p[..k], p[k], p[k + 1..];
    assert p == a + ([u] + b);
    DecomposeAllConcat(h, a, [u] + b);
    DecomposeAllCons(h, u, b);
    SyllableDecomposes(t, h, u);
    var x, d, y := DecomposeAll(h, a), DecomposeFull(h, u), DecomposeAll(h, b);
    assert (x + (d + y))[|x|] == d[0] && (x + (d + y))[|x| + 1] == d[1];
    assert SpellsAt(x + (d + y), |x|);
  }

  /** When no syllable is spelled, the program decomposes every equivalent string as the standard does. */
  lemma UnspelledIsNfd(t: Tables, h: Tables, vs: seq<nat>)
    requires AreStandard(t, h) && AllScalar(vs) && !SpellsSyllable(Nfd(h, vs))
    ensures Nfd(t, vs) == Nfd(h, vs)
  {
    var p := Nfd(t, vs);
    NfdIsNormal(t, vs);
    NfdWithHangul(t, h, vs);
    forall k | 0 <= k < |p| ensures !IsSyllable(p[k]) {
      if IsSyllable(p[k]) { SyllableSpells(t, h, p, k); }
    }
    FinalStays(t, h, p);
  }

  lemma UnspelledIsShared(t: Tables, h: Tables, us: seq<nat>, vs: seq<nat>)
    requires AreStandard(t, h) && AllScalar(us) && AllScalar(vs) && Nfd(h, vs) == Nfd(h, us)
    requires !SpellsSyllable(Nfd(h, us))
    requires ComposesOnce(h, Nfd(h, us)) || QuickCheck(t, StandardNfcOf(h, us), 0) != Yes
    ensures NfcOf(t, vs) == NfcOf(t, us)
  {
    UnspelledIsNfd(t, h, us);
    UnspelledIsNfd(t, h, vs);
    EquivalentPairSameNfcIff(t, h, us, vs);
    if QuickCheck(t, us, 0) == Yes { YesIsNfc(t, h, us); }
    if QuickCheck(t, vs, 0) == Yes { YesIsNfc(t, h, vs); }
  }

  /** Otherwise the two paths make different strings of the decomposition, and each is its own result. */
  lemma PathsPart(t: Tables, h: Tables, us: seq<nat>)
    requires AreStandard(t, h) && AllScalar(us) && !SpellsSyllable(Nfd(h, us))
    requires !ComposesOnce(h, Nfd(h, us)) && QuickCheck(t, StandardNfcOf(h, us), 0) == Yes
    ensures exists vs :: AllScalar(vs) && Nfd(h, vs) == Nfd(h, us) && NfcOf(t, vs) != NfcOf(t, us)
  {
    var n, d := Nfd(h, us), StandardNfcOf(h, us);
    var c := Composed(t, n);
    UnspelledIsNfd(t, h, us);
    SlowPathIsNfcIff(t, h, us);
    StandardKeepsNfd(h, us);
    NfdIsNormal(t, us);
    ComposedKeepsNfd(t, n);
    ComposedIsScalar(t, n);
    NfdWithHangul(t, h, c);
    NfdWithHangul(t, h, us);
    assert Nfd(h, c) == n && Nfd(h, d) == n && c != d;
    if QuickCheck(t, c, 0) == Yes { YesIsNfc(t, h, c); }
    assert NfcOf(t, c) == c && NfcOf(t, d) == d;
  }

  /**
   All strings that are canonically equivalent to `us` get one result exactly if no Hangul syllable is spelled
   and the slow path is right on the decomposition, or no equivalent string takes the fast path, since NFC
   itself does not pass the quick check.
   */
  lemma EquivalentSameNfcIff(t: Tables, h: Tables, us: seq<nat>)
    requires AreStandard(t, h) && AllScalar(us)
    ensures (forall vs :: AllScalar(vs) && Nfd(h, vs) == Nfd(h, us) ==> NfcOf(t, vs) == NfcOf(t, us)) <==>
            && !SpellsSyllable(Nfd(h, us))
            && (ComposesOnce(h, Nfd(h, us)) || QuickCheck(t, StandardNfcOf(h, us), 0) != Yes)
  {
    if SpellsSyllable(Nfd(h, us)) {
      SpelledIsNotShared(t, h, us);
    } else if ComposesOnce(h, Nfd(h, us)) || QuickCheck(t, StandardNfcOf(h, us), 0) != Yes {
      forall vs | AllScalar(vs) && Nfd(h, vs) == Nfd(h, us) ensures NfcOf(t, vs) == NfcOf(t, us) {
        UnspelledIsShared(t, h, us, vs);
      }
    } else {
      PathsPart(t, h, us);
    }
  }

  /** Ill-formed octets leave `toNFC` with one exception type from the quick check and with another from the slow path. */
  method SampleIllFormed(t: Tables) returns (a: Result<seq<byte>, Thrown>, b: Result<seq<byte>, Thrown>)
    requires t.Valid() && 0x80 in t.maybe
    ensures a.Err? && a.error.IllegalUtf8? && b.Err? && b.error.Utf8Exception?
  {
    var alone, behind: seq<byte> := [0x80], [0xC2, 0x80, 0x80];
    assert Front(alone) == 0;
    assert behind[..2] == [0xC2, 0x80] && behind[2..] == alone;
    FrontIsUnique(behind, 2);
    assert Readable(alone) == [] && Payload([0xC2, 0x80]) == 0x80;
    assert Readable(behind) == [0x80] + Readable(alone);
    assert QuickCheck(t, [0x80], 0) != Yes;
    a := ToNfc(t, alone);
    b := ToNfc(t, behind);
  }

  // Samples

  /** Tables as the theorems suppose them. */
  lemma SampleIsStandard()
    ensures AreStandard(SampleTables(), WithHangul(SampleTables())) && SampleTables().no <= SampleTables().decompose.Keys
  {
    SampleIsCoherent();
    WithHangulAddsIt(SampleTables());
  }

  lemma JamoStay(t: Tables)
    requires t.Valid() && HangulReady(t)
    ensures NfcOf(t, [0x1100, 0x1161]) == [0x1100, 0x1161]
  {
    var us := [0x1100, 0x1161];
    QuickYesIff(t, us);
    assert us[1] in t.maybe;
    assert AllFinal(t, us) && InOrder(t, us);
    DecomposeAllOfFinal(t, us);
    OrderedIsInOrder(t, us);
    StartersStay(t, us);
  }

  lemma {:induction false} StartersStay(t: Tables, s: seq<nat>)
    requires forall i :: 0 <= i < |s| ==> t.Class(s[i]) == 0
    ensures Composed(t, s) == s
  {
    if s != [] {
      assert Piece(t, s) == 1 && s[1..1] == [];
      assert ComposedPiece(t, s) == [s[0]];
      StartersStay(t, s[1..]);
    }
  }

  /** The jamo of GA stay apart, where the standard composes the syllable. */
  lemma SampleHangul(t: Tables, h: Tables)
    requires AreStandard(t, h)
    ensures NfcOf(t, [0x1100, 0x1161]) == [0x1100, 0x1161] && NfcOf(t, [0xAC00]) == [0xAC00]
    ensures StandardNfcOf(h, [0x1100, 0x1161]) == [0xAC00]
  {
    JamoStay(t);
    QuickYesIff(t, [0xAC00]);
    YesIsNfc(t, h, [0xAC00]);
    SampleDecompositions(t, h);
  }

  lemma SampleDecompositions(t: Tables, h: Tables)
    requires AreStandard(t, h)
    ensures Nfd(h, [0xAC00]) == Nfd(h, [0x1100, 0x1161])
  {
    var us := [0x1100, 0x1161];
    TwoJamo(t, h, 0xAC00);
    DecomposeAllCons(h, 0xAC00, []);
    assert [0xAC00] + [] == [0xAC00] && us + [] == us;
    assert EntryOk(t, h, us[0]) && EntryOk(t, h, us[1]);
    DecomposeAllOfFinal(h, us);
  }
}
