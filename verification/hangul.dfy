/**
 Hangul (Unicode Standard section 3.12), which the program has no code for.  The standard decomposes its
 syllables and composes its jamo by arithmetic; here that arithmetic is added to a copy of the tables, so
 that the algorithms of the standard run over the copy and those of the program over the tables as they are.
 */
module Hangul {
  import opened Wrappers
  import opened Utf8
  import opened UnicodeTables
  import opened Ordering
  import opened Decomposition
  import opened Composition

  predicate IsLeading(u: int) {
    0x1100 <= u <= 0x1112
  }

  predicate IsVowel(u: int) {
    0x1161 <= u <= 0x1175
  }

  predicate IsTrailing(u: int) {
    0x11A8 <= u <= 0x11C2
  }

  predicate IsSyllable(u: int) {
    0xAC00 <= u <= 0xD7A3
  }

  predicate IsHangul(u: int) {
    IsLeading(u) || IsVowel(u) || IsTrailing(u) || IsSyllable(u)
  }

  /** A syllable of two jamo, or one of three, which splits into the syllable of the first two and the third. */
  function SyllablePair(s: nat): (nat, nat)
    requires IsSyllable(s)
  {
    var i := s - 0xAC00;
    if i % 28 == 0 then (0x1100 + i / 588, 0x1161 + i / 28 % 21) else (s - i % 28, 0x11A7 + i % 28)
  }

  function PairSyllable(a: nat, b: nat): (s: Option<nat>)
    ensures s.Some? ==> IsSyllable(s.value)
  {
    if IsLeading(a) && IsVowel(b) then Some(0xAC00 + ((a - 0x1100) * 21 + (b - 0x1161)) * 28)
    else if IsSyllable(a) && (a - 0xAC00) % 28 == 0 && IsTrailing(b) then Some(a + (b - 0x11A7))
    else None
  }

  lemma SyllableParts(s: nat)
    requires IsSyllable(s)
    ensures var (a, b) := SyllablePair(s);
            if (s - 0xAC00) % 28 == 0 then IsLeading(a) && IsVowel(b)
            else IsSyllable(a) && (a - 0xAC00) % 28 == 0 && IsTrailing(b)
  {
    var i := s - 0xAC00;
    assert i / 588 == i / 28 / 21;
  }

  lemma PairOfSyllable(s: nat)
    requires IsSyllable(s)
    ensures PairSyllable(SyllablePair(s).0, SyllablePair(s).1) == Some(s)
  {
    SyllableParts(s);
    var i := s - 0xAC00;
    var j := i / 28;
    assert i / 588 == j / 21 && j == j / 21 * 21 + j % 21;
  }

  lemma SyllableOfPair(a: nat, b: nat)
    requires PairSyllable(a, b).Some?
    ensures SyllablePair(PairSyllable(a, b).value) == (a, b)
  {
    if IsLeading(a) && IsVowel(b) {
      var l, v: int := a - 0x1100, b - 0x1161;
      assert (l * 21 + v) * 28 / 28 == l * 21 + v;
      assert (l * 21 + v) / 21 == l && (l * 21 + v) % 21 == v;
      assert (l * 21 + v) * 28 / 588 == (l * 21 + v) * 28 / 28 / 21;
    }
  }

  /** The example of section 3.12: D4DB is 1111 1171 11B6, and its first two jamo make D4CC; and the first and last syllables. */
  lemma SampleSyllables()
    ensures SyllablePair(0xD4DB) == (0xD4CC, 0x11B6) && SyllablePair(0xD4CC) == (0x1111, 0x1171)
    ensures SyllablePair(0xAC00) == (0x1100, 0x1161)
    ensures SyllablePair(0xD7A3) == (0xD788, 0x11C2) && SyllablePair(0xD788) == (0x1112, 0x1175)
  {
  }

  /** The jamo that compose with what stands in front of them. */
  function ComposingJamo(): (r: set<nat>)
    ensures forall u :: u in r <==> IsVowel(u) || IsTrailing(u)
  {
    (set u: nat | 0x1161 <= u <= 0x1175 && IsVowel(u)) + (set u: nat | 0x11A8 <= u <= 0x11C2 && IsTrailing(u))
  }

  /**
   What the tables of server/nfc_sets.cc say of Hangul: no entries, class 0, and vowels and trailing
   consonants in Maybe.
   */
  ghost predicate HangulReady(t: Tables) {
    && (forall u: nat :: IsHangul(u) ==> u !in t.decompose && t.Class(u) == 0 && u !in t.no)
    && (forall u: nat :: IsHangul(u) ==> (u in t.maybe <==> IsVowel(u) || IsTrailing(u)))
    && (forall u :: u in t.decompose ==> !IsHangul(t.decompose[u].0) && !IsHangul(t.decompose[u].1))
  }

  function SyllableRank(s: nat): nat
    requires IsSyllable(s)
  {
    if (s - 0xAC00) % 28 == 0 then 0 else 1
  }

  /** The tables with Hangul. */
  ghost function WithHangul(t: Tables): Tables {
    Tables(
      t.combiningClass,
      t.decompose + map s: nat | 0xAC00 <= s <= 0xD7A3 :: SyllablePair(s),
      t.compose + map a: nat, b: nat | 0 <= a <= 0xFFFF && 0 <= b <= 0xFFFF && PairSyllable(a, b).Some? :: (a, b) := PairSyllable(a, b).value,
      t.no,
      t.maybe,
      t.rank + map s: nat | 0xAC00 <= s <= 0xD7A3 :: SyllableRank(s))
  }

  lemma HangulEntries(t: Tables, u: nat)
    requires HangulReady(t)
    ensures var d := WithHangul(t).decompose;
            && (u in d <==> u in t.decompose || IsSyllable(u))
            && (u in d ==> d[u] == if IsSyllable(u) then SyllablePair(u) else t.decompose[u])
    ensures WithHangul(t).Class(u) == t.Class(u)
    ensures !IsSyllable(u) ==> WithHangul(t).Rank(u) == t.Rank(u)
  {
  }

  lemma HangulPairs(t: Tables, a: nat, b: nat)
    requires t.Valid() && HangulReady(t)
    ensures WithHangul(t).Composite(a, b) == if PairSyllable(a, b).Some? then PairSyllable(a, b) else t.Composite(a, b)
    ensures PairSyllable(a, b).Some? ==> t.Composite(a, b).None?
  {
    NoHangulPairs(t, a, b);
  }

  lemma NoHangulPairs(t: Tables, a: nat, b: nat)
    requires t.Valid() && HangulReady(t)
    ensures (a, b) in t.compose ==> !IsHangul(a) && !IsHangul(b)
  {
    if (a, b) in t.compose {
      var u := t.compose[(a, b)];
      assert u in t.decompose && t.decompose[u] == (a, b);
    }
  }

  lemma SyllableIsValid(t: Tables, u: nat)
    requires t.Valid() && HangulReady(t) && IsSyllable(u)
    ensures u in WithHangul(t).decompose && WithHangul(t).ValidDecomposition(u)
  {
    SyllableParts(u);
    HangulEntries(t, u);
    HangulEntries(t, SyllablePair(u).0);
    HangulEntries(t, SyllablePair(u).1);
  }

  lemma OtherIsValid(t: Tables, u: nat)
    requires t.Valid() && HangulReady(t) && u in t.decompose && !IsSyllable(u)
    ensures u in WithHangul(t).decompose && WithHangul(t).ValidDecomposition(u)
  {
    assert t.ValidDecomposition(u);
    HangulEntries(t, u);
    HangulEntries(t, t.decompose[u].0);
    if t.decompose[u].1 >= 0 {
      HangulEntries(t, t.decompose[u].1);
    }
  }

  lemma HangulIsComposeTable(t: Tables)
    requires t.Valid() && HangulReady(t)
    ensures IsComposeTable(WithHangul(t).decompose, WithHangul(t).compose)
  {
    var h := WithHangul(t);
    forall p | p in h.compose ensures h.compose[p] in h.decompose && h.decompose[h.compose[p]] == p {
      HangulPairs(t, p.0, p.1);
      HangulEntries(t, h.compose[p]);
      if PairSyllable(p.0, p.1).Some? {
        SyllableOfPair(p.0, p.1);
      }
    }
    forall u | u in h.decompose && IsPair(h.decompose[u]) ensures h.decompose[u] in h.compose && u <= h.compose[h.decompose[u]] {
      HangulEntries(t, u);
      HangulPairs(t, h.decompose[u].0, h.decompose[u].1);
      if IsSyllable(u) {
        PairOfSyllable(u);
      }
    }
  }

  /** The entry of `u` is that of the tables, or a syllable's. */
  ghost predicate EntryOk(t: Tables, h: Tables, u: nat) {
    && (u in h.decompose <==> u in t.decompose || IsSyllable(u))
    && (u in h.decompose ==> h.decompose[u] == if IsSyllable(u) then SyllablePair(u) else t.decompose[u])
  }

  ghost predicate PairOk(t: Tables, h: Tables, a: nat, b: nat) {
    h.Composite(a, b) == if PairSyllable(a, b).Some? then PairSyllable(a, b) else t.Composite(a, b)
  }

  /** `h` is `t` with Hangul. */
  ghost predicate AddsHangul(t: Tables, h: Tables) {
    && t.Valid() && h.Valid() && HangulReady(t)
    && h.combiningClass == t.combiningClass && h.no == t.no && h.maybe == t.maybe
    && (forall u: nat {:trigger EntryOk(t, h, u)} :: EntryOk(t, h, u))
    && (forall a: nat, b: nat {:trigger PairOk(t, h, a, b)} :: PairOk(t, h, a, b))
  }

  lemma WithHangulAddsIt(t: Tables)
    requires t.Valid() && HangulReady(t)
    ensures AddsHangul(t, WithHangul(t))
  {
    var h := WithHangul(t);
    HangulIsComposeTable(t);
    forall u | u in h.decompose ensures h.ValidDecomposition(u) {
      HangulEntries(t, u);
      if IsSyllable(u) { SyllableIsValid(t, u); } else { OtherIsValid(t, u); }
    }
    forall u: nat ensures EntryOk(t, h, u) { HangulEntries(t, u); }
    forall a: nat, b: nat ensures PairOk(t, h, a, b) { HangulPairs(t, a, b); }
  }

  // Decomposition

  /** Apart from syllables, the characters decompose alike. */
  lemma {:induction false} SameDecomposition(t: Tables, h: Tables, u: nat)
    requires AddsHangul(t, h) && !IsSyllable(u)
    ensures DecomposeFull(h, u) == DecomposeFull(t, u)
    decreases t.Rank(u)
  {
    assert EntryOk(t, h, u);
    if u in t.decompose {
      assert t.ValidDecomposition(u);
      SameDecomposition(t, h, t.decompose[u].0);
      if t.decompose[u].1 >= 0 {
        SameDecomposition(t, h, t.decompose[u].1);
      }
    }
  }

  lemma TwoJamo(t: Tables, h: Tables, u: nat)
    requires AddsHangul(t, h) && IsSyllable(u) && (u - 0xAC00) % 28 == 0
    ensures DecomposeFull(h, u) == [SyllablePair(u).0, SyllablePair(u).1]
    ensures IsLeading(SyllablePair(u).0) && IsVowel(SyllablePair(u).1)
  {
    var (a, b) := SyllablePair(u);
    SyllableParts(u);
    assert EntryOk(t, h, u);
    JamoIsFinal(t, h, a);
    JamoIsFinal(t, h, b);
    assert [a] + [b] == [a, b];
  }

  lemma ThreeJamo(t: Tables, h: Tables, u: nat)
    requires AddsHangul(t, h) && IsSyllable(u) && (u - 0xAC00) % 28 != 0
    ensures IsSyllable(SyllablePair(u).0) && (SyllablePair(u).0 - 0xAC00) % 28 == 0 && IsTrailing(SyllablePair(u).1)
    ensures DecomposeFull(h, u) == DecomposeFull(h, SyllablePair(u).0) + [SyllablePair(u).1]
  {
    SyllableParts(u);
    assert EntryOk(t, h, u);
    JamoIsFinal(t, h, SyllablePair(u).1);
  }

  /** The jamo of a syllable: all of class 0, the first two a leading consonant and a vowel. */
  lemma SyllableDecomposes(t: Tables, h: Tables, u: nat)
    requires AddsHangul(t, h) && IsSyllable(u)
    ensures var d := DecomposeFull(h, u);
            && |d| >= 2 && IsLeading(d[0]) && IsVowel(d[1])
            && forall i :: 0 <= i < |d| ==> IsHangul(d[i]) && !IsSyllable(d[i])
  {
    if (u - 0xAC00) % 28 == 0 {
      TwoJamo(t, h, u);
    } else {
      ThreeJamo(t, h, u);
      TwoJamo(t, h, SyllablePair(u).0);
    }
  }

  lemma JamoIsFinal(t: Tables, h: Tables, u: nat)
    requires AddsHangul(t, h) && IsHangul(u) && !IsSyllable(u)
    ensures DecomposeFull(h, u) == [u]
  {
    assert EntryOk(t, h, u);
  }

  /** Decomposing with Hangul what is decomposed already only splits the syllables. */
  lemma {:induction false} HangulBehindFull(t: Tables, h: Tables, u: nat)
    requires AddsHangul(t, h) && IsScalar(u)
    ensures DecomposeFull(h, u) == DecomposeAll(h, DecomposeFull(t, u))
  {
    assert EntryOk(t, h, u);
    if IsSyllable(u) {
      assert DecomposeFull(t, u) == [u];
      DecomposeAllCons(h, u, []);
      assert [u] + [] == [u] && DecomposeFull(h, u) + [] == DecomposeFull(h, u);
    } else {
      SameDecomposition(t, h, u);
      DecomposeFullIsFinal(t, u);
      NoSyllables(t, u);
      FinalStays(t, h, DecomposeFull(t, u));
    }
  }

  lemma {:induction false} NoSyllables(t: Tables, u: nat)
    requires t.Valid() && HangulReady(t) && !IsSyllable(u)
    ensures forall i :: 0 <= i < |DecomposeFull(t, u)| ==> !IsSyllable(DecomposeFull(t, u)[i])
    decreases t.Rank(u)
  {
    if u in t.decompose {
      assert t.ValidDecomposition(u);
      NoSyllables(t, t.decompose[u].0);
      if t.decompose[u].1 >= 0 {
        NoSyllables(t, t.decompose[u].1);
      }
    }
  }

  lemma FinalStays(t: Tables, h: Tables, s: seq<nat>)
    requires AddsHangul(t, h) && AllFinal(t, s)
    requires forall i :: 0 <= i < |s| ==> !IsSyllable(s[i])
    ensures DecomposeAll(h, s) == s
  {
    forall i | 0 <= i < |s| ensures s[i] !in h.decompose {
      assert EntryOk(t, h, s[i]);
    }
    DecomposeAllOfFinal(h, s);
  }

  lemma {:induction false} HangulBehindAll(t: Tables, h: Tables, us: seq<nat>)
    requires AddsHangul(t, h) && AllScalar(us)
    ensures DecomposeAll(h, us) == DecomposeAll(h, DecomposeAll(t, us))
  {
    if us != [] {
      HangulBehindFull(t, h, us[0]);
      HangulBehindAll(t, h, us[1..]);
      DecomposeAllConcat(h, DecomposeFull(t, us[0]), DecomposeAll(t, us[1..]));
    }
  }

  /** Ordering depends on the classes, which are the same. */
  lemma {:induction false} SameInsert(t: Tables, h: Tables, s: seq<nat>, c: nat)
    requires h.combiningClass == t.combiningClass
    ensures Insert(h, s, c) == Insert(t, s, c)
  {
    if s != [] && IsReorderablePair(t, s[|s| - 1], c) {
      SameInsert(t, h, s[..|s| - 1], c);
    }
  }

  lemma {:induction false} SameInsertAll(t: Tables, h: Tables, s: seq<nat>, cs: seq<nat>)
    requires h.combiningClass == t.combiningClass
    ensures InsertAll(h, s, cs) == InsertAll(t, s, cs)
    decreases cs
  {
    if cs != [] {
      SameInsert(t, h, s, cs[0]);
      SameInsertAll(t, h, Insert(t, s, cs[0]), cs[1..]);
    }
  }

  lemma ExpandSnoc(t: Tables, h: Tables, s: seq<nat>, u: nat)
    requires h.Valid()
    ensures DecomposeAll(h, s + [u]) == DecomposeAll(h, s) + DecomposeFull(h, u)
  {
    DecomposeAllConcat(h, s, [u]);
    DecomposeAllCons(h, u, []);
    assert [u] + [] == [u];
    assert DecomposeFull(h, u) + [] == DecomposeFull(h, u);
  }

  /** Splitting the syllables and inserting a character may change places: syllables and jamo are of class 0. */
  lemma {:induction false} ExpandInsert(t: Tables, h: Tables, s: seq<nat>, c: nat)
    requires AddsHangul(t, h) && AllFinal(t, s) && AllFinal(t, [c])
    ensures DecomposeAll(h, Insert(t, s, c)) ==
            InsertAll(t, DecomposeAll(h, s), DecomposeFull(h, c))
    ensures AllFinal(t, Insert(t, s, c))
  {
    assert [c][0] == c;
    if s != [] && IsReorderablePair(t, s[|s| - 1], c) {
      var p, l := s[..|s| - 1], s[|s| - 1];
      assert s == p + [l];
      ExpandInsert(t, h, p, c);
      ExpandPast(t, h, p, l, c);
    } else {
      ExpandSnoc(t, h, s, c);
      ExpandedInOrder(t, h, s, c);
    }
  }

  /** A mark that moves past another one moves past it when the syllables in front are split, too. */
  lemma ExpandPast(t: Tables, h: Tables, p: seq<nat>, l: nat, c: nat)
    requires AddsHangul(t, h) && AllFinal(t, [l]) && AllFinal(t, [c]) && IsReorderablePair(t, l, c)
    requires DecomposeAll(h, Insert(t, p, c)) == InsertAll(t, DecomposeAll(h, p), DecomposeFull(h, c))
    ensures DecomposeAll(h, Insert(t, p, c) + [l]) == InsertAll(t, DecomposeAll(h, p + [l]), DecomposeFull(h, c))
  {
    var e := DecomposeAll(h, p);
    assert [c][0] == c && [l][0] == l && EntryOk(t, h, c) && EntryOk(t, h, l);
    assert DecomposeFull(h, l) == [l] && DecomposeFull(h, c) == [c];
    ExpandSnoc(t, h, p, l);
    ExpandSnoc(t, h, Insert(t, p, c), l);
    InsertSnoc(t, e, l, c);
    OneInserted(t, e, c);
    OneInserted(t, e + [l], c);
  }

  lemma OneInserted(t: Tables, s: seq<nat>, c: nat)
    ensures InsertAll(t, s, [c]) == Insert(t, s, c)
  {
  }

  /** A character that is put at the end stays there when the syllables are split. */
  lemma ExpandedInOrder(t: Tables, h: Tables, s: seq<nat>, c: nat)
    requires AddsHangul(t, h) && AllFinal(t, s) && AllFinal(t, [c])
    requires s != [] ==> !IsReorderablePair(t, s[|s| - 1], c)
    ensures InsertAll(t, DecomposeAll(h, s), DecomposeFull(h, c)) ==
            DecomposeAll(h, s) + DecomposeFull(h, c)
  {
    var e := DecomposeAll(h, s);
    assert [c][0] == c;
    assert EntryOk(t, h, c);
    if IsSyllable(c) {
      SyllableDecomposes(t, h, c);
      ClassZeroStays(t, e, DecomposeFull(h, c));
    } else {
      assert DecomposeFull(h, c) == [c];
      if s != [] {
        var p, l := s[..|s| - 1], s[|s| - 1];
        assert s == p + [l];
        assert EntryOk(t, h, l);
        ExpandSnoc(t, h, p, l);
        if IsSyllable(l) {
          SyllableDecomposes(t, h, l);
        }
        var d := DecomposeFull(h, l);
        assert e[|e| - 1] == d[|d| - 1];
      }
      OneInserted(t, e, c);
    }
  }

  lemma {:induction false} ClassZeroStays(t: Tables, e: seq<nat>, d: seq<nat>)
    requires forall i :: 0 <= i < |d| ==> t.Class(d[i]) == 0
    ensures InsertAll(t, e, d) == e + d
    decreases d
  {
    if d == [] {
      assert e + d == e;
    } else {
      ClassZeroStays(t, e + [d[0]], d[1..]);
      assert e + [d[0]] + d[1..] == e + d;
    }
  }

  lemma {:induction false} ExpandInsertAll(t: Tables, h: Tables, s: seq<nat>, cs: seq<nat>)
    requires AddsHangul(t, h) && AllFinal(t, s) && AllFinal(t, cs)
    ensures DecomposeAll(h, InsertAll(t, s, cs)) ==
            InsertAll(t, DecomposeAll(h, s), DecomposeAll(h, cs))
    decreases cs
  {
    if cs != [] {
      ExpandInsert(t, h, s, cs[0]);
      ExpandInsertAll(t, h, Insert(t, s, cs[0]), cs[1..]);
      InsertAllConcat(t, DecomposeAll(h, s), DecomposeFull(h, cs[0]), DecomposeAll(h, cs[1..]));
    }
  }

  /** The canonical decomposition of the standard is that of the program with its syllables split. */
  lemma NfdWithHangul(t: Tables, h: Tables, us: seq<nat>)
    requires AddsHangul(t, h) && AllScalar(us)
    ensures Nfd(h, us) == DecomposeAll(h, Nfd(t, us))
  {
    HangulBehindAll(t, h, us);
    DecomposeAllIsFinal(t, us);
    ExpandInsertAll(t, h, [], DecomposeAll(t, us));
    SameInsertAll(t, h, [], DecomposeAll(h, us));
  }

  // Composition

  lemma {:induction false} SameFirstComposing(t: Tables, h: Tables, starter: nat, marks: seq<nat>, from: nat)
    requires AddsHangul(t, h) && from <= |marks|
    requires forall i :: 0 <= i < |marks| ==> t.Class(marks[i]) > 0
    ensures FirstComposing(h, starter, marks, from) == FirstComposing(t, starter, marks, from)
    decreases |marks| - from
  {
    if from < |marks| {
      assert PairOk(t, h, starter, marks[from]);
      assert IsBlocked(h, marks, from) <==> IsBlocked(t, marks, from);
      SameFirstComposing(t, h, starter, marks, from + 1);
    }
  }

  lemma {:induction false} SameNextStarter(t: Tables, h: Tables, s: seq<nat>, from: nat)
    requires from <= |s| && h.combiningClass == t.combiningClass
    ensures NextStarter(h, s, from) == NextStarter(t, s, from)
    decreases |s| - from
  {
    if from < |s| {
      SameNextStarter(t, h, s, from + 1);
    }
  }

  lemma SamePiece(t: Tables, h: Tables, s: seq<nat>)
    requires AddsHangul(t, h) && s != []
    ensures Piece(h, s) == Piece(t, s) && ComposedPiece(h, s) == ComposedPiece(t, s)
  {
    SameNextStarter(t, h, s, 1);
    if t.Class(s[0]) == 0 {
      var marks := s[1..Piece(t, s)];
      SameFirstComposing(t, h, s[0], marks, 0);
      var k := FirstComposing(t, s[0], marks, 0);
      if k < |marks| {
        assert PairOk(t, h, s[0], marks[k]);
      }
    }
  }

  /** `createNFC` never composes two starters, so it does the same over both tables. */
  lemma {:induction false} SameComposed(t: Tables, h: Tables, s: seq<nat>)
    requires AddsHangul(t, h)
    ensures Composed(h, s) == Composed(t, s)
  {
    if s != [] {
      SamePiece(t, h, s);
      SameComposed(t, h, s[Piece(t, s)..]);
    }
  }
}
