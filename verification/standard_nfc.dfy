/**
 NFC as UAX #15 defines it, and the quick check: a string with the verdict Yes is its own NFC, and one with
 the verdict No is not.  The sets No and Maybe are derived from the decompositions in the Unicode data; what
 is used of that is `Coherent`, which the tables of server/nfc_sets.cc meet, also when Hangul is added.
 */
module StandardNfc {
  import opened Wrappers
  import opened Utf8
  import opened UnicodeTables
  import opened Ordering
  import opened Decomposition
  import opened Composition
  import opened Nfc
  import opened StandardComposition

  /**
   `u` is no composition exclusion: it decomposes into a pair that no other character has, of a class-0
   character in neither set and a final character that is in Maybe, and in canonical order.
   */
  ghost predicate CoherentAt(t: Tables, u: nat)
    requires u in t.decompose
  {
    var (a, b) := t.decompose[u];
    && a >= 0 && b >= 0
    && t.Class(a) == 0 && a !in t.no && a !in t.maybe
    && b !in t.decompose && b in t.maybe
    && t.Composite(a, b) == Some(u)
    && (a in t.decompose ==> t.decompose[a].1 >= 0 ==> !IsReorderablePair(t, t.decompose[a].1, b))
  }

  /** Every decomposable character outside the set No is of that kind. */
  ghost predicate Coherent(t: Tables) {
    t.Valid() && forall u {:trigger CoherentAt(t, u)} :: u in t.decompose && u !in t.no ==> CoherentAt(t, u)
  }

  /** NFC by the standard: the composition D117 of the canonical decomposition. */
  function StandardNfcOf(t: Tables, us: seq<nat>): seq<nat>
    requires t.Valid()
  {
    StandardComposed(t, Nfd(t, us))
  }

  /** Under coherent tables D114 is met: the primary composites are exactly the pairs of characters outside No. */
  lemma PrimaryIff(t: Tables, a: nat, b: nat, p: nat)
    requires Coherent(t)
    ensures t.Primary(a, b) == Some(p) <==> p in t.decompose && t.decompose[p] == (a, b) && p !in t.no
    ensures t.Primary(a, b) == Some(p) ==> b in t.maybe
  {
    if p in t.decompose && p !in t.no {
      assert CoherentAt(t, p);
    }
  }

  /** Nothing composes with a character that is not in Maybe. */
  lemma PlainIsInert(t: Tables, x: nat, c: nat)
    requires Coherent(t) && c !in t.maybe
    ensures t.Primary(x, c).None?
  {
    if t.Primary(x, c).Some? {
      PrimaryIff(t, x, c, t.Primary(x, c).value);
    }
  }

  // One character

  /** The composition takes the decomposition of a character outside No back, whatever follows. */
  lemma {:induction false} CharacterComposes(t: Tables, u: nat, y: seq<nat>)
    requires Coherent(t) && IsScalar(u) && u !in t.no
    ensures var d := DecomposeFull(t, u);
            d != [] && ComposeFrom(t, d[0], [], d[1..] + y) == ComposeFrom(t, u, [], y)
    decreases t.Rank(u)
  {
    DecomposeFullIsFinal(t, u);
    if u in t.decompose {
      assert t.ValidDecomposition(u) && CoherentAt(t, u);
      var a, b := t.decompose[u].0, t.decompose[u].1;
      CharacterComposes(t, a, [b] + y);
      DecomposeFullIsFinal(t, a);
      var d := DecomposeFull(t, a);
      assert DecomposeFull(t, b) == [b];
      assert (d + [b])[0] == d[0] && (d + [b])[1..] + y == d[1..] + ([b] + y);
      assert ([b] + y)[0] == b && ([b] + y)[1..] == y;
      PrimaryIff(t, a, b, u);
    } else {
      assert [u][1..] + y == y;
    }
  }

  /** That decomposition is in canonical order and begins with a class-0 character that nothing composes with. */
  lemma {:induction false} CharacterIsOrdered(t: Tables, u: nat)
    requires Coherent(t) && IsScalar(u) && u !in t.no && u !in t.maybe && t.Class(u) == 0
    ensures var d := DecomposeFull(t, u);
            && d != [] && InOrder(t, d) && t.Class(d[0]) == 0 && d[0] !in t.maybe
            && d[|d| - 1] == if u in t.decompose then t.decompose[u].1 else u
    decreases t.Rank(u)
  {
    DecomposeFullIsFinal(t, u);
    if u in t.decompose {
      assert t.ValidDecomposition(u) && CoherentAt(t, u);
      var a, b := t.decompose[u].0, t.decompose[u].1;
      CharacterIsOrdered(t, a);
      assert DecomposeFull(t, b) == [b];
      assert a in t.decompose ==> CoherentAt(t, a);
      InOrderConcat(t, DecomposeFull(t, a), [b]);
    }
  }

  // A new starter

  /** A class-0 character that nothing composes with begins a run of its own. */
  lemma {:induction false} NewRun(t: Tables, starter: nat, between: seq<nat>, a: seq<nat>, z: nat, y: seq<nat>)
    requires Coherent(t) && t.Class(z) == 0 && z !in t.maybe
    ensures ComposeFrom(t, starter, between, a + ([z] + y)) == ComposeFrom(t, starter, between, a) + ComposeFrom(t, z, [], y)
    decreases a
  {
    if a == [] {
      PlainIsInert(t, starter, z);
      assert a + ([z] + y) == [z] + y && ([z] + y)[1..] == y;
    } else {
      var c := a[0];
      assert (a + ([z] + y))[0] == c && (a + ([z] + y))[1..] == a[1..] + ([z] + y);
      if Takes(t, starter, between, c) {
        NewRun(t, t.Primary(starter, c).value, between, a[1..], z, y);
      } else if t.Class(c) == 0 {
        NewRun(t, c, [], a[1..], z, y);
        ConcatAssoc([starter] + between, ComposeFrom(t, c, [], a[1..]), ComposeFrom(t, z, [], y));
      } else {
        NewRun(t, starter, between + [c], a[1..], z, y);
      }
    }
  }

  lemma {:induction false} NewRunBehind(t: Tables, a: seq<nat>, z: nat, y: seq<nat>)
    requires Coherent(t) && t.Class(z) == 0 && z !in t.maybe
    ensures StandardComposed(t, a + ([z] + y)) == StandardComposed(t, a) + ComposeFrom(t, z, [], y)
  {
    var s := a + ([z] + y);
    if a == [] {
      assert s == [z] + y && s[1..] == y;
    } else {
      assert s[0] == a[0] && s[1..] == a[1..] + ([z] + y);
      if t.Class(a[0]) != 0 {
        NewRunBehind(t, a[1..], z, y);
        ConcatAssoc([a[0]], StandardComposed(t, a[1..]), ComposeFrom(t, z, [], y));
      } else {
        NewRun(t, a[0], [], a[1..], z, y);
      }
    }
  }

  // One more mark

  predicate AllAbove(t: Tables, q: seq<nat>, c: nat) {
    forall i :: 0 <= i < |q| ==> t.Class(q[i]) > t.Class(c)
  }

  /** Marks of a class up to the one of `c`. */
  predicate AllUpTo(t: Tables, q: seq<nat>, c: nat) {
    forall i :: 0 <= i < |q| ==> 0 < t.Class(q[i]) <= t.Class(c)
  }

  /** A mark among those that were passed over is in nobody's way: only greater classes follow. */
  lemma {:induction false} MarkInBetween(t: Tables, x: nat, bt: seq<nat>, c: nat, w: seq<nat>, q: seq<nat>)
    returns (x': nat, k: seq<nat>)
    requires t.Class(c) > 0 && AllAbove(t, w, c) && AllAbove(t, q, c)
    ensures AllAbove(t, k, c)
    ensures ComposeFrom(t, x, bt + w, q) == [x'] + bt + k
    ensures ComposeFrom(t, x, bt + [c] + w, q) == [x'] + bt + [c] + k
    decreases q
  {
    if q == [] {
      x', k := x, w;
      assert [x] + (bt + w) == [x] + bt + w && [x] + (bt + [c] + w) == [x] + bt + [c] + w;
    } else {
      FreeWithMark(t, bt, c, w, q[0]);
      if Takes(t, x, bt + w, q[0]) {
        x', k := MarkInBetween(t, t.Primary(x, q[0]).value, bt, c, w, q[1..]);
      } else {
        assert bt + w + [q[0]] == bt + (w + [q[0]]) && bt + [c] + w + [q[0]] == bt + [c] + (w + [q[0]]);
        x', k := MarkInBetween(t, x, bt, c, w + [q[0]], q[1..]);
      }
    }
  }

  lemma FreeWithMark(t: Tables, bt: seq<nat>, c: nat, w: seq<nat>, d: nat)
    requires 0 < t.Class(c) < t.Class(d)
    ensures IsFree(t, bt + w, d) <==> IsFree(t, bt + [c] + w, d)
  {
    if IsFree(t, bt + [c] + w, d) {
      forall j | 0 <= j < |bt + w| ensures 0 < t.Class((bt + w)[j]) < t.Class(d) {
        assert (bt + w)[j] == (bt + [c] + w)[if j < |bt| then j else j + 1];
      }
    }
    if IsFree(t, bt + w, d) {
      forall j | 0 <= j < |bt + [c] + w| ensures 0 < t.Class((bt + [c] + w)[j]) < t.Class(d) {
        assert j != |bt| ==> (bt + [c] + w)[j] == (bt + w)[if j < |bt| then j else j - 1];
      }
    }
  }

  /** `Insert` moves over greater classes and stops at the first other character. */
  lemma {:induction false} InsertStops(t: Tables, s: seq<nat>, q: seq<nat>, c: nat)
    requires t.Class(c) > 0 && AllAbove(t, q, c)
    requires s != [] ==> !IsReorderablePair(t, s[|s| - 1], c)
    ensures Insert(t, s + q, c) == s + [c] + q
  {
    if q == [] {
      assert s + q == s && s + [c] + q == s + [c];
    } else {
      var n := |q| - 1;
      assert (s + q)[..|s + q| - 1] == s + q[..n] && (s + q)[|s + q| - 1] == q[n];
      InsertStops(t, s, q[..n], c);
      assert s + [c] + q[..n] + [q[n]] == s + [c] + q;
    }
  }

  /** Inside a run, composing and inserting a mark that nothing composes with may change places. */
  lemma {:induction false} InsertInRun(t: Tables, x: nat, bt: seq<nat>, w: seq<nat>, c: nat, q: seq<nat>)
    requires Coherent(t) && t.Class(x) == 0 && t.Class(c) > 0 && c !in t.maybe
    requires AllUpTo(t, bt, c) && AllUpTo(t, w, c) && AllAbove(t, q, c)
    ensures ComposeFrom(t, x, bt, w + ([c] + q)) == Insert(t, ComposeFrom(t, x, bt, w + q), c)
    ensures t.Class(ComposeFrom(t, x, bt, w + q)[0]) == 0
    decreases w
  {
    if w == [] {
      InsertBehindRun(t, x, bt, c, q);
      assert w + ([c] + q) == [c] + q && w + q == q;
    } else {
      var d := w[0];
      assert (w + ([c] + q))[0] == d && (w + ([c] + q))[1..] == w[1..] + ([c] + q);
      assert (w + q)[0] == d && (w + q)[1..] == w[1..] + q;
      if Takes(t, x, bt, d) {
        CompositeIsStarter(t, x, d);
        InsertInRun(t, t.Primary(x, d).value, bt, w[1..], c, q);
      } else {
        InsertInRun(t, x, bt + [d], w[1..], c, q);
      }
    }
  }

  lemma CompositeIsStarter(t: Tables, x: nat, d: nat)
    requires t.Valid() && t.Class(x) == 0 && t.Primary(x, d).Some?
    ensures t.Class(t.Primary(x, d).value) == 0
  {
    assert t.ValidDecomposition(t.Primary(x, d).value);
  }

  lemma InsertBehindRun(t: Tables, x: nat, bt: seq<nat>, c: nat, q: seq<nat>)
    requires Coherent(t) && t.Class(x) == 0 && t.Class(c) > 0 && c !in t.maybe
    requires AllUpTo(t, bt, c) && AllAbove(t, q, c)
    ensures ComposeFrom(t, x, bt, [c] + q) == Insert(t, ComposeFrom(t, x, bt, q), c)
    ensures t.Class(ComposeFrom(t, x, bt, q)[0]) == 0
  {
    PlainIsInert(t, x, c);
    assert ([c] + q)[1..] == q;
    assert bt + [] == bt && bt + [c] + [] == bt + [c];
    var x', k := MarkInBetween(t, x, bt, c, [], q);
    StaysStarter(t, x, bt, q);
    assert ([x'] + bt)[|bt|] == if bt == [] then x' else bt[|bt| - 1];
    InsertStops(t, [x'] + bt, k, c);
  }

  /** A starter stays one, whatever it takes. */
  lemma {:induction false} StaysStarter(t: Tables, x: nat, bt: seq<nat>, rest: seq<nat>)
    requires t.Valid() && t.Class(x) == 0
    ensures t.Class(ComposeFrom(t, x, bt, rest)[0]) == 0
    decreases rest
  {
    if rest != [] {
      var c := rest[0];
      if Takes(t, x, bt, c) {
        CompositeIsStarter(t, x, c);
        StaysStarter(t, t.Primary(x, c).value, bt, rest[1..]);
      } else if t.Class(c) != 0 {
        StaysStarter(t, x, bt + [c], rest[1..]);
      }
    }
  }

  lemma StarterIsNotFree(t: Tables, bt: seq<nat>, z: nat)
    requires t.Class(z) == 0
    ensures IsFree(t, bt, z) <==> bt == []
  {
    if bt != [] {
      assert t.Class(bt[0]) >= t.Class(z);
    }
  }

  /** Behind a class-0 character the algorithm is in a state of its own: a new starter, or one that took it. */
  lemma {:induction false} Reach(t: Tables, x: nat, bt: seq<nat>, h: seq<nat>, z: nat, y: seq<nat>, y': seq<nat>)
    returns (e: seq<nat>, x': nat)
    requires t.Valid() && t.Class(x) == 0 && t.Class(z) == 0
    ensures t.Class(x') == 0
    ensures ComposeFrom(t, x, bt, h + ([z] + y)) == e + ComposeFrom(t, x', [], y)
    ensures ComposeFrom(t, x, bt, h + ([z] + y')) == e + ComposeFrom(t, x', [], y')
    decreases h
  {
    var r, r' := h + ([z] + y), h + ([z] + y');
    var c := if h == [] then z else h[0];
    var rest := if h == [] then y else h[1..] + ([z] + y);
    var rest' := if h == [] then y' else h[1..] + ([z] + y');
    assert r[0] == c == r'[0] && r[1..] == rest && r'[1..] == rest';
    if Takes(t, x, bt, c) {
      CompositeIsStarter(t, x, c);
      var p := t.Primary(x, c).value;
      if h == [] {
        StarterIsNotFree(t, bt, z);
        e, x' := [], p;
      } else {
        e, x' := Reach(t, p, bt, h[1..], z, y, y');
      }
    } else if t.Class(c) == 0 {
      if h == [] {
        e, x' := [x] + bt, z;
      } else {
        e, x' := Reach(t, c, [], h[1..], z, y, y');
        ConcatAssoc([x] + bt, e, ComposeFrom(t, x', [], y));
        ConcatAssoc([x] + bt, e, ComposeFrom(t, x', [], y'));
        e := [x] + bt + e;
      }
    } else {
      e, x' := Reach(t, x, bt + [c], h[1..], z, y, y');
    }
  }

  lemma {:induction false} ReachBehind(t: Tables, h: seq<nat>, z: nat, y: seq<nat>, y': seq<nat>) returns (e: seq<nat>, x': nat)
    requires t.Valid() && t.Class(z) == 0
    ensures t.Class(x') == 0
    ensures StandardComposed(t, h + ([z] + y)) == e + ComposeFrom(t, x', [], y)
    ensures StandardComposed(t, h + ([z] + y')) == e + ComposeFrom(t, x', [], y')
  {
    var r, r' := h + ([z] + y), h + ([z] + y');
    if h == [] {
      assert r == [z] + y && r' == [z] + y' && r[1..] == y && r'[1..] == y';
      e, x' := [], z;
    } else {
      assert r[0] == h[0] == r'[0] && r[1..] == h[1..] + ([z] + y) && r'[1..] == h[1..] + ([z] + y');
      if t.Class(h[0]) != 0 {
        e, x' := ReachBehind(t, h[1..], z, y, y');
        ConcatAssoc([h[0]], e, ComposeFrom(t, x', [], y));
        ConcatAssoc([h[0]], e, ComposeFrom(t, x', [], y'));
        e := [h[0]] + e;
      } else {
        e, x' := Reach(t, h[0], [], h[1..], z, y, y');
      }
    }
  }

  /** A mark is not moved across a class-0 character. */
  lemma {:induction false} InsertBehindStarter(t: Tables, e: seq<nat>, y: seq<nat>, c: nat)
    requires y != [] && t.Class(y[0]) == 0
    ensures Insert(t, e + y, c) == e + Insert(t, y, c)
  {
    var n := |y| - 1;
    assert (e + y)[|e + y| - 1] == y[n] && (e + y)[..|e + y| - 1] == e + y[..n];
    if IsReorderablePair(t, y[n], c) {
      InsertBehindStarter(t, e, y[..n], c);
    }
    assert e + y + [c] == e + (y + [c]);
    ConcatAssoc(e, Insert(t, y[..n], c), [y[n]]);
  }

  lemma {:induction false} MarksStay(t: Tables, s: seq<nat>)
    requires forall i :: 0 <= i < |s| ==> t.Class(s[i]) > 0
    ensures StandardComposed(t, s) == s
  {
    if s != [] {
      MarksStay(t, s[1..]);
    }
  }

  /** Where `Insert` puts a mark. */
  lemma {:induction false} InsertPlace(t: Tables, s: seq<nat>, n: nat, c: nat) returns (k: nat)
    requires t.Class(c) > 0 && n <= |s| && AllAbove(t, s[n..], c)
    ensures k <= n && AllAbove(t, s[k..], c) && (k > 0 ==> !IsReorderablePair(t, s[k - 1], c))
    decreases n
  {
    if n > 0 && IsReorderablePair(t, s[n - 1], c) {
      assert s[n - 1..] == [s[n - 1]] + s[n..];
      k := InsertPlace(t, s, n - 1, c);
    } else {
      k := n;
    }
  }

  /** A string that a mark is put behind ends in a run of marks up to its class, behind a starter if there is one. */
  lemma {:induction false} LastRun(t: Tables, p: seq<nat>, c: nat) returns (h: seq<nat>, z: seq<nat>, w: seq<nat>)
    requires InOrder(t, p) && t.Class(c) > 0 && (p != [] ==> !IsReorderablePair(t, p[|p| - 1], c))
    ensures p == h + z + w && AllUpTo(t, w, c)
    ensures if z == [] then h == [] else |z| == 1 && t.Class(z[0]) == 0
  {
    h, z, w := [], [], [];
    if p != [] {
      var n := |p| - 1;
      var l := p[n];
      assert p == p[..n] + [l];
      if t.Class(l) == 0 {
        h, z := p[..n], [l];
      } else {
        InOrderParts(t, p, n);
        assert n > 0 ==> !IsReorderablePair(t, p[n - 1], p[n]);
        h, z, w := LastRun(t, p[..n], c);
        ConcatAssoc(h + z, w, [l]);
        w := w + [l];
      }
    }
  }

  /** Where `Insert` cuts the string. */
  lemma InsertShape(t: Tables, s: seq<nat>, c: nat) returns (p: seq<nat>, q: seq<nat>)
    requires InOrder(t, s) && t.Class(c) > 0
    ensures s == p + q && Insert(t, s, c) == p + [c] + q && InOrder(t, p) && AllAbove(t, q, c)
    ensures p != [] ==> !IsReorderablePair(t, p[|p| - 1], c)
  {
    assert s[|s|..] == [];
    var k := InsertPlace(t, s, |s|, c);
    p, q := s[..k], s[k..];
    InOrderParts(t, s, k);
    InsertStops(t, p, q, c);
    assert s == p + q;
  }

  lemma InsertInLastRun(t: Tables, h: seq<nat>, z: nat, w: seq<nat>, c: nat, q: seq<nat>)
    requires Coherent(t) && t.Class(z) == 0 && t.Class(c) > 0 && c !in t.maybe
    requires AllUpTo(t, w, c) && AllAbove(t, q, c)
    ensures StandardComposed(t, h + ([z] + (w + ([c] + q)))) == Insert(t, StandardComposed(t, h + ([z] + (w + q))), c)
  {
    var e, x := ReachBehind(t, h, z, w + ([c] + q), w + q);
    InsertInRun(t, x, [], w, c, q);
    InsertBehindStarter(t, e, ComposeFrom(t, x, [], w + q), c);
  }

  lemma MarksOnly(t: Tables, p: seq<nat>, c: nat, q: seq<nat>)
    requires forall i :: 0 <= i < |p| ==> t.Class(p[i]) > 0
    requires t.Class(c) > 0 && AllAbove(t, q, c)
    ensures StandardComposed(t, p + q) == p + q && StandardComposed(t, p + [c] + q) == p + [c] + q
  {
    MarksStay(t, p + q);
    MarksStay(t, p + [c] + q);
  }

  /** Composing and inserting a mark that nothing composes with may change places in any ordered string. */
  lemma InsertCommutes(t: Tables, s: seq<nat>, c: nat)
    requires Coherent(t) && InOrder(t, s) && t.Class(c) > 0 && c !in t.maybe
    ensures StandardComposed(t, Insert(t, s, c)) == Insert(t, StandardComposed(t, s), c)
  {
    var p, q := InsertShape(t, s, c);
    var h, z, w := LastRun(t, p, c);
    if z == [] {
      assert p == w;
      MarksOnly(t, p, c, q);
    } else {
      LastRunParts(h, z[0], w, c, q);
      assert [z[0]] == z;
      InsertInLastRun(t, h, z[0], w, c, q);
    }
  }

  lemma LastRunParts(h: seq<nat>, z: nat, w: seq<nat>, c: nat, q: seq<nat>)
    ensures h + [z] + w + q == h + ([z] + (w + q))
    ensures h + [z] + w + [c] + q == h + ([z] + (w + ([c] + q)))
  {
  }

  // The quick check

  predicate IsPlain(t: Tables, us: seq<nat>) {
    forall i :: 0 <= i < |us| ==> us[i] !in t.no && us[i] !in t.maybe
  }

  lemma OrderedConcat(t: Tables, a: seq<nat>, b: seq<nat>)
    ensures Ordered(t, a + b) == InsertAll(t, Ordered(t, a), b)
  {
    InsertAllConcat(t, [], a, b);
  }

  lemma NfdSnoc(t: Tables, us: seq<nat>, u: nat)
    requires t.Valid()
    ensures Nfd(t, us + [u]) == InsertAll(t, Nfd(t, us), DecomposeFull(t, u))
  {
    DecomposeAllConcat(t, us, [u]);
    assert [u] == [u] + [];
    DecomposeAllCons(t, u, []);
    assert DecomposeFull(t, u) + [] == DecomposeFull(t, u);
    OrderedConcat(t, DecomposeAll(t, us), DecomposeFull(t, u));
  }

  lemma PlainStarterAppends(t: Tables, us: seq<nat>, u: nat)
    requires Coherent(t) && AllScalar(us) && IsScalar(u) && u !in t.no && u !in t.maybe && t.Class(u) == 0
    ensures StandardNfcOf(t, us + [u]) == StandardNfcOf(t, us) + [u]
  {
    var n, d := Nfd(t, us), DecomposeFull(t, u);
    NfdSnoc(t, us, u);
    NfdIsNormal(t, us);
    CharacterIsOrdered(t, u);
    InOrderConcat(t, n, d);
    InsertAllInOrder(t, n, d);
    assert d == [d[0]] + d[1..];
    NewRunBehind(t, n, d[0], d[1..]);
    CharacterComposes(t, u, []);
    assert d[1..] + [] == d[1..];
    assert ComposeFrom(t, u, [], []) == [u];
  }

  lemma DecomposableIsStarter(t: Tables, u: nat)
    requires Coherent(t) && u !in t.no
    ensures u in t.decompose ==> t.Class(u) == 0
  {
    if u in t.decompose {
      assert t.ValidDecomposition(u) && CoherentAt(t, u);
    }
  }

  lemma PlainMarkInserts(t: Tables, us: seq<nat>, u: nat)
    requires Coherent(t) && AllScalar(us) && IsScalar(u) && u !in t.no && u !in t.maybe && t.Class(u) > 0
    ensures StandardNfcOf(t, us + [u]) == Insert(t, StandardNfcOf(t, us), u)
  {
    DecomposableIsStarter(t, u);
    NfdSnoc(t, us, u);
    NfdIsNormal(t, us);
    assert DecomposeFull(t, u) == [u];
    assert InsertAll(t, Nfd(t, us), [u]) == Insert(t, Nfd(t, us), u);
    InsertCommutes(t, Nfd(t, us), u);
  }

  /** A string in canonical order without No and Maybe characters is in NFC. */
  lemma {:induction false} PlainIsNfc(t: Tables, us: seq<nat>)
    requires Coherent(t) && AllScalar(us) && InOrder(t, us) && IsPlain(t, us)
    ensures StandardNfcOf(t, us) == us
  {
    if us == [] {
      assert DecomposeAll(t, us) == [] && Ordered(t, []) == [];
    } else {
      var n := |us| - 1;
      var p, u := us[..n], us[n];
      assert us == p + [u];
      InOrderParts(t, us, n);
      PlainIsNfc(t, p);
      if t.Class(u) == 0 {
        PlainStarterAppends(t, p, u);
      } else {
        PlainMarkInserts(t, p, u);
        assert p != [] ==> !IsReorderablePair(t, us[n - 1], us[n]);
      }
    }
  }

  /** When the quick check says Yes, the string is in NFC: the fast path of `toNFC` is right. */
  lemma QuickYesIsNfc(t: Tables, us: seq<nat>)
    requires Coherent(t) && AllScalar(us) && QuickCheck(t, us, 0) == Yes
    ensures StandardNfcOf(t, us) == us
  {
    QuickYesIff(t, us);
    PlainIsNfc(t, us);
  }

  // The standard's algorithm keeps equivalence, too

  lemma TakenKeepsNfd(t: Tables, x: seq<nat>, starter: nat, bt: seq<nat>, c: nat, rest: seq<nat>)
    requires t.Valid() && Takes(t, starter, bt, c) && c !in t.decompose
    ensures Ordered(t, x + (DecomposeFull(t, t.Primary(starter, c).value) + bt + rest)) ==
            Ordered(t, x + (DecomposeFull(t, starter) + bt + ([c] + rest)))
  {
    var p := t.Primary(starter, c).value;
    var d := DecomposeFull(t, starter);
    assert t.ValidDecomposition(p) && t.decompose[p] == (starter, c);
    assert DecomposeFull(t, c) == [c];
    assert x + (DecomposeFull(t, p) + bt + rest) == (x + d) + [c] + bt + rest;
    assert x + (d + bt + ([c] + rest)) == (x + d) + bt + [c] + rest;
    if bt != [] {
      assert t.Class(bt[0]) < t.Class(c);
    }
    OrderedIgnoresMove(t, x + d, c, bt, rest);
  }

  lemma PassKeepsNfd(d: seq<nat>, bt: seq<nat>, c: nat, more: seq<nat>)
    ensures d + (bt + [c]) + more == d + bt + ([c] + more)
  {
  }

  lemma NextRunKeepsNfd(t: Tables, x: seq<nat>, starter: nat, bt: seq<nat>, y: seq<nat>, rest: seq<nat>)
    requires t.Valid() && AllFinal(t, bt)
    requires var d := DecomposeFull(t, starter) + bt; Ordered(t, x + d + DecomposeAll(t, y)) == Ordered(t, x + d + rest)
    ensures Ordered(t, x + DecomposeAll(t, [starter] + bt + y)) == Ordered(t, x + (DecomposeFull(t, starter) + bt + rest))
  {
    var d := DecomposeFull(t, starter) + bt;
    DecomposeRuns(t, starter, bt, y);
    ConcatAssoc(x, d, DecomposeAll(t, y));
    ConcatAssoc(x, d, rest);
  }

  lemma {:induction false} ComposeFromKeepsNfd(t: Tables, x: seq<nat>, starter: nat, bt: seq<nat>, rest: seq<nat>)
    requires t.Valid() && AllFinal(t, bt) && AllFinal(t, rest)
    ensures Ordered(t, x + DecomposeAll(t, ComposeFrom(t, starter, bt, rest))) ==
            Ordered(t, x + (DecomposeFull(t, starter) + bt + rest))
    decreases rest
  {
    var d := DecomposeFull(t, starter);
    if rest == [] {
      DecomposeRun(t, starter, bt);
      assert d + bt + rest == d + bt;
    } else {
      var c, more := rest[0], rest[1..];
      assert rest == [c] + more;
      if Takes(t, starter, bt, c) {
        ComposeFromKeepsNfd(t, x, t.Primary(starter, c).value, bt, more);
        TakenKeepsNfd(t, x, starter, bt, c, more);
      } else if t.Class(c) == 0 {
        ComposeFromKeepsNfd(t, x + (d + bt), c, [], more);
        assert DecomposeFull(t, c) + [] + more == rest by {
          assert DecomposeFull(t, c) == [c];
        }
        NextRunKeepsNfd(t, x, starter, bt, ComposeFrom(t, c, [], more), rest);
      } else {
        ComposeFromKeepsNfd(t, x, starter, bt + [c], more);
        PassKeepsNfd(d, bt, c, more);
      }
    }
  }

  lemma DecomposeRun(t: Tables, starter: nat, bt: seq<nat>)
    requires t.Valid() && AllFinal(t, bt)
    ensures DecomposeAll(t, [starter] + bt) == DecomposeFull(t, starter) + bt
  {
    DecomposeAllCons(t, starter, bt);
    DecomposeAllOfFinal(t, bt);
  }

  lemma DecomposeRuns(t: Tables, starter: nat, bt: seq<nat>, y: seq<nat>)
    requires t.Valid() && AllFinal(t, bt)
    ensures DecomposeAll(t, [starter] + bt + y) == DecomposeFull(t, starter) + bt + DecomposeAll(t, y)
  {
    DecomposeRun(t, starter, bt);
    DecomposeAllConcat(t, [starter] + bt, y);
  }

  lemma {:induction false} StandardKeepsOrdered(t: Tables, x: seq<nat>, s: seq<nat>)
    requires t.Valid() && AllFinal(t, s)
    ensures Ordered(t, x + DecomposeAll(t, StandardComposed(t, s))) == Ordered(t, x + s)
    decreases s
  {
    if s != [] {
      assert DecomposeFull(t, s[0]) == [s[0]];
      if t.Class(s[0]) != 0 {
        StandardKeepsOrdered(t, x + [s[0]], s[1..]);
        DecomposeAllCons(t, s[0], StandardComposed(t, s[1..]));
        ConcatAssoc(x, [s[0]], DecomposeAll(t, StandardComposed(t, s[1..])));
        assert x + [s[0]] + s[1..] == x + s;
      } else {
        ComposeFromKeepsNfd(t, x, s[0], [], s[1..]);
        assert [s[0]] + [] + s[1..] == s;
      }
    }
  }

  lemma {:induction false} ComposeFromIsScalar(t: Tables, starter: nat, bt: seq<nat>, rest: seq<nat>)
    requires t.Valid() && IsScalar(starter) && AllScalar(bt) && AllScalar(rest)
    ensures AllScalar(ComposeFrom(t, starter, bt, rest))
    decreases rest
  {
    if rest != [] {
      var c := rest[0];
      if Takes(t, starter, bt, c) {
        assert t.ValidDecomposition(t.Primary(starter, c).value);
        ComposeFromIsScalar(t, t.Primary(starter, c).value, bt, rest[1..]);
      } else if t.Class(c) == 0 {
        ComposeFromIsScalar(t, c, [], rest[1..]);
      } else {
        ComposeFromIsScalar(t, starter, bt + [c], rest[1..]);
      }
    }
  }

  lemma {:induction false} StandardIsScalar(t: Tables, s: seq<nat>)
    requires t.Valid() && AllScalar(s)
    ensures AllScalar(StandardComposed(t, s))
  {
    if s != [] {
      if t.Class(s[0]) != 0 {
        StandardIsScalar(t, s[1..]);
      } else {
        ComposeFromIsScalar(t, s[0], [], s[1..]);
      }
    }
  }

  /** The NFC of the standard is canonically equivalent to the string. */
  lemma StandardKeepsNfd(t: Tables, us: seq<nat>)
    requires t.Valid() && AllScalar(us)
    ensures AllScalar(StandardNfcOf(t, us)) && Nfd(t, StandardNfcOf(t, us)) == Nfd(t, us)
  {
    var s := Nfd(t, us);
    NfdIsNormal(t, us);
    StandardIsScalar(t, s);
    StandardKeepsOrdered(t, [], s);
    assert [] + s == s && [] + DecomposeAll(t, StandardComposed(t, s)) == DecomposeAll(t, StandardComposed(t, s));
    OrderedIsInOrder(t, s);
  }

  // isNFC

  lemma TakenKeepsOrder(t: Tables, bt: seq<nat>, c: nat, more: seq<nat>)
    requires IsFree(t, bt, c) && InOrder(t, bt + ([c] + more))
    ensures InOrder(t, bt + more)
  {
    var s := bt + ([c] + more);
    InOrderParts(t, s, |bt|);
    InOrderParts(t, s, |bt| + 1);
    assert s[..|bt|] == bt && s[|bt| + 1..] == more;
    if more != [] && bt != [] {
      assert !IsReorderablePair(t, s[|bt|], s[|bt| + 1]);
      assert 0 < t.Class(bt[|bt| - 1]) < t.Class(c);
    }
    InOrderConcat(t, bt, more);
  }

  lemma {:induction false} ComposeFromIsInOrder(t: Tables, starter: nat, bt: seq<nat>, rest: seq<nat>)
    requires t.Valid() && t.Class(starter) == 0 && InOrder(t, bt + rest)
    ensures InOrder(t, ComposeFrom(t, starter, bt, rest)) && t.Class(ComposeFrom(t, starter, bt, rest)[0]) == 0
    decreases rest
  {
    InOrderParts(t, bt + rest, |bt|);
    assert (bt + rest)[..|bt|] == bt && (bt + rest)[|bt|..] == rest;
    InOrderConcat(t, [starter], bt);
    if rest != [] {
      var c, more := rest[0], rest[1..];
      assert rest == [c] + more;
      InOrderParts(t, rest, 1);
      if Takes(t, starter, bt, c) {
        CompositeIsStarter(t, starter, c);
        TakenKeepsOrder(t, bt, c, more);
        ComposeFromIsInOrder(t, t.Primary(starter, c).value, bt, more);
      } else if t.Class(c) == 0 {
        assert [] + more == more;
        ComposeFromIsInOrder(t, c, [], more);
        InOrderConcat(t, [starter] + bt, ComposeFrom(t, c, [], more));
      } else {
        assert bt + [c] + more == bt + rest;
        ComposeFromIsInOrder(t, starter, bt + [c], more);
      }
    }
  }

  lemma {:induction false} StandardIsInOrder(t: Tables, s: seq<nat>)
    requires t.Valid() && InOrder(t, s)
    ensures InOrder(t, StandardComposed(t, s))
    ensures s != [] ==> StandardComposed(t, s) != [] && t.Class(StandardComposed(t, s)[0]) == t.Class(s[0])
  {
    if s != [] {
      InOrderParts(t, s, 1);
      if t.Class(s[0]) != 0 {
        StandardIsInOrder(t, s[1..]);
        assert |s| > 1 ==> !IsReorderablePair(t, s[0], s[0 + 1]);
        InOrderConcat(t, [s[0]], StandardComposed(t, s[1..]));
      } else {
        assert [] + s[1..] == s[1..];
        ComposeFromIsInOrder(t, s[0], [], s[1..]);
      }
    }
  }

  predicate NoExclusions(t: Tables, s: seq<nat>) {
    forall i :: 0 <= i < |s| ==> s[i] !in t.no
  }

  lemma {:induction false} ComposeFromHasNoExclusions(t: Tables, starter: nat, bt: seq<nat>, rest: seq<nat>)
    requires starter !in t.no && NoExclusions(t, bt) && NoExclusions(t, rest)
    ensures NoExclusions(t, ComposeFrom(t, starter, bt, rest))
    decreases rest
  {
    if rest != [] {
      var c := rest[0];
      if Takes(t, starter, bt, c) {
        ComposeFromHasNoExclusions(t, t.Primary(starter, c).value, bt, rest[1..]);
      } else if t.Class(c) == 0 {
        ComposeFromHasNoExclusions(t, c, [], rest[1..]);
      } else {
        ComposeFromHasNoExclusions(t, starter, bt + [c], rest[1..]);
      }
    }
  }

  lemma {:induction false} StandardHasNoExclusions(t: Tables, s: seq<nat>)
    requires NoExclusions(t, s)
    ensures NoExclusions(t, StandardComposed(t, s))
  {
    if s != [] {
      if t.Class(s[0]) != 0 {
        StandardHasNoExclusions(t, s[1..]);
      } else {
        ComposeFromHasNoExclusions(t, s[0], [], s[1..]);
      }
    }
  }

  /** When the quick check says No, the string is not in NFC. */
  lemma QuickNoIsNotNfc(t: Tables, us: seq<nat>)
    requires t.Valid() && t.no <= t.decompose.Keys && AllScalar(us)
    requires QuickCheck(t, us, 0) == No
    ensures StandardNfcOf(t, us) != us
  {
    NfdIsNormal(t, us);
    StandardIsInOrder(t, Nfd(t, us));
    StandardHasNoExclusions(t, Nfd(t, us));
    if StandardNfcOf(t, us) == us {
      QuickNoIff(t, us, 0);
    }
  }

  // Samples

  lemma SampleIsCoherent()
    ensures Coherent(SampleTables()) && SampleTables().no <= SampleTables().decompose.Keys
  {
    var t := SampleTables();
    SampleIsValid();
    forall u | u in t.decompose && u !in t.no ensures CoherentAt(t, u) {
      if u == 0x1EA1 { LetterIsCoherent(); } else { DoubleIsCoherent(); }
    }
  }

  lemma LetterIsCoherent()
    ensures CoherentAt(SampleTables(), 0x1EA1)
  {
  }

  lemma DoubleIsCoherent()
    ensures CoherentAt(SampleTables(), 0x1EAD)
  {
  }

  /** The entries for HEBREW LETTER YOD WITH HIRIQ, an exclusion whose point HIRIQ is not in Maybe. */
  function HebrewTables(): Tables {
    Tables(map[0x05B4 := 14], map[0xFB1D := (0x05D9, 0x05B4)], map[(0x05D9, 0x05B4) := 0xFB1D], {0xFB1D}, {}, map[0xFB1D := 0])
  }

  /** Equivalent strings of which the fast path leaves one alone while the slow path composes the exclusion. */
  lemma ExclusionComesBack(t: Tables, a: nat, m: nat, p: nat)
    requires t.Valid() && t.Class(a) == 0 < t.Class(m) && IsScalar(a) && IsScalar(m)
    requires a !in t.decompose && m !in t.decompose
    requires t.Composite(a, m) == Some(p) && p in t.no
    requires QuickCheck(t, [a, m], 0) == Yes
    ensures Nfd(t, [p]) == [a, m] == Nfd(t, [a, m])
    ensures NfcOf(t, [p]) == [p] && NfcOf(t, [a, m]) == [a, m] == StandardNfcOf(t, [p])
    ensures !ComposesOnce(t, [a, m])
  {
    DecomposePair(t, p, a, m);
    DecomposeAllCons(t, p, []);
    assert [p] + [] == [p] && [a, m] + [] == [a, m];
    assert AllFinal(t, [a, m]) && InOrder(t, [a, m]);
    DecomposeAllOfFinal(t, [a, m]);
    OrderedIsInOrder(t, [a, m]);
    assert [a, m] == [a] + [m];
    OnlyOnePiece(t, a, [m]);
    assert !IsBlocked(t, [m], 0);
    assert FirstComposing(t, a, [m], 0) == 0;
    assert [a, m][1..] == [m] && [m][1..] == [];
    assert ComposeFrom(t, a, [m], []) == [a, m] && [] + [m] == [m];
    assert StandardComposed(t, [a, m]) == ComposeFrom(t, a, [], [m]) == [a, m];
    assert t.ValidDecomposition(p);
    assert QuickCheck(t, [p], 0) == No;
    ComposedMeetsStandardIff(t, [a, m]);
  }

  lemma SampleHebrew()
    ensures var t := HebrewTables();
            && Coherent(t)
            && Nfd(t, [0xFB1D]) == Nfd(t, [0x05D9, 0x05B4])
            && NfcOf(t, [0xFB1D]) == [0xFB1D]
            && NfcOf(t, [0x05D9, 0x05B4]) == [0x05D9, 0x05B4] == StandardNfcOf(t, [0xFB1D])
  {
    var t := HebrewTables();
    assert t.Valid() && Coherent(t);
    QuickYesIff(t, [0x05D9, 0x05B4]);
    ExclusionComesBack(t, 0x05D9, 0x05B4, 0xFB1D);
  }
}
