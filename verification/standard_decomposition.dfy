/**
 Canonical decomposition as the Unicode Standard defines it (section 3.7, D68, and section 3.11): characters are
 replaced by their entries in any order until none is left, and neighbouring marks are exchanged into canonical
 order.  The functions of the program yield exactly the end of all that.
 */
module StandardDecomposition {
  import opened Wrappers
  import opened Utf8
  import opened UnicodeTables
  import opened Ordering
  import opened Decomposition

  /** What stands in the table for a character: one character, or two in this order. */
  ghost predicate IsEntry(t: Tables, u: nat, e: seq<nat>) {
    u in t.decompose &&
    (if t.decompose[u].1 < 0 then |e| == 1 && e[0] == t.decompose[u].0
     else |e| == 2 && e[0] == t.decompose[u].0 && e[1] == t.decompose[u].1)
  }

  ghost predicate RewritesAt(t: Tables, s: seq<nat>, s': seq<nat>, i: nat, e: seq<nat>) {
    i < |s| && IsEntry(t, s[i], e) && s' == s[..i] + e + s[i + 1..]
  }

  /** One character of `s` is replaced by its entry. */
  ghost predicate Rewrites(t: Tables, s: seq<nat>, s': seq<nat>) {
    exists i: nat, e: seq<nat> :: RewritesAt(t, s, s', i, e)
  }

  /** A number of replacements leads from `s` to `r`. */
  ghost predicate LeadsTo(t: Tables, s: seq<nat>, r: seq<nat>, steps: nat)
    decreases steps
  {
    if steps == 0 then s == r else exists s' :: Rewrites(t, s, s') && LeadsTo(t, s', r, steps - 1)
  }

  /** `r` is what is left of `s` when nothing can be replaced any more. */
  ghost predicate EndsIn(t: Tables, s: seq<nat>, r: seq<nat>) {
    (exists n: nat :: LeadsTo(t, s, r, n)) && forall i :: 0 <= i < |r| ==> r[i] !in t.decompose
  }

  lemma OneDecomposes(t: Tables, u: nat)
    requires t.Valid()
    ensures DecomposeAll(t, [u]) == DecomposeFull(t, u)
  {
    assert [u][1..] == [] && DecomposeFull(t, u) + [] == DecomposeFull(t, u);
  }

  lemma EntryDecomposes(t: Tables, u: nat, e: seq<nat>)
    requires t.Valid() && IsEntry(t, u, e)
    ensures DecomposeAll(t, e) == DecomposeFull(t, u)
  {
    assert t.ValidDecomposition(u);
    if |e| == 1 {
      OneDecomposes(t, e[0]);
      assert e == [e[0]];
    } else {
      OneDecomposes(t, e[1]);
      assert e[1..] == [e[1]];
    }
  }

  lemma RewriteKeepsDecomposition(t: Tables, s: seq<nat>, s': seq<nat>)
    requires t.Valid() && Rewrites(t, s, s')
    ensures DecomposeAll(t, s) == DecomposeAll(t, s')
  {
    var i: nat, e: seq<nat> :| RewritesAt(t, s, s', i, e);
    assert s == s[..i] + [s[i]] + s[i + 1..];
    EntryDecomposes(t, s[i], e);
    OneDecomposes(t, s[i]);
    DecomposeInside(t, s[..i], [s[i]], s[i + 1..]);
    DecomposeInside(t, s[..i], e, s[i + 1..]);
  }

  lemma DecomposeInside(t: Tables, x: seq<nat>, e: seq<nat>, y: seq<nat>)
    requires t.Valid()
    ensures DecomposeAll(t, x + e + y) == DecomposeAll(t, x) + DecomposeAll(t, e) + DecomposeAll(t, y)
  {
    DecomposeAllConcat(t, x + e, y);
    DecomposeAllConcat(t, x, e);
  }

  lemma {:induction false} LeadsToKeepsDecomposition(t: Tables, s: seq<nat>, r: seq<nat>, n: nat)
    requires t.Valid() && LeadsTo(t, s, r, n)
    ensures DecomposeAll(t, s) == DecomposeAll(t, r)
    decreases n
  {
    if n > 0 {
      var s' :| Rewrites(t, s, s') && LeadsTo(t, s', r, n - 1);
      RewriteKeepsDecomposition(t, s, s');
      LeadsToKeepsDecomposition(t, s', r, n - 1);
    }
  }

  lemma RewriteInContext(t: Tables, a: seq<nat>, s: seq<nat>, s': seq<nat>, b: seq<nat>)
    requires Rewrites(t, s, s')
    ensures Rewrites(t, a + s + b, a + s' + b)
  {
    var i: nat, e: seq<nat> :| RewritesAt(t, s, s', i, e);
    var w := a + s + b;
    assert w[|a| + i] == s[i] && w[..|a| + i] == a + s[..i] && w[|a| + i + 1..] == s[i + 1..] + b;
    assert a + s' + b == (a + s[..i]) + e + (s[i + 1..] + b);
    assert RewritesAt(t, w, a + s' + b, |a| + i, e);
  }

  lemma {:induction false} LeadsToInContext(t: Tables, a: seq<nat>, s: seq<nat>, r: seq<nat>, b: seq<nat>, n: nat)
    requires LeadsTo(t, s, r, n)
    ensures LeadsTo(t, a + s + b, a + r + b, n)
    decreases n
  {
    if n > 0 {
      var s' :| Rewrites(t, s, s') && LeadsTo(t, s', r, n - 1);
      RewriteInContext(t, a, s, s', b);
      LeadsToInContext(t, a, s', r, b, n - 1);
    }
  }

  lemma {:induction false} LeadsFurther(t: Tables, s: seq<nat>, r: seq<nat>, q: seq<nat>, n: nat, k: nat)
    requires LeadsTo(t, s, r, n) && LeadsTo(t, r, q, k)
    ensures LeadsTo(t, s, q, n + k)
    decreases n
  {
    if n > 0 {
      var s' :| Rewrites(t, s, s') && LeadsTo(t, s', r, n - 1);
      LeadsFurther(t, s', r, q, n - 1, k);
    }
  }

  /** The two parts of a string are replaced independently. */
  lemma LeadsToParts(t: Tables, a: seq<nat>, a': seq<nat>, b: seq<nat>, b': seq<nat>, n: nat, k: nat)
    requires LeadsTo(t, a, a', n) && LeadsTo(t, b, b', k)
    ensures LeadsTo(t, a + b, a' + b', n + k)
  {
    LeadsToInContext(t, [], a, a', b, n);
    LeadsToInContext(t, a', b, b', [], k);
    assert [] + a + b == a + b && [] + a' + b == a' + b;
    assert a' + b + [] == a' + b && a' + b' + [] == a' + b';
    LeadsFurther(t, a + b, a' + b, a' + b', n, k);
  }

  lemma {:induction false} FullIsReached(t: Tables, u: nat) returns (n: nat)
    requires t.Valid()
    ensures LeadsTo(t, [u], DecomposeFull(t, u), n)
    decreases t.Rank(u)
  {
    n := 0;
    if u in t.decompose {
      assert t.ValidDecomposition(u);
      var (a, b) := t.decompose[u];
      n := FullIsReached(t, a);
      if b < 0 {
        OneMoreStep(t, u, [a], DecomposeFull(t, a), n);
      } else {
        var k := FullIsReached(t, b);
        PairIsReached(t, u, a, b, n, k);
        n := n + k;
      }
      n := n + 1;
    }
  }

  lemma PairIsReached(t: Tables, u: nat, a: nat, b: nat, n: nat, k: nat)
    requires t.Valid() && u in t.decompose && t.decompose[u] == (a, b)
    requires LeadsTo(t, [a], DecomposeFull(t, a), n) && LeadsTo(t, [b], DecomposeFull(t, b), k)
    ensures LeadsTo(t, [u], DecomposeFull(t, a) + DecomposeFull(t, b), n + k + 1)
  {
    LeadsToParts(t, [a], DecomposeFull(t, a), [b], DecomposeFull(t, b), n, k);
    OneMoreStep(t, u, [a] + [b], DecomposeFull(t, a) + DecomposeFull(t, b), n + k);
  }

  lemma OneMoreStep(t: Tables, u: nat, e: seq<nat>, r: seq<nat>, n: nat)
    requires IsEntry(t, u, e) && LeadsTo(t, e, r, n)
    ensures LeadsTo(t, [u], r, n + 1)
  {
    FirstStep(t, u, e);
  }

  lemma FirstStep(t: Tables, u: nat, e: seq<nat>)
    requires IsEntry(t, u, e)
    ensures Rewrites(t, [u], e)
  {
    assert [u][..0] + e + [u][1..] == e;
    assert RewritesAt(t, [u], e, 0, e);
  }

  lemma {:induction false} AllIsReached(t: Tables, us: seq<nat>) returns (n: nat)
    requires t.Valid()
    ensures LeadsTo(t, us, DecomposeAll(t, us), n)
  {
    n := 0;
    if us != [] {
      var k := FullIsReached(t, us[0]);
      n := AllIsReached(t, us[1..]);
      LeadsToParts(t, [us[0]], DecomposeFull(t, us[0]), us[1..], DecomposeAll(t, us[1..]), k, n);
      assert us == [us[0]] + us[1..];
      n := k + n;
    }
  }

  lemma {:induction false} FinalDecomposesToItself(t: Tables, r: seq<nat>)
    requires t.Valid() && forall i :: 0 <= i < |r| ==> r[i] !in t.decompose
    ensures DecomposeAll(t, r) == r
  {
    if r != [] {
      FinalDecomposesToItself(t, r[1..]);
    }
  }

  /** Whatever is replaced first, the replacements end in the full decomposition, and in nothing else. */
  lemma DecompositionIff(t: Tables, us: seq<nat>, r: seq<nat>)
    requires t.Valid() && AllScalar(us)
    ensures EndsIn(t, us, r) <==> r == DecomposeAll(t, us)
  {
    if EndsIn(t, us, r) {
      var n: nat :| LeadsTo(t, us, r, n);
      LeadsToKeepsDecomposition(t, us, r, n);
      FinalDecomposesToItself(t, r);
    }
    var n := AllIsReached(t, us);
    DecomposeAllIsFinal(t, us);
  }

  /** For one character, `decompose_full` yields that end. */
  lemma FullDecompositionIff(t: Tables, u: nat, r: seq<nat>)
    requires t.Valid() && IsScalar(u)
    ensures EndsIn(t, [u], r) <==> r == DecomposeFull(t, u)
  {
    DecompositionIff(t, [u], r);
    assert [u][1..] == [] && DecomposeFull(t, u) + [] == DecomposeFull(t, u);
  }

  /**
   D68: the canonical decomposition is the one string that replacing and exchanging lead to and that neither can
   change into a better one.
   */
  lemma NfdIff(t: Tables, us: seq<nat>, n: seq<nat>)
    requires t.Valid() && AllScalar(us)
    ensures n == Nfd(t, us) <==> exists r :: EndsIn(t, us, r) && Linked(t, r, n) && InOrder(t, n)
  {
    var d := DecomposeAll(t, us);
    DecompositionIff(t, us, d);
    InsertAllIsLinked(t, [], d);
    assert [] + d == d;
    OrderedIsInOrder(t, d);
    if r :| EndsIn(t, us, r) && Linked(t, r, n) && InOrder(t, n) {
      DecompositionIff(t, us, r);
      LinkedIffSameOrdering(t, r, n);
      OrderedIsInOrder(t, n);
    }
  }

  /** ANGSTROM SIGN, a singleton of A WITH RING ABOVE, which is a pair. */
  function AngstromTables(): Tables {
    Tables(map[0x030A := 230], map[0x00C5 := (0x41, 0x030A), 0x212B := (0x00C5, -1)], map[(0x41, 0x030A) := 0x00C5],
      {0x212B}, {0x030A}, map[0x00C5 := 0, 0x212B := 1])
  }

  lemma SampleAngstrom()
    ensures var t := AngstromTables();
            && t.Valid() && t.Class(0x030A) == 230
            && DecomposeFull(t, 0x212B) == [0x41, 0x030A] == DecomposeFull(t, 0x00C5)
  {
    var t := AngstromTables();
    assert DecomposeFull(t, 0x41) == [0x41] && DecomposeFull(t, 0x030A) == [0x030A];
    assert DecomposeFull(t, 0x00C5) == [0x41, 0x030A];
  }
}
