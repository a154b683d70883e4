/**
 Canonical ordering (server/nfc.cc:149-174; Unicode Standard section 3.11, D108 and D109).

 `Ordered` is a stable insertion.  The in-place bubble sort of the program computes it, and it is
 characterised twice: as the only rearrangement without a reorderable pair, and as a complete
 invariant of strings linked by exchanging neighbouring marks of different non-zero classes.
 */
module Ordering {
  import opened UnicodeTables

  predicate IsReorderablePair(t: Tables, a: nat, b: nat) {
    t.Class(a) > t.Class(b) > 0
  }

  /** Puts `c` behind `s`, moving it left past the marks it forms a reorderable pair with. */
  function Insert(t: Tables, s: seq<nat>, c: nat): (r: seq<nat>)
    ensures |r| == |s| + 1
  {
    if s == [] || !IsReorderablePair(t, s[|s| - 1], c) then s + [c]
    else Insert(t, s[..|s| - 1], c) + [s[|s| - 1]]
  }

  function InsertAll(t: Tables, s: seq<nat>, cs: seq<nat>): (r: seq<nat>)
    ensures |r| == |s| + |cs|
    decreases cs
  {
    if cs == [] then s else InsertAll(t, Insert(t, s, cs[0]), cs[1..])
  }

  /** The canonical ordering of `s`. */
  function Ordered(t: Tables, s: seq<nat>): (r: seq<nat>)
    ensures |r| == |s|
  {
    InsertAll(t, [], s)
  }

  ghost predicate InOrder(t: Tables, s: seq<nat>) {
    forall i, j {:trigger IsReorderablePair(t, s[i], s[j])} :: 0 <= i && j == i + 1 < |s| ==> !IsReorderablePair(t, s[i], s[j])
  }

  /** Two marks that D108 allows to change places. */
  predicate Independent(t: Tables, a: nat, b: nat) {
    t.Class(a) > 0 && t.Class(b) > 0 && t.Class(a) != t.Class(b)
  }

  lemma {:induction false} InsertSnoc(t: Tables, s: seq<nat>, l: nat, c: nat)
    ensures Insert(t, s + [l], c) == if IsReorderablePair(t, l, c) then Insert(t, s, c) + [l] else s + [l] + [c]
  {
    assert (s + [l])[..|s + [l]| - 1] == s;
  }

  lemma {:induction false} InsertsCommute(t: Tables, s: seq<nat>, a: nat, b: nat)
    requires t.Class(a) > t.Class(b) > 0
    ensures Insert(t, Insert(t, s, a), b) == Insert(t, Insert(t, s, b), a)
  {
    if s == [] {
      InsertSnoc(t, [], a, b);
      InsertSnoc(t, [], b, a);
    } else {
      var p, l := s[..|s| - 1], s[|s| - 1];
      assert s == p + [l];
      InsertSnoc(t, p, l, a);
      InsertSnoc(t, p, l, b);
      if IsReorderablePair(t, l, a) {
        InsertsCommute(t, p, a, b);
        InsertSnoc(t, Insert(t, p, a), l, b);
        InsertSnoc(t, Insert(t, p, b), l, a);
      } else if IsReorderablePair(t, l, b) {
        InsertSnoc(t, s, a, b);
        InsertSnoc(t, Insert(t, p, b), l, a);
      } else {
        InsertSnoc(t, s, a, b);
        InsertSnoc(t, s, b, a);
      }
    }
  }

  lemma {:induction false} InsertAllConcat(t: Tables, s: seq<nat>, x: seq<nat>, y: seq<nat>)
    ensures InsertAll(t, s, x + y) == InsertAll(t, InsertAll(t, s, x), y)
    decreases x
  {
    if x == [] {
      assert x + y == y;
    } else {
      assert (x + y)[1..] == x[1..] + y;
      InsertAllConcat(t, Insert(t, s, x[0]), x[1..], y);
    }
  }

  lemma InsertTwo(t: Tables, s: seq<nat>, p: nat, q: nat)
    ensures InsertAll(t, s, [p, q]) == Insert(t, Insert(t, s, p), q)
  {
    assert [p, q][1..] == [q];
    assert InsertAll(t, Insert(t, s, p), [q]) == InsertAll(t, Insert(t, Insert(t, s, p), q), []);
  }

  /** Exchanging two neighbouring independent marks anywhere leaves the canonical ordering as it was. */
  lemma OrderedIgnoresExchange(t: Tables, x: seq<nat>, a: nat, b: nat, y: seq<nat>)
    requires Independent(t, a, b)
    ensures Ordered(t, x + [a, b] + y) == Ordered(t, x + [b, a] + y)
  {
    var s := InsertAll(t, [], x);
    forall p, q | p in {a, b} && q in {a, b}
      ensures Ordered(t, x + [p, q] + y) == InsertAll(t, Insert(t, Insert(t, s, p), q), y)
    {
      InsertAllConcat(t, [], x + [p, q], y);
      InsertAllConcat(t, [], x, [p, q]);
      InsertTwo(t, s, p, q);
    }
    if t.Class(a) > t.Class(b) { InsertsCommute(t, s, a, b); } else { InsertsCommute(t, s, b, a); }
  }

  /** A mark may be moved over a whole run of marks it is independent of. */
  lemma {:induction false} OrderedIgnoresMove(t: Tables, x: seq<nat>, a: nat, run: seq<nat>, y: seq<nat>)
    requires forall i :: 0 <= i < |run| ==> Independent(t, a, run[i])
    ensures Ordered(t, x + [a] + run + y) == Ordered(t, x + run + [a] + y)
    decreases run
  {
    if run == [] {
      assert x + [a] + run + y == x + run + [a] + y;
    } else {
      OrderedIgnoresExchange(t, x, a, run[0], run[1..] + y);
      assert x + [a] + run + y == x + [a, run[0]] + (run[1..] + y);
      assert x + [run[0], a] + (run[1..] + y) == (x + [run[0]]) + [a] + run[1..] + y;
      OrderedIgnoresMove(t, x + [run[0]], a, run[1..], y);
      assert (x + [run[0]]) + run[1..] + [a] + y == x + run + [a] + y;
    }
  }

  lemma {:induction false} InsertKeepsOrder(t: Tables, s: seq<nat>, c: nat)
    requires InOrder(t, s)
    ensures InOrder(t, Insert(t, s, c))
    ensures s != [] ==> Insert(t, s, c)[|s|] in {c, s[|s| - 1]}
  {
    if s != [] && IsReorderablePair(t, s[|s| - 1], c) {
      InsertKeepsOrder(t, s[..|s| - 1], c);
    }
  }

  lemma {:induction false} InsertAllKeepsOrder(t: Tables, s: seq<nat>, cs: seq<nat>)
    requires InOrder(t, s)
    ensures InOrder(t, InsertAll(t, s, cs))
    decreases cs
  {
    if cs != [] {
      InsertKeepsOrder(t, s, cs[0]);
      InsertAllKeepsOrder(t, Insert(t, s, cs[0]), cs[1..]);
    }
  }

  lemma {:induction false} InsertAllInOrder(t: Tables, s: seq<nat>, cs: seq<nat>)
    requires InOrder(t, s + cs)
    ensures InsertAll(t, s, cs) == s + cs
    decreases cs
  {
    if cs == [] {
      assert s + cs == s;
    } else {
      assert s != [] ==> (s + cs)[|s| - 1] == s[|s| - 1] && (s + cs)[|s|] == cs[0];
      assert Insert(t, s, cs[0]) == s + [cs[0]];
      assert s + [cs[0]] + cs[1..] == s + cs;
      InsertAllInOrder(t, s + [cs[0]], cs[1..]);
    }
  }

  /** The result has no reorderable pair, and a string without one is left alone. */
  lemma OrderedIsInOrder(t: Tables, s: seq<nat>)
    ensures InOrder(t, Ordered(t, s))
    ensures InOrder(t, s) <==> Ordered(t, s) == s
  {
    InsertAllKeepsOrder(t, [], s);
    if InOrder(t, s) {
      assert [] + s == s;
      InsertAllInOrder(t, [], s);
    }
  }

  /** The characters of `s` in class `k`, in order. */
  function OfClass(t: Tables, s: seq<nat>, k: nat): seq<nat> {
    if s == [] then []
    else OfClass(t, s[..|s| - 1], k) + if t.Class(s[|s| - 1]) == k then [s[|s| - 1]] else []
  }

  lemma OfClassSnoc(t: Tables, s: seq<nat>, c: nat, k: nat)
    ensures OfClass(t, s + [c], k) == OfClass(t, s, k) + if t.Class(c) == k then [c] else []
  {
    assert (s + [c])[..|s|] == s;
  }

  lemma {:induction false} InsertIsStable(t: Tables, s: seq<nat>, c: nat, k: nat)
    ensures OfClass(t, Insert(t, s, c), k) == OfClass(t, s + [c], k)
  {
    OfClassSnoc(t, s, c, k);
    if s != [] && IsReorderablePair(t, s[|s| - 1], c) {
      var p, l := s[..|s| - 1], s[|s| - 1];
      InsertIsStable(t, p, c, k);
      OfClassSnoc(t, p, c, k);
      OfClassSnoc(t, Insert(t, p, c), l, k);
    }
  }

  lemma {:induction false} InsertAddsOne(t: Tables, s: seq<nat>, c: nat)
    ensures multiset(Insert(t, s, c)) == multiset(s) + multiset{c}
  {
    if s != [] && IsReorderablePair(t, s[|s| - 1], c) {
      InsertAddsOne(t, s[..|s| - 1], c);
      assert s == s[..|s| - 1] + [s[|s| - 1]];
    }
  }

  /** A class-0 character stays at its place, and only class-0 characters come to class-0 places. */
  lemma {:induction false} InsertFixesStarters(t: Tables, s: seq<nat>, c: nat, i: nat)
    requires i <= |s|
    ensures var r := Insert(t, s, c);
            (t.Class((s + [c])[i]) == 0 || t.Class(r[i]) == 0) ==> r[i] == (s + [c])[i]
  {
    if s != [] && IsReorderablePair(t, s[|s| - 1], c) && i < |s| {
      InsertFixesStarters(t, s[..|s| - 1], c, i);
    }
  }

  lemma FirstInFront(s: seq<nat>, cs: seq<nat>)
    requires cs != []
    ensures s + [cs[0]] + cs[1..] == s + cs
  {
  }

  lemma FirstOfClass(t: Tables, s: seq<nat>, cs: seq<nat>, k: nat)
    requires cs != []
    ensures OfClass(t, s + [cs[0]], k) + OfClass(t, cs[1..], k) == OfClass(t, s, k) + OfClass(t, cs, k)
  {
    OfClassConcat(t, s + [cs[0]], cs[1..], k);
    OfClassConcat(t, s, cs, k);
    FirstInFront(s, cs);
  }

  lemma {:induction false} InsertAllIsStable(t: Tables, s: seq<nat>, cs: seq<nat>, k: nat)
    ensures OfClass(t, InsertAll(t, s, cs), k) == OfClass(t, s, k) + OfClass(t, cs, k)
    decreases cs
  {
    if cs != [] {
      InsertIsStable(t, s, cs[0], k);
      InsertAllIsStable(t, Insert(t, s, cs[0]), cs[1..], k);
      FirstOfClass(t, s, cs, k);
    }
  }

  lemma {:induction false} InsertAllAdds(t: Tables, s: seq<nat>, cs: seq<nat>)
    ensures multiset(InsertAll(t, s, cs)) == multiset(s) + multiset(cs)
    decreases cs
  {
    if cs != [] {
      InsertAddsOne(t, s, cs[0]);
      InsertAllAdds(t, Insert(t, s, cs[0]), cs[1..]);
      assert cs == [cs[0]] + cs[1..];
    }
  }

  lemma {:induction false} OfClassConcat(t: Tables, a: seq<nat>, b: seq<nat>, k: nat)
    ensures OfClass(t, a + b, k) == OfClass(t, a, k) + OfClass(t, b, k)
  {
    if b == [] {
      assert a + b == a;
    } else {
      assert (a + b)[..|a + b| - 1] == a + b[..|b| - 1];
      OfClassConcat(t, a, b[..|b| - 1], k);
    }
  }

  lemma {:induction false} InsertAllFixesStarters(t: Tables, s: seq<nat>, cs: seq<nat>, i: nat)
    requires i < |s| + |cs|
    ensures var r := InsertAll(t, s, cs);
            (t.Class((s + cs)[i]) == 0 || t.Class(r[i]) == 0) ==> r[i] == (s + cs)[i]
    decreases cs
  {
    if cs != [] {
      var s' := Insert(t, s, cs[0]);
      InsertAllFixesStarters(t, s', cs[1..], i);
      if i <= |s| {
        InsertFixesStarters(t, s, cs[0], i);
      }
    }
  }

  /**
   Canonical ordering permutes the string, keeps the order inside every class, and neither moves a
   class-0 character nor moves anything across one.
   */
  lemma OrderedIsStablePermutation(t: Tables, s: seq<nat>)
    ensures multiset(Ordered(t, s)) == multiset(s)
    ensures forall k :: OfClass(t, Ordered(t, s), k) == OfClass(t, s, k)
    ensures forall i :: 0 <= i < |s| && (t.Class(s[i]) == 0 || t.Class(Ordered(t, s)[i]) == 0) ==> Ordered(t, s)[i] == s[i]
  {
    InsertAllAdds(t, [], s);
    forall k: nat ensures OfClass(t, Ordered(t, s), k) == OfClass(t, s, k) {
      InsertAllIsStable(t, [], s, k);
    }
    forall i | 0 <= i < |s| && (t.Class(s[i]) == 0 || t.Class(Ordered(t, s)[i]) == 0) ensures Ordered(t, s)[i] == s[i] {
      InsertAllFixesStarters(t, [], s, i);
      assert [] + s == s;
    }
  }

  // Strings linked by exchanges

  ghost predicate Exchange(t: Tables, s: seq<nat>, s': seq<nat>) {
    exists i :: ExchangeAt(t, s, s', i)
  }

  ghost predicate ExchangeAt(t: Tables, s: seq<nat>, s': seq<nat>, i: int) {
    && 0 <= i < |s| - 1
    && Independent(t, s[i], s[i + 1])
    && s' == s[..i] + [s[i + 1], s[i]] + s[i + 2..]
  }

  ghost predicate IsChain(t: Tables, chain: seq<seq<nat>>) {
    chain != [] && forall j :: 0 <= j < |chain| - 1 ==> Exchange(t, chain[j], chain[j + 1])
  }

  /** A finite number of exchanges leads from `s` to `s'`. */
  ghost predicate Linked(t: Tables, s: seq<nat>, s': seq<nat>) {
    exists chain :: IsChain(t, chain) && chain[0] == s && chain[|chain| - 1] == s'
  }

  lemma ExchangeKeepsOrdered(t: Tables, s: seq<nat>, s': seq<nat>)
    requires Exchange(t, s, s')
    ensures Ordered(t, s) == Ordered(t, s') && Exchange(t, s', s)
  {
    var i :| ExchangeAt(t, s, s', i);
    assert s == s[..i] + [s[i], s[i + 1]] + s[i + 2..];
    OrderedIgnoresExchange(t, s[..i], s[i], s[i + 1], s[i + 2..]);
    assert ExchangeAt(t, s', s, i);
  }

  lemma {:induction false} ChainKeepsOrdered(t: Tables, chain: seq<seq<nat>>)
    requires IsChain(t, chain)
    ensures Ordered(t, chain[0]) == Ordered(t, chain[|chain| - 1])
  {
    if |chain| > 1 {
      ExchangeKeepsOrdered(t, chain[0], chain[1]);
      var tail := chain[1..];
      forall j | 0 <= j < |tail| - 1 ensures Exchange(t, tail[j], tail[j + 1]) {
        assert Exchange(t, chain[j + 1], chain[j + 2]);
      }
      ChainKeepsOrdered(t, chain[1..]);
    }
  }

  lemma LinkedTransitive(t: Tables, a: seq<nat>, b: seq<nat>, c: seq<nat>)
    requires Linked(t, a, b) && Linked(t, b, c)
    ensures Linked(t, a, c)
  {
    var x :| IsChain(t, x) && x[0] == a && x[|x| - 1] == b;
    var y :| IsChain(t, y) && y[0] == b && y[|y| - 1] == c;
    var z := x + y[1..];
    forall j | 0 <= j < |z| - 1 ensures Exchange(t, z[j], z[j + 1]) {
      if j < |x| - 1 {
        assert z[j] == x[j] && z[j + 1] == x[j + 1];
      } else {
        assert z[j] == y[j - |x| + 1] && z[j + 1] == y[j - |x| + 2];
      }
    }
    assert IsChain(t, z) && z[|z| - 1] == c;
  }

  lemma ExchangeBack(t: Tables, x: seq<seq<nat>>, k: nat)
    requires IsChain(t, x) && k + 1 < |x|
    ensures Exchange(t, x[k + 1], x[k])
  {
    assert Exchange(t, x[k], x[k + 1]);
    ExchangeKeepsOrdered(t, x[k], x[k + 1]);
  }

  lemma LinkedSymmetric(t: Tables, a: seq<nat>, b: seq<nat>)
    requires Linked(t, a, b)
    ensures Linked(t, b, a)
  {
    var x :| IsChain(t, x) && x[0] == a && x[|x| - 1] == b;
    var y := seq(|x|, j requires 0 <= j < |x| => x[|x| - 1 - j]);
    forall j: nat | j < |y| - 1 ensures Exchange(t, y[j], y[j + 1]) {
      ExchangeBack(t, x, |x| - 2 - j);
    }
    assert IsChain(t, y) && y[0] == b && y[|y| - 1] == a;
  }

  lemma LinkedReflexive(t: Tables, s: seq<nat>)
    ensures Linked(t, s, s)
  {
    assert IsChain(t, [s]) && [s][0] == s;
  }

  lemma LinkedInContext(t: Tables, s: seq<nat>, s': seq<nat>, y: seq<nat>)
    requires Linked(t, s, s')
    ensures Linked(t, s + y, s' + y)
  {
    var x :| IsChain(t, x) && x[0] == s && x[|x| - 1] == s';
    var z := seq(|x|, j requires 0 <= j < |x| => x[j] + y);
    forall j | 0 <= j < |z| - 1 ensures Exchange(t, z[j], z[j + 1]) {
      assert Exchange(t, x[j], x[j + 1]);
      var i :| ExchangeAt(t, x[j], x[j + 1], i);
      assert ExchangeAt(t, z[j], z[j + 1], i);
    }
    assert IsChain(t, z) && z[0] == s + y && z[|z| - 1] == s' + y;
  }

  lemma {:induction false} InsertIsLinked(t: Tables, s: seq<nat>, c: nat)
    ensures Linked(t, s + [c], Insert(t, s, c))
  {
    LinkedReflexive(t, s + [c]);
    if s != [] && IsReorderablePair(t, s[|s| - 1], c) {
      var p, l := s[..|s| - 1], s[|s| - 1];
      InsertIsLinked(t, p, c);
      LinkedInContext(t, p + [c], Insert(t, p, c), [l]);
      var first := p + [c] + [l];
      assert ExchangeAt(t, s + [c], first, |p|);
      assert IsChain(t, [s + [c], first]) && [s + [c], first][1] == first;
      LinkedTransitive(t, s + [c], first, Insert(t, s, c));
    }
  }

  lemma {:induction false} InsertAllIsLinked(t: Tables, s: seq<nat>, cs: seq<nat>)
    ensures Linked(t, s + cs, InsertAll(t, s, cs))
    decreases cs
  {
    if cs == [] {
      assert s + cs == s;
      LinkedReflexive(t, s);
    } else {
      InsertIsLinked(t, s, cs[0]);
      LinkedInContext(t, s + [cs[0]], Insert(t, s, cs[0]), cs[1..]);
      assert s + [cs[0]] + cs[1..] == s + cs;
      InsertAllIsLinked(t, Insert(t, s, cs[0]), cs[1..]);
      LinkedTransitive(t, s + cs, Insert(t, s, cs[0]) + cs[1..], InsertAll(t, s, cs));
    }
  }

  /** Two strings are linked by exchanges exactly when their canonical orderings agree. */
  lemma LinkedIffSameOrdering(t: Tables, s: seq<nat>, s': seq<nat>)
    ensures Linked(t, s, s') <==> Ordered(t, s) == Ordered(t, s')
  {
    if Linked(t, s, s') {
      var x :| IsChain(t, x) && x[0] == s && x[|x| - 1] == s';
      ChainKeepsOrdered(t, x);
    }
    if Ordered(t, s) == Ordered(t, s') {
      InsertAllIsLinked(t, [], s);
      InsertAllIsLinked(t, [], s');
      assert [] + s == s && [] + s' == s';
      LinkedSymmetric(t, s', Ordered(t, s'));
      LinkedTransitive(t, s, Ordered(t, s), s');
    }
  }

  /** D109: the ordering is the one string that is linked to `s` and has no reorderable pair. */
  lemma OrderedIsTheOnlyResult(t: Tables, s: seq<nat>, r: seq<nat>)
    ensures Linked(t, s, r) && InOrder(t, r) <==> r == Ordered(t, s)
  {
    LinkedIffSameOrdering(t, s, r);
    OrderedIsInOrder(t, r);
    OrderedIsInOrder(t, s);
    OrderedIsInOrder(t, Ordered(t, s));
  }

  // The sort in place

  predicate AllMarks(t: Tables, s: seq<nat>, i: nat, j: nat) {
    i <= j < |s| && forall m :: i <= m <= j ==> t.Class(s[m]) > 0
  }

  /** Position `j` is not preceded, within its run of marks, by a mark of greater class. */
  ghost predicate Settled(t: Tables, s: seq<nat>, j: int)
    requires 0 <= j < |s|
  {
    forall i: nat {:trigger AllMarks(t, s, i, j)} :: i < j && AllMarks(t, s, i, j) ==> t.Class(s[i]) <= t.Class(s[j])
  }

  ghost predicate SettledFrom(t: Tables, s: seq<nat>, n: int) {
    forall j :: 0 <= j < |s| && n <= j ==> Settled(t, s, j)
  }

  lemma ExchangeKeepsSettled(t: Tables, s: seq<nat>, s': seq<nat>, i: int, j: int)
    requires ExchangeAt(t, s, s', i) && i + 1 < j < |s|
    requires Settled(t, s, j)
    ensures Settled(t, s', j)
  {
    forall k: nat | k < j && AllMarks(t, s', k, j)
      ensures t.Class(s'[k]) <= t.Class(s'[j])
    {
      var k' := if k == i then i + 1 else if k == i + 1 then i else k;
      forall m | k' <= m <= j ensures t.Class(s[m]) > 0 {
        assert m == i || m == i + 1 || s[m] == s'[m];
        if m != i && m != i + 1 { assert k <= m; }
      }
      assert AllMarks(t, s, k', j);
      assert s[k'] == s'[k] && s[j] == s'[j];
    }
  }

  /** The string after one comparison of the inner loop. */
  function Compared(t: Tables, s: seq<nat>, i: nat): (r: seq<nat>)
    requires i + 1 < |s|
    ensures |r| == |s|
  {
    if IsReorderablePair(t, s[i], s[i + 1]) then s[i := s[i + 1]][i + 1 := s[i]] else s
  }

  /** The comparison carries the greatest class of the run so far one place further. */
  lemma ComparedSettles(t: Tables, s: seq<nat>, i: nat)
    requires i + 1 < |s| && Settled(t, s, i)
    ensures Settled(t, Compared(t, s, i), i + 1)
  {
    var s' := Compared(t, s, i);
    forall k: nat | k < i + 1 && AllMarks(t, s', k, i + 1)
      ensures t.Class(s'[k]) <= t.Class(s'[i + 1])
    {
      assert t.Class(s'[i]) > 0 && t.Class(s'[i + 1]) > 0;
      if k < i {
        forall m | k <= m <= i ensures t.Class(s[m]) > 0 {
          if m < i { assert s[m] == s'[m]; }
        }
        assert AllMarks(t, s, k, i);
      }
    }
  }

  lemma ComparedKeeps(t: Tables, s: seq<nat>, i: nat, n: nat)
    requires i + 1 < n <= |s| && Settled(t, s, i) && SettledFrom(t, s, n)
    ensures var r := Compared(t, s, i);
            Ordered(t, r) == Ordered(t, s) && Settled(t, r, i + 1) && SettledFrom(t, r, n)
  {
    var r := Compared(t, s, i);
    ComparedSettles(t, s, i);
    if IsReorderablePair(t, s[i], s[i + 1]) {
      assert ExchangeAt(t, s, r, i);
      ExchangeKeepsOrdered(t, s, r);
      forall j | 0 <= j < |r| && n <= j ensures Settled(t, r, j) {
        ExchangeKeepsSettled(t, s, r, i, j);
      }
    }
  }

  lemma SettledIsInOrder(t: Tables, s: seq<nat>)
    requires SettledFrom(t, s, 1)
    ensures Ordered(t, s) == s
  {
    forall j | 0 <= j < |s| - 1 ensures !IsReorderablePair(t, s[j], s[j + 1]) {
      assert Settled(t, s, j + 1);
      assert IsReorderablePair(t, s[j], s[j + 1]) ==> AllMarks(t, s, j, j + 1);
    }
    OrderedIsInOrder(t, s);
  }

  /**
   `canonicalOrdering`: the shrinking bubble sort, in place.  Inside a run of marks it sorts by class;
   a class-0 character is never exchanged and ends a run.
   */
  method CanonicalOrdering(t: Tables, us: array<nat>)
    modifies us
    ensures us[..] == Ordered(t, old(us[..]))
  {
    ghost var input := us[..];
    if us.Length < 2 {
      SettledIsInOrder(t, input);
      return;
    }
    var n := us.Length;
    while n > 1
      invariant 1 <= n <= us.Length
      invariant Ordered(t, us[..]) == Ordered(t, input)
      invariant SettledFrom(t, us[..], n)
    {
      var i := 0;
      while i < n - 1
        invariant 0 <= i <= n - 1
        invariant Ordered(t, us[..]) == Ordered(t, input)
        invariant SettledFrom(t, us[..], n)
        invariant Settled(t, us[..], i)
      {
        ghost var s := us[..];
        ComparedKeeps(t, s, i, n);
        if IsReorderablePair(t, us[i], us[i + 1]) {
          us[i], us[i + 1] := us[i + 1], us[i];
        }
        assert us[..] == Compared(t, s, i);
        i := i + 1;
      }
      n := n - 1;
    }
    SettledIsInOrder(t, us[..]);
  }
}
