/** Canonical decomposition (server/nfc.cc:122-146, 341-355; Unicode Standard section 3.11). */
module Decomposition {
  import opened Wrappers
  import opened Utf8
  import opened UnicodeTables
  import opened Ordering

  /** `decompose`: the entry of the table, or two negative numbers. */
  function Decompose(t: Tables, u: nat): (int, int) {
    if u in t.decompose then t.decompose[u] else (-1, -1)
  }

  /** `decompose_full`: the entries are followed until nothing decomposes any more. */
  function DecomposeFull(t: Tables, u: nat): seq<nat>
    requires t.Valid()
    decreases t.Rank(u)
  {
    var d := Decompose(t, u);
    assert u in t.decompose ==> t.ValidDecomposition(u);
    if d.0 < 0 then [u]
    else if d.1 < 0 then DecomposeFull(t, d.0)
    else DecomposeFull(t, d.0) + DecomposeFull(t, d.1)
  }

  function DecomposeAll(t: Tables, us: seq<nat>): seq<nat>
    requires t.Valid()
  {
    if us == [] then [] else DecomposeFull(t, us[0]) + DecomposeAll(t, us[1..])
  }

  /** Scalar values that the table does not decompose. */
  ghost predicate AllFinal(t: Tables, us: seq<nat>) {
    forall i :: 0 <= i < |us| ==> IsScalar(us[i]) && us[i] !in t.decompose
  }

  lemma {:induction false} DecomposeFullIsFinal(t: Tables, u: nat)
    requires t.Valid() && IsScalar(u)
    ensures AllFinal(t, DecomposeFull(t, u)) && DecomposeFull(t, u) != []
    decreases t.Rank(u)
  {
    var d := Decompose(t, u);
    assert u in t.decompose ==> t.ValidDecomposition(u);
    if d.0 >= 0 {
      DecomposeFullIsFinal(t, d.0);
      if d.1 >= 0 {
        DecomposeFullIsFinal(t, d.1);
      }
    }
  }

  lemma {:induction false} DecomposeAllIsFinal(t: Tables, us: seq<nat>)
    requires t.Valid() && AllScalar(us)
    ensures AllFinal(t, DecomposeAll(t, us))
  {
    if us != [] {
      DecomposeFullIsFinal(t, us[0]);
      DecomposeAllIsFinal(t, us[1..]);
    }
  }

  lemma {:induction false} DecomposeAllConcat(t: Tables, a: seq<nat>, b: seq<nat>)
    requires t.Valid()
    ensures DecomposeAll(t, a + b) == DecomposeAll(t, a) + DecomposeAll(t, b)
  {
    if a == [] {
      assert a + b == b;
    } else {
      assert (a + b)[1..] == a[1..] + b;
      DecomposeAllConcat(t, a[1..], b);
    }
  }

  lemma DecomposeAllCons(t: Tables, u: nat, us: seq<nat>)
    requires t.Valid()
    ensures DecomposeAll(t, [u] + us) == DecomposeFull(t, u) + DecomposeAll(t, us)
  {
    assert ([u] + us)[1..] == us;
  }

  lemma {:induction false} DecomposeAllOfFinal(t: Tables, us: seq<nat>)
    requires t.Valid() && AllFinal(t, us)
    ensures DecomposeAll(t, us) == us
  {
    if us != [] {
      DecomposeAllOfFinal(t, us[1..]);
    }
  }

  /** The canonical decomposition: everything decomposed, then canonically ordered. */
  function Nfd(t: Tables, us: seq<nat>): seq<nat>
    requires t.Valid()
  {
    Ordered(t, DecomposeAll(t, us))
  }

  lemma OrderedKeepsFinal(t: Tables, us: seq<nat>)
    requires AllFinal(t, us)
    ensures AllFinal(t, Ordered(t, us))
  {
    OrderedIsStablePermutation(t, us);
    forall i | 0 <= i < |us| ensures IsScalar(Ordered(t, us)[i]) && Ordered(t, us)[i] !in t.decompose {
      assert Ordered(t, us)[i] in multiset(us);
    }
  }

  /** A decomposition is in its normal form: nothing decomposes, nothing is out of order, and doing it again changes nothing. */
  lemma NfdIsNormal(t: Tables, us: seq<nat>)
    requires t.Valid() && AllScalar(us)
    ensures AllFinal(t, Nfd(t, us)) && InOrder(t, Nfd(t, us))
    ensures Nfd(t, Nfd(t, us)) == Nfd(t, us)
  {
    DecomposeAllIsFinal(t, us);
    OrderedKeepsFinal(t, DecomposeAll(t, us));
    OrderedIsInOrder(t, DecomposeAll(t, us));
    DecomposeAllOfFinal(t, Nfd(t, us));
    OrderedIsInOrder(t, Nfd(t, us));
  }

  lemma OneMoreDecomposed(t: Tables, done: seq<nat>, u: nat, us: seq<nat>)
    requires t.Valid()
    ensures done + DecomposeAll(t, [u] + us) == (done + DecomposeFull(t, u)) + DecomposeAll(t, us)
  {
    DecomposeAllCons(t, u, us);
    ConcatAssoc(done, DecomposeFull(t, u), DecomposeAll(t, us));
  }

  /** `fromUtf8_decompose`: parses, decomposes and orders; only the parser's own exception leaves it. */
  method FromUtf8Decompose(t: Tables, s: seq<byte>) returns (r: Result<seq<nat>, Thrown>)
    requires t.Valid()
    ensures r.Ok? <==> WellFormed(s)
    ensures r.Ok? ==> r.value == Nfd(t, Decode(s).value)
    ensures r.Err? ==> r.error.Utf8Exception?
  {
    var u32s: seq<nat> := [];
    var begin := 0;
    while begin < |s|
      invariant begin <= |s|
      invariant WellFormed(s) <==> WellFormed(s[begin..])
      invariant WellFormed(s) ==> DecomposeAll(t, Decode(s).value) == u32s + DecomposeAll(t, Decode(s[begin..]).value)
    {
      var u, last := ParseUtf8(s, begin);
      if u.Err? {
        return Err(Utf8Exception(u.error));
      }
      ParsedStep(s, begin, last);
      var one := DecomposeFull(t, u.value);
      if WellFormed(s[begin..]) {
        OneMoreDecomposed(t, u32s, u.value, Decode(s[last + 1..]).value);
      }
      u32s := u32s + one;
      begin := last + 1;
    }
    assert s[begin..] == [] && u32s + [] == u32s;
    var buffer := new nat[|u32s|](i requires 0 <= i < |u32s| => u32s[i]);
    assert buffer[..] == u32s;
    CanonicalOrdering(t, buffer);
    return Ok(buffer[..]);
  }
}
