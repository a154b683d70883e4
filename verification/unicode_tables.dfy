/**
 The five Unicode tables of server/nfc_sets.hh as parameters, what they must satisfy, and the
 table of compositions that `generate_nfc_compose` derives from the decompositions.
 */
module UnicodeTables {
  import opened Wrappers
  import opened Utf8

  type Pair = (nat, nat)

  /** The second component of a decomposition is negative when there is only one. */
  type Decompositions = map<nat, (int, int)>

  predicate IsPair(d: (int, int)) {
    d.0 >= 0 && d.1 >= 0
  }

  /** `m` sends every decomposition pair to the greatest code point that decomposes into it. */
  ghost predicate IsComposeTable(decompose: Decompositions, m: map<Pair, nat>) {
    && (forall p :: p in m ==> m[p] in decompose && decompose[m[p]] == p)
    && (forall u :: u in decompose && IsPair(decompose[u]) ==> decompose[u] in m && u <= m[decompose[u]])
  }

  /** The part of the table built from the code points below `limit`. */
  ghost predicate IsComposeTableBelow(decompose: Decompositions, m: map<Pair, nat>, limit: nat) {
    && (forall p :: p in m ==> m[p] in decompose && decompose[m[p]] == p && m[p] < limit)
    && (forall u :: u in decompose && u < limit && IsPair(decompose[u]) ==> decompose[u] in m && u <= m[decompose[u]])
  }

  /**
   `generate_nfc_compose`: a pass over the decompositions in key order, skipping the singletons.  A later
   entry with the same pair overwrites an earlier one.
   */
  method GenerateNfcCompose(decompose: Decompositions) returns (m: map<Pair, nat>)
    requires forall u :: u in decompose ==> u <= MAX_CODE_POINT && decompose[u].0 >= 0
    ensures IsComposeTable(decompose, m)
  {
    m := map[];
    for u := 0 to MAX_CODE_POINT + 1
      invariant IsComposeTableBelow(decompose, m, u)
    {
      if u in decompose && decompose[u].1 >= 0 {
        m := m[decompose[u] := u];
      }
    }
  }

  lemma ComposeTableIsUnique(decompose: Decompositions, m: map<Pair, nat>, m': map<Pair, nat>)
    requires IsComposeTable(decompose, m) && IsComposeTable(decompose, m')
    ensures m == m'
  {
    forall p
      ensures p in m <==> p in m'
      ensures p in m ==> m[p] == m'[p]
    {
      if p in m { assert IsPair(decompose[m[p]]); }
      if p in m' { assert IsPair(decompose[m'[p]]); }
    }
  }

  /** `rank` only witnesses that decompositions end; the program has no such table. */
  datatype Tables = Tables(
    combiningClass: map<nat, nat>,
    decompose: Decompositions,
    compose: map<Pair, nat>,
    no: set<nat>,
    maybe: set<nat>,
    ghost rank: map<nat, nat>)
  {
    /** `canonicalClass`: 0 for everything that has no entry. */
    function Class(u: nat): nat {
      if u in combiningClass then combiningClass[u] else 0
    }

    ghost function Rank(u: nat): nat {
      if u in decompose && u in rank then rank[u] + 1 else 0
    }

    ghost predicate ValidDecomposition(u: nat)
      requires u in decompose
    {
      var (a, b) := decompose[u];
      && IsScalar(u)
      && u in rank
      && IsScalar(a)
      && Rank(a) < Rank(u)
      && (b >= 0 ==> IsScalar(b) && Rank(b) < Rank(u))
      && (b >= 0 && Class(a) == 0 ==> Class(u) == 0)
    }

    ghost predicate Valid() {
      && (forall u :: u in combiningClass ==> u <= MAX_CODE_POINT)
      && (forall u {:trigger ValidDecomposition(u)} :: u in decompose ==> ValidDecomposition(u))
      && IsComposeTable(decompose, compose)
    }

    /** `NFC_Compose.find`. */
    function Composite(a: nat, b: nat): Option<nat> {
      if (a, b) in compose then Some(compose[(a, b)]) else None
    }

    /** D114: a primary composite, which no composition exclusion is.  The exclusions are the set No. */
    function Primary(a: nat, b: nat): Option<nat> {
      if (a, b) in compose && compose[(a, b)] !in no then Some(compose[(a, b)]) else None
    }
  }
}
