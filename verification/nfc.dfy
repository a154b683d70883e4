/**
 `isNFC_quick_check`, `isNFC` and `toNFC` (server/nfc.cc:426-489), and what the normalisation promises:
 it keeps canonical equivalence and is idempotent, whichever of its two paths a call takes.
 */
module Nfc {
  import opened Wrappers
  import opened Utf8
  import opened UnicodeTables
  import opened Ordering
  import opened Decomposition
  import opened Composition

  datatype Answer = No | Maybe | Yes

  /** What the quick check makes of one code point behind one of class `last`. */
  function Verdict(t: Tables, u: nat, last: nat): Answer {
    if t.Class(u) != 0 && last > t.Class(u) then No
    else if u in t.no then No
    else if u in t.maybe then Maybe
    else Yes
  }

  /** The verdict on the first code point that is not simply allowed. */
  function QuickCheck(t: Tables, us: seq<nat>, last: nat): Answer {
    if us == [] then Yes
    else
      var v := Verdict(t, us[0], last);
      if v != Yes then v else QuickCheck(t, us[1..], t.Class(us[0]))
  }

  lemma {:induction false} QuickCheckFrom(t: Tables, us: seq<nat>, last: nat)
    ensures QuickCheck(t, us, last) == Yes <==>
            && InOrder(t, us)
            && (us != [] ==> t.Class(us[0]) == 0 || last <= t.Class(us[0]))
            && forall i :: 0 <= i < |us| ==> us[i] !in t.no && us[i] !in t.maybe
  {
    if us != [] {
      var rest := us[1..];
      QuickCheckFrom(t, rest, t.Class(us[0]));
      assert forall i :: 0 <= i < |rest| ==> rest[i] == us[i + 1];
      if InOrder(t, rest) && (rest != [] ==> !IsReorderablePair(t, us[0], rest[0])) {
        InOrderConcat(t, [us[0]], rest);
        assert [us[0]] + rest == us;
      }
      if InOrder(t, us) {
        InOrderParts(t, us, 1);
        assert rest != [] ==> !IsReorderablePair(t, us[0], us[0 + 1]);
      }
    }
  }

  /** The quick check says Yes exactly to strings in canonical order of characters that are neither No nor Maybe. */
  lemma QuickYesIff(t: Tables, us: seq<nat>)
    ensures QuickCheck(t, us, 0) == Yes <==>
            InOrder(t, us) && forall i :: 0 <= i < |us| ==> us[i] !in t.no && us[i] !in t.maybe
  {
    QuickCheckFrom(t, us, 0);
  }

  /** A No character with no Maybe character in front of it. */
  ghost predicate HasExposedNo(t: Tables, us: seq<nat>) {
    exists i :: 0 <= i < |us| && us[i] in t.no && forall j :: 0 <= j < i ==> us[j] !in t.maybe
  }

  /** On a string in canonical order it says No exactly when a No character comes before every Maybe. */
  lemma {:induction false} QuickNoIff(t: Tables, us: seq<nat>, last: nat)
    requires InOrder(t, us) && (us != [] ==> t.Class(us[0]) == 0 || last <= t.Class(us[0]))
    ensures QuickCheck(t, us, last) == No <==> HasExposedNo(t, us)
  {
    if us != [] {
      var rest := us[1..];
      InOrderParts(t, us, 1);
      assert rest != [] ==> !IsReorderablePair(t, us[0], us[0 + 1]);
      QuickNoIff(t, rest, t.Class(us[0]));
      if us[0] !in t.no && us[0] !in t.maybe {
        if HasExposedNo(t, us) {
          var i :| 0 <= i < |us| && us[i] in t.no && forall j :: 0 <= j < i ==> us[j] !in t.maybe;
          assert rest[i - 1] == us[i] && forall j :: 0 <= j < i - 1 ==> rest[j] == us[j + 1];
        }
        if HasExposedNo(t, rest) {
          var i :| 0 <= i < |rest| && rest[i] in t.no && forall j :: 0 <= j < i ==> rest[j] !in t.maybe;
          assert us[i + 1] == rest[i] && forall j :: 1 <= j < i + 1 ==> us[j] == rest[j - 1];
        }
      } else if us[0] in t.no {
        assert HasExposedNo(t, us);
      }
    }
  }

  /** The quick check of UAX #15, section 9: it goes on behind a Maybe to look for a No. */
  function StandardQuickCheck(t: Tables, us: seq<nat>, last: nat): Answer {
    if us == [] then Yes
    else
      var v, rest := Verdict(t, us[0], last), StandardQuickCheck(t, us[1..], t.Class(us[0]));
      if v == No || rest == No then No else if v == Maybe then Maybe else rest
  }

  ghost predicate NoSomewhere(t: Tables, us: seq<nat>, last: nat) {
    exists i :: 0 <= i < |us| && NoAt(t, us, last, i)
  }

  predicate NoAt(t: Tables, us: seq<nat>, last: nat, i: nat)
    requires i < |us|
  {
    Verdict(t, us[i], if i == 0 then last else t.Class(us[i - 1])) == No
  }

  lemma {:induction false} StandardSaysNo(t: Tables, us: seq<nat>, last: nat)
    ensures StandardQuickCheck(t, us, last) == No <==> NoSomewhere(t, us, last)
  {
    if us != [] {
      var rest, c := us[1..], t.Class(us[0]);
      StandardSaysNo(t, rest, c);
      if NoSomewhere(t, us, last) {
        var i :| 0 <= i < |us| && NoAt(t, us, last, i);
        if i > 0 { assert NoAt(t, rest, c, i - 1); }
      }
      if NoSomewhere(t, rest, c) {
        var i :| 0 <= i < |rest| && NoAt(t, rest, c, i);
        assert NoAt(t, us, last, i + 1);
      }
      if Verdict(t, us[0], last) == No { assert NoAt(t, us, last, 0); }
    }
  }

  /** A Maybe at `i`, nothing wrong up to there, and a No at `j` behind it. */
  predicate MaybeBeforeNo(t: Tables, us: seq<nat>, last: nat, i: nat, j: nat) {
    && i < j < |us| && us[i] in t.maybe && NoAt(t, us, last, j)
    && forall k :: 0 <= k <= i ==> !NoAt(t, us, last, k)
  }

  lemma NoAtBehind(t: Tables, us: seq<nat>, last: nat, k: nat)
    requires k + 1 < |us|
    ensures NoAt(t, us, last, k + 1) <==> NoAt(t, us[1..], t.Class(us[0]), k)
  {
  }

  lemma MaybeBeforeNoStep(t: Tables, us: seq<nat>, last: nat)
    requires us != [] && Verdict(t, us[0], last) == Yes
    ensures (exists i: nat, j: nat :: MaybeBeforeNo(t, us, last, i, j)) <==>
            (exists i: nat, j: nat :: MaybeBeforeNo(t, us[1..], t.Class(us[0]), i, j))
  {
    var rest, c := us[1..], t.Class(us[0]);
    if i: nat, j: nat :| MaybeBeforeNo(t, us, last, i, j) {
      forall k: nat | k + 1 < |us| ensures NoAt(t, us, last, k + 1) <==> NoAt(t, rest, c, k) { NoAtBehind(t, us, last, k); }
      assert i > 0;
      assert MaybeBeforeNo(t, rest, c, i - 1, j - 1);
    }
    if i: nat, j: nat :| MaybeBeforeNo(t, rest, c, i, j) {
      forall k: nat | k + 1 < |us| ensures NoAt(t, us, last, k + 1) <==> NoAt(t, rest, c, k) { NoAtBehind(t, us, last, k); }
      forall k | 0 <= k <= i + 1 ensures !NoAt(t, us, last, k) {
        if k > 0 { NoAtBehind(t, us, last, k - 1); }
      }
      assert MaybeBeforeNo(t, us, last, i + 1, j + 1);
    }
  }

  /**
   The program's quick check disagrees with the standard's one exactly on the strings in which a Maybe, with
   no reason for No up to it, stands in front of a character with one.
   */
  lemma {:induction false} QuickCheckMeetsStandardIff(t: Tables, us: seq<nat>, last: nat)
    ensures QuickCheck(t, us, last) != StandardQuickCheck(t, us, last) <==>
            exists i: nat, j: nat :: MaybeBeforeNo(t, us, last, i, j)
  {
    if us != [] {
      var v := Verdict(t, us[0], last);
      if v == Yes {
        MaybeBeforeNoStep(t, us, last);
        QuickCheckMeetsStandardIff(t, us[1..], t.Class(us[0]));
      } else if v == No {
        assert NoAt(t, us, last, 0);
      } else {
        assert !NoAt(t, us, last, 0);
        StandardSaysNo(t, us, last);
        if NoSomewhere(t, us, last) {
          var j: nat :| j < |us| && NoAt(t, us, last, j);
          assert MaybeBeforeNo(t, us, last, 0, j);
        }
      }
    }
  }

  /** The normalised code points: the input itself on the fast path, otherwise decomposed and composed. */
  function NfcOf(t: Tables, us: seq<nat>): seq<nat>
    requires t.Valid()
  {
    if QuickCheck(t, us, 0) == Yes then us else Composed(t, Nfd(t, us))
  }

  function IsNfcOf(t: Tables, us: seq<nat>): bool
    requires t.Valid()
  {
    match QuickCheck(t, us, 0)
    case Yes => true
    case No => false
    case Maybe => us == NfcOf(t, us)
  }

  lemma QuickCheckStep(t: Tables, u: nat, us: seq<nat>, last: nat)
    ensures QuickCheck(t, [u] + us, last) ==
            if Verdict(t, u, last) != Yes then Verdict(t, u, last) else QuickCheck(t, us, t.Class(u))
  {
    assert ([u] + us)[1..] == us;
  }

  // The program

  /** `isNFC_quick_check`: a fault is reported only if nothing before it has decided the answer. */
  method IsNfcQuickCheck(t: Tables, s: seq<byte>) returns (r: Result<Answer, Thrown>)
    ensures r.Ok? <==> WellFormed(s) || QuickCheck(t, Readable(s), 0) != Yes
    ensures r.Ok? ==> r.value == QuickCheck(t, Readable(s), 0)
    ensures r.Err? ==> r.error.IllegalUtf8? && ReportsFirstFault(s, r.error.position, r.error.reason)
  {
    var begin := 0;
    var last: nat := 0;
    while begin < |s|
      invariant begin <= |s| && WellFormed(s[..begin])
      invariant QuickCheck(t, Readable(s), 0) == QuickCheck(t, Readable(s[begin..]), last)
    {
      var u, c := ParseNext(s, begin);
      if u.Err? {
        return Err(IllegalUtf8(c, u.error));
      }
      QuickCheckStep(t, u.value, Readable(s[c + 1..]), last);
      var cc := t.Class(u.value);
      if cc != 0 && last > cc { return Ok(No); }
      if u.value in t.no { return Ok(No); }
      if u.value in t.maybe { return Ok(Maybe); }
      begin := c + 1;
      last := cc;
    }
    assert s[..begin] == s;
    return Ok(Yes);
  }

  /** The slow path of `toNFC`. */
  method Renormalise(t: Tables, s: seq<byte>) returns (r: Result<seq<byte>, Thrown>)
    requires t.Valid()
    ensures r.Ok? <==> WellFormed(s)
    ensures r.Ok? ==> r.value == EncodeAll(Composed(t, Nfd(t, Decode(s).value)))
    ensures r.Err? ==> r.error.Utf8Exception?
  {
    var nfd := FromUtf8Decompose(t, s);
    if nfd.Err? { return Err(nfd.error); }
    NfdIsNormal(t, Decode(s).value);
    ComposedIsScalar(t, nfd.value);
    var buffer := new nat[|nfd.value|](i requires 0 <= i < |nfd.value| => nfd.value[i]);
    assert buffer[..] == nfd.value;
    var nfc := CreateNfc(t, buffer);
    var out := ToUtf8(nfc);
    return Ok(out.value);
  }

  /**
   `toNFC`: succeeds exactly on well-formed input.  On other input the exception is `illegal_utf8` when the
   quick check meets the fault, and the parser's own type when it had already decided for the slow path.
   */
  method ToNfc(t: Tables, s: seq<byte>) returns (r: Result<seq<byte>, Thrown>)
    requires t.Valid()
    ensures r.Ok? <==> WellFormed(s)
    ensures r.Ok? ==> r.value == EncodeAll(NfcOf(t, Decode(s).value))
    ensures r.Err? ==> (r.error.IllegalUtf8? <==> QuickCheck(t, Readable(s), 0) == Yes)
    ensures r.Err? && r.error.IllegalUtf8? ==> ReportsFirstFault(s, r.error.position, r.error.reason)
  {
    if WellFormed(s) {
      ReadableIsDecoded(s);
      EncodeDecode(s);
    }
    var quick := IsNfcQuickCheck(t, s);
    if quick.Err? { return Err(quick.error); }
    if quick.value == Yes { return Ok(s); }
    r := Renormalise(t, s);
  }

  /** `isNFC`: the comparison of the slow path is made only for Maybe. */
  method IsNfc(t: Tables, s: seq<byte>) returns (r: Result<bool, Thrown>)
    requires t.Valid()
    ensures r.Ok? <==> WellFormed(s) || QuickCheck(t, Readable(s), 0) == No
    ensures r.Ok? ==> r.value == (WellFormed(s) && IsNfcOf(t, Decode(s).value))
  {
    var quick := IsNfcQuickCheck(t, s);
    if quick.Err? { return Err(quick.error); }
    if WellFormed(s) {
      ReadableIsDecoded(s);
    }
    match quick.value
    case Yes => return Ok(true);
    case No => return Ok(false);
    case Maybe =>
      var nfc := ToNfc(t, s);
      if nfc.Err? { return Err(nfc.error); }
      SameBytesSameCodePoints(t, s);
      return Ok(s == nfc.value);
  }

  /** A Maybe in front of a No: the program's check stops at the first, the standard's one goes on. */
  lemma SampleMaybeBeforeNo(t: Tables)
    requires t.combiningClass == map[] && t.maybe == {0x09BE} && t.no == {0x0958}
    ensures QuickCheck(t, [0x09BE, 0x0958], 0) == Maybe && StandardQuickCheck(t, [0x09BE, 0x0958], 0) == No
  {
    var us := [0x09BE, 0x0958];
    assert us[1..] == [0x0958] && us[1..][1..] == [];
  }

  lemma SameBytesSameCodePoints(t: Tables, s: seq<byte>)
    requires t.Valid() && WellFormed(s)
    ensures s == EncodeAll(NfcOf(t, Decode(s).value)) <==> Decode(s).value == NfcOf(t, Decode(s).value)
  {
    EncodeDecode(s);
    NfcKeepsNfd(t, Decode(s).value);
    DecodeEncode(NfcOf(t, Decode(s).value));
  }

  // What it promises

  /** Normalisation keeps the canonical decomposition, so the result is canonically equivalent to the input. */
  lemma NfcKeepsNfd(t: Tables, us: seq<nat>)
    requires t.Valid() && AllScalar(us)
    ensures AllScalar(NfcOf(t, us))
    ensures Nfd(t, NfcOf(t, us)) == Nfd(t, us)
  {
    if QuickCheck(t, us, 0) != Yes {
      NfdIsNormal(t, us);
      ComposedKeepsNfd(t, Nfd(t, us));
      ComposedIsScalar(t, Nfd(t, us));
    }
  }

  /** A second call changes nothing, whichever path each of the two calls takes. */
  lemma NfcIsIdempotent(t: Tables, us: seq<nat>)
    requires t.Valid() && AllScalar(us)
    ensures NfcOf(t, NfcOf(t, us)) == NfcOf(t, us)
  {
    NfcKeepsNfd(t, us);
  }

  /** `isNFC` accepts exactly the strings that `toNFC` leaves alone and that the quick check does not refuse. */
  lemma IsNfcIff(t: Tables, us: seq<nat>)
    requires t.Valid()
    ensures IsNfcOf(t, us) <==> NfcOf(t, us) == us && QuickCheck(t, us, 0) != No
  {
    assert QuickCheck(t, us, 0) == Yes ==> NfcOf(t, us) == us;
  }

  /**
   The result of `toNFC` is accepted by `isNFC` exactly when each of its No characters stands behind a
   Maybe.
   */
  lemma NfcAcceptedIff(t: Tables, us: seq<nat>)
    requires t.Valid() && AllScalar(us)
    ensures IsNfcOf(t, NfcOf(t, us)) <==> !HasExposedNo(t, NfcOf(t, us))
  {
    var r := NfcOf(t, us);
    NfcIsIdempotent(t, us);
    IsNfcIff(t, r);
    QuickYesIff(t, us);
    if QuickCheck(t, us, 0) != Yes {
      NfdIsNormal(t, us);
      ComposedIsInOrder(t, Nfd(t, us));
    }
    QuickNoIff(t, r, 0);
  }

  /** In particular a result without No characters is accepted. */
  lemma NfcWithoutNoIsAccepted(t: Tables, us: seq<nat>)
    requires t.Valid() && AllScalar(us)
    requires forall i :: 0 <= i < |NfcOf(t, us)| ==> NfcOf(t, us)[i] !in t.no
    ensures IsNfcOf(t, NfcOf(t, us))
  {
    NfcAcceptedIff(t, us);
  }

  /** The same promises for the byte strings that the program handles. */
  lemma NfcOfBytes(t: Tables, s: seq<byte>, r: seq<byte>)
    requires t.Valid() && WellFormed(s) && r == EncodeAll(NfcOf(t, Decode(s).value))
    ensures WellFormed(r)
    ensures Nfd(t, Decode(r).value) == Nfd(t, Decode(s).value)
    ensures EncodeAll(NfcOf(t, Decode(r).value)) == r
    ensures IsNfcOf(t, Decode(s).value) ==> r == s
  {
    var us := Decode(s).value;
    NfcKeepsNfd(t, us);
    DecodeEncode(NfcOf(t, us));
    NfcIsIdempotent(t, us);
    IsNfcIff(t, us);
    EncodeDecode(s);
  }
}
