/**
 UTF-8 as server/nfc.cc reads and writes it.  The specification is the grammar of RFC 3629
 section 4 (`IsSequence`) and the bit layout of its section 3 (`Payload`); the printer, the parser and
 the whole-string check are proved against these two.  Shifts and masks of the unsigned C++ words
 are written as division and remainder by powers of two.
 */
module Utf8 {
  import opened Wrappers

  type byte = b: int | 0 <= b < 0x100

  const MAX_CODE_POINT: nat := 0x10FFFF

  /** The octets of an ASCII text. */
  predicate IsText(s: seq<byte>, text: string) {
    |s| == |text| && forall i :: 0 <= i < |s| ==> s[i] == text[i] as int
  }

  /** A Unicode scalar value: a code point that is no surrogate. */
  predicate IsScalar(u: int) {
    0 <= u <= 0xD7FF || 0xE000 <= u <= MAX_CODE_POINT
  }

  predicate AllScalar(us: seq<nat>) {
    forall i :: 0 <= i < |us| ==> IsScalar(us[i])
  }

  predicate IsTail(b: byte) {
    0x80 <= b <= 0xBF
  }

  /** The production UTF8-char of RFC 3629 section 4. */
  predicate IsSequence(s: seq<byte>) {
    || (|s| == 1 && s[0] <= 0x7F)
    || (|s| == 2 && 0xC2 <= s[0] <= 0xDF && IsTail(s[1]))
    || (|s| == 3 && IsTail(s[1]) && IsTail(s[2]) &&
        (|| (s[0] == 0xE0 && 0xA0 <= s[1])
         || (0xE1 <= s[0] <= 0xEC)
         || (s[0] == 0xED && s[1] <= 0x9F)
         || (0xEE <= s[0] <= 0xEF)))
    || (|s| == 4 && IsTail(s[1]) && IsTail(s[2]) && IsTail(s[3]) &&
        (|| (s[0] == 0xF0 && 0x90 <= s[1])
         || (0xF1 <= s[0] <= 0xF3)
         || (s[0] == 0xF4 && s[1] <= 0x8F)))
  }

  /** The payload bits of a sequence, concatenated (RFC 3629 section 3); the marker bits are subtracted. */
  function Payload(s: seq<byte>): nat
    requires IsSequence(s)
  {
    if |s| == 1 then s[0]
    else if |s| == 2 then Join(0, 0, s[0] - 0xC0, s[1] - 0x80)
    else if |s| == 3 then Join(0, s[0] - 0xE0, s[1] - 0x80, s[2] - 0x80)
    else Join(s[0] - 0xF0, s[1] - 0x80, s[2] - 0x80, s[3] - 0x80)
  }

  function Join(a: nat, b: nat, c: nat, d: nat): nat {
    a * 0x40000 + b * 0x1000 + c * 0x40 + d
  }

  /** The bytes that `toUtf8` appends for one code point; surrogates are encoded like their neighbours. */
  function Encode(u: nat): (s: seq<byte>) {
    if u <= 0x7F then [u]
    else if u <= 0x7FF then [0xC0 + u / 0x40, 0x80 + u % 0x40]
    else if u <= 0xFFFF then [0xE0 + u / 0x1000, 0x80 + u / 0x40 % 0x40, 0x80 + u % 0x40]
    else if u <= MAX_CODE_POINT then
      [0xF0 + u / 0x40000, 0x80 + u / 0x1000 % 0x40, 0x80 + u / 0x40 % 0x40, 0x80 + u % 0x40]
    else []
  }

  /** The six-bit groups of a word, put together again. */
  lemma SplitJoin(u: nat)
    ensures u == Join(u / 0x40000, u / 0x1000 % 0x40, u / 0x40 % 0x40, u % 0x40)
    ensures u < 0x40000 ==> u / 0x40000 == 0 && u / 0x1000 % 0x40 == u / 0x1000
    ensures u < 0x1000 ==> u / 0x1000 == 0 && u / 0x40 % 0x40 == u / 0x40
  {
    assert u / 0x1000 == u / 0x40 / 0x40;
    assert u / 0x40000 == u / 0x1000 / 0x40;
  }

  /** And the groups that were joined are found again. */
  lemma JoinSplit(a: nat, b: nat, c: nat, d: nat)
    requires b < 0x40 && c < 0x40 && d < 0x40
    ensures var u := Join(a, b, c, d);
            && u / 0x40000 == a && u / 0x1000 % 0x40 == b && u / 0x40 % 0x40 == c && u % 0x40 == d
            && (a == 0 ==> u / 0x1000 == b)
            && (a == b == 0 ==> u / 0x40 == c)
  {
    var u := Join(a, b, c, d);
    assert u / 0x40 == a * 0x1000 + b * 0x40 + c;
    assert u / 0x1000 == a * 0x40 + b;
    assert u / 0x40000 == a;
  }

  /** What `toUtf8` prints for a scalar value is a sequence of the grammar with that payload. */
  lemma EncodingIsSequence(u: nat)
    requires IsScalar(u)
    ensures IsSequence(Encode(u)) && Payload(Encode(u)) == u
  {
    SplitJoin(u);
    JoinBounds(u / 0x40000, u / 0x1000 % 0x40, u / 0x40 % 0x40, u % 0x40);
  }

  /** Where a joined word lies, by its leading groups: the comparisons that the grammar makes. */
  lemma JoinBounds(a: nat, b: nat, c: nat, d: nat)
    requires b < 0x40 && c < 0x40 && d < 0x40
    ensures var u := Join(a, b, c, d);
            && (u < 0x10000 <==> a == 0 && b < 0x10)
            && (u <= MAX_CODE_POINT <==> a < 4 || (a == 4 && b < 0x10))
            && (a == 0 ==> (u < 0x800 <==> b == 0 && c < 0x20))
            && (a == b == 0 ==> (u < 0x80 <==> c < 2))
            && (a == 0 && b < 0x10 ==> (0xD800 <= u <= 0xDFFF <==> b == 0xD && c >= 0x20))
  {
  }

  /** Every sequence of the grammar encodes a scalar value, and is the only encoding of it. */
  lemma SequenceIsEncoding(s: seq<byte>)
    requires IsSequence(s)
    ensures IsScalar(Payload(s)) && Encode(Payload(s)) == s
  {
    if |s| == 2 {
      TwoOctets(s[0] - 0xC0, s[1] - 0x80);
    } else if |s| == 3 {
      ThreeIsEncoding(s);
    } else if |s| == 4 {
      FourIsEncoding(s);
    }
  }

  lemma ThreeIsEncoding(s: seq<byte>)
    requires IsSequence(s) && |s| == 3
    ensures IsScalar(Payload(s)) && Encode(Payload(s)) == s
  {
    ThreeOctets(s[0] - 0xE0, s[1] - 0x80, s[2] - 0x80);
  }

  lemma FourIsEncoding(s: seq<byte>)
    requires IsSequence(s) && |s| == 4
    ensures IsScalar(Payload(s)) && Encode(Payload(s)) == s
  {
    FourOctets(s[0] - 0xF0, s[1] - 0x80, s[2] - 0x80, s[3] - 0x80);
  }

  lemma TwoOctets(a: nat, b: nat)
    requires 2 <= a < 0x20 && b < 0x40
    ensures 0x80 <= Join(0, 0, a, b) <= 0x7FF
    ensures Encode(Join(0, 0, a, b)) == [0xC0 + a, 0x80 + b]
  {
    JoinSplit(0, 0, a, b);
  }

  lemma ThreeOctets(a: nat, b: nat, c: nat)
    requires a < 0x10 && b < 0x40 && c < 0x40 && (a == 0 ==> b >= 0x20) && (a == 0xD ==> b < 0x20)
    ensures 0x800 <= Join(0, a, b, c) <= 0xFFFF && IsScalar(Join(0, a, b, c))
    ensures Encode(Join(0, a, b, c)) == [0xE0 + a, 0x80 + b, 0x80 + c]
  {
    JoinSplit(0, a, b, c);
  }

  lemma FourOctets(a: nat, b: nat, c: nat, d: nat)
    requires a <= 4 && b < 0x40 && c < 0x40 && d < 0x40 && (a == 0 ==> b >= 0x10) && (a == 4 ==> b < 0x10)
    ensures 0x10000 <= Join(a, b, c, d) <= MAX_CODE_POINT
    ensures Encode(Join(a, b, c, d)) == [0xF0 + a, 0x80 + b, 0x80 + c, 0x80 + d]
  {
    JoinSplit(a, b, c, d);
  }

  /** The length of the sequence `s` starts with, or 0 if it starts with none. */
  function Front(s: seq<byte>): (n: nat)
    ensures n <= |s|
    ensures n > 0 ==> IsSequence(s[..n])
    ensures n == 0 ==> forall k :: 0 <= k <= |s| ==> !IsSequence(s[..k])
  {
    if |s| >= 1 && IsSequence(s[..1]) then 1
    else if |s| >= 2 && IsSequence(s[..2]) then 2
    else if |s| >= 3 && IsSequence(s[..3]) then 3
    else if |s| >= 4 && IsSequence(s[..4]) then 4
    else 0
  }

  /** No sequence is a proper prefix of another one. */
  lemma FrontIsUnique(s: seq<byte>, n: nat)
    requires n <= |s| && IsSequence(s[..n])
    ensures Front(s) == n
  {
    var m := Front(s);
    assert s[..n][0] == s[0] && s[..m][0] == s[0];
  }

  lemma FrontOfConcat(a: seq<byte>, b: seq<byte>)
    requires IsSequence(a)
    ensures Front(a + b) == |a| && (a + b)[..|a|] == a && (a + b)[|a|..] == b
  {
    assert (a + b)[..|a|] == a;
    FrontIsUnique(a + b, |a|);
  }

  /** The code points of a well-formed byte string; None if it is ill-formed. */
  function Decode(s: seq<byte>): (r: Option<seq<nat>>)
    ensures r.Some? ==> AllScalar(r.value)
  {
    if s == [] then Some([])
    else
      var n := Front(s);
      if n == 0 then None
      else
        SequenceIsEncoding(s[..n]);
        match Decode(s[n..])
        case None => None
        case Some(us) => Some([Payload(s[..n])] + us)
  }

  predicate WellFormed(s: seq<byte>) {
    Decode(s).Some?
  }

  /** Each element of `us` replaced by the bytes `f` gives for it. */
  function FlatMap<T>(f: T -> seq<byte>, us: seq<T>): seq<byte> {
    if us == [] then [] else f(us[0]) + FlatMap(f, us[1..])
  }

  lemma {:induction false} FlatMapConcat<T>(f: T -> seq<byte>, a: seq<T>, b: seq<T>)
    ensures FlatMap(f, a + b) == FlatMap(f, a) + FlatMap(f, b)
  {
    if a == [] {
      assert a + b == b;
    } else {
      assert (a + b)[1..] == a[1..] + b;
      FlatMapConcat(f, a[1..], b);
    }
  }

  lemma FlatMapSnoc<T>(f: T -> seq<byte>, us: seq<T>, i: nat)
    requires i < |us|
    ensures FlatMap(f, us[..i + 1]) == FlatMap(f, us[..i]) + f(us[i])
  {
    assert us[..i + 1] == us[..i] + [us[i]];
    FlatMapConcat(f, us[..i], [us[i]]);
    assert FlatMap(f, [us[i]]) == f(us[i]);
  }

  /** The bytes of a sequence of code points. */
  function EncodeAll(us: seq<nat>): seq<byte> {
    FlatMap(Encode, us)
  }

  /** Parsing what was printed returns the code points, and what follows is parsed after them. */
  lemma {:induction false} DecodeOfEncodeAll(us: seq<nat>, rest: seq<byte>)
    requires AllScalar(us)
    ensures Decode(EncodeAll(us) + rest) ==
            match Decode(rest) case None => None case Some(vs) => Some(us + vs)
  {
    if us == [] {
      assert EncodeAll(us) + rest == rest;
      assert Decode(rest).Some? ==> us + Decode(rest).value == Decode(rest).value;
    } else {
      DecodeOfEncodeAll(us[1..], rest);
      DecodeCons(us[0], EncodeAll(us[1..]) + rest);
      ConcatAssoc(Encode(us[0]), EncodeAll(us[1..]), rest);
      if Decode(rest).Some? {
        ConcatAssoc([us[0]], us[1..], Decode(rest).value);
        assert [us[0]] + us[1..] == us;
      }
    }
  }

  lemma ConcatAssoc<T>(a: seq<T>, b: seq<T>, c: seq<T>)
    ensures a + b + c == a + (b + c)
  {
  }

  lemma DecodeCons(u: nat, rest: seq<byte>)
    requires IsScalar(u)
    ensures Decode(Encode(u) + rest) == match Decode(rest) case None => None case Some(vs) => Some([u] + vs)
  {
    EncodingIsSequence(u);
    FrontOfConcat(Encode(u), rest);
  }

  lemma DecodeEncode(us: seq<nat>)
    requires AllScalar(us)
    ensures Decode(EncodeAll(us)) == Some(us)
  {
    DecodeOfEncodeAll(us, []);
    assert EncodeAll(us) + [] == EncodeAll(us) && us + [] == us;
  }

  lemma FirstDecoded(s: seq<byte>) returns (u: nat, n: nat)
    requires WellFormed(s) && s != []
    ensures 0 < n <= |s| && Encode(u) == s[..n] && WellFormed(s[n..])
    ensures Decode(s).value == [u] + Decode(s[n..]).value
  {
    n := Front(s);
    u := Payload(s[..n]);
    SequenceIsEncoding(s[..n]);
  }

  lemma EncodeAllCons(u: nat, us: seq<nat>)
    ensures EncodeAll([u] + us) == Encode(u) + EncodeAll(us)
  {
    assert ([u] + us)[1..] == us;
  }

  /** Printing what was parsed returns the bytes: the decoding is unique. */
  lemma {:induction false} EncodeDecode(s: seq<byte>)
    requires WellFormed(s)
    ensures EncodeAll(Decode(s).value) == s
  {
    if s != [] {
      var u, n := FirstDecoded(s);
      var rest := s[n..];
      assert s == Encode(u) + rest;
      EncodeAllCons(u, Decode(rest).value);
      EncodeDecode(rest);
    }
  }

  /** The accepted byte strings are exactly the encodings of sequences of scalar values. */
  lemma WellFormedIffEncoding(s: seq<byte>)
    ensures WellFormed(s) <==> exists us :: AllScalar(us) && EncodeAll(us) == s
  {
    if WellFormed(s) {
      EncodeDecode(s);
    }
    forall us | AllScalar(us) && EncodeAll(us) == s
      ensures WellFormed(s)
    {
      DecodeEncode(us);
    }
  }

  lemma WellFormedConcat(a: seq<byte>, b: seq<byte>)
    requires WellFormed(a)
    ensures WellFormed(a + b) <==> WellFormed(b)
    ensures WellFormed(b) ==> Decode(a + b).value == Decode(a).value + Decode(b).value
  {
    EncodeDecode(a);
    DecodeOfEncodeAll(Decode(a).value, b);
  }

  /** The code points in front of the first fault, or all of them. */
  function Readable(s: seq<byte>): seq<nat> {
    var n := Front(s);
    if n == 0 then [] else [Payload(s[..n])] + Readable(s[n..])
  }

  lemma {:induction false} ReadableIsDecoded(s: seq<byte>)
    requires WellFormed(s)
    ensures Readable(s) == Decode(s).value
  {
    if s != [] {
      ReadableIsDecoded(s[Front(s)..]);
    }
  }

  lemma ReadableStep(s: seq<byte>, begin: nat, last: nat)
    requires begin <= last < |s| && Front(s[begin..]) == last + 1 - begin
    ensures IsSequence(s[begin..last + 1])
    ensures Readable(s[begin..]) == [Payload(s[begin..last + 1])] + Readable(s[last + 1..])
    ensures WellFormed(s[begin..]) <==> WellFormed(s[last + 1..])
  {
    assert s[begin..][..last + 1 - begin] == s[begin..last + 1];
    assert s[begin..][last + 1 - begin..] == s[last + 1..];
  }

  /** The exceptions of `parseUtf8`, with the octet they carry. */
  datatype Fault =
    | ContWithoutStart(octet: byte)
    | NoUnicode(octet: byte)
    | UnexpectedEnd(octet: byte)
    | OverlongSequence(octet: byte, unicode: nat)
    | Surrogate(octet: byte, unicode: nat)
    | TooBig(octet: byte, unicode: nat)

  /** `s` starts with a lead octet and as many continuation octets as it calls for. */
  predicate StartsComplete(s: seq<byte>) {
    || (|s| >= 2 && 0xC2 <= s[0] <= 0xDF && IsTail(s[1]))
    || (|s| >= 3 && 0xE0 <= s[0] <= 0xEF && IsTail(s[1]) && IsTail(s[2]))
    || (|s| >= 4 && 0xF0 <= s[0] <= 0xF4 && IsTail(s[1]) && IsTail(s[2]) && IsTail(s[3]))
  }

  /** The number that a complete sequence of three or four octets stands for. */
  function Spelled(s: seq<byte>): int
    requires StartsComplete(s) && s[0] >= 0xE0
  {
    if s[0] <= 0xEF then Join(0, s[0] - 0xE0, s[1] - 0x80, s[2] - 0x80)
    else Join(s[0] - 0xF0, s[1] - 0x80, s[2] - 0x80, s[3] - 0x80)
  }

  /** What each exception says about the input that caused it. */
  predicate Explains(s: seq<byte>, f: Fault) {
    match f
    case ContWithoutStart(o) => s != [] && IsTail(s[0]) && o == s[0]
    case NoUnicode(o) => s != [] && (s[0] == 0xC0 || s[0] == 0xC1 || s[0] >= 0xF5) && o == s[0]
    case OverlongSequence(o, u) =>
      StartsComplete(s) && o == s[0] && ((o == 0xE0 && s[1] < 0xA0) || (o == 0xF0 && s[1] < 0x90)) && u == Spelled(s)
    case Surrogate(o, u) => StartsComplete(s) && o == s[0] == 0xED && s[1] >= 0xA0 && u == Spelled(s)
    case TooBig(o, u) => StartsComplete(s) && o == s[0] == 0xF4 && s[1] >= 0x90 && u == Spelled(s)
    case UnexpectedEnd(_) => s == [] || (0xC2 <= s[0] <= 0xF4 && !StartsComplete(s))
  }

  function Min(a: int, b: int): int {
    if a <= b then a else b
  }

  /**
   Where a fault at the start of `s` is noticed: on the octet at fault, or on the last one of a complete sequence.  An
   unexpected end carries the octet that should continue the sequence, or the last one that there is.
   */
  predicate NoticedAt(s: seq<byte>, f: Fault, k: int) {
    && 0 <= k <= |s|
    && (forall i :: 0 < i < k ==> IsTail(s[i]))
    && match f
       case ContWithoutStart(_) => k == 0
       case NoUnicode(_) => k == 0
       case UnexpectedEnd(o) =>
         if k == |s| then o == (if s == [] then 0xFF else s[|s| - 1]) else 0 < k && !IsTail(s[k]) && o == s[k]
       case _ => s != [] && k == if s[0] <= 0xEF then 2 else 3
  }

  /** The outcome of a parse at the start of `s` that stops at offset `k`. */
  predicate Outcome(s: seq<byte>, r: Result<nat, Fault>, k: int) {
    match r
    case Ok(v) => 0 <= k < |s| && IsSequence(s[..k + 1]) && v == Payload(s[..k + 1])
    case Err(f) => Explains(s, f) && NoticedAt(s, f, k)
  }

  lemma OutcomeIsFront(s: seq<byte>, r: Result<nat, Fault>, k: int)
    requires Outcome(s, r, k)
    ensures r.Ok? <==> Front(s) > 0
    ensures r.Ok? ==> Front(s) == k + 1
  {
    if r.Ok? {
      FrontIsUnique(s, k + 1);
    } else {
      // what the exception says excludes the grammar at every length
      assert Front(s) == 0;
    }
  }

  /** An input has one outcome: value or exception, with all that it carries, and the place. */
  lemma OutcomeIsUnique(s: seq<byte>, r: Result<nat, Fault>, k: int, r': Result<nat, Fault>, k': int)
    requires Outcome(s, r, k) && Outcome(s, r', k')
    ensures r == r' && k == k'
  {
    OutcomeIsFront(s, r, k);
    OutcomeIsFront(s, r', k');
  }

  /** The three-octet branch of `parseUtf8`; `c` is on the lead octet `u`. */
  method ParseThree(s: seq<byte>, begin: nat) returns (r: Result<nat, Fault>, c: nat)
    requires begin < |s| && 0xE0 <= s[begin] <= 0xEF
    ensures Outcome(s[begin..], r, c - begin)
  {
    ghost var t := s[begin..];
    var u: int := s[begin];
    c := begin + 1;
    if c == |s| { return Err(UnexpectedEnd(u)), c; }
    var uu: int := s[c];
    if uu / 0x40 != 2 { return Err(UnexpectedEnd(uu)), c; }
    c := c + 1;
    if c == |s| { return Err(UnexpectedEnd(uu)), c; }
    var uuu: int := s[c];
    if uuu / 0x40 != 2 { return Err(UnexpectedEnd(uuu)), c; }
    var v := Join(0, u % 0x10, uu % 0x40, uuu % 0x40);
    JoinBounds(0, u % 0x10, uu % 0x40, uuu % 0x40);
    assert t[..3] == [u, uu, uuu];
    if v < 0x800 { return Err(OverlongSequence(u, v)), c; }
    if 0xD800 <= v <= 0xDFFF { return Err(Surrogate(u, v)), c; }
    return Ok(v), c;
  }

  /** The four-octet branch of `parseUtf8`. */
  method ParseFour(s: seq<byte>, begin: nat) returns (r: Result<nat, Fault>, c: nat)
    requires begin < |s| && 0xF0 <= s[begin] <= 0xF4
    ensures Outcome(s[begin..], r, c - begin)
  {
    ghost var t := s[begin..];
    var u: int := s[begin];
    c := begin + 1;
    if c == |s| { return Err(UnexpectedEnd(u)), c; }
    var uu: int := s[c];
    if uu / 0x40 != 2 { return Err(UnexpectedEnd(uu)), c; }
    c := c + 1;
    if c == |s| { return Err(UnexpectedEnd(uu)), c; }
    var uuu: int := s[c];
    if uuu / 0x40 != 2 { return Err(UnexpectedEnd(uuu)), c; }
    c := c + 1;
    if c == |s| { return Err(UnexpectedEnd(uuu)), c; }
    var uuuu: int := s[c];
    if uuuu / 0x40 != 2 { return Err(UnexpectedEnd(uuuu)), c; }
    var v := Join(u % 0x10, uu % 0x40, uuu % 0x40, uuuu % 0x40);
    JoinBounds(u % 0x10, uu % 0x40, uuu % 0x40, uuuu % 0x40);
    assert t[..4] == [u, uu, uuu, uuuu];
    if v < 0x10000 { return Err(OverlongSequence(u, v)), c; }
    if v > MAX_CODE_POINT { return Err(TooBig(u, v)), c; }
    return Ok(v), c;
  }

  /** The two-octet branch of `parseUtf8`. */
  method ParseTwo(s: seq<byte>, begin: nat) returns (r: Result<nat, Fault>, c: nat)
    requires begin < |s| && 0xC2 <= s[begin] <= 0xDF
    ensures Outcome(s[begin..], r, c - begin)
  {
    ghost var t := s[begin..];
    var u: int := s[begin];
    c := begin + 1;
    if c == |s| { return Err(UnexpectedEnd(u)), c; }
    var uu: int := s[c];
    if uu / 0x40 != 2 { return Err(UnexpectedEnd(uu)), c; }
    assert t[..2] == [u, uu];
    return Ok(Join(0, 0, u % 0x20, uu % 0x40)), c;
  }

  /** The branch of `parseUtf8` for one octet, and the dispatch to the longer ones. */
  method ParseLead(s: seq<byte>, begin: nat) returns (r: Result<nat, Fault>, c: nat)
    requires begin < |s|
    ensures Outcome(s[begin..], r, c - begin)
  {
    c := begin;
    var u: int := s[c];
    assert s[begin..][..1] == [u];
    if u <= 0x7F { return Ok(u), c; }
    if u <= 0xBF { return Err(ContWithoutStart(u)), c; }
    if u <= 0xC1 { return Err(NoUnicode(u)), c; }
    if u <= 0xDF {
      r, c := ParseTwo(s, begin);
    } else if u <= 0xEF {
      r, c := ParseThree(s, begin);
    } else if u <= 0xF4 {
      r, c := ParseFour(s, begin);
    } else {
      return Err(NoUnicode(u)), c;
    }
  }

  /**
   `parseUtf8`: reads one sequence of `s` from index `begin` and leaves `c` on its last octet.  The loop
   of the original never runs twice, so it is the test that there is a first octet.
   */
  method ParseUtf8(s: seq<byte>, begin: nat) returns (r: Result<nat, Fault>, c: nat)
    requires begin <= |s|
    ensures r.Ok? <==> Front(s[begin..]) > 0
    ensures r.Ok? ==> c + 1 == begin + Front(s[begin..]) && r.value == Payload(s[begin..c + 1])
    ensures r.Err? ==> Explains(s[begin..], r.error) && NoticedAt(s[begin..], r.error, c - begin)
    ensures begin <= c <= |s|
  {
    if begin < |s| {
      r, c := ParseLead(s, begin);
    } else {
      r, c := Err(UnexpectedEnd(0xFF)), begin;
    }
    OutcomeIsFront(s[begin..], r, c - begin);
    assert r.Ok? ==> s[begin..][..c - begin + 1] == s[begin..c + 1];
  }

  /** What is left to decode behind a sequence that was parsed. */
  lemma ParsedStep(s: seq<byte>, begin: nat, last: nat)
    requires begin <= last < |s| && Front(s[begin..]) == last + 1 - begin
    ensures WellFormed(s[begin..]) <==> WellFormed(s[last + 1..])
    ensures WellFormed(s[begin..]) ==>
              IsSequence(s[begin..last + 1]) &&
              Decode(s[begin..]).value == [Payload(s[begin..last + 1])] + Decode(s[last + 1..]).value
  {
    assert s[begin..][..last + 1 - begin] == s[begin..last + 1];
    assert s[begin..][last + 1 - begin..] == s[last + 1..];
  }

  /** `toUtf8(char32_t, std::string&)`: appends the encoding of `c` to `ret`. */
  method ToUtf8Char(c: nat, ret: seq<byte>) returns (r: Result<seq<byte>, Fault>)
    ensures r.Ok? <==> c <= MAX_CODE_POINT
    ensures r.Ok? ==> r.value == ret + Encode(c)
    ensures r.Err? ==> r.error == TooBig(0, c)
  {
    var out := ret;
    if c <= 0x7F {
      out := out + [c];
    } else if c <= 0x7FF {
      out := out + [0xC0 + c / 0x40];
      out := out + [0x80 + c % 0x40];
    } else if c <= 0xFFFF {
      out := out + [0xE0 + c / 0x1000];
      out := out + [0x80 + c / 0x40 % 0x40];
      out := out + [0x80 + c % 0x40];
    } else if c <= 0x10FFFF {
      out := out + [0xF0 + c / 0x40000];
      out := out + [0x80 + c / 0x1000 % 0x40];
      out := out + [0x80 + c / 0x40 % 0x40];
      out := out + [0x80 + c % 0x40];
    } else {
      return Err(TooBig(0, c));
    }
    return Ok(out);
  }

  /** `toUtf8(const std::u32string&)`. */
  method ToUtf8(us: seq<nat>) returns (r: Result<seq<byte>, Fault>)
    ensures r.Ok? <==> forall i :: 0 <= i < |us| ==> us[i] <= MAX_CODE_POINT
    ensures r.Ok? ==> r.value == EncodeAll(us)
  {
    var ret: seq<byte> := [];
    for i := 0 to |us|
      invariant forall k :: 0 <= k < i ==> us[k] <= MAX_CODE_POINT
      invariant ret == EncodeAll(us[..i])
    {
      var one := ToUtf8Char(us[i], ret);
      if one.Err? {
        return Err(one.error);
      }
      ret := one.value;
      FlatMapSnoc(Encode, us, i);
    }
    assert us[..|us|] == us;
    return Ok(ret);
  }

  /** The exceptions that leave the functions of nfc.cc: the parser's own one, or the public `illegal_utf8`. */
  datatype Thrown = Utf8Exception(fault: Fault) | IllegalUtf8(position: nat, reason: Fault)

  /** What is in front of `b` is well-formed, and no sequence begins there. */
  predicate FirstFaultAt(s: seq<byte>, b: nat) {
    b < |s| && WellFormed(s[..b]) && Front(s[b..]) == 0
  }

  /** A position and a reason that are right for the first fault of the string. */
  ghost predicate ReportsFirstFault(s: seq<byte>, position: nat, reason: Fault) {
    exists b: nat :: FirstFaultAt(s, b) && Explains(s[b..], reason) && NoticedAt(s[b..], reason, position - b)
  }

  lemma FaultReported(s: seq<byte>, b: nat, position: nat, reason: Fault)
    requires b < |s| && WellFormed(s[..b]) && Front(s[b..]) == 0
    requires Explains(s[b..], reason) && NoticedAt(s[b..], reason, position - b)
    ensures ReportsFirstFault(s, position, reason) && !WellFormed(s)
  {
    assert FirstFaultAt(s, b);
    assert s == s[..b] + s[b..];
    WellFormedConcat(s[..b], s[b..]);
  }

  lemma FirstFaultIsUnique(s: seq<byte>, b: nat, b': nat)
    requires FirstFaultAt(s, b) && FirstFaultAt(s, b')
    ensures b == b'
  {
    if b < b' {
      NoFaultBefore(s, b, b');
    } else if b' < b {
      NoFaultBefore(s, b', b);
    }
  }

  lemma NoFaultBefore(s: seq<byte>, b: nat, b': nat)
    requires b < b' <= |s| && WellFormed(s[..b]) && WellFormed(s[..b'])
    ensures Front(s[b..]) > 0
  {
    assert s[..b'] == s[..b] + s[b..b'];
    WellFormedConcat(s[..b], s[b..b']);
    var n := Front(s[b..b']);
    SameFront(s, b, b', n);
    FrontIsUnique(s[b..], n);
  }

  lemma SameFront<T>(s: seq<T>, b: nat, b': nat, n: nat)
    requires b + n <= b' <= |s|
    ensures s[b..b'][..n] == s[b..b + n] == s[b..][..n]
  {
  }

  lemma WellFormedUpTo(s: seq<byte>, begin: nat, last: nat)
    requires begin <= last < |s| && WellFormed(s[..begin]) && Front(s[begin..]) == last + 1 - begin
    ensures WellFormed(s[..last + 1])
  {
    var c := s[begin..last + 1];
    ReadableStep(s, begin, last);
    SequenceIsWellFormed(c);
    SliceConcat(s, 0, begin, last + 1);
    WellFormedAppend(s[..begin], c, s[..last + 1]);
  }

  lemma WellFormedAppend(a: seq<byte>, b: seq<byte>, c: seq<byte>)
    requires WellFormed(a) && WellFormed(b) && c == a + b
    ensures WellFormed(c)
  {
    WellFormedConcat(a, b);
  }

  lemma SliceConcat<T>(s: seq<T>, a: nat, b: nat, c: nat)
    requires a <= b <= c <= |s|
    ensures s[a..c] == s[a..b] + s[b..c]
  {
  }

  lemma SequenceIsWellFormed(c: seq<byte>)
    requires IsSequence(c)
    ensures WellFormed(c)
  {
    assert c[..|c|] == c && c[|c|..] == [];
    FrontIsUnique(c, |c|);
    assert Decode([]) == Some([]);
  }

  /** One call of the parser in a loop over the whole string, by what it says of the string. */
  method ParseNext(s: seq<byte>, begin: nat) returns (u: Result<nat, Fault>, c: nat)
    requires begin < |s| && WellFormed(s[..begin])
    ensures u.Ok? ==> && begin <= c < |s|
                      && Readable(s[begin..]) == [u.value] + Readable(s[c + 1..])
                      && WellFormed(s[..c + 1])
    ensures u.Err? ==> Readable(s[begin..]) == [] && !WellFormed(s) && ReportsFirstFault(s, c, u.error)
  {
    u, c := ParseUtf8(s, begin);
    if u.Ok? {
      ReadableStep(s, begin, c);
      WellFormedUpTo(s, begin, c);
    } else {
      FaultReported(s, begin, c, u.error);
    }
  }

  /** `assert_utf8`: passes exactly the well-formed strings and reports the first fault of the others. */
  method AssertUtf8(s: seq<byte>) returns (r: Result<(), Thrown>)
    ensures r.Ok? <==> WellFormed(s)
    ensures r.Err? ==> r.error.IllegalUtf8? && ReportsFirstFault(s, r.error.position, r.error.reason)
  {
    var begin := 0;
    while begin < |s|
      invariant begin <= |s| && WellFormed(s[..begin])
    {
      var u, last := ParseNext(s, begin);
      if u.Err? {
        return Err(IllegalUtf8(last, u.error));
      }
      begin := last + 1;
    }
    assert s[..begin] == s;
    return Ok(());
  }

  /**
   `isUtf8`: its handler catches `illegal_utf8`, which the parser does not throw.  So it never returns
   false: on an ill-formed string the parser's exception leaves it.
   */
  method IsUtf8(s: seq<byte>) returns (r: Result<bool, Thrown>)
    ensures r == Ok(true) <==> WellFormed(s)
    ensures r.Err? <==> !WellFormed(s)
    ensures r.Err? ==> r.error.Utf8Exception?
  {
    var begin := 0;
    while begin < |s|
      invariant begin <= |s|
      invariant WellFormed(s) <==> WellFormed(s[begin..])
    {
      var u, last := ParseUtf8(s, begin);
      if u.Err? {
        return Err(Utf8Exception(u.error));
      }
      assert s[begin..][Front(s[begin..])..] == s[last + 1..];
      begin := last + 1;
    }
    return Ok(true);
  }

  /** A lone continuation octet leaves `isUtf8` with the parser's exception, while `assert_utf8` reports it. */
  method SampleIllFormed() returns (a: Result<(), Thrown>, r: Result<bool, Thrown>)
    ensures a == Err(IllegalUtf8(1, ContWithoutStart(0x80)))
    ensures r.Err? && r.error.Utf8Exception?
  {
    var s: seq<byte> := [0x41, 0x80];
    assert s[..1] == [0x41] && Front(s) == 1 && s[1..] == [0x80] && Front([0x80]) == 0;
    assert [0x41][..1] == [0x41] && Front([0x41]) == 1 && [0x41][1..] == [];
    assert FirstFaultAt(s, 1);
    a := AssertUtf8(s);
    r := IsUtf8(s);
    var b: nat :| FirstFaultAt(s, b) && Explains(s[b..], a.error.reason) && NoticedAt(s[b..], a.error.reason, a.error.position - b);
    FirstFaultIsUnique(s, 1, b);
  }
}
