/**
 Base64 as server/base64.cc encodes and decodes it (RFC 4648 section 4).  Bits are shifted and masked in
 `uint8_t` and `uint32_t` there, which is division and remainder here; a conversion to `char` keeps the
 value modulo 256.
 */
module Base64 {
  import opened Wrappers
  import opened Utf8

  const INVALID: int := -1
  const SPACE: int := -2
  const EQUALS: int := -3

  /** What `fetch` returns for a padding character and behind the end. */
  const NONE: nat := 255

  /** The table `values`. */
  function Value(c: byte): (v: int)
    ensures -3 <= v < 64
    ensures v >= 0 ==> Letter(v) == c
  {
    var o: int := c;
    if o == 0x09 || o == 0x0A || o == 0x0C || o == 0x0D || o == 0x20 then SPACE
    else if o == 0x2B then 62
    else if o == 0x2F then 63
    else if 0x30 <= o <= 0x39 then 52 + (o - 0x30)
    else if o == 0x3D then EQUALS
    else if 0x41 <= o <= 0x5A then o - 0x41
    else if 0x61 <= o <= 0x7A then 26 + (o - 0x61)
    else INVALID
  }

  /** The alphabet `b64c`, as codes. */
  function Letter(d: nat): (c: byte)
    requires d < 64
  {
    if d < 26 then 0x41 + d
    else if d < 52 then 0x61 + (d - 26)
    else if d < 62 then 0x30 + (d - 52)
    else if d == 62 then 0x2B
    else 0x2F
  }

  const ALPHABET := "ABCDEFGHIJKLMNOP" + "QRSTUVWXYZabcdef" + "ghijklmnopqrstuv" + "wxyz0123456789+/"

  /** The alphabet, written out. */
  lemma AlphabetSpelled(d: nat)
    requires d < 64
    ensures |ALPHABET| == 64 && ALPHABET[d] as int == Letter(d)
  {
    if d < 16 { FirstPart(d); } else if d < 32 { SecondPart(d); } else if d < 48 { ThirdPart(d); } else { LastPart(d); }
  }

  lemma FirstPart(d: nat)
    requires d < 16
    ensures "ABCDEFGHIJKLMNOP"[d] as int == Letter(d)
  {
  }

  lemma SecondPart(d: nat)
    requires 16 <= d < 32
    ensures "QRSTUVWXYZabcdef"[d - 16] as int == Letter(d)
  {
  }

  lemma ThirdPart(d: nat)
    requires 32 <= d < 48
    ensures "ghijklmnopqrstuv"[d - 32] as int == Letter(d)
  {
  }

  lemma LastPart(d: nat)
    requires 48 <= d < 64
    ensures "wxyz0123456789+/"[d - 48] as int == Letter(d)
  {
  }

  lemma ValueInverts(d: nat)
    requires d < 64
    ensures Value(Letter(d)) == d
  {
  }

  // Decoding

  /** What is fetched from the input: whitespace is skipped, an illegal character is -1. */
  function Symbols(input: seq<byte>): (t: seq<int>)
    ensures forall i :: 0 <= i < |t| ==> t[i] == INVALID || t[i] == NONE || 0 <= t[i] < 64
  {
    if input == [] then []
    else
      var v := Value(input[0]);
      if v == SPACE then Symbols(input[1..])
      else [if v == EQUALS then NONE else v] + Symbols(input[1..])
  }

  predicate Legal(input: seq<byte>) {
    forall i :: 0 <= i < |input| ==> Value(input[i]) != INVALID
  }

  lemma {:induction false} LegalSymbols(input: seq<byte>)
    ensures Legal(input) <==> INVALID !in Symbols(input)
  {
    if input != [] {
      LegalSymbols(input[1..]);
      assert Legal(input) <==> Value(input[0]) != INVALID && Legal(input[1..]);
    }
  }

  predicate IsFirstIllegal(input: seq<byte>, i: nat) {
    i < |input| && Value(input[i]) == INVALID && Legal(input[..i])
  }

  function At(t: seq<int>, i: nat): int {
    if i < |t| then t[i] else NONE
  }

  /** The octets a group of four symbols yields; each one is written if its last symbol is there. */
  function Quad(u0: int, u1: int, u2: int, u3: int): seq<byte> {
    (if u1 != NONE then [First(u0, u1)] else [])
    + (if u2 != NONE then [Second(u1, u2)] else [])
    + (if u3 != NONE then [Third(u2, u3)] else [])
  }

  function First(u0: int, u1: int): byte {
    (u0 * 4 + u1 / 16) % 256
  }

  function Second(u1: int, u2: int): byte {
    (u1 * 16 + u2 / 4) % 256
  }

  function Third(u2: int, u3: int): byte {
    (u2 * 64 + u3) % 256
  }

  function Rest(t: seq<int>): seq<int> {
    t[Min(1, |t|)..]
  }

  /** The decoded octets; the last group is filled up with padding. */
  function Decoded(t: seq<int>): seq<byte> {
    if t == [] then []
    else Quad(t[0], At(t, 1), At(t, 2), At(t, 3)) + Decoded(t[Min(4, |t|)..])
  }

  /** `fetch`: the next symbol, and the position behind it. */
  method Fetch(s: seq<byte>, at: nat) returns (r: Result<nat, byte>, c: nat)
    requires at <= |s|
    ensures at <= c <= |s| && (at < c || at == |s| || r.Err?)
    ensures r.Ok? <==> At(Symbols(s[at..]), 0) != INVALID
    ensures r.Ok? ==> r.value == At(Symbols(s[at..]), 0) && Symbols(s[c..]) == Rest(Symbols(s[at..]))
    ensures r.Err? ==> c < |s| && r.error == s[c] && Value(s[c]) == INVALID
    ensures forall i :: at <= i < c ==> Value(s[i]) != INVALID
  {
    c := at;
    while c < |s|
      invariant at <= c <= |s|
      invariant Symbols(s[c..]) == Symbols(s[at..])
      invariant forall i :: at <= i < c ==> Value(s[i]) == SPACE
    {
      assert s[c..][1..] == s[c + 1..];
      var sc := Value(s[c]);
      if sc == -1 {
        return Err(s[c]), c;
      }
      c := c + 1;
      if sc >= 0 {
        return Ok(sc), c;
      } else if sc == EQUALS {
        return Ok(255), c;
      }
    }
    return Ok(255), c;
  }

  lemma FourRests(t: seq<int>)
    ensures At(Rest(t), 0) == At(t, 1) && At(Rest(Rest(t)), 0) == At(t, 2) && At(Rest(Rest(Rest(t))), 0) == At(t, 3)
    ensures Rest(Rest(Rest(Rest(t)))) == t[Min(4, |t|)..]
  {
  }

  /** The four calls of `fetch` in a round of the decoder. */
  method FetchFour(s: seq<byte>, at: nat)
    returns (r: Result<(), byte>, u0: nat, u1: nat, u2: nat, u3: nat, c: nat)
    requires at < |s|
    ensures at <= c <= |s| && (at < c || r.Err?)
    ensures var t := Symbols(s[at..]);
            r.Ok? ==> && Symbols(s[c..]) == t[Min(4, |t|)..]
                      && u0 == At(t, 0) && u1 == At(t, 1) && u2 == At(t, 2) && u3 == At(t, 3)
    ensures forall i :: at <= i < c ==> Value(s[i]) != INVALID
    ensures r.Err? ==> c < |s| && r.error == s[c] && Value(s[c]) == INVALID
  {
    u0, u1, u2, u3 := 0, 0, 0, 0;
    FourRests(Symbols(s[at..]));
    var f, c0 := Fetch(s, at);
    if f.Err? { return Err(f.error), u0, u1, u2, u3, c0; }
    u0 := f.value;
    var f1, c1 := Fetch(s, c0);
    if f1.Err? { return Err(f1.error), u0, u1, u2, u3, c1; }
    u1 := f1.value;
    var f2, c2 := Fetch(s, c1);
    if f2.Err? { return Err(f2.error), u0, u1, u2, u3, c2; }
    u2 := f2.value;
    var f3, c3 := Fetch(s, c2);
    if f3.Err? { return Err(f3.error), u0, u1, u2, u3, c3; }
    u3 := f3.value;
    return Ok(()), u0, u1, u2, u3, c3;
  }

  lemma DecodedStep(t: seq<int>)
    ensures Decoded(t) == Quad(At(t, 0), At(t, 1), At(t, 2), At(t, 3)) + Decoded(t[Min(4, |t|)..])
  {
    if t == [] {
      assert Quad(NONE, NONE, NONE, NONE) == [];
      assert t[Min(4, |t|)..] == [];
    }
  }

  /** The octets of a round that are written. */
  method WriteQuad(u0: int, u1: int, u2: int, u3: int) returns (ret: seq<byte>)
    ensures ret == Quad(u0, u1, u2, u3)
  {
    ret := [];
    if u1 != 255 { ret := ret + [First(u0, u1)]; }
    if u2 != 255 { ret := ret + [Second(u1, u2)]; }
    if u3 != 255 { ret := ret + [Third(u2, u3)]; }
  }

  /** A round of the decoder: what it appends, and how far it reads. */
  method DecodeQuad(s: seq<byte>, at: nat) returns (r: Result<seq<byte>, byte>, c: nat)
    requires at < |s|
    ensures at <= c <= |s| && (at < c || r.Err?)
    ensures r.Ok? ==> Decoded(Symbols(s[at..])) == r.value + Decoded(Symbols(s[c..]))
    ensures forall i :: at <= i < c ==> Value(s[i]) != INVALID
    ensures r.Err? ==> c < |s| && r.error == s[c] && Value(s[c]) == INVALID
  {
    DecodedStep(Symbols(s[at..]));
    var ok, u0, u1, u2, u3, next := FetchFour(s, at);
    c := next;
    if ok.Err? {
      return Err(ok.error), c;
    }
    var ret := WriteQuad(u0, u1, u2, u3);
    r := Ok(ret);
  }

  /** `base64_decode`: throws exactly if the input holds an illegal character, and reports the first one. */
  method Base64Decode(input: seq<byte>) returns (r: Result<seq<byte>, byte>)
    ensures r.Ok? <==> Legal(input)
    ensures r.Ok? ==> r.value == Decoded(Symbols(input))
    ensures r.Err? ==> exists i :: 0 <= i < |input| && r.error == input[i] && IsFirstIllegal(input, i)
  {
    var ret: seq<byte> := [];
    var c := 0;
    assert input[0..] == input;
    while c < |input|
      invariant c <= |input|
      invariant Decoded(Symbols(input)) == ret + Decoded(Symbols(input[c..]))
      invariant forall i :: 0 <= i < c ==> Value(input[i]) != INVALID
    {
      var quad, next := DecodeQuad(input, c);
      if quad.Err? {
        assert IsFirstIllegal(input, next);
        return Err(quad.error);
      }
      ConcatAssoc(ret, quad.value, Decoded(Symbols(input[next..])));
      ret := ret + quad.value;
      c := next;
    }
    assert ret + [] == ret;
    return Ok(ret);
  }

  // Encoding

  /** The `k`-th six bits of a triple of octets. */
  function Digit(a: byte, b: byte, c: byte, k: nat): (d: nat)
    requires k < 4
    ensures d < 64
  {
    var u := a * 65536 + b * 256 + c;
    if k == 0 then u / 0x40000 % 64 else if k == 1 then u / 0x1000 % 64 else if k == 2 then u / 64 % 64 else u % 64
  }

  function Letters(a: byte, b: byte, c: byte): (s: seq<byte>)
    ensures |s| == 4
  {
    [Letter(Digit(a, b, c, 0)), Letter(Digit(a, b, c, 1)), Letter(Digit(a, b, c, 2)), Letter(Digit(a, b, c, 3))]
  }

  function Encoded(s: seq<byte>): seq<byte> {
    if |s| >= 3 then Letters(s[0], s[1], s[2]) + Encoded(s[3..])
    else if |s| == 2 then Letters(s[0], s[1], 0)[..3] + [0x3D]
    else if |s| == 1 then Letters(s[0], 0, 0)[..2] + [0x3D, 0x3D]
    else []
  }

  /** The last step of the encoder, for what follows the complete triples. */
  method EncodeTail(input: seq<byte>, s: nat) returns (tail: seq<byte>)
    requires s <= |input| < s + 3
    ensures tail == Encoded(input[s..])
  {
    match |input| - s
    case 2 =>
      var s0: int, s1: int := input[s], input[s + 1];
      var u := s0 * 65536 + s1 * 256;
      return [Letter(u / 0x40000 % 64), Letter(u / 0x1000 % 64), Letter(u / 64 % 64), 0x3D];
    case 1 =>
      var s0: int := input[s];
      var u := s0 * 65536;
      return [Letter(u / 0x40000 % 64), Letter(u / 0x1000 % 64), 0x3D, 0x3D];
    case _ =>
      return [];
  }

  /** `base64_encode`. */
  method Base64Encode(input: seq<byte>) returns (r: seq<byte>)
    ensures r == Encoded(input)
  {
    var ret: seq<byte> := [];
    var triples := |input| / 3;
    var s := 0;
    assert input[0..] == input;
    for q := 0 to triples
      invariant s == 3 * q
      invariant Encoded(input) == ret + Encoded(input[s..])
    {
      assert input[s..][3..] == input[s + 3..];
      ConcatAssoc(ret, Letters(input[s], input[s + 1], input[s + 2]), Encoded(input[s + 3..]));
      ret := ret + Letters(input[s], input[s + 1], input[s + 2]);
      s := s + 3;
    }
    var tail := EncodeTail(input, s);
    return ret + tail;
  }

  // Laws

  /** The bits of a triple, regrouped. */
  lemma Regroup(a: byte, b: byte, c: byte)
    ensures Digit(a, b, c, 0) == a / 4 && Digit(a, b, c, 1) == a % 4 * 16 + b / 16
    ensures Digit(a, b, c, 2) == b % 16 * 4 + c / 64 && Digit(a, b, c, 3) == c % 64
  {
    var d0, d1, d2, d3: int := a / 4, a % 4 * 16 + b / 16, b % 16 * 4 + c / 64, c % 64;
    assert a * 65536 + b * 256 + c == Join(d0, d1, d2, d3);
    JoinSplit(d0, d1, d2, d3);
  }

  lemma OctetsOfDigits(a: byte, b: byte, c: byte)
    ensures First(Digit(a, b, c, 0), Digit(a, b, c, 1)) == a
    ensures Second(Digit(a, b, c, 1), Digit(a, b, c, 2)) == b
    ensures Third(Digit(a, b, c, 2), Digit(a, b, c, 3)) == c
  {
    Regroup(a, b, c);
    FirstOfParts(a / 4, a % 4, b / 16);
    SecondOfParts(a % 4, b / 16, b % 16, c / 64);
    ThirdOfParts(b % 16, c / 64, c % 64);
  }

  lemma KeepLowOctet(x: nat, low: nat)
    requires low < 256
    ensures (x * 256 + low) % 256 == low
  {
  }

  lemma DropLow(h: nat, l: nat)
    ensures l < 4 ==> (h * 4 + l) / 4 == h
    ensures l < 16 ==> (h * 16 + l) / 16 == h
  {
  }

  lemma FirstOfParts(h: nat, l: nat, x: nat)
    requires h < 64 && l < 4 && x < 16
    ensures First(h, l * 16 + x) == h * 4 + l
  {
    DropLow(l, x);
    KeepLowOctet(0, h * 4 + l);
  }

  lemma SecondOfParts(x: nat, h: nat, l: nat, y: nat)
    requires x < 4 && h < 16 && l < 16 && y < 4
    ensures Second(x * 16 + h, l * 4 + y) == h * 16 + l
  {
    DropLow(l, y);
    KeepLowOctet(x, h * 16 + l);
    assert (x * 16 + h) * 16 + l == x * 256 + (h * 16 + l);
  }

  lemma ThirdOfParts(x: nat, h: nat, l: nat)
    requires x < 16 && h < 4 && l < 64
    ensures Third(x * 4 + h, l) == h * 64 + l
  {
    KeepLowOctet(x, h * 64 + l);
    assert (x * 4 + h) * 64 + l == x * 256 + (h * 64 + l);
  }

  lemma TripleUndone(a: byte, b: byte, c: byte)
    ensures Quad(Digit(a, b, c, 0), Digit(a, b, c, 1), Digit(a, b, c, 2), Digit(a, b, c, 3)) == [a, b, c]
    ensures Quad(Digit(a, b, c, 0), Digit(a, b, c, 1), Digit(a, b, c, 2), NONE) == [a, b]
    ensures Quad(Digit(a, b, c, 0), Digit(a, b, c, 1), NONE, NONE) == [a]
  {
    OctetsOfDigits(a, b, c);
  }

  lemma {:induction false} SymbolsConcat(a: seq<byte>, b: seq<byte>)
    ensures Symbols(a + b) == Symbols(a) + Symbols(b)
  {
    if a == [] {
      assert a + b == b;
    } else {
      assert (a + b)[1..] == a[1..] + b;
      SymbolsConcat(a[1..], b);
    }
  }

  lemma SymbolsOfLetters(d0: nat, d1: nat, d2: nat, d3: nat)
    requires d0 < 64 && d1 < 64 && d2 < 64 && d3 < 64
    ensures Symbols([Letter(d0), Letter(d1), Letter(d2), Letter(d3)]) == [d0, d1, d2, d3]
    ensures Symbols([Letter(d0), Letter(d1), Letter(d2), 0x3D]) == [d0, d1, d2, NONE]
    ensures Symbols([Letter(d0), Letter(d1), 0x3D, 0x3D]) == [d0, d1, NONE, NONE]
  {
    ValueInverts(d0);
    ValueInverts(d1);
    ValueInverts(d2);
    ValueInverts(d3);
    FourSymbols(Letter(d0), Letter(d1), Letter(d2), Letter(d3));
    FourSymbols(Letter(d0), Letter(d1), Letter(d2), 0x3D);
    FourSymbols(Letter(d0), Letter(d1), 0x3D, 0x3D);
  }

  lemma FourSymbols(a: byte, b: byte, c: byte, d: byte)
    requires Value(a) != SPACE && Value(b) != SPACE && Value(c) != SPACE && Value(d) != SPACE
    ensures Symbols([a, b, c, d]) ==
            [if Value(a) == EQUALS then NONE else Value(a), if Value(b) == EQUALS then NONE else Value(b),
             if Value(c) == EQUALS then NONE else Value(c), if Value(d) == EQUALS then NONE else Value(d)]
  {
    SymbolsCons(a, [b, c, d]);
    SymbolsCons(b, [c, d]);
    SymbolsCons(c, [d]);
    SymbolsCons(d, []);
    assert [a, b, c, d] == [a] + [b, c, d] && [b, c, d] == [b] + [c, d] && [c, d] == [c] + [d] && [d] == [d] + [];
  }

  lemma SymbolsCons(a: byte, s: seq<byte>)
    requires Value(a) != SPACE
    ensures Symbols([a] + s) == [if Value(a) == EQUALS then NONE else Value(a)] + Symbols(s)
  {
    assert ([a] + s)[1..] == s;
  }

  lemma DecodedQuad(d0: int, d1: int, d2: int, d3: int, t: seq<int>)
    ensures Decoded([d0, d1, d2, d3] + t) == Quad(d0, d1, d2, d3) + Decoded(t)
  {
    DecodedStep([d0, d1, d2, d3] + t);
    assert ([d0, d1, d2, d3] + t)[4..] == t;
  }

  lemma DecodedGroup(a: byte, b: byte, c: byte, t: seq<int>)
    ensures INVALID !in Symbols(Letters(a, b, c)) && Decoded(Symbols(Letters(a, b, c)) + t) == [a, b, c] + Decoded(t)
  {
    var d0, d1, d2, d3 := Digit(a, b, c, 0), Digit(a, b, c, 1), Digit(a, b, c, 2), Digit(a, b, c, 3);
    SymbolsOfLetters(d0, d1, d2, d3);
    DecodedQuad(d0, d1, d2, d3, t);
    TripleUndone(a, b, c);
  }

  lemma DecodedStart(a: byte, b: byte, c: byte, rest: seq<byte>)
    ensures Decoded(Symbols(Letters(a, b, c) + rest)) == [a, b, c] + Decoded(Symbols(rest))
    ensures INVALID in Symbols(Letters(a, b, c) + rest) <==> INVALID in Symbols(rest)
  {
    SymbolsConcat(Letters(a, b, c), rest);
    DecodedGroup(a, b, c, Symbols(rest));
  }

  lemma EncodedTail(a: byte, b: byte)
    ensures Encoded([a]) == [Letter(Digit(a, 0, 0, 0)), Letter(Digit(a, 0, 0, 1)), 0x3D, 0x3D]
    ensures Encoded([a, b]) == [Letter(Digit(a, b, 0, 0)), Letter(Digit(a, b, 0, 1)), Letter(Digit(a, b, 0, 2)), 0x3D]
  {
  }

  lemma DecodedOne(a: byte)
    ensures INVALID !in Symbols(Encoded([a])) && Decoded(Symbols(Encoded([a]))) == [a]
  {
    EncodedTail(a, 0);
    PaddedQuad(Digit(a, 0, 0, 0), Digit(a, 0, 0, 1), Digit(a, 0, 0, 2));
    TripleUndone(a, 0, 0);
  }

  lemma DecodedTwo(a: byte, b: byte)
    ensures INVALID !in Symbols(Encoded([a, b])) && Decoded(Symbols(Encoded([a, b]))) == [a, b]
  {
    EncodedTail(a, b);
    PaddedQuad(Digit(a, b, 0, 0), Digit(a, b, 0, 1), Digit(a, b, 0, 2));
    TripleUndone(a, b, 0);
  }

  lemma PaddedQuad(d0: nat, d1: nat, d2: nat)
    requires d0 < 64 && d1 < 64 && d2 < 64
    ensures Symbols([Letter(d0), Letter(d1), Letter(d2), 0x3D]) == [d0, d1, d2, NONE]
    ensures Symbols([Letter(d0), Letter(d1), 0x3D, 0x3D]) == [d0, d1, NONE, NONE]
    ensures Decoded([d0, d1, d2, NONE]) == Quad(d0, d1, d2, NONE)
    ensures Decoded([d0, d1, NONE, NONE]) == Quad(d0, d1, NONE, NONE)
  {
    SymbolsOfLetters(d0, d1, d2, 0);
    DecodedStep([d0, d1, d2, NONE]);
    DecodedStep([d0, d1, NONE, NONE]);
  }

  /** Decoding undoes encoding, for every octet string. */
  lemma {:induction false} DecodeOfEncode(s: seq<byte>)
    ensures Legal(Encoded(s)) && Decoded(Symbols(Encoded(s))) == s
  {
    if |s| >= 3 {
      DecodeOfEncode(s[3..]);
      LegalSymbols(Encoded(s[3..]));
      DecodedStart(s[0], s[1], s[2], Encoded(s[3..]));
      assert s == [s[0], s[1], s[2]] + s[3..];
    } else if |s| == 2 {
      assert s == [s[0], s[1]];
      DecodedTwo(s[0], s[1]);
    } else if |s| == 1 {
      assert s == [s[0]];
      DecodedOne(s[0]);
    }
    LegalSymbols(Encoded(s));
  }

  /** Padding behind the symbols never matters: a missing symbol is read as padding anyway. */
  lemma {:induction false} PaddingIsIgnored(t: seq<int>)
    ensures Decoded(t + [NONE]) == Decoded(t)
    decreases |t|
  {
    var p := t + [NONE];
    DecodedStep(p);
    DecodedStep(t);
    assert At(p, 0) == At(t, 0) && At(p, 1) == At(t, 1) && At(p, 2) == At(t, 2) && At(p, 3) == At(t, 3);
    if |t| < 4 {
      assert p[Min(4, |p|)..] == t[Min(4, |t|)..] == [];
    } else {
      assert p[4..] == t[4..] + [NONE];
      PaddingIsIgnored(t[4..]);
    }
  }

  /** The input without the padding characters at its end. */
  function Stripped(input: seq<byte>): seq<byte> {
    if input != [] && input[|input| - 1] == 0x3D then Stripped(input[..|input| - 1]) else input
  }

  lemma SymbolsPadded(front: seq<byte>)
    ensures Symbols(front + [0x3D]) == Symbols(front) + [NONE]
  {
    SymbolsConcat(front, [0x3D]);
    assert [0x3D][1..] == [];
    assert Symbols([0x3D]) == [NONE];
  }

  lemma OnePaddingIsIgnored(front: seq<byte>)
    ensures Legal(front + [0x3D]) <==> Legal(front)
    ensures Decoded(Symbols(front + [0x3D])) == Decoded(Symbols(front))
  {
    SymbolsPadded(front);
    PaddingIsIgnored(Symbols(front));
    LegalSymbols(front);
    LegalSymbols(front + [0x3D]);
  }

  /** Stripping the padding changes nothing, whatever the input. */
  lemma {:induction false} StrippedDecodesAlike(input: seq<byte>)
    ensures Legal(Stripped(input)) <==> Legal(input)
    ensures Decoded(Symbols(Stripped(input))) == Decoded(Symbols(input))
    decreases |input|
  {
    if input != [] && input[|input| - 1] == 0x3D {
      var front := input[..|input| - 1];
      assert input == front + [0x3D] && Stripped(input) == Stripped(front);
      OnePaddingIsIgnored(front);
      StrippedDecodesAlike(front);
    }
  }

  lemma SymbolsSkipSpace(a: seq<byte>, c: byte, b: seq<byte>)
    requires Value(c) == SPACE
    ensures Symbols(a + [c] + b) == Symbols(a + b)
  {
    SymbolsConcat(a, b);
    SymbolsConcat(a + [c], b);
    SymbolsConcat(a, [c]);
    assert [c][1..] == [];
    assert Symbols([c]) == [];
    assert Symbols(a) + [] == Symbols(a);
  }

  /** Whitespace may be inserted and removed anywhere. */
  lemma WhitespaceIsIgnored(a: seq<byte>, c: byte, b: seq<byte>)
    requires Value(c) == SPACE
    ensures Legal(a + [c] + b) <==> Legal(a + b)
    ensures Decoded(Symbols(a + [c] + b)) == Decoded(Symbols(a + b))
  {
    SymbolsSkipSpace(a, c, b);
    LegalSymbols(a + [c] + b);
    LegalSymbols(a + b);
  }

  // Which texts are encodings

  predicate AllLetters(s: seq<byte>) {
    forall i :: 0 <= i < |s| ==> Value(s[i]) >= 0
  }

  /** Groups of four letters, the last of which may be padded; then the bits that encode nothing are zero. */
  predicate Canonical(input: seq<byte>) {
    || input == []
    || (|input| >= 4 && AllLetters(input[..4]) && Canonical(input[4..]))
    || (|input| == 4 && AllLetters(input[..3]) && input[3] == 0x3D && Value(input[2]) % 4 == 0)
    || (|input| == 4 && AllLetters(input[..2]) && input[2] == input[3] == 0x3D && Value(input[1]) % 16 == 0)
  }

  lemma OctetsInParts(d0: nat, d1: nat, d2: nat, d3: nat)
    requires d0 < 64 && d1 < 64 && d2 < 64 && d3 < 64
    ensures First(d0, d1) == d0 * 4 + d1 / 16
    ensures Second(d1, d2) == d1 % 16 * 16 + d2 / 4
    ensures Third(d2, d3) == d2 % 4 * 64 + d3
  {
    FirstOfParts(d0, d1 / 16, d1 % 16);
    SecondOfParts(d1 / 16, d1 % 16, d2 / 4, d2 % 4);
    ThirdOfParts(d2 / 4, d2 % 4, d3);
  }

  lemma DigitsOfOctets(d0: nat, d1: nat, d2: nat, d3: nat)
    requires d0 < 64 && d1 < 64 && d2 < 64 && d3 < 64
    ensures var a, b, c := First(d0, d1), Second(d1, d2), Third(d2, d3);
            && Digit(a, b, c, 0) == d0 && Digit(a, b, c, 1) == d1 && Digit(a, b, c, 2) == d2 && Digit(a, b, c, 3) == d3
  {
    OctetsInParts(d0, d1, d2, d3);
    Regroup(d0 * 4 + d1 / 16, d1 % 16 * 16 + d2 / 4, d2 % 4 * 64 + d3);
  }

  lemma DigitsOfFewOctets(d0: nat, d1: nat, d2: nat)
    requires d0 < 64 && d1 < 64 && d2 < 64
    ensures var a, b := First(d0, d1), Second(d1, d2);
            && (d2 % 4 == 0 ==> Digit(a, b, 0, 0) == d0 && Digit(a, b, 0, 1) == d1 && Digit(a, b, 0, 2) == d2)
            && (d1 % 16 == 0 ==> Digit(a, 0, 0, 0) == d0 && Digit(a, 0, 0, 1) == d1)
  {
    OctetsInParts(d0, d1, d2, 0);
    Regroup(d0 * 4 + d1 / 16, d1 % 16 * 16 + d2 / 4, 0);
    Regroup(d0 * 4 + d1 / 16, 0, 0);
  }

  lemma LettersOfQuad(d0: nat, d1: nat, d2: nat, d3: nat, rest: seq<byte>)
    requires d0 < 64 && d1 < 64 && d2 < 64 && d3 < 64
    ensures Encoded(Quad(d0, d1, d2, d3) + rest) == [Letter(d0), Letter(d1), Letter(d2), Letter(d3)] + Encoded(rest)
    ensures d2 % 4 == 0 ==> Encoded(Quad(d0, d1, d2, NONE)) == [Letter(d0), Letter(d1), Letter(d2), 0x3D]
    ensures d1 % 16 == 0 ==> Encoded(Quad(d0, d1, NONE, NONE)) == [Letter(d0), Letter(d1), 0x3D, 0x3D]
  {
    var a, b, c := First(d0, d1), Second(d1, d2), Third(d2, d3);
    DigitsOfOctets(d0, d1, d2, d3);
    DigitsOfFewOctets(d0, d1, d2);
    assert ([a, b, c] + rest)[3..] == rest;
    assert Quad(d0, d1, d2, d3) == [a, b, c] && Quad(d0, d1, d2, NONE) == [a, b] && Quad(d0, d1, NONE, NONE) == [a];
  }

  lemma PaddedIsCanonical(d0: nat, d1: nat, d2: nat)
    requires d0 < 64 && d1 < 64 && d2 < 64
    ensures d2 % 4 == 0 ==> Canonical([Letter(d0), Letter(d1), Letter(d2), 0x3D])
    ensures d1 % 16 == 0 ==> Canonical([Letter(d0), Letter(d1), 0x3D, 0x3D])
  {
    ValueInverts(d0);
    ValueInverts(d1);
    ValueInverts(d2);
  }

  lemma SpareBits(a: byte, b: byte)
    ensures Digit(a, b, 0, 2) % 4 == 0 && Digit(a, 0, 0, 1) % 16 == 0
  {
    Regroup(a, b, 0);
    Regroup(a, 0, 0);
  }

  lemma OneIsCanonical(a: byte)
    ensures Canonical(Encoded([a]))
  {
    EncodedTail(a, 0);
    SpareBits(a, 0);
    PaddedIsCanonical(Digit(a, 0, 0, 0), Digit(a, 0, 0, 1), 0);
  }

  lemma TwoIsCanonical(a: byte, b: byte)
    ensures Canonical(Encoded([a, b]))
  {
    EncodedTail(a, b);
    SpareBits(a, b);
    PaddedIsCanonical(Digit(a, b, 0, 0), Digit(a, b, 0, 1), Digit(a, b, 0, 2));
  }

  lemma {:induction false} EncodingIsCanonical(s: seq<byte>)
    ensures Canonical(Encoded(s))
  {
    if |s| >= 3 {
      EncodingIsCanonical(s[3..]);
      ValuesOfLetters(s[0], s[1], s[2]);
      assert Encoded(s)[..4] == Letters(s[0], s[1], s[2]) && Encoded(s)[4..] == Encoded(s[3..]);
    } else if |s| == 2 {
      assert s == [s[0], s[1]];
      TwoIsCanonical(s[0], s[1]);
    } else if |s| == 1 {
      assert s == [s[0]];
      OneIsCanonical(s[0]);
    }
  }

  lemma ValuesOfLetters(a: byte, b: byte, c: byte)
    ensures AllLetters(Letters(a, b, c))
    ensures forall k: nat :: k < 4 ==> Value(Letters(a, b, c)[k]) == Digit(a, b, c, k)
  {
    forall k: nat | k < 4 ensures Value(Letters(a, b, c)[k]) == Digit(a, b, c, k) {
      ValueInverts(Digit(a, b, c, k));
    }
  }

  lemma CanonicalPadding(a: byte, b: byte, c: byte, d: byte)
    requires Value(a) >= 0 && Value(b) >= 0 && d == 0x3D
    requires (c == 0x3D && Value(b) % 16 == 0) || (Value(c) >= 0 && Value(c) % 4 == 0)
    ensures Encoded(Decoded(Symbols([a, b, c, d]))) == [a, b, c, d]
  {
    var d2 := if c == 0x3D then 0 else Value(c);
    PaddedQuad(Value(a), Value(b), d2);
    LettersOfQuad(Value(a), Value(b), d2, 0, []);
  }

  lemma CanonicalGroup(a: byte, b: byte, c: byte, d: byte, rest: seq<byte>)
    requires Value(a) >= 0 && Value(b) >= 0 && Value(c) >= 0 && Value(d) >= 0
    ensures Encoded(Decoded(Symbols([a, b, c, d] + rest))) == [a, b, c, d] + Encoded(Decoded(Symbols(rest)))
  {
    SymbolsConcat([a, b, c, d], rest);
    SymbolsOfLetters(Value(a), Value(b), Value(c), Value(d));
    DecodedQuad(Value(a), Value(b), Value(c), Value(d), Symbols(rest));
    LettersOfQuad(Value(a), Value(b), Value(c), Value(d), Decoded(Symbols(rest)));
  }

  lemma {:induction false} CanonicalIsEncoding(input: seq<byte>)
    requires Canonical(input)
    ensures Encoded(Decoded(Symbols(input))) == input
  {
    if input != [] {
      assert input == [input[0], input[1], input[2], input[3]] + input[4..];
      assert forall i :: 0 <= i < 4 ==> input[..4][i] == input[i];
      if AllLetters(input[..4]) && Canonical(input[4..]) {
        CanonicalIsEncoding(input[4..]);
        CanonicalGroup(input[0], input[1], input[2], input[3], input[4..]);
      } else {
        assert forall i :: 0 <= i < 2 ==> input[..2][i] == input[i];
        assert forall i :: 0 <= i < 3 ==> input[..3][i] == input[i];
        assert input == [input[0], input[1], input[2], input[3]];
        CanonicalPadding(input[0], input[1], input[2], input[3]);
      }
    }
  }

  /**
   Encoding undoes decoding exactly on the canonical texts.  The decoder accepts more: missing padding,
   padding inside, single left-over symbols and left-over bits of any value.
   */
  lemma EncodeOfDecodeIff(input: seq<byte>)
    ensures Encoded(Decoded(Symbols(input))) == input <==> Canonical(input)
  {
    EncodingIsCanonical(Decoded(Symbols(input)));
    if Canonical(input) {
      CanonicalIsEncoding(input);
    }
  }

  /** "AA" without padding decodes to a zero octet, whose encoding is "AA==". */
  lemma SampleNotCanonical()
    ensures Decoded(Symbols([0x41, 0x41])) == [0] && Encoded([0]) == [0x41, 0x41, 0x3D, 0x3D]
  {
    EncodedTail(0, 0);
    Regroup(0, 0, 0);
    DecodedOne(0);
    OnePaddingIsIgnored([0x41, 0x41]);
    OnePaddingIsIgnored([0x41, 0x41, 0x3D]);
    assert [0x41, 0x41] + [0x3D] == [0x41, 0x41, 0x3D] && [0x41, 0x41, 0x3D] + [0x3D] == [0x41, 0x41, 0x3D, 0x3D];
  }

  /** A padding character in front of symbols that are written counts like the last letter of the alphabet. */
  lemma PaddingInside(u: int)
    requires 0 <= u < 64
    ensures First(NONE, u) == First(63, u) && Second(NONE, u) == Second(63, u) && Third(NONE, u) == Third(63, u)
    ensures First(63, u) == 252 + u / 16 && Second(63, u) == 240 + u / 4 && Third(63, u) == 192 + u
  {
  }

  /** The characters that are skipped, and the padding character. */
  lemma SkippedSpelled(c: byte)
    ensures Value(c) == SPACE <==> c in {' ' as int, '\t' as int, '\n' as int, '\r' as int, 0x0C}
    ensures Value(c) == EQUALS <==> c == '=' as int
    ensures Value(c) == INVALID <==> c !in {' ' as int, '\t' as int, '\n' as int, '\r' as int, 0x0C, '=' as int} && forall d :: 0 <= d < 64 ==> c != Letter(d)
  {
    assert Value(c) >= 0 ==> c == Letter(Value(c));
    assert Value(c) < 0 ==> forall d :: 0 <= d < 64 ==> c != Letter(d);
  }

  /** Test vectors of RFC 4648, section 10. */
  lemma SampleFoobar(s: seq<byte>)
    ensures IsText(s, "foobar") ==> IsText(Encoded(s), "Zm9vYmFy")
    ensures IsText(s, "fooba") ==> IsText(Encoded(s), "Zm9vYmE=")
    ensures IsText(s, "foob") ==> IsText(Encoded(s), "Zm9vYg==")
  {
    if |s| >= 4 && s[0] == 0x66 && s[1] == s[2] == 0x6F {
      var rest := s[3..];
      assert s == [0x66, 0x6F, 0x6F] + rest;
      assert Letters(0x66, 0x6F, 0x6F) == [0x5A, 0x6D, 0x39, 0x76];
      SampleBar(rest);
    }
  }

  lemma SampleBar(s: seq<byte>)
    ensures IsText(s, "bar") ==> Encoded(s) == [0x59, 0x6D, 0x46, 0x79]
    ensures IsText(s, "ba") ==> Encoded(s) == [0x59, 0x6D, 0x45, 0x3D]
    ensures IsText(s, "b") ==> Encoded(s) == [0x59, 0x67, 0x3D, 0x3D]
  {
    if |s| == 3 {
      assert s[3..] == [] && Letters(0x62, 0x61, 0x72) == [0x59, 0x6D, 0x46, 0x79];
    } else {
      assert Letters(0x62, 0x61, 0) == [0x59, 0x6D, 0x45, 0x41] && Letters(0x62, 0, 0) == [0x59, 0x67, 0x41, 0x41];
    }
  }
}
