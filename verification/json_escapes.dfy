/**
 What the escapes of JSON strings stand for (RFC 8259 section 7, and the extensions of
 server/json_spirit/json_spirit_reader_template.h:95-186), spelled out, apart from the way they are read and written.
 */
module JsonEscapes {
  import opened Wrappers
  import opened Utf8
  import opened JsonStrings

  const LOWER: string := "0123456789abcdef"
  const UPPER: string := "0123456789ABCDEF"

  /** `c` is the hexadecimal digit for `d`, in either case. */
  predicate IsHexDigit(c: byte, d: nat) {
    d < 16 && (c == LOWER[d] as int || c == UPPER[d] as int)
  }

  predicate IsHex(c: byte) {
    exists d :: 0 <= d < 16 && IsHexDigit(c, d)
  }

  predicate AllHex(h: seq<byte>) {
    forall i :: 0 <= i < |h| ==> IsHex(h[i])
  }

  /** Four digits that spell `n`, the most significant one first. */
  predicate IsUnit(h: seq<byte>, n: nat) {
    && |h| == 4 && n <= 0xFFFF
    && IsHexDigit(h[0], n / 0x1000) && IsHexDigit(h[1], n / 0x100 % 0x10)
    && IsHexDigit(h[2], n / 0x10 % 0x10) && IsHexDigit(h[3], n % 0x10)
  }

  /** The letter behind the backslash, and the octet that the two stand for. */
  predicate IsShortEscape(c: byte, x: byte) {
    || (c == '\"' as int && x == 0x22) || (c == '\\' as int && x == 0x5C) || (c == '/' as int && x == 0x2F)
    || (c == 'b' as int && x == 0x08) || (c == 'f' as int && x == 0x0C) || (c == 'n' as int && x == 0x0A)
    || (c == 'r' as int && x == 0x0D) || (c == 't' as int && x == 0x09)
  }

  predicate BeginsEscape(s: seq<byte>, letter: char) {
    |s| >= 2 && s[0] == '\\' as int && s[1] == letter as int
  }

  predicate IsHighSurrogate(n: nat) {
    0xD800 <= n <= 0xDBFF
  }

  predicate IsLowSurrogate(n: nat) {
    0xDC00 <= n <= 0xDFFF
  }

  predicate IsShort(e: seq<byte>, text: seq<byte>) {
    |e| == 2 && e[0] == '\\' as int && |text| == 1 && IsShortEscape(e[1], text[0])
  }

  /** The extension `\xHH`: one octet. */
  predicate IsOctet(e: seq<byte>, text: seq<byte>) {
    |e| == 4 && BeginsEscape(e, 'x') && |text| == 1 && IsHexDigit(e[2], text[0] / 0x10) && IsHexDigit(e[3], text[0] % 0x10)
  }

  predicate IsCharacter(e: seq<byte>, n: nat) {
    |e| == 6 && BeginsEscape(e, 'u') && IsUnit(e[2..], n) && !IsHighSurrogate(n) && !IsLowSurrogate(n)
  }

  predicate IsSurrogatePair(e: seq<byte>, high: nat, low: nat) {
    && |e| == 12 && BeginsEscape(e, 'u') && IsUnit(e[2..6], high) && IsHighSurrogate(high)
    && BeginsEscape(e[6..], 'u') && IsUnit(e[8..], low) && IsLowSurrogate(low)
  }

  /** One whole escape, backslash included, and the text that it stands for. */
  ghost predicate IsEscapeFor(e: seq<byte>, text: seq<byte>) {
    || IsShort(e, text)
    || IsOctet(e, text)
    || (exists n: nat :: IsCharacter(e, n) && text == Encode(n))
    || (exists high: nat, low: nat ::
          IsSurrogatePair(e, high, low) && text == Encode(0x10000 + (high - 0xD800) * 0x400 + (low - 0xDC00)))
  }

  /** `\x` with fewer than two characters behind it stands for nothing. */
  predicate IsCutOctet(s: seq<byte>) {
    BeginsEscape(s, 'x') && |s| < 4
  }

  /** The text inside the quotes, and what it stands for; a character in the last place always stands for itself. */
  ghost predicate StandsFor(s: seq<byte>, text: seq<byte>)
    decreases |s|
  {
    if |s| <= 1 then text == s
    else if s[0] != '\\' as int then text != [] && text[0] == s[0] && StandsFor(s[1..], text[1..])
    else if IsCutOctet(s) then StandsFor(s[2..], text)
    else exists n: nat, k: nat :: EscapeIn(s, n, text, k) && StandsFor(s[n..], text[k..])
  }

  /** The first `n` characters of `s` are an escape for the first `k` octets of the text. */
  ghost predicate EscapeIn(s: seq<byte>, n: nat, text: seq<byte>, k: nat) {
    0 < n <= |s| && k <= |text| && IsEscapeFor(s[..n], text[..k])
  }

  /** What is wrong with the escape that `s` begins with. */
  ghost predicate IsFaultOf(s: seq<byte>, f: EscapeFault) {
    && |s| >= 2 && s[0] == '\\' as int
    && match f
       case UnknownEscape => s[1] !in {0x22, 0x5C, 0x2F, 0x62, 0x66, 0x6E, 0x72, 0x74, 0x75, 0x78}
       case ShortUnicode => s[1] == 'u' as int && |s| < 6
       case NotHex =>
         || (s[1] == 'x' as int && |s| >= 4 && !AllHex(s[2..4]))
         || (s[1] == 'u' as int && |s| >= 6 && !AllHex(s[2..6]))
         || (HighFirst(s) && PairNext(s) && !AllHex(s[8..12]))
       case MissingLowSurrogate => HighFirst(s) && (!PairNext(s) || exists n: nat :: IsUnit(s[8..12], n) && !IsLowSurrogate(n))
       case UnexpectedLowSurrogate => s[1] == 'u' as int && |s| >= 6 && exists n: nat :: IsUnit(s[2..6], n) && IsLowSurrogate(n)
  }

  ghost predicate HighFirst(s: seq<byte>) {
    BeginsEscape(s, 'u') && |s| >= 6 && exists n: nat :: IsUnit(s[2..6], n) && IsHighSurrogate(n)
  }

  predicate PairNext(s: seq<byte>) {
    |s| >= 12 && BeginsEscape(s[6..], 'u')
  }

  /** The first escape of the text that is at fault. */
  ghost predicate IsFaulty(s: seq<byte>, f: EscapeFault)
    decreases |s|
  {
    if |s| <= 1 then false
    else if s[0] != '\\' as int then IsFaulty(s[1..], f)
    else if IsCutOctet(s) then IsFaulty(s[2..], f)
    else IsFaultOf(s, f) || exists n: nat, text: seq<byte> :: EscapeIn(s, n, text, |text|) && IsFaulty(s[n..], f)
  }

  // Digits

  lemma HexValueIff(c: byte)
    ensures forall d :: 0 <= d < 16 ==> (IsHexDigit(c, d) <==> HexValue(c) == Ok(d))
    ensures HexValue(c).Err? <==> !IsHex(c)
    ensures HexValue(c).Err? ==> HexValue(c).error == NotHex
  {
    LowerDigits();
    UpperDigits();
    assert HexValue(c).Ok? ==> IsHexDigit(c, HexValue(c).value);
  }

  lemma LowerDigits()
    ensures forall d :: 0 <= d < 16 ==> LOWER[d] as int == if d < 10 then 0x30 + d else 0x57 + d
  {
  }

  lemma UpperDigits()
    ensures forall d :: 0 <= d < 16 ==> UPPER[d] as int == if d < 10 then 0x30 + d else 0x37 + d
  {
  }

  /** The digits that are written are the upper-case ones. */
  lemma HexCharSpelled(d: nat)
    requires d < 16
    ensures HexChar(d) == UPPER[d] as int
  {
    UpperDigits();
  }

  lemma DigitsOfUnit(a: nat, b: nat, c: nat, d: nat)
    requires a < 16 && b < 16 && c < 16 && d < 16
    ensures var n := a * 0x1000 + b * 0x100 + c * 0x10 + d;
            n <= 0xFFFF && n / 0x1000 == a && n / 0x100 % 0x10 == b && n / 0x10 % 0x10 == c && n % 0x10 == d
  {
    var n := a * 0x1000 + b * 0x100 + c * 0x10 + d;
    assert n / 0x10 == a * 0x100 + b * 0x10 + c && n % 0x10 == d;
    assert n / 0x100 == a * 0x10 + b;
  }

  lemma UnitOfDigits(n: nat)
    requires n <= 0xFFFF
    ensures n == n / 0x1000 * 0x1000 + n / 0x100 % 0x10 * 0x100 + n / 0x10 % 0x10 * 0x10 + n % 0x10
  {
    assert n / 0x100 == n / 0x10 / 0x10 && n / 0x1000 == n / 0x100 / 0x10;
  }

  lemma Hex4Iff(h: seq<byte>, n: nat)
    requires |h| == 4
    ensures IsUnit(h, n) <==> Hex4(h[0], h[1], h[2], h[3]) == Ok(n)
  {
    forall i | 0 <= i < 4
      ensures forall d :: 0 <= d < 16 ==> (IsHexDigit(h[i], d) <==> HexValue(h[i]) == Ok(d))
    {
      HexValueIff(h[i]);
    }
    var v := Hex4(h[0], h[1], h[2], h[3]);
    if v.Ok? {
      UnitIff(HexValue(h[0]).value, HexValue(h[1]).value, HexValue(h[2]).value, HexValue(h[3]).value, n);
    }
  }

  lemma UnitIff(a: nat, b: nat, c: nat, d: nat, n: nat)
    requires a < 16 && b < 16 && c < 16 && d < 16
    ensures n == a * 0x1000 + b * 0x100 + c * 0x10 + d <==>
            n <= 0xFFFF && n / 0x1000 == a && n / 0x100 % 0x10 == b && n / 0x10 % 0x10 == c && n % 0x10 == d
  {
    DigitsOfUnit(a, b, c, d);
    if n <= 0xFFFF { UnitOfDigits(n); }
  }

  lemma Hex4FailsIff(h: seq<byte>)
    requires |h| == 4
    ensures Hex4(h[0], h[1], h[2], h[3]).Err? <==> !AllHex(h)
    ensures Hex4(h[0], h[1], h[2], h[3]).Err? ==> Hex4(h[0], h[1], h[2], h[3]) == Err(NotHex)
  {
    forall i | 0 <= i < 4 ensures HexValue(h[i]).Err? <==> !IsHex(h[i]) {
      HexValueIff(h[i]);
    }
  }

  // One escape

  /** `r` is what the escape in front of `s` stands for, or what is wrong with it, and there is no other answer. */
  ghost predicate IsReading(s: seq<byte>, r: Result<Piece, EscapeFault>) {
    match r
    case Ok(p) =>
      && 1 + p.length <= |s| && IsEscapeFor(s[..1 + p.length], p.text)
      && (forall n: nat, text: seq<byte> :: n <= |s| && IsEscapeFor(s[..n], text) ==> n == 1 + p.length && text == p.text)
      && (forall f :: !IsFaultOf(s, f))
    case Err(f) =>
      && IsFaultOf(s, f) && (forall f' :: IsFaultOf(s, f') ==> f' == f)
      && (forall n: nat, text: seq<byte> :: n <= |s| ==> !IsEscapeFor(s[..n], text))
  }

  lemma ShortRead(s: seq<byte>)
    requires |s| >= 2 && s[0] == BACKSLASH && s[1] != LETTER_U && s[1] != 0x78
    ensures IsReading(s, AfterBackslash(s[1..]))
  {
    var r := AfterBackslash(s[1..]);
    if r.Ok? {
      assert IsShort(s[..2], r.value.text);
    }
    forall n: nat, text: seq<byte> | n <= |s| && IsEscapeFor(s[..n], text) ensures n == 2 && IsShort(s[..2], text) {
      assert s[..n][1] == s[1];
    }
  }

  /** Two digits and the octet that they spell. */
  lemma OctetIff(a: byte, b: byte, x: byte)
    ensures IsHexDigit(a, x / 0x10) && IsHexDigit(b, x % 0x10) <==>
            HexValue(a).Ok? && HexValue(b).Ok? && x == HexValue(a).value * 0x10 + HexValue(b).value
  {
    HexValueIff(a);
    HexValueIff(b);
    if HexValue(a).Ok? && HexValue(b).Ok? {
      TwoDigits(HexValue(a).value, HexValue(b).value, x);
    }
  }

  lemma TwoDigits(a: nat, b: nat, x: nat)
    requires a < 16 && b < 16
    ensures x == a * 0x10 + b <==> x / 0x10 == a && x % 0x10 == b
  {
  }

  lemma OctetKind(s: seq<byte>, n: nat, text: seq<byte>)
    requires BeginsEscape(s, 'x') && n <= |s| && IsEscapeFor(s[..n], text)
    ensures n == 4 && |text| == 1 && IsHexDigit(s[2], text[0] / 0x10) && IsHexDigit(s[3], text[0] % 0x10)
  {
    assert s[..n][1] == s[1];
  }

  lemma OctetRead(s: seq<byte>) returns (r: Result<Piece, EscapeFault>)
    requires BeginsEscape(s, 'x') && !IsCutOctet(s)
    ensures r == AfterBackslash(s[1..]) && IsReading(s, r)
  {
    OctetParts(s);
    if AllHex(s[2..4]) {
      var x := HexValue(s[2]).value * 0x10 + HexValue(s[3]).value;
      OctetDigitsRead(s, x);
      r := Ok(Piece([x], 3));
    } else {
      NoOctetRead(s);
      r := Err(NotHex);
    }
  }

  lemma NoOctetRead(s: seq<byte>)
    requires BeginsEscape(s, 'x') && !IsCutOctet(s) && !AllHex(s[2..4])
    ensures IsReading(s, Err(NotHex))
  {
    forall n: nat, text: seq<byte> | n <= |s| ensures !IsEscapeFor(s[..n], text) {
      if IsEscapeFor(s[..n], text) {
        OctetKind(s, n, text);
        assert IsHex(s[2]) && IsHex(s[3]);
      }
    }
  }

  lemma OctetDigitsRead(s: seq<byte>, x: byte)
    requires BeginsEscape(s, 'x') && !IsCutOctet(s) && AllHex(s[2..4])
    requires HexValue(s[2]).Ok? && HexValue(s[3]).Ok? && x == HexValue(s[2]).value * 0x10 + HexValue(s[3]).value
    ensures IsReading(s, Ok(Piece([x], 3)))
  {
    OctetIff(s[2], s[3], x);
    assert IsOctet(s[..4], [x]);
    forall n: nat, text: seq<byte> | n <= |s| && IsEscapeFor(s[..n], text) ensures n == 4 && text == [x] {
      OctetIsUnique(s, n, text, x);
    }
  }

  lemma OctetIsUnique(s: seq<byte>, n: nat, text: seq<byte>, x: byte)
    requires BeginsEscape(s, 'x') && n <= |s| && IsEscapeFor(s[..n], text) && 4 <= |s|
    requires HexValue(s[2]).Ok? && HexValue(s[3]).Ok? && x == HexValue(s[2]).value * 0x10 + HexValue(s[3]).value
    ensures n == 4 && text == [x]
  {
    OctetKind(s, n, text);
    OctetIff(s[2], s[3], text[0]);
  }

  lemma OctetParts(s: seq<byte>)
    requires BeginsEscape(s, 'x') && !IsCutOctet(s)
    ensures var r := AfterBackslash(s[1..]);
            if HexValue(s[2]).Ok? && HexValue(s[3]).Ok?
            then r == Ok(Piece([HexValue(s[2]).value * 0x10 + HexValue(s[3]).value], 3)) && AllHex(s[2..4])
            else r == Err(NotHex) && !AllHex(s[2..4])
  {
    HexValueIff(s[2]);
    HexValueIff(s[3]);
    assert s[2..4] == [s[2], s[3]];
  }

  /** What an escape that begins with `\u` can be. */
  lemma UnicodeKinds(s: seq<byte>, n: nat, text: seq<byte>)
    requires BeginsEscape(s, 'u') && n <= |s| && IsEscapeFor(s[..n], text)
    ensures || (n == 6 && exists c: nat :: IsCharacter(s[..6], c) && text == Encode(c))
            || (n == 12 && exists high: nat, low: nat ::
                  IsSurrogatePair(s[..12], high, low) && text == Encode(0x10000 + (high - 0xD800) * 0x400 + (low - 0xDC00)))
  {
    assert s[..n][1] == s[1];
  }

  lemma UnitIsUnique(h: seq<byte>, n: nat, n': nat)
    requires IsUnit(h, n) && IsUnit(h, n')
    ensures n == n'
  {
    Hex4Iff(h, n);
    Hex4Iff(h, n');
  }

  /** Without four digits behind it there is no escape. */
  lemma CutRead(s: seq<byte>)
    requires BeginsEscape(s, 'u') && |s| < 6
    ensures IsReading(s, Err(ShortUnicode))
  {
    forall n: nat, text: seq<byte> | n <= |s| ensures !IsEscapeFor(s[..n], text) {
      if IsEscapeFor(s[..n], text) { UnicodeKinds(s, n, text); }
    }
  }

  lemma UnitsOf(s: seq<byte>)
    requires |s| >= 6
    ensures s[..6][2..] == s[2..6]
    ensures |s| >= 12 ==> s[..12][2..6] == s[2..6] && s[..12][8..] == s[8..12] && s[..12][6..][0] == s[6] && s[..12][6..][1] == s[7]
  {
  }

  lemma NoDigitsRead(s: seq<byte>)
    requires BeginsEscape(s, 'u') && |s| >= 6 && !AllHex(s[2..6])
    ensures IsReading(s, Err(NotHex))
  {
    UnitsOf(s);
    forall c: nat ensures !IsUnit(s[2..6], c) { NoDigitsNoUnit(s[2..6], c); }
    forall n: nat, text: seq<byte> | n <= |s| ensures !IsEscapeFor(s[..n], text) {
      if IsEscapeFor(s[..n], text) { UnicodeKinds(s, n, text); }
    }
  }

  lemma NoDigitsNoUnit(h: seq<byte>, c: nat)
    requires |h| == 4 && !AllHex(h)
    ensures !IsUnit(h, c)
  {
    Hex4FailsIff(h);
    Hex4Iff(h, c);
  }

  lemma UnitHasDigits(h: seq<byte>, c: nat)
    requires IsUnit(h, c)
    ensures AllHex(h)
  {
    if !AllHex(h) { NoDigitsNoUnit(h, c); }
  }

  lemma CharacterRead(s: seq<byte>, c: nat)
    requires BeginsEscape(s, 'u') && |s| >= 6 && IsUnit(s[2..6], c) && !IsHighSurrogate(c) && !IsLowSurrogate(c)
    ensures IsReading(s, Ok(Piece(Encode(c), 5)))
  {
    UnitsOf(s);
    UnitHasDigits(s[2..6], c);
    forall d: nat | IsUnit(s[2..6], d) ensures d == c { UnitIsUnique(s[2..6], c, d); }
    assert IsCharacter(s[..6], c);
    forall n: nat, text: seq<byte> | n <= |s| && IsEscapeFor(s[..n], text) ensures n == 6 && text == Encode(c) {
      UnicodeKinds(s, n, text);
    }
  }

  lemma LowRead(s: seq<byte>, c: nat)
    requires BeginsEscape(s, 'u') && |s| >= 6 && IsUnit(s[2..6], c) && IsLowSurrogate(c)
    ensures IsReading(s, Err(UnexpectedLowSurrogate))
  {
    UnitsOf(s);
    UnitHasDigits(s[2..6], c);
    forall d: nat | IsUnit(s[2..6], d) ensures d == c { UnitIsUnique(s[2..6], c, d); }
    forall n: nat, text: seq<byte> | n <= |s| ensures !IsEscapeFor(s[..n], text) {
      if IsEscapeFor(s[..n], text) { UnicodeKinds(s, n, text); }
    }
  }

  /** A high surrogate needs the second escape behind it. */
  lemma NoPairRead(s: seq<byte>, high: nat)
    requires BeginsEscape(s, 'u') && |s| >= 6 && IsUnit(s[2..6], high) && IsHighSurrogate(high) && !PairNext(s)
    ensures IsReading(s, Err(MissingLowSurrogate))
  {
    UnitsOf(s);
    UnitHasDigits(s[2..6], high);
    forall d: nat | IsUnit(s[2..6], d) ensures d == high { UnitIsUnique(s[2..6], high, d); }
    forall n: nat, text: seq<byte> | n <= |s| ensures !IsEscapeFor(s[..n], text) {
      if IsEscapeFor(s[..n], text) { UnicodeKinds(s, n, text); }
    }
  }

  lemma NoSecondRead(s: seq<byte>, high: nat)
    requires BeginsEscape(s, 'u') && |s| >= 6 && IsUnit(s[2..6], high) && IsHighSurrogate(high)
    requires PairNext(s) && !AllHex(s[8..12])
    ensures IsReading(s, Err(NotHex))
  {
    UnitsOf(s);
    UnitHasDigits(s[2..6], high);
    forall d: nat | IsUnit(s[2..6], d) ensures d == high { UnitIsUnique(s[2..6], high, d); }
    forall c: nat ensures !IsUnit(s[8..12], c) { NoDigitsNoUnit(s[8..12], c); }
    forall n: nat, text: seq<byte> | n <= |s| ensures !IsEscapeFor(s[..n], text) {
      if IsEscapeFor(s[..n], text) { UnicodeKinds(s, n, text); }
    }
  }

  function PairReading(high: nat, low: nat): Result<Piece, EscapeFault>
    requires IsHighSurrogate(high)
  {
    if IsLowSurrogate(low) then Ok(Piece(Encode(0x10000 + (high - 0xD800) * 0x400 + (low - 0xDC00)), 11))
    else Err(MissingLowSurrogate)
  }

  lemma PairRead(s: seq<byte>, high: nat, low: nat) returns (r: Result<Piece, EscapeFault>)
    requires BeginsEscape(s, 'u') && PairNext(s) && IsUnit(s[2..6], high) && IsHighSurrogate(high) && IsUnit(s[8..12], low)
    ensures r == PairReading(high, low) && IsReading(s, r)
  {
    PairFaults(s, high, low);
    forall n: nat, text: seq<byte> | n <= |s| && IsEscapeFor(s[..n], text)
      ensures IsLowSurrogate(low) && n == 12 && text == Encode(0x10000 + (high - 0xD800) * 0x400 + (low - 0xDC00))
    {
      PairKind(s, high, low, n, text);
    }
    if IsLowSurrogate(low) {
      UnitsOf(s);
      assert IsSurrogatePair(s[..12], high, low);
    }
    r := PairReading(high, low);
  }

  lemma PairKind(s: seq<byte>, high: nat, low: nat, n: nat, text: seq<byte>)
    requires BeginsEscape(s, 'u') && PairNext(s) && IsUnit(s[2..6], high) && IsHighSurrogate(high) && IsUnit(s[8..12], low)
    requires n <= |s| && IsEscapeFor(s[..n], text)
    ensures IsLowSurrogate(low) && n == 12 && text == Encode(0x10000 + (high - 0xD800) * 0x400 + (low - 0xDC00))
  {
    UnitsOf(s);
    UnicodeKinds(s, n, text);
    forall d: nat | IsUnit(s[2..6], d) ensures d == high { UnitIsUnique(s[2..6], high, d); }
    forall d: nat | IsUnit(s[8..12], d) ensures d == low { UnitIsUnique(s[8..12], low, d); }
  }

  lemma PairFaults(s: seq<byte>, high: nat, low: nat)
    requires BeginsEscape(s, 'u') && PairNext(s) && IsUnit(s[2..6], high) && IsHighSurrogate(high) && IsUnit(s[8..12], low)
    ensures forall f :: IsFaultOf(s, f) <==> f == MissingLowSurrogate && !IsLowSurrogate(low)
  {
    UnitHasDigits(s[2..6], high);
    UnitHasDigits(s[8..12], low);
    forall d: nat | IsUnit(s[2..6], d) ensures d == high { UnitIsUnique(s[2..6], high, d); }
    forall d: nat | IsUnit(s[8..12], d) ensures d == low { UnitIsUnique(s[8..12], low, d); }
  }

  lemma UnicodeRead(s: seq<byte>) returns (r: Result<Piece, EscapeFault>)
    requires BeginsEscape(s, 'u')
    ensures r == AfterBackslash(s[1..]) && IsReading(s, r)
  {
    var t := s[1..];
    if |s| < 6 {
      CutRead(s);
      r := Err(ShortUnicode);
    } else {
      var v := Hex4(t[1], t[2], t[3], t[4]);
      Hex4FailsIff(s[2..6]);
      if v.Err? {
        NoDigitsRead(s);
        r := Err(NotHex);
      } else {
        Hex4Iff(s[2..6], v.value);
        r := UnitRead(s, v.value);
      }
    }
  }

  lemma UnitRead(s: seq<byte>, c: nat) returns (r: Result<Piece, EscapeFault>)
    requires BeginsEscape(s, 'u') && |s| >= 6 && IsUnit(s[2..6], c) && Hex4(s[2], s[3], s[4], s[5]) == Ok(c)
    ensures r == UnicodeEscape(s[1..]) && IsReading(s, r)
  {
    if IsHighSurrogate(c) {
      r := SurrogateRead(s, c);
    } else if IsLowSurrogate(c) {
      LowRead(s, c);
      r := Err(UnexpectedLowSurrogate);
    } else {
      CharacterRead(s, c);
      r := Ok(Piece(Encode(c), 5));
    }
  }

  lemma NoPairParts(s: seq<byte>, high: nat)
    requires BeginsEscape(s, 'u') && |s| >= 6 && IsHighSurrogate(high) && !PairNext(s)
    ensures LowSurrogate(high, s[1..]) == Err(MissingLowSurrogate)
  {
  }

  lemma NoDigitsParts(s: seq<byte>, high: nat)
    requires BeginsEscape(s, 'u') && IsHighSurrogate(high) && PairNext(s) && Hex4(s[8], s[9], s[10], s[11]) == Err(NotHex)
    ensures LowSurrogate(high, s[1..]) == Err(NotHex)
  {
  }

  lemma PairParts(s: seq<byte>, high: nat, low: nat)
    requires BeginsEscape(s, 'u') && IsHighSurrogate(high) && PairNext(s) && Hex4(s[8], s[9], s[10], s[11]) == Ok(low)
    ensures LowSurrogate(high, s[1..]) == PairReading(high, low)
  {
  }

  lemma SurrogateRead(s: seq<byte>, high: nat) returns (r: Result<Piece, EscapeFault>)
    requires BeginsEscape(s, 'u') && |s| >= 6 && IsUnit(s[2..6], high) && IsHighSurrogate(high)
    ensures r == LowSurrogate(high, s[1..]) && IsReading(s, r)
  {
    if !PairNext(s) {
      NoPairParts(s, high);
      NoPairRead(s, high);
      r := Err(MissingLowSurrogate);
    } else {
      r := SecondRead(s, high, Hex4(s[8], s[9], s[10], s[11]));
    }
  }

  lemma SecondRead(s: seq<byte>, high: nat, v: Result<nat, EscapeFault>) returns (r: Result<Piece, EscapeFault>)
    requires BeginsEscape(s, 'u') && |s| >= 6 && IsUnit(s[2..6], high) && IsHighSurrogate(high)
    requires PairNext(s) && v == Hex4(s[8], s[9], s[10], s[11])
    ensures r == LowSurrogate(high, s[1..]) && IsReading(s, r)
  {
    SecondUnit(s);
    if v.Err? {
      NoDigitsParts(s, high);
      NoSecondRead(s, high);
      r := Err(NotHex);
    } else {
      PairParts(s, high, v.value);
      r := PairRead(s, high, v.value);
    }
  }

  lemma SecondUnit(s: seq<byte>)
    requires |s| >= 12
    ensures match Hex4(s[8], s[9], s[10], s[11])
            case Err(f) => f == NotHex && !AllHex(s[8..12])
            case Ok(low) => IsUnit(s[8..12], low)
  {
    var h := s[8..12];
    var v := Hex4(h[0], h[1], h[2], h[3]);
    assert h[0] == s[8] && h[1] == s[9] && h[2] == s[10] && h[3] == s[11];
    Hex4FailsIff(h);
    if v.Ok? { Hex4Iff(h, v.value); }
  }

  /** The program reads every escape as what it stands for, and reports what is wrong with it. */
  lemma EscapeIsRead(s: seq<byte>) returns (r: Result<Piece, EscapeFault>)
    requires |s| >= 2 && s[0] == BACKSLASH && !IsCutOctet(s)
    ensures r == AfterBackslash(s[1..]) && IsReading(s, r)
  {
    if s[1] == LETTER_U {
      r := UnicodeRead(s);
    } else if s[1] == 0x78 {
      r := OctetRead(s);
    } else {
      r := AfterBackslash(s[1..]);
      ShortRead(s);
    }
  }

  // The whole text

  lemma {:induction false} UnescapeStandsFor(s: seq<byte>)
    ensures match Unescape(s)
            case Ok(text) => StandsFor(s, text)
            case Err(f) => IsFaulty(s, f)
    decreases |s|
  {
    if |s| >= 2 {
      if s[0] != BACKSLASH {
        UnescapeStandsFor(s[1..]);
        if Unescape(s[1..]).Ok? {
          assert ([s[0]] + Unescape(s[1..]).value)[1..] == Unescape(s[1..]).value;
        }
      } else if IsCutOctet(s) {
        CutOctetIsPassed(s);
        UnescapeStandsFor(s[2..]);
      } else {
        var r := EscapeIsRead(s);
        if r.Ok? {
          EscapePrepended(s, r.value);
          UnescapeStandsFor(s[1 + r.value.length..]);
        }
      }
    }
  }

  lemma CutOctetIsPassed(s: seq<byte>)
    requires IsCutOctet(s)
    ensures Unescape(s) == Unescape(s[2..])
  {
    assert s[1..][0] == 0x78;
    PrependNothing(Unescape(s[2..]));
  }

  lemma EscapePrepended(s: seq<byte>, p: Piece)
    requires |s| >= 2 && s[0] == BACKSLASH && !IsCutOctet(s) && AfterBackslash(s[1..]) == Ok(p) && IsReading(s, Ok(p))
    ensures Unescape(s) == Prepend(p.text, Unescape(s[1 + p.length..]))
    ensures forall rest :: StandsFor(s[1 + p.length..], rest) ==> StandsFor(s, p.text + rest)
    ensures forall f :: IsFaulty(s[1 + p.length..], f) ==> IsFaulty(s, f)
  {
    var n := 1 + p.length;
    forall rest | StandsFor(s[n..], rest) ensures StandsFor(s, p.text + rest) {
      assert (p.text + rest)[..|p.text|] == p.text && (p.text + rest)[|p.text|..] == rest;
      assert EscapeIn(s, n, p.text + rest, |p.text|);
    }
    assert p.text[..|p.text|] == p.text;
    assert EscapeIn(s, n, p.text, |p.text|);
  }

  lemma EscapeInFront(s: seq<byte>, text: seq<byte>) returns (p: Piece, rest: seq<byte>)
    requires |s| >= 2 && s[0] == BACKSLASH && !IsCutOctet(s) && StandsFor(s, text)
    ensures AfterBackslash(s[1..]) == Ok(p) && IsReading(s, Ok(p))
    ensures text == p.text + rest && StandsFor(s[1 + p.length..], rest)
  {
    var r := EscapeIsRead(s);
    var n: nat, k: nat :| EscapeIn(s, n, text, k) && StandsFor(s[n..], text[k..]);
    p, rest := r.value, text[k..];
    assert n == 1 + p.length && text[..k] == p.text;
  }

  lemma {:induction false} StandsForOne(s: seq<byte>, text: seq<byte>)
    requires StandsFor(s, text)
    ensures Unescape(s) == Ok(text)
    decreases |s|
  {
    if |s| >= 2 {
      if s[0] != BACKSLASH {
        StandsForOne(s[1..], text[1..]);
        assert [s[0]] + text[1..] == text;
      } else if IsCutOctet(s) {
        CutOctetIsPassed(s);
        StandsForOne(s[2..], text);
      } else {
        var p, rest := EscapeInFront(s, text);
        EscapePrepended(s, p);
        StandsForOne(s[1 + p.length..], rest);
      }
    }
  }

  lemma {:induction false} FaultyOne(s: seq<byte>, f: EscapeFault)
    requires IsFaulty(s, f)
    ensures Unescape(s) == Err(f)
    decreases |s|
  {
    if s[0] != BACKSLASH {
      FaultyOne(s[1..], f);
    } else if IsCutOctet(s) {
      CutOctetIsPassed(s);
      FaultyOne(s[2..], f);
    } else {
      var r := EscapeIsRead(s);
      if !IsFaultOf(s, f) {
        var n: nat, text: seq<byte> :| EscapeIn(s, n, text, |text|) && IsFaulty(s[n..], f);
        assert text[..|text|] == text;
        EscapePrepended(s, r.value);
        FaultyOne(s[n..], f);
      }
    }
  }

  /** `substitute_esc_chars` yields a text exactly if the characters stand for it. */
  lemma UnescapeIff(s: seq<byte>, text: seq<byte>)
    ensures Unescape(s) == Ok(text) <==> StandsFor(s, text)
  {
    UnescapeStandsFor(s);
    if StandsFor(s, text) { StandsForOne(s, text); }
  }

  /** It throws exactly if an escape is at fault, and says what is wrong with the first one. */
  lemma UnescapeFailsIff(s: seq<byte>, f: EscapeFault)
    ensures Unescape(s) == Err(f) <==> IsFaulty(s, f)
  {
    UnescapeStandsFor(s);
    if IsFaulty(s, f) { FaultyOne(s, f); }
  }

  // Writing

  /** Exactly the control characters, the quote and the backslash are escaped in every mode. */
  lemma EscapedIff(c: byte)
    ensures EscapeChar(c).Some? <==> c < 0x20 || c == 0x7F || c == '\"' as int || c == '\\' as int
  {
  }

  /** A code unit is written as `\u` and its four digits, those above 9 in upper case. */
  lemma UnitSpelled(n: nat)
    requires n <= 0xFFFF
    ensures Unit(n) == [ '\\' as int, 'u' as int, UPPER[n / 0x1000] as int, UPPER[n / 0x100 % 0x10] as int,
                         UPPER[n / 0x10 % 0x10] as int, UPPER[n % 0x10] as int]
    ensures IsUnit(Unit(n)[2..], n)
  {
    HexCharSpelled(n / 0x1000);
    HexCharSpelled(n / 0x100 % 0x10);
    HexCharSpelled(n / 0x10 % 0x10);
    HexCharSpelled(n % 0x10);
  }

  /** With one of the short escapes, where there is one. */
  lemma EscapeSpelled(c: byte)
    requires EscapeChar(c).Some?
    ensures if exists letter :: letter != '/' as int && IsShortEscape(letter, c) then IsShort(EscapeChar(c).value, [c])
            else EscapeChar(c).value == Unit(c)
  {
    assert c in {0x22, 0x5C, 0x08, 0x0C, 0x0A, 0x0D, 0x09} ==> IsShort(EscapeChar(c).value, [c]);
    if c !in {0x22, 0x5C, 0x08, 0x0C, 0x0A, 0x0D, 0x09} {
      HexCharSpelled(c / 0x10 % 0x10);
      HexCharSpelled(c % 0x10);
    }
  }

  predicate IsVisible(e: seq<byte>) {
    forall i :: 0 <= i < |e| ==> e[i] >= 0x20 && e[i] != 0x7F
  }

  lemma UnitIsVisible(n: nat)
    requires n <= 0xFFFF
    ensures IsVisible(Unit(n))
  {
  }

  lemma RoundIsVisible(s: seq<byte>, m: Mode)
    requires s != [] && RoundLength(s, m) > 0
    ensures IsVisible(RoundOutput(s, m))
  {
    if EscapeChar(s[0]).Some? {
      EscapeSpelled(s[0]);
      if s[0] < 0x80 { UnitIsVisible(s[0]); }
    } else if RoundOutput(s, m) == [s[0]] {
      EscapedIff(s[0]);
    } else {
      SequenceIsEncoding(s[..Front(s)]);
      var u := Payload(s[..Front(s)]);
      if u > 0xFFFF {
        UnitIsVisible(0xD800 + (u - 0x10000) / 0x400);
        UnitIsVisible(0xDC00 + (u - 0x10000) % 0x400);
      } else {
        UnitIsVisible(u);
      }
    }
  }

  /** No control character is ever written, in any mode. */
  lemma {:induction false} NoControlsWritten(s: seq<byte>, m: Mode)
    requires Escape(s, m).Some?
    ensures forall i :: 0 <= i < |Escape(s, m).value| ==> Escape(s, m).value[i] >= 0x20 && Escape(s, m).value[i] != 0x7F
  {
    if s != [] {
      RoundIsVisible(s, m);
      NoControlsWritten(s[RoundLength(s, m)..], m);
    }
  }

  /** A line feed inside a string, in raw mode. */
  lemma SampleLineFeed(m: Mode)
    requires m.raw
    ensures Escape([0x61, 0x0A, 0x62], m) == Some([0x61, 0x5C, 0x6E, 0x62])
  {
    var s, t, u: seq<byte> := [0x61, 0x0A, 0x62], [0x0A, 0x62], [0x62];
    assert s[1..] == t && t[1..] == u && u[1..] == [];
    assert Escape(u[1..], m) == Some([]) && RoundOutput(u, m) == u;
    assert Escape(u, m) == Some(u + []) && u + [] == u;
    assert RoundOutput(t, m) == [0x5C, 0x6E] && Escape(t, m) == Some([0x5C, 0x6E] + u);
    assert RoundOutput(s, m) == [0x61] && Escape(s, m) == Some([0x61] + ([0x5C, 0x6E] + u));
    assert [0x61] + ([0x5C, 0x6E] + u) == [0x61, 0x5C, 0x6E, 0x62];
  }

  /** A lower-case escape, as most clients write them. */
  lemma SampleLowerCase()
    ensures Unescape([0x5C, 0x75, 0x30, 0x30, 0x65, 0x39]) == Ok([0xC3, 0xA9])
  {
    var s: seq<byte> := [0x5C, 0x75, 0x30, 0x30, 0x65, 0x39];
    assert s[6..] == [] && s[..6] == s && s[2..] == [0x30, 0x30, 0x65, 0x39];
    assert IsUnit(s[2..], 0xE9);
    assert IsCharacter(s, 0xE9) && Encode(0xE9) == [0xC3, 0xA9];
    var text: seq<byte> := [0xC3, 0xA9];
    assert text[..2] == text && text[2..] == [];
    assert EscapeIn(s, 6, text, 2);
    UnescapeIff(s, text);
  }
}
