/**
 JSON strings: escaping (server/json_spirit/json_spirit_writer_template.h:24-115), unescaping and the
 string token (json_spirit_reader_template.h:56-220 and 528-538; RFC 8259 section 7).
 */
module JsonStrings {
  import opened Wrappers
  import opened Utf8

  const QUOTE: byte := 0x22
  const BACKSLASH: byte := 0x5C
  const LETTER_U: byte := 0x75

  /** The options `raw_utf8` and `always_escape_nonascii`, and the `iswprint` of the current locale. */
  datatype Mode = Mode(raw: bool, escapeNonAscii: bool, isPrint: nat -> bool)

  // Writing

  /** `to_hex_char`. */
  function HexChar(d: nat): byte
    requires d < 16
  {
    if d < 10 then 0x30 + d else 0x37 + d
  }

  /** One UTF-16 code unit as backslash, u and four hexadecimal digits. */
  function Unit(c: nat): seq<byte>
    requires c <= 0xFFFF
  {
    [BACKSLASH, LETTER_U, HexChar(c / 0x1000), HexChar(c / 0x100 % 0x10), HexChar(c / 0x10 % 0x10), HexChar(c % 0x10)]
  }

  /** `non_printable_to_string`: beyond the BMP it writes a surrogate pair. */
  function NonPrintable(c: nat): seq<byte>
    requires c <= MAX_CODE_POINT
  {
    if c > 0xFFFF then Unit(0xD800 + (c - 0x10000) / 0x400) + Unit(0xDC00 + (c - 0x10000) % 0x400)
    else Unit(c)
  }

  /** `add_esc_char`: what is appended for a character that always needs an escape. */
  function EscapeChar(c: byte): Option<seq<byte>> {
    if c == QUOTE then Some([BACKSLASH, QUOTE])
    else if c == BACKSLASH then Some([BACKSLASH, BACKSLASH])
    else if c == 0x08 then Some([BACKSLASH, 0x62])
    else if c == 0x0C then Some([BACKSLASH, 0x66])
    else if c == 0x0A then Some([BACKSLASH, 0x6E])
    else if c == 0x0D then Some([BACKSLASH, 0x72])
    else if c == 0x09 then Some([BACKSLASH, 0x74])
    else if c == 0x7F then Some([BACKSLASH, LETTER_U, 0x30, 0x30, 0x37, 0x46])
    else if c < 32 then Some(NonPrintable(c))
    else None
  }

  /** How many bytes of `s` one round of `add_esc_chars` reads; 0 if the parser throws. */
  function RoundLength(s: seq<byte>, m: Mode): (n: nat)
    requires s != []
    ensures n <= |s|
  {
    if EscapeChar(s[0]).Some? || m.raw then 1 else Front(s)
  }

  /** What one round appends. */
  function RoundOutput(s: seq<byte>, m: Mode): seq<byte>
    requires s != [] && RoundLength(s, m) > 0
  {
    if EscapeChar(s[0]).Some? then EscapeChar(s[0]).value
    else if m.raw then [s[0]]
    else
      SequenceIsEncoding(s[..Front(s)]);
      var u := Payload(s[..Front(s)]);
      if !m.escapeNonAscii && m.isPrint(u) then [s[0]] else NonPrintable(u)
  }

  /** The escaped string; None when the UTF-8 parser throws. */
  function Escape(s: seq<byte>, m: Mode): Option<seq<byte>> {
    if s == [] then Some([])
    else
      var n := RoundLength(s, m);
      if n == 0 then None
      else
        match Escape(s[n..], m)
        case None => None
        case Some(e) => Some(RoundOutput(s, m) + e)
  }

  /** The body of the loop of `add_esc_chars`: what it appends, and where it leaves the pointer. */
  method RoundText(s: seq<byte>, i: nat, m: Mode) returns (out: Result<seq<byte>, Fault>, last: nat)
    requires i < |s|
    ensures out.Ok? <==> RoundLength(s[i..], m) > 0
    ensures out.Ok? ==> out.value == RoundOutput(s[i..], m) && last + 1 == i + RoundLength(s[i..], m)
  {
    last := i;
    if EscapeChar(s[i]).Some? {
      return Ok(EscapeChar(s[i]).value), last;
    }
    if m.raw {
      return Ok([s[i]]), last;
    }
    var u;
    u, last := ParseUtf8(s, i);
    if u.Err? { return Err(u.error), last; }
    assert s[i..][..Front(s[i..])] == s[i..last + 1];
    SequenceIsEncoding(s[i..last + 1]);
    if !m.escapeNonAscii && m.isPrint(u.value) {
      return Ok([s[i]]), last;
    }
    return Ok(NonPrintable(u.value)), last;
  }

  /** `a` in front of an escaped text, if there is one. */
  function Behind(a: seq<byte>, e: Option<seq<byte>>): Option<seq<byte>> {
    match e
    case None => None
    case Some(b) => Some(a + b)
  }

  lemma BehindTwice(a: seq<byte>, b: seq<byte>, e: Option<seq<byte>>)
    ensures Behind(a, Behind(b, e)) == Behind(a + b, e)
  {
    if e.Some? {
      ConcatAssoc(a, b, e.value);
    }
  }

  lemma BehindNothing(e: Option<seq<byte>>)
    ensures Behind([], e) == e
  {
    if e.Some? {
      assert [] + e.value == e.value;
    }
  }

  /** What a round contributes to the escaped text. */
  method EscapeRound(s: seq<byte>, i: nat, m: Mode) returns (out: Result<seq<byte>, Fault>, last: nat)
    requires i < |s|
    ensures out.Err? ==> Escape(s[i..], m).None?
    ensures out.Ok? ==> i <= last < |s| && Escape(s[i..], m) == Behind(out.value, Escape(s[last + 1..], m))
  {
    out, last := RoundText(s, i, m);
    if out.Ok? {
      assert s[i..][RoundLength(s[i..], m)..] == s[last + 1..];
    }
  }

  /** `add_esc_chars`. */
  method AddEscChars(s: seq<byte>, m: Mode) returns (r: Result<seq<byte>, Fault>)
    ensures r.Ok? <==> Escape(s, m).Some?
    ensures r.Ok? ==> Some(r.value) == Escape(s, m)
  {
    var result: seq<byte> := [];
    var i := 0;
    assert s[0..] == s;
    BehindNothing(Escape(s, m));
    while i != |s|
      invariant i <= |s|
      invariant Escape(s, m) == Behind(result, Escape(s[i..], m))
    {
      var out, last := EscapeRound(s, i, m);
      if out.Err? { return Err(out.error); }
      BehindTwice(result, out.value, Escape(s[last + 1..], m));
      result := result + out.value;
      i := last + 1;
    }
    assert s[i..] == [] && result + [] == result;
    return Ok(result);
  }

  // Reading

  datatype EscapeFault = NotHex | ShortUnicode | MissingLowSurrogate | UnexpectedLowSurrogate | UnknownEscape

  /** `hex_to_num`. */
  function HexValue(c: byte): (r: Result<nat, EscapeFault>)
    ensures r.Ok? ==> r.value < 16
  {
    if 0x30 <= c <= 0x39 then Ok(c - 0x30)
    else if 0x61 <= c <= 0x66 then Ok(c - 0x61 + 10)
    else if 0x41 <= c <= 0x46 then Ok(c - 0x41 + 10)
    else Err(NotHex)
  }

  /** `unicode_str_to_char`, on the four characters behind the u. */
  function Hex4(a: byte, b: byte, c: byte, d: byte): (r: Result<nat, EscapeFault>)
    ensures r.Ok? ==> r.value <= 0xFFFF
  {
    var (h1, h2, h3, h4) := (HexValue(a), HexValue(b), HexValue(c), HexValue(d));
    if h1.Ok? && h2.Ok? && h3.Ok? && h4.Ok?
    then Ok(h1.value * 0x1000 + h2.value * 0x100 + h3.value * 0x10 + h4.value)
    else Err(NotHex)
  }

  /** `encode_utf<std::string>` of json_spirit_reader.cc; it agrees with `toUtf8` of nfc.cc. */
  function EncodeUtf(u: nat): (s: seq<byte>)
    requires u <= MAX_CODE_POINT
    ensures s == Encode(u)
  {
    if u <= 0x7F then [u]
    else if u <= 0x7FF then [0xC0 + u / 0x40, 0x80 + u % 0x40]
    else if u <= 0xFFFF then [0xE0 + u / 0x1000, 0x80 + u / 0x40 % 0x40, 0x80 + u % 0x40]
    else [0xF0 + u / 0x40000, 0x80 + u / 0x1000 % 0x40, 0x80 + u / 0x40 % 0x40, 0x80 + u % 0x40]
  }

  /** What an escape stands for, and how many characters behind the backslash it takes. */
  datatype Piece = Piece(text: seq<byte>, length: nat)

  function LowSurrogate(high: nat, s: seq<byte>): (r: Result<Piece, EscapeFault>)
    requires 0xD800 <= high <= 0xDBFF && |s| >= 5
    ensures r.Ok? ==> 1 <= r.value.length <= |s|
  {
    if |s| - 4 < 7 || s[5] != BACKSLASH || s[6] != LETTER_U then Err(MissingLowSurrogate)
    else
      match Hex4(s[7], s[8], s[9], s[10])
      case Err(f) => Err(f)
      case Ok(low) =>
        if low < 0xDC00 || low > 0xDFFF then Err(MissingLowSurrogate)
        else Ok(Piece(EncodeUtf((high - 0xD800) * 1024 + (low - 0xDC00) + 0x10000), 11))
  }

  function UnicodeEscape(s: seq<byte>): (r: Result<Piece, EscapeFault>)
    requires s != []
    ensures r.Ok? ==> 1 <= r.value.length <= |s|
  {
    if |s| < 5 then Err(ShortUnicode)
    else
      match Hex4(s[1], s[2], s[3], s[4])
      case Err(f) => Err(f)
      case Ok(c) =>
        if c <= 127 then Ok(Piece([c], 5))
        else if 0xD800 <= c <= 0xDBFF then LowSurrogate(c, s)
        else if 0xDC00 <= c <= 0xDFFF then Err(UnexpectedLowSurrogate)
        else Ok(Piece(EncodeUtf(c), 5))
  }

  /** `append_esc_char_and_incr_iter`: `s` begins behind a backslash. */
  function AfterBackslash(s: seq<byte>): (r: Result<Piece, EscapeFault>)
    requires s != []
    ensures r.Ok? ==> 1 <= r.value.length <= |s|
  {
    var c := s[0];
    if c == 0x74 then Ok(Piece([0x09], 1))
    else if c == 0x62 then Ok(Piece([0x08], 1))
    else if c == 0x66 then Ok(Piece([0x0C], 1))
    else if c == 0x6E then Ok(Piece([0x0A], 1))
    else if c == 0x72 then Ok(Piece([0x0D], 1))
    else if c == BACKSLASH || c == 0x2F || c == QUOTE then Ok(Piece([c], 1))
    else if c == 0x78 then
      if |s| < 3 then Ok(Piece([], 1))
      else
        var (h1, h2) := (HexValue(s[1]), HexValue(s[2]));
        if h1.Ok? && h2.Ok? then Ok(Piece([h1.value * 0x10 + h2.value], 3)) else Err(NotHex)
    else if c == LETTER_U then UnicodeEscape(s)
    else Err(UnknownEscape)
  }

  /** The text of a string token without its quotes; a backslash in the last place stands for itself. */
  function Unescape(s: seq<byte>): Result<seq<byte>, EscapeFault> {
    if |s| <= 1 then Ok(s)
    else if s[0] == BACKSLASH then
      match AfterBackslash(s[1..])
      case Err(f) => Err(f)
      case Ok(p) => Prepend(p.text, Unescape(s[1 + p.length..]))
    else Prepend([s[0]], Unescape(s[1..]))
  }

  function Prepend(a: seq<byte>, r: Result<seq<byte>, EscapeFault>): Result<seq<byte>, EscapeFault> {
    match r
    case Err(f) => Err(f)
    case Ok(b) => Ok(a + b)
  }

  lemma PrependTwice(a: seq<byte>, b: seq<byte>, r: Result<seq<byte>, EscapeFault>)
    ensures Prepend(a, Prepend(b, r)) == Prepend(a + b, r)
  {
    if r.Ok? {
      ConcatAssoc(a, b, r.value);
    }
  }

  lemma PrependNothing(r: Result<seq<byte>, EscapeFault>)
    ensures Prepend([], r) == r
  {
    if r.Ok? {
      assert [] + r.value == r.value;
    }
  }

  /** `append_esc_char_and_incr_iter`, with `i` on the backslash: the text to append and where to go on. */
  method ReadEscape(s: seq<byte>, i: nat) returns (r: Result<seq<byte>, EscapeFault>, next: nat)
    requires i < |s| - 1 && s[i] == BACKSLASH
    ensures i < next <= |s|
    ensures r.Err? ==> Unescape(s[i..]) == Err(r.error)
    ensures r.Ok? ==> Unescape(s[i..]) == Prepend(r.value, Unescape(s[next..]))
  {
    assert s[i..][1..] == s[i + 1..];
    var p := AfterBackslash(s[i + 1..]);
    if p.Err? { return Err(p.error), i + 1; }
    next := i + 1 + p.value.length;
    assert s[i..][1 + p.value.length..] == s[next..];
    return Ok(p.value.text), next;
  }

  lemma PassPlain(s: seq<byte>, a: seq<byte>, start: nat, i: nat)
    requires start <= i < |s| - 1 && s[i] != BACKSLASH
    ensures Prepend(a + s[start..i], Unescape(s[i..])) == Prepend(a + s[start..i + 1], Unescape(s[i + 1..]))
  {
    assert s[i..][1..] == s[i + 1..];
    PrependTwice(a + s[start..i], [s[i]], Unescape(s[i + 1..]));
    assert s[start..i + 1] == s[start..i] + [s[i]];
    ConcatAssoc(a, s[start..i], [s[i]]);
  }

  /** `substitute_esc_chars`: copies the stretches between the escapes. */
  method SubstituteEscChars(s: seq<byte>) returns (r: Result<seq<byte>, EscapeFault>)
    ensures r == Unescape(s)
  {
    var result: seq<byte> := [];
    var substrStart, i := 0, 0;
    assert s[i..] == s && result + s[substrStart..i] == [];
    PrependNothing(Unescape(s));
    while i < |s| - 1
      invariant 0 <= substrStart <= i <= |s|
      invariant Unescape(s) == Prepend(result + s[substrStart..i], Unescape(s[i..]))
      decreases |s| - i
    {
      if s[i] == BACKSLASH {
        result := result + s[substrStart..i];
        var text, next := ReadEscape(s, i);
        if text.Err? { return Err(text.error); }
        PrependTwice(result, text.value, Unescape(s[next..]));
        result := result + text.value;
        i := next;
        substrStart := i;
        assert s[substrStart..i] == [] && result + [] == result;
      } else {
        PassPlain(s, result, substrStart, i);
        i := i + 1;
      }
    }
    assert s[substrStart..] == s[substrStart..i] + s[i..];
    ConcatAssoc(result, s[substrStart..i], s[i..]);
    return Ok(result + s[substrStart..]);
  }

  // Round trips

  lemma HexOfUnit(c: nat)
    requires c <= 0xFFFF
    ensures Hex4(HexChar(c / 0x1000), HexChar(c / 0x100 % 0x10), HexChar(c / 0x10 % 0x10), HexChar(c % 0x10)) == Ok(c)
  {
    assert c / 0x100 == c / 0x10 / 0x10 && c / 0x1000 == c / 0x100 / 0x10;
  }

  /** A code unit that is no surrogate is read back as its UTF-8 encoding. */
  lemma ReadUnit(c: nat, rest: seq<byte>)
    requires c <= 0xFFFF && IsScalar(c)
    ensures Unescape(Unit(c) + rest) == Prepend(Encode(c), Unescape(rest))
  {
    HexOfUnit(c);
    var s := Unit(c) + rest;
    var t := s[1..];
    assert t[0] == LETTER_U && t[1] == Unit(c)[2] && t[2] == Unit(c)[3] && t[3] == Unit(c)[4] && t[4] == Unit(c)[5];
    assert AfterBackslash(t) == UnicodeEscape(t) == Ok(Piece(Encode(c), 5));
    assert s[1 + 5..] == rest;
  }

  /** A surrogate pair is joined to the code point it was split from. */
  lemma ReadPair(u: nat, rest: seq<byte>)
    requires 0xFFFF < u <= MAX_CODE_POINT
    ensures Unescape(NonPrintable(u) + rest) == Prepend(Encode(u), Unescape(rest))
  {
    var high, low := 0xD800 + (u - 0x10000) / 0x400, 0xDC00 + (u - 0x10000) % 0x400;
    HexOfUnit(high);
    HexOfUnit(low);
    var s := NonPrintable(u) + rest;
    assert NonPrintable(u) == Unit(high) + Unit(low);
    PairEscape(s[1..], high, low, u);
    assert s[1 + 11..] == rest;
  }

  lemma PairEscape(t: seq<byte>, high: nat, low: nat, u: nat)
    requires 0xD800 <= high <= 0xDBFF && 0xDC00 <= low <= 0xDFFF && |t| >= 11
    requires u == (high - 0xD800) * 1024 + (low - 0xDC00) + 0x10000
    requires t[0] == LETTER_U && t[5] == BACKSLASH && t[6] == LETTER_U
    requires Hex4(t[1], t[2], t[3], t[4]) == Ok(high) && Hex4(t[7], t[8], t[9], t[10]) == Ok(low)
    ensures AfterBackslash(t) == Ok(Piece(Encode(u), 11))
  {
    assert LowSurrogate(high, t) == Ok(Piece(Encode(u), 11));
  }

  lemma ReadNonPrintable(u: nat, rest: seq<byte>)
    requires IsScalar(u)
    ensures Unescape(NonPrintable(u) + rest) == Prepend(Encode(u), Unescape(rest))
  {
    if u <= 0xFFFF { ReadUnit(u, rest); } else { ReadPair(u, rest); }
  }

  lemma ReadEscapeChar(c: byte, rest: seq<byte>)
    requires EscapeChar(c).Some?
    ensures Unescape(EscapeChar(c).value + rest) == Prepend([c], Unescape(rest))
  {
    var e := EscapeChar(c).value;
    if |e| == 2 {
      var t := (e + rest)[1..];
      assert t == [e[1]] + rest && (e + rest)[1 + 1..] == rest;
      assert AfterBackslash(t) == Ok(Piece([c], 1));
    } else {
      assert e == Unit(c);
      ReadUnit(c, rest);
    }
  }

  lemma ReadPlain(c: byte, rest: seq<byte>)
    requires c != BACKSLASH
    ensures Unescape([c] + rest) == Prepend([c], Unescape(rest))
  {
    assert ([c] + rest)[1..] == rest;
  }

  /** What the reader gets back of one code point. */
  function Received(u: nat, m: Mode): seq<byte> {
    if u > 0x7F && !m.escapeNonAscii && m.isPrint(u) then Encode(u)[..Min(1, |Encode(u)|)] else Encode(u)
  }

  /** The strings that can be escaped: in raw mode all of them. */
  predicate Writable(s: seq<byte>, m: Mode) {
    m.raw || WellFormed(s)
  }

  /** What the reader gets back of a string. */
  function Reread(s: seq<byte>, m: Mode): seq<byte>
    requires Writable(s, m)
  {
    if m.raw then s else FlatMap(u => Received(u, m), Decode(s).value)
  }

  lemma ReadRawRound(s: seq<byte>, m: Mode, rest: seq<byte>)
    requires s != [] && m.raw
    ensures RoundLength(s, m) == 1 && s == s[..1] + s[1..]
    ensures Unescape(RoundOutput(s, m) + rest) == Prepend(s[..1], Unescape(rest))
  {
    assert s[..1] == [s[0]];
    if EscapeChar(s[0]).Some? {
      ReadEscapeChar(s[0], rest);
    } else {
      ReadPlain(s[0], rest);
    }
  }

  lemma RoundIsSequence(s: seq<byte>, m: Mode)
    requires s != [] && !m.raw && WellFormed(s)
    ensures RoundLength(s, m) == Front(s) > 0
  {
    if EscapeChar(s[0]).Some? {
      assert IsSequence(s[..1]);
      FrontIsUnique(s, 1);
    }
  }

  lemma ReadUtf8Round(s: seq<byte>, m: Mode, rest: seq<byte>)
    requires s != [] && !m.raw && WellFormed(s)
    ensures var n := RoundLength(s, m);
            && n > 0 && WellFormed(s[n..])
            && var got := Received(Payload(s[..Front(s)]), m);
            && Unescape(RoundOutput(s, m) + rest) == Prepend(got, Unescape(rest))
            && Reread(s, m) == got + Reread(s[n..], m)
  {
    var n := Front(s);
    var u := Payload(s[..n]);
    RoundIsSequence(s, m);
    SequenceIsEncoding(s[..n]);
    assert Decode(s).value == [u] + Decode(s[n..]).value;
    assert ([u] + Decode(s[n..]).value)[1..] == Decode(s[n..]).value;
    ReadRoundOf(s, m, u, rest);
  }

  /** One round: its output is read back as what is received of the bytes it read. */
  lemma ReadRound(s: seq<byte>, m: Mode, rest: seq<byte>)
    requires s != [] && Writable(s, m)
    ensures var n := RoundLength(s, m);
            && n > 0 && Writable(s[n..], m)
            && var got := if m.raw then s[..n] else Received(Payload(s[..Front(s)]), m);
            && Unescape(RoundOutput(s, m) + rest) == Prepend(got, Unescape(rest))
            && Reread(s, m) == got + Reread(s[n..], m)
  {
    if m.raw {
      ReadRawRound(s, m, rest);
    } else {
      ReadUtf8Round(s, m, rest);
    }
  }

  lemma ReadRoundOf(s: seq<byte>, m: Mode, u: nat, rest: seq<byte>)
    requires s != [] && !m.raw && Front(s) > 0 && u == Payload(s[..Front(s)]) && IsScalar(u)
    requires Encode(u) == s[..Front(s)] && RoundLength(s, m) > 0
    ensures Unescape(RoundOutput(s, m) + rest) == Prepend(Received(u, m), Unescape(rest))
  {
    assert Encode(u)[0] == s[0];
    if EscapeChar(s[0]).Some? {
      ReadEscapeChar(s[0], rest);
    } else if !m.escapeNonAscii && m.isPrint(u) {
      ReadPlain(s[0], rest);
      assert Encode(u)[..1] == [s[0]];
    } else {
      ReadNonPrintable(u, rest);
    }
  }

  /** For every string that can be written: it can be escaped, and unescaping returns what is received of it. */
  lemma {:induction false} UnescapeEscape(s: seq<byte>, m: Mode)
    requires Writable(s, m)
    ensures Escape(s, m).Some? && Unescape(Escape(s, m).value) == Ok(Reread(s, m))
  {
    if s != [] {
      var n := RoundLength(s, m);
      ReadRound(s, m, []);
      UnescapeEscape(s[n..], m);
      ReadRound(s, m, Escape(s[n..], m).value);
    }
  }

  /** Only writable strings are written: the parser throws on the others. */
  lemma {:induction false} EscapeNeedsWritable(s: seq<byte>, m: Mode)
    ensures Escape(s, m).Some? <==> Writable(s, m)
  {
    if s != [] && !m.raw {
      var n := RoundLength(s, m);
      if n > 0 {
        if EscapeChar(s[0]).Some? {
          assert IsSequence(s[..1]);
          FrontIsUnique(s, 1);
        }
        EscapeNeedsWritable(s[n..], m);
      }
    } else if s != [] {
      EscapeNeedsWritable(s[1..], m);
    }
  }

  /** A printable character beyond ASCII loses its continuation octets, so it makes the string shorter. */
  ghost predicate LosesOctets(us: seq<nat>, m: Mode) {
    exists i :: 0 <= i < |us| && us[i] > 0x7F && !m.escapeNonAscii && m.isPrint(us[i])
  }

  lemma {:induction false} ReceivedLength(us: seq<nat>, m: Mode)
    requires AllScalar(us)
    ensures |FlatMap(u => Received(u, m), us)| <= |EncodeAll(us)|
    ensures LosesOctets(us, m) ==> |FlatMap(u => Received(u, m), us)| < |EncodeAll(us)|
    ensures !LosesOctets(us, m) ==> FlatMap(u => Received(u, m), us) == EncodeAll(us)
  {
    if us != [] {
      ReceivedLength(us[1..], m);
      assert forall i :: 0 <= i < |us[1..]| ==> us[1..][i] == us[i + 1];
      assert LosesOctets(us, m) ==> LosesOctets(us[1..], m) || (us[0] > 0x7F && !m.escapeNonAscii && m.isPrint(us[0]));
      assert |Received(us[0], m)| <= |Encode(us[0])|;
    }
  }

  /**
   The round trip returns the string exactly when nothing is lost: always in raw mode and with
   `always_escape_nonascii`; otherwise if no character beyond ASCII is printable in the locale.
   */
  lemma RoundTripIff(s: seq<byte>, m: Mode)
    requires Writable(s, m)
    ensures Escape(s, m).Some?
    ensures Unescape(Escape(s, m).value) == Ok(s) <==> m.raw || !LosesOctets(Decode(s).value, m)
  {
    UnescapeEscape(s, m);
    if !m.raw {
      EncodeDecode(s);
      ReceivedLength(Decode(s).value, m);
    }
  }

  /** A small e with acute, where it is printable: only its lead octet is written, and read back. */
  lemma SampleLosesOctets(m: Mode)
    requires !m.raw && !m.escapeNonAscii && m.isPrint(0xE9)
    ensures Escape([0xC3, 0xA9], m) == Some([0xC3]) && Unescape([0xC3]) == Ok([0xC3])
  {
    var s: seq<byte> := [0xC3, 0xA9];
    assert s[..2] == s && s[2..] == [];
    FrontIsUnique(s, 2);
    assert Payload(s) == 0xE9 && RoundLength(s, m) == 2 && RoundOutput(s, m) == [0xC3];
    assert Escape(s[2..], m) == Some([]) && [0xC3] + [] == [0xC3];
  }

  /** An ASCII character that the mode leaves as it is: no control character, quote or backslash. */
  predicate StaysPlain(c: byte, m: Mode) {
    0x20 <= c && c !in {QUOTE, BACKSLASH, 0x7F} && (m.raw || (!m.escapeNonAscii && m.isPrint(c)))
  }

  lemma AsciiRound(s: seq<byte>, m: Mode)
    requires s != [] && s[0] <= 0x7F
    ensures RoundLength(s, m) == 1
    ensures StaysPlain(s[0], m) ==> RoundOutput(s, m) == [s[0]]
    ensures !StaysPlain(s[0], m) ==> |RoundOutput(s, m)| > 1
  {
    assert s[..1] == [s[0]];
    FrontIsUnique(s, 1);
  }

  lemma SameStart(a: byte, out: seq<byte>, x: seq<byte>, e: seq<byte>)
    requires |e| >= |x| && (out == [a] || |out| > 1)
    ensures out + e == [a] + x <==> out == [a] && e == x
  {
    if out == [a] {
      assert ([a] + e)[1..] == e && ([a] + x)[1..] == x;
    } else {
      assert |out + e| > |[a] + x|;
    }
  }

  /** ASCII text comes out as it is exactly if the mode leaves each of its characters alone. */
  lemma {:induction false} AsciiStaysIff(s: seq<byte>, m: Mode)
    requires forall i :: 0 <= i < |s| ==> s[i] <= 0x7F
    ensures Escape(s, m).Some? && |Escape(s, m).value| >= |s|
    ensures Escape(s, m).value == s <==> forall i :: 0 <= i < |s| ==> StaysPlain(s[i], m)
  {
    if s != [] {
      AsciiRound(s, m);
      AsciiStaysIff(s[1..], m);
      SameStart(s[0], RoundOutput(s, m), s[1..], Escape(s[1..], m).value);
      assert s == [s[0]] + s[1..];
    }
  }

  /** A capital A is escaped with `always_escape_nonascii`, printable or not. */
  lemma SampleEscapesAscii(m: Mode)
    requires !m.raw && m.escapeNonAscii
    ensures Escape([0x41], m) == Some([BACKSLASH, LETTER_U, 0x30, 0x30, 0x34, 0x31])
  {
    var s: seq<byte> := [0x41];
    assert s[..1] == s && s[1..] == [];
    FrontIsUnique(s, 1);
    assert RoundOutput(s, m) == Unit(0x41) && Escape(s[1..], m) == Some([]);
    assert Unit(0x41) + [] == Unit(0x41);
  }

  // The token

  /** Where the closing quote of a string token stands: a backslash takes the next character with it. */
  function ClosingQuote(s: seq<byte>): (r: Option<nat>)
    ensures r.Some? ==> r.value < |s|
  {
    if s == [] then None
    else if s[0] == QUOTE then Some(0)
    else
      var n := if s[0] == BACKSLASH then 2 else 1;
      if |s| < n then None
      else
        match ClosingQuote(s[n..])
        case None => None
        case Some(k) => Some(n + k)
  }

  /** Text that the token scanner passes as a whole, whatever comes behind it. */
  ghost predicate Passes(e: seq<byte>) {
    forall rest :: ClosingQuote(e + rest) == (match ClosingQuote(rest) case None => None case Some(k) => Some(|e| + k))
  }

  lemma PassesPlain(c: byte)
    requires c != QUOTE && c != BACKSLASH
    ensures Passes([c])
  {
    forall rest ensures ClosingQuote([c] + rest) == (match ClosingQuote(rest) case None => None case Some(k) => Some(1 + k)) {
      assert ([c] + rest)[1..] == rest;
    }
  }

  lemma PassesEscaped(c: byte)
    ensures Passes([BACKSLASH, c])
  {
    forall rest ensures ClosingQuote([BACKSLASH, c] + rest) == (match ClosingQuote(rest) case None => None case Some(k) => Some(2 + k)) {
      assert ([BACKSLASH, c] + rest)[2..] == rest;
    }
  }

  lemma PassesConcat(a: seq<byte>, b: seq<byte>)
    requires Passes(a) && Passes(b)
    ensures Passes(a + b)
  {
    forall rest ensures ClosingQuote(a + b + rest) == (match ClosingQuote(rest) case None => None case Some(k) => Some(|a + b| + k)) {
      ConcatAssoc(a, b, rest);
      assert ClosingQuote(a + (b + rest)) == (match ClosingQuote(b + rest) case None => None case Some(k) => Some(|a| + k));
    }
  }

  lemma PassesUnit(c: nat)
    requires c <= 0xFFFF
    ensures Passes(Unit(c))
  {
    var h1, h2, h3, h4 := HexChar(c / 0x1000), HexChar(c / 0x100 % 0x10), HexChar(c / 0x10 % 0x10), HexChar(c % 0x10);
    PassesEscaped(LETTER_U);
    PassesPlain(h1);
    PassesPlain(h2);
    PassesPlain(h3);
    PassesPlain(h4);
    PassesConcat([h1], [h2]);
    PassesConcat([h3], [h4]);
    PassesConcat([h1] + [h2], [h3] + [h4]);
    PassesConcat([BACKSLASH, LETTER_U], ([h1] + [h2]) + ([h3] + [h4]));
    assert [BACKSLASH, LETTER_U] + (([h1] + [h2]) + ([h3] + [h4])) == Unit(c);
  }

  lemma PassesNonPrintable(u: nat)
    requires u <= MAX_CODE_POINT
    ensures Passes(NonPrintable(u))
  {
    if u > 0xFFFF {
      PassesUnit(0xD800 + (u - 0x10000) / 0x400);
      PassesUnit(0xDC00 + (u - 0x10000) % 0x400);
      PassesConcat(Unit(0xD800 + (u - 0x10000) / 0x400), Unit(0xDC00 + (u - 0x10000) % 0x400));
    } else {
      PassesUnit(u);
    }
  }

  lemma PassesEscapeChar(c: byte)
    requires EscapeChar(c).Some?
    ensures Passes(EscapeChar(c).value)
  {
    var e := EscapeChar(c).value;
    if |e| == 2 {
      PassesEscaped(e[1]);
      assert e == [BACKSLASH, e[1]];
    } else {
      assert e == NonPrintable(c);
      PassesNonPrintable(c);
    }
  }

  lemma PassesRound(s: seq<byte>, m: Mode)
    requires s != [] && RoundLength(s, m) > 0
    ensures Passes(RoundOutput(s, m))
  {
    if EscapeChar(s[0]).Some? {
      PassesEscapeChar(s[0]);
    } else if RoundOutput(s, m) == [s[0]] {
      PassesPlain(s[0]);
    } else {
      SequenceIsEncoding(s[..Front(s)]);
      PassesNonPrintable(Payload(s[..Front(s)]));
    }
  }

  /** Escaped text contains no unescaped quote: a token made of it ends exactly at its closing quote. */
  lemma {:induction false} EscapePasses(s: seq<byte>, m: Mode)
    requires Escape(s, m).Some?
    ensures Passes(Escape(s, m).value)
  {
    if s == [] {
      forall rest: seq<byte> ensures ClosingQuote([] + rest) == (match ClosingQuote(rest) case None => None case Some(k) => Some(0 + k)) {
        assert [] + rest == rest;
      }
    } else {
      var n := RoundLength(s, m);
      PassesRound(s, m);
      EscapePasses(s[n..], m);
      PassesConcat(RoundOutput(s, m), Escape(s[n..], m).value);
    }
  }

  lemma TokenEndsAtItsQuote(s: seq<byte>, m: Mode, rest: seq<byte>)
    requires Writable(s, m)
    ensures Escape(s, m).Some?
    ensures ClosingQuote(Escape(s, m).value + ([QUOTE] + rest)) == Some(|Escape(s, m).value|)
  {
    EscapeNeedsWritable(s, m);
    EscapePasses(s, m);
    assert ClosingQuote([QUOTE] + rest) == Some(0);
  }
}
