/**
 The JSON grammar as a recursive-descent parser that emits the semantic actions
 (server/json_spirit/json_spirit_reader_template.h:409-616).  It takes exactly the texts of `JsonGrammar` and emits the
 actions of the values that they spell.
 */
module JsonReader {
  import opened Wrappers
  import opened Utf8
  import opened JsonStrings
  import opened JsonEscapes
  import opened JsonValues
  import opened JsonWriter
  import opened JsonGrammar
  import opened SemanticActions

  datatype ReadError = NotValue | NotArray | NotObject | NoColon | BadEscape(fault: EscapeFault) | RealNumber

  /** A rule does not match, an action throws, or it matches with its actions and leaves `rest`. */
  datatype Parse = NoMatch | Fail(error: ReadError) | Match(actions: seq<Action>, rest: seq<byte>)

  /** The rest of a line, with its end if it has one. */
  function LineLength(s: seq<byte>): (n: nat)
    ensures n <= |s|
    ensures forall i :: 0 <= i < n - 1 ==> !EndsLine(s[i])
    ensures n < |s| ==> n > 0 && EndsLine(s[n - 1])
  {
    if s == [] then 0 else if EndsLine(s[0]) then 1 else 1 + LineLength(s[1..])
  }

  /** The rest of a comment that may have several lines, with its end. */
  function BlockLength(s: seq<byte>): (r: Option<nat>)
    ensures r.Some? ==> 2 <= r.value <= |s| && ClosesComment(s, r.value - 2)
    ensures forall i: nat :: ClosesComment(s, i) ==> r.Some? && i >= r.value - 2
  {
    if |s| < 2 then None
    else if ClosesComment(s, 0) then Some(2)
    else
      assert forall i: nat :: ClosesComment(s, i) ==> i > 0 && ClosesComment(s[1..], i - 1);
      match BlockLength(s[1..])
      case None => None
      case Some(k) =>
        assert s[1..][k - 2] == s[k - 1] && s[1..][k - 1] == s[k];
        Some(k + 1)
  }

  /** What the skip parser takes in one go: a space or a comment. */
  function GapLength(s: seq<byte>): (n: nat)
    ensures n <= |s|
  {
    if s != [] && IsSpace(s[0]) then 1
    else if |s| < 2 || s[0] != SLASH then 0
    else if s[1] == SLASH then 2 + LineLength(s[2..])
    else if s[1] == STAR then
      match BlockLength(s[2..])
      case None => 0
      case Some(k) => 2 + k
    else 0
  }

  function Skip(s: seq<byte>): (r: seq<byte>)
    ensures |r| <= |s| && GapLength(r) == 0
  {
    if GapLength(s) == 0 then s else Skip(s[GapLength(s)..])
  }

  function DigitCount(s: seq<byte>): (n: nat)
    ensures n <= |s| && AllDigits(s[..n])
    ensures n < |s| ==> !IsDigit(s[n])
  {
    if s != [] && IsDigit(s[0]) then
      var n := DigitCount(s[1..]);
      assert s[..n + 1] == [s[0]] + s[1..][..n];
      n + 1
    else 0
  }

  /**
   `number_`: what goes on with a point or an exponent is the business of `strict_real_p`.  Otherwise
   `int64_p` takes digits with an optional sign, and `uint64_p` unsigned digits that are too large for it.
   */
  function ParseNumber(s: seq<byte>): (r: Parse)
    ensures r.Match? ==> |r.rest| < |s|
  {
    var sign := SignLength(s);
    var n := DigitCount(s[sign..]);
    var rest := s[sign + n..];
    if rest != [] && (rest[0] == 0x2E || (n > 0 && rest[0] in {0x65, 0x45})) then Fail(RealNumber)
    else if n == 0 then NoMatch
    else NumberMatch(sign == 1, s[0] == MINUS, DecimalValue(s[sign..][..n]), rest)
  }

  /** `int64_p` and then `uint64_p` on the digits of a number. */
  function NumberMatch(signed: bool, minus: bool, magnitude: nat, rest: seq<byte>): (r: Parse)
    ensures r.Match? ==> r.rest == rest
  {
    var value: int := if minus then 0 - magnitude else magnitude;
    if IsInt64(value) then Match([NewScalar(Int64(value))], rest)
    else if !signed && magnitude < 0x1_0000_0000_0000_0000 then Match([NewScalar(Uint64(magnitude))], rest)
    else NoMatch
  }

  /** `string_` with its action: the unescaped text and what follows the closing quote. */
  function ParseString(s: seq<byte>): (r: Result<Option<(seq<byte>, seq<byte>)>, ReadError>)
    ensures r.Ok? && r.value.Some? ==> |r.value.value.1| < |s|
  {
    if s == [] || s[0] != QUOTE then Ok(None)
    else
      match ClosingQuote(s[1..])
      case None => Ok(None)
      case Some(k) =>
        match Unescape(s[1..][..k])
        case Err(f) => Err(BadEscape(f))
        case Ok(text) => Ok(Some((text, s[1..][k + 1..])))
  }

  function StartsWith(s: seq<byte>, word: seq<byte>): bool {
    |s| >= |word| && s[..|word|] == word
  }

  /** `value_`. */
  function ParseValue(s: seq<byte>): (r: Parse)
    ensures r.Match? ==> |r.rest| < |s|
    decreases |s|, 3
  {
    var t := Skip(s);
    if t == [] then NoMatch
    else if t[0] == QUOTE then
      match ParseString(t)
      case Err(e) => Fail(e)
      case Ok(None) => NoMatch
      case Ok(Some((text, rest))) => Match([NewScalar(Str(text))], rest)
    else if t[0] == OPEN_OBJ then ParseObject(t)
    else if t[0] == OPEN_ARRAY then ParseArray(t)
    else if StartsWith(t, TRUE) then Match([NewScalar(Bool(true))], t[4..])
    else if StartsWith(t, FALSE) then Match([NewScalar(Bool(false))], t[5..])
    else if StartsWith(t, NULL) then Match([NewScalar(Null)], t[4..])
    else ParseNumber(t)
  }

  /** `array_`, behind its bracket: optional elements, then the closing bracket or the exception. */
  function ParseArray(t: seq<byte>): (r: Parse)
    requires t != []
    ensures r.Match? ==> |r.rest| < |t|
    decreases |t|, 2
  {
    match ParseValue(t[1..])
    case Fail(e) => Fail(e)
    case NoMatch => CloseWith(CLOSE_ARRAY, [BeginArray], t[1..], EndArray, NotArray)
    case Match(first, rest) =>
      match ParseMoreElements(rest)
      case NoMatch => NoMatch
      case Fail(e) => Fail(e)
      case Match(more, rest') => CloseWith(CLOSE_ARRAY, [BeginArray] + (first + more), rest', EndArray, NotArray)
  }

  function CloseWith(close: byte, acts: seq<Action>, s: seq<byte>, end: Action, error: ReadError): (r: Parse)
    ensures r.Match? ==> |r.rest| < |s|
    ensures !r.NoMatch?
  {
    var t := Skip(s);
    if t != [] && t[0] == close then Match(acts + [end], t[1..]) else Fail(error)
  }

  /** `*( ',' >> value_ )`: a comma without a value behind it is not taken. */
  function ParseMoreElements(s: seq<byte>): (r: Parse)
    ensures r.Match? ==> |r.rest| <= |s|
    ensures !r.NoMatch?
    decreases |s|, 4
  {
    var t := Skip(s);
    if t == [] || t[0] != COMMA then Match([], s)
    else
      match ParseValue(t[1..])
      case NoMatch => Match([], s)
      case Fail(e) => Fail(e)
      case Match(acts, rest) =>
        match ParseMoreElements(rest)
        case NoMatch => NoMatch
        case Fail(e) => Fail(e)
        case Match(more, rest') => Match(acts + more, rest')
  }

  /** `object_`. */
  function ParseObject(t: seq<byte>): (r: Parse)
    requires t != []
    ensures r.Match? ==> |r.rest| < |t|
    decreases |t|, 2
  {
    match ParsePair(t[1..])
    case Fail(e) => Fail(e)
    case NoMatch => CloseWith(CLOSE_OBJ, [BeginObj], t[1..], EndObj, NotObject)
    case Match(first, rest) =>
      match ParseMorePairs(rest)
      case NoMatch => NoMatch
      case Fail(e) => Fail(e)
      case Match(more, rest') => CloseWith(CLOSE_OBJ, [BeginObj] + (first + more), rest', EndObj, NotObject)
  }

  /** `pair_`: once the name has matched, a missing colon or value is an exception. */
  function ParsePair(s: seq<byte>): (r: Parse)
    ensures r.Match? ==> |r.rest| < |s|
    decreases |s|, 4
  {
    match ParseString(Skip(s))
    case Err(e) => Fail(e)
    case Ok(None) => NoMatch
    case Ok(Some((name, rest))) =>
      var t := Skip(rest);
      if t == [] || t[0] != COLON then Fail(NoColon)
      else
        match ParseValue(t[1..])
        case NoMatch => Fail(NotValue)
        case Fail(e) => Fail(e)
        case Match(acts, rest') => Match([NewName(name)] + acts, rest')
  }

  function ParseMorePairs(s: seq<byte>): (r: Parse)
    ensures r.Match? ==> |r.rest| <= |s|
    ensures !r.NoMatch?
    decreases |s|, 5
  {
    var t := Skip(s);
    if t == [] || t[0] != COMMA then Match([], s)
    else
      match ParsePair(t[1..])
      case NoMatch => Match([], s)
      case Fail(e) => Fail(e)
      case Match(acts, rest) =>
        match ParseMorePairs(rest)
        case NoMatch => NoMatch
        case Fail(e) => Fail(e)
        case Match(more, rest') => Match(acts + more, rest')
  }

  // White space and comments

  lemma GapPassed(a: seq<byte>, s: seq<byte>)
    requires IsGap(a)
    ensures GapLength(a + s) == |a|
  {
    var t := a + s;
    if !IsSpace(t[0]) {
      var u := t[2..];
      if IsLineComment(a) {
        assert EndsLine(u[|a| - 3]);
        assert forall i :: 0 <= i < |a| - 3 ==> u[i] == a[i + 2];
      } else {
        assert ClosesComment(u, |a| - 4);
        assert forall i: nat :: i < |a| - 4 && ClosesComment(u, i) ==> ClosesComment(a, i + 2);
      }
    }
  }

  lemma {:induction false} SkipBlank(w: seq<byte>, s: seq<byte>)
    requires IsBlank(w)
    ensures Skip(w + s) == Skip(s)
    decreases |w|
  {
    if w == [] {
      assert w + s == s;
    } else {
      var n :| 0 < n <= |w| && IsGap(w[..n]) && IsBlank(w[n..]);
      var x, y := w[..n], w[n..];
      assert w + s == x + (y + s);
      GapPassed(x, y + s);
      assert (x + (y + s))[n..] == y + s;
      SkipBlank(y, s);
    }
  }

  lemma BlankIsSkipped(w: seq<byte>, t: seq<byte>)
    requires IsBlank(w) && t != [] && !IsSpace(t[0]) && t[0] != SLASH
    ensures Skip(w + t) == t
  {
    SkipBlank(w, t);
  }

  lemma GapFound(s: seq<byte>)
    requires 0 < GapLength(s) < |s|
    ensures IsGap(s[..GapLength(s)])
  {
    var a := s[..GapLength(s)];
    if !IsSpace(s[0]) {
      var u, n := s[2..], GapLength(s) - 2;
      if s[1] == SLASH {
        assert a[|a| - 1] == u[n - 1];
        forall i | 2 <= i < |a| - 1 ensures !EndsLine(a[i]) { assert a[i] == u[i - 2]; }
      } else {
        assert ClosesComment(u, n - 2) && ClosesComment(a, |a| - 2);
        forall i | 2 <= i < |a| - 2 ensures !ClosesComment(a, i) {
          if ClosesComment(a, i) { assert ClosesComment(u, i - 2); }
        }
      }
    }
  }

  /** What was skipped in front of something is white space and comments. */
  lemma {:induction false} Skipped(s: seq<byte>) returns (w: seq<byte>)
    requires Skip(s) != []
    ensures IsBlank(w) && s == w + Skip(s)
    decreases |s|
  {
    var n := GapLength(s);
    if n == 0 {
      w := [];
    } else {
      var a, b := s[..n], s[n..];
      assert b != [];
      GapFound(s);
      var x := Skipped(b);
      w := a + x;
      SkippedGap(s, a, b, x);
    }
  }

  lemma SkippedGap(s: seq<byte>, a: seq<byte>, b: seq<byte>, x: seq<byte>)
    requires IsGap(a) && IsBlank(x) && b == x + Skip(b) && s == a + b
    ensures IsBlank(a + x) && s == (a + x) + Skip(b)
  {
    BlankCons(a, x);
    ConcatAssoc(a, x, Skip(b));
  }

  lemma TokenStays(s: seq<byte>)
    requires s != [] && !IsSpace(s[0]) && s[0] != SLASH
    ensures Skip(s) == s
  {
  }

  // Every match spells a value

  lemma NumberDigits(s: seq<byte>)
    requires ParseNumber(s).Match?
    ensures DigitCount(s[SignLength(s)..]) > 0 && ParseNumber(s).rest == s[SignLength(s) + DigitCount(s[SignLength(s)..])..]
  {
  }

  lemma NumeralFound(s: seq<byte>) returns (b: seq<byte>)
    requires ParseNumber(s).Match?
    ensures s == b + ParseNumber(s).rest && IsNumeral(b) && SignLength(b) == SignLength(s) && b[0] == s[0]
    ensures b[SignLength(b)..] == s[SignLength(s)..][..DigitCount(s[SignLength(s)..])]
  {
    var k := SignLength(s);
    var n := DigitCount(s[k..]);
    NumberDigits(s);
    b := s[..k + n];
    assert b[0] == s[0];
    assert SignLength(b) == k;
    assert b[k..] == s[k..][..n];
  }

  lemma NumberFound(s: seq<byte>) returns (b: seq<byte>, v: Value)
    requires ParseNumber(s).Match?
    ensures s == b + ParseNumber(s).rest && SpellsToken(b, v) && Ends(v, ParseNumber(s).rest)
    ensures ParseNumber(s).actions == ActionsOf(v)
  {
    b := NumeralFound(s);
    v := ParseNumber(s).actions[0].scalar;
  }

  lemma {:induction false} BodyFound(s: seq<byte>)
    ensures match ClosingQuote(s)
            case None => true
            case Some(k) => IsBody(s[..k]) && s[k] == QUOTE
  {
    if s != [] && s[0] != QUOTE {
      var n := if s[0] == BACKSLASH then 2 else 1;
      if |s| >= n && ClosingQuote(s[n..]).Some? {
        BodyFound(s[n..]);
        var k := ClosingQuote(s).value;
        assert s[..k][n..] == s[n..][..k - n];
      }
    }
  }

  lemma StringFound(s: seq<byte>) returns (b: seq<byte>)
    requires ParseString(s).Ok? && ParseString(s).value.Some?
    ensures var (text, rest) := ParseString(s).value.value; s == b + rest && SpellsString(b, text)
  {
    BodyFound(s[1..]);
    var k := ClosingQuote(s[1..]).value;
    UnescapeIff(s[1..][..k], ParseString(s).value.value.0);
    b := s[..k + 2];
    assert b[1..|b| - 1] == s[1..][..k];
    assert s[1..][k + 1..] == s[k + 2..];
  }

  lemma CloseFound(close: byte, acts: seq<Action>, s: seq<byte>, end: Action, error: ReadError) returns (c: seq<byte>)
    requires CloseWith(close, acts, s, end, error).Match?
    ensures s == c + CloseWith(close, acts, s, end, error).rest && Closes(c, close)
  {
    var w := Skipped(s);
    var t := Skip(s);
    c := w + [close];
    assert c[..|c| - 1] == w;
    assert t == [close] + t[1..];
    ConcatAssoc(w, [close], t[1..]);
  }

  lemma JoinParts(t: seq<byte>, a: seq<byte>, r: seq<byte>, m: seq<byte>, r': seq<byte>, c: seq<byte>, rest: seq<byte>)
    requires t != [] && t[1..] == a + r && r == m + r' && r' == c + rest
    ensures t == ([t[0]] + ((a + m) + c)) + rest
  {
    ConcatAssoc(a, m, r');
    ConcatAssoc(a + m, c, rest);
    assert t == [t[0]] + t[1..];
    ConcatAssoc([t[0]], (a + m) + c, rest);
  }

  lemma ValueCases(s: seq<byte>)
    requires ParseValue(s).Match?
    ensures var t := Skip(s);
            && t != [] && |t| <= |s| && Skip(t) == t && ParseValue(s) == ParseValue(t)
            && (t[0] == OPEN_ARRAY ==> ParseValue(s) == ParseArray(t))
            && (t[0] == OPEN_OBJ ==> ParseValue(s) == ParseObject(t))
  {
  }

  lemma TokenBehind(s: seq<byte>, x: seq<byte>, t: seq<byte>, b: seq<byte>, v: Value, rest: seq<byte>) returns (w: seq<byte>)
    requires s == x + t && t == b + rest && IsBlank(x) && SpellsToken(b, v)
    ensures s == w + rest && Spells(w, v)
  {
    ConcatAssoc(x, b, rest);
    TokenSpells(b, v);
    SpellsBehind(x, b, v);
    w := x + b;
  }

  /** Whatever the text: what a match takes spells a value, and the actions are those of the value. */
  lemma {:induction false} MatchSpells(s: seq<byte>) returns (w: seq<byte>, v: Value)
    requires ParseValue(s).Match?
    ensures s == w + ParseValue(s).rest && Spells(w, v) && Ends(v, ParseValue(s).rest)
    ensures ParseValue(s).actions == ActionsOf(v)
    decreases |s|, 3
  {
    ValueCases(s);
    var t, rest := Skip(s), ParseValue(s).rest;
    var x := Skipped(s);
    var b;
    if t[0] == OPEN_ARRAY {
      b, v := ArrayFound(t);
    } else if t[0] == OPEN_OBJ {
      b, v := ObjectFound(t);
    } else {
      b, v := ScalarFound(t);
    }
    w := TokenBehind(s, x, t, b, v, rest);
  }

  lemma ScalarFound(t: seq<byte>) returns (b: seq<byte>, v: Value)
    requires t != [] && Skip(t) == t && t[0] != OPEN_ARRAY && t[0] != OPEN_OBJ && ParseValue(t).Match?
    ensures t == b + ParseValue(t).rest && SpellsToken(b, v) && Ends(v, ParseValue(t).rest)
    ensures ParseValue(t).actions == ActionsOf(v)
  {
    v := ParseValue(t).actions[0].scalar;
    if t[0] == QUOTE {
      b := StringFound(t);
    } else if StartsWith(t, TRUE) {
      b := TRUE;
    } else if StartsWith(t, FALSE) {
      b := FALSE;
    } else if StartsWith(t, NULL) {
      b := NULL;
    } else {
      b, v := NumberFound(t);
    }
  }

  /** How a match of a list comes about. */
  lemma ArrayParts(t: seq<byte>)
    requires t != [] && ParseArray(t).Match?
    ensures var first := ParseValue(t[1..]);
            if first.Match? then
              var more := ParseMoreElements(first.rest);
              && more.Match?
              && ParseArray(t) == CloseWith(CLOSE_ARRAY, [BeginArray] + (first.actions + more.actions), more.rest, EndArray, NotArray)
            else ParseArray(t) == CloseWith(CLOSE_ARRAY, [BeginArray], t[1..], EndArray, NotArray)
  {
  }

  lemma {:induction false} ArrayFound(t: seq<byte>) returns (b: seq<byte>, v: Value)
    requires t != [] && t[0] == OPEN_ARRAY && ParseArray(t).Match?
    ensures v.Array? && t == b + ParseArray(t).rest && SpellsToken(b, v)
    ensures ParseArray(t).actions == ActionsOf(v)
    decreases |t|, 2
  {
    ArrayParts(t);
    var first := ParseValue(t[1..]);
    if first.Match? {
      var more := ParseMoreElements(first.rest);
      var a, e := MatchSpells(t[1..]);
      var m, es := ElementsFound(first.rest);
      b, v := ArrayJoined(t, a, e, first.rest, m, es, first.actions, more);
    } else {
      b, v := ArrayEmpty(t);
    }
  }

  lemma ArrayEmpty(t: seq<byte>) returns (b: seq<byte>, v: Value)
    requires t != [] && t[0] == OPEN_ARRAY && CloseWith(CLOSE_ARRAY, [BeginArray], t[1..], EndArray, NotArray).Match?
    ensures var r := CloseWith(CLOSE_ARRAY, [BeginArray], t[1..], EndArray, NotArray);
            v == Array([]) && t == b + r.rest && SpellsToken(b, v) && r.actions == ActionsOf(v)
  {
    var c := CloseFound(CLOSE_ARRAY, [BeginArray], t[1..], EndArray, NotArray);
    EmptyArraySpelled(c);
    b, v := [t[0]] + c, Array([]);
    JoinEmpty(t, c, CloseWith(CLOSE_ARRAY, [BeginArray], t[1..], EndArray, NotArray).rest);
    assert [BeginArray] + [] == [BeginArray];
  }

  lemma ArrayJoined(
    t: seq<byte>, a: seq<byte>, e: Value, r: seq<byte>, m: seq<byte>, es: seq<Value>, acts: seq<Action>, more: Parse)
    returns (b: seq<byte>, v: Value)
    requires t != [] && t[0] == OPEN_ARRAY && more.Match? && t[1..] == a + r && r == m + more.rest
    requires Spells(a, e) && SpellsMore(m, es)
    requires acts == ActionsOf(e) && more.actions == ElementActions(es)
    requires CloseWith(CLOSE_ARRAY, [BeginArray] + (acts + more.actions), more.rest, EndArray, NotArray).Match?
    ensures var r' := CloseWith(CLOSE_ARRAY, [BeginArray] + (acts + more.actions), more.rest, EndArray, NotArray);
            v == Array([e] + es) && t == b + r'.rest && SpellsToken(b, v) && r'.actions == ActionsOf(v)
  {
    var rest := CloseWith(CLOSE_ARRAY, [BeginArray] + (acts + more.actions), more.rest, EndArray, NotArray).rest;
    var c := CloseFound(CLOSE_ARRAY, [BeginArray] + (acts + more.actions), more.rest, EndArray, NotArray);
    JoinParts(t, a, r, m, more.rest, c, rest);
    ArraySpelled(a, e, m, es, c);
    ElementActionsCons(e, es);
    b, v := [t[0]] + ((a + m) + c), Array([e] + es);
  }

  lemma {:induction false} ElementsFound(s: seq<byte>) returns (m: seq<byte>, es: seq<Value>)
    requires ParseMoreElements(s).Match?
    ensures s == m + ParseMoreElements(s).rest && SpellsMore(m, es)
    ensures ParseMoreElements(s).actions == ElementActions(es)
    decreases |s|, 4
  {
    var t := Skip(s);
    if t == [] || t[0] != COMMA || ParseValue(t[1..]).NoMatch? {
      m, es := [], [];
    } else {
      var x := Skipped(s);
      var a, e := MatchSpells(t[1..]);
      var r := ParseValue(t[1..]).rest;
      var m', more := ElementsFound(r);
      es := [e] + more;
      ElementActionsCons(e, more);
      m := JoinComma(s, x, t, a, r, m', ParseMoreElements(r).rest);
      MoreSpelled(x, a, e, m', more);
    }
  }

  lemma JoinComma(s: seq<byte>, x: seq<byte>, t: seq<byte>, a: seq<byte>, r: seq<byte>, m: seq<byte>, rest: seq<byte>)
    returns (all: seq<byte>)
    requires s == x + t && t != [] && t[1..] == a + r && r == m + rest
    ensures all == x + ([t[0]] + (a + m)) && s == all + rest
  {
    all := x + ([t[0]] + (a + m));
    ConcatAssoc(a, m, rest);
    assert t == [t[0]] + t[1..];
    ConcatAssoc([t[0]], a + m, rest);
    ConcatAssoc(x, [t[0]] + (a + m), rest);
  }

  lemma JoinColon(s: seq<byte>, x: seq<byte>, q: seq<byte>, after: seq<byte>, y: seq<byte>, t: seq<byte>, a: seq<byte>, rest: seq<byte>)
    returns (all: seq<byte>)
    requires s == x + (q + after) && after == y + t && t != [] && t[1..] == a + rest
    ensures all == x + (q + (y + ([t[0]] + a))) && s == all + rest
  {
    all := x + (q + (y + ([t[0]] + a)));
    assert t == ([t[0]] + a) + rest;
    ConcatAssoc(y, [t[0]] + a, rest);
    ConcatAssoc(q, y + ([t[0]] + a), rest);
    ConcatAssoc(x, q + (y + ([t[0]] + a)), rest);
  }

  lemma JoinEmpty(t: seq<byte>, c: seq<byte>, rest: seq<byte>)
    requires t != [] && t[1..] == c + rest
    ensures t == ([t[0]] + c) + rest
  {
  }

  lemma ElementActionsCons(e: Value, es: seq<Value>)
    ensures ElementActions([e] + es) == ActionsOf(e) + ElementActions(es)
  {
    assert ([e] + es)[1..] == es;
  }

  lemma MemberActionsCons(m: Member, ms: seq<Member>)
    ensures MemberActions([m] + ms) == [NewName(m.name)] + ActionsOf(m.value) + MemberActions(ms)
  {
    assert ([m] + ms)[1..] == ms;
  }

  lemma {:induction false} MemberFound(s: seq<byte>) returns (w: seq<byte>, m: Member)
    requires ParsePair(s).Match?
    ensures s == w + ParsePair(s).rest && SpellsMember(w, m) && Ends(m.value, ParsePair(s).rest)
    ensures ParsePair(s).actions == [NewName(m.name)] + ActionsOf(m.value)
    decreases |s|, 4
  {
    var (name, after) := ParseString(Skip(s)).value.value;
    var x := Skipped(s);
    var q := StringFound(Skip(s));
    var t := Skip(after);
    var y := Skipped(after);
    var a, v := MatchSpells(t[1..]);
    var rest := ParsePair(s).rest;
    m := Member(name, v);
    MemberSpelled(x, q, y, a, m);
    w := JoinColon(s, x, q, after, y, t, a, rest);
  }

  lemma {:induction false} MembersFound(s: seq<byte>) returns (m: seq<byte>, ms: seq<Member>)
    requires ParseMorePairs(s).Match?
    ensures s == m + ParseMorePairs(s).rest && SpellsMoreMembers(m, ms)
    ensures ParseMorePairs(s).actions == MemberActions(ms)
    decreases |s|, 5
  {
    var t := Skip(s);
    if t == [] || t[0] != COMMA || ParsePair(t[1..]).NoMatch? {
      m, ms := [], [];
    } else {
      var x := Skipped(s);
      var a, e := MemberFound(t[1..]);
      var r := ParsePair(t[1..]).rest;
      var m', more := MembersFound(r);
      ms := [e] + more;
      MemberActionsCons(e, more);
      m := JoinComma(s, x, t, a, r, m', ParseMorePairs(r).rest);
      MoreMembersSpelled(x, a, e, m', more);
    }
  }

  /** How a match of a list comes about. */
  lemma ObjectParts(t: seq<byte>)
    requires t != [] && ParseObject(t).Match?
    ensures var first := ParsePair(t[1..]);
            if first.Match? then
              var more := ParseMorePairs(first.rest);
              && more.Match?
              && ParseObject(t) == CloseWith(CLOSE_OBJ, [BeginObj] + (first.actions + more.actions), more.rest, EndObj, NotObject)
            else ParseObject(t) == CloseWith(CLOSE_OBJ, [BeginObj], t[1..], EndObj, NotObject)
  {
  }

  lemma {:induction false} ObjectFound(t: seq<byte>) returns (b: seq<byte>, v: Value)
    requires t != [] && t[0] == OPEN_OBJ && ParseObject(t).Match?
    ensures v.Object? && t == b + ParseObject(t).rest && SpellsToken(b, v)
    ensures ParseObject(t).actions == ActionsOf(v)
    decreases |t|, 2
  {
    ObjectParts(t);
    var first := ParsePair(t[1..]);
    if first.Match? {
      var more := ParseMorePairs(first.rest);
      var a, e := MemberFound(t[1..]);
      var m, ms := MembersFound(first.rest);
      b, v := ObjectJoined(t, a, e, first.rest, m, ms, first.actions, more);
    } else {
      b, v := ObjectEmpty(t);
    }
  }

  lemma ObjectEmpty(t: seq<byte>) returns (b: seq<byte>, v: Value)
    requires t != [] && t[0] == OPEN_OBJ && CloseWith(CLOSE_OBJ, [BeginObj], t[1..], EndObj, NotObject).Match?
    ensures var r := CloseWith(CLOSE_OBJ, [BeginObj], t[1..], EndObj, NotObject);
            v == Object([]) && t == b + r.rest && SpellsToken(b, v) && r.actions == ActionsOf(v)
  {
    var c := CloseFound(CLOSE_OBJ, [BeginObj], t[1..], EndObj, NotObject);
    EmptyObjectSpelled(c);
    b, v := [t[0]] + c, Object([]);
    JoinEmpty(t, c, CloseWith(CLOSE_OBJ, [BeginObj], t[1..], EndObj, NotObject).rest);
    assert [BeginObj] + [] == [BeginObj];
  }

  lemma ObjectJoined(
    t: seq<byte>, a: seq<byte>, e: Member, r: seq<byte>, m: seq<byte>, ms: seq<Member>, acts: seq<Action>, more: Parse)
    returns (b: seq<byte>, v: Value)
    requires t != [] && t[0] == OPEN_OBJ && more.Match? && t[1..] == a + r && r == m + more.rest
    requires SpellsMember(a, e) && SpellsMoreMembers(m, ms)
    requires acts == [NewName(e.name)] + ActionsOf(e.value)
    requires more.actions == MemberActions(ms)
    requires CloseWith(CLOSE_OBJ, [BeginObj] + (acts + more.actions), more.rest, EndObj, NotObject).Match?
    ensures var r' := CloseWith(CLOSE_OBJ, [BeginObj] + (acts + more.actions), more.rest, EndObj, NotObject);
            v == Object([e] + ms) && t == b + r'.rest && SpellsToken(b, v) && r'.actions == ActionsOf(v)
  {
    var rest := CloseWith(CLOSE_OBJ, [BeginObj] + (acts + more.actions), more.rest, EndObj, NotObject).rest;
    var c := CloseFound(CLOSE_OBJ, [BeginObj] + (acts + more.actions), more.rest, EndObj, NotObject);
    JoinParts(t, a, r, m, more.rest, c, rest);
    ObjectSpelled(a, e, m, ms, c);
    MemberActionsCons(e, ms);
    b, v := [t[0]] + ((a + m) + c), Object([e] + ms);
  }

  // Every text that spells a value is read

  lemma {:induction false} BodyIsScanned(e: seq<byte>, rest: seq<byte>)
    requires IsBody(e)
    ensures ClosingQuote(e + ([QUOTE] + rest)) == Some(|e|)
    decreases |e|
  {
    var s := e + ([QUOTE] + rest);
    if e == [] {
      assert s == [QUOTE] + rest;
    } else {
      var n := if e[0] == BACKSLASH then 2 else 1;
      assert s[n..] == e[n..] + ([QUOTE] + rest);
      BodyIsScanned(e[n..], rest);
    }
  }

  lemma StringIsRead(b: seq<byte>, text: seq<byte>, rest: seq<byte>)
    requires SpellsString(b, text)
    ensures ParseString(b + rest) == Ok(Some((text, rest)))
  {
    var s, e := b + rest, b[1..|b| - 1];
    assert s[1..] == e + ([QUOTE] + rest);
    BodyIsScanned(e, rest);
    UnescapeIff(e, text);
    assert s[1..][..|e|] == e && s[1..][|e| + 1..] == rest;
  }

  lemma {:induction false} CountDigits(d: seq<byte>, rest: seq<byte>)
    requires AllDigits(d) && (rest == [] || !IsDigit(rest[0]))
    ensures DigitCount(d + rest) == |d|
  {
    if d == [] {
      assert d + rest == rest;
    } else {
      assert (d + rest)[1..] == d[1..] + rest;
      CountDigits(d[1..], rest);
    }
  }

  lemma NumeralIsRead(b: seq<byte>, rest: seq<byte>)
    requires IsNumeral(b) && EndsNumber(rest)
    ensures ParseNumber(b + rest) == NumberMatch(SignLength(b) == 1, b[0] == MINUS, DecimalValue(b[SignLength(b)..]), rest)
  {
    var s, k := b + rest, SignLength(b);
    assert s[0] == b[0] && s[k..] == b[k..] + rest;
    CountDigits(b[k..], rest);
    assert s[k..][..|b| - k] == b[k..] && s[|b|..] == rest;
  }

  lemma FirstDiffers(s: seq<byte>, word: seq<byte>)
    requires s != [] && word != [] && s[0] != word[0]
    ensures !StartsWith(s, word)
  {
    assert |s| >= |word| ==> s[..|word|][0] == s[0];
  }

  /** What is neither a string nor a compound, nor begins like a word, is a number or nothing. */
  lemma NoWord(t: seq<byte>)
    requires t != [] && t[0] !in {0x74, 0x66, 0x6E, QUOTE, OPEN_OBJ, OPEN_ARRAY} && Skip(t) == t
    ensures ParseValue(t) == ParseNumber(t)
  {
    FirstDiffers(t, TRUE);
    FirstDiffers(t, FALSE);
    FirstDiffers(t, NULL);
  }

  lemma NumberIsRead(b: seq<byte>, v: Value, rest: seq<byte>)
    requires (v.Int64? || v.Uint64?) && SpellsToken(b, v) && EndsNumber(rest)
    ensures ParseValue(b + rest) == Match(ActionsOf(v), rest)
  {
    NumeralBegins(b);
    NumeralIsRead(b, rest);
    TokenStays(b + rest);
    NoWord(b + rest);
  }

  lemma WordIsRead(b: seq<byte>, v: Value, rest: seq<byte>)
    requires (v.Null? || v.Bool?) && SpellsToken(b, v)
    ensures ParseValue(b + rest) == Match(ActionsOf(v), rest)
  {
    var s := b + rest;
    assert s[0] == b[0];
    TokenStays(s);
    assert s[..|b|] == b && s[|b|..] == rest;
    if b != TRUE { FirstDiffers(s, TRUE); }
    if b == NULL { FirstDiffers(s, FALSE); }
  }

  /** A closing bracket comes next, whatever stands in front of it. */
  predicate BracketNext(s: seq<byte>, bracket: byte) {
    Skip(s) != [] && Skip(s)[0] == bracket && bracket in {CLOSE_ARRAY, CLOSE_OBJ} && EndsNumber(s)
  }

  lemma CloseIsRead(c: seq<byte>, bracket: byte, rest: seq<byte>)
    requires Closes(c, bracket) && bracket in {CLOSE_ARRAY, CLOSE_OBJ}
    ensures BracketNext(c + rest, bracket) && Skip(c + rest)[1..] == rest
  {
    var w, t := c[..|c| - 1], [bracket] + rest;
    assert c + rest == w + t;
    TokenStays(t);
    SkipBlank(w, t);
    BlankEnds(w, t);
  }

  lemma NothingToRead(s: seq<byte>)
    requires BracketNext(s, CLOSE_ARRAY)
    ensures ParseValue(s) == NoMatch
  {
    var t := Skip(s);
    TokenStays(t);
    NoWord(t);
    assert t[0..] == t;
  }

  lemma FirstStays(c: seq<byte>, s: seq<byte>)
    requires c != []
    ensures (c + s)[0] == c[0] && (c + s)[1..] == c[1..] + s
  {
  }

  lemma CommaIsRead(w: seq<byte>, c: seq<byte>, s: seq<byte>)
    requires IsBlank(w) && c != [] && c[0] == COMMA
    ensures Skip((w + c) + s) == c + s && (c + s)[0] == COMMA && (c + s)[1..] == c[1..] + s && EndsNumber((w + c) + s)
  {
    FirstStays(c, s);
    BlankIsSkipped(w, c + s);
    BlankEnds(w, c + s);
    ConcatAssoc(w, c, s);
  }

  /** A text that spells a value is read as that value, and what follows is left. */
  lemma {:induction false} SpelledIsRead(s: seq<byte>, v: Value, rest: seq<byte>)
    requires Spells(s, v) && Ends(v, rest)
    ensures ParseValue(s + rest) == Match(ActionsOf(v), rest)
    decreases v, 1
  {
    var w, b :| s == w + b && IsBlank(w) && SpellsToken(b, v);
    ConcatAssoc(w, b, rest);
    TokenBegins(b, v);
    TokenStays(b + rest);
    SkipBlank(w, b + rest);
    TokenIsRead(b, v, rest);
  }

  lemma {:induction false} TokenIsRead(b: seq<byte>, v: Value, rest: seq<byte>)
    requires SpellsToken(b, v) && Ends(v, rest)
    ensures ParseValue(b + rest) == Match(ActionsOf(v), rest)
    decreases v, 0
  {
    TokenBegins(b, v);
    TokenStays(b + rest);
    match v
    case Null => WordIsRead(b, v, rest);
    case Bool(_) => WordIsRead(b, v, rest);
    case Int64(_) => NumberIsRead(b, v, rest);
    case Uint64(_) => NumberIsRead(b, v, rest);
    case Str(text) => StringIsRead(b, text, rest);
    case Array(es) => ArrayIsRead(b, es, rest);
    case Object(ms) => ObjectIsRead(b, ms, rest);
  }

  lemma {:induction false} ArrayIsRead(b: seq<byte>, es: seq<Value>, rest: seq<byte>)
    requires SpellsToken(b, Array(es))
    ensures b != [] && ParseArray(b + rest) == Match([BeginArray] + ElementActions(es) + [EndArray], rest)
    decreases es, 2
  {
    var i, c :| b[1..] == i + c && SpellsElements(i, es) && Closes(c, CLOSE_ARRAY);
    var close := c + rest;
    assert (b + rest)[1..] == i + close;
    CloseIsRead(c, CLOSE_ARRAY, rest);
    if es == [] {
      assert i + close == close && [BeginArray] + [] == [BeginArray];
      NothingToRead(close);
    } else {
      ElementsAreRead(i, es, close);
    }
  }

  lemma {:induction false} ElementsAreRead(s: seq<byte>, es: seq<Value>, close: seq<byte>)
    requires es != [] && SpellsElements(s, es) && BracketNext(close, CLOSE_ARRAY)
    ensures var first := ParseValue(s + close);
            && first.Match?
            && var more := ParseMoreElements(first.rest);
            && more.Match? && more.rest == close && first.actions + more.actions == ElementActions(es)
    decreases es, 0
  {
    var a, b :| s == a + b && Spells(a, es[0]) && SpellsMore(b, es[1..]);
    ConcatAssoc(a, b, close);
    MoreAreRead(b, es[1..], close);
    SpelledIsRead(a, es[0], b + close);
  }

  lemma {:induction false} MoreAreRead(s: seq<byte>, es: seq<Value>, close: seq<byte>)
    requires SpellsMore(s, es) && BracketNext(close, CLOSE_ARRAY)
    ensures ParseMoreElements(s + close) == Match(ElementActions(es), close) && EndsNumber(s + close)
    decreases es, 1
  {
    if es == [] {
      assert s + close == close;
    } else {
      var w, c :| s == w + c && IsBlank(w) && c != [] && c[0] == COMMA && SpellsElements(c[1..], es);
      CommaIsRead(w, c, close);
      ElementsAreRead(c[1..], es, close);
    }
  }

  lemma {:induction false} ObjectIsRead(b: seq<byte>, ms: seq<Member>, rest: seq<byte>)
    requires SpellsToken(b, Object(ms))
    ensures b != [] && ParseObject(b + rest) == Match([BeginObj] + MemberActions(ms) + [EndObj], rest)
    decreases ms, 2
  {
    var i, c :| b[1..] == i + c && SpellsMembers(i, ms) && Closes(c, CLOSE_OBJ);
    var close := c + rest;
    assert (b + rest)[1..] == i + close;
    CloseIsRead(c, CLOSE_OBJ, rest);
    if ms == [] {
      assert i + close == close && [BeginObj] + [] == [BeginObj];
    } else {
      MembersAreRead(i, ms, close);
    }
  }

  lemma PairIsRead(t: seq<byte>, name: seq<byte>, after: seq<byte>, d: seq<byte>)
    requires Skip(t) == t && ParseString(t) == Ok(Some((name, after))) && Skip(after) == d && d != [] && d[0] == COLON
    ensures match ParseValue(d[1..])
            case Match(acts, rest) => ParsePair(t) == Match([NewName(name)] + acts, rest)
            case _ => ParsePair(t).Fail?
  {
  }

  lemma SamePair(s: seq<byte>, t: seq<byte>)
    requires Skip(s) == Skip(t)
    ensures ParsePair(s) == ParsePair(t)
  {
  }

  lemma {:induction false} SecondIsRead(c: seq<byte>, v: Value, rest: seq<byte>) returns (d: seq<byte>)
    requires SpellsSecond(c, v) && Ends(v, rest)
    ensures d != [] && d[0] == COLON && Skip(c + rest) == d && ParseValue(d[1..]) == Match(ActionsOf(v), rest)
    decreases v, 2
  {
    var x, e :| c == x + e && IsBlank(x) && e != [] && e[0] == COLON && Spells(e[1..], v);
    d := e + rest;
    FirstStays(e, rest);
    BlankIsSkipped(x, d);
    ConcatAssoc(x, e, rest);
    SpelledIsRead(e[1..], v, rest);
  }

  lemma {:induction false} MemberIsRead(s: seq<byte>, m: Member, rest: seq<byte>)
    requires SpellsMember(s, m) && Ends(m.value, rest)
    ensures ParsePair(s + rest) == Match([NewName(m.name)] + ActionsOf(m.value), rest)
    decreases m, 1
  {
    var w, b :| s == w + b && IsBlank(w) && SpellsPair(b, m);
    var q, c :| b == q + c && SpellsString(q, m.name) && SpellsSecond(c, m.value);
    var d := SecondIsRead(c, m.value, rest);
    StringIsRead(q, m.name, c + rest);
    var t := q + (c + rest);
    TokenStays(t);
    PairIsRead(t, m.name, c + rest, d);
    MemberBehindBlank(w, q, c, rest);
    SkipBlank(w, t);
    SamePair(s + rest, t);
  }

  lemma MemberBehindBlank(w: seq<byte>, q: seq<byte>, c: seq<byte>, rest: seq<byte>)
    ensures w + (q + c) + rest == w + (q + (c + rest))
  {
  }

  lemma {:induction false} MembersAreRead(s: seq<byte>, ms: seq<Member>, close: seq<byte>)
    requires ms != [] && SpellsMembers(s, ms) && BracketNext(close, CLOSE_OBJ)
    ensures var first := ParsePair(s + close);
            && first.Match?
            && var more := ParseMorePairs(first.rest);
            && more.Match? && more.rest == close && first.actions + more.actions == MemberActions(ms)
    decreases ms, 0
  {
    var a, b :| s == a + b && SpellsMember(a, ms[0]) && SpellsMoreMembers(b, ms[1..]);
    ConcatAssoc(a, b, close);
    MoreMembersAreRead(b, ms[1..], close);
    MemberIsRead(a, ms[0], b + close);
  }

  lemma {:induction false} MoreMembersAreRead(s: seq<byte>, ms: seq<Member>, close: seq<byte>)
    requires SpellsMoreMembers(s, ms) && BracketNext(close, CLOSE_OBJ)
    ensures ParseMorePairs(s + close) == Match(MemberActions(ms), close) && EndsNumber(s + close)
    decreases ms, 1
  {
    if ms == [] {
      assert s + close == close;
    } else {
      var w, c :| s == w + c && IsBlank(w) && c != [] && c[0] == COMMA && SpellsMembers(c[1..], ms);
      CommaIsRead(w, c, close);
      MembersAreRead(c[1..], ms, close);
    }
  }

  /** The parser takes a text for a value exactly if it begins with one that spells the value and ends there. */
  lemma MatchIff(s: seq<byte>, acts: seq<Action>, rest: seq<byte>)
    ensures ParseValue(s) == Match(acts, rest) <==>
            exists w, v :: s == w + rest && Spells(w, v) && Ends(v, rest) && acts == ActionsOf(v)
  {
    if ParseValue(s) == Match(acts, rest) {
      MatchSpelled(s);
    }
    if w, v :| s == w + rest && Spells(w, v) && Ends(v, rest) && acts == ActionsOf(v) {
      SpelledMatches(s, w, v, acts, rest);
    }
  }

  lemma SpelledMatches(s: seq<byte>, w: seq<byte>, v: Value, acts: seq<Action>, rest: seq<byte>)
    requires s == w + rest && Spells(w, v) && Ends(v, rest) && acts == ActionsOf(v)
    ensures ParseValue(s) == Match(acts, rest)
  {
    SpelledIsRead(w, v, rest);
  }

  lemma MatchSpelled(s: seq<byte>)
    requires ParseValue(s).Match?
    ensures var r := ParseValue(s);
            exists w, v :: s == w + r.rest && Spells(w, v) && Ends(v, r.rest) && r.actions == ActionsOf(v)
  {
    var w, v := MatchSpells(s);
  }

  // The machine behind the grammar

  /** `json_` and the machine behind it: the value that a text leaves in the variable it is read into. */
  function ReadJson(s: seq<byte>, before: Value): Result<Value, ReadError> {
    match ParseValue(s)
    case NoMatch => Err(NotValue)
    case Fail(e) => Err(e)
    case Match(acts, _) =>
      match Run(Initial(before), acts)
      case None => Err(NotValue)
      case Some(m) => Ok(m.value)
  }

  /** No assertion of the machine fails on any text that matches. */
  lemma EveryMatchRuns(s: seq<byte>, before: Value)
    requires ParseValue(s).Match?
    ensures Run(Initial(before), ParseValue(s).actions).Some? && ReadJson(s, before).Ok?
  {
    var w, v := MatchSpells(s);
    ReplayBuilds(v, before);
  }

  /** A text is read as a value exactly if it begins with a text that spells the value and ends there. */
  lemma ReadIff(s: seq<byte>, before: Value, v: Value)
    ensures ReadJson(s, before) == Ok(v) <==> exists w, rest :: s == w + rest && Spells(w, v) && Ends(v, rest)
  {
    if ReadJson(s, before) == Ok(v) {
      var w, u := MatchSpells(s);
      ReplayBuilds(u, before);
    }
    if w, rest :| s == w + rest && Spells(w, v) && Ends(v, rest) {
      SpelledMatches(s, w, v, ActionsOf(v), rest);
      ReplayBuilds(v, before);
    }
  }

  /** No text spells two values. */
  lemma SpellingIsUnique(w: seq<byte>, v: Value, v': Value)
    requires Spells(w, v) && Spells(w, v')
    ensures v == v'
  {
    SpelledIsRead(w, v, []);
    SpelledIsRead(w, v', []);
    ReplayBuilds(v, Null);
    ReplayBuilds(v', Null);
  }

  /** The machine performs the actions in the order in which the grammar calls them. */
  method PerformAll(machine: Machine, acts: seq<Action>)
    requires Run(machine.Contents(), acts).Some?
    modifies machine
    ensures Some(machine.Contents()) == Run(old(machine.Contents()), acts)
  {
    var i := 0;
    assert acts[i..] == acts;
    while i < |acts|
      invariant i <= |acts|
      invariant Run(machine.Contents(), acts[i..]) == Run(old(machine.Contents()), acts)
    {
      assert acts[i..][0] == acts[i] && acts[i..][1..] == acts[i + 1..];
      machine.Perform(acts[i]);
      i := i + 1;
    }
  }

  /** `read_range_or_throw` with its machine. */
  method Read(s: seq<byte>, before: Value) returns (r: Result<Value, ReadError>)
    ensures r == ReadJson(s, before)
  {
    match ParseValue(s)
    case NoMatch => return Err(NotValue);
    case Fail(e) => return Err(e);
    case Match(acts, _) =>
      EveryMatchRuns(s, before);
      var machine := new Machine(before);
      PerformAll(machine, acts);
      return Ok(machine.value);
  }
}
