/**
 Which texts are refused, and with which exception (server/json_spirit/json_spirit_reader_template.h:488-544): a relation
 between texts and errors on top of the grammar, apart from the parser, and the proof that the parser meets it.
 */
module JsonFaults {
  import opened Wrappers
  import opened Utf8
  import opened JsonStrings
  import opened JsonEscapes
  import opened JsonValues
  import opened JsonWriter
  import opened JsonGrammar
  import opened SemanticActions
  import opened JsonReader

  /** `s` goes on with this character, behind any white space and comments, and `t` is what follows it. */
  ghost predicate GoesOnWith(s: seq<byte>, c: byte, t: seq<byte>) {
    exists w :: IsBlank(w) && s == w + ([c] + t)
  }

  /** `s` begins with a string token, `e` is its inside and `rest` what follows it. */
  predicate HasString(s: seq<byte>, e: seq<byte>, rest: seq<byte>) {
    s == [QUOTE] + e + [QUOTE] + rest && IsBody(e)
  }

  /** A number that goes on with a point or an exponent. */
  predicate IsReal(s: seq<byte>, digits: nat) {
    var k := SignLength(s);
    && k + digits < |s| && AllDigits(s[k..k + digits])
    && (s[k + digits] == '.' as int || (digits > 0 && s[k + digits] in {'e' as int, 'E' as int}))
  }

  /** A prefix of `s` spells the value, and `rest` does not go on with it. */
  ghost predicate HasValue(s: seq<byte>, v: Value, rest: seq<byte>) {
    Ends(v, rest) && exists w :: s == w + rest && Spells(w, v)
  }

  ghost predicate HasMember(s: seq<byte>, m: Member, rest: seq<byte>) {
    Ends(m.value, rest) && exists w :: s == w + rest && SpellsMember(w, m)
  }

  /** A value begins, but it is at fault. */
  ghost predicate FailsValue(s: seq<byte>, e: ReadError)
    decreases |s|, 4
  {
    exists w, t :: s == w + t && IsBlank(w) && FailsToken(t, e)
  }

  ghost predicate FailsToken(t: seq<byte>, e: ReadError)
    decreases |t|, 3
  {
    || (e.BadEscape? && exists body, rest :: HasString(t, body, rest) && IsFaulty(body, e.fault))
    || (e.RealNumber? && exists n: nat :: IsReal(t, n))
    || (t != [] && t[0] == OPEN_ARRAY && FailsArray(t[1..], e))
    || (t != [] && t[0] == OPEN_OBJ && FailsObject(t[1..], e))
  }

  /** No value begins. */
  ghost predicate NoValue(s: seq<byte>)
    decreases |s|, 5
  {
    (forall v, rest :: !HasValue(s, v, rest)) && (forall e :: !FailsValue(s, e))
  }

  /** Behind the opening bracket. */
  ghost predicate FailsArray(s: seq<byte>, e: ReadError)
    decreases |s|, 6
  {
    || FailsValue(s, e)
    || (NoValue(s) && e == NotArray && forall t :: !GoesOnWith(s, CLOSE_ARRAY, t))
    || exists v, rest :: HasValue(s, v, rest) && |rest| < |s| && FailsElements(rest, e)
  }

  /** Behind an element. */
  ghost predicate FailsElements(s: seq<byte>, e: ReadError)
    decreases |s|, 6
  {
    || (e == NotArray && (forall t :: !GoesOnWith(s, COMMA, t)) && (forall t :: !GoesOnWith(s, CLOSE_ARRAY, t)))
    || exists t :: GoesOnWith(s, COMMA, t) && |t| < |s| && FailsNext(t, e)
  }

  /** Behind a comma. */
  ghost predicate FailsNext(t: seq<byte>, e: ReadError)
    decreases |t|, 7
  {
    || FailsValue(t, e)
    || (NoValue(t) && e == NotArray)
    || exists v, rest :: HasValue(t, v, rest) && |rest| < |t| && FailsElements(rest, e)
  }

  ghost predicate NoMember(s: seq<byte>) {
    forall w, t :: IsBlank(w) && s == w + t ==> forall body, rest :: !HasString(t, body, rest)
  }

  /** A name begins, but it or its value is at fault. */
  ghost predicate FailsMember(s: seq<byte>, e: ReadError)
    decreases |s|, 6
  {
    exists w, t :: s == w + t && IsBlank(w) && FailsPair(t, e)
  }

  ghost predicate FailsPair(t: seq<byte>, e: ReadError)
    decreases |t|, 5
  {
    exists body, rest :: HasString(t, body, rest) && |rest| < |t| &&
      (|| (e.BadEscape? && IsFaulty(body, e.fault))
       || ((exists name :: StandsFor(body, name)) && FailsSecond(rest, e)))
  }

  /** Behind a name. */
  ghost predicate FailsSecond(s: seq<byte>, e: ReadError)
    decreases |s|, 6
  {
    || (e == NoColon && forall t :: !GoesOnWith(s, COLON, t))
    || exists t :: GoesOnWith(s, COLON, t) && |t| < |s| && (FailsValue(t, e) || (NoValue(t) && e == NotValue))
  }

  ghost predicate FailsObject(s: seq<byte>, e: ReadError)
    decreases |s|, 7
  {
    || FailsMember(s, e)
    || (NoMember(s) && e == NotObject && forall t :: !GoesOnWith(s, CLOSE_OBJ, t))
    || exists m, rest :: HasMember(s, m, rest) && |rest| < |s| && FailsMembers(rest, e)
  }

  ghost predicate FailsMembers(s: seq<byte>, e: ReadError)
    decreases |s|, 7
  {
    || (e == NotObject && (forall t :: !GoesOnWith(s, COMMA, t)) && (forall t :: !GoesOnWith(s, CLOSE_OBJ, t)))
    || exists t :: GoesOnWith(s, COMMA, t) && |t| < |s| && FailsNextMember(t, e)
  }

  ghost predicate FailsNextMember(t: seq<byte>, e: ReadError)
    decreases |t|, 8
  {
    || FailsMember(t, e)
    || (NoMember(t) && e == NotObject)
    || exists m, rest :: HasMember(t, m, rest) && |rest| < |t| && FailsMembers(rest, e)
  }

  // The pieces

  lemma GoesOnIff(s: seq<byte>, c: byte)
    requires c in {COMMA, COLON, CLOSE_ARRAY, CLOSE_OBJ}
    ensures forall t :: GoesOnWith(s, c, t) <==> Skip(s) != [] && Skip(s)[0] == c && t == Skip(s)[1..]
  {
    forall t ensures GoesOnWith(s, c, t) <==> Skip(s) != [] && Skip(s)[0] == c && t == Skip(s)[1..] {
      if GoesOnWith(s, c, t) { GoesOnThere(s, c, t); }
      if Skip(s) != [] && Skip(s)[0] == c && t == Skip(s)[1..] { ThereGoesOn(s); }
    }
  }

  lemma GoesOnThere(s: seq<byte>, c: byte, t: seq<byte>)
    requires GoesOnWith(s, c, t) && c in {COMMA, COLON, CLOSE_ARRAY, CLOSE_OBJ}
    ensures Skip(s) != [] && Skip(s)[0] == c && t == Skip(s)[1..]
  {
    var w :| IsBlank(w) && s == w + ([c] + t);
    BlankIsSkipped(w, [c] + t);
  }

  lemma ThereGoesOn(s: seq<byte>)
    requires Skip(s) != []
    ensures GoesOnWith(s, Skip(s)[0], Skip(s)[1..])
  {
    var w := Skipped(s);
    assert Skip(s) == [Skip(s)[0]] + Skip(s)[1..];
  }

  lemma HasStringIff(s: seq<byte>, e: seq<byte>, rest: seq<byte>)
    ensures HasString(s, e, rest) <==>
            && s != [] && s[0] == QUOTE && ClosingQuote(s[1..]) == Some(|e|)
            && e == s[1..][..|e|] && rest == s[1..][|e| + 1..]
  {
    if HasString(s, e, rest) {
      assert s[1..] == e + ([QUOTE] + rest);
      BodyIsScanned(e, rest);
    }
    if s != [] && s[0] == QUOTE && ClosingQuote(s[1..]) == Some(|e|) && e == s[1..][..|e|] && rest == s[1..][|e| + 1..] {
      BodyFound(s[1..]);
      assert s == [QUOTE] + e + [QUOTE] + rest;
    }
  }

  lemma HasValueIff(s: seq<byte>)
    ensures forall v, rest :: HasValue(s, v, rest) <==> ParseValue(s) == Match(ActionsOf(v), rest)
  {
    forall v, rest | HasValue(s, v, rest) ensures ParseValue(s) == Match(ActionsOf(v), rest) {
      var w :| s == w + rest && Spells(w, v);
      SpelledMatches(s, w, v, ActionsOf(v), rest);
    }
    if ParseValue(s).Match? {
      var w, u := MatchSpells(s);
      forall v, rest | ParseValue(s) == Match(ActionsOf(v), rest) ensures HasValue(s, v, rest) {
        ActionsDetermine(u, v);
        assert s == w + rest && Spells(w, v);
      }
    }
  }

  lemma ActionsDetermine(u: Value, v: Value)
    requires ActionsOf(u) == ActionsOf(v)
    ensures u == v
  {
    ReplayBuilds(u, Null);
    ReplayBuilds(v, Null);
  }

  lemma MembersDetermine(m: Member, n: Member)
    requires [NewName(m.name)] + ActionsOf(m.value) == [NewName(n.name)] + ActionsOf(n.value)
    ensures m == n
  {
    var a, b := [NewName(m.name)] + ActionsOf(m.value), [NewName(n.name)] + ActionsOf(n.value);
    assert a[0] == b[0] && a[1..] == ActionsOf(m.value) && b[1..] == ActionsOf(n.value);
    ActionsDetermine(m.value, n.value);
  }

  lemma HasMemberIff(s: seq<byte>)
    ensures forall m, rest :: HasMember(s, m, rest) <==> ParsePair(s) == Match([NewName(m.name)] + ActionsOf(m.value), rest)
  {
    forall m: Member, rest | HasMember(s, m, rest) ensures ParsePair(s) == Match([NewName(m.name)] + ActionsOf(m.value), rest) {
      var w :| s == w + rest && SpellsMember(w, m);
      MemberIsRead(w, m, rest);
    }
    if ParsePair(s).Match? {
      var w, u := MemberFound(s);
      forall m: Member, rest | ParsePair(s) == Match([NewName(m.name)] + ActionsOf(m.value), rest) ensures HasMember(s, m, rest) {
        MembersDetermine(u, m);
        assert s == w + rest && SpellsMember(w, m);
      }
    }
  }

  lemma RealIff(s: seq<byte>)
    ensures (exists n: nat :: IsReal(s, n)) <==> ParseNumber(s) == Fail(RealNumber)
    ensures ParseNumber(s).Fail? ==> ParseNumber(s).error == RealNumber
  {
    var k := SignLength(s);
    var n := DigitCount(s[k..]);
    assert s[k..k + n] == s[k..][..n];
    if ParseNumber(s) == Fail(RealNumber) {
      assert IsReal(s, n);
    }
    forall m: nat | IsReal(s, m) ensures m == n {
      RealDigits(s, m);
    }
  }

  lemma RealDigits(s: seq<byte>, m: nat)
    requires IsReal(s, m)
    ensures m == DigitCount(s[SignLength(s)..])
  {
    var k := SignLength(s);
    assert s[k..] == s[k..k + m] + s[k + m..];
    CountDigits(s[k..k + m], s[k + m..]);
  }

  // What the parser reports

  lemma {:induction false} ValueFailsIff(s: seq<byte>)
    ensures forall e :: FailsValue(s, e) <==> ParseValue(s) == Fail(e)
    decreases |s|, 4
  {
    var t := Skip(s);
    forall e, t' | (exists w :: s == w + t' && IsBlank(w)) && FailsToken(t', e) ensures t' == t {
      var w :| s == w + t' && IsBlank(w);
      FaultBegins(t', e);
      BlankIsSkipped(w, t');
    }
    if t != [] {
      TokenFailsIff(t);
      var w := Skipped(s);
      assert ParseValue(s) == ParseValue(t);
    }
  }

  lemma FaultBegins(t: seq<byte>, e: ReadError)
    requires FailsToken(t, e)
    ensures t != [] && !IsSpace(t[0]) && t[0] != SLASH
  {
    if e.RealNumber? && exists n: nat :: IsReal(t, n) {
      var n: nat :| IsReal(t, n);
      RealBegins(t, n);
    }
  }

  lemma {:induction false} TokenFailsIff(t: seq<byte>)
    requires t != [] && Skip(t) == t
    ensures forall e :: FailsToken(t, e) <==> ParseValue(t) == Fail(e)
    decreases |t|, 3
  {
    if t[0] == QUOTE {
      StringFailsIff(t);
    } else if t[0] == OPEN_ARRAY {
      NoRealBegins(t);
      ArrayFailsIff(t);
    } else if t[0] == OPEN_OBJ {
      NoRealBegins(t);
      ObjectFailsIff(t);
    } else {
      NumberFailsIff(t);
    }
  }

  lemma NoRealBegins(t: seq<byte>)
    requires t != [] && !IsDigit(t[0]) && t[0] !in {MINUS, PLUS, '.' as int}
    ensures forall n: nat :: !IsReal(t, n)
  {
    forall n: nat ensures !IsReal(t, n) {
      if IsReal(t, n) { RealBegins(t, n); }
    }
  }

  lemma RealBegins(t: seq<byte>, n: nat)
    requires IsReal(t, n)
    ensures IsDigit(t[0]) || t[0] in {MINUS, PLUS, '.' as int}
  {
    if SignLength(t) == 0 && n > 0 {
      assert t[0..0 + n][0] == t[0];
    }
  }

  lemma StringFailsIff(t: seq<byte>)
    requires t != [] && t[0] == QUOTE && Skip(t) == t
    ensures forall e :: FailsToken(t, e) <==> ParseValue(t) == Fail(e)
  {
    NoRealBegins(t);
    forall body, rest ensures HasString(t, body, rest) <==>
      ClosingQuote(t[1..]) == Some(|body|) && body == t[1..][..|body|] && rest == t[1..][|body| + 1..]
    {
      HasStringIff(t, body, rest);
    }
    if ClosingQuote(t[1..]).Some? {
      var k := ClosingQuote(t[1..]).value;
      forall f ensures Unescape(t[1..][..k]) == Err(f) <==> IsFaulty(t[1..][..k], f) {
        UnescapeFailsIff(t[1..][..k], f);
      }
      assert HasString(t, t[1..][..k], t[1..][k + 1..]);
    }
  }

  lemma NumberFailsIff(t: seq<byte>)
    requires t != [] && t[0] !in {QUOTE, OPEN_ARRAY, OPEN_OBJ} && Skip(t) == t
    ensures forall e :: FailsToken(t, e) <==> ParseValue(t) == Fail(e)
  {
    NoStringBegins(t);
    if StartsWith(t, TRUE) || StartsWith(t, FALSE) || StartsWith(t, NULL) {
      assert t[0] == t[..4][0];
      NoRealBegins(t);
    } else {
      RealIff(t);
      assert ParseValue(t) == ParseNumber(t);
    }
  }

  lemma NoStringBegins(t: seq<byte>)
    requires t == [] || t[0] != QUOTE
    ensures forall body, rest :: !HasString(t, body, rest)
  {
  }

  lemma NoValueIff(s: seq<byte>)
    requires forall e :: FailsValue(s, e) <==> ParseValue(s) == Fail(e)
    ensures NoValue(s) <==> ParseValue(s).NoMatch?
  {
    HasValueIff(s);
    if ParseValue(s).Match? {
      var w, v := MatchSpells(s);
      assert HasValue(s, v, ParseValue(s).rest);
    }
    if ParseValue(s).Fail? {
      assert FailsValue(s, ParseValue(s).error);
    }
  }

  /** What goes wrong behind an element, if anything does. */
  function AfterElements(s: seq<byte>): Option<ReadError> {
    match ParseMoreElements(s)
    case Fail(e) => Some(e)
    case Match(_, rest) => if Skip(rest) != [] && Skip(rest)[0] == CLOSE_ARRAY then None else Some(NotArray)
    case NoMatch => None
  }

  lemma AfterElementsStep(s: seq<byte>)
    ensures var t := Skip(s);
            AfterElements(s) ==
            if t == [] || t[0] != COMMA then (if t != [] && t[0] == CLOSE_ARRAY then None else Some(NotArray))
            else NextFault(t[1..])
  {
  }

  function NextFault(t: seq<byte>): Option<ReadError> {
    match ParseValue(t)
    case NoMatch => Some(NotArray)
    case Fail(f) => Some(f)
    case Match(_, rest) => AfterElements(rest)
  }

  lemma {:induction false} ElementsFailIff(s: seq<byte>)
    ensures forall e :: FailsElements(s, e) <==> AfterElements(s) == Some(e)
    decreases |s|, 6
  {
    AfterElementsStep(s);
    GoesOnIff(s, COMMA);
    GoesOnIff(s, CLOSE_ARRAY);
    var t := Skip(s);
    if t != [] && t[0] == COMMA {
      assert GoesOnWith(s, COMMA, t[1..]);
      NextFailsIff(t[1..]);
    } else if t != [] && t[0] == CLOSE_ARRAY {
      assert GoesOnWith(s, CLOSE_ARRAY, t[1..]);
    }
  }

  lemma {:induction false} NextFailsIff(t: seq<byte>)
    ensures forall e :: FailsNext(t, e) <==> NextFault(t) == Some(e)
    decreases |t|, 7
  {
    ValueFailsIff(t);
    NoValueIff(t);
    HasValueIff(t);
    if ParseValue(t).Match? {
      var w, v := MatchSpells(t);
      assert HasValue(t, v, ParseValue(t).rest);
      ElementsFailIff(ParseValue(t).rest);
    }
  }

  lemma {:induction false} ArrayFailsIff(t: seq<byte>)
    requires t != [] && t[0] == OPEN_ARRAY
    ensures forall e :: FailsArray(t[1..], e) <==> ParseArray(t) == Fail(e)
    decreases |t|, 2
  {
    var s := t[1..];
    ValueFailsIff(s);
    NoValueIff(s);
    HasValueIff(s);
    if ParseValue(s).Match? {
      var w, v := MatchSpells(s);
      assert HasValue(s, v, ParseValue(s).rest);
      ElementsFailIff(ParseValue(s).rest);
      FilledArray(t);
    } else if ParseValue(s).NoMatch? {
      EmptyArray(t);
    }
  }

  lemma FilledArray(t: seq<byte>)
    requires t != [] && ParseValue(t[1..]).Match?
    ensures forall e :: ParseArray(t) == Fail(e) <==> AfterElements(ParseValue(t[1..]).rest) == Some(e)
  {
  }

  lemma EmptyArray(t: seq<byte>)
    requires t != [] && ParseValue(t[1..]).NoMatch?
    ensures forall e :: ParseArray(t) == Fail(e) <==> e == NotArray && forall r :: !GoesOnWith(t[1..], CLOSE_ARRAY, r)
  {
    var s := t[1..];
    GoesOnIff(s, CLOSE_ARRAY);
    if Skip(s) != [] && Skip(s)[0] == CLOSE_ARRAY {
      assert GoesOnWith(s, CLOSE_ARRAY, Skip(s)[1..]);
    }
  }

  // Objects

  /** A name token, read. */
  function NameOf(body: seq<byte>, rest: seq<byte>): Result<Option<(seq<byte>, seq<byte>)>, ReadError> {
    var r := Unescape(body);
    if r.Ok? then Ok(Some((r.value, rest))) else Err(BadEscape(r.error))
  }

  lemma NameIff(s: seq<byte>)
    ensures forall body, rest :: HasString(Skip(s), body, rest) ==>
              ParseString(Skip(s)) == NameOf(body, rest)
    ensures (forall body, rest :: !HasString(Skip(s), body, rest)) ==> ParseString(Skip(s)) == Ok(None)
  {
    var t := Skip(s);
    forall body, rest ensures HasString(t, body, rest) <==>
      && t != [] && t[0] == QUOTE && ClosingQuote(t[1..]) == Some(|body|) && body == t[1..][..|body|] && rest == t[1..][|body| + 1..]
    {
      HasStringIff(t, body, rest);
    }
    if t != [] && t[0] == QUOTE && ClosingQuote(t[1..]).Some? {
      var k := ClosingQuote(t[1..]).value;
      assert HasString(t, t[1..][..k], t[1..][k + 1..]);
    }
  }

  lemma StringStays(w: seq<byte>, t: seq<byte>, body: seq<byte>, rest: seq<byte>)
    requires IsBlank(w) && HasString(t, body, rest)
    ensures Skip(w + t) == t
  {
    BlankIsSkipped(w, t);
  }

  lemma NoMemberIff(s: seq<byte>)
    ensures NoMember(s) <==> ParsePair(s).NoMatch?
  {
    NameIff(s);
    forall w, t, body, rest | IsBlank(w) && s == w + t && HasString(t, body, rest) ensures t == Skip(s) {
      StringStays(w, t, body, rest);
    }
    if !(forall body, rest :: !HasString(Skip(s), body, rest)) {
      var w := Skipped(s);
      assert IsBlank(w) && s == w + Skip(s);
    }
  }

  /** What goes wrong behind a name, if anything does. */
  function AfterName(s: seq<byte>): Option<ReadError> {
    var t := Skip(s);
    if t == [] || t[0] != COLON then Some(NoColon) else ValueFault(t[1..])
  }

  /** What is wrong where a value must stand, if anything is. */
  function ValueFault(t: seq<byte>): Option<ReadError> {
    match ParseValue(t)
    case NoMatch => Some(NotValue)
    case Fail(e) => Some(e)
    case Match(_, _) => None
  }

  lemma {:induction false} ValueFaultIff(t: seq<byte>)
    ensures forall e :: FailsValue(t, e) || (NoValue(t) && e == NotValue) <==> ValueFault(t) == Some(e)
    decreases |t|, 5
  {
    ValueFailsIff(t);
    NoValueIff(t);
  }

  lemma {:induction false} SecondFailsIff(s: seq<byte>)
    ensures forall e :: FailsSecond(s, e) <==> AfterName(s) == Some(e)
    decreases |s|, 6
  {
    GoesOnIff(s, COLON);
    var t := Skip(s);
    if t != [] && t[0] == COLON {
      assert GoesOnWith(s, COLON, t[1..]);
      ValueFaultIff(t[1..]);
    }
  }

  lemma PairParts(s: seq<byte>)
    ensures ParsePair(s) ==
            var name := ParseString(Skip(s));
            if name.Err? then Fail(name.error)
            else if name.value.None? then NoMatch
            else
              var rest := name.value.value.1;
              if AfterName(rest).Some? then Fail(AfterName(rest).value)
              else Match([NewName(name.value.value.0)] + ParseValue(Skip(rest)[1..]).actions, ParseValue(Skip(rest)[1..]).rest)
  {
  }

  lemma {:induction false} PairFailsIff(t: seq<byte>, body: seq<byte>, rest: seq<byte>)
    requires HasString(t, body, rest)
    ensures forall e :: FailsPair(t, e) <==>
              if Unescape(body).Err? then e == BadEscape(Unescape(body).error) else AfterName(rest) == Some(e)
    decreases |t|, 5
  {
    SecondFailsIff(rest);
    forall f ensures Unescape(body) == Err(f) <==> IsFaulty(body, f) { UnescapeFailsIff(body, f); }
    forall name ensures Unescape(body) == Ok(name) <==> StandsFor(body, name) { UnescapeIff(body, name); }
    forall body', rest' | HasString(t, body', rest') ensures body' == body && rest' == rest {
      HasStringIff(t, body, rest);
      HasStringIff(t, body', rest');
    }
    if Unescape(body).Ok? {
      assert StandsFor(body, Unescape(body).value);
    }
  }

  lemma {:induction false} MemberFailsIff(s: seq<byte>)
    ensures forall e :: FailsMember(s, e) <==> ParsePair(s) == Fail(e)
    decreases |s|, 6
  {
    var t := Skip(s);
    NameIff(s);
    PairParts(s);
    forall w, t', e | IsBlank(w) && s == w + t' && FailsPair(t', e) ensures t' == t {
      var body, rest :| HasString(t', body, rest);
      StringStays(w, t', body, rest);
    }
    if body, rest :| HasString(t, body, rest) {
      PairFailsIff(t, body, rest);
      var w := Skipped(s);
      assert s == w + t && IsBlank(w);
    }
  }

  /** What goes wrong behind a member, if anything does. */
  function AfterMembers(s: seq<byte>): Option<ReadError> {
    match ParseMorePairs(s)
    case Fail(e) => Some(e)
    case Match(_, rest) => if Skip(rest) != [] && Skip(rest)[0] == CLOSE_OBJ then None else Some(NotObject)
    case NoMatch => None
  }

  lemma AfterMembersStep(s: seq<byte>)
    ensures var t := Skip(s);
            AfterMembers(s) ==
            if t == [] || t[0] != COMMA then (if t != [] && t[0] == CLOSE_OBJ then None else Some(NotObject))
            else NextMemberFault(t[1..])
  {
  }

  function NextMemberFault(t: seq<byte>): Option<ReadError> {
    match ParsePair(t)
    case NoMatch => Some(NotObject)
    case Fail(f) => Some(f)
    case Match(_, rest) => AfterMembers(rest)
  }

  lemma {:induction false} MembersFailIff(s: seq<byte>)
    ensures forall e :: FailsMembers(s, e) <==> AfterMembers(s) == Some(e)
    decreases |s|, 7
  {
    AfterMembersStep(s);
    GoesOnIff(s, COMMA);
    GoesOnIff(s, CLOSE_OBJ);
    var t := Skip(s);
    if t != [] && t[0] == COMMA {
      assert GoesOnWith(s, COMMA, t[1..]);
      NextMemberFailsIff(t[1..]);
    } else if t != [] && t[0] == CLOSE_OBJ {
      assert GoesOnWith(s, CLOSE_OBJ, t[1..]);
    }
  }

  lemma {:induction false} NextMemberFailsIff(t: seq<byte>)
    ensures forall e :: FailsNextMember(t, e) <==> NextMemberFault(t) == Some(e)
    decreases |t|, 8
  {
    MemberFailsIff(t);
    NoMemberIff(t);
    HasMemberIff(t);
    if ParsePair(t).Match? {
      var w, m := MemberFound(t);
      assert HasMember(t, m, ParsePair(t).rest);
      MembersFailIff(ParsePair(t).rest);
    }
  }

  lemma {:induction false} ObjectFailsIff(t: seq<byte>)
    requires t != [] && t[0] == OPEN_OBJ
    ensures forall e :: FailsObject(t[1..], e) <==> ParseObject(t) == Fail(e)
    decreases |t|, 2
  {
    var s := t[1..];
    MemberFailsIff(s);
    NoMemberIff(s);
    HasMemberIff(s);
    if ParsePair(s).Match? {
      var w, m := MemberFound(s);
      assert HasMember(s, m, ParsePair(s).rest);
      MembersFailIff(ParsePair(s).rest);
      FilledObject(t);
    } else if ParsePair(s).NoMatch? {
      EmptyObject(t);
    }
  }

  lemma FilledObject(t: seq<byte>)
    requires t != [] && ParsePair(t[1..]).Match?
    ensures forall e :: ParseObject(t) == Fail(e) <==> AfterMembers(ParsePair(t[1..]).rest) == Some(e)
  {
  }

  lemma EmptyObject(t: seq<byte>)
    requires t != [] && ParsePair(t[1..]).NoMatch?
    ensures forall e :: ParseObject(t) == Fail(e) <==> e == NotObject && forall r :: !GoesOnWith(t[1..], CLOSE_OBJ, r)
  {
    var s := t[1..];
    GoesOnIff(s, CLOSE_OBJ);
    if Skip(s) != [] && Skip(s)[0] == CLOSE_OBJ {
      assert GoesOnWith(s, CLOSE_OBJ, Skip(s)[1..]);
    }
  }

  /** A text is refused with an error exactly if it fails with it, or holds no value and the error says so. */
  lemma ReadFailsIff(s: seq<byte>, before: Value, e: ReadError)
    ensures ReadJson(s, before) == Err(e) <==> FailsValue(s, e) || (NoValue(s) && e == NotValue)
  {
    ValueFailsIff(s);
    NoValueIff(s);
    if ParseValue(s).Match? {
      EveryMatchRuns(s, before);
    }
  }
}
