/**
 The grammar of server/json_spirit/json_spirit_reader_template.h:477-544 as a relation between texts and the values
 they spell, without reals: what a text means, whatever way it is read.
 */
module JsonGrammar {
  import opened Wrappers
  import opened Utf8
  import opened JsonStrings
  import opened JsonEscapes
  import opened JsonValues
  import opened JsonWriter

  const PLUS: byte := 0x2B
  const SLASH: byte := 0x2F
  const STAR: byte := 0x2A
  const RETURN: byte := 0x0D

  // White space and comments

  /** `space_p`. */
  predicate IsSpace(b: byte) {
    b == 0x20 || 0x09 <= b <= 0x0D
  }

  predicate EndsLine(b: byte) {
    b == NEWLINE || b == RETURN
  }

  predicate IsLineComment(a: seq<byte>) {
    && |a| >= 3 && a[0] == SLASH && a[1] == SLASH && EndsLine(a[|a| - 1])
    && forall i :: 2 <= i < |a| - 1 ==> !EndsLine(a[i])
  }

  predicate ClosesComment(a: seq<byte>, i: nat) {
    i + 1 < |a| && a[i] == STAR && a[i + 1] == SLASH
  }

  predicate IsBlockComment(a: seq<byte>) {
    && |a| >= 4 && a[0] == SLASH && a[1] == STAR && ClosesComment(a, |a| - 2)
    && forall i :: 2 <= i < |a| - 2 ==> !ClosesComment(a, i)
  }

  predicate IsGap(a: seq<byte>) {
    (|a| == 1 && IsSpace(a[0])) || IsLineComment(a) || IsBlockComment(a)
  }

  /** White space and comments. */
  ghost predicate IsBlank(w: seq<byte>)
    decreases |w|
  {
    w == [] || exists n :: 0 < n <= |w| && IsGap(w[..n]) && IsBlank(w[n..])
  }

  // Scalars

  predicate IsDigit(b: byte) {
    0x30 <= b <= 0x39
  }

  predicate AllDigits(s: seq<byte>) {
    forall i :: 0 <= i < |s| ==> IsDigit(s[i])
  }

  function DecimalValue(s: seq<byte>): nat
    requires AllDigits(s)
  {
    if s == [] then 0
    else
      assert IsDigit(s[|s| - 1]);
      var digit: int := s[|s| - 1];
      DecimalValue(s[..|s| - 1]) * 10 + (digit - 0x30)
  }

  predicate IsInt64(i: int) {
    -0x8000_0000_0000_0000 <= i < 0x8000_0000_0000_0000
  }

  function SignLength(b: seq<byte>): (n: nat)
    ensures n <= |b|
  {
    if b != [] && (b[0] == MINUS || b[0] == PLUS) then 1 else 0
  }

  /** Digits with an optional sign. */
  predicate IsNumeral(b: seq<byte>) {
    SignLength(b) < |b| && AllDigits(b[SignLength(b)..])
  }

  function NumeralValue(b: seq<byte>): int
    requires IsNumeral(b)
  {
    var magnitude: int := DecimalValue(b[SignLength(b)..]);
    if b[0] == MINUS then -magnitude else magnitude
  }

  /** The inside of a string token: no quote without a backslash in front of it, and no backslash left alone. */
  predicate IsBody(e: seq<byte>) {
    e == [] ||
    (e[0] != QUOTE && (if e[0] == BACKSLASH then |e| >= 2 && IsBody(e[2..]) else IsBody(e[1..])))
  }

  ghost predicate SpellsString(b: seq<byte>, text: seq<byte>) {
    |b| >= 2 && b[0] == QUOTE && b[|b| - 1] == QUOTE && IsBody(b[1..|b| - 1]) && StandsFor(b[1..|b| - 1], text)
  }

  // Values

  /** `s` spells the value, behind any white space and comments. */
  ghost predicate Spells(s: seq<byte>, v: Value)
    decreases v, 1
  {
    exists w, b :: s == w + b && IsBlank(w) && SpellsToken(b, v)
  }

  ghost predicate SpellsToken(b: seq<byte>, v: Value)
    decreases v, 0
  {
    match v
    case Null => b == NULL
    case Bool(x) => b == if x then TRUE else FALSE
    case Int64(i) => IsNumeral(b) && NumeralValue(b) == i
    case Uint64(u) => IsNumeral(b) && SignLength(b) == 0 && NumeralValue(b) == u && !IsInt64(u)
    case Str(text) => SpellsString(b, text)
    case Array(es) =>
      b != [] && b[0] == OPEN_ARRAY && exists i, c :: b[1..] == i + c && SpellsElements(i, es) && Closes(c, CLOSE_ARRAY)
    case Object(ms) =>
      b != [] && b[0] == OPEN_OBJ && exists i, c :: b[1..] == i + c && SpellsMembers(i, ms) && Closes(c, CLOSE_OBJ)
  }

  /** The closing bracket, behind any white space and comments. */
  ghost predicate Closes(c: seq<byte>, bracket: byte) {
    c != [] && c[|c| - 1] == bracket && IsBlank(c[..|c| - 1])
  }

  ghost predicate SpellsElements(s: seq<byte>, es: seq<Value>)
    decreases es, 0
  {
    if es == [] then s == []
    else exists a, b :: s == a + b && Spells(a, es[0]) && SpellsMore(b, es[1..])
  }

  /** Each value behind a comma. */
  ghost predicate SpellsMore(s: seq<byte>, es: seq<Value>)
    decreases es, 1
  {
    if es == [] then s == []
    else exists w, c :: s == w + c && IsBlank(w) && c != [] && c[0] == COMMA && SpellsElements(c[1..], es)
  }

  ghost predicate SpellsMember(s: seq<byte>, m: Member)
    decreases m, 1
  {
    exists w, b :: s == w + b && IsBlank(w) && SpellsPair(b, m)
  }

  ghost predicate SpellsPair(b: seq<byte>, m: Member)
    decreases m, 0
  {
    exists q, c :: b == q + c && SpellsString(q, m.name) && SpellsSecond(c, m.value)
  }

  /** The value behind its colon. */
  ghost predicate SpellsSecond(c: seq<byte>, v: Value)
    decreases v, 2
  {
    exists x, d :: c == x + d && IsBlank(x) && d != [] && d[0] == COLON && Spells(d[1..], v)
  }

  ghost predicate SpellsMembers(s: seq<byte>, ms: seq<Member>)
    decreases ms, 0
  {
    if ms == [] then s == []
    else exists a, b :: s == a + b && SpellsMember(a, ms[0]) && SpellsMoreMembers(b, ms[1..])
  }

  ghost predicate SpellsMoreMembers(s: seq<byte>, ms: seq<Member>)
    decreases ms, 1
  {
    if ms == [] then s == []
    else exists w, c :: s == w + c && IsBlank(w) && c != [] && c[0] == COMMA && SpellsMembers(c[1..], ms)
  }

  // White space in front

  lemma BlankCons(a: seq<byte>, w: seq<byte>)
    requires IsGap(a) && IsBlank(w)
    ensures IsBlank(a + w)
  {
    assert (a + w)[..|a|] == a && (a + w)[|a|..] == w;
  }

  lemma {:induction false} BlankConcat(a: seq<byte>, b: seq<byte>)
    requires IsBlank(a) && IsBlank(b)
    ensures IsBlank(a + b)
    decreases |a|
  {
    if a == [] {
      assert a + b == b;
    } else {
      var n :| 0 < n <= |a| && IsGap(a[..n]) && IsBlank(a[n..]);
      var x, y := a[..n], a[n..];
      assert a == x + y;
      BlankConcat(y, b);
      BlankCons(x, y + b);
      ConcatAssoc(x, y, b);
    }
  }

  lemma SpellsBehind(w: seq<byte>, s: seq<byte>, v: Value)
    requires IsBlank(w) && Spells(s, v)
    ensures Spells(w + s, v)
  {
    var x, b :| s == x + b && IsBlank(x) && SpellsToken(b, v);
    BlankConcat(w, x);
    ConcatAssoc(w, x, b);
  }

  lemma TokenSpells(b: seq<byte>, v: Value)
    requires SpellsToken(b, v)
    ensures Spells(b, v)
  {
    assert b == [] + b && IsBlank([]);
  }

  lemma MemberBehind(w: seq<byte>, s: seq<byte>, m: Member)
    requires IsBlank(w) && SpellsMember(s, m)
    ensures SpellsMember(w + s, m)
  {
    var x, b :| s == x + b && IsBlank(x) && SpellsPair(b, m);
    BlankConcat(w, x);
    ConcatAssoc(w, x, b);
  }

  // Putting texts together

  lemma ArraySpelled(a: seq<byte>, e: Value, m: seq<byte>, es: seq<Value>, c: seq<byte>)
    requires Spells(a, e) && SpellsMore(m, es) && Closes(c, CLOSE_ARRAY)
    ensures SpellsToken([OPEN_ARRAY] + ((a + m) + c), Array([e] + es))
  {
    assert ([e] + es)[1..] == es;
    assert SpellsElements(a + m, [e] + es);
    assert ([OPEN_ARRAY] + ((a + m) + c))[1..] == (a + m) + c;
  }

  lemma EmptyArraySpelled(c: seq<byte>)
    requires Closes(c, CLOSE_ARRAY)
    ensures SpellsToken([OPEN_ARRAY] + c, Array([]))
  {
    assert ([OPEN_ARRAY] + c)[1..] == [] + c && SpellsElements([], []);
  }

  lemma MoreSpelled(x: seq<byte>, a: seq<byte>, e: Value, m: seq<byte>, es: seq<Value>)
    requires IsBlank(x) && Spells(a, e) && SpellsMore(m, es)
    ensures SpellsMore(x + ([COMMA] + (a + m)), [e] + es)
  {
    assert ([e] + es)[1..] == es;
    assert SpellsElements(a + m, [e] + es);
    assert ([COMMA] + (a + m))[1..] == a + m;
  }

  lemma SecondSpelled(y: seq<byte>, a: seq<byte>, v: Value)
    requires IsBlank(y) && Spells(a, v)
    ensures SpellsSecond(y + ([COLON] + a), v)
  {
    assert ([COLON] + a)[1..] == a;
  }

  lemma MemberSpelled(x: seq<byte>, q: seq<byte>, y: seq<byte>, a: seq<byte>, m: Member)
    requires IsBlank(x) && SpellsString(q, m.name) && IsBlank(y) && Spells(a, m.value)
    ensures SpellsMember(x + (q + (y + ([COLON] + a))), m)
  {
    SecondSpelled(y, a, m.value);
    assert SpellsPair(q + (y + ([COLON] + a)), m);
  }

  lemma ObjectSpelled(a: seq<byte>, e: Member, m: seq<byte>, ms: seq<Member>, c: seq<byte>)
    requires SpellsMember(a, e) && SpellsMoreMembers(m, ms) && Closes(c, CLOSE_OBJ)
    ensures SpellsToken([OPEN_OBJ] + ((a + m) + c), Object([e] + ms))
  {
    assert ([e] + ms)[1..] == ms;
    assert SpellsMembers(a + m, [e] + ms);
    assert ([OPEN_OBJ] + ((a + m) + c))[1..] == (a + m) + c;
  }

  lemma EmptyObjectSpelled(c: seq<byte>)
    requires Closes(c, CLOSE_OBJ)
    ensures SpellsToken([OPEN_OBJ] + c, Object([]))
  {
    assert ([OPEN_OBJ] + c)[1..] == [] + c && SpellsMembers([], []);
  }

  lemma MoreMembersSpelled(x: seq<byte>, a: seq<byte>, e: Member, m: seq<byte>, ms: seq<Member>)
    requires IsBlank(x) && SpellsMember(a, e) && SpellsMoreMembers(m, ms)
    ensures SpellsMoreMembers(x + ([COMMA] + (a + m)), [e] + ms)
  {
    assert ([e] + ms)[1..] == ms;
    assert SpellsMembers(a + m, [e] + ms);
    assert ([COMMA] + (a + m))[1..] == a + m;
  }

  // The first character

  /** No token begins like white space or a comment. */
  lemma TokenBegins(b: seq<byte>, v: Value)
    requires SpellsToken(b, v)
    ensures b != [] && !IsSpace(b[0]) && b[0] != SLASH
    ensures b[0] == QUOTE <==> v.Str?
    ensures b[0] == OPEN_ARRAY <==> v.Array?
    ensures b[0] == OPEN_OBJ <==> v.Object?
  {
    match v
    case Int64(_) => NumeralBegins(b);
    case Uint64(_) => NumeralBegins(b);
    case _ =>
  }

  lemma NumeralBegins(b: seq<byte>)
    requires IsNumeral(b)
    ensures IsDigit(b[0]) || b[0] == MINUS || b[0] == PLUS
  {
    assert b[SignLength(b)..][0] == b[SignLength(b)];
  }

  /** What may follow a value without being taken for a part of it. */
  predicate EndsNumber(rest: seq<byte>) {
    rest == [] || !(IsDigit(rest[0]) || rest[0] in {0x2E, 0x65, 0x45})
  }

  predicate Ends(v: Value, rest: seq<byte>) {
    v.Int64? || v.Uint64? ==> EndsNumber(rest)
  }

  lemma BlankEnds(w: seq<byte>, s: seq<byte>)
    requires IsBlank(w) && EndsNumber(s)
    ensures EndsNumber(w + s)
  {
    if w == [] {
      assert w + s == s;
    } else {
      var n :| 0 < n <= |w| && IsGap(w[..n]) && IsBlank(w[n..]);
      assert w[..n][0] == w[0];
    }
  }
}
