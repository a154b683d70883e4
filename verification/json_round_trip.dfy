/**
 The way back from the printer: its texts are in the grammar, so they are read as what they spell, which is the value
 that was printed up to what is lost of strings and of the type of small unsigned integers.
 */
module JsonRoundTrip {
  import opened Wrappers
  import opened Utf8
  import opened JsonStrings
  import opened JsonEscapes
  import opened JsonValues
  import opened JsonWriter
  import opened JsonGrammar
  import opened SemanticActions
  import opened JsonReader

  /** What comes back of a value: of each string what is received of it, and small unsigned integers as signed ones. */
  function Returned(v: Value, m: Mode): Value
    requires WritableValue(v, m)
    decreases v
  {
    match v
    case Str(s) => Str(Reread(s, m))
    case Array(es) => Array(ReturnedElements(es, m))
    case Object(ms) => Object(ReturnedMembers(ms, m))
    case Uint64(u) => if IsInt64(u) then Int64(u) else v
    case _ => v
  }

  function ReturnedElements(es: seq<Value>, m: Mode): (r: seq<Value>)
    requires forall i :: 0 <= i < |es| ==> WritableValue(es[i], m)
    ensures |r| == |es|
    ensures forall i :: 0 <= i < |es| ==> r[i] == Returned(es[i], m)
    decreases es
  {
    if es == [] then [] else [Returned(es[0], m)] + ReturnedElements(es[1..], m)
  }

  function ReturnedMembers(ms: seq<Member>, m: Mode): (r: seq<Member>)
    requires forall i :: 0 <= i < |ms| ==> Writable(ms[i].name, m) && WritableValue(ms[i].value, m)
    ensures |r| == |ms|
    ensures forall i :: 0 <= i < |ms| ==> r[i] == Member(Reread(ms[i].name, m), Returned(ms[i].value, m))
    decreases ms
  {
    if ms == [] then []
    else [Member(Reread(ms[0].name, m), Returned(ms[0].value, m))] + ReturnedMembers(ms[1..], m)
  }

  // Layout

  lemma {:induction false} SpacesAreBlank(w: seq<byte>)
    requires forall i :: 0 <= i < |w| ==> IsSpace(w[i])
    ensures IsBlank(w)
    decreases |w|
  {
    if w != [] {
      assert w == w[..1] + w[1..];
      SpacesAreBlank(w[1..]);
      BlankCons(w[..1], w[1..]);
    }
  }

  lemma {:induction false} IndentIsSpace(n: nat)
    ensures forall i :: 0 <= i < |Spaces(n)| ==> IsSpace(Spaces(n)[i])
  {
    if n > 0 {
      IndentIsSpace(n - 1);
    }
  }

  lemma LayoutIsBlank(o: Options, level: nat)
    ensures IsBlank(Indent(o, level)) && IsBlank(NewLine(o)) && IsBlank(Space(o))
  {
    IndentIsSpace(level);
    SpacesAreBlank(Indent(o, level));
    SpacesAreBlank(NewLine(o));
    SpacesAreBlank(Space(o));
  }

  // Scalars

  lemma {:induction false} DigitsAreDigits(n: nat)
    ensures Digits(n) != [] && AllDigits(Digits(n)) && DecimalValue(Digits(n)) == n
  {
    if n >= 10 {
      DigitsAreDigits(n / 10);
      assert Digits(n)[..|Digits(n)| - 1] == Digits(n / 10);
    } else {
      assert Digits(n)[..0] == [];
    }
  }

  lemma IntTextIsNumeral(i: int)
    ensures var b := IntText(i); IsNumeral(b) && NumeralValue(b) == i && (i >= 0 ==> SignLength(b) == 0)
  {
    var b, d := IntText(i), Digits(if i < 0 then -i else i);
    DigitsAreDigits(if i < 0 then -i else i);
    assert IsDigit(d[0]);
    assert b[SignLength(b)..] == d;
  }

  lemma QuotedSpells(text: seq<byte>, m: Mode)
    requires Writable(text, m)
    ensures SpellsString(Quoted(text, m), Reread(text, m))
  {
    TokenEndsAtItsQuote(text, m, []);
    var b, e := Quoted(text, m), Escape(text, m).value;
    BodyFound(e + ([QUOTE] + []));
    assert (e + ([QUOTE] + []))[..|e|] == e;
    UnescapeEscape(text, m);
    UnescapeIff(e, Reread(text, m));
    assert b[1..|b| - 1] == e;
  }

  // Compounds

  /** What stands behind an element: the comma and the other elements, or nothing but the layout. */
  function ElementsTail(es: seq<Value>, l: Layout, o: Options, level: nat): seq<byte>
    requires forall i :: 0 <= i < |es| ==> WritableValue(es[i], o.mode)
  {
    Comma(es != []) + (l.after + ElementsText(es, l, o, level))
  }

  lemma ElementsTextTail(es: seq<Value>, l: Layout, o: Options, level: nat)
    requires es != [] && forall i :: 0 <= i < |es| ==> WritableValue(es[i], o.mode)
    ensures ElementsText(es, l, o, level) == (l.before + Text(es[0], o, level)) + ElementsTail(es[1..], l, o, level)
  {
    Regroup(l.before + Text(es[0], o, level), Comma(|es| > 1), l.after, ElementsText(es[1..], l, o, level));
  }

  lemma Regroup(a: seq<byte>, b: seq<byte>, c: seq<byte>, d: seq<byte>)
    ensures a + (b + c) + d == a + (b + (c + d))
  {
    ConcatAssoc(a, b + c, d);
    ConcatAssoc(b, c, d);
  }

  lemma ReturnedElementsCons(es: seq<Value>, m: Mode)
    requires es != [] && forall i :: 0 <= i < |es| ==> WritableValue(es[i], m)
    ensures ReturnedElements(es, m) == [Returned(es[0], m)] + ReturnedElements(es[1..], m)
  {
  }

  /** Behind an element stand the others, each behind its comma, and the layout behind the last one. */
  lemma {:induction false} TailSpells(es: seq<Value>, l: Layout, o: Options, level: nat) returns (s: seq<byte>)
    requires forall i :: 0 <= i < |es| ==> WritableValue(es[i], o.mode)
    requires IsBlank(l.before) && IsBlank(l.after)
    ensures ElementsTail(es, l, o, level) == s + l.after && SpellsMore(s, ReturnedElements(es, o.mode))
    decreases es, 1
  {
    if es == [] {
      s := [];
      assert [] + (l.after + []) == [] + l.after;
    } else {
      var a, m := ElementsSpell(es, l, o, level);
      var first := l.after + a;
      SpellsBehind(l.after, a, Returned(es[0], o.mode));
      MoreSpelled([], first, Returned(es[0], o.mode), m, ReturnedElements(es[1..], o.mode));
      s := [] + ([COMMA] + (first + m));
      RegroupTail(l.after, a, m);
    }
  }

  lemma RegroupTail(w: seq<byte>, a: seq<byte>, m: seq<byte>)
    ensures [COMMA] + (w + (a + (m + w))) == ([] + ([COMMA] + ((w + a) + m))) + w
  {
    assert w + (a + (m + w)) == ((w + a) + m) + w;
    ConcatAssoc([COMMA], (w + a) + m, w);
  }

  /** The first element and the others. */
  lemma {:induction false} ElementsSpell(es: seq<Value>, l: Layout, o: Options, level: nat) returns (a: seq<byte>, m: seq<byte>)
    requires es != [] && forall i :: 0 <= i < |es| ==> WritableValue(es[i], o.mode)
    requires IsBlank(l.before) && IsBlank(l.after)
    ensures ElementsText(es, l, o, level) == a + (m + l.after)
    ensures Spells(a, Returned(es[0], o.mode)) && SpellsMore(m, ReturnedElements(es[1..], o.mode))
    decreases es, 0
  {
    ElementsTextTail(es, l, o, level);
    m := TailSpells(es[1..], l, o, level);
    a := l.before + Text(es[0], o, level);
    TextSpells(es[0], o, level);
    TokenSpells(Text(es[0], o, level), Returned(es[0], o.mode));
    SpellsBehind(l.before, Text(es[0], o, level), Returned(es[0], o.mode));
  }

  lemma BracketCloses(w: seq<byte>, x: seq<byte>, bracket: byte)
    requires IsBlank(w) && IsBlank(x)
    ensures Closes(w + (x + [bracket]), bracket)
  {
    BlankConcat(w, x);
    ConcatAssoc(w, x, [bracket]);
    LastDropped(w + x, bracket);
  }

  lemma LastDropped(a: seq<byte>, b: byte)
    ensures var c := a + [b]; c[|c| - 1] == b && c[..|c| - 1] == a
  {
  }

  lemma RegroupText(open: seq<byte>, a: seq<byte>, m: seq<byte>, w: seq<byte>, close: seq<byte>, bracket: byte)
    ensures [bracket] + open + (a + (m + w)) + close == [bracket] + (((open + a) + m) + (w + close))
  {
  }

  lemma {:induction false} ArrayTextSpells(es: seq<Value>, l: Layout, o: Options, level: nat, open: seq<byte>, indent: seq<byte>)
    requires forall i :: 0 <= i < |es| ==> WritableValue(es[i], o.mode)
    requires IsBlank(l.before) && IsBlank(l.after) && IsBlank(open) && IsBlank(indent)
    ensures SpellsToken([OPEN_ARRAY] + open + ElementsText(es, l, o, level) + (indent + [CLOSE_ARRAY]), Array(ReturnedElements(es, o.mode)))
    decreases es, 2
  {
    if es == [] {
      PrintedEmptyArray(open, indent);
    } else {
      var a, m := ElementsSpell(es, l, o, level);
      PrintedArray(open, a, Returned(es[0], o.mode), m, ReturnedElements(es[1..], o.mode), l.after, indent);
    }
  }

  lemma RegroupEmpty(open: seq<byte>, close: seq<byte>, bracket: byte)
    ensures [bracket] + open + [] + close == [bracket] + (open + close)
  {
  }

  lemma PrintedEmptyArray(open: seq<byte>, indent: seq<byte>)
    requires IsBlank(open) && IsBlank(indent)
    ensures SpellsToken([OPEN_ARRAY] + open + [] + (indent + [CLOSE_ARRAY]), Array([]))
  {
    BracketCloses(open, indent, CLOSE_ARRAY);
    EmptyArraySpelled(open + (indent + [CLOSE_ARRAY]));
    RegroupEmpty(open, indent + [CLOSE_ARRAY], OPEN_ARRAY);
  }

  lemma PrintedArray(open: seq<byte>, a: seq<byte>, e: Value, m: seq<byte>, es: seq<Value>, w: seq<byte>, indent: seq<byte>)
    requires IsBlank(open) && Spells(a, e) && SpellsMore(m, es) && IsBlank(w) && IsBlank(indent)
    ensures SpellsToken([OPEN_ARRAY] + open + (a + (m + w)) + (indent + [CLOSE_ARRAY]), Array([e] + es))
  {
    BracketCloses(w, indent, CLOSE_ARRAY);
    SpellsBehind(open, a, e);
    ArraySpelled(open + a, e, m, es, w + (indent + [CLOSE_ARRAY]));
    RegroupText(open, a, m, w, indent + [CLOSE_ARRAY], OPEN_ARRAY);
  }

  function MembersTail(ms: seq<Member>, o: Options, level: nat): seq<byte>
    requires forall i :: 0 <= i < |ms| ==> Writable(ms[i].name, o.mode) && WritableValue(ms[i].value, o.mode)
  {
    Comma(ms != []) + (NewLine(o) + MembersText(ms, o, level))
  }

  lemma MembersTextTail(ms: seq<Member>, o: Options, level: nat)
    requires ms != [] && forall i :: 0 <= i < |ms| ==> Writable(ms[i].name, o.mode) && WritableValue(ms[i].value, o.mode)
    ensures MembersText(ms, o, level) == (Indent(o, level) + MemberText(ms[0], o, level)) + MembersTail(ms[1..], o, level)
  {
    Regroup(Indent(o, level) + MemberText(ms[0], o, level), Comma(|ms| > 1), NewLine(o), MembersText(ms[1..], o, level));
  }

  /** What comes back of a member. */
  function ReturnedMember(m: Member, mode: Mode): Member
    requires Writable(m.name, mode) && WritableValue(m.value, mode)
  {
    Member(Reread(m.name, mode), Returned(m.value, mode))
  }

  lemma {:induction false} MemberTextSpells(m: Member, o: Options, level: nat)
    requires Writable(m.name, o.mode) && WritableValue(m.value, o.mode)
    ensures SpellsMember(MemberText(m, o, level), ReturnedMember(m, o.mode))
    decreases m, 0
  {
    var q, w, t := Quoted(m.name, o.mode), Space(o), Text(m.value, o, level);
    LayoutIsBlank(o, level);
    QuotedSpells(m.name, o.mode);
    TextSpells(m.value, o, level);
    TokenSpells(t, Returned(m.value, o.mode));
    SpellsBehind(w, t, Returned(m.value, o.mode));
    MemberSpelled([], q, w, w + t, ReturnedMember(m, o.mode));
    RegroupMember(q, w, t);
  }

  lemma RegroupMember(q: seq<byte>, w: seq<byte>, t: seq<byte>)
    ensures q + (w + [COLON] + w) + t == [] + (q + (w + ([COLON] + (w + t))))
  {
  }

  lemma {:induction false} MembersTailSpells(ms: seq<Member>, o: Options, level: nat) returns (s: seq<byte>)
    requires forall i :: 0 <= i < |ms| ==> Writable(ms[i].name, o.mode) && WritableValue(ms[i].value, o.mode)
    ensures MembersTail(ms, o, level) == s + NewLine(o) && SpellsMoreMembers(s, ReturnedMembers(ms, o.mode))
    decreases ms, 1
  {
    var w := NewLine(o);
    if ms == [] {
      s := [];
      assert [] + (w + []) == [] + w;
    } else {
      var a, m := MembersSpell(ms, o, level);
      LayoutIsBlank(o, level);
      MemberBehind(w, a, ReturnedMember(ms[0], o.mode));
      MoreMembersSpelled([], w + a, ReturnedMember(ms[0], o.mode), m, ReturnedMembers(ms[1..], o.mode));
      s := [] + ([COMMA] + ((w + a) + m));
      RegroupTail(w, a, m);
    }
  }

  lemma {:induction false} MembersSpell(ms: seq<Member>, o: Options, level: nat) returns (a: seq<byte>, m: seq<byte>)
    requires ms != [] && forall i :: 0 <= i < |ms| ==> Writable(ms[i].name, o.mode) && WritableValue(ms[i].value, o.mode)
    ensures MembersText(ms, o, level) == a + (m + NewLine(o))
    ensures SpellsMember(a, ReturnedMember(ms[0], o.mode)) && SpellsMoreMembers(m, ReturnedMembers(ms[1..], o.mode))
    decreases ms, 0
  {
    MembersTextTail(ms, o, level);
    m := MembersTailSpells(ms[1..], o, level);
    a := Indent(o, level) + MemberText(ms[0], o, level);
    LayoutIsBlank(o, level);
    MemberTextSpells(ms[0], o, level);
    MemberBehind(Indent(o, level), MemberText(ms[0], o, level), ReturnedMember(ms[0], o.mode));
  }

  lemma {:induction false} ObjectTextSpells(ms: seq<Member>, o: Options, level: nat, open: seq<byte>, indent: seq<byte>)
    requires forall i :: 0 <= i < |ms| ==> Writable(ms[i].name, o.mode) && WritableValue(ms[i].value, o.mode)
    requires IsBlank(open) && IsBlank(indent)
    ensures SpellsToken([OPEN_OBJ] + open + MembersText(ms, o, level) + (indent + [CLOSE_OBJ]), Object(ReturnedMembers(ms, o.mode)))
    decreases ms, 2
  {
    if ms == [] {
      PrintedEmptyObject(open, indent);
    } else {
      var a, m := MembersSpell(ms, o, level);
      LayoutIsBlank(o, level);
      PrintedObject(open, a, ReturnedMember(ms[0], o.mode), m, ReturnedMembers(ms[1..], o.mode), NewLine(o), indent);
    }
  }

  lemma PrintedEmptyObject(open: seq<byte>, indent: seq<byte>)
    requires IsBlank(open) && IsBlank(indent)
    ensures SpellsToken([OPEN_OBJ] + open + [] + (indent + [CLOSE_OBJ]), Object([]))
  {
    BracketCloses(open, indent, CLOSE_OBJ);
    EmptyObjectSpelled(open + (indent + [CLOSE_OBJ]));
    RegroupEmpty(open, indent + [CLOSE_OBJ], OPEN_OBJ);
  }

  lemma PrintedObject(open: seq<byte>, a: seq<byte>, e: Member, m: seq<byte>, ms: seq<Member>, w: seq<byte>, indent: seq<byte>)
    requires IsBlank(open) && SpellsMember(a, e) && SpellsMoreMembers(m, ms) && IsBlank(w) && IsBlank(indent)
    ensures SpellsToken([OPEN_OBJ] + open + (a + (m + w)) + (indent + [CLOSE_OBJ]), Object([e] + ms))
  {
    BracketCloses(w, indent, CLOSE_OBJ);
    MemberBehind(open, a, e);
    ObjectSpelled(open + a, e, m, ms, w + (indent + [CLOSE_OBJ]));
    RegroupText(open, a, m, w, indent + [CLOSE_OBJ], OPEN_OBJ);
  }

  /** What is printed spells what comes back of the value, in every layout. */
  lemma {:induction false} TextSpells(v: Value, o: Options, level: nat)
    requires WritableValue(v, o.mode)
    ensures SpellsToken(Text(v, o, level), Returned(v, o.mode))
    decreases v, 0
  {
    match v
    case Null =>
    case Bool(_) =>
    case Int64(i) => IntTextIsNumeral(i);
    case Uint64(u) => IntTextIsNumeral(u);
    case Str(text) => QuotedSpells(text, o.mode);
    case Object(ms) =>
      LayoutIsBlank(o, level);
      ObjectTextSpells(ms, o, level + 1, NewLine(o), Indent(o, level));
    case Array(es) => ArrayLayoutSpells(es, o, level);
  }

  lemma {:induction false} ArrayLayoutSpells(es: seq<Value>, o: Options, level: nat)
    requires forall i :: 0 <= i < |es| ==> WritableValue(es[i], o.mode)
    ensures SpellsToken(Text(Array(es), o, level), Array(ReturnedElements(es, o.mode)))
    decreases es, 3
  {
    LayoutIsBlank(o, level);
    LayoutIsBlank(o, level + 1);
    ArrayTextParts(es, o, level);
    if OnOneLine(es, o) {
      NothingIsBlank();
      ArrayTextSpells(es, Layout([], Space(o)), o, level, Space(o), []);
    } else {
      ArrayTextSpells(es, LineLayout(o, level + 1), o, level + 1, NewLine(o), Indent(o, level));
    }
  }

  lemma NothingIsBlank()
    ensures IsBlank([])
  {
  }

  lemma ArrayTextParts(es: seq<Value>, o: Options, level: nat)
    requires forall i :: 0 <= i < |es| ==> WritableValue(es[i], o.mode)
    ensures Text(Array(es), o, level) ==
            if OnOneLine(es, o)
            then [OPEN_ARRAY] + Space(o) + ElementsText(es, Layout([], Space(o)), o, level) + ([] + [CLOSE_ARRAY])
            else [OPEN_ARRAY] + NewLine(o) + ElementsText(es, LineLayout(o, level + 1), o, level + 1)
                 + (Indent(o, level) + [CLOSE_ARRAY])
  {
    assert [] + [CLOSE_ARRAY] == [CLOSE_ARRAY];
  }

  /** Every value is read from its text, in every layout and with anything behind it that does not continue a number. */
  lemma ReadValue(v: Value, o: Options, level: nat, rest: seq<byte>)
    requires WritableValue(v, o.mode) && Ends(v, rest)
    ensures ParseValue(Text(v, o, level) + rest) == Match(ActionsOf(Returned(v, o.mode)), rest)
  {
    TextSpells(v, o, level);
    TokenSpells(Text(v, o, level), Returned(v, o.mode));
    SpelledIsRead(Text(v, o, level), Returned(v, o.mode), rest);
  }

  /** Reading what `write_string` wrote returns the value up to `Returned`, whatever the variable held before. */
  lemma ReadBack(v: Value, o: Options, before: Value)
    requires WritableValue(v, o.mode)
    ensures ReadJson(Text(v, o, 0), before) == Ok(Returned(v, o.mode))
  {
    ReadValue(v, o, 0, []);
    assert Text(v, o, 0) + [] == Text(v, o, 0);
    ReplayBuilds(Returned(v, o.mode), before);
  }

  /** No string loses octets, and no unsigned integer fits into a signed one. */
  ghost predicate Faithful(v: Value, m: Mode)
    requires WritableValue(v, m)
    decreases v
  {
    match v
    case Str(s) => Keeps(s, m)
    case Array(es) => forall i :: 0 <= i < |es| ==> Faithful(es[i], m)
    case Object(ms) => forall i :: 0 <= i < |ms| ==> Keeps(ms[i].name, m) && Faithful(ms[i].value, m)
    case Uint64(u) => !IsInt64(u)
    case _ => true
  }

  ghost predicate Keeps(s: seq<byte>, m: Mode)
    requires Writable(s, m)
  {
    m.raw || !LosesOctets(Decode(s).value, m)
  }

  lemma KeepsIff(s: seq<byte>, m: Mode)
    requires Writable(s, m)
    ensures Keeps(s, m) <==> Reread(s, m) == s
  {
    RoundTripIff(s, m);
    UnescapeEscape(s, m);
  }

  /** A value comes back unchanged exactly when it is faithful. */
  lemma {:induction false} ReturnedIff(v: Value, m: Mode)
    requires WritableValue(v, m)
    ensures Returned(v, m) == v <==> Faithful(v, m)
    decreases v
  {
    match v
    case Str(s) => KeepsIff(s, m);
    case Array(es) =>
      forall i | 0 <= i < |es| ensures Returned(es[i], m) == es[i] <==> Faithful(es[i], m) {
        ReturnedIff(es[i], m);
      }
      assert ReturnedElements(es, m) == es <==> forall i :: 0 <= i < |es| ==> ReturnedElements(es, m)[i] == es[i];
    case Object(ms) =>
      forall i | 0 <= i < |ms|
        ensures ReturnedMembers(ms, m)[i] == ms[i] <==> Keeps(ms[i].name, m) && Faithful(ms[i].value, m)
      {
        KeepsIff(ms[i].name, m);
        ReturnedIff(ms[i].value, m);
        assert ms[i] == Member(ms[i].name, ms[i].value);
      }
      assert ReturnedMembers(ms, m) == ms <==> forall i :: 0 <= i < |ms| ==> ReturnedMembers(ms, m)[i] == ms[i];
    case _ =>
  }

  /** The round trip of a whole value returns it exactly when it is faithful. */
  lemma RoundTripOfValueIff(v: Value, o: Options, before: Value)
    requires WritableValue(v, o.mode)
    ensures ReadJson(Text(v, o, 0), before) == Ok(v) <==> Faithful(v, o.mode)
  {
    ReadBack(v, o, before);
    ReturnedIff(v, o.mode);
  }
}
