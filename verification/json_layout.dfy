/**
 How JSON texts look, character by character: the fixed words and brackets, and the three layouts of the printer
 (server/json_spirit/json_spirit_writer_template.h:155-309; json_spirit_writer_options.h) on one value.
 */
module JsonLayout {
  import opened Wrappers
  import opened Utf8
  import opened JsonStrings
  import opened JsonEscapes
  import opened JsonValues
  import opened JsonWriter
  import opened JsonGrammar

  /** The characters and words that the printer and the grammar share. */
  lemma TokensSpelled()
    ensures IsText([OPEN_OBJ, CLOSE_OBJ, OPEN_ARRAY, CLOSE_ARRAY, COMMA, COLON, MINUS, PLUS, SPACE, NEWLINE], "{}[],:-+ \n")
    ensures IsText([QUOTE, BACKSLASH, LETTER_U, SLASH, STAR, RETURN], "\"\\u/*\r")
    ensures IsText(TRUE, "true") && IsText(FALSE, "false") && IsText(NULL, "null")
  {
  }

  /** White space: the space and the five control characters of `isspace` in the C locale. */
  lemma SpacesSpelled(b: byte)
    ensures IsSpace(b) <==> b in {' ' as int, '\t' as int, '\n' as int, 0x0B, 0x0C, '\r' as int}
    ensures EndsLine(b) <==> b == '\n' as int || b == '\r' as int
    ensures IsDigit(b) <==> exists d :: 0 <= d < 10 && b == "0123456789"[d] as int
  {
    assert forall d :: 0 <= d < 10 ==> "0123456789"[d] as int == 0x30 + d;
    assert IsDigit(b) ==> b == "0123456789"[b - 0x30] as int;
  }

  /** The two kinds of comments; a line comment takes the end of its line with it. */
  lemma CommentsSpelled(a: seq<byte>)
    ensures IsText(a, "// a\n") || IsText(a, "// a\r") ==> IsLineComment(a)
    ensures IsText(a, "/* * / */") ==> IsBlockComment(a)
    ensures IsText(a, "// a") || IsText(a, "/* a *") || IsText(a, "/*/") || IsText(a, "/**/*/") ==> !IsGap(a)
  {
    if IsText(a, "/**/*/") {
      assert ClosesComment(a, 2);
    }
  }

  lemma DigitsSpelled(n: nat)
    requires n < 10
    ensures Digits(n) == ["0123456789"[n] as int]
  {
  }

  /** An array of an array and a number, as the printer lays it out at depth `level`. */
  const ONE_TWO: Value := Array([Int64(1), Int64(2)])
  const NESTED: Value := Array([ONE_TWO, Int64(-20)])
  const SAMPLE: Value := Object([Member([0x61], NESTED), Member([0x62], Null)])

  lemma Writables(m: Mode)
    requires m.raw
    ensures WritableValue(ONE_TWO, m) && WritableValue(NESTED, m) && WritableValue(SAMPLE, m)
    ensures Quoted([0x61], m) == [QUOTE, 0x61, QUOTE] && Quoted([0x62], m) == [QUOTE, 0x62, QUOTE]
  {
    var a, b: seq<byte> := [0x61], [0x62];
    assert a[1..] == [] && b[1..] == [] && Escape(a[1..], m) == Some([]) && Escape(b[1..], m) == Some([]);
    assert a + [] == a && b + [] == b;
    assert Escape(a, m) == Some(a) && Escape(b, m) == Some(b);
  }

  lemma Numbers(o: Options, level: nat)
    ensures Text(Int64(1), o, level) == [0x31] && Text(Int64(2), o, level) == [0x32]
    ensures Text(Int64(-20), o, level) == [0x2D, 0x32, 0x30]
  {
    assert Digits(2) == [0x32] && Digits(20) == [0x32] + [0x30];
  }

  lemma TwoElements(a: Value, b: Value, l: Layout, o: Options, level: nat)
    requires WritableValue(a, o.mode) && WritableValue(b, o.mode)
    ensures ElementsText([a, b], l, o, level) ==
            l.before + Text(a, o, level) + [COMMA] + l.after + (l.before + Text(b, o, level) + l.after)
  {
    var es := [a, b];
    assert es[1..] == [b] && es[1..][1..] == [];
    assert ElementsText([], l, o, level) == [];
    assert [] + l.after == l.after;
    var x := l.before + Text(b, o, level);
    assert ElementsText([b], l, o, level) == x + l.after + [];
    assert x + l.after + [] == x + l.after;
    var y := l.before + Text(a, o, level);
    assert y + ([COMMA] + l.after) == y + [COMMA] + l.after;
  }

  lemma Indents(o: Options)
    requires o.prettyPrint || o.singleLineArrays
    ensures IsText(Indent(o, 0), "") && IsText(Indent(o, 1), "    ") && IsText(Indent(o, 2), "        ") && IsText(Indent(o, 3), "            ")
    ensures IsText(NewLine(o), "\n") && IsText(Space(o), " ")
  {
    assert Spaces(1) == Spaces(0) + [SPACE, SPACE, SPACE, SPACE];
    assert Spaces(2) == Spaces(1) + [SPACE, SPACE, SPACE, SPACE];
    assert Spaces(3) == Spaces(2) + [SPACE, SPACE, SPACE, SPACE];
  }

  /** The inner array: on one line if the option says so, as it holds no compound. */
  lemma InnerLayouts(o: Options)
    requires o.mode.raw
    ensures WritableValue(ONE_TWO, o.mode)
    ensures Text(ONE_TWO, o, 2) ==
            if o.singleLineArrays
            then [OPEN_ARRAY] + Space(o) + ([] + [0x31] + [COMMA] + Space(o) + ([] + [0x32] + Space(o))) + [CLOSE_ARRAY]
            else [OPEN_ARRAY] + NewLine(o)
                 + (Indent(o, 3) + [0x31] + [COMMA] + NewLine(o) + (Indent(o, 3) + [0x32] + NewLine(o)))
                 + (Indent(o, 2) + [CLOSE_ARRAY])
  {
    Writables(o.mode);
    Numbers(o, 2);
    Numbers(o, 3);
    assert ONE_TWO.elements == [Int64(1), Int64(2)] && !ContainsComposite(ONE_TWO.elements);
    TwoElements(Int64(1), Int64(2), LineLayout(o, 3), o, 3);
    TwoElements(Int64(1), Int64(2), Layout([], Space(o)), o, 2);
  }

  /** In the compact layout there is nothing between the characters that count. */
  lemma NoLayout(o: Options, level: nat)
    requires !o.prettyPrint && !o.singleLineArrays
    ensures Indent(o, level) == NewLine(o) == Space(o) == []
  {
  }

  /** The outer array: on lines of its own whenever the layout is pretty, as it holds an array. */
  lemma OuterLayouts(o: Options)
    requires o.mode.raw
    ensures WritableValue(NESTED, o.mode) && WritableValue(ONE_TWO, o.mode)
    ensures Text(NESTED, o, 1) ==
            [OPEN_ARRAY] + NewLine(o) + (Indent(o, 2) + Text(ONE_TWO, o, 2) + [COMMA] + NewLine(o)
                                         + (Indent(o, 2) + [0x2D, 0x32, 0x30] + NewLine(o))) + (Indent(o, 1) + [CLOSE_ARRAY])
  {
    Writables(o.mode);
    Numbers(o, 2);
    assert IsComposite(NESTED.elements[0]);
    TwoElements(ONE_TWO, Int64(-20), LineLayout(o, 2), o, 2);
  }

  lemma SampleParts(o: Options)
    requires o.mode.raw
    ensures WritableValue(SAMPLE, o.mode) && WritableValue(NESTED, o.mode)
    ensures Text(SAMPLE, o, 0) ==
            [OPEN_OBJ] + NewLine(o)
            + (Indent(o, 1) + ([QUOTE, 0x61, QUOTE] + (Space(o) + [COLON] + Space(o)) + Text(NESTED, o, 1)) + ([COMMA] + NewLine(o))
               + (Indent(o, 1) + ([QUOTE, 0x62, QUOTE] + (Space(o) + [COLON] + Space(o)) + NULL) + NewLine(o)))
            + (Indent(o, 0) + [CLOSE_OBJ])
  {
    Writables(o.mode);
    var ms := SAMPLE.members;
    assert ms[1..] == [Member([0x62], Null)] && ms[1..][1..] == [];
    assert MembersText([], o, 1) == [];
    var x := Indent(o, 1) + MemberText(ms[1], o, 1);
    assert MembersText(ms[1..], o, 1) == x + ([] + NewLine(o)) + [];
    assert x + ([] + NewLine(o)) + [] == x + NewLine(o);
    assert MembersText(ms, o, 1) == Indent(o, 1) + MemberText(ms[0], o, 1) + ([COMMA] + NewLine(o)) + MembersText(ms[1..], o, 1);
  }

  /** The whole value in the compact layout. */
  lemma SampleCompact(o: Options)
    requires o.mode.raw && !o.prettyPrint && !o.singleLineArrays
    ensures WritableValue(SAMPLE, o.mode) && IsText(Text(SAMPLE, o, 0), "{\"a\":[[1,2],-20],\"b\":null}")
  {
    SampleParts(o);
    OuterLayouts(o);
    InnerLayouts(o);
    NoLayout(o, 0);
    NoLayout(o, 1);
    NoLayout(o, 2);
    NoLayout(o, 3);
    CompactInner();
    CompactOuter(Text(ONE_TWO, o, 2));
    CompactWhole(Text(NESTED, o, 1));
  }

  lemma CompactInner()
    ensures IsText([OPEN_ARRAY] + [] + ([] + [0x31] + [COMMA] + [] + ([] + [0x32] + [])) + ([] + [CLOSE_ARRAY]), "[1,2]")
  {
  }

  lemma CompactOuter(inner: seq<byte>)
    requires IsText(inner, "[1,2]")
    ensures IsText([OPEN_ARRAY] + [] + ([] + inner + [COMMA] + [] + ([] + [0x2D, 0x32, 0x30] + [])) + ([] + [CLOSE_ARRAY]), "[[1,2],-20]")
  {
    assert inner == [0x5B, 0x31, 0x2C, 0x32, 0x5D];
  }

  lemma CompactWhole(nested: seq<byte>)
    requires IsText(nested, "[[1,2],-20]")
    ensures IsText([OPEN_OBJ] + []
            + ([] + ([QUOTE, 0x61, QUOTE] + ([] + [COLON] + []) + nested) + ([COMMA] + [])
               + ([] + ([QUOTE, 0x62, QUOTE] + ([] + [COLON] + []) + NULL) + []))
            + ([] + [CLOSE_OBJ]), "{\"a\":[[1,2],-20],\"b\":null}")
  {
    var front: seq<byte> := [0x7B, 0x22, 0x61, 0x22, 0x3A];
    var back: seq<byte> := [0x22, 0x62, 0x22, 0x3A, 0x6E, 0x75, 0x6C, 0x6C];
    assert [QUOTE, 0x61, QUOTE] + ([] + [COLON] + []) == front[1..];
    assert [QUOTE, 0x62, QUOTE] + ([] + [COLON] + []) + NULL == back;
    CompactPieces(front[1..], nested, back);
    assert IsText(front + nested + ([COMMA] + back + [CLOSE_OBJ]), "{\"a\":[[1,2],-20],\"b\":null}");
  }

  lemma CompactPieces(a: seq<byte>, b: seq<byte>, c: seq<byte>)
    ensures [OPEN_OBJ] + [] + ([] + (a + b) + ([COMMA] + []) + ([] + c + [])) + ([] + [CLOSE_OBJ])
            == [OPEN_OBJ] + a + b + ([COMMA] + c + [CLOSE_OBJ])
  {
  }
}
