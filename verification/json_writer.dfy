/** The printer `Generator` (server/json_spirit/json_spirit_writer_template.h:117-309), without reals. */
module JsonWriter {
  import opened Wrappers
  import opened Utf8
  import opened JsonStrings
  import opened JsonValues

  /** The output options; single-line arrays imply the pretty layout. */
  datatype Options = Options(prettyPrint: bool, singleLineArrays: bool, mode: Mode) {
    predicate Pretty() {
      prettyPrint || singleLineArrays
    }
  }

  const OPEN_OBJ: byte := 0x7B
  const CLOSE_OBJ: byte := 0x7D
  const OPEN_ARRAY: byte := 0x5B
  const CLOSE_ARRAY: byte := 0x5D
  const COMMA: byte := 0x2C
  const COLON: byte := 0x3A
  const MINUS: byte := 0x2D
  const SPACE: byte := 0x20
  const NEWLINE: byte := 0x0A
  const TRUE: seq<byte> := [0x74, 0x72, 0x75, 0x65]
  const FALSE: seq<byte> := [0x66, 0x61, 0x6C, 0x73, 0x65]
  const NULL: seq<byte> := [0x6E, 0x75, 0x6C, 0x6C]

  /** All strings and names of `v` can be escaped: the parser of nfc.cc throws on no one of them. */
  predicate WritableValue(v: Value, m: Mode)
    decreases v
  {
    match v
    case Str(s) => Writable(s, m)
    case Array(es) => forall i :: 0 <= i < |es| ==> WritableValue(es[i], m)
    case Object(ms) => forall i :: 0 <= i < |ms| ==> Writable(ms[i].name, m) && WritableValue(ms[i].value, m)
    case _ => true
  }

  // The text

  function Space(o: Options): seq<byte> {
    if o.Pretty() then [SPACE] else []
  }

  function NewLine(o: Options): seq<byte> {
    if o.Pretty() then [NEWLINE] else []
  }

  function Spaces(n: nat): seq<byte> {
    if n == 0 then [] else Spaces(n - 1) + [SPACE, SPACE, SPACE, SPACE]
  }

  function Indent(o: Options, level: nat): seq<byte> {
    if o.Pretty() then Spaces(level) else []
  }

  function Digits(n: nat): seq<byte> {
    if n < 10 then [0x30 + n] else Digits(n / 10) + [0x30 + n % 10]
  }

  function IntText(i: int): seq<byte> {
    if i < 0 then [MINUS] + Digits(-i) else Digits(i)
  }

  function Quoted(s: seq<byte>, m: Mode): seq<byte>
    requires Writable(s, m)
  {
    EscapeNeedsWritable(s, m);
    [QUOTE] + Escape(s, m).value + [QUOTE]
  }

  predicate ContainsComposite(es: seq<Value>) {
    exists i :: 0 <= i < |es| && IsComposite(es[i])
  }

  predicate OnOneLine(es: seq<Value>, o: Options) {
    o.singleLineArrays && !ContainsComposite(es)
  }

  function Comma(more: bool): seq<byte> {
    if more then [COMMA] else []
  }

  /** What stands before and behind each element of an array. */
  datatype Layout = Layout(before: seq<byte>, after: seq<byte>)

  function LineLayout(o: Options, level: nat): Layout {
    Layout(Indent(o, level), NewLine(o))
  }

  function ItemText(text: seq<byte>, more: bool, l: Layout): seq<byte> {
    l.before + text + (Comma(more) + l.after)
  }

  /** Every element in its layout, with a comma behind all but the last. */
  function ElementsText(es: seq<Value>, l: Layout, o: Options, level: nat): seq<byte>
    requires forall i :: 0 <= i < |es| ==> WritableValue(es[i], o.mode)
    decreases es
  {
    if es == [] then []
    else ItemText(Text(es[0], o, level), |es| > 1, l) + ElementsText(es[1..], l, o, level)
  }

  function MemberText(m: Member, o: Options, level: nat): seq<byte>
    requires Writable(m.name, o.mode) && WritableValue(m.value, o.mode)
    decreases m
  {
    Quoted(m.name, o.mode) + (Space(o) + [COLON] + Space(o)) + Text(m.value, o, level)
  }

  function MembersText(ms: seq<Member>, o: Options, level: nat): seq<byte>
    requires forall i :: 0 <= i < |ms| ==> Writable(ms[i].name, o.mode) && WritableValue(ms[i].value, o.mode)
    decreases ms
  {
    if ms == [] then []
    else ItemText(MemberText(ms[0], o, level), |ms| > 1, LineLayout(o, level)) + MembersText(ms[1..], o, level)
  }

  function Text(v: Value, o: Options, level: nat): seq<byte>
    requires WritableValue(v, o.mode)
    decreases v
  {
    match v
    case Null => NULL
    case Bool(b) => if b then TRUE else FALSE
    case Int64(i) => IntText(i)
    case Uint64(u) => IntText(u)
    case Str(s) => Quoted(s, o.mode)
    case Array(es) =>
      if OnOneLine(es, o) then
        [OPEN_ARRAY] + Space(o) + ElementsText(es, Layout([], Space(o)), o, level) + [CLOSE_ARRAY]
      else
        [OPEN_ARRAY] + NewLine(o) + ElementsText(es, LineLayout(o, level + 1), o, level + 1)
        + (Indent(o, level) + [CLOSE_ARRAY])
    case Object(ms) =>
      [OPEN_OBJ] + NewLine(o) + MembersText(ms, o, level + 1) + (Indent(o, level) + [CLOSE_OBJ])
  }

  // The program

  lemma EscapeIsWritable(s: seq<byte>, m: Mode)
    ensures Escape(s, m).Some? <==> Writable(s, m)
  {
    EscapeNeedsWritable(s, m);
  }

  class Generator {
    var os: seq<byte>
    var indentationLevel: nat
    const options: Options

    constructor (options: Options)
      ensures os == [] && indentationLevel == 0 && this.options == options
    {
      os, indentationLevel, this.options := [], 0, options;
    }

    method PutIndent()
      modifies `os
      ensures os == old(os) + Indent(options, indentationLevel)
    {
      if !options.Pretty() {
        assert os == os + [];
        return;
      }
      assert os + Spaces(0) == os;
      for i := 0 to indentationLevel
        invariant os == old(os) + Spaces(i)
      {
        ConcatAssoc(old(os), Spaces(i), [SPACE, SPACE, SPACE, SPACE]);
        os := os + [SPACE, SPACE, SPACE, SPACE];
      }
    }

    method PutString(s: seq<byte>) returns (r: Result<(), Fault>)
      modifies `os
      ensures r.Ok? <==> Writable(s, options.mode)
      ensures r.Ok? ==> os == old(os) + Quoted(s, options.mode)
    {
      EscapeIsWritable(s, options.mode);
      var e := AddEscChars(s, options.mode);
      if e.Err? { return Err(e.error); }
      os := os + ([QUOTE] + e.value + [QUOTE]);
      return Ok(());
    }

    method PutMember(m: Member) returns (r: Result<(), Fault>)
      modifies this
      ensures r.Ok? <==> Writable(m.name, options.mode) && WritableValue(m.value, options.mode)
      ensures r.Ok? ==> os == old(os) + MemberText(m, options, indentationLevel) && indentationLevel == old(indentationLevel)
      decreases m, 0
    {
      var name := PutString(m.name);
      if name.Err? { return name; }
      ghost var named := os;
      os := os + Space(options);
      os := os + [COLON] + Space(options);
      assert os == named + (Space(options) + [COLON] + Space(options));
      r := Output(m.value);
      if r.Ok? {
        var q, sep, t := Quoted(m.name, options.mode), Space(options) + [COLON] + Space(options), Text(m.value, options, indentationLevel);
        assert old(os) + q + sep + t == old(os) + (q + sep + t);
      }
    }

    /** One round of the loops over an array, on one line or one line each. */
    method PutElement(e: Value, more: bool, oneLine: bool) returns (r: Result<(), Fault>)
      modifies this
      ensures r.Ok? <==> WritableValue(e, options.mode)
      ensures r.Ok? ==> indentationLevel == old(indentationLevel)
      ensures r.Ok? ==>
                var l := if oneLine then Layout([], Space(options)) else LineLayout(options, indentationLevel);
                os == old(os) + ItemText(Text(e, options, indentationLevel), more, l)
      decreases e, 1
    {
      ghost var start := os;
      ghost var l := if oneLine then Layout([], Space(options)) else LineLayout(options, indentationLevel);
      if !oneLine { PutIndent(); }
      assert os == start + l.before;
      r := Output(e);
      if r.Err? { return r; }
      EndItem(more, oneLine);
      Itemised(start, l.before, Text(e, options, indentationLevel), Comma(more), l.after);
    }

    /** The comma of `output_composite_item`, and the white space behind it. */
    method EndItem(more: bool, oneLine: bool)
      modifies `os
      ensures os == old(os) + Comma(more) + if oneLine then Space(options) else NewLine(options)
    {
      if more { os := os + [COMMA]; } else { assert os + [] == os; }
      os := os + if oneLine then Space(options) else NewLine(options);
    }

    /** The same round, by what is left of the text of the array. */
    method PutNext(es: seq<Value>, i: nat, oneLine: bool) returns (r: Result<(), Fault>)
      requires i < |es|
      modifies this
      ensures r.Ok? <==> WritableValue(es[i], options.mode)
      ensures r.Ok? ==> indentationLevel == old(indentationLevel)
      ensures r.Ok? && (forall k :: 0 <= k < |es| ==> WritableValue(es[k], options.mode)) ==>
                var l := if oneLine then Layout([], Space(options)) else LineLayout(options, indentationLevel);
                old(os) + ElementsText(es[i..], l, options, indentationLevel) ==
                os + ElementsText(es[i + 1..], l, options, indentationLevel)
      decreases es, 0, 0
    {
      r := PutElement(es[i], i + 1 != |es|, oneLine);
      if forall k :: 0 <= k < |es| ==> WritableValue(es[k], options.mode) {
        ElementsStep(es, i, if oneLine then Layout([], Space(options)) else LineLayout(options, indentationLevel),
                     options, indentationLevel, old(os));
      }
    }

    method PutElements(es: seq<Value>, oneLine: bool) returns (r: Result<(), Fault>)
      modifies this
      ensures r.Ok? <==> forall i :: 0 <= i < |es| ==> WritableValue(es[i], options.mode)
      ensures r.Ok? ==> indentationLevel == old(indentationLevel)
      ensures r.Ok? ==>
                var l := if oneLine then Layout([], Space(options)) else LineLayout(options, indentationLevel);
                os == old(os) + ElementsText(es, l, options, indentationLevel)
      decreases es, 0, 1
    {
      ghost var level := indentationLevel;
      ghost var l := if oneLine then Layout([], Space(options)) else LineLayout(options, level);
      ghost var all := forall i :: 0 <= i < |es| ==> WritableValue(es[i], options.mode);
      var i := 0;
      assert es[i..] == es;
      while i < |es|
        invariant i <= |es|
        invariant forall k :: 0 <= k < i ==> WritableValue(es[k], options.mode)
        invariant indentationLevel == level
        invariant all ==> old(os) + ElementsText(es, l, options, level) == os + ElementsText(es[i..], l, options, level)
      {
        r := PutNext(es, i, oneLine);
        if r.Err? { return r; }
        i := i + 1;
      }
      assert es[i..] == [] && os + [] == os;
      return Ok(());
    }

    /** One round of the loop over an object. */
    method PutMemberLine(m: Member, more: bool) returns (r: Result<(), Fault>)
      modifies this
      ensures r.Ok? <==> Writable(m.name, options.mode) && WritableValue(m.value, options.mode)
      ensures r.Ok? ==> indentationLevel == old(indentationLevel)
      ensures r.Ok? ==> os == old(os) + ItemText(MemberText(m, options, indentationLevel), more, LineLayout(options, indentationLevel))
      decreases m, 1
    {
      ghost var start := os;
      PutIndent();
      r := PutMember(m);
      if r.Err? { return r; }
      EndItem(more, false);
      Itemised(start, Indent(options, indentationLevel), MemberText(m, options, indentationLevel), Comma(more), NewLine(options));
    }

    method PutMembers(ms: seq<Member>) returns (r: Result<(), Fault>)
      modifies this
      ensures r.Ok? <==> forall i :: 0 <= i < |ms| ==> Writable(ms[i].name, options.mode) && WritableValue(ms[i].value, options.mode)
      ensures r.Ok? ==> indentationLevel == old(indentationLevel)
      ensures r.Ok? ==> os == old(os) + MembersText(ms, options, indentationLevel)
      decreases ms, 0
    {
      ghost var level := indentationLevel;
      ghost var all := forall i :: 0 <= i < |ms| ==> Writable(ms[i].name, options.mode) && WritableValue(ms[i].value, options.mode);
      var i := 0;
      assert ms[i..] == ms;
      while i < |ms|
        invariant i <= |ms|
        invariant forall k :: 0 <= k < i ==> Writable(ms[k].name, options.mode) && WritableValue(ms[k].value, options.mode)
        invariant indentationLevel == level
        invariant all ==> old(os) + MembersText(ms, options, level) == os + MembersText(ms[i..], options, level)
      {
        ghost var start := os;
        r := PutMemberLine(ms[i], i + 1 != |ms|);
        if r.Err? { return r; }
        if all {
          MembersStep(ms, i, options, level, start);
        }
        i := i + 1;
      }
      assert ms[i..] == [] && os + [] == os;
      return Ok(());
    }

    /** `output`: appends the text of `v`, or leaves with the exception of the UTF-8 parser. */
    method Output(v: Value) returns (r: Result<(), Fault>)
      modifies this
      ensures r.Ok? <==> WritableValue(v, options.mode)
      ensures r.Ok? ==> os == old(os) + Text(v, options, indentationLevel) && indentationLevel == old(indentationLevel)
      decreases v, 0
    {
      match v
      case Null => os := os + NULL; return Ok(());
      case Bool(b) => os := os + if b then TRUE else FALSE; return Ok(());
      case Int64(i) => os := os + IntText(i); return Ok(());
      case Uint64(u) => os := os + IntText(u); return Ok(());
      case Str(s) => r := PutString(s);
      case Array(es) => r := OutputArray(es);
      case Object(ms) => r := OutputObject(ms);
    }

    method OutputObject(ms: seq<Member>) returns (r: Result<(), Fault>)
      modifies this
      ensures r.Ok? <==> WritableValue(Object(ms), options.mode)
      ensures r.Ok? ==> os == old(os) + Text(Object(ms), options, indentationLevel) && indentationLevel == old(indentationLevel)
      decreases ms, 1
    {
      ghost var start := os;
      os := os + ([OPEN_OBJ] + NewLine(options));
      indentationLevel := indentationLevel + 1;
      r := PutMembers(ms);
      if r.Err? { return r; }
      indentationLevel := indentationLevel - 1;
      PutIndent();
      os := os + [CLOSE_OBJ];
      Bracketed(start, [OPEN_OBJ] + NewLine(options), MembersText(ms, options, indentationLevel + 1),
                Indent(options, indentationLevel), [CLOSE_OBJ]);
    }

    method OutputArray(es: seq<Value>) returns (r: Result<(), Fault>)
      modifies this
      ensures r.Ok? <==> WritableValue(Array(es), options.mode)
      ensures r.Ok? ==> os == old(os) + Text(Array(es), options, indentationLevel) && indentationLevel == old(indentationLevel)
      decreases es, 2
    {
      if OnOneLine(es, options) {
        r := OutputOneLine(es);
      } else {
        r := OutputLines(es);
      }
    }

    method OutputOneLine(es: seq<Value>) returns (r: Result<(), Fault>)
      modifies this
      ensures r.Ok? <==> forall i :: 0 <= i < |es| ==> WritableValue(es[i], options.mode)
      ensures r.Ok? ==> indentationLevel == old(indentationLevel)
      ensures r.Ok? ==>
                os == old(os) + ([OPEN_ARRAY] + Space(options)
                                 + ElementsText(es, Layout([], Space(options)), options, indentationLevel) + [CLOSE_ARRAY])
      decreases es, 1
    {
      ghost var start := os;
      os := os + ([OPEN_ARRAY] + Space(options));
      r := PutElements(es, true);
      if r.Err? { return r; }
      os := os + [CLOSE_ARRAY];
      ghost var t := ElementsText(es, Layout([], Space(options)), options, indentationLevel);
      ConcatAssoc(start, [OPEN_ARRAY] + Space(options), t);
      ConcatAssoc(start, [OPEN_ARRAY] + Space(options) + t, [CLOSE_ARRAY]);
    }

    method OutputLines(es: seq<Value>) returns (r: Result<(), Fault>)
      modifies this
      ensures r.Ok? <==> forall i :: 0 <= i < |es| ==> WritableValue(es[i], options.mode)
      ensures r.Ok? ==> indentationLevel == old(indentationLevel)
      ensures r.Ok? ==>
                os == old(os) + ([OPEN_ARRAY] + NewLine(options)
                                 + ElementsText(es, LineLayout(options, indentationLevel + 1), options, indentationLevel + 1)
                                 + (Indent(options, indentationLevel) + [CLOSE_ARRAY]))
      decreases es, 1
    {
      ghost var start := os;
      os := os + ([OPEN_ARRAY] + NewLine(options));
      indentationLevel := indentationLevel + 1;
      r := PutElements(es, false);
      if r.Err? { return r; }
      indentationLevel := indentationLevel - 1;
      PutIndent();
      os := os + [CLOSE_ARRAY];
      Bracketed(start, [OPEN_ARRAY] + NewLine(options),
                ElementsText(es, LineLayout(options, indentationLevel + 1), options, indentationLevel + 1),
                Indent(options, indentationLevel), [CLOSE_ARRAY]);
    }
  }

  lemma Itemised(start: seq<byte>, before: seq<byte>, text: seq<byte>, comma: seq<byte>, after: seq<byte>)
    ensures start + before + text + comma + after == start + (before + text + (comma + after))
  {
  }

  lemma Bracketed(start: seq<byte>, open: seq<byte>, body: seq<byte>, indent: seq<byte>, close: seq<byte>)
    ensures start + open + body + indent + close == start + (open + body + (indent + close))
  {
  }

  lemma ElementsStep(es: seq<Value>, i: nat, l: Layout, o: Options, level: nat, start: seq<byte>)
    requires i < |es| && forall k :: 0 <= k < |es| ==> WritableValue(es[k], o.mode)
    ensures start + ElementsText(es[i..], l, o, level) ==
            start + ItemText(Text(es[i], o, level), i + 1 != |es|, l) + ElementsText(es[i + 1..], l, o, level)
  {
    assert es[i..][1..] == es[i + 1..];
  }

  lemma MembersStep(ms: seq<Member>, i: nat, o: Options, level: nat, start: seq<byte>)
    requires i < |ms| && forall k :: 0 <= k < |ms| ==> Writable(ms[k].name, o.mode) && WritableValue(ms[k].value, o.mode)
    ensures start + MembersText(ms[i..], o, level) ==
            start + ItemText(MemberText(ms[i], o, level), i + 1 != |ms|, LineLayout(o, level)) + MembersText(ms[i + 1..], o, level)
  {
    assert ms[i..][1..] == ms[i + 1..];
  }

  /** `write_string`. */
  method WriteString(v: Value, o: Options) returns (r: Result<seq<byte>, Fault>)
    ensures r.Ok? <==> WritableValue(v, o.mode)
    ensures r.Ok? ==> r.value == Text(v, o, 0)
  {
    var g := new Generator(o);
    var done := g.Output(v);
    if done.Err? { return Err(done.error); }
    assert [] + Text(v, o, 0) == Text(v, o, 0);
    return Ok(g.os);
  }
}
