/**
 Wrapping of overlong log lines (server/logger.cc:177-220).  An iterator into the line is its offset, so
 `ofs` and `end` of the original are the same number here.  The maximum line length is a parameter; its
 setter allows every length up to 64 KiB, also lengths below that of a UTF-8 sequence.
 */
module LineWrap {
  import opened Utf8

  /** "↩" and "↪". */
  const WRAP: seq<byte> := [0xE2, 0x86, 0xA9]
  const CONTINUE: seq<byte> := [0xE2, 0x86, 0xAA]

  /** The markers are LEFTWARDS ARROW WITH HOOK, where a line was cut, and RIGHTWARDS ARROW WITH HOOK, where it goes on. */
  lemma MarkersSpelled()
    ensures WRAP == Encode(0x21A9) && CONTINUE == Encode(0x21AA)
    ensures WRAP == Encode('↩' as int) && CONTINUE == Encode('↪' as int)
  {
  }

  /** How far the inner loop goes back from `end`, `n` octets of which it has gone already. */
  function Rewound(s: seq<byte>, begin: nat, end: nat, n: nat): (r: nat)
    requires begin <= end < |s| && n <= 8
    ensures n <= r <= 8 && r - n <= end - begin
    ensures forall i :: end - (r - n) < i <= end ==> IsTail(s[i])
    decreases end
  {
    if IsTail(s[end]) && end > begin && n < 8 then Rewound(s, begin, end - 1, n + 1) else n
  }

  /** Where the fragment that starts at `begin` ends. */
  function NextEnd(s: seq<byte>, begin: nat, max: nat): (e: nat)
    requires begin <= |s|
    ensures begin <= e <= |s| && e - begin <= max
  {
    var end := begin + Min(max, |s| - begin);
    if end == |s| then end
    else
      var n := Rewound(s, begin, end, 0);
      if n >= 8 then end else end - n
  }

  predicate TailsBehind(s: seq<byte>, p: nat, n: nat) {
    p + n < |s| && forall i :: p < i <= p + n ==> IsTail(s[i])
  }

  /** Continuation octets never fill a whole line, or lines are longer than the inner loop goes back. */
  predicate Wrappable(s: seq<byte>, max: nat) {
    max >= 8 || forall p: nat :: p < |s| ==> !TailsBehind(s, p, max)
  }

  lemma WrappableAdvances(s: seq<byte>, begin: nat, max: nat)
    requires begin < |s| && Wrappable(s, max)
    ensures NextEnd(s, begin, max) > begin
  {
    if NextEnd(s, begin, max) == begin {
      assert TailsBehind(s, begin, max);
    }
  }

  /** The fragments of the line from `begin` on; an empty line has one empty fragment. */
  function Fragments(s: seq<byte>, begin: nat, max: nat): (f: seq<seq<byte>>)
    requires begin <= |s| && Wrappable(s, max)
    ensures f != []
    decreases |s| - begin
  {
    var end := NextEnd(s, begin, max);
    if end == |s| then [s[begin..end]]
    else
      WrappableAdvances(s, begin, max);
      [s[begin..end]] + Fragments(s, end, max)
  }

  /** Markers show where a line was cut. */
  function Marked(fragments: seq<seq<byte>>, cont: bool): (lines: seq<seq<byte>>)
    ensures |lines| == |fragments|
  {
    if fragments == [] then []
    else
      [(if cont then CONTINUE else []) + fragments[0] + if |fragments| > 1 then WRAP else []]
      + Marked(fragments[1..], true)
  }

  /** The inner loop of `wrapLongLine` and the correction behind it. */
  method FindEnd(s: seq<byte>, begin: nat, limit: nat) returns (end: nat)
    requires begin <= limit < |s|
    ensures end == var n := Rewound(s, begin, limit, 0); if n >= 8 then limit else limit - n
  {
    end := limit;
    var sequence_length := 0;
    while s[end] >= 0x80 && s[end] < 0xC0 && end > begin && sequence_length < 8
      invariant begin <= end <= limit && end == limit - sequence_length && sequence_length <= 8
      invariant Rewound(s, begin, limit, 0) == Rewound(s, begin, end, sequence_length)
      decreases end
    {
      end := end - 1;
      sequence_length := sequence_length + 1;
    }
    if sequence_length >= 8 {
      end := end + sequence_length;
    }
  }

  /** The text written for the fragment from `begin` to `end`. */
  function Line(s: seq<byte>, begin: nat, end: nat, cont: bool): seq<byte>
    requires begin <= end <= |s|
  {
    (if cont then CONTINUE else []) + s[begin..end] + if end != |s| then WRAP else []
  }

  /** What is still to be written when the outer loop is at `end`. */
  ghost function Pending(s: seq<byte>, end: nat, max: nat, cont: bool): seq<seq<byte>>
    requires end <= |s| && Wrappable(s, max)
  {
    if cont && end == |s| then [] else Marked(Fragments(s, end, max), cont)
  }

  lemma NextLine(s: seq<byte>, begin: nat, max: nat, cont: bool)
    requires begin <= |s| && Wrappable(s, max) && (begin < |s| || !cont)
    ensures var end := NextEnd(s, begin, max);
            Pending(s, begin, max, cont) == [Line(s, begin, end, cont)] + Pending(s, end, max, true)
  {
    var end := NextEnd(s, begin, max);
    if end != |s| {
      WrappableAdvances(s, begin, max);
      assert Fragments(s, begin, max)[1..] == Fragments(s, end, max);
    }
  }

  /** The new value of `end` in a round of the outer loop. */
  method Advance(s: seq<byte>, begin: nat, max: nat) returns (end: nat)
    requires begin <= |s|
    ensures end == NextEnd(s, begin, max)
  {
    end := begin + Min(max, |s| - begin);
    if end != |s| {
      end := FindEnd(s, begin, end);
    }
  }

  /** `wrapLongLine`, where it terminates: appends the marked fragments to `lines`. */
  method WrapLongLine(oneline: seq<byte>, max: nat, lines: seq<seq<byte>>) returns (r: seq<seq<byte>>)
    requires Wrappable(oneline, max)
    ensures r == lines + Marked(Fragments(oneline, 0, max), false)
  {
    r := lines;
    var begin, end, cont_line := 0, 0, false;
    while true
      invariant end <= |oneline| && (end < |oneline| || !cont_line)
      invariant lines + Marked(Fragments(oneline, 0, max), false) == r + Pending(oneline, end, max, cont_line)
      decreases |oneline| - end
    {
      begin := end;
      end := Advance(oneline, begin, max);
      var line := Line(oneline, begin, end, cont_line);
      NextLine(oneline, begin, max, cont_line);
      ConcatAssoc(r, [line], Pending(oneline, end, max, true));
      r := r + [line];
      cont_line := true;
      if end == |oneline| { break; }
      WrappableAdvances(oneline, begin, max);
    }
  }

  // What a reader of the log gets

  function Flat(fragments: seq<seq<byte>>): seq<byte> {
    if fragments == [] then [] else fragments[0] + Flat(fragments[1..])
  }

  /** Every line is its fragment, with the markers around it that say what was cut. */
  lemma {:induction false} MarkersShowCuts(fragments: seq<seq<byte>>, cont: bool, k: nat)
    requires k < |fragments|
    ensures Marked(fragments, cont)[k] ==
            (if cont || k > 0 then CONTINUE else []) + fragments[k] + if k + 1 < |fragments| then WRAP else []
  {
    if k > 0 {
      MarkersShowCuts(fragments[1..], true, k - 1);
    }
  }

  /** Without markers, the fragments are the line: nothing is lost, and each one fits and advances. */
  lemma {:induction false} FragmentsAreTheLine(s: seq<byte>, begin: nat, max: nat)
    requires begin <= |s| && Wrappable(s, max)
    ensures Flat(Fragments(s, begin, max)) == s[begin..]
    ensures forall f :: f in Fragments(s, begin, max) ==> |f| <= max && (begin < |s| ==> f != [])
    ensures begin == |s| ==> Fragments(s, begin, max) == [[]]
    decreases |s| - begin
  {
    var end := NextEnd(s, begin, max);
    var f := Fragments(s, begin, max);
    if begin < |s| {
      WrappableAdvances(s, begin, max);
    }
    if end < |s| {
      FragmentsAreTheLine(s, end, max);
      assert f[1..] == Fragments(s, end, max);
      assert s[begin..end] + s[end..] == s[begin..];
    }
  }

  // Termination

  /** The offset the outer loop has reached after `k` rounds. */
  function Reached(s: seq<byte>, max: nat, k: nat): (e: nat)
    ensures e <= |s|
  {
    if k == 0 then 0 else NextEnd(s, Reached(s, max, k - 1), max)
  }

  lemma {:induction false} RewoundTo(s: seq<byte>, begin: nat, end: nat, n: nat, q: nat)
    requires begin <= q <= end < |s| && n + (end - q) < 8
    requires forall i :: q < i <= end ==> IsTail(s[i])
    requires q == begin || !IsTail(s[q])
    ensures Rewound(s, begin, end, n) == n + (end - q)
    decreases end
  {
    if end > q {
      RewoundTo(s, begin, end - 1, n + 1, q);
    }
  }

  /** Where a run of continuation octets begins. */
  lemma {:induction false} RunStart(s: seq<byte>, p: nat, n: nat) returns (q: nat)
    requires TailsBehind(s, p, n)
    ensures q <= p && TailsBehind(s, q, n) && (q == 0 || !IsTail(s[q]))
  {
    if p == 0 || !IsTail(s[p]) {
      q := p;
    } else {
      q := RunStart(s, p - 1, n);
    }
  }

  /** The loop cannot get past a run that is as long as a line. */
  lemma {:induction false} Blocked(s: seq<byte>, max: nat, q: nat, k: nat)
    requires max < 8 && TailsBehind(s, q, max) && (q == 0 || !IsTail(s[q]))
    ensures Reached(s, max, k) <= q
  {
    if k > 0 {
      Blocked(s, max, q, k - 1);
      var b := Reached(s, max, k - 1);
      if b + max > q {
        RewoundTo(s, b, b + max, 0, q);
      }
    }
  }

  lemma {:induction false} Advances(s: seq<byte>, max: nat, k: nat)
    requires Wrappable(s, max)
    ensures Reached(s, max, k) >= Min(k, |s|)
  {
    if k > 0 {
      Advances(s, max, k - 1);
      if Reached(s, max, k - 1) < |s| {
        WrappableAdvances(s, Reached(s, max, k - 1), max);
      }
    }
  }

  /**
   The outer loop ends exactly on the wrappable lines.  On any other line it writes empty fragments
   forever: its way back is as long as its way forward.
   */
  lemma TerminatesIff(s: seq<byte>, max: nat)
    ensures (exists k :: Reached(s, max, k) == |s|) <==> Wrappable(s, max)
  {
    if Wrappable(s, max) {
      Advances(s, max, |s|);
    } else {
      var p: nat :| p < |s| && TailsBehind(s, p, max);
      var q := RunStart(s, p, max);
      forall k ensures Reached(s, max, k) != |s| {
        Blocked(s, max, q, k);
      }
    }
  }

  /** The euro sign at a limit of two: the loop never gets past its start. */
  lemma SampleEndless(k: nat)
    ensures Reached([0xE2, 0x82, 0xAC], 2, k) == 0
  {
    assert TailsBehind([0xE2, 0x82, 0xAC], 0, 2);
    Blocked([0xE2, 0x82, 0xAC], 2, 0, k);
  }

  // UTF-8

  /** The octets behind the first one of a sequence are its continuation octets, and only they are. */
  lemma SequenceShape(c: seq<byte>)
    requires IsSequence(c)
    ensures 1 <= |c| <= 4 && WellFormed(c)
    ensures forall i :: 0 <= i < |c| ==> (IsTail(c[i]) <==> i > 0)
  {
    assert c[..|c|] == c;
    FrontIsUnique(c, |c|);
  }

  lemma Prepend(s: seq<byte>, begin: nat, next: nat, q: nat)
    requires begin <= next <= q <= |s| && WellFormed(s[begin..next]) && WellFormed(s[next..q])
    ensures WellFormed(s[begin..q])
  {
    SliceConcat(s, begin, next, q);
    WellFormedConcat(s[begin..next], s[next..q]);
  }

  lemma NextStart(s: seq<byte>, begin: nat) returns (next: nat)
    requires begin < |s| && WellFormed(s[begin..])
    ensures begin < next <= |s| && next <= begin + 4 && WellFormed(s[begin..next]) && WellFormed(s[next..])
    ensures forall i :: begin <= i < next ==> (IsTail(s[i]) <==> i > begin)
  {
    next := begin + Front(s[begin..]);
    FirstSlice(s, begin, next);
    SequenceShape(s[begin..next]);
    TailsAt(s, begin, next);
  }

  lemma FirstSlice(s: seq<byte>, begin: nat, next: nat)
    requires begin < |s| && WellFormed(s[begin..]) && next == begin + Front(s[begin..])
    ensures begin < next <= |s| && IsSequence(s[begin..next]) && WellFormed(s[next..])
  {
    ReadableStep(s, begin, next - 1);
  }

  lemma TailsAt(s: seq<byte>, begin: nat, next: nat)
    requires begin <= next <= |s| && forall i :: 0 <= i < next - begin ==> (IsTail(s[begin..next][i]) <==> i > 0)
    ensures forall i :: begin <= i < next ==> (IsTail(s[i]) <==> i > begin)
  {
    assert forall i :: begin <= i < next ==> s[i] == s[begin..next][i - begin];
  }

  /** The sequence of a well-formed string that the octet at `e` belongs to starts at `q`. */
  lemma {:induction false} StartBefore(s: seq<byte>, begin: nat, e: nat) returns (q: nat)
    requires begin <= e < |s| && WellFormed(s[begin..])
    ensures begin <= q <= e < q + 4 && WellFormed(s[begin..q]) && WellFormed(s[q..])
    ensures !IsTail(s[q]) && forall i :: q < i <= e ==> IsTail(s[i])
    decreases |s| - begin
  {
    var next := NextStart(s, begin);
    if e < next {
      q := begin;
      assert s[q..q] == [];
    } else {
      q := StartBefore(s, next, e);
      Prepend(s, begin, next, q);
    }
  }

  lemma CutIsBoundary(s: seq<byte>, begin: nat, max: nat)
    requires begin <= |s| && WellFormed(s[begin..])
    ensures var e := NextEnd(s, begin, max); WellFormed(s[begin..e]) && WellFormed(s[e..])
    ensures forall i :: NextEnd(s, begin, max) < i <= begin + max && i < |s| ==> IsTail(s[i])
  {
    var end := begin + Min(max, |s| - begin);
    if end < |s| {
      var q := StartBefore(s, begin, end);
      RewoundTo(s, begin, end, 0, q);
      assert NextEnd(s, begin, max) == q;
    } else {
      assert s[begin..end] == s[begin..] && s[end..] == [];
    }
  }

  /** A well-formed line is never cut inside a UTF-8 sequence: every line that is written is well-formed. */
  lemma {:induction false} FragmentsAreWellFormed(s: seq<byte>, begin: nat, max: nat)
    requires begin <= |s| && Wrappable(s, max) && WellFormed(s[begin..])
    ensures forall f :: f in Fragments(s, begin, max) ==> WellFormed(f)
    decreases |s| - begin
  {
    var end := NextEnd(s, begin, max);
    CutIsBoundary(s, begin, max);
    if end < |s| {
      WrappableAdvances(s, begin, max);
      FragmentsAreWellFormed(s, end, max);
    }
  }

  lemma LinesAreWellFormed(s: seq<byte>, max: nat, line: seq<byte>)
    requires Wrappable(s, max) && WellFormed(s) && line in Marked(Fragments(s, 0, max), false)
    ensures WellFormed(line)
  {
    var f := Fragments(s, 0, max);
    var k :| 0 <= k < |f| && Marked(f, false)[k] == line;
    MarkersShowCuts(f, false, k);
    assert s[0..] == s;
    FragmentsAreWellFormed(s, 0, max);
    var left, right := if k > 0 then CONTINUE else [], if k + 1 < |f| then WRAP else [];
    MarkersAreWellFormed();
    assert f[k] in f;
    WellFormedConcat(left, f[k]);
    WellFormedConcat(left + f[k], right);
  }

  lemma MarkersAreWellFormed()
    ensures WellFormed(WRAP) && WellFormed(CONTINUE) && WellFormed([])
  {
    assert WRAP[..3] == WRAP && CONTINUE[..3] == CONTINUE;
    FrontIsUnique(WRAP, 3);
    FrontIsUnique(CONTINUE, 3);
  }

  /** And no fragment is shorter than it must be: a longer one would exceed the limit or split a sequence. */
  lemma FragmentIsLongest(s: seq<byte>, begin: nat, max: nat, e: nat)
    requires begin <= |s| && WellFormed(s[begin..])
    requires NextEnd(s, begin, max) < e <= |s|
    ensures e > begin + max || !WellFormed(s[begin..e])
  {
    CutIsBoundary(s, begin, max);
    if e <= begin + max && WellFormed(s[begin..e]) {
      assert s[begin..e] + s[e..] == s[begin..];
      WellFormedConcat(s[begin..e], s[e..]);
      TailStartsNothing(s[e..]);
    }
  }

  lemma TailStartsNothing(t: seq<byte>)
    requires t != [] && IsTail(t[0])
    ensures !WellFormed(t)
  {
    assert Front(t) == 0;
  }

  /** Well-formed lines wrap at every length a sequence fits into. */
  lemma WellFormedIsWrappable(s: seq<byte>, max: nat)
    requires WellFormed(s) && max >= 4
    ensures Wrappable(s, max)
  {
    forall p: nat | p < |s| ensures !TailsBehind(s, p, max) {
      if p + max < |s| {
        assert s[0..] == s;
        var q := StartBefore(s, 0, p + max);
        assert !IsTail(s[q]) && p < q <= p + max;
      }
    }
  }
}
