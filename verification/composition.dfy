/**
 Composition as `createNFC` performs it (server/nfc.cc:358-423).  A composed mark is overwritten with
 -1, which has class 0 and so blocks every later mark of the same starter: each starter composes
 at most once, with the first mark it can.
 */
module Composition {
  import opened Wrappers
  import opened Utf8
  import opened UnicodeTables
  import opened Ordering
  import opened Decomposition

  /** `*c = -1` in a 32-bit unsigned element. */
  const DELETED: nat := 0xFFFF_FFFF

  /** `int(*c) >= 0` for a 32-bit unsigned element. */
  predicate IsKept(c: nat) {
    c < 0x8000_0000
  }

  /** Between a starter and `marks[k]` lies a class-0 character or one of the class of `marks[k]`. */
  predicate IsBlocked(t: Tables, marks: seq<nat>, k: nat)
    requires k < |marks|
  {
    exists j :: 0 <= j < k && (t.Class(marks[j]) == 0 || t.Class(marks[j]) == t.Class(marks[k]))
  }

  predicate Composes(t: Tables, starter: nat, marks: seq<nat>, k: nat)
    requires k < |marks|
  {
    !IsBlocked(t, marks, k) && t.Composite(starter, marks[k]).Some?
  }

  /** The first mark at or behind `from` that composes with the starter, or `|marks|`. */
  function FirstComposing(t: Tables, starter: nat, marks: seq<nat>, from: nat): (k: nat)
    requires from <= |marks|
    ensures from <= k <= |marks|
    ensures forall j :: from <= j < k ==> !Composes(t, starter, marks, j)
    ensures k < |marks| ==> Composes(t, starter, marks, k)
    decreases |marks| - from
  {
    if from == |marks| || Composes(t, starter, marks, from) then from
    else FirstComposing(t, starter, marks, from + 1)
  }

  /** A starter and its marks, after composing. */
  function Combined(t: Tables, starter: nat, marks: seq<nat>): seq<nat> {
    var k := FirstComposing(t, starter, marks, 0);
    if k == |marks| then [starter] + marks
    else [t.Composite(starter, marks[k]).value] + marks[..k] + marks[k + 1..]
  }

  /** The first class-0 position at or behind `from`, or `|s|`. */
  function NextStarter(t: Tables, s: seq<nat>, from: nat): (n: nat)
    requires from <= |s|
    ensures from <= n <= |s|
    ensures forall i :: from <= i < n ==> t.Class(s[i]) > 0
    ensures n < |s| ==> t.Class(s[n]) == 0
    decreases |s| - from
  {
    if from == |s| || t.Class(s[from]) == 0 then from else NextStarter(t, s, from + 1)
  }

  /** The length of the first piece that `createNFC` handles: a character, or a starter with its marks. */
  function Piece(t: Tables, s: seq<nat>): (n: nat)
    requires s != []
    ensures 1 <= n <= |s|
  {
    if t.Class(s[0]) != 0 then 1 else NextStarter(t, s, 1)
  }

  function ComposedPiece(t: Tables, s: seq<nat>): seq<nat>
    requires s != []
  {
    if t.Class(s[0]) != 0 then [s[0]] else Combined(t, s[0], s[1..Piece(t, s)])
  }

  /** The result of `createNFC`. */
  function Composed(t: Tables, s: seq<nat>): seq<nat> {
    if s == [] then [] else ComposedPiece(t, s) + Composed(t, s[Piece(t, s)..])
  }

  // The program

  /** `blocked`. */
  method Blocked(t: Tables, us: array<nat>, l: nat, c: nat) returns (b: bool)
    requires l < c < us.Length
    ensures b <==> IsBlocked(t, us[l + 1..us.Length], c - l - 1)
  {
    ghost var marks := us[l + 1..us.Length];
    var i := l + 1;
    while i != c
      invariant l + 1 <= i <= c
      invariant forall j :: 0 <= j < i - l - 1 ==> t.Class(marks[j]) != 0 && t.Class(marks[j]) != t.Class(marks[c - l - 1])
    {
      if t.Class(us[i]) == 0 || t.Class(us[i]) == t.Class(us[c]) {
        assert marks[i - l - 1] == us[i];
        return true;
      }
      i := i + 1;
    }
    return false;
  }

  lemma BlockedInLonger(t: Tables, marks: seq<nat>, more: seq<nat>, k: nat)
    requires k < |marks| && marks <= more
    ensures IsBlocked(t, marks, k) <==> IsBlocked(t, more, k)
  {
    if IsBlocked(t, more, k) {
      var j :| 0 <= j < k && (t.Class(more[j]) == 0 || t.Class(more[j]) == t.Class(more[k]));
      assert marks[j] == more[j];
    }
  }

  /** The buffer from the starter on, once the marks before `tried` have been tried. */
  function Tried(t: Tables, starter: nat, marks: seq<nat>, tried: nat): (now: seq<nat>)
    requires tried <= |marks|
    ensures |now| == |marks| + 1
  {
    var k := FirstComposing(t, starter, marks, 0);
    if tried <= k then [starter] + marks
    else [t.Composite(starter, marks[k]).value] + marks[k := DELETED]
  }

  /** Behind a composed mark everything is blocked, since -1 has class 0; before it nothing has changed. */
  lemma TriedStep(t: Tables, starter: nat, marks: seq<nat>, c: nat)
    requires t.Valid() && c < |marks|
    ensures var now, k := Tried(t, starter, marks, c), FirstComposing(t, starter, marks, 0);
            && (Composes(t, now[0], now[1..], c) <==> c == k)
            && (c != k ==> Tried(t, starter, marks, c + 1) == now)
            && (c == k ==> Tried(t, starter, marks, c + 1) == now[0 := t.Composite(now[0], now[c + 1]).value][c + 1 := DELETED])
  {
    var now, k := Tried(t, starter, marks, c), FirstComposing(t, starter, marks, 0);
    if c <= k {
      assert now[1..] == marks;
    } else {
      assert now[1..] == marks[k := DELETED];
      assert t.Class(now[1..][k]) == 0;
      assert IsBlocked(t, now[1..], c);
    }
  }

  /** One round of the first loop of `combine`: the mark at `c` is taken, or nothing changes. */
  method TryMark(t: Tables, us: array<nat>, starter: nat, c: nat, next: nat)
    requires t.Valid() && starter < c < next <= us.Length
    modifies us
    ensures var now := old(us[starter..next]);
            us[starter..next] ==
              if Composes(t, now[0], now[1..], c - starter - 1)
              then now[0 := t.Composite(now[0], now[c - starter]).value][c - starter := DELETED]
              else now
    ensures us[next..] == old(us[next..])
  {
    ghost var now := us[starter..next];
    var b := Blocked(t, us, starter, c);
    assert us[starter + 1..next] == now[1..] && us[starter] == now[0] && us[c] == now[c - starter];
    BlockedInLonger(t, now[1..], us[starter + 1..us.Length], c - starter - 1);
    if !b && (us[starter], us[c]) in t.compose {
      var p := t.compose[(us[starter], us[c])];
      us[starter] := p;
      us[c] := DELETED;
      assert us[starter..next] == now[0 := p][c - starter := DELETED];
    }
  }

  /** The first loop of `combine`. */
  method CombineMarks(t: Tables, us: array<nat>, starter: nat, next: nat)
    requires t.Valid() && starter < next <= us.Length
    modifies us
    ensures us[starter..next] == Tried(t, old(us[starter]), old(us[starter + 1..next]), next - starter - 1)
    ensures us[next..] == old(us[next..])
  {
    ghost var marks := us[starter + 1..next];
    ghost var s := us[starter];
    var c := starter + 1;
    assert us[starter..next] == [s] + marks;
    while c != next
      invariant starter + 1 <= c <= next
      invariant us[starter..next] == Tried(t, s, marks, c - starter - 1)
      invariant us[next..] == old(us[next..])
    {
      TriedStep(t, s, marks, c - starter - 1);
      TryMark(t, us, starter, c, next);
      c := c + 1;
    }
  }

  /** The second loop of `combine`. */
  method AppendKept(us: array<nat>, starter: nat, next: nat, nfc: seq<nat>) returns (out: seq<nat>)
    requires starter <= next <= us.Length
    ensures out == nfc + Kept(us[starter..next])
  {
    ghost var left := us[starter..next];
    out := nfc;
    var c := starter;
    while c != next
      invariant starter <= c <= next
      invariant out == nfc + Kept(left[..c - starter])
    {
      KeptSnoc(left, c - starter);
      assert left[c - starter] == us[c];
      if IsKept(us[c]) {
        out := out + [us[c]];
      }
      c := c + 1;
    }
    assert left[..|left|] == left;
  }

  /** `combine`: composes inside `us[starter..next]`, then appends what is left of it to `nfc`. */
  method Combine(t: Tables, us: array<nat>, starter: nat, next: nat, nfc: seq<nat>) returns (out: seq<nat>)
    requires t.Valid() && starter < next <= us.Length
    requires IsScalar(us[starter]) && AllScalar(us[starter + 1..next])
    modifies us
    ensures out == nfc + Combined(t, old(us[starter]), old(us[starter + 1..next]))
    ensures us[next..] == old(us[next..])
  {
    KeptOfTried(t, us[starter], us[starter + 1..next]);
    CombineMarks(t, us, starter, next);
    out := AppendKept(us, starter, next, nfc);
  }

  /** The elements that survive the filter behind the composition loop. */
  function Kept(s: seq<nat>): seq<nat> {
    if s == [] then [] else Kept(s[..|s| - 1]) + if IsKept(s[|s| - 1]) then [s[|s| - 1]] else []
  }

  lemma KeptSnoc(s: seq<nat>, i: nat)
    requires i < |s|
    ensures Kept(s[..i + 1]) == Kept(s[..i]) + if IsKept(s[i]) then [s[i]] else []
  {
    assert s[..i + 1][..i] == s[..i];
  }

  lemma {:induction false} KeptOfCharacters(s: seq<nat>)
    requires forall i :: 0 <= i < |s| ==> s[i] <= MAX_CODE_POINT
    ensures Kept(s) == s
  {
    if s != [] {
      KeptOfCharacters(s[..|s| - 1]);
    }
  }

  lemma {:induction false} KeptConcat(a: seq<nat>, b: seq<nat>)
    ensures Kept(a + b) == Kept(a) + Kept(b)
  {
    if b == [] {
      assert a + b == a;
    } else {
      assert (a + b)[..|a + b| - 1] == a + b[..|b| - 1];
      KeptConcat(a, b[..|b| - 1]);
    }
  }

  /** What the filter leaves of the tried buffer: the combined characters. */
  lemma KeptOfTried(t: Tables, starter: nat, marks: seq<nat>)
    requires t.Valid() && IsScalar(starter) && AllScalar(marks)
    ensures Kept(Tried(t, starter, marks, |marks|)) == Combined(t, starter, marks)
  {
    var k := FirstComposing(t, starter, marks, 0);
    if k == |marks| {
      KeptOfCharacters([starter] + marks);
    } else {
      var p := t.Composite(starter, marks[k]).value;
      assert t.ValidDecomposition(p);
      assert [p] + marks[k := DELETED] == ([p] + marks[..k]) + ([DELETED] + marks[k + 1..]);
      KeptWithout(p, marks, k);
    }
  }

  lemma KeptWithout(p: nat, marks: seq<nat>, k: nat)
    requires k < |marks| && p <= MAX_CODE_POINT
    requires forall i :: 0 <= i < |marks| ==> marks[i] <= MAX_CODE_POINT
    ensures Kept(([p] + marks[..k]) + ([DELETED] + marks[k + 1..])) == ([p] + marks[..k]) + marks[k + 1..]
  {
    KeptConcat([p] + marks[..k], [DELETED] + marks[k + 1..]);
    KeptConcat([DELETED], marks[k + 1..]);
    KeptOfCharacters([p] + marks[..k]);
    KeptOfCharacters(marks[k + 1..]);
    assert Kept([DELETED]) == Kept([DELETED][..0]);
  }

  /** One round of the loop of `createNFC`: appends the first piece of `nfd[starter..]`, composed. */
  method ComposePiece(t: Tables, nfd: array<nat>, starter: nat, nfc: seq<nat>) returns (out: seq<nat>, next: nat)
    requires t.Valid() && starter < nfd.Length && AllScalar(nfd[starter..])
    modifies nfd
    ensures next == starter + Piece(t, old(nfd[starter..])) <= nfd.Length
    ensures out == nfc + ComposedPiece(t, old(nfd[starter..]))
    ensures nfd[next..] == old(nfd[next..])
  {
    ghost var all, rest := nfd[..], nfd[starter..];
    assert all[starter..] == rest && rest[0] == nfd[starter];
    if t.Class(nfd[starter]) != 0 {
      return nfc + [nfd[starter]], starter + 1;
    }
    next := FindStarter(t, nfd, starter + 1);
    NextStarterFrom(t, all, starter, 1);
    assert nfd[starter + 1..next] == rest[1..next - starter];
    out := Combine(t, nfd, starter, next, nfc);
  }

  /** `createNFC`: works on its own copy of the decomposed string, given as the array `nfd`. */
  method CreateNfc(t: Tables, nfd: array<nat>) returns (nfc: seq<nat>)
    requires t.Valid() && AllScalar(nfd[..])
    modifies nfd
    ensures nfc == Composed(t, old(nfd[..]))
  {
    ghost var input := nfd[..];
    if nfd.Length <= 1 {
      assert nfd.Length == 1 ==> input[1..1] == [] && input[1..] == [] && Composed(t, input[1..]) == [];
      return nfd[..];
    }
    nfc := [];
    var starter := 0;
    assert input[0..] == input;
    while starter != nfd.Length
      invariant 0 <= starter <= nfd.Length
      invariant nfd[starter..] == input[starter..] && AllScalar(input[starter..])
      invariant nfc + Composed(t, input[starter..]) == Composed(t, input)
    {
      ghost var now := nfd[..];
      ComposedStep(t, nfc, input, starter);
      var next;
      nfc, next := ComposePiece(t, nfd, starter, nfc);
      assert nfd[next..] == now[next..];
      SameTail(now, input, starter, next);
      starter := next;
    }
  }

  lemma ComposedStep(t: Tables, before: seq<nat>, s: seq<nat>, starter: nat)
    requires starter < |s|
    ensures var rest := s[starter..];
            before + Composed(t, rest) == before + ComposedPiece(t, rest) + Composed(t, s[starter + Piece(t, rest)..])
  {
    var rest := s[starter..];
    assert rest[Piece(t, rest)..] == s[starter + Piece(t, rest)..];
    ConcatAssoc(before, ComposedPiece(t, rest), Composed(t, rest[Piece(t, rest)..]));
  }

  lemma SameTail<T>(a: seq<T>, b: seq<T>, i: nat, k: nat)
    requires |a| == |b| && i <= k <= |a| && a[i..] == b[i..]
    ensures a[k..] == b[k..]
  {
    assert a[k..] == a[i..][k - i..];
    assert b[k..] == b[i..][k - i..];
  }

  /** `std::find_if` for the next class-0 character. */
  method FindStarter(t: Tables, us: array<nat>, from: nat) returns (n: nat)
    requires from <= us.Length
    ensures n == NextStarter(t, us[..], from)
  {
    n := from;
    while n < us.Length && t.Class(us[n]) != 0
      invariant from <= n <= us.Length
      invariant NextStarter(t, us[..], from) == NextStarter(t, us[..], n)
    {
      n := n + 1;
    }
  }

  lemma {:induction false} NextStarterFrom(t: Tables, s: seq<nat>, start: nat, from: nat)
    requires start + from <= |s|
    ensures NextStarter(t, s[start..], from) == NextStarter(t, s, start + from) - start
    decreases |s| - from
  {
    if start + from < |s| && t.Class(s[start + from]) != 0 {
      NextStarterFrom(t, s, start, from + 1);
    }
  }

  // What it keeps

  lemma {:induction false} SortedRun(t: Tables, s: seq<nat>, i: nat, j: nat)
    requires InOrder(t, s) && i <= j < |s|
    requires forall m :: i < m <= j ==> t.Class(s[m]) > 0
    ensures t.Class(s[i]) <= t.Class(s[j])
  {
    if i < j {
      SortedRun(t, s, i, j - 1);
      assert !IsReorderablePair(t, s[j - 1], s[j - 1 + 1]);
    }
  }

  /** Composing inverts one level of decomposition. */
  lemma DecomposePair(t: Tables, p: nat, a: nat, b: nat)
    requires t.Valid() && t.Composite(a, b) == Some(p)
    requires a !in t.decompose && b !in t.decompose
    ensures DecomposeFull(t, p) == [a, b]
  {
    assert t.decompose[p] == (a, b) && t.ValidDecomposition(p);
    assert DecomposeFull(t, a) == [a] && DecomposeFull(t, b) == [b];
  }

  /** A composed starter decomposes into the starter, the mark it took, and the marks that were left. */
  lemma DecomposeCombined(t: Tables, starter: nat, marks: seq<nat>, k: nat)
    requires t.Valid() && AllFinal(t, [starter] + marks)
    requires k == FirstComposing(t, starter, marks, 0) < |marks|
    ensures DecomposeAll(t, Combined(t, starter, marks)) == [starter] + [marks[k]] + (marks[..k] + marks[k + 1..])
  {
    var p, ab := t.Composite(starter, marks[k]).value, marks[..k] + marks[k + 1..];
    assert forall i :: 0 <= i < |marks| ==> marks[i] == ([starter] + marks)[i + 1];
    assert starter == ([starter] + marks)[0];
    DecomposePair(t, p, starter, marks[k]);
    DecomposeAllOfFinal(t, ab);
    DecomposeAllCons(t, p, ab);
    assert [p] + marks[..k] + marks[k + 1..] == [p] + ab;
  }

  /** Composing one starter keeps the canonical decomposition of any string it stands in. */
  lemma CombinedKeepsNfd(t: Tables, x: seq<nat>, starter: nat, marks: seq<nat>, y: seq<nat>)
    requires t.Valid() && AllFinal(t, [starter] + marks)
    requires forall i :: 0 <= i < |marks| ==> t.Class(marks[i]) > 0
    ensures Ordered(t, x + DecomposeAll(t, Combined(t, starter, marks)) + y) == Ordered(t, x + ([starter] + marks) + y)
  {
    var k := FirstComposing(t, starter, marks, 0);
    if k == |marks| {
      DecomposeAllOfFinal(t, [starter] + marks);
    } else {
      DecomposeCombined(t, starter, marks, k);
      assert !IsBlocked(t, marks, k);
      MoveBack(t, x, starter, marks, k, y);
    }
  }

  lemma MoveBack(t: Tables, x: seq<nat>, starter: nat, marks: seq<nat>, k: nat, y: seq<nat>)
    requires k < |marks| && !IsBlocked(t, marks, k) && t.Class(marks[k]) > 0
    ensures Ordered(t, x + ([starter] + [marks[k]] + (marks[..k] + marks[k + 1..])) + y) ==
            Ordered(t, x + ([starter] + marks) + y)
  {
    var x', y', a, m := x + [starter], marks[k + 1..] + y, marks[..k], marks[k];
    OrderedIgnoresMove(t, x', m, a, y');
    assert x' + [m] + a + y' == x + ([starter] + [m] + (a + marks[k + 1..])) + y;
    assert marks == a + [m] + marks[k + 1..];
    assert x' + a + [m] + y' == x + ([starter] + marks) + y;
  }

  lemma PieceKeepsNfd(t: Tables, x: seq<nat>, s: seq<nat>, y: seq<nat>)
    requires t.Valid() && AllFinal(t, s) && s != []
    ensures Ordered(t, x + DecomposeAll(t, ComposedPiece(t, s)) + y) == Ordered(t, x + s[..Piece(t, s)] + y)
  {
    var n := Piece(t, s);
    assert s[..n] == [s[0]] + s[1..n];
    if t.Class(s[0]) != 0 {
      DecomposeAllOfFinal(t, [s[0]]);
    } else {
      CombinedKeepsNfd(t, x, s[0], s[1..n], y);
    }
  }

  lemma {:induction false} ComposedKeepsOrdered(t: Tables, x: seq<nat>, s: seq<nat>)
    requires t.Valid() && AllFinal(t, s)
    ensures Ordered(t, x + DecomposeAll(t, Composed(t, s))) == Ordered(t, x + s)
    decreases s
  {
    if s != [] {
      var n := Piece(t, s);
      var head, rest, c := s[..n], s[n..], ComposedPiece(t, s);
      var d := DecomposeAll(t, Composed(t, rest));
      calc {
        Ordered(t, x + DecomposeAll(t, Composed(t, s)));
        { DecomposeAllConcat(t, c, Composed(t, rest)); ConcatAssoc(x, DecomposeAll(t, c), d); }
        Ordered(t, x + DecomposeAll(t, c) + d);
        { PieceKeepsNfd(t, x, s, d); }
        Ordered(t, x + head + d);
        { ComposedKeepsOrdered(t, x + head, rest); }
        Ordered(t, x + head + rest);
        { ConcatAssoc(x, head, rest); assert head + rest == s; }
        Ordered(t, x + s);
      }
    }
  }

  /** Composing a canonical decomposition keeps it: decomposing the result returns it. */
  lemma ComposedKeepsNfd(t: Tables, nfd: seq<nat>)
    requires t.Valid() && AllFinal(t, nfd) && InOrder(t, nfd)
    ensures Nfd(t, Composed(t, nfd)) == nfd
  {
    ComposedKeepsOrdered(t, [], nfd);
    assert [] + nfd == nfd && [] + DecomposeAll(t, Composed(t, nfd)) == DecomposeAll(t, Composed(t, nfd));
    OrderedIsInOrder(t, nfd);
  }

  lemma PieceIsScalar(t: Tables, s: seq<nat>)
    requires t.Valid() && AllScalar(s) && s != []
    ensures AllScalar(ComposedPiece(t, s))
  {
    var marks := s[1..Piece(t, s)];
    var k := FirstComposing(t, s[0], marks, 0);
    if t.Class(s[0]) == 0 && k < |marks| {
      assert t.ValidDecomposition(t.Composite(s[0], marks[k]).value);
    }
  }

  lemma {:induction false} ComposedIsScalar(t: Tables, s: seq<nat>)
    requires t.Valid() && AllScalar(s)
    ensures AllScalar(Composed(t, s))
  {
    if s != [] {
      ComposedIsScalar(t, s[Piece(t, s)..]);
      PieceIsScalar(t, s);
    }
  }

  lemma InOrderParts(t: Tables, s: seq<nat>, n: nat)
    requires InOrder(t, s) && n <= |s|
    ensures InOrder(t, s[n..]) && InOrder(t, s[..n])
  {
    forall i | 0 <= i < |s[n..]| - 1 ensures !IsReorderablePair(t, s[n..][i], s[n..][i + 1]) {
      assert !IsReorderablePair(t, s[n + i], s[n + i + 1]);
    }
  }

  lemma InOrderConcat(t: Tables, a: seq<nat>, b: seq<nat>)
    requires InOrder(t, a) && InOrder(t, b)
    requires a != [] && b != [] ==> !IsReorderablePair(t, a[|a| - 1], b[0])
    ensures InOrder(t, a + b)
  {
    forall i | 0 <= i < |a + b| - 1 ensures !IsReorderablePair(t, (a + b)[i], (a + b)[i + 1]) {
      if i < |a| - 1 {
        assert !IsReorderablePair(t, a[i], a[i + 1]);
      } else if i >= |a| {
        assert !IsReorderablePair(t, b[i - |a|], b[i - |a| + 1]);
      }
    }
  }

  /** Composing leaves no reorderable pair in a string that had none. */
  lemma {:induction false} ComposedIsInOrder(t: Tables, s: seq<nat>)
    requires t.Valid() && InOrder(t, s)
    ensures InOrder(t, Composed(t, s))
    ensures s != [] ==> Composed(t, s) != [] && t.Class(Composed(t, s)[0]) == t.Class(s[0])
  {
    if s != [] {
      var n := Piece(t, s);
      InOrderParts(t, s, n);
      ComposedIsInOrder(t, s[n..]);
      if t.Class(s[0]) == 0 {
        CombinedIsInOrder(t, s, n);
      } else if n < |s| {
        assert !IsReorderablePair(t, s[0], s[0 + 1]);
      }
      InOrderConcat(t, ComposedPiece(t, s), Composed(t, s[n..]));
    }
  }

  /** Behind the starter stand the marks, without the one that was taken. */
  lemma CombinedAt(t: Tables, starter: nat, marks: seq<nat>, i: nat)
    requires 1 <= i < |Combined(t, starter, marks)|
    ensures var j := if i > FirstComposing(t, starter, marks, 0) then i else i - 1;
            j < |marks| && Combined(t, starter, marks)[i] == marks[j]
  {
  }

  lemma CombinedIsInOrder(t: Tables, s: seq<nat>, n: nat)
    requires t.Valid() && InOrder(t, s) && 1 <= n <= |s| && t.Class(s[0]) == 0
    requires forall i :: 1 <= i < n ==> t.Class(s[i]) > 0
    ensures InOrder(t, Combined(t, s[0], s[1..n]))
    ensures Combined(t, s[0], s[1..n]) != [] && t.Class(Combined(t, s[0], s[1..n])[0]) == 0
  {
    var marks := s[1..n];
    var k := FirstComposing(t, s[0], marks, 0);
    var r := Combined(t, s[0], marks);
    if k < |marks| {
      assert t.ValidDecomposition(r[0]);
    }
    forall i | 0 <= i < |r| - 1 ensures !IsReorderablePair(t, r[i], r[i + 1]) {
      if i > 0 {
        CombinedAt(t, s[0], marks, i);
        CombinedAt(t, s[0], marks, i + 1);
        SortedRun(t, s, if i > k then i + 1 else i, if i >= k then i + 2 else i + 1);
      }
    }
  }
}
