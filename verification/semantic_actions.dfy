/**
 The machine that builds a JSON value from the actions of the grammar
 (server/json_spirit/json_spirit_reader_template.h:245-395).  A pointer into the value under
 construction is the path of child positions that leads to its target.
 */
module SemanticActions {
  import opened Wrappers
  import opened Utf8
  import opened JsonValues

  type Path = seq<nat>

  datatype Action =
    | BeginObj
    | EndObj
    | BeginArray
    | EndArray
    | NewName(name: seq<byte>)
    | NewScalar(scalar: Value)

  // Values and paths

  function ChildCount(v: Value): nat {
    match v
    case Object(ms) => |ms|
    case Array(es) => |es|
    case _ => 0
  }

  function Child(v: Value, k: nat): Value
    requires k < ChildCount(v)
  {
    if v.Object? then v.members[k].value else v.elements[k]
  }

  predicate IsPath(v: Value, p: Path)
    decreases p
  {
    p == [] || (p[0] < ChildCount(v) && IsPath(Child(v, p[0]), p[1..]))
  }

  function Target(v: Value, p: Path): Value
    requires IsPath(v, p)
    decreases p
  {
    if p == [] then v else Target(Child(v, p[0]), p[1..])
  }

  function WithChild(v: Value, k: nat, c: Value): (r: Value)
    requires k < ChildCount(v)
    ensures ChildCount(r) == ChildCount(v) && Child(r, k) == c
    ensures forall j :: 0 <= j < ChildCount(v) && j != k ==> Child(r, j) == Child(v, j)
  {
    if v.Object? then Object(v.members[k := Member(v.members[k].name, c)]) else Array(v.elements[k := c])
  }

  /** `push_back` on a vector: an array takes the value, an object the pair of `name` and value. */
  function PushBack(v: Value, name: seq<byte>, x: Value): (r: Value)
    requires IsComposite(v)
    ensures ChildCount(r) == ChildCount(v) + 1 && Child(r, ChildCount(v)) == x
    ensures forall j :: 0 <= j < ChildCount(v) ==> Child(r, j) == Child(v, j)
    ensures r.Object? <==> v.Object?
  {
    if v.Object? then Object(v.members + [Member(name, x)]) else Array(v.elements + [x])
  }

  /** `push_back` on the vector at the end of a path. */
  function PushAt(v: Value, p: Path, name: seq<byte>, x: Value): Value
    requires IsPath(v, p) && IsComposite(Target(v, p))
    decreases p
  {
    if p == [] then PushBack(v, name, x)
    else WithChild(v, p[0], PushAt(Child(v, p[0]), p[1..], name, x))
  }

  // The machine as a function

  /** `value_`, `current_p_` (None for the null pointer), `stack_` and `name_`. */
  datatype State = State(value: Value, current: Option<Path>, stack: seq<Path>, name: seq<byte>)

  function Initial(value: Value): State {
    State(value, None, [], [])
  }

  predicate CanAdd(s: State) {
    s.current.None? || (IsPath(s.value, s.current.value) && IsComposite(Target(s.value, s.current.value)))
  }

  /** `add_to_current`, and the pointer it returns. */
  function Added(s: State, x: Value): (r: (State, Path))
    requires CanAdd(s)
  {
    if s.current.None? then (s.(value := x, current := Some([])), [])
    else
      var p := s.current.value;
      (s.(value := PushAt(s.value, p, s.name, x)), p + [ChildCount(Target(s.value, p))])
  }

  /** `begin_compound`. */
  function Begun(s: State, empty: Value): State
    requires CanAdd(s)
  {
    var (added, child) := Added(s, empty);
    if s.current.None? then added
    else added.(stack := s.stack + [s.current.value], current := Some(child))
  }

  /** One action; None if an assertion of the original fails or `stack_.back()` is undefined. */
  function Step(s: State, a: Action): Option<State> {
    match a
    case BeginObj => if CanAdd(s) then Some(Begun(s, Object([]))) else None
    case BeginArray => if CanAdd(s) then Some(Begun(s, Array([]))) else None
    case NewScalar(x) => if CanAdd(s) then Some(Added(s, x).0) else None
    case NewName(n) =>
      if s.current.Some? && IsPath(s.value, s.current.value) && Target(s.value, s.current.value).Object?
      then Some(s.(name := n)) else None
    case _ =>
      if s.current == Some([]) then Some(s)
      else if s.stack == [] then None
      else Some(s.(current := Some(s.stack[|s.stack| - 1]), stack := s.stack[..|s.stack| - 1]))
  }

  function Run(s: State, acts: seq<Action>): Option<State>
    decreases acts
  {
    if acts == [] then Some(s)
    else
      match Step(s, acts[0])
      case None => None
      case Some(s') => Run(s', acts[1..])
  }

  lemma {:induction false} RunConcat(s: State, a: seq<Action>, b: seq<Action>)
    ensures Run(s, a + b) == match Run(s, a) case None => None case Some(s') => Run(s', b)
    decreases a
  {
    if a == [] {
      assert a + b == b;
    } else {
      assert (a + b)[1..] == a[1..] + b;
      if Step(s, a[0]).Some? {
        RunConcat(Step(s, a[0]).value, a[1..], b);
      }
    }
  }

  // The program

  class Machine {
    var value: Value
    var current: Option<Path>
    var stack: seq<Path>
    var name: seq<byte>

    ghost function Contents(): State
      reads this
    {
      State(value, current, stack, name)
    }

    constructor (target: Value)
      ensures Contents() == Initial(target)
    {
      value, current, stack, name := target, None, [], [];
    }

    /** `add_first` and `add_to_current`. */
    method AddToCurrent(x: Value) returns (child: Path)
      requires CanAdd(Contents())
      modifies this
      ensures (Contents(), child) == Added(old(Contents()), x)
    {
      if current.None? {
        value := x;
        current := Some([]);
        child := [];
      } else {
        child := current.value + [ChildCount(Target(value, current.value))];
        value := PushAt(value, current.value, name, x);
      }
    }

    method BeginCompound(empty: Value)
      requires CanAdd(Contents())
      modifies this
      ensures Contents() == Begun(old(Contents()), empty)
    {
      if current.None? {
        var _ := AddToCurrent(empty);
      } else {
        var parent := current.value;
        var child := AddToCurrent(empty);
        stack := stack + [parent];
        current := Some(child);
      }
    }

    method EndCompound()
      requires Step(Contents(), EndArray).Some?
      modifies this
      ensures Contents() == Step(old(Contents()), EndArray).value
    {
      if current != Some([]) {
        current := Some(stack[|stack| - 1]);
        stack := stack[..|stack| - 1];
      }
    }

    /** The semantic action that the grammar calls. */
    method Perform(a: Action)
      requires Step(Contents(), a).Some?
      modifies this
      ensures Contents() == Step(old(Contents()), a).value
    {
      match a
      case BeginObj => BeginCompound(Object([]));
      case BeginArray => BeginCompound(Array([]));
      case NewScalar(x) => var _ := AddToCurrent(x);
      case NewName(n) => name := n;
      case EndObj => EndCompound();
      case EndArray => EndCompound();
    }
  }

  // The pointers

  lemma {:induction false} PathExtend(v: Value, p: Path, k: nat)
    requires IsPath(v, p) && k < ChildCount(Target(v, p))
    ensures IsPath(v, p + [k]) && Target(v, p + [k]) == Child(Target(v, p), k)
    decreases p
  {
    if p == [] {
      assert (p + [k])[1..] == [];
    } else {
      assert (p + [k])[1..] == p[1..] + [k];
      PathExtend(Child(v, p[0]), p[1..], k);
    }
  }

  lemma {:induction false} PathPrefix(v: Value, p: Path, n: nat)
    requires IsPath(v, p) && n <= |p|
    ensures IsPath(v, p[..n])
    decreases p
  {
    if n > 0 {
      assert p[..n][1..] == p[1..][..n - 1];
      PathPrefix(Child(v, p[0]), p[1..], n - 1);
    }
  }

  /** Pushing at `p` changes the target of `p` only by the new child, and no other vector on the way. */
  lemma {:induction false} PushAtTarget(v: Value, p: Path, name: seq<byte>, x: Value, n: nat)
    requires IsPath(v, p) && IsComposite(Target(v, p)) && n <= |p|
    ensures var r := PushAt(v, p, name, x);
            && IsPath(r, p[..n]) && IsPath(v, p[..n])
            && (n == |p| ==> Target(r, p[..n]) == PushBack(Target(v, p), name, x))
            && (n < |p| ==> ChildCount(Target(r, p[..n])) == ChildCount(Target(v, p[..n])))
    decreases p
  {
    if p != [] && n > 0 {
      assert p[..n][1..] == p[1..][..n - 1];
      PushAtTarget(Child(v, p[0]), p[1..], name, x, n - 1);
    } else {
      assert n == |p| ==> p[..n] == p;
    }
  }

  /** `stack_` holds the strict ancestors of `current_p_`, and each step of the path leads to a last child. */
  ghost predicate PointersOk(s: State) {
    match s.current
    case None => s.stack == []
    case Some(p) =>
      && IsPath(s.value, p)
      && |s.stack| == |p|
      && (forall n :: 0 <= n < |p| ==> s.stack[n] == p[..n])
      && (forall n :: 0 <= n < |p| ==> LastChildAt(s.value, p, n))
  }

  ghost predicate LastChildAt(v: Value, p: Path, n: nat)
    requires n < |p|
  {
    IsPath(v, p[..n]) && ChildCount(Target(v, p[..n])) == p[n] + 1
  }

  lemma AddedKeepsPointers(s: State, x: Value)
    requires PointersOk(s) && CanAdd(s) && s.current.Some?
    ensures PointersOk(Added(s, x).0)
    ensures var (s', c) := Added(s, x); PointersOk(s'.(stack := s.stack + [s.current.value], current := Some(c)))
  {
    var p := s.current.value;
    var (s', c) := Added(s, x);
    PushAtTarget(s.value, p, s.name, x, |p|);
    assert p[..|p|] == p;
    PathExtend(s'.value, p, ChildCount(Target(s.value, p)));
    forall n | 0 <= n < |p| ensures LastChildAt(s'.value, p, n) && LastChildAt(s'.value, c, n) && c[..n] == p[..n] {
      assert LastChildAt(s.value, p, n);
      PushAtTarget(s.value, p, s.name, x, n);
      assert c[..n] == p[..n];
    }
    assert c[..|p|] == p;
    assert LastChildAt(s'.value, c, |p|);
  }

  /** The discipline of the pointers is kept by every action that the machine can perform. */
  lemma StepKeepsPointers(s: State, a: Action)
    requires PointersOk(s) && Step(s, a).Some?
    ensures PointersOk(Step(s, a).value)
  {
    match a
    case BeginObj => if s.current.Some? { AddedKeepsPointers(s, Object([])); }
    case BeginArray => if s.current.Some? { AddedKeepsPointers(s, Array([])); }
    case NewScalar(x) => if s.current.Some? { AddedKeepsPointers(s, x); }
    case NewName(_) =>
    case EndObj => EndKeepsPointers(s);
    case EndArray => EndKeepsPointers(s);
  }

  lemma EndKeepsPointers(s: State)
    requires PointersOk(s) && Step(s, EndArray).Some?
    ensures PointersOk(Step(s, EndArray).value)
  {
    if s.current != Some([]) {
      var p := s.current.value;
      var q := p[..|p| - 1];
      PathPrefix(s.value, p, |p| - 1);
      forall n | 0 <= n < |q| ensures LastChildAt(s.value, q, n) && s.stack[n] == q[..n] {
        assert LastChildAt(s.value, p, n);
        assert q[..n] == p[..n];
      }
    }
  }

  /** It holds in every state that any sequence of actions reaches. */
  lemma {:induction false} RunKeepsPointers(s: State, acts: seq<Action>)
    requires PointersOk(s) && Run(s, acts).Some?
    ensures PointersOk(Run(s, acts).value)
    decreases acts
  {
    if acts != [] {
      StepKeepsPointers(s, acts[0]);
      RunKeepsPointers(Step(s, acts[0]).value, acts[1..]);
    }
  }

  /** `push_back` on the vector at `p` may move its elements: it invalidates pointers to them and below them. */
  predicate Invalidates(p: Path, q: Path) {
    |p| < |q| && q[..|p|] == p
  }

  /** Reachable machines only push to the vector at `current_p_`, and no stored pointer is invalidated by it. */
  lemma NoPointerIsInvalidated(value: Value, acts: seq<Action>)
    requires Run(Initial(value), acts).Some?
    ensures var s := Run(Initial(value), acts).value;
            s.current.Some? ==>
              && !Invalidates(s.current.value, s.current.value)
              && forall n :: 0 <= n < |s.stack| ==> !Invalidates(s.current.value, s.stack[n])
  {
    RunKeepsPointers(Initial(value), acts);
  }

  // What it builds

  function ElementActions(es: seq<Value>): seq<Action>
    decreases es
  {
    if es == [] then [] else ActionsOf(es[0]) + ElementActions(es[1..])
  }

  function MemberActions(ms: seq<Member>): seq<Action>
    decreases ms
  {
    if ms == [] then [] else [NewName(ms[0].name)] + ActionsOf(ms[0].value) + MemberActions(ms[1..])
  }

  /** The actions that the grammar performs for the text of a value. */
  function ActionsOf(v: Value): seq<Action>
    decreases v
  {
    match v
    case Object(ms) => [BeginObj] + MemberActions(ms) + [EndObj]
    case Array(es) => [BeginArray] + ElementActions(es) + [EndArray]
    case _ => [NewScalar(v)]
  }

  /** `after` is `before` with `x` appended to the current container; only the remembered name may differ. */
  ghost predicate Appended(before: State, after: Option<State>, x: Value)
    requires CanAdd(before) && before.current.Some?
  {
    && after.Some?
    && after.value.(name := before.name) == Added(before, x).0
  }

  lemma PushIntoLastChild(v: Value, name: seq<byte>, c: Value, name': seq<byte>, x: Value)
    requires IsComposite(v) && IsComposite(c)
    ensures var r, q := PushBack(v, name, c), [ChildCount(v)];
            && IsPath(r, q) && Target(r, q) == c
            && PushAt(r, q, name', x) == PushBack(v, name, PushBack(c, name', x))
  {
    var n := ChildCount(v);
    var r := PushBack(v, name, c);
    assert [n][1..] == [];
    assert Target(r, [n]) == Target(Child(r, n), []);
    assert PushAt(r, [n], name', x) == WithChild(r, n, PushBack(c, name', x));
  }

  /** Pushing into the container that was pushed last is pushing the longer container. */
  lemma {:induction false} PushIntoLast(v: Value, p: Path, name: seq<byte>, c: Value, name': seq<byte>, x: Value)
    requires IsPath(v, p) && IsComposite(Target(v, p)) && IsComposite(c)
    ensures var r, q := PushAt(v, p, name, c), p + [ChildCount(Target(v, p))];
            && IsPath(r, q) && Target(r, q) == c
            && PushAt(r, q, name', x) == PushAt(v, p, name, PushBack(c, name', x))
    decreases p
  {
    var n := ChildCount(Target(v, p));
    if p == [] {
      assert p + [n] == [n];
      PushIntoLastChild(v, name, c, name', x);
    } else {
      var d := Child(v, p[0]);
      PushIntoLast(d, p[1..], name, c, name', x);
      assert (p + [n])[1..] == p[1..] + [n] && (p + [n])[0] == p[0];
      var r := PushAt(v, p, name, c);
      assert Child(r, p[0]) == PushAt(d, p[1..], name, c);
      var e := PushAt(d, p[1..], name, PushBack(c, name', x));
      assert WithChild(r, p[0], e) == WithChild(v, p[0], e);
    }
  }

  /** The state inside the container `c` that was begun in state `s`, with any name remembered. */
  function Inside(s: State, c: Value, name: seq<byte>): State
    requires CanAdd(s) && s.current.Some?
  {
    var p := s.current.value;
    State(PushAt(s.value, p, s.name, c), Some(p + [ChildCount(Target(s.value, p))]), s.stack + [p], name)
  }

  lemma InsideCanAdd(s: State, c: Value, name: seq<byte>, x: Value)
    requires CanAdd(s) && s.current.Some? && IsComposite(c)
    ensures var i := Inside(s, c, name);
            && CanAdd(i) && IsPath(i.value, i.current.value) && Target(i.value, i.current.value) == c
            && Added(i, x).0 == Inside(s, PushBack(c, name, x), name)
  {
    PushIntoLast(s.value, s.current.value, s.name, c, name, x);
  }

  lemma {:induction false} ReplayElements(s: State, c: Value, name: seq<byte>, es: seq<Value>)
    requires CanAdd(s) && s.current.Some? && c.Array?
    ensures var r := Run(Inside(s, c, name), ElementActions(es));
            r.Some? && r.value == Inside(s, Array(c.elements + es), r.value.name)
    decreases es
  {
    if es == [] {
      assert c.elements + es == c.elements;
    } else {
      var i := Inside(s, c, name);
      InsideCanAdd(s, c, name, es[0]);
      Replay(i, es[0]);
      var r := Run(i, ActionsOf(es[0]));
      var c' := PushBack(c, name, es[0]);
      assert r.value == Inside(s, c', r.value.name);
      RunConcat(i, ActionsOf(es[0]), ElementActions(es[1..]));
      ReplayElements(s, c', r.value.name, es[1..]);
      assert c'.elements + es[1..] == c.elements + es;
    }
  }

  /** A name, then the actions of its value, then the rest. */
  lemma RunNamed(s: State, name: seq<byte>, acts: seq<Action>, tail: seq<Action>)
    requires Step(s, NewName(name)).Some?
    ensures Run(s, [NewName(name)] + acts + tail) ==
            match Run(Step(s, NewName(name)).value, acts) case None => None case Some(s') => Run(s', tail)
  {
    assert ([NewName(name)] + acts + tail)[1..] == acts + tail;
    RunConcat(Step(s, NewName(name)).value, acts, tail);
  }

  lemma {:induction false} ReplayMembers(s: State, c: Value, name: seq<byte>, ms: seq<Member>)
    requires CanAdd(s) && s.current.Some? && c.Object?
    ensures var r := Run(Inside(s, c, name), MemberActions(ms));
            r.Some? && r.value == Inside(s, Object(c.members + ms), r.value.name)
    decreases ms
  {
    if ms == [] {
      assert c.members + ms == c.members;
    } else {
      var i, n := Inside(s, c, name), ms[0].name;
      InsideCanAdd(s, c, name, Null);
      InsideCanAdd(s, c, n, ms[0].value);
      var j := Inside(s, c, n);
      assert Step(i, NewName(n)) == Some(j);
      Replay(j, ms[0].value);
      var acts := ActionsOf(ms[0].value);
      var r := Run(j, acts);
      var c' := PushBack(c, n, ms[0].value);
      assert r.value == Inside(s, c', r.value.name);
      var tail := MemberActions(ms[1..]);
      RunNamed(i, n, acts, tail);
      ReplayMembers(s, c', r.value.name, ms[1..]);
      assert c'.members + ms[1..] == c.members + ms;
    }
  }

  /** Replaying the actions of a value inside a container appends that value to the container. */
  lemma {:induction false} Replay(s: State, v: Value)
    requires CanAdd(s) && s.current.Some?
    ensures Appended(s, Run(s, ActionsOf(v)), v)
    decreases v
  {
    match v
    case Object(ms) =>
      ReplayMembers(s, Object([]), s.name, ms);
      assert [] + ms == ms;
      ReplayCompound(s, v, BeginObj, MemberActions(ms), EndObj, Object([]));
    case Array(es) =>
      ReplayElements(s, Array([]), s.name, es);
      assert [] + es == es;
      ReplayCompound(s, v, BeginArray, ElementActions(es), EndArray, Array([]));
    case _ =>
      assert Run(s, [NewScalar(v)]) == Run(Step(s, NewScalar(v)).value, [NewScalar(v)][1..]);
      assert [NewScalar(v)][1..] == [];
  }

  lemma ReplayCompound(s: State, v: Value, begin: Action, body: seq<Action>, end: Action, empty: Value)
    requires CanAdd(s) && s.current.Some? && IsComposite(v)
    requires (begin == BeginObj && end == EndObj && empty == Object([])) || (begin == BeginArray && end == EndArray && empty == Array([]))
    requires Run(Inside(s, empty, s.name), body).Some?
    requires var r := Run(Inside(s, empty, s.name), body).value; r == Inside(s, v, r.name)
    ensures Appended(s, Run(s, [begin] + body + [end]), v)
  {
    assert Step(s, begin) == Some(Inside(s, empty, s.name));
    assert ([begin] + body + [end])[1..] == body + [end];
    RunConcat(Inside(s, empty, s.name), body, [end]);
    var r := Run(Inside(s, empty, s.name), body).value;
    assert [end][1..] == [];
    assert Run(r, [end]) == Step(r, end);
    assert r.stack[..|r.stack| - 1] == s.stack;
  }

  /** Replaying the actions of a value from the start leaves exactly that value, whatever was there before. */
  lemma ReplayBuilds(v: Value, before: Value)
    ensures var r := Run(Initial(before), ActionsOf(v));
            r.Some? && r.value.value == v && r.value.current == Some([]) && r.value.stack == []
  {
    match v
    case Object(ms) =>
      ReplayRoot(before, BeginObj, Object([]), MemberActions(ms), EndObj);
      ReplayRootMembers(Object([]), [], ms);
      assert [] + ms == ms;
    case Array(es) =>
      ReplayRoot(before, BeginArray, Array([]), ElementActions(es), EndArray);
      ReplayRootElements(Array([]), [], es);
      assert [] + es == es;
    case _ =>
      assert [NewScalar(v)][1..] == [];
  }

  function Root(c: Value, name: seq<byte>): State {
    State(c, Some([]), [], name)
  }

  lemma ReplayRoot(before: Value, begin: Action, empty: Value, body: seq<Action>, end: Action)
    requires (begin == BeginObj && end == EndObj && empty == Object([])) || (begin == BeginArray && end == EndArray && empty == Array([]))
    ensures Run(Initial(before), [begin] + body + [end]) ==
            match Run(Root(empty, []), body) case None => None case Some(r) => Step(r, end)
  {
    assert ([begin] + body + [end])[1..] == body + [end];
    RunConcat(Root(empty, []), body, [end]);
    assert [end][1..] == [];
  }

  lemma {:induction false} ReplayRootElements(c: Value, name: seq<byte>, es: seq<Value>)
    requires c.Array?
    ensures var r := Run(Root(c, name), ElementActions(es)); r.Some? && r.value == Root(Array(c.elements + es), r.value.name)
    decreases es
  {
    if es == [] {
      assert c.elements + es == c.elements;
    } else {
      var i := Root(c, name);
      Replay(i, es[0]);
      var r := Run(i, ActionsOf(es[0]));
      RunConcat(i, ActionsOf(es[0]), ElementActions(es[1..]));
      ReplayRootElements(PushBack(c, name, es[0]), r.value.name, es[1..]);
      assert PushBack(c, name, es[0]).elements + es[1..] == c.elements + es;
    }
  }

  lemma {:induction false} ReplayRootMembers(c: Value, name: seq<byte>, ms: seq<Member>)
    requires c.Object?
    ensures var r := Run(Root(c, name), MemberActions(ms)); r.Some? && r.value == Root(Object(c.members + ms), r.value.name)
    decreases ms
  {
    if ms == [] {
      assert c.members + ms == c.members;
    } else {
      var j, acts, tail := Root(c, ms[0].name), ActionsOf(ms[0].value), MemberActions(ms[1..]);
      Replay(j, ms[0].value);
      var r := Run(j, acts);
      assert ([NewName(ms[0].name)] + acts + tail)[1..] == acts + tail;
      RunConcat(j, acts, tail);
      var c' := PushBack(c, ms[0].name, ms[0].value);
      ReplayRootMembers(c', r.value.name, ms[1..]);
      assert c'.members + ms[1..] == c.members + ms;
    }
  }
}
