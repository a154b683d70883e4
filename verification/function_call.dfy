/**
 Calls of C functions with JSON parameters (server/function_map.hh, server/context.cc, server/c_string.hh).
 A template's parameter list is a sequence of shapes.  How a value is converted, how long a text is and what
 the C function does are parameters; its recursion over the list is the recursion over the index here.
 */
module FunctionCall {
  import opened Wrappers
  import opened Utf8
  import opened JsonValues

  /** `In<c_string>` and `In<binary_string>` store the length of their text, `InLength` retrieves it. */
  datatype Kind = Plain | Text | LengthOf

  datatype Shape = Shape(needInput: bool, isOutput: bool, kind: Kind)

  /** What the C function returns, and the JSON form of each of its parameters afterwards. */
  datatype Returned = Returned(value: Value, after: nat -> Value)

  datatype Api<!C> = Api(
    shapes: seq<Shape>,
    parse: (nat, Value) -> Result<C, seq<byte>>,
    length: C -> nat,
    count: nat -> C,
    fn: seq<C> -> Returned)

  datatype CallError =
    | SizeMismatch(given: nat, expected: nat)
    | BadParameter(position: nat, what: seq<byte>)
    | NothingStored(place: int)

  /** `nr_of_input_params` from the `u`-th parameter on. */
  function NrInput(shapes: seq<Shape>, u: nat): (n: nat)
    requires u <= |shapes|
    ensures n <= |shapes| - u
    decreases |shapes| - u
  {
    if u == |shapes| then 0 else (if shapes[u].needInput then 1 else 0) + NrInput(shapes, u + 1)
  }

  /** `nr_of_output_params` from the `u`-th parameter on. */
  function NrOutput(shapes: seq<Shape>, u: nat): nat
    requires u <= |shapes|
    decreases |shapes| - u
  {
    if u == |shapes| then 0 else (if shapes[u].isOutput then 1 else 0) + NrOutput(shapes, u + 1)
  }

  // Input parameters

  /** The parameters with a dummy where none is consumed. */
  function Filled(shapes: seq<Shape>, u: nat, src: seq<Value>, index: nat): (r: seq<Value>)
    requires u <= |shapes| && index + NrInput(shapes, u) <= |src|
    ensures |r| == |shapes| - u
    decreases |shapes| - u
  {
    if u == |shapes| then []
    else if shapes[u].needInput then [src[index]] + Filled(shapes, u + 1, src, index + 1)
    else [Null] + Filled(shapes, u + 1, src, index)
  }

  /** `copyParam`; `src.at(index)` is always in range. */
  method CopyParam(shapes: seq<Shape>, u: nat, dest: seq<Value>, src: seq<Value>, index: nat) returns (r: seq<Value>)
    requires u <= |shapes| && index + NrInput(shapes, u) <= |src|
    ensures r == dest + Filled(shapes, u, src, index)
    decreases |shapes| - u
  {
    if u == |shapes| {
      return dest;
    }
    if shapes[u].needInput {
      r := CopyParam(shapes, u + 1, dest + [src[index]], src, index + 1);
      ConcatAssoc(dest, [src[index]], Filled(shapes, u + 1, src, index + 1));
    } else {
      r := CopyParam(shapes, u + 1, dest + [Null], src, index);
      ConcatAssoc(dest, [Null], Filled(shapes, u + 1, src, index));
    }
  }

  /** The values at the places that consume one. */
  function Consumed(shapes: seq<Shape>, u: nat, values: seq<Value>): seq<Value>
    requires u <= |shapes| && |values| == |shapes| - u
    decreases |shapes| - u
  {
    if u == |shapes| then []
    else (if shapes[u].needInput then [values[0]] else []) + Consumed(shapes, u + 1, values[1..])
  }

  /** Exactly the given values are consumed, all of them and in order. */
  lemma {:induction false} FilledConsumesAll(shapes: seq<Shape>, u: nat, src: seq<Value>, index: nat)
    requires u <= |shapes| && index + NrInput(shapes, u) == |src|
    ensures Consumed(shapes, u, Filled(shapes, u, src, index)) == src[index..]
    decreases |shapes| - u
  {
    if u < |shapes| {
      var next := if shapes[u].needInput then index + 1 else index;
      FilledConsumesAll(shapes, u + 1, src, next);
      assert Filled(shapes, u, src, index)[1..] == Filled(shapes, u + 1, src, next);
      assert shapes[u].needInput ==> src[index..] == [src[index]] + src[index + 1..];
    }
  }

  /** The place of a parameter that consumes nothing holds null; any other one holds the next value that is left. */
  lemma {:induction false} FilledAt(shapes: seq<Shape>, u: nat, src: seq<Value>, index: nat, k: nat)
    requires u <= k < |shapes| && index + NrInput(shapes, u) <= |src|
    ensures NrInput(shapes, u) >= NrInput(shapes, k)
    ensures shapes[k].needInput ==> index + (NrInput(shapes, u) - NrInput(shapes, k)) < |src|
    ensures Filled(shapes, u, src, index)[k - u] ==
            if shapes[k].needInput then src[index + (NrInput(shapes, u) - NrInput(shapes, k))] else Null
    decreases |shapes| - u
  {
    if u < k {
      FilledAt(shapes, u + 1, src, if shapes[u].needInput then index + 1 else index, k);
    }
  }

  /** Where every parameter consumes a value, the copy that is then not made would be the original. */
  lemma {:induction false} FilledIsOriginal(shapes: seq<Shape>, u: nat, src: seq<Value>)
    requires u <= |shapes| == |src| && NrInput(shapes, u) == |shapes| - u
    ensures Filled(shapes, u, src, u) == src[u..]
    decreases |shapes| - u
  {
    if u < |shapes| {
      FilledIsOriginal(shapes, u + 1, src);
    }
  }

  // The context

  function Lookup(store: map<int, nat>, p: int): Option<nat> {
    if p in store then Some(store[p]) else None
  }

  class Context {
    var objStore: map<int, nat>

    constructor ()
      ensures objStore == map[]
    {
      objStore := map[];
    }

    /** `store`: `emplace` keeps a value that is there already. */
    method Store(position: int, value: nat)
      modifies this
      ensures objStore == if position in old(objStore) then old(objStore) else old(objStore)[position := value]
    {
      if position !in objStore {
        objStore := objStore[position := value];
      }
    }

    /** `retrieve`; the exception of `at` is None. */
    method Retrieve(position: int) returns (r: Option<nat>)
      ensures r == Lookup(objStore, position)
    {
      if position !in objStore {
        return None;
      }
      return Some(objStore[position]);
    }
  }

  /** What is known at position `p` when the parameter behind it is made. */
  function Known<C>(api: Api<C>, store: map<int, nat>, values: seq<Value>, p: int): Option<nat>
    requires |values| == |api.shapes|
  {
    if p in store then Some(store[p])
    else if 0 <= p < |values| && api.shapes[p].kind.Text? && api.parse(p, values[p]).Ok?
    then Some(api.length(api.parse(p, values[p]).value))
    else None
  }

  /** The `u`-th argument of the C function. */
  function Argument<C>(api: Api<C>, store: map<int, nat>, values: seq<Value>, u: nat): Result<C, CallError>
    requires u < |values| == |api.shapes|
  {
    if api.shapes[u].kind.LengthOf? then
      match Known(api, store, values, u - 1)
      case Some(n) => Ok(api.count(n))
      case None => Err(NothingStored(u - 1))
    else
      match api.parse(u, values[u])
      case Ok(c) => Ok(c)
      case Err(what) => Err(BadParameter(u, what))
  }

  predicate AllFine<C>(api: Api<C>, store: map<int, nat>, values: seq<Value>, u: nat)
    requires |values| == |api.shapes|
  {
    forall k :: u <= k < |values| ==> Argument(api, store, values, k).Ok?
  }

  function Arguments<C>(api: Api<C>, store: map<int, nat>, values: seq<Value>): seq<C>
    requires |values| == |api.shapes| && AllFine(api, store, values, 0)
  {
    seq(|values|, (k: nat) requires k < |values| => Argument(api, store, values, k).value)
  }

  /** The first parameter that cannot be made, which is the one that is reported. */
  ghost predicate IsFirstFailure<C>(api: Api<C>, store: map<int, nat>, values: seq<Value>, error: CallError)
    requires |values| == |api.shapes|
  {
    exists k :: 0 <= k < |values| && Argument(api, store, values, k) == Err(error)
                && forall j :: 0 <= j < k ==> Argument(api, store, values, j).Ok?
  }

  /** The context holds what was there before and the lengths of the texts in front of `u`. */
  ghost predicate Holds<C>(api: Api<C>, before: map<int, nat>, values: seq<Value>, u: nat, store: map<int, nat>)
    requires |values| == |api.shapes|
  {
    forall p: int :: Lookup(store, p) == if p < u then Known(api, before, values, p) else Lookup(before, p)
  }

  /** The constructor of a parameter. */
  method MakeElement<C>(api: Api<C>, ctx: Context, u: nat, v: Value, ghost before: map<int, nat>, ghost values: seq<Value>)
    returns (r: Result<C, CallError>)
    requires u < |values| == |api.shapes| && v == values[u]
    requires Holds(api, before, values, u, ctx.objStore)
    modifies ctx
    ensures r == Argument(api, before, values, u)
    ensures r.Ok? ==> Holds(api, before, values, u + 1, ctx.objStore)
  {
    if api.shapes[u].kind.LengthOf? {
      assert Lookup(ctx.objStore, u - 1) == Known(api, before, values, u - 1);
      var n := ctx.Retrieve(u - 1);
      if n.None? {
        return Err(NothingStored(u - 1));
      }
      return Ok(api.count(n.value));
    }
    var c := api.parse(u, v);
    if c.Err? {
      return Err(BadParameter(u, c.error));
    }
    if api.shapes[u].kind.Text? {
      ghost var store := ctx.objStore;
      assert Lookup(store, u) == Lookup(before, u);
      ctx.Store(u, api.length(c.value));
      forall p: int
        ensures Lookup(ctx.objStore, p) == if p < u + 1 then Known(api, before, values, p) else Lookup(before, p)
      {
        assert p != u ==> Lookup(ctx.objStore, p) == Lookup(store, p);
      }
    }
    return Ok(c.value);
  }

  // Output parameters

  /** Outputs are collected while the recursion unwinds, so the last one comes first. */
  function Outputs(shapes: seq<Shape>, after: nat -> Value, u: nat): (r: seq<Value>)
    requires u <= |shapes|
    ensures |r| == NrOutput(shapes, u)
    decreases |shapes| - u
  {
    if u == |shapes| then []
    else Outputs(shapes, after, u + 1) + if shapes[u].isOutput then [after(u)] else []
  }

  /** An output parameter comes behind exactly those that are declared after it: declaration order is reversed. */
  lemma {:induction false} OutputPlace(shapes: seq<Shape>, after: nat -> Value, u: nat, k: nat)
    requires u <= k < |shapes| && shapes[k].isOutput
    ensures NrOutput(shapes, k + 1) < NrOutput(shapes, u)
    ensures Outputs(shapes, after, u)[NrOutput(shapes, k + 1)] == after(k)
    decreases |shapes| - u
  {
    if u < k {
      OutputPlace(shapes, after, u + 1, k);
    }
  }

  /**
   `helper::call`: the `u`-th parameter is made in front of the recursive call and read back behind it.
   `after` stands for the memory of the parameters once the C function has run.
   */
  method CallHelper<C>(api: Api<C>, ctx: Context, u: nat, parameters: seq<Value>, args: seq<C>, outParams: seq<Value>,
                       ghost before: map<int, nat>)
    returns (r: Result<Value, CallError>, outs: seq<Value>, after: nat -> Value)
    requires u == |args| <= |parameters| == |api.shapes|
    requires Holds(api, before, parameters, u, ctx.objStore)
    requires forall k :: 0 <= k < u ==> Argument(api, before, parameters, k) == Ok(args[k])
    modifies ctx
    ensures r.Ok? <==> AllFine(api, before, parameters, 0)
    ensures r.Ok? ==>
              var result := api.fn(Arguments(api, before, parameters));
              r.value == result.value && after == result.after && outs == outParams + Outputs(api.shapes, after, u)
    ensures r.Err? ==> IsFirstFailure(api, before, parameters, r.error)
    decreases |parameters| - u
  {
    if u == |parameters| {
      assert args == Arguments(api, before, parameters);
      var result := api.fn(args);
      assert outParams + [] == outParams;
      return Ok(result.value), outParams, result.after;
    }
    var element := MakeElement(api, ctx, u, parameters[u], before, parameters);
    if element.Err? {
      return Err(element.error), outParams, _ => Null;
    }
    r, outs, after := CallHelper(api, ctx, u + 1, parameters, args + [element.value], outParams, before);
    if r.Ok? && api.shapes[u].isOutput {
      outs := outs + [after(u)];
      ConcatAssoc(outParams, Outputs(api.shapes, after, u + 1), [after(u)]);
    }
    assert r.Ok? && !api.shapes[u].isOutput ==> Outputs(api.shapes, after, u + 1) + [] == Outputs(api.shapes, after, u + 1);
  }

  /** "outParams" and "return". */
  const OUT_PARAMS: seq<byte> := [0x6F, 0x75, 0x74, 0x50, 0x61, 0x72, 0x61, 0x6D, 0x73]
  const RETURN: seq<byte> := [0x72, 0x65, 0x74, 0x75, 0x72, 0x6E]

  /** `Func::call`: rejects a wrong number of parameters, else converts them, calls the C function and collects its outputs. */
  method Call<C>(api: Api<C>, parameters: seq<Value>, context: Context) returns (r: Result<Value, CallError>)
    modifies context
    ensures r.Err? && r.error.SizeMismatch? <==> |parameters| != NrInput(api.shapes, 0)
    ensures |parameters| == NrInput(api.shapes, 0) ==>
              var values := Filled(api.shapes, 0, parameters, 0);
              var store := old(context.objStore);
              && (r.Ok? <==> AllFine(api, store, values, 0))
              && (r.Ok? ==>
                    var result := api.fn(Arguments(api, store, values));
                    r.value == Object([Member(OUT_PARAMS, Array(Outputs(api.shapes, result.after, 0))),
                                       Member(RETURN, result.value)]))
              && (r.Err? ==> IsFirstFailure(api, store, values, r.error))
  {
    if |parameters| != NrInput(api.shapes, 0) {
      return Err(SizeMismatch(|parameters|, NrInput(api.shapes, 0)));
    }
    var params := parameters;
    if NrInput(api.shapes, 0) != |api.shapes| {
      params := CopyParam(api.shapes, 0, [], parameters, 0);
      assert params == Filled(api.shapes, 0, parameters, 0);
    } else {
      FilledIsOriginal(api.shapes, 0, parameters);
    }
    var ret, outs, _ := CallHelper(api, context, 0, params, [], [], context.objStore);
    if ret.Err? {
      return Err(ret.error);
    }
    ghost var after := api.fn(Arguments(api, old(context.objStore), params)).after;
    assert [] + Outputs(api.shapes, after, 0) == Outputs(api.shapes, after, 0);
    return Ok(Object([Member(OUT_PARAMS, Array(outs)), Member(RETURN, ret.value)]));
  }

  /**
   In the fresh context that every request gets, a length parameter receives the length of the text
   directly in front of it, whatever JSON value stands in its own place, and fails exactly if there is no text.
   */
  lemma LengthOfPrevious<C>(api: Api<C>, values: seq<Value>, other: Value, u: nat)
    requires u < |values| == |api.shapes| && api.shapes[u].kind.LengthOf?
    requires u > 0 ==> Argument(api, map[], values, u - 1).Ok?
    ensures var a := Argument(api, map[], values, u);
            && (a.Ok? <==> u > 0 && api.shapes[u - 1].kind.Text?)
            && (a.Ok? ==> a.value == api.count(api.length(Argument(api, map[], values, u - 1).value)))
            && a == Argument(api, map[], values[u := other], u)
  {
    if u > 0 {
      assert values[u := other][u - 1] == values[u - 1];
    }
  }

  lemma MemberNamesSpelled()
    ensures |OUT_PARAMS| == |"outParams"| && forall i :: 0 <= i < |OUT_PARAMS| ==> OUT_PARAMS[i] == "outParams"[i] as int
    ensures |RETURN| == |"return"| && forall i :: 0 <= i < |RETURN| ==> RETURN[i] == "return"[i] as int
  {
  }

  /**
   An argument that consumes input is what its own JSON value is converted to, which is the one behind those of the
   parameters before it; one that consumes none is what null is converted to.  The first failing conversion is named
   with its position.
   */
  lemma ArgumentIsConverted<C>(api: Api<C>, store: map<int, nat>, given: seq<Value>, u: nat)
    requires |given| == NrInput(api.shapes, 0) && u < |api.shapes| && !api.shapes[u].kind.LengthOf?
    ensures NrInput(api.shapes, 0) >= NrInput(api.shapes, u)
    ensures api.shapes[u].needInput ==> NrInput(api.shapes, 0) - NrInput(api.shapes, u) < |given|
    ensures var value := if api.shapes[u].needInput then given[NrInput(api.shapes, 0) - NrInput(api.shapes, u)] else Null;
            Argument(api, store, Filled(api.shapes, 0, given, 0), u) ==
            if api.parse(u, value).Ok? then Ok(api.parse(u, value).value) else Err(BadParameter(u, api.parse(u, value).error))
  {
    FilledAt(api.shapes, 0, given, 0, u);
  }
}
