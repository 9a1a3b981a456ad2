/**
 * Code generation (source/ast.cpp, with the state of header/codeGen.hpp).
 *
 * LLVM is used only to build instructions, so values are symbolic terms
 * (`Val`), the module is a map from function names to their parameter names
 * and whether they have a body, and the builder's insertion block is the
 * sequence of instructions emitted into it. `Gen` and `Define` say on values
 * what each `codegen` returns and what it does to that state; the class
 * `CodeGen` holds the state in fields, and its methods are proved to do
 * exactly what those functions say.
 */
module CodeGeneration {
  import opened Options
  import opened Tokens
  import opened Ast

  /** A function of the module: its parameter names, and whether it has a body (a basic block). */
  datatype Func = Func(params: seq<Text>, hasBody: bool)

  /** The values `codegen` produces. */
  datatype Val =
    | ConstFP(num: NumVal)
    | Param(fn: Text, index: nat)
    | FAdd(l: Val, r: Val)
    | FSub(l: Val, r: Val)
    | FMul(l: Val, r: Val)
    | FCmpULT(l: Val, r: Val)
    | UIToFP(v: Val)
    | CallV(callee: Text, args: seq<Val>)

  /** An instruction emitted by the builder. */
  datatype Instr = Emit(v: Val) | Ret(v: Val)

  /**
   * The code generator's state: the module's functions, the variables in
   * scope (`None` where a lookup of an unknown name inserted a null entry), the
   * instructions of the current insertion block, and the diagnostics written.
   */
  datatype GState = GState(theModule: map<Text, Func>, namedValues: map<Text, Option<Val>>, block: seq<Instr>, log: seq<string>)

  const MsgUnknownVariable: string := "Unknown variable name"
  const MsgInvalidOperator: string := "invalid binary operator"
  const MsgUnknownFunction: string := "Unknown function referenced"
  const MsgArity: string := "Incorrect # arguments passed"
  const MsgRedefine: string := "Function cannot be redefined."

  /**
   * `theModule->getFunction`, LLVM's lookup (source/ast.cpp:47 and 84): a
   * function is found by its name only when the name is not empty, because a
   * function created with an empty name gets no entry in the module's symbol
   * table.
   */
  predicate Declared(m: map<Text, Func>, name: Text)
  {
    name != [] && name in m
  }

  /** The module with `f` stored under `name`; a function with an empty name has no entry. */
  function Stored(m: map<Text, Func>, name: Text, f: Func): (m': map<Text, Func>)
  {
    if name == [] then m else m[name := f]
  }

  /** The module after the function of that name is erased; an unnamed one had no entry. */
  function Erased(m: map<Text, Func>, name: Text): (m': map<Text, Func>)
  {
    if name == [] then m else m - {name}
  }

  /** The expressions whose `codegen` is part of this model: `if` and `for` nodes are not. */
  predicate Lowerable(e: Expr)
  {
    match e
    case Number(_) => true
    case Variable(_) => true
    case Binary(_, lhs, rhs) => Lowerable(lhs) && Lowerable(rhs)
    case Call(_, args) => forall i :: 0 <= i < |args| ==> Lowerable(args[i])
    case If(_, _, _) => false
    case For(_, _, _, _, _) => false
  }

  /** What expression code generation may do to the variables in scope: add null entries, nothing else. */
  ghost predicate OnlyNullsAdded(nv: map<Text, Option<Val>>, nv': map<Text, Option<Val>>)
  {
    && nv.Keys <= nv'.Keys
    && (forall k :: k in nv ==> nv'[k] == nv[k])
    && (forall k :: k in nv' && k !in nv ==> nv'[k] == None)
  }

  /**
   * What expression code generation does to the state in every case: the
   * module is untouched, instructions and diagnostics are only appended, and
   * null entries are only added to the variables in scope. A failure has
   * logged at least one diagnostic; a success has logged none and has added
   * no null entries.
   */
  ghost predicate GenEffect(g: GState, ok: bool, g': GState)
  {
    && g'.theModule == g.theModule
    && g.block <= g'.block
    && g.log <= g'.log
    && OnlyNullsAdded(g.namedValues, g'.namedValues)
    && (!ok ==> |g'.log| > |g.log|)
    && (ok ==> g'.log == g.log && g'.namedValues == g.namedValues)
  }

  lemma OnlyNullsAddedTransitive(a: map<Text, Option<Val>>, b: map<Text, Option<Val>>, c: map<Text, Option<Val>>)
    requires OnlyNullsAdded(a, b) && OnlyNullsAdded(b, c)
    ensures OnlyNullsAdded(a, c)
  {
  }

  /** `codegen` of an expression. */
  function Gen(e: Expr, g: GState): (r: (Option<Val>, GState))
    requires Lowerable(e)
    ensures GenEffect(g, r.0.Some?, r.1)
    decreases e, 1
  {
    match e
    case Number(val) => (Some(ConstFP(val)), g)
    case Variable(name) =>
      var nv := if name in g.namedValues then g.namedValues else g.namedValues[name := None];
      if nv[name].None? then (None, g.(namedValues := nv, log := g.log + [MsgUnknownVariable]))
      else (nv[name], g)
    case Binary(op, lhs, rhs) =>
      var (l, g1) := Gen(lhs, g);
      var (rv, g2) := Gen(rhs, g1);
      OnlyNullsAddedTransitive(g.namedValues, g1.namedValues, g2.namedValues);
      if l.None? || rv.None? then (None, g2)
      else BinaryOp(op, l.value, rv.value, g2)
    case Call(callee, args) =>
      if !Declared(g.theModule, callee) then (None, g.(log := g.log + [MsgUnknownFunction]))
      else if |g.theModule[callee].params| != |args| then (None, g.(log := g.log + [MsgArity]))
      else
        var (vs, g1) := GenArgs(args, [], g);
        if vs.None? then (None, g1)
        else (Some(CallV(callee, vs.value)), g1.(block := g1.block + [Emit(CallV(callee, vs.value))]))
  }

  /** The instruction for operator `op` over two generated operands. */
  function BinaryOp(op: int, l: Val, r: Val, g: GState): (res: (Option<Val>, GState))
    ensures GenEffect(g, res.0.Some?, res.1)
  {
    if op == '+' as int then (Some(FAdd(l, r)), g.(block := g.block + [Emit(FAdd(l, r))]))
    else if op == '-' as int then (Some(FSub(l, r)), g.(block := g.block + [Emit(FSub(l, r))]))
    else if op == '*' as int then (Some(FMul(l, r)), g.(block := g.block + [Emit(FMul(l, r))]))
    else if op == '<' as int then
      (Some(UIToFP(FCmpULT(l, r))), g.(block := g.block + [Emit(FCmpULT(l, r)), Emit(UIToFP(FCmpULT(l, r)))]))
    else (None, g.(log := g.log + [MsgInvalidOperator]))
  }

  /**
   * The argument loop of a call: `acc` holds the values generated so far; the
   * arguments are generated left to right, and the first failure stops it.
   */
  function GenArgs(args: seq<Expr>, acc: seq<Val>, g: GState): (r: (Option<seq<Val>>, GState))
    requires forall i :: 0 <= i < |args| ==> Lowerable(args[i])
    ensures GenEffect(g, r.0.Some?, r.1)
    decreases args, 0
  {
    if args == [] then (Some(acc), g)
    else
      var (v, g1) := Gen(args[0], g);
      if v.None? then (None, g1)
      else
        var r := GenArgs(args[1..], acc + [v.value], g1);
        OnlyNullsAddedTransitive(g.namedValues, g1.namedValues, r.1.namedValues);
        r
  }

  /**
   * `PrototypeAST::codegen`: a new function with one parameter per argument
   * name, in order. A function of that name already in the module keeps its
   * entry: LLVM gives the new one a generated name that no identifier spells.
   * A function with an empty name gets no entry.
   */
  function GenProto(p: Prototype, g: GState): (r: (Func, GState))
    ensures r.0.params == p.args && !r.0.hasBody && |r.0.params| == |p.args|
    ensures p.GetName() != [] ==> r.1.theModule.Keys == g.theModule.Keys + {p.GetName()}
    ensures p.GetName() == [] ==> r.1.theModule == g.theModule
    ensures forall k :: k in g.theModule ==> r.1.theModule[k] == g.theModule[k]
    ensures p.GetName() != [] && p.GetName() !in g.theModule ==> r.1.theModule[p.GetName()] == r.0
    ensures r.1.namedValues == g.namedValues && r.1.block == g.block && r.1.log == g.log
  {
    var f := Func(p.args, false);
    (f, if p.GetName() in g.theModule then g else g.(theModule := Stored(g.theModule, p.GetName(), f)))
  }

  /**
   * The variables in scope while a body is generated: each parameter name is
   * bound to its own argument of `fn`; a repeated name keeps its first argument.
   */
  function Bindings(fn: Text, params: seq<Text>): (m: map<Text, Option<Val>>)
    ensures forall p :: p in m ==>
      && m[p].Some? && m[p].value.Param? && m[p].value.fn == fn
      && m[p].value.index < |params| && params[m[p].value.index] == p
  {
    if params == [] then map[]
    else
      var m := Bindings(fn, params[..|params| - 1]);
      var p := params[|params| - 1];
      if p in m then m else m[p := Some(Param(fn, |params| - 1))]
  }

  /**
   * `FunctionAST::codegen`: reuse the module's function of that name or
   * declare one from the prototype; refuse one that has a body; otherwise open
   * its entry block, bind exactly its parameters, and generate the body,
   * returning it on success and erasing the function on failure.
   */
  function Define(f: Function, g: GState): (r: (Option<Func>, GState))
    requires Lowerable(f.body)
    ensures r.0.Some? ==> r.0.value.hasBody
    ensures r.0.Some? && f.proto.GetName() != [] ==>
      f.proto.GetName() in r.1.theModule && r.1.theModule[f.proto.GetName()] == r.0.value
    ensures f.proto.GetName() == [] ==> r.1.theModule == g.theModule
    ensures r.0.None? ==> |r.1.log| > |g.log|
    ensures r.0.Some? ==> r.1.log == g.log
    ensures g.log <= r.1.log
    ensures r.1.theModule.Keys <= g.theModule.Keys + {f.proto.GetName()}
    ensures forall k :: k in g.theModule && k != f.proto.GetName() ==> k in r.1.theModule && r.1.theModule[k] == g.theModule[k]
  {
    var name := f.proto.GetName();
    var (fn, g1) := if Declared(g.theModule, name) then (g.theModule[name], g) else GenProto(f.proto, g);
    if fn.hasBody then (None, g1.(log := g1.log + [MsgRedefine]))
    else
      var fn' := fn.(hasBody := true);
      var g2 := g1.(theModule := Stored(g1.theModule, name, fn'), block := [], namedValues := Bindings(name, fn.params));
      var (v, g3) := Gen(f.body, g2);
      if v.Some? then (Some(fn'), g3.(block := g3.block + [Ret(v.value)]))
      else (None, g3.(theModule := Erased(g3.theModule, name)))
  }

  // Properties of code generation.

  /** A number is the constant with its value, and generating it changes nothing. */
  lemma NumberIsConstant(val: NumVal, g: GState)
    ensures Gen(Number(val), g) == (Some(ConstFP(val)), g)
  {
  }

  /**
   * A variable yields exactly the value bound to its name. An unbound name
   * fails with "Unknown variable name" and is left bound to null.
   */
  lemma VariableLookup(name: Text, g: GState)
    ensures var r := Gen(Variable(name), g);
      && (r.0.Some? <==> name in g.namedValues && g.namedValues[name].Some?)
      && (r.0.Some? ==> r == (g.namedValues[name], g))
      && (r.0.None? ==> r.1.log == g.log + [MsgUnknownVariable] && r.1.namedValues[name] == None)
  {
  }

  /**
   * Both operands are generated, the left one first, before either is
   * checked; the result is null when either fails; otherwise only `+ - * <`
   * produce a value, `<` a comparison converted to a double.
   */
  lemma BinaryOperands(op: int, lhs: Expr, rhs: Expr, g: GState)
    requires Lowerable(lhs) && Lowerable(rhs)
    ensures var (l, g1) := Gen(lhs, g);
      var (rv, g2) := Gen(rhs, g1);
      var r := Gen(Binary(op, lhs, rhs), g);
      && (l.None? || rv.None? ==> r == (None, g2))
      && (l.Some? && rv.Some? ==>
            && (r.0.Some? <==> op in {'+' as int, '-' as int, '*' as int, '<' as int})
            && (op == '+' as int ==> r.0 == Some(FAdd(l.value, rv.value)))
            && (op == '-' as int ==> r.0 == Some(FSub(l.value, rv.value)))
            && (op == '*' as int ==> r.0 == Some(FMul(l.value, rv.value)))
            && (op == '<' as int ==> r.0 == Some(UIToFP(FCmpULT(l.value, rv.value))))
            && (r.0.None? ==> r.1 == g2.(log := g2.log + [MsgInvalidOperator])))
  {
  }

  /**
   * A call to a function the module does not have, or with the wrong number
   * of arguments, fails with its diagnostic before any argument is generated.
   */
  lemma CallChecks(callee: Text, args: seq<Expr>, g: GState)
    requires Lowerable(Call(callee, args))
    ensures !Declared(g.theModule, callee) ==>
      Gen(Call(callee, args), g) == (None, g.(log := g.log + [MsgUnknownFunction]))
    ensures Declared(g.theModule, callee) && |g.theModule[callee].params| != |args| ==>
      Gen(Call(callee, args), g) == (None, g.(log := g.log + [MsgArity]))
  {
  }

  /**
   * A call that passes its checks calls the callee with the values of its
   * arguments, in order, or fails exactly when generating the arguments fails.
   */
  lemma CallOfArguments(callee: Text, args: seq<Expr>, g: GState)
    requires Lowerable(Call(callee, args))
    requires Declared(g.theModule, callee) && |g.theModule[callee].params| == |args|
    ensures var (vs, g1) := GenArgs(args, [], g);
      && (vs.None? ==> Gen(Call(callee, args), g) == (None, g1))
      && (vs.Some? ==> Gen(Call(callee, args), g).0 == Some(CallV(callee, vs.value)) && |vs.value| == |args|)
  {
    ArgumentsInOrder(args, [], g);
  }

  /**
   * The argument loop keeps order: the values already generated stay in
   * front and one value follows per argument. The value at position `i` is
   * that of `args[i]`, generated in the state the loop reached after
   * `args[..i]`.
   */
  lemma {:induction false} ArgumentsInOrder(args: seq<Expr>, acc: seq<Val>, g: GState)
    requires forall i :: 0 <= i < |args| ==> Lowerable(args[i])
    ensures var r := GenArgs(args, acc, g);
      r.0.Some? ==>
        && |r.0.value| == |acc| + |args|
        && r.0.value[..|acc|] == acc
        && forall i :: 0 <= i < |args| ==>
             && GenArgs(args[..i], acc, g).0 == Some(r.0.value[..|acc| + i])
             && Gen(args[i], GenArgs(args[..i], acc, g).1).0 == Some(r.0.value[|acc| + i])
    decreases args
  {
    var r := GenArgs(args, acc, g);
    if args != [] && r.0.Some? {
      var (v, g1) := Gen(args[0], g);
      ArgumentsInOrder(args[1..], acc + [v.value], g1);
      assert r.0.value[..|acc| + 1][..|acc|] == r.0.value[..|acc|];
      forall i | 0 <= i < |args|
        ensures GenArgs(args[..i], acc, g).0 == Some(r.0.value[..|acc| + i])
        ensures Gen(args[i], GenArgs(args[..i], acc, g).1).0 == Some(r.0.value[|acc| + i])
      {
        if i == 0 {
          assert args[..0] == [];
        } else {
          PrefixAfterHead(args, acc, g, i);
          assert args[i] == args[1..][i - 1];
        }
      }
    }
  }

  /**
   * The first argument that fails stops the loop: when `args[..k]` all
   * generate and `args[k]` fails, the loop fails in the state right after
   * `args[k]`, so no later argument is generated.
   */
  lemma {:induction false} FirstFailureStops(args: seq<Expr>, acc: seq<Val>, g: GState)
    requires forall i :: 0 <= i < |args| ==> Lowerable(args[i])
    ensures forall k :: 0 <= k < |args| ==>
      GenArgs(args[..k], acc, g).0.Some? && Gen(args[k], GenArgs(args[..k], acc, g).1).0.None? ==>
        GenArgs(args, acc, g) == (None, Gen(args[k], GenArgs(args[..k], acc, g).1).1)
    decreases args
  {
    if args != [] {
      var (v, g1) := Gen(args[0], g);
      assert args[..0] == [];
      if v.Some? {
        FirstFailureStops(args[1..], acc + [v.value], g1);
        forall k | 0 < k < |args|
          ensures GenArgs(args[..k], acc, g).0.Some? && Gen(args[k], GenArgs(args[..k], acc, g).1).0.None? ==>
            GenArgs(args, acc, g) == (None, Gen(args[k], GenArgs(args[..k], acc, g).1).1)
        {
          PrefixAfterHead(args, acc, g, k);
          assert args[k] == args[1..][k - 1];
        }
      }
    }
  }

  /** A failing argument loop has a first failing argument: the ones before it all generate. */
  lemma {:induction false} FailureHasFirstArgument(args: seq<Expr>, acc: seq<Val>, g: GState)
    requires forall i :: 0 <= i < |args| ==> Lowerable(args[i])
    ensures GenArgs(args, acc, g).0.None? ==>
      exists k :: 0 <= k < |args| && GenArgs(args[..k], acc, g).0.Some? && Gen(args[k], GenArgs(args[..k], acc, g).1).0.None?
    decreases args
  {
    if args != [] && GenArgs(args, acc, g).0.None? {
      var (v, g1) := Gen(args[0], g);
      assert args[..0] == [];
      if v.Some? {
        FailureHasFirstArgument(args[1..], acc + [v.value], g1);
        var k :| 0 <= k < |args| - 1 && GenArgs(args[1..][..k], acc + [v.value], g1).0.Some?
          && Gen(args[1..][k], GenArgs(args[1..][..k], acc + [v.value], g1).1).0.None?;
        PrefixAfterHead(args, acc, g, k + 1);
        assert args[k + 1] == args[1..][k];
      }
    }
  }

  /** Generating the first `k` arguments is generating the first one, then the next `k - 1` after it. */
  lemma PrefixAfterHead(args: seq<Expr>, acc: seq<Val>, g: GState, k: nat)
    requires forall i :: 0 <= i < |args| ==> Lowerable(args[i])
    requires 0 < k <= |args|
    ensures var (v, g1) := Gen(args[0], g);
      GenArgs(args[..k], acc, g) == if v.None? then (None, g1) else GenArgs(args[1..][..k - 1], acc + [v.value], g1)
  {
    assert args[..k][0] == args[0];
    assert args[..k][1..] == args[1..][..k - 1];
  }

  /**
   * A prototype declares a function named after it whose parameters are its
   * argument names, in order; its arity is the number of argument names.
   */
  lemma PrototypeDeclares(p: Prototype, g: GState)
    requires !Declared(g.theModule, p.GetName())
    ensures var (f, g') := GenProto(p, g);
      && f == Func(p.args, false) && |f.params| == |p.args|
      && g'.theModule == Stored(g.theModule, p.GetName(), f)
      && g'.namedValues == g.namedValues && g'.block == g.block && g'.log == g.log
  {
  }

  /**
   * The variables in scope for a body are exactly the parameter names, each
   * bound to the argument at the first position that carries it.
   */
  lemma {:induction false} BindingsExact(fn: Text, params: seq<Text>)
    ensures Bindings(fn, params).Keys == set i | 0 <= i < |params| :: params[i]
    ensures forall p :: p in Bindings(fn, params) ==>
      exists i :: 0 <= i < |params| && params[i] == p && p !in params[..i]
        && Bindings(fn, params)[p] == Some(Param(fn, i))
  {
    if params != [] {
      var front := params[..|params| - 1];
      BindingsExact(fn, front);
      var m := Bindings(fn, front);
      var last := params[|params| - 1];
      assert forall i :: 0 <= i < |front| ==> front[i] == params[i];
      assert forall i :: 0 <= i < |front| ==> params[..i] == front[..i];
      assert params[..|params| - 1] == front;
      var keys := set i | 0 <= i < |params| :: params[i];
      var frontKeys := set i | 0 <= i < |front| :: front[i];
      assert keys == frontKeys + {last} by {
        forall x | x in keys ensures x in frontKeys + {last} {
          var i :| 0 <= i < |params| && params[i] == x;
          if i < |front| {
            assert front[i] == x;
          }
        }
      }
    }
  }

  /** A function whose name has a function with a body in the module is refused, and nothing else changes. */
  lemma RedefinitionRefused(f: Function, g: GState)
    requires Lowerable(f.body)
    requires Declared(g.theModule, f.proto.GetName()) && g.theModule[f.proto.GetName()].hasBody
    ensures Define(f, g) == (None, g.(log := g.log + [MsgRedefine]))
  {
  }

  /**
   * A definition whose body generates becomes the module's function of that
   * name, with a body: the parameters of an earlier declaration of that name
   * when there is one, the prototype's otherwise. The body sees exactly those
   * parameters, and the entry block ends by returning the body's value.
   */
  lemma DefinitionSucceeds(f: Function, g: GState)
    requires Lowerable(f.body)
    requires var name := f.proto.GetName(); !Declared(g.theModule, name) || !g.theModule[name].hasBody
    ensures var name := f.proto.GetName();
      var params := if Declared(g.theModule, name) then g.theModule[name].params else f.proto.args;
      var g2 := g.(theModule := Stored(g.theModule, name, Func(params, true)), block := [], namedValues := Bindings(name, params));
      var (v, g3) := Gen(f.body, g2);
      v.Some? ==>
        && Define(f, g) == (Some(Func(params, true)), g3.(block := g3.block + [Ret(v.value)]))
        && (name != [] ==> g3.theModule[name] == Func(params, true))
        && g3.namedValues.Keys == set p | p in params
  {
    var name := f.proto.GetName();
    var params := if Declared(g.theModule, name) then g.theModule[name].params else f.proto.args;
    DefineOpens(f, g);
    BindingsExact(name, params);
    assert (set i | 0 <= i < |params| :: params[i]) == set p | p in params by {
      forall p | p in params ensures p in set i | 0 <= i < |params| :: params[i] {
        var i :| 0 <= i < |params| && params[i] == p;
      }
    }
  }

  /**
   * A definition whose body fails to generate leaves no function of that name
   * in the module, even when it came from an earlier declaration; the rest of
   * the module is as before.
   */
  lemma FailedBodyErased(f: Function, g: GState)
    requires Lowerable(f.body)
    requires var name := f.proto.GetName(); !Declared(g.theModule, name) || !g.theModule[name].hasBody
    ensures var name := f.proto.GetName();
      var params := if Declared(g.theModule, name) then g.theModule[name].params else f.proto.args;
      var g2 := g.(theModule := Stored(g.theModule, name, Func(params, true)), block := [], namedValues := Bindings(name, params));
      Gen(f.body, g2).0.None? ==>
        && Define(f, g).0.None?
        && Define(f, g).1.theModule == Erased(g.theModule, name)
        && |Define(f, g).1.log| > |g.log|
  {
    DefineOpens(f, g);
  }

  /**
   * A function with an empty name, such as the wrapper of a top-level
   * expression, is never found in the module: every definition of it declares
   * a new function from its prototype, is never refused, and leaves the
   * module as it was, whether its body generates or not.
   */
  lemma AnonymousDefinedAfresh(f: Function, g: GState)
    requires Lowerable(f.body)
    requires f.proto.GetName() == []
    ensures var g2 := g.(block := [], namedValues := Bindings([], f.proto.args));
      var (v, g3) := Gen(f.body, g2);
      && Define(f, g).1.theModule == g.theModule
      && (v.Some? ==> Define(f, g) == (Some(Func(f.proto.args, true)), g3.(block := g3.block + [Ret(v.value)])))
      && (v.None? ==> Define(f, g) == (None, g3))
  {
    DefineOpens(f, g);
  }

  /** The state in which a definition's body is generated, when the function may take one. */
  lemma DefineOpens(f: Function, g: GState)
    requires Lowerable(f.body)
    requires var name := f.proto.GetName(); !Declared(g.theModule, name) || !g.theModule[name].hasBody
    ensures var name := f.proto.GetName();
      var params := if Declared(g.theModule, name) then g.theModule[name].params else f.proto.args;
      var g2 := g.(theModule := Stored(g.theModule, name, Func(params, true)), block := [], namedValues := Bindings(name, params));
      var (v, g3) := Gen(f.body, g2);
      Define(f, g) == if v.Some? then (Some(Func(params, true)), g3.(block := g3.block + [Ret(v.value)]))
                      else (None, g3.(theModule := Erased(g3.theModule, name)))
  {
    var name := f.proto.GetName();
    if !Declared(g.theModule, name) {
      var g1 := GenProto(f.proto, g).1;
      assert Stored(g1.theModule, name, Func(f.proto.args, true)) == Stored(g.theModule, name, Func(f.proto.args, true));
    }
  }

  /**
   * The code generator: the module, the variables in scope, the builder's
   * insertion block, and the diagnostics written so far.
   */
  class CodeGen {
    var theModule: map<Text, Func>
    var namedValues: map<Text, Option<Val>>
    var block: seq<Instr>
    var log: seq<string>

    function Snapshot(): (g: GState)
      reads this
    {
      GState(theModule, namedValues, block, log)
    }

    /** A code generator with an empty theModule. */
    constructor()
      ensures Snapshot() == GState(map[], map[], [], [])
    {
      theModule := map[];
      namedValues := map[];
      block := [];
      log := [];
    }

    /** `LogErrorV`: writes the diagnostic and returns null. */
    method LogErrorV(msg: string) returns (r: Option<Val>)
      modifies this`log
      ensures r == None && log == old(log) + [msg]
    {
      log := log + [msg];
      r := None;
    }

    /** `ExprAST::codegen`, dispatched on the node. */
    method Codegen(e: Expr) returns (r: Option<Val>)
      requires Lowerable(e)
      modifies this
      ensures (r, Snapshot()) == Gen(e, old(Snapshot()))
      decreases e, 1
    {
      match e
      case Number(val) =>
        r := Some(ConstFP(val));
      case Variable(name) =>
        r := GenVariable(name);
      case Binary(_, _, _) =>
        r := GenBinary(e);
      case Call(_, _) =>
        r := GenCall(e);
    }

    /** `VariableExprAST::codegen`: `operator[]` inserts a null entry for an unknown name. */
    method GenVariable(name: Text) returns (r: Option<Val>)
      modifies this`namedValues, this`log
      ensures (r, Snapshot()) == Gen(Variable(name), old(Snapshot()))
    {
      if name !in namedValues {
        namedValues := namedValues[name := None];
      }
      r := namedValues[name];
      if r.None? {
        var _ := LogErrorV(MsgUnknownVariable);
      }
    }

    /** `BinaryExprAST::codegen`. */
    method GenBinary(e: Expr) returns (r: Option<Val>)
      requires e.Binary? && Lowerable(e)
      modifies this
      ensures (r, Snapshot()) == Gen(e, old(Snapshot()))
      decreases e, 0
    {
      ghost var g0 := Snapshot();
      var l := Codegen(e.lhs);
      ghost var g1 := Snapshot();
      var rv := Codegen(e.rhs);
      ghost var g2 := Snapshot();
      assert Gen(e, g0) == if l.None? || rv.None? then (None, g2) else BinaryOp(e.op, l.value, rv.value, g2);
      if l.None? || rv.None? {
        return None;
      }
      var op := e.op;
      if op == '+' as int {
        r := Some(FAdd(l.value, rv.value));
      } else if op == '-' as int {
        r := Some(FSub(l.value, rv.value));
      } else if op == '*' as int {
        r := Some(FMul(l.value, rv.value));
      } else if op == '<' as int {
        var cmp := FCmpULT(l.value, rv.value);
        block := block + [Emit(cmp)];
        r := Some(UIToFP(cmp));
        assert old(block) + [Emit(cmp)] + [Emit(r.value)] == old(block) + [Emit(cmp), Emit(r.value)];
      } else {
        r := LogErrorV(MsgInvalidOperator);
        return;
      }
      block := block + [Emit(r.value)];
      assert Snapshot() == BinaryOp(op, l.value, rv.value, g2).1;
      assert r == BinaryOp(op, l.value, rv.value, g2).0;
    }

    /** `CallExprAST::codegen`, with its loop over the arguments. */
    method GenCall(e: Expr) returns (r: Option<Val>)
      requires e.Call? && Lowerable(e)
      modifies this
      ensures (r, Snapshot()) == Gen(e, old(Snapshot()))
      decreases e, 0
    {
      var callee := e.callee;
      var args := e.args;
      if !Declared(theModule, callee) {
        r := LogErrorV(MsgUnknownFunction);
        return;
      }
      if |theModule[callee].params| != |args| {
        r := LogErrorV(MsgArity);
        return;
      }
      ghost var g0 := Snapshot();
      var argsV: seq<Val> := [];
      for i := 0 to |args|
        invariant GenArgs(args[i..], argsV, Snapshot()) == GenArgs(args, [], g0)
      {
        assert args[i..][0] == args[i] && args[i..][1..] == args[i + 1..];
        var v := Codegen(args[i]);
        if v.None? {
          return None;
        }
        argsV := argsV + [v.value];
      }
      assert args[|args|..] == [];
      r := Some(CallV(callee, argsV));
      block := block + [Emit(r.value)];
    }

    /** `PrototypeAST::codegen`, naming the parameters in order. */
    method GenPrototype(p: Prototype) returns (f: Func)
      modifies this`theModule
      ensures (f, Snapshot()) == GenProto(p, old(Snapshot()))
    {
      var params: seq<Text> := [];
      for idx := 0 to |p.args|
        invariant params == p.args[..idx]
      {
        params := params + [p.args[idx]];
      }
      assert p.args[..|p.args|] == p.args;
      f := Func(params, false);
      if p.GetName() !in theModule {
        theModule := Stored(theModule, p.GetName(), f);
      }
    }

    /** `FunctionAST::codegen`. */
    method GenFunction(fun: Function) returns (r: Option<Func>)
      requires Lowerable(fun.body)
      modifies this
      ensures (r, Snapshot()) == Define(fun, old(Snapshot()))
    {
      var name := fun.proto.GetName();
      var theFunction: Func;
      if Declared(theModule, name) {
        theFunction := theModule[name];
      } else {
        theFunction := GenPrototype(fun.proto);
      }
      if theFunction.hasBody {
        var _ := LogErrorV(MsgRedefine);
        return None;
      }
      theFunction := theFunction.(hasBody := true);
      theModule := Stored(theModule, name, theFunction);
      block := [];
      namedValues := map[];
      ghost var g1 := Snapshot();
      for i := 0 to |theFunction.params|
        invariant Snapshot() == g1.(namedValues := Bindings(name, theFunction.params[..i]))
      {
        assert theFunction.params[..i + 1][..i] == theFunction.params[..i];
        var p := theFunction.params[i];
        if p !in namedValues {
          namedValues := namedValues[p := Some(Param(name, i))];
        }
      }
      assert theFunction.params[..|theFunction.params|] == theFunction.params;
      var retVal := Codegen(fun.body);
      if retVal.Some? {
        block := block + [Ret(retVal.value)];
        return Some(theFunction);
      }
      theModule := Erased(theModule, name);
      r := None;
    }
  }

}
