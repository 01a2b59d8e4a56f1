/** The rewrite script compiler (the grammar's semantic actions) and the frame-stack interpreter. */
module Rewrite {
  import opened Common

  /** Operands of actions, with names already resolved. */
  datatype Thing = Const(id: nat) | Variable(id: nat) | RequestThing(id: nat) | Element(id: nat, key: nat) | RetThing

  datatype Func = Query | Pass | DataQuery

  // ---- syntax ----

  datatype Expr = Leaf(thing: Thing) | Call(func: Func, args: seq<Expr>)

  /** The statement tested by an IF: its value is a target or the result of a call. */
  datatype Test = TestExpr(expr: Expr) | TestSet(dst: Thing, src: Expr)

  datatype Stmt =
    | Define
    | DefineVariable
    | Eval(expr: Expr)
    | Set(dst: Thing, src: Expr)
    | If(want: bool, test: Test, body: seq<Stmt>)

  // ---- compiled form ----

  /** A call with its parameters and result variable, an assignment, or IF (want) and IFNOT. */
  datatype Action =
    | Run(func: Func, params: seq<Thing>, to: Thing)
    | Assign(to: Thing, from: Thing)
    | Branch(want: bool, test: Thing, body: seq<Action>)

  /** Compiled actions, the thing that stands for the value, and the number of variables in use. */
  datatype Code = Code(acts: seq<Action>, thing: Thing, vars: nat)

  function CompileExpr(e: Expr, vars: nat): Code
    decreases e, 0
  {
    match e
    case Leaf(thing) => Code([], thing, vars)
    case Call(func, args) =>
      var (acts, things, vars1) := CompileArgs(args, vars);
      Code(acts + [Run(func, things, Variable(vars1))], Variable(vars1), vars1 + 1)
  }

  /** Arguments from left to right: their actions, their things, the variable counter. */
  function CompileArgs(args: seq<Expr>, vars: nat): (seq<Action>, seq<Thing>, nat)
    decreases args, 1
  {
    if args == [] then ([], [], vars)
    else
      var (acts, things, vars1) := CompileArgs(args[..|args|-1], vars);
      var last := CompileExpr(args[|args|-1], vars1);
      (acts + last.acts, things + [last.thing], last.vars)
  }

  function CompileTest(t: Test, vars: nat): Code {
    match t
    case TestExpr(e) => CompileExpr(e, vars)
    case TestSet(dst, src) =>
      var c := CompileExpr(src, vars);
      Code(c.acts + [Assign(dst, c.thing)], dst, c.vars)
  }

  function CompileStmt(s: Stmt, vars: nat): (seq<Action>, nat)
    decreases s, 0
  {
    match s
    case Define => ([], vars)
    case DefineVariable => ([], vars + 1)
    case Eval(e) => var c := CompileExpr(e, vars); (c.acts, c.vars)
    case Set(dst, src) => var c := CompileTest(TestSet(dst, src), vars); (c.acts, c.vars)
    case If(want, test, body) =>
      var c := CompileTest(test, vars);
      var (acts, vars1) := CompileBlock(body, c.vars);
      (c.acts + [Branch(want, c.thing, acts)], vars1)
  }

  function CompileBlock(ss: seq<Stmt>, vars: nat): (seq<Action>, nat)
    decreases ss, 1
  {
    if ss == [] then ([], vars)
    else
      var (acts, vars1) := CompileBlock(ss[..|ss|-1], vars);
      var (last, vars2) := CompileStmt(ss[|ss|-1], vars1);
      (acts + last, vars2)
  }

  /** The script under construction: the open action blocks, innermost last, and the variable counter. */
  class Parser {
    var blocks: seq<seq<Action>>
    var variables: nat

    constructor ()
      ensures blocks == [] && variables == 0
    {
      blocks, variables := [], 0;
    }

    method EnterActionBlock()
      modifies this`blocks
      ensures blocks == old(blocks) + [[]]
    {
      blocks := blocks + [[]];
    }

    method LeaveActionBlock() returns (left: seq<Action>)
      requires blocks != []
      modifies this`blocks
      ensures old(blocks) == blocks + [left]
    {
      left := blocks[|blocks|-1];
      blocks := blocks[..|blocks|-1];
    }

    /** What the innermost block looks like with `acts` added. */
    ghost function Extended(bs: seq<seq<Action>>, acts: seq<Action>): seq<seq<Action>>
      requires bs != []
    {
      bs[|bs|-1 := bs[|bs|-1] + acts]
    }

    method NewAction(a: Action)
      requires blocks != []
      modifies this`blocks
      ensures blocks == Extended(old(blocks), [a])
    {
      blocks := blocks[|blocks|-1 := blocks[|blocks|-1] + [a]];
    }

    lemma ExtendTwice(bs: seq<seq<Action>>, a: seq<Action>, b: seq<Action>)
      requires bs != []
      ensures Extended(Extended(bs, a), b) == Extended(bs, a + b)
    {
      assert bs[|bs|-1] + a + b == bs[|bs|-1] + (a + b);
    }

    lemma ExtendNone(bs: seq<seq<Action>>)
      requires bs != []
      ensures Extended(bs, []) == bs
    {
      assert bs[|bs|-1] + [] == bs[|bs|-1];
    }

    /** Reduces an expression: nested calls append their action before the call around them. */
    method ReduceExpr(e: Expr) returns (thing: Thing)
      requires blocks != []
      modifies this
      ensures var c := CompileExpr(e, old(variables));
        thing == c.thing && variables == c.vars && blocks == Extended(old(blocks), c.acts)
      decreases e, 0
    {
      ExtendNone(blocks);
      match e
      case Leaf(t) =>
        thing := t;
      case Call(func, args) =>
        var things := ReduceArgs(args);
        thing := Variable(variables);
        variables := variables + 1;
        ghost var acts := CompileArgs(args, old(variables)).0;
        ExtendTwice(old(blocks), acts, [Run(func, things, thing)]);
        NewAction(Run(func, things, thing));
    }

    method ReduceArgs(args: seq<Expr>) returns (things: seq<Thing>)
      requires blocks != []
      modifies this
      ensures var c := CompileArgs(args, old(variables));
        things == c.1 && variables == c.2 && blocks == Extended(old(blocks), c.0)
      decreases args, 1
    {
      things := [];
      var i := 0;
      ExtendNone(blocks);
      while i < |args|
        invariant 0 <= i <= |args| && blocks != []
        invariant var c := CompileArgs(args[..i], old(variables));
          things == c.1 && variables == c.2 && blocks == Extended(old(blocks), c.0)
      {
        ghost var done := CompileArgs(args[..i], old(variables));
        assert args[..i+1][..i] == args[..i];
        ExtendTwice(old(blocks), done.0, CompileExpr(args[i], variables).acts);
        var thing := ReduceExpr(args[i]);
        things := things + [thing];
        i := i + 1;
      }
      assert args[..|args|] == args;
    }

    method ReduceTest(t: Test) returns (thing: Thing)
      requires blocks != []
      modifies this
      ensures var c := CompileTest(t, old(variables));
        thing == c.thing && variables == c.vars && blocks == Extended(old(blocks), c.acts)
    {
      match t
      case TestExpr(e) =>
        thing := ReduceExpr(e);
      case TestSet(dst, src) =>
        var from := ReduceExpr(src);
        ghost var acts := CompileExpr(src, old(variables)).acts;
        ExtendTwice(old(blocks), acts, [Assign(dst, from)]);
        NewAction(Assign(dst, from));
        thing := dst;
    }

    method ReduceStmt(s: Stmt)
      requires blocks != []
      modifies this
      ensures var c := CompileStmt(s, old(variables));
        variables == c.1 && blocks == Extended(old(blocks), c.0)
      decreases s, 0
    {
      ExtendNone(blocks);
      match s
      case Define =>
      case DefineVariable =>
        variables := variables + 1;
      case Eval(e) =>
        var thing := ReduceExpr(e);
      case Set(dst, src) =>
        var thing := ReduceTest(TestSet(dst, src));
      case If(want, test, body) =>
        var thing := ReduceTest(test);
        ghost var c := CompileTest(test, old(variables));
        var block := ReduceBlock(body);
        ExtendTwice(old(blocks), c.acts, [Branch(want, thing, block)]);
        NewAction(Branch(want, thing, block));
    }

    /** Opens a block, reduces its statements into it, and closes it again. */
    method ReduceBlock(ss: seq<Stmt>) returns (block: seq<Action>)
      modifies this
      ensures var c := CompileBlock(ss, old(variables));
        block == c.0 && variables == c.1 && blocks == old(blocks)
      decreases ss, 1
    {
      EnterActionBlock();
      ghost var start := blocks;
      var i := 0;
      ExtendNone(blocks);
      while i < |ss|
        invariant 0 <= i <= |ss| && blocks != []
        invariant var c := CompileBlock(ss[..i], old(variables));
          variables == c.1 && blocks == Extended(start, c.0)
      {
        ghost var done := CompileBlock(ss[..i], old(variables));
        assert ss[..i+1][..i] == ss[..i];
        ExtendTwice(start, done.0, CompileStmt(ss[i], variables).0);
        ReduceStmt(ss[i]);
        i := i + 1;
      }
      assert ss[..|ss|] == ss;
      ghost var acts := CompileBlock(ss, old(variables)).0;
      assert [] + acts == acts && Extended(start, acts) == old(blocks) + [acts];
      block := LeaveActionBlock();
      assert blocks + [block] == old(blocks) + [acts];
      assert blocks == (blocks + [block])[..|old(blocks)|] == old(blocks);
      assert block == (blocks + [block])[|blocks|];
    }
  }

  // ---- names, by the syntax alone ----

  /** Number of calls in an expression: every call gets a result variable of its own. */
  function Calls(e: Expr): nat
    decreases e, 0
  {
    match e
    case Leaf(_) => 0
    case Call(_, args) => CallsIn(args) + 1
  }

  function CallsIn(args: seq<Expr>): nat
    decreases args, 1
  {
    if args == [] then 0 else CallsIn(args[..|args|-1]) + Calls(args[|args|-1])
  }

  /** What stands for the value of an expression that is reached when `vars` variables are in use: a leaf stands for
      itself, a call for the first variable not taken by the calls nested in it. */
  function ThingOf(e: Expr, vars: nat): Thing {
    match e
    case Leaf(thing) => thing
    case Call(_, args) => Variable(vars + CallsIn(args))
  }

  /** Operand `i` is reached after the calls in the operands before it. */
  function ThingsOf(args: seq<Expr>, vars: nat): (things: seq<Thing>)
    ensures |things| == |args|
  {
    seq(|args|, i requires 0 <= i < |args| => ThingOf(args[i], vars + CallsIn(args[..i])))
  }

  function Source(t: Test): Expr {
    match t
    case TestExpr(e) => e
    case TestSet(_, src) => src
  }

  /** The thing an IF looks at: the value of its expression, or the target of its assignment. */
  function Tested(t: Test, vars: nat): Thing {
    match t
    case TestExpr(e) => ThingOf(e, vars)
    case TestSet(dst, _) => dst
  }

  /** Variables taken by a statement. */
  function Taken(st: Stmt): nat
    decreases st, 0
  {
    match st
    case Define => 0
    case DefineVariable => 1
    case Eval(e) => Calls(e)
    case Set(_, src) => Calls(src)
    case If(_, test, body) => Calls(Source(test)) + TakenIn(body)
  }

  function TakenIn(ss: seq<Stmt>): nat
    decreases ss, 1
  {
    if ss == [] then 0 else TakenIn(ss[..|ss|-1]) + Taken(ss[|ss|-1])
  }

  // ---- meaning ----

  datatype Step<S> = Continue(state: S) | Halt(state: S)

  /** What the rest of the system supplies: the effect of a call, which may also abort the script (Halt), and of an
      assignment, the test whether a thing is set, and whatever happens to the state behind an IF that is not taken. */
  datatype Machine<!S> = Machine(
    run: (Func, seq<Thing>, Thing, S) -> Step<S>,
    assign: (Thing, Thing, S) -> S,
    isSet: (Thing, S) -> bool,
    untaken: (Thing, S) -> S)

  /** Direct evaluation of an expression: its operands from left to right, then the call on their values. */
  function EvalExpr<S>(m: Machine<S>, e: Expr, vars: nat, s: S): Step<S>
    decreases e, 0
  {
    match e
    case Leaf(_) => Continue(s)
    case Call(func, args) =>
      var r := EvalArgs(m, args, vars, s);
      if r.Halt? then r else m.run(func, ThingsOf(args, vars), ThingOf(e, vars), r.state)
  }

  function EvalArgs<S>(m: Machine<S>, args: seq<Expr>, vars: nat, s: S): Step<S>
    decreases args, 1
  {
    if args == [] then Continue(s)
    else
      var n := |args| - 1;
      var r := EvalArgs(m, args[..n], vars, s);
      if r.Halt? then r else EvalExpr(m, args[n], vars + CallsIn(args[..n]), r.state)
  }

  function EvalTest<S>(m: Machine<S>, t: Test, vars: nat, s: S): Step<S> {
    match t
    case TestExpr(e) => EvalExpr(m, e, vars, s)
    case TestSet(dst, src) =>
      var r := EvalExpr(m, src, vars, s);
      if r.Halt? then r else Continue(m.assign(dst, ThingOf(src, vars), r.state))
  }

  /** Direct evaluation of statements: an IF evaluates its test once, then its body once or not at all. */
  function EvalStmt<S>(m: Machine<S>, st: Stmt, vars: nat, s: S): Step<S>
    decreases st, 0
  {
    match st
    case Define => Continue(s)
    case DefineVariable => Continue(s)
    case Eval(e) => EvalExpr(m, e, vars, s)
    case Set(dst, src) => EvalTest(m, TestSet(dst, src), vars, s)
    case If(want, test, body) =>
      var r := EvalTest(m, test, vars, s);
      if r.Halt? then r
      else if m.isSet(Tested(test, vars), r.state) == want then
        EvalBlock(m, body, vars + Calls(Source(test)), r.state)
      else Continue(m.untaken(Tested(test, vars), r.state))
  }

  function EvalBlock<S>(m: Machine<S>, ss: seq<Stmt>, vars: nat, s: S): Step<S>
    decreases ss, 1
  {
    if ss == [] then Continue(s)
    else
      var n := |ss| - 1;
      var r := EvalBlock(m, ss[..n], vars, s);
      if r.Halt? then r else EvalStmt(m, ss[n], vars + TakenIn(ss[..n]), r.state)
  }

  /** Structured execution of a compiled action. */
  function ExecAction<S>(m: Machine<S>, a: Action, s: S): Step<S>
    decreases a, 0
  {
    match a
    case Run(func, params, target) => m.run(func, params, target, s)
    case Assign(target, from) => Continue(m.assign(target, from, s))
    case Branch(want, test, body) =>
      if m.isSet(test, s) == want then Exec(m, body, s) else Continue(m.untaken(test, s))
  }

  function Exec<S>(m: Machine<S>, acts: seq<Action>, s: S): Step<S>
    decreases acts, 1
  {
    if acts == [] then Continue(s)
    else
      var r := ExecAction(m, acts[0], s);
      if r.Halt? then r else Exec(m, acts[1..], r.state)
  }

  // ---- the compiler uses these names ----

  lemma {:induction false} NamesExpr(e: Expr, vars: nat)
    ensures var c := CompileExpr(e, vars); c.thing == ThingOf(e, vars) && c.vars == vars + Calls(e)
    decreases e, 0
  {
    match e
    case Leaf(_) =>
    case Call(_, args) => NamesArgs(args, vars);
  }

  lemma {:induction false} NamesArgs(args: seq<Expr>, vars: nat)
    ensures CompileArgs(args, vars).1 == ThingsOf(args, vars)
    ensures CompileArgs(args, vars).2 == vars + CallsIn(args)
    decreases args, 1
  {
    if args != [] {
      var n := |args| - 1;
      NamesArgs(args[..n], vars);
      NamesExpr(args[n], vars + CallsIn(args[..n]));
      LastThing(args, vars);
    }
  }

  lemma LastThing(args: seq<Expr>, vars: nat)
    requires args != []
    ensures var n := |args| - 1;
      ThingsOf(args, vars) == ThingsOf(args[..n], vars) + [ThingOf(args[n], vars + CallsIn(args[..n]))]
  {
    hide CallsIn, ThingOf;
    var n := |args| - 1;
    forall i: nat | i < n ensures args[..n][..i] == args[..i] {}
  }

  lemma NamesTest(t: Test, vars: nat)
    ensures var c := CompileTest(t, vars); c.thing == Tested(t, vars) && c.vars == vars + Calls(Source(t))
  {
    NamesExpr(Source(t), vars);
  }

  lemma {:induction false} NamesStmt(st: Stmt, vars: nat)
    ensures CompileStmt(st, vars).1 == vars + Taken(st)
    decreases st, 0
  {
    match st
    case Define =>
    case DefineVariable =>
    case Eval(e) => NamesExpr(e, vars);
    case Set(dst, src) => NamesTest(TestSet(dst, src), vars);
    case If(_, test, body) =>
      NamesTest(test, vars);
      NamesBlock(body, vars + Calls(Source(test)));
  }

  lemma {:induction false} NamesBlock(ss: seq<Stmt>, vars: nat)
    ensures CompileBlock(ss, vars).1 == vars + TakenIn(ss)
    decreases ss, 1
  {
    if ss != [] {
      var n := |ss| - 1;
      NamesBlock(ss[..n], vars);
      NamesStmt(ss[n], vars + TakenIn(ss[..n]));
    }
  }

  // ---- result variables ----

  /** The things that calls store their results in, in the order of the actions, blocks included. */
  function Results(acts: seq<Action>): seq<Thing>
    decreases acts
  {
    if acts == [] then []
    else
      (match acts[0]
       case Run(_, _, target) => [target]
       case Assign(_, _) => []
       case Branch(_, _, body) => Results(body)) + Results(acts[1..])
  }

  lemma {:induction false} ResultsConcat(a: seq<Action>, b: seq<Action>)
    ensures Results(a + b) == Results(a) + Results(b)
    decreases |a|
  {
    if a == [] {
      assert a + b == b;
    } else {
      assert (a + b)[1..] == a[1..] + b;
      ResultsConcat(a[1..], b);
    }
  }

  lemma ResultsOne(a: Action)
    ensures Results([a]) == match a
      case Run(_, _, target) => [target]
      case Assign(_, _) => []
      case Branch(_, _, body) => Results(body)
  {
    assert [a][1..] == [];
  }

  /** Variables only, each with a greater number than the one before, all of them in [from, upto). */
  predicate Ascending(things: seq<Thing>, from: nat, upto: nat) {
    && from <= upto
    && (forall i :: 0 <= i < |things| ==> things[i].Variable? && from <= things[i].id < upto)
    && (forall i, j :: 0 <= i < j < |things| ==>
          things[i].Variable? && things[j].Variable? && things[i].id < things[j].id)
  }

  lemma AscendingConcat(a: seq<Thing>, b: seq<Thing>, from: nat, mid: nat, upto: nat)
    requires Ascending(a, from, mid) && Ascending(b, mid, upto)
    ensures Ascending(a + b, from, upto)
  {
  }

  lemma {:induction false} ResultsOfExpr(e: Expr, vars: nat)
    ensures Ascending(Results(CompileExpr(e, vars).acts), vars, vars + Calls(e))
    ensures |Results(CompileExpr(e, vars).acts)| == Calls(e)
    decreases e, 0
  {
    match e
    case Leaf(_) =>
    case Call(func, args) =>
      NamesArgs(args, vars);
      ResultsOfArgs(args, vars);
      var (acts, things, vars1) := CompileArgs(args, vars);
      ResultsConcat(acts, [Run(func, things, Variable(vars1))]);
      ResultsOne(Run(func, things, Variable(vars1)));
      AscendingConcat(Results(acts), [Variable(vars1)], vars, vars1, vars1 + 1);
  }

  lemma {:induction false} ResultsOfArgs(args: seq<Expr>, vars: nat)
    ensures Ascending(Results(CompileArgs(args, vars).0), vars, vars + CallsIn(args))
    ensures |Results(CompileArgs(args, vars).0)| == CallsIn(args)
    decreases args, 1
  {
    if args != [] {
      var n := |args| - 1;
      NamesArgs(args[..n], vars);
      ResultsOfArgs(args[..n], vars);
      var (acts, things, vars1) := CompileArgs(args[..n], vars);
      ResultsOfExpr(args[n], vars1);
      ResultsConcat(acts, CompileExpr(args[n], vars1).acts);
      AscendingConcat(Results(acts), Results(CompileExpr(args[n], vars1).acts), vars, vars1, vars + CallsIn(args));
    }
  }

  lemma ResultsOfTest(t: Test, vars: nat)
    ensures Ascending(Results(CompileTest(t, vars).acts), vars, vars + Calls(Source(t)))
    ensures |Results(CompileTest(t, vars).acts)| == Calls(Source(t))
  {
    ResultsOfExpr(Source(t), vars);
    if t.TestSet? {
      var c := CompileExpr(t.src, vars);
      ResultsConcat(c.acts, [Assign(t.dst, c.thing)]);
      ResultsOne(Assign(t.dst, c.thing));
    }
  }

  /** Numbers of the variables that a statement reached at `vars` defines by name. */
  function Defined(st: Stmt, vars: nat): seq<nat>
    decreases st, 0
  {
    match st
    case DefineVariable => [vars]
    case If(_, test, body) => DefinedIn(body, vars + Calls(Source(test)))
    case _ => []
  }

  function DefinedIn(ss: seq<Stmt>, vars: nat): seq<nat>
    decreases ss, 1
  {
    if ss == [] then []
    else
      var n := |ss| - 1;
      DefinedIn(ss[..n], vars) + Defined(ss[n], vars + TakenIn(ss[..n]))
  }

  /** Results and defined variables together fill [from, upto) without overlap. */
  ghost predicate Partition(things: seq<Thing>, defined: seq<nat>, from: nat, upto: nat) {
    && Ascending(things, from, upto)
    && |things| + |defined| == upto - from
    && (forall d :: d in defined ==> from <= d < upto && Variable(d) !in things)
  }

  lemma PartitionConcat(a: seq<Thing>, c: seq<nat>, b: seq<Thing>, d: seq<nat>, from: nat, mid: nat, upto: nat)
    requires Partition(a, c, from, mid) && Partition(b, d, mid, upto)
    ensures Partition(a + b, c + d, from, upto)
  {
    AscendingConcat(a, b, from, mid, upto);
  }

  lemma {:induction false} ResultsOfStmt(st: Stmt, vars: nat)
    ensures Partition(Results(CompileStmt(st, vars).0), Defined(st, vars), vars, vars + Taken(st))
    decreases st, 0
  {
    hide CompileExpr, CompileTest, CompileBlock, Calls;
    match st
    case Define =>
    case DefineVariable =>
    case Eval(e) => ResultsOfExpr(e, vars);
    case Set(dst, src) => ResultsOfTest(TestSet(dst, src), vars);
    case If(want, test, body) =>
      ResultsOfBlock(body, vars + Calls(Source(test)));
      ResultsOfIf(want, test, body, vars);
  }

  lemma ResultsOfIf(want: bool, test: Test, body: seq<Stmt>, vars: nat)
    requires var vars1 := vars + Calls(Source(test));
      Partition(Results(CompileBlock(body, vars1).0), DefinedIn(body, vars1), vars1, vars1 + TakenIn(body))
    ensures var st := If(want, test, body);
      Partition(Results(CompileStmt(st, vars).0), Defined(st, vars), vars, vars + Taken(st))
  {
    hide CompileTest, CompileBlock, Calls, TakenIn, Results, DefinedIn, Source;
    NamesTest(test, vars);
    ResultsOfTest(test, vars);
    var c := CompileTest(test, vars);
    var acts := CompileBlock(body, c.vars).0;
    var branch := Branch(want, c.thing, acts);
    ResultsConcat(c.acts, [branch]);
    ResultsOne(branch);
    PartitionConcat(Results(c.acts), [], Results(acts), DefinedIn(body, c.vars), vars, c.vars, c.vars + TakenIn(body));
    assert [] + DefinedIn(body, c.vars) == DefinedIn(body, c.vars);
  }

  /** No two calls of a script share a result variable, no call stores into a variable that was defined by name, and
      all variables are below the counter. */
  lemma {:induction false} ResultsOfBlock(ss: seq<Stmt>, vars: nat)
    ensures Partition(Results(CompileBlock(ss, vars).0), DefinedIn(ss, vars), vars, vars + TakenIn(ss))
    decreases ss, 1
  {
    hide CompileBlock, CompileStmt, TakenIn, Taken, DefinedIn, Defined, Results, Partition;
    if ss == [] {
      NoStmts(vars);
    } else {
      var n := |ss| - 1;
      var vars1 := vars + TakenIn(ss[..n]);
      ResultsOfBlock(ss[..n], vars);
      ResultsOfStmt(ss[n], vars1);
      LastStmt(ss, vars);
      PartitionOfActs(CompileBlock(ss[..n], vars).0, DefinedIn(ss[..n], vars), CompileStmt(ss[n], vars1).0,
                      Defined(ss[n], vars1), vars, vars1, vars1 + Taken(ss[n]));
    }
  }

  lemma NoStmts(vars: nat)
    ensures Partition(Results(CompileBlock([], vars).0), DefinedIn([], vars), vars, vars + TakenIn([]))
  {
  }

  lemma LastStmt(ss: seq<Stmt>, vars: nat)
    requires ss != []
    ensures var n := |ss| - 1; var vars1 := vars + TakenIn(ss[..n]);
      && CompileBlock(ss, vars).0 == CompileBlock(ss[..n], vars).0 + CompileStmt(ss[n], vars1).0
      && TakenIn(ss) == TakenIn(ss[..n]) + Taken(ss[n])
      && DefinedIn(ss, vars) == DefinedIn(ss[..n], vars) + Defined(ss[n], vars1)
  {
    hide CompileStmt, Taken, Defined;
    NamesBlock(ss[..|ss|-1], vars);
  }

  lemma PartitionOfActs(a: seq<Action>, c: seq<nat>, b: seq<Action>, d: seq<nat>, from: nat, mid: nat, upto: nat)
    requires Partition(Results(a), c, from, mid) && Partition(Results(b), d, mid, upto)
    ensures Partition(Results(a + b), c + d, from, upto)
  {
    hide Results, Partition;
    ResultsConcat(a, b);
    PartitionConcat(Results(a), c, Results(b), d, from, mid, upto);
  }

  // ---- compilation preserves meaning ----

  lemma {:induction false} ExecConcat<S>(m: Machine<S>, a: seq<Action>, b: seq<Action>, s: S)
    ensures Exec(m, a + b, s) ==
      var r := Exec(m, a, s); if r.Halt? then r else Exec(m, b, r.state)
    decreases |a|
  {
    if a == [] {
      assert a + b == b;
    } else {
      assert (a + b)[1..] == a[1..] + b;
      var r := ExecAction(m, a[0], s);
      if r.Continue? { ExecConcat(m, a[1..], b, r.state); }
    }
  }

  lemma ExecOne<S>(m: Machine<S>, a: Action, s: S)
    ensures Exec(m, [a], s) == ExecAction(m, a, s)
  {
    assert [a][1..] == [];
  }

  lemma {:induction false} ExprMeaning<S>(m: Machine<S>, e: Expr, vars: nat, s: S)
    ensures Exec(m, CompileExpr(e, vars).acts, s) == EvalExpr(m, e, vars, s)
    decreases e, 0
  {
    match e
    case Leaf(_) =>
    case Call(func, args) =>
      NamesArgs(args, vars);
      ArgsMeaning(m, args, vars, s);
      var (acts, things, vars1) := CompileArgs(args, vars);
      var a := Run(func, things, Variable(vars1));
      ExecConcat(m, acts, [a], s);
      var r := EvalArgs(m, args, vars, s);
      ExecOne(m, a, r.state);
  }

  lemma {:induction false} ArgsMeaning<S>(m: Machine<S>, args: seq<Expr>, vars: nat, s: S)
    ensures Exec(m, CompileArgs(args, vars).0, s) == EvalArgs(m, args, vars, s)
    decreases args, 1
  {
    if args != [] {
      var n := |args| - 1;
      NamesArgs(args[..n], vars);
      ArgsMeaning(m, args[..n], vars, s);
      var (acts, things, vars1) := CompileArgs(args[..n], vars);
      ExecConcat(m, acts, CompileExpr(args[n], vars1).acts, s);
      ExprMeaning(m, args[n], vars1, EvalArgs(m, args[..n], vars, s).state);
    }
  }

  lemma TestMeaning<S>(m: Machine<S>, t: Test, vars: nat, s: S)
    ensures Exec(m, CompileTest(t, vars).acts, s) == EvalTest(m, t, vars, s)
  {
    match t
    case TestExpr(e) => ExprMeaning(m, e, vars, s);
    case TestSet(dst, src) =>
      NamesExpr(src, vars);
      ExprMeaning(m, src, vars, s);
      var c := CompileExpr(src, vars);
      var a := Assign(dst, c.thing);
      ExecConcat(m, c.acts, [a], s);
      ExecOne(m, a, EvalExpr(m, src, vars, s).state);
  }

  lemma {:induction false} StmtMeaning<S>(m: Machine<S>, st: Stmt, vars: nat, s: S)
    ensures Exec(m, CompileStmt(st, vars).0, s) == EvalStmt(m, st, vars, s)
    decreases st, 0
  {
    match st
    case Define =>
    case DefineVariable =>
    case Eval(e) => ExprMeaning(m, e, vars, s);
    case Set(dst, src) => TestMeaning(m, TestSet(dst, src), vars, s);
    case If(want, test, body) =>
      NamesTest(test, vars);
      TestMeaning(m, test, vars, s);
      var c := CompileTest(test, vars);
      var r := EvalTest(m, test, vars, s);
      var (acts, vars1) := CompileBlock(body, c.vars);
      ExecConcat(m, c.acts, [Branch(want, c.thing, acts)], s);
      ExecOne(m, Branch(want, c.thing, acts), r.state);
      BlockMeaning(m, body, c.vars, r.state);
  }

  /** Running the compiled block is evaluating the statements. */
  lemma {:induction false} BlockMeaning<S>(m: Machine<S>, ss: seq<Stmt>, vars: nat, s: S)
    ensures Exec(m, CompileBlock(ss, vars).0, s) == EvalBlock(m, ss, vars, s)
    decreases ss, 1
  {
    if ss != [] {
      var n := |ss| - 1;
      NamesBlock(ss[..n], vars);
      BlockMeaning(m, ss[..n], vars, s);
      var (acts, vars1) := CompileBlock(ss[..n], vars);
      ExecConcat(m, acts, CompileStmt(ss[n], vars1).0, s);
      StmtMeaning(m, ss[n], vars1, EvalBlock(m, ss[..n], vars, s).state);
    }
  }

  // ---- the frame stack ----

  /** A block under execution and the index of its next action. */
  datatype Frame = Frame(acts: seq<Action>, next: nat)

  ghost predicate FramesOk(frames: seq<Frame>) {
    forall f :: 0 <= f < |frames| ==> frames[f].next <= |frames[f].acts|
  }

  /** Finishing the innermost frame and then the ones around it. */
  ghost function ExecFrames<S>(m: Machine<S>, frames: seq<Frame>, s: S): Step<S>
    requires FramesOk(frames)
  {
    if frames == [] then Continue(s)
    else
      var top := frames[|frames|-1];
      var r := Exec(m, top.acts[top.next..], s);
      if r.Halt? then r else ExecFrames(m, frames[..|frames|-1], r.state)
  }

  ghost function Weight(acts: seq<Action>): nat
    decreases acts
  {
    if acts == [] then 0
    else (if acts[0].Branch? then 2 + Weight(acts[0].body) else 1) + Weight(acts[1..])
  }

  ghost function Remaining(frames: seq<Frame>): nat
    requires FramesOk(frames)
  {
    if frames == [] then 0
    else
      var top := frames[|frames|-1];
      1 + Weight(top.acts[top.next..]) + Remaining(frames[..|frames|-1])
  }

  /** One action of the innermost frame is consumed. */
  lemma Advance<S>(m: Machine<S>, outer: seq<Frame>, acts: seq<Action>, next: nat, s: S)
    requires next < |acts| && FramesOk(outer)
    ensures var a, here, there := acts[next], outer + [Frame(acts, next)], outer + [Frame(acts, next + 1)];
      && FramesOk(here) && FramesOk(there)
      && Remaining(there) + (if a.Branch? then 2 + Weight(a.body) else 1) == Remaining(here)
      && ExecFrames(m, here, s) == (
           var r := Exec(m, [a], s);
           if r.Halt? then r else ExecFrames(m, there, r.state))
  {
    var rest := acts[next..];
    assert rest == [acts[next]] + acts[next + 1..] && rest[1..] == acts[next + 1..];
    ExecConcat(m, [acts[next]], acts[next + 1..], s);
    assert (outer + [Frame(acts, next)])[..|outer|] == outer;
    assert (outer + [Frame(acts, next + 1)])[..|outer|] == outer;
  }

  /** Entering a block. */
  lemma Enter<S>(m: Machine<S>, outer: seq<Frame>, body: seq<Action>, s: S)
    requires FramesOk(outer)
    ensures var inner := outer + [Frame(body, 0)];
      && FramesOk(inner)
      && Remaining(inner) == 1 + Weight(body) + Remaining(outer)
      && ExecFrames(m, inner, s) == (
           var r := Exec(m, body, s);
           if r.Halt? then r else ExecFrames(m, outer, r.state))
  {
    assert body[0..] == body;
    assert (outer + [Frame(body, 0)])[..|outer|] == outer;
  }

  /** Leaving a finished block. */
  lemma Leave<S>(m: Machine<S>, outer: seq<Frame>, acts: seq<Action>, s: S)
    requires FramesOk(outer)
    ensures var here := outer + [Frame(acts, |acts|)];
      && FramesOk(here) && Remaining(here) > Remaining(outer)
      && ExecFrames(m, here, s) == ExecFrames(m, outer, s)
  {
    assert acts[|acts|..] == [];
    assert (outer + [Frame(acts, |acts|)])[..|outer|] == outer;
  }

  lemma FramesOuter(frames: seq<Frame>)
    requires FramesOk(frames) && frames != []
    ensures var n := |frames| - 1; frames == frames[..n] + [frames[n]] && FramesOk(frames[..n])
    ensures frames[|frames|-1].next <= |frames[|frames|-1].acts|
  {
  }

  /** rewrite_func_ablock: runs a block with an explicit stack of frames; it always terminates. */
  method RunBlock<S>(m: Machine<S>, main: seq<Action>, s0: S) returns (r: Step<S>)
    ensures r == Exec(m, main, s0)
  {
    hide Exec, ExecFrames, Remaining, Weight, FramesOk;
    var frames := [Frame(main, 0)];
    var s := s0;
    NoFrames(m, Exec(m, main, s0).state);
    Enter(m, [], main, s0);
    assert [] + frames == frames;
    while frames != []
      invariant FramesOk(frames)
      invariant ExecFrames(m, frames, s) == Exec(m, main, s0)
      decreases Remaining(frames)
    {
      FramesOuter(frames);
      var n := |frames| - 1;
      var top := frames[n];
      var outer := frames[..n];
      if top.next < |top.acts| {
        var action := top.acts[top.next];
        Advance(m, outer, top.acts, top.next, s);
        ExecOne(m, action, s);
        frames := outer + [Frame(top.acts, top.next + 1)];
        match action
        case Run(func, params, target) =>
          var step := m.run(func, params, target, s);
          if step.Halt? { return step; }
          s := step.state;
        case Assign(target, from) =>
          s := m.assign(target, from, s);
        case Branch(want, test, body) =>
          if m.isSet(test, s) == want {
            Enter(m, frames, body, s);
            frames := frames + [Frame(body, 0)];
          } else {
            s := m.untaken(test, s);
          }
      } else {
        Leave(m, outer, top.acts, s);
        frames := outer;
      }
    }
    NoFrames(m, s);
    r := Continue(s);
  }

  lemma NoFrames<S>(m: Machine<S>, s: S)
    ensures FramesOk([]) && ExecFrames(m, [], s) == Continue(s)
  {
  }

  /** Compiling a script with the grammar's actions and running it on the frame stack is evaluating it. The interpreter
      allocates one slot for every variable the script takes. */
  method CompileAndRun<S>(m: Machine<S>, script: seq<Stmt>, s0: S) returns (r: Step<S>, slots: nat)
    ensures r == EvalBlock(m, script, 0, s0)
    ensures slots == TakenIn(script)
  {
    var parser := new Parser();
    var main := parser.ReduceBlock(script);
    slots := parser.variables;
    r := RunBlock(m, main, s0);
    BlockMeaning(m, script, 0, s0);
    NamesBlock(script, 0);
  }
}
