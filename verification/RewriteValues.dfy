/** What a script computes, without any names of intermediate results: over a store that keeps what is put into it,
    compiled scripts do what their syntax trees denote. */
module RewriteValues {
  import opened Rewrite

  type Env = map<Thing, int>

  /** What things hold; 0 is "not set". */
  function Get(env: Env, t: Thing): int { if t in env then env[t] else 0 }

  function GetAll(env: Env, things: seq<Thing>): (vs: seq<int>)
    ensures |vs| == |things|
  {
    seq(|things|, i requires 0 <= i < |things| => Get(env, things[i]))
  }

  datatype Store<W> = Store(env: Env, world: W)

  /** A call computes a value from the values of its operands, and may change the rest of the world; a target may
      convert what is assigned to it. */
  datatype Calling<!W> = Calling(call: (Func, seq<int>, W) -> (int, W), convert: (Thing, int) -> int)

  /** The machine that keeps results where they are put. */
  function Keeping<W>(f: Calling<W>): Machine<Store<W>> {
    Machine(
      (func, things, target, s: Store<W>) =>
        Continue(Stored(target, f.call(func, GetAll(s.env, things), s.world), s.env)),
      (target, from, s: Store<W>) => s.(env := s.env[target := f.convert(target, Get(s.env, from))]),
      (t, s: Store<W>) => Get(s.env, t) != 0,
      (t, s: Store<W>) => s)
  }

  function Stored<W>(target: Thing, r: (int, W), env: Env): Store<W> {
    Store(env[target := r.0], r.1)
  }

  // ---- denotations ----

  function Value<W>(f: Calling<W>, e: Expr, env: Env, w: W): (int, W)
    decreases e, 0
  {
    match e
    case Leaf(t) => (Get(env, t), w)
    case Call(func, args) => var r := Values(f, args, env, w); f.call(func, r.0, r.1)
  }

  function Values<W>(f: Calling<W>, args: seq<Expr>, env: Env, w: W): (r: (seq<int>, W))
    decreases args, 1
  {
    if args == [] then ([], w)
    else
      var n := |args| - 1;
      var r := Values(f, args[..n], env, w);
      var last := Value(f, args[n], env, r.1);
      (r.0 + [last.0], last.1)
  }

  function Denote<W>(f: Calling<W>, st: Stmt, env: Env, w: W): Store<W>
    decreases st, 0
  {
    match st
    case Define => Store(env, w)
    case DefineVariable => Store(env, w)
    case Eval(e) => Store(env, Value(f, e, env, w).1)
    case Set(dst, src) => Assigned(f, TestSet(dst, src), env, w)
    case If(want, test, body) =>
      var s := Assigned(f, test, env, w);
      if (TestValue(f, test, env, w) != 0) == want then DenoteBlock(f, body, s.env, s.world) else s
  }

  /** After a test or an assignment: the target, if there is one, holds what it makes of the value of the source. */
  function Assigned<W>(f: Calling<W>, t: Test, env: Env, w: W): Store<W> {
    var v := Value(f, Source(t), env, w);
    Store(if t.TestSet? then env[t.dst := f.convert(t.dst, v.0)] else env, v.1)
  }

  /** An IF looks at the value of its expression, or at what the target of its assignment holds. */
  function TestValue<W>(f: Calling<W>, t: Test, env: Env, w: W): int {
    var v := Value(f, Source(t), env, w).0;
    if t.TestSet? then f.convert(t.dst, v) else v
  }

  function DenoteBlock<W>(f: Calling<W>, ss: seq<Stmt>, env: Env, w: W): Store<W>
    decreases ss, 1
  {
    if ss == [] then Store(env, w)
    else
      var n := |ss| - 1;
      var s := DenoteBlock(f, ss[..n], env, w);
      Denote(f, ss[n], s.env, s.world)
  }

  // ---- scripts that do not name result variables ----

  /** `t` is not one of the variables in `temps`. */
  predicate Clean(t: Thing, temps: set<nat>) { t.Variable? ==> t.id !in temps }

  predicate CleanExpr(e: Expr, temps: set<nat>) {
    match e
    case Leaf(t) => Clean(t, temps)
    case Call(_, args) => forall i :: 0 <= i < |args| ==> CleanExpr(args[i], temps)
  }

  predicate CleanTest(t: Test, temps: set<nat>) {
    CleanExpr(Source(t), temps) && (t.TestSet? ==> Clean(t.dst, temps))
  }

  predicate CleanStmt(st: Stmt, temps: set<nat>) {
    match st
    case Define => true
    case DefineVariable => true
    case Eval(e) => CleanExpr(e, temps)
    case Set(dst, src) => CleanTest(TestSet(dst, src), temps)
    case If(_, test, body) => CleanTest(test, temps) && forall i :: 0 <= i < |body| ==> CleanStmt(body[i], temps)
  }

  predicate CleanBlock(ss: seq<Stmt>, temps: set<nat>) {
    forall i :: 0 <= i < |ss| ==> CleanStmt(ss[i], temps)
  }

  predicate Among(i: nat, from: nat, upto: nat) { from <= i < upto }

  function Range(from: nat, upto: nat): set<nat> { set i: nat | i < upto && Among(i, from, upto) }

  lemma RangeWithin(a: nat, b: nat, c: nat, d: nat)
    requires c <= a && b <= d
    ensures Range(a, b) <= Range(c, d)
  {
    forall i | i in Range(a, b) ensures i in Range(c, d) { assert Among(i, a, b) && Among(i, c, d); }
  }

  lemma RangesApart(a: nat, b: nat, c: nat)
    ensures Range(a, b) !! Range(b, c)
  {
    forall i | i in Range(a, b) ensures i !in Range(b, c) { assert Among(i, a, b); }
  }

  /** The result variables of a statement reached at `vars`. */
  function Temps(st: Stmt, vars: nat): set<nat>
    decreases st, 0
  {
    match st
    case Define => {}
    case DefineVariable => {}
    case Eval(e) => Range(vars, vars + Calls(e))
    case Set(_, src) => Range(vars, vars + Calls(src))
    case If(_, test, body) =>
      Range(vars, vars + Calls(Source(test))) + TempsIn(body, vars + Calls(Source(test)))
  }

  function TempsIn(ss: seq<Stmt>, vars: nat): set<nat>
    decreases ss, 1
  {
    if ss == [] then {}
    else
      var n := |ss| - 1;
      TempsIn(ss[..n], vars) + Temps(ss[n], vars + TakenIn(ss[..n]))
  }

  /** Variables that a script defines by name are not among its result variables. */
  lemma {:induction false} NamedAreClean(st: Stmt, vars: nat)
    ensures Temps(st, vars) <= Range(vars, vars + Taken(st))
    ensures forall d :: d in Defined(st, vars) ==> d in Range(vars, vars + Taken(st)) && d !in Temps(st, vars)
    decreases st, 0
  {
    match st
    case DefineVariable => assert Among(vars, vars, vars + 1);
    case If(_, test, body) =>
      var mid, end := vars + Calls(Source(test)), vars + Taken(st);
      NamedAreCleanIn(body, mid);
      RangeWithin(vars, mid, vars, end);
      RangeWithin(mid, end, vars, end);
      RangesApart(vars, mid, end);
    case _ =>
  }

  lemma {:induction false} NamedAreCleanIn(ss: seq<Stmt>, vars: nat)
    ensures TempsIn(ss, vars) <= Range(vars, vars + TakenIn(ss))
    ensures forall d :: d in DefinedIn(ss, vars) ==> d in Range(vars, vars + TakenIn(ss)) && d !in TempsIn(ss, vars)
    decreases ss, 1
  {
    if ss != [] {
      var n := |ss| - 1;
      var mid, end := vars + TakenIn(ss[..n]), vars + TakenIn(ss);
      NamedAreCleanIn(ss[..n], vars);
      NamedAreClean(ss[n], mid);
      RangeWithin(vars, mid, vars, end);
      RangeWithin(mid, end, vars, end);
      RangesApart(vars, mid, end);
    }
  }

  ghost predicate Agree(env: Env, env': Env, temps: set<nat>) {
    forall t :: Clean(t, temps) ==> Get(env, t) == Get(env', t)
  }

  /** Only the variables from `from` up to `upto` may differ. */
  ghost predicate SameBut(env: Env, env': Env, from: nat, upto: nat) {
    forall t: Thing :: !Within(t, from, upto) ==> Get(env, t) == Get(env', t)
  }

  predicate Within(t: Thing, from: nat, upto: nat) { t.Variable? && from <= t.id < upto }

  lemma SameButAgrees(env: Env, env': Env, from: nat, upto: nat, temps: set<nat>)
    requires SameBut(env, env', from, upto) && Range(from, upto) <= temps
    ensures Agree(env, env', temps)
  {
    forall t | Clean(t, temps) ensures Get(env, t) == Get(env', t) {
      if Within(t, from, upto) { assert Among(t.id, from, upto); }
      assert !Within(t, from, upto);
    }
  }

  // ---- expressions ----

  lemma {:induction false} ValueAgrees<W>(f: Calling<W>, e: Expr, env: Env, env': Env, w: W, temps: set<nat>)
    requires CleanExpr(e, temps) && Agree(env, env', temps)
    ensures Value(f, e, env, w) == Value(f, e, env', w)
    decreases e, 0
  {
    match e
    case Leaf(t) =>
    case Call(_, args) => ValuesAgree(f, args, env, env', w, temps);
  }

  lemma {:induction false} ValuesAgree<W>(f: Calling<W>, args: seq<Expr>, env: Env, env': Env, w: W, temps: set<nat>)
    requires (forall i :: 0 <= i < |args| ==> CleanExpr(args[i], temps)) && Agree(env, env', temps)
    ensures Values(f, args, env, w) == Values(f, args, env', w)
    decreases args, 1
  {
    if args != [] {
      var n := |args| - 1;
      ValuesAgree(f, args[..n], env, env', w, temps);
      ValueAgrees(f, args[n], env, env', Values(f, args[..n], env, w).1, temps);
    }
  }

  /** The things of operands are their leaves, or variables of the calls in them. */
  lemma {:induction false} ThingsPlaced(args: seq<Expr>, vars: nat, temps: set<nat>)
    requires forall i :: 0 <= i < |args| ==> CleanExpr(args[i], temps)
    ensures forall i :: 0 <= i < |args| ==>
      Clean(ThingsOf(args, vars)[i], temps) || Within(ThingsOf(args, vars)[i], vars, vars + CallsIn(args))
  {
    if args != [] {
      var n := |args| - 1;
      ThingsPlaced(args[..n], vars, temps);
      LastThing(args, vars);
    }
  }

  /** Running an expression leaves its value where its thing says, and touches nothing but its own variables. */
  ghost predicate Computes<W>(f: Calling<W>, e: Expr, vars: nat, s: Store<W>) {
    var r, v := EvalExpr(Keeping(f), e, vars, s), Value(f, e, s.env, s.world);
    && r.Continue? && r.state.world == v.1 && Get(r.state.env, ThingOf(e, vars)) == v.0
    && SameBut(s.env, r.state.env, vars, vars + Calls(e))
  }

  ghost predicate ComputesAll<W>(f: Calling<W>, args: seq<Expr>, vars: nat, s: Store<W>) {
    var r, v := EvalArgs(Keeping(f), args, vars, s), Values(f, args, s.env, s.world);
    && r.Continue? && r.state.world == v.1 && GetAll(r.state.env, ThingsOf(args, vars)) == v.0
    && SameBut(s.env, r.state.env, vars, vars + CallsIn(args))
  }

  lemma {:induction false} ExprComputes<W>(f: Calling<W>, e: Expr, vars: nat, s: Store<W>, temps: set<nat>)
    requires CleanExpr(e, temps) && Range(vars, vars + Calls(e)) <= temps
    ensures Computes(f, e, vars, s)
    decreases e, 0
  {
    match e
    case Leaf(_) =>
    case Call(func, args) => ArgsCompute(f, args, vars, s, temps);
  }

  lemma {:induction false} ArgsCompute<W>(f: Calling<W>, args: seq<Expr>, vars: nat, s: Store<W>, temps: set<nat>)
    requires forall i :: 0 <= i < |args| ==> CleanExpr(args[i], temps)
    requires Range(vars, vars + CallsIn(args)) <= temps
    ensures ComputesAll(f, args, vars, s)
    decreases args, 1
  {
    if args != [] {
      var n := |args| - 1;
      var vars1 := vars + CallsIn(args[..n]);
      ArgsCompute(f, args[..n], vars, s, temps);
      var s1 := EvalArgs(Keeping(f), args[..n], vars, s).state;
      ExprComputes(f, args[n], vars1, s1, temps);
      SameButAgrees(s.env, s1.env, vars, vars1, temps);
      ValueAgrees(f, args[n], s.env, s1.env, s1.world, temps);
      LastOperand(f, args, vars, s, temps);
    } else {
      assert ThingsOf(args, vars) == [];
    }
  }

  lemma LastOperand<W>(f: Calling<W>, args: seq<Expr>, vars: nat, s: Store<W>, temps: set<nat>)
    requires args != [] && (forall i :: 0 <= i < |args| ==> CleanExpr(args[i], temps))
    requires Range(vars, vars + CallsIn(args)) <= temps
    requires var head, last := args[..|args|-1], args[|args|-1];
      var s1 := EvalArgs(Keeping(f), head, vars, s).state;
      && ComputesAll(f, head, vars, s) && Computes(f, last, vars + CallsIn(head), s1)
      && Value(f, last, s.env, s1.world) == Value(f, last, s1.env, s1.world)
    ensures ComputesAll(f, args, vars, s)
  {
    var n := |args| - 1;
    var vars1 := vars + CallsIn(args[..n]);
    var s1 := EvalArgs(Keeping(f), args[..n], vars, s).state;
    var s2 := EvalExpr(Keeping(f), args[n], vars1, s1).state;
    hide EvalExpr, Value, Calls, ThingOf, CleanExpr, ThingsOf;
    OperandsKept(args[..n], vars, s1.env, s2.env, vars1 + Calls(args[n]), temps);
    LastThing(args, vars);
    GetAllAppend(s2.env, ThingsOf(args[..n], vars), ThingOf(args[n], vars1));
  }

  lemma GetAllAppend(env: Env, things: seq<Thing>, t: Thing)
    ensures GetAll(env, things + [t]) == GetAll(env, things) + [Get(env, t)]
  {
  }

  /** Evaluating a later operand does not disturb the earlier ones. */
  lemma OperandsKept(args: seq<Expr>, vars: nat, env: Env, env': Env, upto: nat, temps: set<nat>)
    requires forall i :: 0 <= i < |args| ==> CleanExpr(args[i], temps)
    requires SameBut(env, env', vars + CallsIn(args), upto) && Range(vars + CallsIn(args), upto) <= temps
    ensures GetAll(env', ThingsOf(args, vars)) == GetAll(env, ThingsOf(args, vars))
  {
    ThingsPlaced(args, vars, temps);
    forall i | 0 <= i < |args| ensures Get(env', ThingsOf(args, vars)[i]) == Get(env, ThingsOf(args, vars)[i]) {
      assert !Within(ThingsOf(args, vars)[i], vars + CallsIn(args), upto);
    }
  }

  // ---- statements ----

  /** Outside the result variables, running a statement does what the statement denotes. */
  ghost predicate Means<W>(r: Step<Store<W>>, d: Store<W>, temps: set<nat>) {
    r.Continue? && r.state.world == d.world && Agree(r.state.env, d.env, temps)
  }

  /** After a test, its target, if any, holds the value of its source, and the thing looked at holds that value. */
  lemma TestComputes<W>(f: Calling<W>, t: Test, vars: nat, s: Store<W>, env: Env, temps: set<nat>)
    requires CleanTest(t, temps) && Range(vars, vars + Calls(Source(t))) <= temps && Agree(s.env, env, temps)
    ensures var r := EvalTest(Keeping(f), t, vars, s);
      && Means(r, Assigned(f, t, env, s.world), temps)
      && Get(r.state.env, Tested(t, vars)) == TestValue(f, t, env, s.world)
  {
    ExprComputes(f, Source(t), vars, s, temps);
    ValueAgrees(f, Source(t), s.env, env, s.world, temps);
    var s1 := EvalExpr(Keeping(f), Source(t), vars, s).state;
    SameButAgrees(s.env, s1.env, vars, vars + Calls(Source(t)), temps);
  }

  lemma {:induction false} StmtDenotes<W>(f: Calling<W>, st: Stmt, vars: nat, s: Store<W>, env: Env, temps: set<nat>)
    requires CleanStmt(st, temps) && Temps(st, vars) <= temps && Agree(s.env, env, temps)
    ensures Means(EvalStmt(Keeping(f), st, vars, s), Denote(f, st, env, s.world), temps)
    decreases st, 0
  {
    match st
    case Define =>
    case DefineVariable =>
    case Eval(e) => TestComputes(f, TestExpr(e), vars, s, env, temps);
    case Set(dst, src) => TestComputes(f, TestSet(dst, src), vars, s, env, temps);
    case If(want, test, body) =>
      TestComputes(f, test, vars, s, env, temps);
      BlockDenotes(f, body, vars + Calls(Source(test)), EvalTest(Keeping(f), test, vars, s).state,
                   Assigned(f, test, env, s.world).env, temps);
  }

  lemma {:induction false} BlockDenotes<W>(f: Calling<W>, ss: seq<Stmt>, vars: nat, s: Store<W>, env: Env,
                                           temps: set<nat>)
    requires CleanBlock(ss, temps) && TempsIn(ss, vars) <= temps && Agree(s.env, env, temps)
    ensures Means(EvalBlock(Keeping(f), ss, vars, s), DenoteBlock(f, ss, env, s.world), temps)
    decreases ss, 1
  {
    if ss != [] {
      var n := |ss| - 1;
      BlockDenotes(f, ss[..n], vars, s, env, temps);
      var s1 := EvalBlock(Keeping(f), ss[..n], vars, s).state;
      var d := DenoteBlock(f, ss[..n], env, s.world);
      StmtDenotes(f, ss[n], vars + TakenIn(ss[..n]), s1, d.env, temps);
    }
  }

  /** Compiling and running a script that does not name its own result variables leaves everything else as the script
      denotes. */
  method RunDenotes<W>(f: Calling<W>, script: seq<Stmt>, s: Store<W>) returns (r: Step<Store<W>>)
    requires CleanBlock(script, TempsIn(script, 0))
    ensures Means(r, DenoteBlock(f, script, s.env, s.world), TempsIn(script, 0))
  {
    var slots;
    r, slots := CompileAndRun(Keeping(f), script, s);
    BlockDenotes(f, script, 0, s, s.env, TempsIn(script, 0));
  }
}
