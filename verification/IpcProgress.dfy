/** The ring does not deadlock: whoever waits, waits for a process that can move. */
module IpcProgress {
  import opened IpcShmem
  import opened IpcSafety
  import opened IpcRuns

  // ---- every block under way has somebody who takes care of it ----

  /** Ways to be responsible for a block: changing it, awaiting its answer, posting its done-token, or having taken
      that token. */
  datatype Role = Owner | Awaiter | Poster | Reader

  function BlockOf(pc: Pc, role: Role): int {
    match role
    case Owner => Owned(pc)
    case Awaiter => Awaited(pc)
    case Poster => Posted(pc)
    case Reader => Woken(pc)
  }

  ghost predicate Has(procs: seq<Pc>, role: Role, b: int) {
    exists p :: 0 <= p < |procs| && BlockOf(procs[p], role) == b
  }

  ghost predicate Others(procs: seq<Pc>, p: nat, role: Role, b: int) {
    exists q :: 0 <= q < |procs| && q != p && BlockOf(procs[q], role) == b
  }

  lemma HasSplit(procs: seq<Pc>, p: nat, pc: Pc, role: Role, b: int)
    requires p < |procs|
    ensures Has(procs[p := pc], role, b) <==> Others(procs, p, role, b) || BlockOf(pc, role) == b
  {
    var after := procs[p := pc];
    if Others(procs, p, role, b) {
      var q :| 0 <= q < |procs| && q != p && BlockOf(procs[q], role) == b;
      assert BlockOf(after[q], role) == b;
    }
    if BlockOf(pc, role) == b { assert BlockOf(after[p], role) == b; }
  }

  /** A block that is claimed has an owner; one whose answer is asked for has somebody who awaits it; and an answer that
      is there has been announced, is about to be, or has been noticed. */
  predicate Cared(block: Block, owner: bool, awaiter: bool, poster: bool, reader: bool) {
    && (block.status in {Writing, Executing} ==> owner)
    && (block.status in {Written, Executing, ExecDone} && block.returnResult ==> awaiter)
    && (block.status == ExecDone ==> block.returnResult && (block.semDone == 1 || poster || reader))
  }

  ghost predicate CaredAt(s: State, b: nat)
    requires b < |s.blocks|
  {
    Cared(s.blocks[b], Has(s.procs, Owner, b), Has(s.procs, Awaiter, b), Has(s.procs, Poster, b),
          Has(s.procs, Reader, b))
  }

  ghost predicate AllCared(s: State) {
    forall b :: 0 <= b < |s.blocks| ==> CaredAt(s, b)
  }

  /** A step at a block hands its care on; `o`, `a`, `d` and `w` tell what other processes do for it. */
  lemma ActCares(pc: Pc, block: Block, semFree: nat, semWritten: nat, nextId: nat, c: Choice,
                 o: bool, a: bool, d: bool, w: bool)
    requires Target(pc) >= 0 && LocalTo(pc, block) && TokenOk(block)
    requires var b := Target(pc);
      Cared(block, o || Owned(pc) == b, a || Awaited(pc) == b, d || Posted(pc) == b, w || Woken(pc) == b)
    ensures var b, e := Target(pc), Act(pc, block, semFree, semWritten, nextId, c);
      Cared(e.block, o || Owned(e.pc) == b, a || Awaited(e.pc) == b, d || Posted(e.pc) == b, w || Woken(e.pc) == b)
  {
  }

  /** A process takes care of no block but the one it accesses, before and after a step. */
  lemma CaresForTarget(pc: Pc, block: Block, semFree: nat, semWritten: nat, nextId: nat, c: Choice, role: Role, b: nat)
    requires b != Target(pc)
    ensures BlockOf(pc, role) != b
    ensures BlockOf(Act(pc, block, semFree, semWritten, nextId, c).pc, role) != b
  {
  }

  lemma SplitAll(procs: seq<Pc>, p: nat, pc: Pc, b: int)
    requires p < |procs|
    ensures forall role :: Has(procs, role, b) <==> Others(procs, p, role, b) || BlockOf(procs[p], role) == b
    ensures forall role :: Has(procs[p := pc], role, b) <==> Others(procs, p, role, b) || BlockOf(pc, role) == b
  {
    assert procs[p := procs[p]] == procs;
    forall role
      ensures Has(procs, role, b) <==> Others(procs, p, role, b) || BlockOf(procs[p], role) == b
      ensures Has(procs[p := pc], role, b) <==> Others(procs, p, role, b) || BlockOf(pc, role) == b
    {
      HasSplit(procs, p, procs[p], role, b);
      HasSplit(procs, p, pc, role, b);
    }
  }

  lemma KeepsCared(s: State, p: nat, c: Choice, b: nat)
    requires Inv(s) && p < |s.procs| && b < |s.blocks| && CaredAt(s, b)
    ensures CaredAt(Next(s, p, c), b)
  {
    hide Act, Cared, Has, Others;
    var e := TargetsMove(s, p, c);
    var pc := s.procs[p];
    SplitAll(s.procs, p, e.pc, b);
    if Target(pc) == b {
      assert Local(s, pc) && BlockOk(s, s.blocks[b]);
      ActCares(pc, s.blocks[b], s.semFree, s.semWritten, s.nextId, c,
               Others(s.procs, p, Owner, b), Others(s.procs, p, Awaiter, b),
               Others(s.procs, p, Poster, b), Others(s.procs, p, Reader, b));
    } else {
      forall role ensures BlockOf(pc, role) != b && BlockOf(e.pc, role) != b {
        CaresForTarget(pc, Accessed(s, pc), s.semFree, s.semWritten, s.nextId, c, role, b);
      }
    }
  }

  lemma {:induction false} RunCared(run: seq<State>, k: nat)
    requires IsRun(run) && k < |run|
    ensures AllCared(run[k])
  {
    assert IsTrace(run);
    hide Inv, Next;
    if k > 0 {
      RunCared(run, k - 1);
      RunInv(run, k - 1);
      var p, c := RunStep(run, k);
      SameBlocks(run[k-1], p, c);
      forall b | 0 <= b < |run[k].blocks| ensures CaredAt(run[k], b) { KeepsCared(run[k-1], p, c, b); }
    }
  }

  lemma SameBlocks(s: State, p: nat, c: Choice)
    requires p < |s.procs|
    ensures |Next(s, p, c).blocks| == |s.blocks| && |Next(s, p, c).procs| == |s.procs|
  {
  }

  // ---- who can move ----

  /** A step of `p` takes it further. */
  predicate CanMove(s: State, p: nat)
    requires p < |s.procs|
  {
    Next(s, p, ASYNC).procs[p] != s.procs[p]
  }

  /** In front of a semaphore, or without a request. */
  predicate Rests(pc: Pc) {
    pc.Idle? || pc.WaitFree? || pc.WaitDone? || pc.WaitWritten?
  }

  /** Somebody goes on with a request that is under way. */
  predicate Progress(s: State) {
    exists p :: 0 <= p < |s.procs| && !s.procs[p].Idle? && CanMove(s, p)
  }

  /** Only an empty semaphore keeps a process from moving. */
  lemma OnlyWaitersStay(s: State, p: nat)
    requires Inv(s) && p < |s.procs| && !CanMove(s, p)
    ensures Rests(s.procs[p])
    ensures s.procs[p].WaitFree? ==> s.semFree == 0
    ensures s.procs[p].WaitWritten? ==> s.semWritten == 0
    ensures s.procs[p].WaitDone? ==> s.procs[p].block < |s.blocks| && s.blocks[s.procs[p].block].semDone == 0
  {
    assert Local(s, s.procs[p]);
  }

  predicate IsListener(pc: Pc) {
    pc.WaitWritten? || pc.ScanWritten? || pc.Execute? || pc.ReadMode? || pc.Finish? || pc.PostDone? || pc.PostFreed?
  }

  lemma {:induction false} NobodyUnderWay(procs: seq<Pc>, st: Status)
    requires forall p :: 0 <= p < |procs| ==> Rests(procs[p])
    ensures Scanners(procs, st, 0) == 0 && Posts(procs, st) == 0
  {
    if procs != [] {
      NobodyUnderWay(procs[..|procs|-1], st);
    }
  }

  lemma {:induction false} NoneCounted(blocks: seq<Block>, st: Status, from: nat, b: nat)
    requires from <= b < |blocks| && BlocksFrom(blocks, st, from) == 0
    ensures blocks[b].status != st
    decreases b - from
  {
    if from < b {
      NoneCounted(blocks, st, from + 1, b);
    }
  }

  /** While nobody moves, no block is claimed, and no answer has been left unannounced. */
  lemma StuckBlock(s: State, b: nat)
    requires Inv(s) && AllCared(s) && b < |s.blocks| && !Progress(s)
    ensures s.blocks[b].status in {Free, Written}
  {
    hide CanMove;
    assert CaredAt(s, b) && BlockOk(s, s.blocks[b]);
    AllRest(s);
    assert !Has(s.procs, Owner, b) && !Has(s.procs, Poster, b) && !Has(s.procs, Reader, b);
    if s.blocks[b].status == ExecDone {
      var p :| 0 <= p < |s.procs| && BlockOf(s.procs[p], Awaiter) == b;
      OnlyWaitersStay(s, p);
      assert false;
    }
  }

  lemma StuckStatus(s: State, b: nat, st: Status)
    requires Inv(s) && b < |s.blocks| && forall p :: 0 <= p < |s.procs| ==> Rests(s.procs[p])
    requires (st == Free && s.semFree == 0) || (st == Written && s.semWritten == 0)
    ensures s.blocks[b].status != st
  {
    NobodyUnderWay(s.procs, st);
    assert Tokens(s, st);
    NoneCounted(s.blocks, st, 0, b);
  }

  lemma AllRest(s: State)
    requires Inv(s) && !Progress(s)
    ensures forall p :: 0 <= p < |s.procs| ==> Rests(s.procs[p])
  {
    hide CanMove, Inv;
    forall p: nat | p < |s.procs| ensures Rests(s.procs[p]) {
      if !s.procs[p].Idle? { OnlyWaitersStay(s, p); }
    }
  }

  /** With a listener, a client that has a request under way does not wait for nothing. */
  lemma WaitsForSomebody(s: State, listener: nat, client: nat)
    requires Inv(s) && AllCared(s) && |s.blocks| > 0
    requires listener < |s.procs| && IsListener(s.procs[listener])
    requires client < |s.procs| && !IsListener(s.procs[client]) && !s.procs[client].Idle?
    ensures Progress(s)
  {
    hide CanMove, Inv;
    if !Progress(s) {
      AllRest(s);
      OnlyWaitersStay(s, listener);
      OnlyWaitersStay(s, client);
      var b: nat := if s.procs[client].WaitFree? then 0 else s.procs[client].block;
      StuckBlock(s, b);
      StuckStatus(s, b, Written);
      if s.procs[client].WaitFree? { StuckStatus(s, b, Free); } else { AwaitedIsTaken(s, client); }
      assert false;
    }
  }

  lemma AwaitedIsTaken(s: State, client: nat)
    requires Inv(s) && client < |s.procs| && s.procs[client].WaitDone?
    ensures s.procs[client].block < |s.blocks| && s.blocks[s.procs[client].block].status != Free
  {
    assert Local(s, s.procs[client]);
  }

  /** Clients stay clients, listeners stay listeners. */
  lemma {:induction false} RolesStay(run: seq<State>, k: nat, p: nat)
    requires IsRun(run) && k < |run| && p < |run[0].procs|
    ensures p < |run[k].procs| && (IsListener(run[k].procs[p]) <==> run[0].procs[p] == WaitWritten)
  {
    assert IsTrace(run);
    if k > 0 {
      hide Inv, Next;
      RolesStay(run, k - 1, p);
      RunInv(run, k - 1);
      var q, c := RunStep(run, k);
      RoleStays(run[k-1], q, c, p);
    }
  }

  lemma RoleStays(s: State, q: nat, c: Choice, p: nat)
    requires Inv(s) && q < |s.procs| && p < |s.procs|
    ensures |Next(s, q, c).procs| == |s.procs|
    ensures IsListener(Next(s, q, c).procs[p]) <==> IsListener(s.procs[p])
  {
    hide Act, IsListener;
    var e := TargetsMove(s, q, c);
    assert Local(s, s.procs[q]);
    ActRole(s.procs[q], Accessed(s, s.procs[q]), s.semFree, s.semWritten, s.nextId, c);
  }

  lemma ActRole(pc: Pc, block: Block, semFree: nat, semWritten: nat, nextId: nat, c: Choice)
    requires LocalTo(pc, block) && TokenOk(block)
    ensures IsListener(Act(pc, block, semFree, semWritten, nextId, c).pc) <==> IsListener(pc)
  {
  }

  /** With a block and a listener, in every state of every run: while a client has a request under way, somebody can go
      on with one, whether or not new requests are made. A client without a request can make one. */
  lemma NoDeadlock(run: seq<State>, k: nat, client: nat, listener: nat)
    requires IsRun(run) && k < |run| && |run[0].blocks| > 0
    requires client < |run[0].procs| && run[0].procs[client] == Idle
    requires listener < |run[0].procs| && run[0].procs[listener] == WaitWritten
    ensures client < |run[k].procs|
    ensures if run[k].procs[client].Idle? then CanMove(run[k], client) else Progress(run[k])
  {
    hide Inv, AllCared, Progress;
    RunInv(run, k);
    RunCared(run, k);
    RolesStay(run, k, client);
    RolesStay(run, k, listener);
    BlocksStay(run, k);
    if !run[k].procs[client].Idle? { WaitsForSomebody(run[k], listener, client); }
  }

  lemma {:induction false} BlocksStay(run: seq<State>, k: nat)
    requires IsTrace(run) && k < |run|
    ensures |run[k].blocks| == |run[0].blocks|
  {
    if k > 0 {
      BlocksStay(run, k - 1);
      var p, c := RunStep(run, k);
      SameBlocks(run[k-1], p, c);
    }
  }
}
