/** The promises of the ring over whole runs: any number of processes, any interleaving. */
module IpcRuns {
  import opened IpcShmem
  import opened IpcSafety

  lemma {:induction false} NobodyScans(procs: seq<Pc>, st: Status, from: nat)
    requires forall p :: 0 <= p < |procs| ==> procs[p] == Idle || procs[p] == WaitWritten
    ensures Scanners(procs, st, from) == 0 && Posts(procs, st) == 0
  {
    if procs != [] {
      NobodyScans(procs[..|procs|-1], st, from);
    }
  }

  lemma {:induction false} FreeCount(blocks: seq<Block>, from: nat)
    requires forall b :: 0 <= b < |blocks| ==> blocks[b].status == Free
    ensures BlocksFrom(blocks, Written, from) == 0
    ensures BlocksFrom(blocks, Free, from) == if from <= |blocks| then |blocks| - from else 0
    decreases |blocks| - from
  {
    if from < |blocks| {
      FreeCount(blocks, from + 1);
    }
  }

  lemma InitSupplied(s: State)
    requires Init(s)
    ensures Supplied(s)
  {
    hide BlocksFrom, Scanners, Posts;
    FreeCount(s.blocks, 0);
    NobodyScans(s.procs, Free, 0);
    NobodyScans(s.procs, Written, 0);
    forall from: nat ensures Enough(s, Free, from) && Enough(s, Written, from) {
      NobodyScans(s.procs, Free, from);
      NobodyScans(s.procs, Written, from);
    }
  }

  lemma InitInv(s: State)
    requires Init(s)
    ensures Inv(s)
  {
    hide Supplied;
    InitSupplied(s);
  }

  lemma RunStep(run: seq<State>, k: nat) returns (p: nat, c: Choice)
    requires IsTrace(run) && 0 < k < |run|
    ensures p < |run[k-1].procs| && run[k] == Next(run[k-1], p, c)
  {
    hide Next, Init;
    assert Step(run[k - 1], run[k - 1 + 1]);
    p, c :| p < |run[k-1].procs| && run[k] == Next(run[k-1], p, c);
  }

  // ---- what the initial statuses have to be ----

  lemma {:induction false} CountBound(blocks: seq<Block>, st: Status, from: nat)
    requires from <= |blocks|
    ensures BlocksFrom(blocks, st, from) <= |blocks| - from
    ensures BlocksFrom(blocks, st, from) == |blocks| - from ==>
      forall b :: from <= b < |blocks| ==> blocks[b].status == st
    decreases |blocks| - from
  {
    if from < |blocks| {
      CountBound(blocks, st, from + 1);
    }
  }

  /** The initialised ring satisfies the invariant exactly when all statuses are FREE. */
  lemma InvIffFree(s: State)
    requires Started(s)
    ensures Inv(s) <==> AllFree(s)
  {
    if AllFree(s) {
      InitInv(s);
    } else if Inv(s) {
      NobodyScans(s.procs, Free, 0);
      CountBound(s.blocks, Free, 0);
      assert false;
    }
  }

  /** Every state of every run satisfies the invariant. */
  lemma {:induction false} RunInv(run: seq<State>, k: nat)
    requires IsRun(run) && k < |run|
    ensures Inv(run[k])
  {
    hide Inv, Next, Step, Init;
    assert IsTrace(run);
    if k == 0 {
      InitInv(run[0]);
    } else {
      RunInv(run, k - 1);
      var p, c := RunStep(run, k);
      KeepsInv(run[k-1], p, c);
    }
  }

  /** A claimer past its semaphore always finds a block at or after its scan position:
      neither "strange error" nor the death of a listener can happen. */
  lemma NoClaimerFallsOff(run: seq<State>, k: nat, p: nat)
    requires IsRun(run) && k < |run| && p < |run[k].procs|
    ensures var s, pc := run[k], run[k].procs[p];
      && pc != StrangeError && pc != ListenDead
      && (pc.ScanFree? ==> exists b :: pc.at <= b < |s.blocks| && s.blocks[b].status == Free)
      && (pc.ScanWritten? ==> exists b :: pc.at <= b < |s.blocks| && s.blocks[b].status == Written)
  {
    RunInv(run, k);
    var s, pc := run[k], run[k].procs[p];
    assert Local(s, pc);
    if pc.ScanFree? {
      ScannerCounted(s.procs, p, Free, pc.at);
      assert Enough(s, Free, pc.at);
      var b := ClaimableAhead(s.blocks, Free, pc.at);
    } else if pc.ScanWritten? {
      ScannerCounted(s.procs, p, Written, pc.at);
      assert Enough(s, Written, pc.at);
      var b := ClaimableAhead(s.blocks, Written, pc.at);
    }
  }

  /** Claimable blocks, semaphore tokens, claimers and outstanding posts always balance. */
  lemma TokensConserved(run: seq<State>, k: nat)
    requires IsRun(run) && k < |run|
    ensures var s := run[k];
      && BlocksFrom(s.blocks, Free, 0) == s.semFree + Scanners(s.procs, Free, 0) + Posts(s.procs, Free)
      && BlocksFrom(s.blocks, Written, 0) == s.semWritten + Scanners(s.procs, Written, 0) + Posts(s.procs, Written)
  {
    RunInv(run, k);
  }

  /** A block between claim and release has one owner, nobody else awaits or reads back an answer in it, and its status
      is what its owner expects, so none of the three later compare-and-swaps can fail. */
  lemma BlocksHaveOneOwner(run: seq<State>, k: nat, p: nat, q: nat)
    requires IsRun(run) && k < |run| && p < |run[k].procs| && q < |run[k].procs| && p != q
    ensures var s, pc := run[k], run[k].procs[p];
      && (Owned(pc) != -1 ==> Owned(pc) < |s.blocks| && Owned(pc) != Owned(s.procs[q]))
      && (Owned(pc) != -1 ==> Owned(pc) != Woken(s.procs[q]))
      && (Awaited(pc) != -1 ==> Awaited(pc) < |s.blocks| && Awaited(pc) != Awaited(s.procs[q]))
      && (pc.Publish? ==> s.blocks[pc.block].status == Writing)
      && (pc.Finish? ==> s.blocks[pc.block].status == Executing)
      && (pc.Release? ==> s.blocks[pc.block].status == ExecDone)
  {
    RunInv(run, k);
    assert Local(run[k], run[k].procs[p]) && Local(run[k], run[k].procs[q]);
    assert Apart(run[k].procs[p], run[k].procs[q]);
  }

  /** No step of another process changes anything in an owned block. */
  lemma OwnedBlockUntouched(run: seq<State>, k: nat, p: nat, q: nat, c: Choice)
    requires IsRun(run) && k < |run| && p < |run[k].procs| && q < |run[k].procs| && p != q
    requires Owned(run[k].procs[p]) != -1
    ensures var s, b := run[k], Owned(run[k].procs[p]);
      && b < |s.blocks| == |Next(s, q, c).blocks|
      && Next(s, q, c).blocks[b] == s.blocks[b]
  {
    RunInv(run, k);
    var s := run[k];
    assert Local(s, s.procs[p]) && Local(s, s.procs[q]) && Apart(s.procs[p], s.procs[q]);
    assert BlockOk(s, s.blocks[Owned(s.procs[p])]);
  }

  /** The done-semaphore of a block is 0 or 1, and 1 only while the answer waits for its client. */
  lemma DoneTokenIsSingle(run: seq<State>, k: nat, b: nat, p: nat)
    requires IsRun(run) && k < |run| && b < |run[k].blocks| && p < |run[k].procs|
    ensures var s := run[k];
      && s.blocks[b].semDone <= 1
      && (s.blocks[b].semDone == 1 ==>
            s.blocks[b].status == ExecDone && Posted(s.procs[p]) != b && Woken(s.procs[p]) != b)
  {
    RunInv(run, k);
    assert BlockOk(run[k], run[k].blocks[b]) && Local(run[k], run[k].procs[p]);
  }

  lemma AnswersGrow(s: State, p: nat, c: Choice, id: nat)
    requires Inv(s) && p < |s.procs| && id in s.answers
    ensures id in Next(s, p, c).answers && Next(s, p, c).answers[id] == s.answers[id]
  {
    var e := TargetsMove(s, p, c);
    var pc := s.procs[p];
    ActPending(pc, Accessed(s, pc), s.semFree, s.semWritten, s.nextId, c);
    if pc.Execute? { PendingIssued(s, Target(pc)); }
  }

  /** A request is executed at most once: a computed answer is never replaced. */
  lemma {:induction false} ExecutedOnce(run: seq<State>, j: nat, k: nat, id: nat)
    requires IsRun(run) && j <= k < |run| && id in run[j].answers
    ensures id in run[k].answers && run[k].answers[id] == run[j].answers[id]
  {
    assert IsTrace(run);
    hide Inv, Next, IsRun;
    if j < k {
      ExecutedOnce(run, j, k - 1, id);
      RunInv(run, k - 1);
      var p, c := RunStep(run, k);
      AnswersGrow(run[k-1], p, c, id);
    }
  }

  /** What a listener is about to execute is a request nobody has executed yet. */
  lemma ListenerExecutesFreshRequest(run: seq<State>, k: nat, p: nat)
    requires IsRun(run) && k < |run| && p < |run[k].procs| && run[k].procs[p].Execute?
    ensures var s, b := run[k], run[k].procs[p].block;
      b < |s.blocks| && s.blocks[b].data.Request? && s.blocks[b].data.id !in s.answers
  {
    RunInv(run, k);
    assert Local(run[k], run[k].procs[p]);
    PendingIssued(run[k], run[k].procs[p].block);
  }

  /** A synchronous client reads back the response that was computed for its own request. */
  lemma OwnResponse(run: seq<State>, k: nat, p: nat)
    requires IsRun(run) && k < |run| && p < |run[k].procs| && run[k].procs[p].Release?
    ensures var s, pc := run[k], run[k].procs[p];
      pc.id in s.answers && pc.got == Response(pc.id, s.answers[pc.id])
  {
    RunInv(run, k);
    var s, pc := run[k], run[k].procs[p];
    assert Local(s, pc) && BlockOk(s, s.blocks[pc.block]);
  }

  // ---- a ring whose memory was not fresh ----

  lemma FailsNow(s: State)
    requires Failed(s)
    ensures CanFail(s)
  {
    assert IsTrace([s]);
  }

  lemma FailsLater(s: State, p: nat, c: Choice)
    requires p < |s.procs| && CanFail(Next(s, p, c))
    ensures CanFail(s)
  {
    hide Next, Failed;
    var run: seq<State> :| IsTrace(run) && run[0] == Next(s, p, c) && Failed(run[|run|-1]);
    var longer := [s] + run;
    assert Step(s, run[0]);
    forall i | 0 <= i < |longer| - 1 ensures Step(longer[i], longer[i + 1]) {
      if i > 0 { assert Step(run[i - 1], run[i - 1 + 1]); }
    }
    assert IsTrace(longer) && longer[|longer|-1] == run[|run|-1];
  }

  const ASYNC := Choice(false, 0)

  /** How far a client that only sends asynchronous requests is from its next wait. */
  function Phase(pc: Pc, nblocks: nat): nat {
    match pc
    case Idle => nblocks + 2
    case WaitFree(_, _) => nblocks + 1
    case ScanFree(_, _, i) => if i <= nblocks then nblocks - i else 0
    case _ => 0
  }

  /** A client with more tokens than there are free blocks fails, all by itself. */
  lemma {:induction false} TooManyTokens(s: State, p: nat)
    requires p < |s.procs|
    requires var pc := s.procs[p];
      pc.Idle? || (pc.WaitFree? && !pc.sync) || (pc.ScanFree? && !pc.sync && pc.at <= |s.blocks|)
    requires s.semFree + (if s.procs[p].ScanFree? then 1 else 0) > BlocksFrom(s.blocks, Free, 0)
    ensures CanFail(s)
    decreases BlocksFrom(s.blocks, Free, 0), Phase(s.procs[p], |s.blocks|)
  {
    hide CanFail;
    var pc := s.procs[p];
    var t := Next(s, p, ASYNC);
    if pc.ScanFree? && pc.at == |s.blocks| {
      assert t.procs[p] == StrangeError;
      FailsNow(t);
    } else if pc.ScanFree? && s.blocks[pc.at].status == Free {
      SendsOne(s, p);
      return;
    } else {
      assert t.blocks == s.blocks;
      TooManyTokens(t, p);
    }
    FailsLater(s, p, ASYNC);
  }

  /** The way of a client from a free block back to its start. */
  lemma {:induction false} SendsOne(s: State, p: nat)
    requires p < |s.procs|
    requires var pc := s.procs[p];
      pc.ScanFree? && !pc.sync && pc.at < |s.blocks| && s.blocks[pc.at].status == Free
    requires s.semFree + 1 > BlocksFrom(s.blocks, Free, 0)
    ensures CanFail(s)
    decreases BlocksFrom(s.blocks, Free, 0), 0
  {
    hide CanFail, BlocksFrom;
    var b := s.procs[p].at;
    var s1 := Next(s, p, ASYNC);
    var s2 := Next(s1, p, ASYNC);
    var s3 := Next(s2, p, ASYNC);
    var s4 := Next(s3, p, ASYNC);
    var s5 := Next(s4, p, ASYNC);
    var block := s5.blocks[b];
    assert s5.procs[p] == Idle && s5.semFree == s.semFree;
    assert s5.blocks == s.blocks[b := block] && block.status == Written;
    BlocksUpdate(s.blocks, b, block, Free, 0);
    TooManyTokens(s5, p);
    FailsLater(s4, p, ASYNC);
    FailsLater(s3, p, ASYNC);
    FailsLater(s2, p, ASYNC);
    FailsLater(s1, p, ASYNC);
    FailsLater(s, p, ASYNC);
  }

  /** Without clients nothing ever happens. */
  lemma {:induction false} OnlyListeners(run: seq<State>, k: nat)
    requires IsTrace(run) && k < |run| && Started(run[0])
    requires forall p :: 0 <= p < |run[0].procs| ==> run[0].procs[p] != Idle
    ensures run[k] == run[0]
  {
    if k > 0 {
      OnlyListeners(run, k - 1);
      var p, c := RunStep(run, k);
      assert run[0].procs[p] == WaitWritten;
      assert run[0].procs[p := WaitWritten] == run[0].procs;
    }
  }

  lemma NeverFails(run: seq<State>, k: nat)
    requires IsRun(run) && k < |run|
    ensures !Failed(run[k])
  {
    forall p: nat | p < |run[k].procs| ensures run[k].procs[p] != StrangeError && run[k].procs[p] != ListenDead {
      NoClaimerFallsOff(run, k, p);
    }
  }

  /** The initialised ring fails in some interleaving exactly when a block was left in another status than FREE and
      there is a client. */
  lemma FailsIffUsed(s: State)
    requires Started(s)
    ensures CanFail(s) <==> !AllFree(s) && exists p :: 0 <= p < |s.procs| && s.procs[p] == Idle
  {
    hide Inv, Next;
    if AllFree(s) {
      if CanFail(s) {
        var run: seq<State> :| IsTrace(run) && run[0] == s && Failed(run[|run|-1]);
        NeverFails(run, |run| - 1);
        assert false;
      }
    } else if p: nat :| p < |s.procs| && s.procs[p] == Idle {
      CountBound(s.blocks, Free, 0);
      TooManyTokens(s, p);
    } else if CanFail(s) {
      var run: seq<State> :| IsTrace(run) && run[0] == s && Failed(run[|run|-1]);
      OnlyListeners(run, |run| - 1);
      assert false;
    }
  }

  /** One block left in WRITING and one client: the fourth step meets "strange error". */
  lemma UsedBlockFails(block: Block, id: nat)
    requires block.status == Writing && block.semDone == 0
    ensures var s := State([block], 1, 0, [Idle], id, map[]);
      && Started(s)
      && Next(Next(Next(Next(s, 0, ASYNC), 0, ASYNC), 0, ASYNC), 0, ASYNC).procs == [StrangeError]
  {
    var s := State([block], 1, 0, [Idle], id, map[]);
    var s1 := Next(s, 0, ASYNC);
    assert s1.procs == [WaitFree(id, false)];
    var s2 := Next(s1, 0, ASYNC);
    assert s2.procs == [ScanFree(id, false, 0)] && s2.blocks == [block];
    var s3 := Next(s2, 0, ASYNC);
    assert s3.procs == [ScanFree(id, false, 1)] && s3.blocks == [block];
  }
}
