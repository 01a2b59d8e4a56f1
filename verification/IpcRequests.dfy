/** What becomes of a request: a client that asked for an answer comes back with it. */
module IpcRequests {
  import opened IpcShmem
  import opened IpcSafety
  import opened IpcRuns

  /** The client is busy with request `id`; only a synchronous one makes it wait, read back and release. */
  predicate OnTheWay(pc: Pc, id: nat, sync: bool) {
    match pc
    case WaitFree(i, s) => i == id && s == sync
    case ScanFree(i, s, _) => i == id && s == sync
    case WriteData(i, s, _) => i == id && s == sync
    case SetMode(i, s, _) => i == id && s == sync
    case Publish(i, s, _) => i == id && s == sync
    case PostWritten(i, s, _) => i == id && s == sync
    case WaitDone(i, _) => i == id && sync
    case ReadBack(i, _) => i == id && sync
    case Release(i, _, _) => i == id && sync
    case _ => false
  }

  lemma ActOnTheWay(pc: Pc, block: Block, semFree: nat, semWritten: nat, nextId: nat, c: Choice, id: nat, sync: bool)
    requires LocalTo(pc, block) && TokenOk(block) && OnTheWay(pc, id, sync)
    ensures var pc' := Act(pc, block, semFree, semWritten, nextId, c).pc;
      || OnTheWay(pc', id, sync)
      || (sync && pc.Release? && pc'.PostReleased?)
      || (!sync && pc'.Idle?)
  {
  }

  /** In step `j` the client `p` makes a request; it is not done with it before `k`. */
  ghost predicate Requests(run: seq<State>, j: nat, k: nat, p: nat, c: Choice) {
    && IsRun(run) && j < k < |run| && p < |run[j].procs|
    && run[j].procs[p] == Idle && run[j + 1] == Next(run[j], p, c)
    && forall i :: j < i < k ==> Busy(run[i], p)
  }

  predicate Busy(s: State, p: nat) {
    p < |s.procs| && !s.procs[p].Idle?
  }

  /** Between `j` and `i` the client stood before the release of the block with its answer. */
  ghost predicate Returned(run: seq<State>, j: nat, i: nat, p: nat, id: nat)
    requires i <= |run|
  {
    exists r :: j < r < i && Releases(run[r], p, id)
  }

  predicate Releases(s: State, p: nat, id: nat) {
    p < |s.procs| && s.procs[p].Release? && s.procs[p].id == id
  }

  /** Where a client can be with its request. */
  ghost predicate Stage(run: seq<State>, j: nat, i: nat, p: nat, id: nat, sync: bool)
    requires i < |run|
  {
    && p < |run[i].procs|
    && var pc := run[i].procs[p];
    && (|| OnTheWay(pc, id, sync)
        || (sync && (pc.PostReleased? || pc.Idle?) && Returned(run, j, i, p, id))
        || (!sync && pc.Idle?))
  }

  lemma {:induction false} Journey(run: seq<State>, j: nat, i: nat, k: nat, p: nat, c: Choice)
    requires Requests(run, j, k, p, c) && j < i <= k
    ensures Stage(run, j, i, p, run[j].nextId, c.sync)
  {
    hide Inv, OnTheWay;
    assert IsTrace(run);
    if i == j + 1 {
      assert run[i].procs[p] == WaitFree(run[j].nextId, c.sync);
      FirstStage(run[i].procs[p], run[j].nextId, c.sync);
    } else {
      Journey(run, j, i - 1, k, p, c);
      RunInv(run, i - 1);
      assert Busy(run[i-1], p);
      var q, c' := RunStep(run, i);
      NextStage(run, j, i, p, run[j].nextId, c.sync, q, c');
    }
  }

  lemma FirstStage(pc: Pc, id: nat, sync: bool)
    requires pc == WaitFree(id, sync)
    ensures OnTheWay(pc, id, sync)
  {
  }

  lemma NextStage(run: seq<State>, j: nat, i: nat, p: nat, id: nat, sync: bool, q: nat, c: Choice)
    requires j < i - 1 < i < |run| && Stage(run, j, i - 1, p, id, sync) && Busy(run[i-1], p)
    requires Inv(run[i-1]) && q < |run[i-1].procs| && run[i] == Next(run[i-1], q, c)
    ensures Stage(run, j, i, p, id, sync)
  {
    hide Inv, Act, OnTheWay;
    var s := run[i-1];
    var pc := s.procs[p];
    var e := TargetsMove(s, q, c);
    if q == p {
      InvLocal(s, p);
      if OnTheWay(pc, id, sync) {
        ActOnTheWay(pc, Accessed(s, pc), s.semFree, s.semWritten, s.nextId, c, id, sync);
        if pc.Release? {
          ReleaseIs(pc, id, sync);
          assert Releases(run[i-1], p, id);
        }
      } else {
        AfterRelease(pc, Accessed(s, pc), s.semFree, s.semWritten, s.nextId, c);
      }
    }
  }

  lemma InvLocal(s: State, p: nat)
    requires Inv(s) && p < |s.procs|
    ensures LocalTo(s.procs[p], Accessed(s, s.procs[p])) && TokenOk(Accessed(s, s.procs[p]))
  {
    assert Local(s, s.procs[p]);
    var t := Target(s.procs[p]);
    if 0 <= t < |s.blocks| { assert BlockOk(s, s.blocks[t]); }
  }

  lemma ReleaseIs(pc: Pc, id: nat, sync: bool)
    requires OnTheWay(pc, id, sync) && pc.Release?
    ensures pc.id == id
  {
  }

  lemma AfterRelease(pc: Pc, block: Block, semFree: nat, semWritten: nat, nextId: nat, c: Choice)
    requires pc.PostReleased?
    ensures Act(pc, block, semFree, semWritten, nextId, c).pc == Idle
  {
  }

  /** A client that made a synchronous request and is through with it has its answer: the request was executed, and the
      client read back what was computed for it. */
  lemma SyncRequestAnswered(run: seq<State>, j: nat, k: nat, p: nat, c: Choice) returns (r: nat)
    requires Requests(run, j, k, p, c) && c.sync && p < |run[k].procs| && run[k].procs[p] == Idle
    ensures run[j].nextId in run[k].answers
    ensures j < r < k && Releases(run[r], p, run[j].nextId)
    ensures run[r].procs[p].got == Response(run[j].nextId, run[k].answers[run[j].nextId])
  {
    var id := run[j].nextId;
    Journey(run, j, k, k, p, c);
    assert Returned(run, j, k, p, id);
    r :| j < r < k && Releases(run[r], p, id);
    OwnResponse(run, r, p);
    ExecutedOnce(run, r, k, id);
  }

  /** A client with an asynchronous request never waits for an answer, nor reads one. */
  lemma AsyncNeverWaits(run: seq<State>, j: nat, i: nat, k: nat, p: nat, c: Choice)
    requires Requests(run, j, k, p, c) && !c.sync && j < i <= k
    ensures p < |run[i].procs|
    ensures var pc := run[i].procs[p]; !pc.WaitDone? && !pc.ReadBack? && !pc.Release? && !pc.PostReleased?
  {
    Journey(run, j, i, k, p, c);
  }

  /** Executing a request records the value that was computed for it, and no other. */
  lemma ExecuteRecords(run: seq<State>, k: nat, p: nat, c: Choice)
    requires IsRun(run) && k < |run| && p < |run[k].procs| && run[k].procs[p].Execute?
    ensures var s, b := run[k], run[k].procs[p].block;
      b < |s.blocks| && s.blocks[b].data.Request?
      && Next(s, p, c).answers == s.answers[s.blocks[b].data.id := c.value]
      && Next(s, p, c).blocks[b].data == Response(s.blocks[b].data.id, c.value)
  {
    ListenerExecutesFreshRequest(run, k, p);
  }

  /** Nothing else computes or changes an answer. */
  lemma OnlyExecuteRecords(s: State, p: nat, c: Choice)
    requires p < |s.procs| && !s.procs[p].Execute?
    ensures Next(s, p, c).answers == s.answers
  {
  }
}
