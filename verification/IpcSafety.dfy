/** What every step of the ring protocol keeps, and what follows for every run. */
module IpcSafety {
  import opened IpcShmem

  // ---- the invariant ----

  /** The id of a request that its client has not published yet, -1 if there is none. */
  function NewId(pc: Pc): int {
    match pc
    case WaitFree(id, _) => id
    case ScanFree(id, _, _) => id
    case WriteData(id, _, _) => id
    case SetMode(id, _, _) => id
    case Publish(id, _, _) => id
    case _ => -1
  }

  /** The block that only this process is entitled to change, -1 if there is none. */
  function Owned(pc: Pc): int {
    match pc
    case WriteData(_, _, b) => b
    case SetMode(_, _, b) => b
    case Publish(_, _, b) => b
    case Execute(b) => b
    case ReadMode(b) => b
    case Finish(b, _) => b
    case _ => -1
  }

  /** The block in which a synchronous client's answer has to appear, -1 if there is none. */
  function Awaited(pc: Pc): int {
    match pc
    case PostWritten(_, sync, b) => if sync then b else -1
    case WaitDone(_, b) => b
    case _ => Woken(pc)
  }

  /** The block whose done-token a synchronous client has consumed, -1 if there is none. */
  function Woken(pc: Pc): int {
    match pc
    case ReadBack(_, b) => b
    case Release(_, b, _) => b
    case _ => -1
  }

  /** The block whose done-token is about to be posted, -1 if there is none. */
  function Posted(pc: Pc): int {
    if pc.PostDone? then pc.block else -1
  }

  predicate Differ(x: int, y: int) { x == -1 || x != y }

  /** Two different processes do not share an owned or awaited block, a done-token, or a new request id. */
  predicate Apart(pc: Pc, pc': Pc) {
    && Differ(Owned(pc), Owned(pc'))
    && Differ(Awaited(pc), Awaited(pc'))
    && Differ(Posted(pc), Posted(pc'))
    && Differ(Posted(pc), Woken(pc'))
    && Differ(Woken(pc), Posted(pc'))
    && Differ(NewId(pc), NewId(pc'))
  }

  predicate PayloadId(data: Payload, id: nat) {
    match data
    case Blank => false
    case Request(i) => i == id
    case Response(i, _) => i == id
  }

  /** The request `id` is published in this block and will be answered there. */
  predicate InFlight(block: Block, id: nat) {
    block.status in {Written, Executing, ExecDone} && block.returnResult && PayloadId(block.data, id)
  }

  predicate Answered(block: Block) {
    block.status == ExecDone && block.semDone == 0
  }

  /** What a process at `pc` may rely on about the block it accesses. */
  predicate LocalTo(pc: Pc, block: Block) {
    match pc
    case WriteData(id, _, _) => block.status == Writing
    case SetMode(id, _, _) => block.status == Writing && block.data == Request(id)
    case Publish(id, sync, _) => block.status == Writing && block.data == Request(id) && block.returnResult == sync
    case PostWritten(id, sync, _) => sync ==> InFlight(block, id)
    case WaitDone(id, _) => InFlight(block, id)
    case ReadBack(id, _) => InFlight(block, id) && Answered(block)
    case Release(id, _, got) => InFlight(block, id) && Answered(block) && got == block.data
    case Execute(_) => block.status == Executing && block.data.Request?
    case ReadMode(_) => block.status == Executing && block.data.Response?
    case Finish(_, sync) => block.status == Executing && block.data.Response? && block.returnResult == sync
    case PostDone(_) => Answered(block)
    case StrangeError => false
    case ListenDead => false
    case _ => true
  }

  /** An issued id that has not been executed. */
  predicate Unanswered(s: State, id: int) {
    id < s.nextId && (id >= 0 ==> id !in s.answers)
  }

  predicate InReach(s: State, pc: Pc) {
    Target(pc) < |s.blocks| || pc.ScanFree? || pc.ScanWritten?
  }

  predicate Local(s: State, pc: Pc) {
    && InReach(s, pc)
    && LocalTo(pc, Accessed(s, pc))
    && Unanswered(s, NewId(pc))
  }

  /** Published, and not yet executed. */
  predicate Pending(block: Block) {
    block.status in {Written, Executing} && block.data.Request?
  }

  predicate TokenOk(block: Block) {
    && block.semDone <= 1 && (block.semDone == 1 ==> block.status == ExecDone)
    && (block.status == Written ==> block.data.Request?)
    && (block.status == ExecDone ==> block.data.Response?)
  }

  predicate BlockOk(s: State, block: Block) {
    && TokenOk(block)
    && (Pending(block) ==> Unanswered(s, block.data.id))
    && (block.status in {Executing, ExecDone} && block.data.Response? ==>
          block.data.id in s.answers && s.answers[block.data.id] == block.data.value)
  }

  /** No unpublished request has the id of a pending one. */
  predicate IdApart(pc: Pc, block: Block) {
    Pending(block) ==> NewId(pc) != block.data.id
  }

  /** Two pending blocks do not carry the same request. */
  predicate PendingApart(block: Block, block': Block) {
    Pending(block) && Pending(block') ==> block.data.id != block'.data.id
  }

  ghost predicate ProcsOk(s: State) {
    && (forall p :: 0 <= p < |s.procs| ==> Local(s, s.procs[p]))
    && (forall p, q :: 0 <= p < |s.procs| && 0 <= q < |s.procs| && p != q ==> Apart(s.procs[p], s.procs[q]))
  }

  ghost predicate BlocksOk(s: State) {
    && (forall b :: 0 <= b < |s.blocks| ==> BlockOk(s, s.blocks[b]))
    && (forall b, b' :: 0 <= b < |s.blocks| && 0 <= b' < |s.blocks| && b != b' ==>
          PendingApart(s.blocks[b], s.blocks[b']))
    && (forall p, b :: 0 <= p < |s.procs| && 0 <= b < |s.blocks| ==> IdApart(s.procs[p], s.blocks[b]))
    && (forall id :: id in s.answers ==> id < s.nextId)
  }

  ghost predicate Inv(s: State) {
    Supplied(s) && ProcsOk(s) && BlocksOk(s)
  }

  // ---- supply of claimable blocks ----

  /** A process past its semaphore is never past the last block. */
  lemma NoFall(s: State, p: nat)
    requires p < |s.procs| && Supplied(s)
    ensures s.procs[p].ScanFree? || s.procs[p].ScanWritten? ==> s.procs[p].at < |s.blocks|
  {
    if s.procs[p].ScanFree? {
      ScannerCounted(s.procs, p, Free, s.procs[p].at);
      assert Enough(s, Free, s.procs[p].at);
    }
    if s.procs[p].ScanWritten? {
      ScannerCounted(s.procs, p, Written, s.procs[p].at);
      assert Enough(s, Written, s.procs[p].at);
    }
  }

  function Count(b: bool): int { if b then 1 else 0 }

  /** A step moves tokens between a block's status, the semaphore, a claimer and a pending post. */
  lemma TokenBalance(pc: Pc, block: Block, semFree: nat, semWritten: nat, nextId: nat, c: Choice, st: Status)
    requires st in {Free, Written}
    ensures var e := Act(pc, block, semFree, semWritten, nextId, c);
      Count(e.block.status == st) - Count(block.status == st) ==
      (if st == Free then e.semFree - semFree else e.semWritten - semWritten)
      + Count(Scanning(e.pc, st, 0)) - Count(Scanning(pc, st, 0))
      + Count(Posting(e.pc, st)) - Count(Posting(pc, st))
    ensures Target(pc) == -1 ==> Act(pc, block, semFree, semWritten, nextId, c).block == block
  {
  }

  lemma KeepsTokens(s: State, p: nat, c: Choice, st: Status)
    requires p < |s.procs| && st in {Free, Written} && Supplied(s) && InReach(s, s.procs[p])
    ensures Tokens(Next(s, p, c), st)
  {
    hide BlocksFrom, Scanners, Posts, Act;
    NoFall(s, p);
    var s', pc := Next(s, p, c), s.procs[p];
    var e := Act(pc, Accessed(s, pc), s.semFree, s.semWritten, s.nextId, c);
    TokenBalance(pc, Accessed(s, pc), s.semFree, s.semWritten, s.nextId, c, st);
    ScannersUpdate(s.procs, p, e.pc, st, 0);
    PostsUpdate(s.procs, p, e.pc, st);
    if Target(pc) >= 0 { BlocksUpdate(s.blocks, Target(pc), e.block, st, 0); }
  }

  /** Counting from index `from`: a step takes a block only together with its claimer, lets a claimer pass
      block from-1 only if that one is not claimable, and lets a new claimer in only at index 0. */
  lemma SupplyBalance(pc: Pc, block: Block, semFree: nat, semWritten: nat, nextId: nat, c: Choice, st: Status,
                      from: nat)
    requires st in {Free, Written}
    ensures var e := Act(pc, block, semFree, semWritten, nextId, c);
      && (Count(Target(pc) >= from && e.block.status == st) - Count(Scanning(e.pc, st, from)) >=
          Count(Target(pc) >= from && block.status == st) - Count(Scanning(pc, st, from))
          || (from == 0 && Target(pc) == -1)
          || (from > 0 && Scanning(pc, st, from - 1) && pc.at == from - 1 && block.status != st && e.block == block))
      && Count(Scanning(e.pc, st, from)) <= Count(Scanning(pc, st, from)) + 1
  {
  }

  lemma KeepsEnough(s: State, p: nat, c: Choice, st: Status, from: nat)
    requires p < |s.procs| && st in {Free, Written} && Supplied(s) && InReach(s, s.procs[p])
    ensures Enough(Next(s, p, c), st, from)
  {
    hide BlocksFrom, Scanners, Posts, Act;
    NoFall(s, p);
    assert Enough(s, st, from);
    var s', pc := Next(s, p, c), s.procs[p];
    var e := Act(pc, Accessed(s, pc), s.semFree, s.semWritten, s.nextId, c);
    SupplyBalance(pc, Accessed(s, pc), s.semFree, s.semWritten, s.nextId, c, st, from);
    ScannersUpdate(s.procs, p, e.pc, st, from);
    if Target(pc) >= 0 { BlocksUpdate(s.blocks, Target(pc), e.block, st, from); }
    if from == 0 {
      KeepsTokens(s, p, c, st);
    } else {
      BlocksStep(s.blocks, st, from - 1);
      assert Enough(s, st, from - 1);
      if Scanning(pc, st, from - 1) && pc.at == from - 1 { ScannerCounted(s.procs, p, st, from - 1); }
    }
  }

  lemma KeepsSupply(s: State, p: nat, c: Choice)
    requires p < |s.procs| && Supplied(s) && InReach(s, s.procs[p])
    ensures Supplied(Next(s, p, c))
  {
    hide Next;
    KeepsTokens(s, p, c, Free);
    KeepsTokens(s, p, c, Written);
    forall from: nat ensures Enough(Next(s, p, c), Free, from) && Enough(Next(s, p, c), Written, from) {
      KeepsEnough(s, p, c, Free, from);
      KeepsEnough(s, p, c, Written, from);
    }
  }

  // ---- ownership and answers: one process, one block ----

  lemma ActOwn(pc: Pc, block: Block, semFree: nat, semWritten: nat, nextId: nat, c: Choice)
    requires LocalTo(pc, block) && TokenOk(block)
    ensures var e := Act(pc, block, semFree, semWritten, nextId, c);
      && (e.pc.ScanFree? || e.pc.ScanWritten? || Target(e.pc) == -1 || Target(e.pc) == Target(pc))
      && LocalTo(e.pc, e.block) && TokenOk(e.block)
      && (NewId(e.pc) == NewId(pc) || NewId(e.pc) == -1 || (pc.Idle? && NewId(e.pc) == nextId))
  {
  }

  /** A process that accesses the same block keeps what it relies on. */
  lemma ActOther(pc: Pc, pc': Pc, block: Block, semFree: nat, semWritten: nat, nextId: nat, c: Choice)
    requires LocalTo(pc, block) && LocalTo(pc', block) && TokenOk(block)
    requires Apart(pc, pc') && Target(pc) == Target(pc') >= 0
    ensures LocalTo(pc', Act(pc, block, semFree, semWritten, nextId, c).block)
  {
  }

  lemma ActApart(pc: Pc, pc': Pc, block: Block, semFree: nat, semWritten: nat, nextId: nat, c: Choice)
    requires LocalTo(pc, block) && TokenOk(block) && Apart(pc, pc') && Apart(pc', pc)
    requires Target(pc) == Target(pc') ==> LocalTo(pc', block)
    requires pc.Idle? ==> NewId(pc') != nextId
    ensures Apart(Act(pc, block, semFree, semWritten, nextId, c).pc, pc')
    ensures Apart(pc', Act(pc, block, semFree, semWritten, nextId, c).pc)
  {
  }

  /** A block becomes pending only by being published, and what is executed was pending. */
  lemma ActPending(pc: Pc, block: Block, semFree: nat, semWritten: nat, nextId: nat, c: Choice)
    requires LocalTo(pc, block) && TokenOk(block)
    ensures var e := Act(pc, block, semFree, semWritten, nextId, c);
      && (Pending(e.block) ==> (Pending(block) && e.block.data == block.data)
                               || (NewId(pc) == e.block.data.id && NewId(e.pc) == -1))
      && (pc.Execute? ==> Pending(block) && e.block.data == Response(block.data.id, c.value))
      && (e.block.status in {Executing, ExecDone} && e.block.data.Response? && !pc.Execute? ==>
            block.status in {Executing, ExecDone} && e.block.data == block.data)
  {
  }

  // ---- ownership and answers: all processes and blocks ----

  lemma TargetsMove(s: State, p: nat, c: Choice) returns (e: Effect)
    requires Inv(s) && p < |s.procs|
    ensures var pc := s.procs[p];
      && Target(pc) < |s.blocks|
      && LocalTo(pc, Accessed(s, pc)) && TokenOk(Accessed(s, pc)) && Unanswered(s, NewId(pc))
      && e == Act(pc, Accessed(s, pc), s.semFree, s.semWritten, s.nextId, c)
      && Next(s, p, c).procs == s.procs[p := e.pc]
      && Next(s, p, c).blocks == (if Target(pc) >= 0 then s.blocks[Target(pc) := e.block] else s.blocks)
  {
    hide Act;
    NoFall(s, p);
    var pc := s.procs[p];
    assert Local(s, pc);
    if Target(pc) >= 0 { assert BlockOk(s, s.blocks[Target(pc)]); }
    e := Act(pc, Accessed(s, pc), s.semFree, s.semWritten, s.nextId, c);
  }

  /** Only the request executed by this step stops being unanswered, and it was pending. */
  lemma AnswersMove(s: State, p: nat, c: Choice, id: int)
    requires Inv(s) && p < |s.procs| && Unanswered(s, id)
    requires s.procs[p].Execute? ==> !(Pending(Accessed(s, s.procs[p])) && Accessed(s, s.procs[p]).data.id == id)
    ensures Unanswered(Next(s, p, c), id)
  {
    var e := TargetsMove(s, p, c);
    var pc := s.procs[p];
    ActPending(pc, Accessed(s, pc), s.semFree, s.semWritten, s.nextId, c);
  }

  lemma KeepsLocal(s: State, p: nat, c: Choice, q: nat)
    requires Inv(s) && p < |s.procs| && q < |s.procs|
    ensures Local(Next(s, p, c), Next(s, p, c).procs[q])
  {
    hide Supplied, Act, Apart;
    var e := TargetsMove(s, p, c);
    var pc, block := s.procs[p], Accessed(s, s.procs[p]);
    assert Local(s, s.procs[q]);
    if q == p {
      ActOwn(pc, block, s.semFree, s.semWritten, s.nextId, c);
      if NewId(pc) != -1 && NewId(e.pc) == NewId(pc) { AnswersMove(s, p, c, NewId(pc)); }
    } else {
      assert Apart(pc, s.procs[q]);
      if Target(pc) == Target(s.procs[q]) >= 0 {
        ActOther(pc, s.procs[q], block, s.semFree, s.semWritten, s.nextId, c);
      }
      if Target(pc) >= 0 { assert IdApart(s.procs[q], s.blocks[Target(pc)]); }
      AnswersMove(s, p, c, NewId(s.procs[q]));
    }
  }

  lemma KeepsProcs(s: State, p: nat, c: Choice)
    requires Inv(s) && p < |s.procs|
    ensures ProcsOk(Next(s, p, c))
  {
    hide Supplied, Act, Apart, LocalTo, Next;
    var e := TargetsMove(s, p, c);
    var pc, block := s.procs[p], Accessed(s, s.procs[p]);
    forall q | 0 <= q < |s.procs| ensures Local(Next(s, p, c), Next(s, p, c).procs[q]) { KeepsLocal(s, p, c, q); }
    forall q | 0 <= q < |s.procs| && q != p ensures Apart(e.pc, s.procs[q]) && Apart(s.procs[q], e.pc) {
      assert Local(s, s.procs[q]);
      assert Apart(pc, s.procs[q]) && Apart(s.procs[q], pc);
      ActApart(pc, s.procs[q], block, s.semFree, s.semWritten, s.nextId, c);
    }
  }

  lemma KeepsBlock(s: State, p: nat, c: Choice, b: nat)
    requires Inv(s) && p < |s.procs| && b < |s.blocks|
    ensures BlockOk(Next(s, p, c), Next(s, p, c).blocks[b])
  {
    hide Supplied, Act, LocalTo;
    var e := TargetsMove(s, p, c);
    var pc, block := s.procs[p], Accessed(s, s.procs[p]);
    assert BlockOk(s, s.blocks[b]);
    ActPending(pc, block, s.semFree, s.semWritten, s.nextId, c);
    ActOwn(pc, block, s.semFree, s.semWritten, s.nextId, c);
    if b == Target(pc) {
      if Pending(e.block) { AnswersMove(s, p, c, e.block.data.id); }
    } else {
      if Target(pc) >= 0 { assert PendingApart(s.blocks[Target(pc)], s.blocks[b]) && BlockOk(s, s.blocks[Target(pc)]); }
      if Pending(s.blocks[b]) { AnswersMove(s, p, c, s.blocks[b].data.id); }
    }
  }

  lemma KeepsBlocks(s: State, p: nat, c: Choice)
    requires Inv(s) && p < |s.procs|
    ensures BlocksOk(Next(s, p, c))
  {
    hide Supplied, Act, LocalTo, TokenOk, Unanswered;
    var s' := Next(s, p, c);
    var e := TargetsMove(s, p, c);
    var pc, block := s.procs[p], Accessed(s, s.procs[p]);
    ActPending(pc, block, s.semFree, s.semWritten, s.nextId, c);
    ActOwn(pc, block, s.semFree, s.semWritten, s.nextId, c);
    forall b | 0 <= b < |s'.blocks| ensures BlockOk(s', s'.blocks[b]) { KeepsBlock(s, p, c, b); }
    forall b, b' | 0 <= b < |s'.blocks| && 0 <= b' < |s'.blocks| && b != b'
      ensures PendingApart(s'.blocks[b], s'.blocks[b'])
    {
      assert PendingApart(s.blocks[b], s.blocks[b']) && IdApart(pc, s.blocks[b]) && IdApart(pc, s.blocks[b']);
    }
    forall q, b | 0 <= q < |s'.procs| && 0 <= b < |s'.blocks| ensures IdApart(s'.procs[q], s'.blocks[b]) {
      KeepsIdApart(s, p, c, q, b);
    }
    forall id | id in s'.answers ensures id < s'.nextId {
      if pc.Execute? { PendingIssued(s, Target(pc)); }
    }
  }

  lemma PendingIssued(s: State, b: nat)
    requires BlocksOk(s) && b < |s.blocks| && Pending(s.blocks[b])
    ensures s.blocks[b].data.id < s.nextId && s.blocks[b].data.id !in s.answers
  {
    assert BlockOk(s, s.blocks[b]);
  }

  lemma KeepsIdApart(s: State, p: nat, c: Choice, q: nat, b: nat)
    requires Inv(s) && p < |s.procs| && q < |s.procs| && b < |s.blocks|
    ensures IdApart(Next(s, p, c).procs[q], Next(s, p, c).blocks[b])
  {
    hide Supplied, Act, LocalTo;
    var e := TargetsMove(s, p, c);
    var pc, block := s.procs[p], Accessed(s, s.procs[p]);
    ActPending(pc, block, s.semFree, s.semWritten, s.nextId, c);
    ActOwn(pc, block, s.semFree, s.semWritten, s.nextId, c);
    assert IdApart(s.procs[q], s.blocks[b]) && IdApart(pc, s.blocks[b]) && BlockOk(s, s.blocks[b]);
    if q != p { assert Apart(pc, s.procs[q]); }
  }

  /** Every step of every process keeps the invariant. */
  lemma KeepsInv(s: State, p: nat, c: Choice)
    requires Inv(s) && p < |s.procs|
    ensures Inv(Next(s, p, c))
  {
    hide Supplied, Next;
    assert Local(s, s.procs[p]);
    KeepsSupply(s, p, c);
    KeepsProcs(s, p, c);
    KeepsBlocks(s, p, c);
  }
}
