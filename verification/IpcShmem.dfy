/** The shared-memory ring: clients and listeners as interleaved processes over the shared blocks.
    Every semaphore operation, every compare-and-swap and every access to a block is one step. */
module IpcShmem {

  datatype Status = Free | Writing | Written | Executing | ExecDone

  /** Contents of a block: a request as written by its client, or the response computed for it. */
  datatype Payload = Blank | Request(id: nat) | Response(id: nat, value: int)

  datatype Block = Block(status: Status, returnResult: bool, data: Payload, semDone: nat)

  /** What a process does next. */
  datatype Pc =
    // ipc_shmem_query
    | Idle
    | WaitFree(id: nat, sync: bool)
    | ScanFree(id: nat, sync: bool, at: nat)
    | WriteData(id: nat, sync: bool, block: nat)
    | SetMode(id: nat, sync: bool, block: nat)
    | Publish(id: nat, sync: bool, block: nat)
    | PostWritten(id: nat, sync: bool, block: nat)
    | WaitDone(id: nat, block: nat)
    | ReadBack(id: nat, block: nat)
    | Release(id: nat, block: nat, got: Payload)
    | PostReleased
    | StrangeError
    // ipc_shmem_listen
    | WaitWritten
    | ScanWritten(at: nat)
    | Execute(block: nat)
    | ReadMode(block: nat)
    | Finish(block: nat, sync: bool)
    | PostDone(block: nat)
    | PostFreed
    | ListenDead

  /** `answers` is a history of the responses computed so far. */
  datatype State = State(blocks: seq<Block>, semFree: nat, semWritten: nat, procs: seq<Pc>,
                         nextId: nat, answers: map<nat, int>)

  /** The free choices of a step: the mode of a new request, the value a listener computes. */
  datatype Choice = Choice(sync: bool, value: int)

  /** The block a process is about to access, -1 if there is none. */
  function Target(pc: Pc): int {
    match pc
    case ScanFree(_, _, i) => i
    case WriteData(_, _, b) => b
    case SetMode(_, _, b) => b
    case Publish(_, _, b) => b
    case PostWritten(_, _, b) => b
    case WaitDone(_, b) => b
    case ReadBack(_, b) => b
    case Release(_, b, _) => b
    case ScanWritten(i) => i
    case Execute(b) => b
    case ReadMode(b) => b
    case Finish(b, _) => b
    case PostDone(b) => b
    case _ => -1
  }

  /** What a step leaves behind: the process, the accessed block, the two semaphores. */
  datatype Effect = Effect(pc: Pc, block: Block, semFree: nat, semWritten: nat)

  /** Compare-and-swap of the block's status. */
  function Cas(e: Effect, from: Status, to: Status, yes: Pc, no: Pc): Effect {
    if e.block.status == from then e.(pc := yes, block := e.block.(status := to)) else e.(pc := no)
  }

  /** One step of a process that accesses `block`; waiting on an empty semaphore changes nothing. */
  function Act(pc: Pc, block: Block, semFree: nat, semWritten: nat, nextId: nat, c: Choice): Effect {
    var e := Effect(pc, block, semFree, semWritten);
    match pc
    case Idle => e.(pc := WaitFree(nextId, c.sync))
    case WaitFree(id, sync) => if semFree == 0 then e else e.(pc := ScanFree(id, sync, 0), semFree := semFree - 1)
    case ScanFree(id, sync, i) => Cas(e, Free, Writing, WriteData(id, sync, i), ScanFree(id, sync, i + 1))
    case WriteData(id, sync, b) => e.(pc := SetMode(id, sync, b), block := block.(data := Request(id)))
    case SetMode(id, sync, b) => e.(pc := Publish(id, sync, b), block := block.(returnResult := sync))
    case Publish(id, sync, b) => Cas(e, Writing, Written, PostWritten(id, sync, b), StrangeError)
    case PostWritten(id, sync, b) => e.(pc := if sync then WaitDone(id, b) else Idle, semWritten := semWritten + 1)
    case WaitDone(id, b) =>
      if block.semDone == 0 then e else e.(pc := ReadBack(id, b), block := block.(semDone := block.semDone - 1))
    case ReadBack(id, b) => e.(pc := Release(id, b, block.data))
    case Release(id, b, got) => Cas(e, ExecDone, Free, PostReleased, StrangeError)
    case PostReleased => e.(pc := Idle, semFree := semFree + 1)
    case WaitWritten => if semWritten == 0 then e else e.(pc := ScanWritten(0), semWritten := semWritten - 1)
    case ScanWritten(i) => Cas(e, Written, Executing, Execute(i), ScanWritten(i + 1))
    case Execute(b) =>
      if block.data.Request? then e.(pc := ReadMode(b), block := block.(data := Response(block.data.id, c.value)))
      else e.(pc := ReadMode(b))
    case ReadMode(b) => e.(pc := Finish(b, block.returnResult))
    case Finish(b, sync) =>
      if sync then Cas(e, Executing, ExecDone, PostDone(b), ListenDead)
      else Cas(e, Executing, Free, PostFreed, ListenDead)
    case PostDone(b) => e.(pc := WaitWritten, block := block.(semDone := block.semDone + 1))
    case PostFreed => e.(pc := WaitWritten, semFree := semFree + 1)
    case StrangeError => e
    case ListenDead => e
  }

  const NO_BLOCK := Block(Free, false, Blank, 0)

  function Accessed(s: State, pc: Pc): Block {
    if 0 <= Target(pc) < |s.blocks| then s.blocks[Target(pc)] else NO_BLOCK
  }

  /** One step of process `p`. A scan that has passed the last block ends in an error. */
  function Next(s: State, p: nat, c: Choice): State
    requires p < |s.procs|
  {
    var pc := s.procs[p];
    var b := Target(pc);
    if b >= |s.blocks| then s.(procs := s.procs[p := if pc.ScanWritten? then ListenDead else StrangeError])
    else
      var e := Act(pc, Accessed(s, pc), s.semFree, s.semWritten, s.nextId, c);
      State(
        if b >= 0 then s.blocks[b := e.block] else s.blocks,
        e.semFree, e.semWritten,
        s.procs[p := e.pc],
        if pc.Idle? then s.nextId + 1 else s.nextId,
        if pc.Execute? && e.block.data.Response? then s.answers[e.block.data.id := e.block.data.value] else s.answers)
  }

  ghost predicate Step(s: State, s': State) {
    exists p: nat, c: Choice :: p < |s.procs| && s' == Next(s, p, c)
  }

  /** After shmem_init: one token per block, no answer waiting, no process under way. The statuses are whatever the
      memory held. */
  ghost predicate Started(s: State) {
    && (forall b :: 0 <= b < |s.blocks| ==> s.blocks[b].semDone == 0)
    && s.semFree == |s.blocks| && s.semWritten == 0
    && (forall p :: 0 <= p < |s.procs| ==> s.procs[p] == Idle || s.procs[p] == WaitWritten)
    && s.answers == map[]
  }

  ghost predicate AllFree(s: State) {
    forall b :: 0 <= b < |s.blocks| ==> s.blocks[b].status == Free
  }

  /** After shmem_init over zeroed memory. */
  ghost predicate Init(s: State) {
    Started(s) && AllFree(s)
  }

  ghost predicate IsTrace(run: seq<State>) {
    |run| > 0 && forall k :: 0 <= k < |run| - 1 ==> Step(run[k], run[k + 1])
  }

  ghost predicate IsRun(run: seq<State>) {
    IsTrace(run) && Init(run[0])
  }

  /** A process has met "strange error", or a listener is dead. */
  ghost predicate Failed(s: State) {
    exists p :: 0 <= p < |s.procs| && (s.procs[p] == StrangeError || s.procs[p] == ListenDead)
  }

  /** Some interleaving from `s` on fails. */
  ghost predicate CanFail(s: State) {
    exists run :: IsTrace(run) && run[0] == s && Failed(run[|run|-1])
  }

  // ---- tokens ----

  function Sem(s: State, st: Status): nat {
    if st == Free then s.semFree else s.semWritten
  }

  /** Blocks in status `st` at index `from` or later. */
  function BlocksFrom(blocks: seq<Block>, st: Status, from: nat): nat
    decreases |blocks| - from
  {
    if from >= |blocks| then 0
    else (if blocks[from].status == st then 1 else 0) + BlocksFrom(blocks, st, from + 1)
  }

  /** Past the semaphore, still looking for a block in status `st`, at position `from` or later. */
  predicate Scanning(pc: Pc, st: Status, from: nat) {
    (pc.ScanFree? && st == Free && pc.at >= from) || (pc.ScanWritten? && st == Written && pc.at >= from)
  }

  /** A block was put into status `st` but the semaphore is not yet posted. */
  predicate Posting(pc: Pc, st: Status) {
    if st == Free then pc.PostReleased? || pc.PostFreed? else pc.PostWritten?
  }

  function Scanners(procs: seq<Pc>, st: Status, from: nat): nat {
    if procs == [] then 0
    else Scanners(procs[..|procs|-1], st, from) + if Scanning(procs[|procs|-1], st, from) then 1 else 0
  }

  function Posts(procs: seq<Pc>, st: Status): nat {
    if procs == [] then 0
    else Posts(procs[..|procs|-1], st) + if Posting(procs[|procs|-1], st) then 1 else 0
  }

  /** Every block in a claimable status is backed by a token, a claimer, or a post still to come. */
  ghost predicate Tokens(s: State, st: Status) {
    BlocksFrom(s.blocks, st, 0) == Sem(s, st) + Scanners(s.procs, st, 0) + Posts(s.procs, st)
  }

  /** From every index on, there are enough claimable blocks for the claimers that still scan there. */
  ghost predicate Enough(s: State, st: Status, from: nat) {
    BlocksFrom(s.blocks, st, from) >= Scanners(s.procs, st, from)
  }

  ghost predicate Supplied(s: State) {
    && Tokens(s, Free) && Tokens(s, Written)
    && forall from: nat {:trigger Enough(s, Free, from)} {:trigger Enough(s, Written, from)} ::
         Enough(s, Free, from) && Enough(s, Written, from)
  }

  lemma BlocksStep(blocks: seq<Block>, st: Status, from: nat)
    ensures BlocksFrom(blocks, st, from) ==
      (if from < |blocks| && blocks[from].status == st then 1 else 0) + BlocksFrom(blocks, st, from + 1)
  {
  }

  lemma {:induction false} BlocksUpdate(blocks: seq<Block>, b: nat, block: Block, st: Status, from: nat)
    requires b < |blocks|
    ensures BlocksFrom(blocks[b := block], st, from) ==
      BlocksFrom(blocks, st, from)
      - (if b >= from && blocks[b].status == st then 1 else 0)
      + (if b >= from && block.status == st then 1 else 0)
    decreases |blocks| - from
  {
    if from < |blocks| {
      BlocksUpdate(blocks, b, block, st, from + 1);
    }
  }

  lemma {:induction false} ScannersUpdate(procs: seq<Pc>, p: nat, pc: Pc, st: Status, from: nat)
    requires p < |procs|
    ensures Scanners(procs[p := pc], st, from) ==
      Scanners(procs, st, from)
      - (if Scanning(procs[p], st, from) then 1 else 0)
      + (if Scanning(pc, st, from) then 1 else 0)
  {
    var n := |procs| - 1;
    if p < n {
      ScannersUpdate(procs[..n], p, pc, st, from);
      assert procs[p := pc][..n] == procs[..n][p := pc];
    } else {
      assert procs[p := pc][..n] == procs[..n];
    }
  }

  lemma {:induction false} PostsUpdate(procs: seq<Pc>, p: nat, pc: Pc, st: Status)
    requires p < |procs|
    ensures Posts(procs[p := pc], st) ==
      Posts(procs, st) - (if Posting(procs[p], st) then 1 else 0) + (if Posting(pc, st) then 1 else 0)
  {
    var n := |procs| - 1;
    if p < n {
      PostsUpdate(procs[..n], p, pc, st);
      assert procs[p := pc][..n] == procs[..n][p := pc];
    } else {
      assert procs[p := pc][..n] == procs[..n];
    }
  }

  lemma {:induction false} ScannersAhead(procs: seq<Pc>, st: Status, from: nat)
    ensures Scanners(procs, st, from + 1) <= Scanners(procs, st, from)
  {
    if procs != [] {
      ScannersAhead(procs[..|procs|-1], st, from);
    }
  }

  /** A claimer standing at `from` is not counted one position further. */
  lemma {:induction false} ScannerCounted(procs: seq<Pc>, p: nat, st: Status, from: nat)
    requires p < |procs| && Scanning(procs[p], st, from) && procs[p].at == from
    ensures Scanners(procs, st, from) >= Scanners(procs, st, from + 1) + 1
  {
    var n := |procs| - 1;
    if p < n {
      ScannerCounted(procs[..n], p, st, from);
    } else {
      ScannersAhead(procs[..n], st, from);
    }
  }

  /** Hence a scanning process always has a claimable block at or after its position. */
  lemma {:induction false} ClaimableAhead(blocks: seq<Block>, st: Status, from: nat) returns (b: nat)
    requires BlocksFrom(blocks, st, from) > 0
    ensures from <= b < |blocks| && blocks[b].status == st
    decreases |blocks| - from
  {
    if blocks[from].status == st {
      b := from;
    } else {
      b := ClaimableAhead(blocks, st, from + 1);
    }
  }
}
