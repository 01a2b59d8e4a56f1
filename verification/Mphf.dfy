/** The index backend in front of the CHM index, and the loop that rebuilds it from its source. */
module Mphf {
  import opened Arithmetic
  import opened Common
  import opened Forest
  import opened Relabelling
  import opened ByteCodec
  import opened ChmIndex

  datatype Action = Create | Write | Read | Delete | Rebuild | Other

  /** A request: its action, the input key and the output slot, each of which may be missing. */
  datatype Request = Request(action: Option<Action>, key: Option<Key>, slot: Option<nat>)

  /** Result codes of the handler. */
  datatype Code = Done | Dead | NoSuchEntry | Invalid | NoAction | Failed

  ghost predicate SamePlan(index: Index, hash1: bv64, hash2: bv64, nvertex: nat, capacity: nat)
    reads index
  {
    index.hash1 == hash1 && index.hash2 == hash2 && index.nvertex == nvertex && index.capacity == capacity
  }

  predicate Complete(r: Request, action: Action) {
    r.action == Some(action) && r.key.Some? && r.slot.Some?
  }

  class Handler {
    const index: Index
    var broken: bool

    ghost predicate Valid()
      reads this, index, index.g, index.v
    {
      index.Configured() && (!broken ==> index.Valid())
    }

    /** The index holds what it held, and the request's key and value. */
    ghost predicate Extended(keys: seq<Key>, vals: seq<int>, r: Request)
      reads this, index
    {
      && r.key.Some? && r.slot.Some?
      && index.keys == keys + [r.key.value] && index.vals == vals + [r.slot.value as int]
    }

    constructor (index: Index)
      requires index.Valid()
      ensures this.index == index && !broken && Valid()
    {
      this.index, broken := index, false;
    }

    /** Handles one request; `seed1` and `seed2` are the random numbers a rebuild draws. */
    method Handle(r: Request, seed1: bv64, seed2: bv64) returns (code: Code, slot: Option<nat>)
      requires Valid()
      modifies this, index, index.g, index.v
      // a broken index answers nothing and is not touched
      ensures old(broken) && r.action.Some? && r.action.value != Rebuild ==>
        code == Dead && broken && slot == r.slot && unchanged(index, old(index.g), old(index.v))
      // only a failed insert or update breaks it, only a rebuild repairs it
      ensures !old(broken) && broken ==> code == Dead && (r.action == Some(Create) || r.action == Some(Write))
      ensures !old(broken) && broken ==> index.nelements == old(index.nelements)
      ensures old(broken) && !broken ==> r.action == Some(Rebuild) && code == Dead && index.keys == []
      ensures r.action == Some(Rebuild) ==> code == if Buildable(old(index.WantedElements())) then Dead else Failed
      ensures r.action == Some(Rebuild) && code == Dead ==>
        !broken && index.Valid() && index.keys == [] && index.Planned(old(index.WantedElements()), seed1, seed2)
      ensures r.action == Some(Rebuild) && code == Failed ==> broken == old(broken) && index.nelements == 0
      ensures r.action != Some(Rebuild) ==>
        SamePlan(index, old(index.hash1), old(index.hash2), old(index.nvertex), old(index.capacity))
      ensures index.g == old(index.g) || fresh(index.g)
      ensures index.v == old(index.v) || fresh(index.v)
      ensures !(r.action == Some(Rebuild) && code == Failed) ==> Valid()
      // reads
      ensures Complete(r, Read) && !old(broken) ==> match old(index.Lookup(r.key.value))
        case Some(x) => code == Done && slot == Some(x)
        case None => code == NoSuchEntry && slot == r.slot
      // inserts
      ensures Complete(r, Create) && !old(broken) && index.writeable ==>
        && (broken <==> old(index.Clashes(r.key.value)))
        && if broken then code == Dead else code == Done && Extended(old(index.keys), old(index.vals), r)
      // updates: of a stored pair, or the insert of a new key
      ensures Complete(r, Write) && !old(broken) && index.writeable ==>
        if exists k :: old(index.StoredPair(r.key.value, k)) then
          && code == Done && !broken && index.keys == old(index.keys)
          && exists k :: old(index.StoredPair(r.key.value, k)) && index.vals == old(index.Updated(k, r.slot.value))
        else
          && (broken <==> old(index.Clashes(r.key.value)))
          && if broken then code == Dead else code == Done && Extended(old(index.keys), old(index.vals), r)
      // a read-only index refuses both
      ensures (Complete(r, Create) || Complete(r, Write)) && !old(broken) && !index.writeable ==>
        code == Failed && index.keys == old(index.keys) && index.vals == old(index.vals)
      ensures !index.writeable && !old(broken) ==> !broken
      ensures !index.writeable && !old(broken) && r.action != Some(Rebuild) ==>
        code != Dead && index.keys == old(index.keys)
      // requests that do nothing
      ensures Complete(r, Delete) && !old(broken) ==> code == Failed
      ensures Complete(r, Other) && !old(broken) ==> code == Done
      ensures r.action.None? ==> code == NoAction
      ensures r.action.Some? && r.action != Some(Rebuild) && !old(broken) && (r.key.None? || r.slot.None?) ==>
        code == Invalid
      ensures !(Complete(r, Create) || Complete(r, Write) || r.action == Some(Rebuild)) ==>
        broken == old(broken) && unchanged(index, old(index.g), old(index.v))
      ensures r.action != Some(Read) ==> slot == r.slot
    {
      hide VertexOf, Pow, Buildable, Index.Valid, Index.WantedElements, Index.Planned, Index.Lookup, Index.Clashes;
      slot := r.slot;
      if r.action.None? {
        return NoAction, slot;
      }
      if r.action.value == Rebuild {
        code := Reset(seed1, seed2);
        return code, slot;
      }
      if broken {
        return Dead, slot;
      }
      if r.key.None? || r.slot.None? {
        return Invalid, slot;
      }
      code, slot := Operate(r.action.value, r.key.value, r.slot.value);
    }

    /** A rebuild request: "dead" is its good result. */
    method Reset(seed1: bv64, seed2: bv64) returns (code: Code)
      requires Valid()
      modifies this, index
      ensures code == if Buildable(old(index.WantedElements())) then Dead else Failed
      ensures code == Dead ==> !broken && index.Valid() && index.keys == []
      ensures code == Dead ==> index.Planned(old(index.WantedElements()), seed1, seed2)
      ensures code == Dead ==> fresh(index.g) && fresh(index.v)
      ensures code == Failed ==> broken == old(broken) && index.nelements == 0
      ensures code == Failed ==> index.g == old(index.g) && index.v == old(index.v) && index.e == old(index.e)
    {
      hide Buildable, VertexOf, Index.Valid, Index.WantedElements, Index.Planned;
      var done := index.Rebuild(seed1, seed2);
      if done != Ok { return Failed; }
      broken := false;
      return Dead;
    }

    /** A request to an index that is not broken. */
    method Operate(action: Action, key: Key, value: nat) returns (code: Code, slot: Option<nat>)
      requires Valid() && !broken && action != Rebuild
      modifies this, index, index.g, index.v
      ensures Valid() && index.g == old(index.g) && index.v == old(index.v)
      ensures SamePlan(index, old(index.hash1), old(index.hash2), old(index.nvertex), old(index.capacity))
      ensures action != Read ==> slot == Some(value)
      ensures broken ==> code == Dead && action in {Create, Write} && index.nelements == old(index.nelements)
      ensures action == Read ==> match old(index.Lookup(key))
        case Some(x) => code == Done && slot == Some(x)
        case None => code == NoSuchEntry && slot == Some(value)
      ensures action == Create && index.writeable ==>
        && (broken <==> old(index.Clashes(key)))
        && (!broken ==> code == Done && index.keys == old(index.keys) + [key])
        && (!broken ==> index.vals == old(index.vals) + [value as int])
      ensures action == Write && index.writeable ==>
        if exists k :: old(index.StoredPair(key, k)) then
          && code == Done && !broken && index.keys == old(index.keys)
          && exists k :: old(index.StoredPair(key, k)) && index.vals == old(index.Updated(k, value))
        else
          && (broken <==> old(index.Clashes(key)))
          && (!broken ==> code == Done && index.keys == old(index.keys) + [key])
          && (!broken ==> index.vals == old(index.vals) + [value as int])
      ensures !index.writeable ==> !broken && code != Dead
      ensures !index.writeable ==> index.keys == old(index.keys) && index.vals == old(index.vals)
      ensures !index.writeable && action in {Create, Write} ==> code == Failed
      ensures action == Delete ==> code == Failed
      ensures action == Other ==> code == Done
      ensures action !in {Create, Write} ==> !broken && unchanged(index, index.g, index.v)
    {
      hide VertexOf, AllSums, IsForest, Wired, Pow, EncodeAll, Reachable, Last, Index.KeyAt;
      slot := Some(value);
      var ret := Ok;
      match action {
        case Create =>
          ret := index.Insert(key, value);
        case Write =>
          ghost var found;
          ret, found := index.Update(key, value);
        case Read =>
          var x;
          ret, x := index.Query(key);
          if ret == Ok {
            slot := Some(x);
          }
        case Delete =>
          ret := Inconsistent;  // delete is not supported
        case Other =>
      }
      broken := ret == BadF;
      code := match ret
        case Ok => Done
        case BadF => Dead
        case NoEntry => NoSuchEntry
        case _ => Failed;
    }
  }

  /** backend_query: every handler code but "dead" is moved into the request and reported as success. */
  function BackendQuery(code: Code): (dead: bool)
  {
    code == Dead
  }

  /** How a rebuild ends: with all keys in the index, with a refused reset (which the caller also sees as
      success), or still retrying when the seeds run out. */
  datatype Outcome = Success | Refused | StillRetrying

  /** The outcome predicted from the key graphs alone. An attempt fails at the first key whose edge closes a
      cycle; the number of keys inserted until then decides the size of the next attempt. */
  ghost function Predicted(index: Index, capacity: nat, nelements: nat, keys: seq<Key>, seeds: seq<(bv64, bv64)>)
    : Outcome
    decreases |seeds|
  {
    if seeds == [] then StillRetrying
    else
      var wanted := Wanted(capacity, nelements, index.nelementsMin, index.nelementsStep, index.nelementsMul);
      if !Buildable(wanted) then Refused
      else
        var inserted := FirstClash(keys, seeds[0].0, seeds[0].1, VertexTarget(wanted).value, 0);
        if !index.writeable || inserted == |keys| then Success
        else Predicted(index, if wanted == 0 then 1 else wanted, inserted, keys, seeds[1..])
  }

  /** Resets the index and inserts (keys[i], i) for every i, starting over whenever an insert finds the
      index dead. One pair of seeds is drawn per attempt; with none left the loop is cut off. */
  method RebuildAll(h: Handler, keys: seq<Key>, seeds: seq<(bv64, bv64)>) returns (ret: Outcome)
    requires h.Valid()
    modifies h, h.index, h.index.g, h.index.v
    ensures ret == Predicted(h.index, old(h.index.capacity), old(h.index.nelements), keys, seeds)
    ensures ret == Success && h.index.writeable ==>
      && h.Valid() && !h.broken
      && h.index.keys == keys && h.index.vals == seq(|keys|, i requires 0 <= i < |keys| => i)
      && forall i :: 0 <= i < |keys| ==> h.index.Lookup(keys[i]) == Some(i % Pow(2, h.index.biValue))
    ensures ret == Success && !h.index.writeable ==> h.Valid() && !h.broken && h.index.keys == []
    ensures ret == Refused ==> h.index.nelements == 0 && (old(h.broken) ==> h.broken)
  {
    hide VertexOf, Pow, Buildable, Wanted, FirstClash, Predicted, Index.Lookup, AllSums, IsForest, Wired, EncodeAll;
    hide Last;
    var attempt := 0;
    assert seeds[0..] == seeds;
    while attempt < |seeds|
      invariant attempt <= |seeds| && h.Valid()
      invariant h.index.g == old(h.index.g) || fresh(h.index.g)
      invariant h.index.v == old(h.index.v) || fresh(h.index.v)
      invariant old(h.broken) ==> h.broken
      invariant Predicted(h.index, h.index.capacity, h.index.nelements, keys, seeds[attempt..])
        == Predicted(h.index, old(h.index.capacity), old(h.index.nelements), keys, seeds)
    {
      ghost var capacity, nelements := h.index.capacity, h.index.nelements;
      NextAttempt(h.index, capacity, nelements, keys, seeds, attempt);
      var code, slot := h.Handle(Request(Some(Rebuild), None, None), seeds[attempt].0, seeds[attempt].1);
      if !BackendQuery(code) { return Refused; }
      var dead := InsertAll(h, keys);
      if !dead {
        if h.index.writeable {
          forall i | 0 <= i < |keys| ensures h.index.Lookup(keys[i]) == Some(i % Pow(2, h.index.biValue)) {
            h.index.StoredAnswers(i);
          }
        }
        return Success;
      }
      attempt := attempt + 1;
    }
    assert seeds[attempt..] == [];
    NoAttempt(h.index, h.index.capacity, h.index.nelements, keys);
    return StillRetrying;
  }

  /** Elements per growth step for which a fresh index is small, and its first growth impossible. */
  const WILD_MUL: nat := 0x8000_0000_0000_0001

  /** After such an index was opened over empty stores for two elements, any rebuild is refused. */
  lemma RefusedInput(index: Index, keys: seq<Key>, seeds: seq<(bv64, bv64)>)
    requires index.nelementsMin == 1 && index.nelementsStep == 1 && index.nelementsMul == WILD_MUL
    requires seeds != []
    ensures Wanted(0, 0, 1, 1, WILD_MUL) == 2 && Buildable(2)
    ensures Predicted(index, 2, 0, keys, seeds) == Refused
  {
    assert SafeMul(2, CHM_CONST) == Some(418) && VertexTarget(2) == Some(4);
    assert Pow(2, 3) == 8;
    PowMonotone(2, 3, 56);
    hide Pow;
    assert Wanted(2, 0, 1, 1, WILD_MUL) == 0x8000_0000_0000_0003;
    assert VertexTarget(0x8000_0000_0000_0003) == None;
  }

  /** The whole way there: opening the index, and a rebuild that reports success without inserting a single key. */
  method RefusedRun(keys: seq<Key>, seed1: bv64, seed2: bv64, seeds: seq<(bv64, bv64)>)
    returns (h: Handler, loaded: Status, ret: Outcome)
    requires seeds != []
    ensures fresh(h) && loaded == Ok && h.index.writeable
    ensures ret == Refused && h.index.nelements == 0
  {
    var index := new Index(true, 1, 1, WILD_MUL, 32);
    RefusedInput(index, keys, seeds);
    hide VertexOf, Pow, Buildable, Wanted, Predicted, AllSums, IsForest, Wired, EncodeAll, Last, VertexTarget;
    loaded := index.Rebuild(seed1, seed2);
    h := new Handler(index);
    ret := RebuildAll(h, keys, seeds);
  }

  /** A source with a repeated key can never be rebuilt, whatever the seeds: the two keys have the same edge. */
  lemma {:induction false} RepeatedKey(index: Index, capacity: nat, nelements: nat, keys: seq<Key>,
                                       seeds: seq<(bv64, bv64)>, i: nat, j: nat)
    requires index.writeable && i < j < |keys| && keys[i] == keys[j]
    ensures Predicted(index, capacity, nelements, keys, seeds) != Success
    decreases |seeds|
  {
    hide Wanted, FirstClash, Pow;
    if seeds != [] {
      var wanted := Wanted(capacity, nelements, index.nelementsMin, index.nelementsStep, index.nelementsMul);
      if Buildable(wanted) {
        var nvertex := VertexTarget(wanted).value;
        RepeatClashes(keys, seeds[0].0, seeds[0].1, nvertex, i, j);
        var inserted := FirstClash(keys, seeds[0].0, seeds[0].1, nvertex, 0);
        RepeatedKey(index, if wanted == 0 then 1 else wanted, inserted, keys, seeds[1..], i, j);
      }
    }
  }

  lemma NextAttempt(index: Index, capacity: nat, nelements: nat, keys: seq<Key>, seeds: seq<(bv64, bv64)>, attempt: nat)
    requires attempt < |seeds|
    ensures var wanted := Wanted(capacity, nelements, index.nelementsMin, index.nelementsStep, index.nelementsMul);
      Predicted(index, capacity, nelements, keys, seeds[attempt..]) ==
        if !Buildable(wanted) then Refused
        else
          var inserted := FirstClash(keys, seeds[attempt].0, seeds[attempt].1, VertexTarget(wanted).value, 0);
          if !index.writeable || inserted == |keys| then Success
          else Predicted(index, if wanted == 0 then 1 else wanted, inserted, keys, seeds[attempt + 1..])
  {
    assert seeds[attempt..][0] == seeds[attempt] && seeds[attempt..][1..] == seeds[attempt + 1..];
  }

  lemma NoAttempt(index: Index, capacity: nat, nelements: nat, keys: seq<Key>)
    ensures Predicted(index, capacity, nelements, keys, []) == StillRetrying
  {
  }

  /** The inner loop; it stops at the first insert that finds the index dead, which is the first key whose edge
      would close a cycle. */
  method InsertAll(h: Handler, keys: seq<Key>) returns (dead: bool)
    requires h.Valid() && !h.broken && h.index.keys == []
    modifies h, h.index, h.index.g, h.index.v
    ensures h.Valid()
    ensures h.index.g == old(h.index.g) || fresh(h.index.g)
    ensures h.index.v == old(h.index.v) || fresh(h.index.v)
    ensures SamePlan(h.index, old(h.index.hash1), old(h.index.hash2), old(h.index.nvertex), old(h.index.capacity))
    ensures old(h.index.nvertex) > 0
    ensures dead == h.broken
    ensures var inserted := FirstClash(keys, old(h.index.hash1), old(h.index.hash2), old(h.index.nvertex), 0);
      && (dead <==> h.index.writeable && inserted < |keys|)
      && (h.index.writeable ==> h.index.nelements == inserted)
    ensures !dead && h.index.writeable ==>
      h.index.keys == keys && h.index.vals == seq(|keys|, i requires 0 <= i < |keys| => i)
    ensures !dead && !h.index.writeable ==> h.index.keys == []
  {
    hide VertexOf, AllSums, IsForest, Wired, Pow, EncodeAll, Buildable, Linked, ClashAt;
    var i := 0;
    while i < |keys|
      invariant i <= |keys| && h.Valid() && !h.broken
      invariant h.index.g == old(h.index.g) || fresh(h.index.g)
      invariant h.index.v == old(h.index.v) || fresh(h.index.v)
      invariant SamePlan(h.index, old(h.index.hash1), old(h.index.hash2), old(h.index.nvertex), old(h.index.capacity))
      invariant FirstClash(keys, h.index.hash1, h.index.hash2, h.index.nvertex, 0)
        == FirstClash(keys, h.index.hash1, h.index.hash2, h.index.nvertex, i) || !h.index.writeable
      invariant if h.index.writeable
                then h.index.keys == keys[..i] && h.index.vals == seq(i, j requires 0 <= j < i => j)
                else h.index.keys == []
    {
      if h.index.writeable { h.index.ClashesInKeys(keys, i); }
      var code, slot := h.Handle(Request(Some(Create), Some(keys[i]), Some(i)), 0, 0);
      if BackendQuery(code) { return true; }
      i := i + 1;
    }
    return false;
  }
}
