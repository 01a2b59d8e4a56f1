/** The pool: keeps the number of live backends of a group below a limit by destroying members.
    All members measure the parameter "one" and all rules have the action "destroy". */
module Pool {
  import opened Common

  type Word = n: nat | n <= 0xFFFF_FFFF_FFFF_FFFF
  const NO_LIMIT: Word := 0xFFFF_FFFF_FFFF_FFFF

  /** Only the greatest word means "no limit". */
  lemma EveryOtherWordLimits(w: Word)
    ensures w < NO_LIMIT <==> w != NO_LIMIT
    ensures w == NO_LIMIT <==> w as int + 1 == 0x1_0000_0000_0000_0000
  {
  }

  datatype Mode = First | Last | Highest | Lowest
  datatype Rule = Rule(limit: Word, mode: Mode)

  /** What the scan reads of a member. */
  datatype Seen = Seen(createdOn: nat, usage: nat)

  // ---- who goes first ----

  /** The comparison of pool_kill_check: `a` replaces a candidate `b`. */
  predicate Beats(mode: Mode, a: Seen, b: Seen) {
    match mode
    case First => a.createdOn < b.createdOn
    case Last => a.createdOn > b.createdOn
    case Highest => a.usage > b.usage
    case Lowest => a.usage < b.usage
  }

  predicate Live(s: seq<Seen>, i: nat) { i < |s| && s[i].usage > 0 }

  /** Ties go to the earlier member of the list. */
  predicate Before(s: seq<Seen>, mode: Mode, i: nat, j: nat)
    requires i < |s| && j < |s|
  {
    Beats(mode, s[i], s[j]) || (!Beats(mode, s[j], s[i]) && i < j)
  }

  function LiveSet(s: seq<Seen>): set<nat> { set i: nat | i < |s| && Live(s, i) }

  function Earlier(s: seq<Seen>, mode: Mode, k: nat): set<nat>
    requires k < |s|
  {
    set i: nat | i < |s| && Live(s, i) && Before(s, mode, i, k)
  }

  /** How many members are too many. */
  function Excess(alive: nat, limit: nat): nat {
    if alive < limit then 0 else if limit == 0 then alive else alive - limit + 1
  }

  /** The members that have to go: as many as are too many, in the order of the mode. */
  function Victims(s: seq<Seen>, mode: Mode, limit: nat): set<nat> {
    set i: nat | i < |s| && Live(s, i) && |Earlier(s, mode, i)| < Excess(|LiveSet(s)|, limit)
  }

  /** `c` is the foremost live member among the first `n`. */
  predicate Foremost(s: seq<Seen>, mode: Mode, n: nat, c: Option<nat>)
    requires n <= |s|
  {
    match c
    case None => forall i: nat :: i < n ==> !Live(s, i)
    case Some(k) => k < n && Live(s, k) && forall i: nat :: i < n && i != k && Live(s, i) ==> Before(s, mode, k, i)
  }

  function Total(s: seq<Seen>): nat {
    if s == [] then 0 else Total(s[..|s|-1]) + s[|s|-1].usage
  }

  // ---- the order and the victims ----

  lemma BeforeTransitive(s: seq<Seen>, mode: Mode, i: nat, j: nat, k: nat)
    requires i < |s| && j < |s| && k < |s| && Before(s, mode, i, j) && Before(s, mode, j, k)
    ensures Before(s, mode, i, k)
  {
  }

  lemma ForemostStep(s: seq<Seen>, mode: Mode, n: nat, c: Option<nat>)
    requires n < |s| && Foremost(s, mode, n, c)
    ensures Foremost(s, mode, n + 1, Challenge(s, mode, c, n))
  {
    hide Live;
    if Live(s, n) && c.Some? && Beats(mode, s[n], s[c.value]) {
      forall i: nat | i < n && Live(s, i) ensures Before(s, mode, n, i) {
        if i != c.value { BeforeTransitive(s, mode, n, c.value, i); }
      }
    }
  }

  /** pool_kill_check, skipping dead members. */
  function Challenge(s: seq<Seen>, mode: Mode, c: Option<nat>, i: nat): Option<nat>
    requires i < |s| && (c.Some? ==> c.value < |s|)
  {
    if !Live(s, i) then c
    else if c.None? || Beats(mode, s[i], s[c.value]) then Some(i) else c
  }

  /** With the parameter "one" the group's parameter is the number of live members. */
  lemma {:induction false} TotalCounts(s: seq<Seen>)
    requires forall i :: 0 <= i < |s| ==> s[i].usage <= 1
    ensures Total(s) == |LiveSet(s)|
  {
    if s != [] {
      var n := |s| - 1;
      var t := s[..n];
      TotalCounts(t);
      assert LiveSet(s) == LiveSet(t) + if s[n].usage > 0 then {n} else {};
    }
  }

  function Killed(s: seq<Seen>, v: nat): seq<Seen>
    requires v < |s|
  {
    s[v := s[v].(usage := 0)]
  }

  lemma LiveStep(s: seq<Seen>, v: nat)
    requires v < |s| && Live(s, v)
    ensures v in LiveSet(s) && LiveSet(Killed(s, v)) == LiveSet(s) - {v}
    ensures |LiveSet(s)| == |LiveSet(Killed(s, v))| + 1
  {
    assert LiveSet(Killed(s, v)) == LiveSet(s) - {v};
  }

  lemma EarlierStep(s: seq<Seen>, mode: Mode, v: nat, i: nat)
    requires Foremost(s, mode, |s|, Some(v)) && i < |s| && Live(Killed(s, v), i)
    ensures |Earlier(s, mode, i)| == |Earlier(Killed(s, v), mode, i)| + 1
  {
    var t := Killed(s, v);
    assert Live(s, i) && i != v;
    assert forall j: nat :: j < |s| && Live(t, j) ==> j != v && Live(s, j);
    assert forall j: nat :: j < |s| && Live(s, j) && j != v ==> Live(t, j);
    assert Earlier(s, mode, i) == Earlier(t, mode, i) + {v};
  }

  lemma NothingEarlier(s: seq<Seen>, mode: Mode, v: nat)
    requires Foremost(s, mode, |s|, Some(v))
    ensures v < |s| && Live(s, v) && Earlier(s, mode, v) == {}
  {
  }

  lemma IsVictim(s: seq<Seen>, mode: Mode, limit: nat, i: nat)
    ensures i in Victims(s, mode, limit) <==>
      i < |s| && Live(s, i) && |Earlier(s, mode, i)| < Excess(|LiveSet(s)|, limit)
  {
  }

  lemma VictimStep(s: seq<Seen>, mode: Mode, limit: nat, v: nat, i: nat)
    requires Foremost(s, mode, |s|, Some(v)) && |LiveSet(s)| >= limit
    ensures v < |s| && (i in Victims(s, mode, limit) <==> i == v || i in Victims(Killed(s, v), mode, limit))
    ensures v !in Victims(Killed(s, v), mode, limit)
  {
    hide Foremost, Before, Victims, LiveSet, Earlier;
    NothingEarlier(s, mode, v);
    LiveStep(s, v);
    IsVictim(s, mode, limit, i);
    IsVictim(Killed(s, v), mode, limit, i);
    IsVictim(Killed(s, v), mode, limit, v);
    if i < |s| && Live(Killed(s, v), i) { EarlierStep(s, mode, v, i); }
  }

  /** Destroying the foremost member leaves the other victims. */
  lemma KillStep(s: seq<Seen>, mode: Mode, limit: nat, v: nat)
    requires Foremost(s, mode, |s|, Some(v)) && |LiveSet(s)| >= limit
    ensures v in LiveSet(s) && LiveSet(Killed(s, v)) == LiveSet(s) - {v}
    ensures Victims(s, mode, limit) == Victims(Killed(s, v), mode, limit) + {v}
    ensures v !in Victims(Killed(s, v), mode, limit)
  {
    NothingEarlier(s, mode, v);
    LiveStep(s, v);
    hide *;
    forall i: nat
      ensures i in Victims(s, mode, limit) <==> i == v || i in Victims(Killed(s, v), mode, limit)
    {
      VictimStep(s, mode, limit, v, i);
    }
    VictimStep(s, mode, limit, v, v);
  }

  lemma VictimsAreLive(s: seq<Seen>, mode: Mode, limit: nat)
    ensures Victims(s, mode, limit) <= LiveSet(s)
  {
  }

  lemma NoVictims(s: seq<Seen>, mode: Mode, limit: nat)
    requires |LiveSet(s)| < limit || LiveSet(s) == {}
    ensures Victims(s, mode, limit) == {}
  {
    forall i: nat | i < |s| && Live(s, i) ensures i in LiveSet(s) {}
  }

  lemma {:induction false} ForemostExists(s: seq<Seen>, mode: Mode, n: nat) returns (c: Option<nat>)
    requires n <= |s|
    ensures Foremost(s, mode, n, c)
  {
    if n == 0 { c := None; }
    else {
      c := ForemostExists(s, mode, n - 1);
      ForemostStep(s, mode, n - 1, c);
      c := Challenge(s, mode, c, n - 1);
    }
  }

  /** Exactly as many members go as are too many: what is left is below the limit, and one more would not be. */
  lemma {:induction false} VictimsSuffice(s: seq<Seen>, mode: Mode, limit: nat)
    ensures Victims(s, mode, limit) <= LiveSet(s)
    ensures |Victims(s, mode, limit)| == Excess(|LiveSet(s)|, limit)
    ensures var left := |LiveSet(s) - Victims(s, mode, limit)|;
      && (left < limit || left == 0)
      && (Victims(s, mode, limit) != {} ==> left + 1 >= limit)
    decreases |LiveSet(s)|
  {
    hide Foremost, Before, Victims, LiveSet, Earlier, Killed;
    VictimsAreLive(s, mode, limit);
    if |LiveSet(s)| < limit || LiveSet(s) == {} {
      NoVictims(s, mode, limit);
      assert LiveSet(s) - {} == LiveSet(s);
    } else {
      var c := ForemostExists(s, mode, |s|);
      SomeForemost(s, mode, c);
      var t := Killed(s, c.value);
      KillStep(s, mode, limit, c.value);
      VictimsSuffice(t, mode, limit);
      assert LiveSet(t) - Victims(t, mode, limit) == LiveSet(s) - Victims(s, mode, limit);
    }
  }

  lemma SomeForemost(s: seq<Seen>, mode: Mode, c: Option<nat>)
    requires Foremost(s, mode, |s|, c) && LiveSet(s) != {}
    ensures c.Some? && c.value < |s| && c.value in LiveSet(s)
  {
    var i :| i in LiveSet(s);
    assert Live(s, i);
  }

  /** No survivor would have had to go before a victim: none is older (for Last: newer; for Highest and Lowest: by the
      parameter) than a victim, and among equals the victims stand further ahead in the list. */
  lemma SurvivorsComeLater(s: seq<Seen>, mode: Mode, limit: nat, v: nat, i: nat)
    requires v in Victims(s, mode, limit) && i in LiveSet(s) - Victims(s, mode, limit)
    ensures Before(s, mode, v, i)
    ensures mode == First ==> s[v].createdOn < s[i].createdOn || (s[v].createdOn == s[i].createdOn && v < i)
    ensures mode == Last ==> s[v].createdOn > s[i].createdOn || (s[v].createdOn == s[i].createdOn && v < i)
    ensures mode == Highest ==> s[v].usage > s[i].usage || (s[v].usage == s[i].usage && v < i)
    ensures mode == Lowest ==> s[v].usage < s[i].usage || (s[v].usage == s[i].usage && v < i)
  {
    if !Before(s, mode, v, i) {
      assert Before(s, mode, i, v);
      forall j | j in Earlier(s, mode, i) ensures j in Earlier(s, mode, v) {
        BeforeTransitive(s, mode, j, i, v);
      }
      SubsetSize(Earlier(s, mode, i), Earlier(s, mode, v));
      assert false;
    }
  }

  lemma {:induction false} SubsetSize(a: set<nat>, b: set<nat>)
    requires a <= b
    ensures |a| <= |b|
  {
    assert b == a + (b - a);
  }

  // ---- the members ----

  class Member {
    const createdOn: nat
    const ruleOne: Rule
    const ruleGlobal: Rule
    /** Requests are answered by pool_backend_request_died. */
    var died: bool
    var usage: nat

    predicate Valid() reads this { usage <= 1 && (died ==> usage == 0) }

    function See(): Seen reads this { Seen(createdOn, usage) }

    function Parameter(): (r: nat) reads this { if died then 0 else 1 }

    constructor (createdOn: nat, ruleOne: Rule, ruleGlobal: Rule)
      ensures Valid() && !died && usage == 0
      ensures this.createdOn == createdOn && this.ruleOne == ruleOne && this.ruleGlobal == ruleGlobal
    {
      this.createdOn, this.ruleOne, this.ruleGlobal := createdOn, ruleOne, ruleGlobal;
      died, usage := false, 0;
    }

    /** pool_backend_action */
    method Destroy()
      modifies this
      ensures Valid() && died && usage == 0
    {
      died := true;
      usage := Parameter();
    }

    /** pool_backend_action with the action "request": whatever the request does below, the parameter is refreshed. */
    method Notify()
      modifies this
      ensures died == old(died) && usage == Parameter()
    {
      usage := Parameter();
    }

    /** One turn of the "limit one" loop: measure, and destroy a member that alone exceeds its own limit. */
    method Measure()
      modifies this
      ensures Valid() && died == (old(died) || ruleOne.limit == 0) && usage == Parameter()
    {
      usage := Parameter();
      if usage > ruleOne.limit { Destroy(); }
    }
  }

  type Group = seq<Member>

  predicate Distinct(group: Group) {
    forall i, j :: 0 <= i < j < |group| ==> group[i] != group[j]
  }

  predicate AllValid(group: Group) reads group {
    forall i :: 0 <= i < |group| ==> group[i].Valid()
  }

  ghost function Snapshot(group: Group): (s: seq<Seen>)
    reads group
    ensures |s| == |group| && forall i :: 0 <= i < |s| ==> s[i] == group[i].See()
  {
    seq(|group|, i requires 0 <= i < |group| reads group => group[i].See())
  }

  /** pool_kill_check for the live member `i`. */
  method KillCheck(group: Group, mode: Mode, best: Option<nat>, i: nat) returns (now: Option<nat>)
    requires i < |group| && group[i].usage > 0 && Foremost(Snapshot(group), mode, i, best)
    ensures Foremost(Snapshot(group), mode, i + 1, now)
  {
    ForemostStep(Snapshot(group), mode, i, best);
    now := best;
    if best.None? { now := Some(i); }
    else if Beats(mode, group[i].See(), group[best.value].See()) { now := Some(i); }
  }

  lemma ForemostSkip(s: seq<Seen>, i: nat)
    requires i < |s| && !Live(s, i)
    ensures forall mode, c | Foremost(s, mode, i, c) :: Foremost(s, mode, i + 1, c)
    ensures Total(s[..i + 1]) == Total(s[..i])
  {
    assert s[..i + 1][..i] == s[..i];
  }

  /** One pass over the group: the sum of the parameters, and the candidate of each mode. */
  method Scan(group: Group)
    returns (total: nat, first: Option<nat>, last: Option<nat>, low: Option<nat>, high: Option<nat>)
    ensures var s := Snapshot(group);
      && total == Total(s)
      && Foremost(s, First, |s|, first) && Foremost(s, Last, |s|, last)
      && Foremost(s, Lowest, |s|, low) && Foremost(s, Highest, |s|, high)
  {
    hide Foremost, Total;
    ghost var s := Snapshot(group);
    total, first, last, low, high := 0, None, None, None, None;
    NothingYet(s);
    for i := 0 to |group|
      invariant total == Total(s[..i])
      invariant Foremost(s, First, i, first) && Foremost(s, Last, i, last)
      invariant Foremost(s, Lowest, i, low) && Foremost(s, Highest, i, high)
    {
      if group[i].usage == 0 { ForemostSkip(s, i); continue; }
      TotalStep(s, i);
      total := total + group[i].usage;
      first := KillCheck(group, First, first, i);
      last := KillCheck(group, Last, last, i);
      low := KillCheck(group, Lowest, low, i);
      high := KillCheck(group, Highest, high, i);
    }
    assert s[..|group|] == s;
  }

  lemma NothingYet(s: seq<Seen>)
    ensures Total(s[..0]) == 0 && forall mode :: Foremost(s, mode, 0, None)
  {
  }

  lemma TotalStep(s: seq<Seen>, i: nat)
    requires i < |s|
    ensures Total(s[..i + 1]) == Total(s[..i]) + s[i].usage
  {
    assert s[..i + 1][..i] == s[..i];
  }

  /** The members in `gone` are dead, all others are as they were in `s`. */
  ghost predicate Fell(group: Group, s: seq<Seen>, alive: set<nat>, gone: set<nat>)
    reads group
  {
    && |s| == |group|
    && (forall i: nat :: i < |group| && i in gone ==> group[i].died && group[i].usage == 0)
    && (forall i: nat :: i < |group| && i !in gone ==> group[i].died == (i !in alive) && group[i].usage == s[i].usage)
    && forall i: nat :: i < |group| ==> group[i].createdOn == s[i].createdOn
  }

  ghost function NotDied(group: Group): set<nat>
    reads group
  {
    set i: nat | i < |group| && !group[i].died
  }

  /** `victim` is to go next, or nobody has to. */
  ghost predicate Pending(s: seq<Seen>, rule: Rule, victim: Option<nat>) {
    if victim.Some? then Foremost(s, rule.mode, |s|, victim) && |LiveSet(s)| >= rule.limit
    else |LiveSet(s)| < rule.limit || LiveSet(s) == {}
  }

  method Choose(group: Group, rule: Rule) returns (victim: Option<nat>)
    requires AllValid(group)
    ensures Pending(Snapshot(group), rule, victim)
  {
    hide Foremost, LiveSet, Live;
    ghost var s := Snapshot(group);
    var total, first, last, low, high := Scan(group);
    TotalCounts(s);
    victim := None;
    if total >= rule.limit {
      match rule.mode {
        case First => victim := first;
        case Last => victim := last;
        case Highest => victim := high;
        case Lowest => victim := low;
      }
      ForemostIs(s, rule.mode, victim);
    }
  }

  method Kill(group: Group, v: nat, ghost s: seq<Seen>, ghost alive: set<nat>, ghost gone: set<nat>)
    requires Distinct(group) && AllValid(group) && v < |group| && Fell(group, s, alive, gone)
    modifies group
    ensures AllValid(group) && Fell(group, s, alive, gone + {v})
    ensures Snapshot(group) == Killed(old(Snapshot(group)), v)
  {
    group[v].Destroy();
    assert forall i: nat :: i < |group| && i != v ==> group[i].See() == old(group[i].See());
  }

  /** Destroys `v`, the foremost of too many, and sees who is next. */
  method KillNext(group: Group, rule: Rule, v: nat, ghost s: seq<Seen>, ghost alive: set<nat>, ghost gone: set<nat>)
    returns (victim: Option<nat>)
    requires Distinct(group) && AllValid(group) && Fell(group, s, alive, gone)
    requires Pending(Snapshot(group), rule, Some(v))
    modifies group
    ensures AllValid(group) && Fell(group, s, alive, gone + {v}) && Pending(Snapshot(group), rule, victim)
    ensures Victims(old(Snapshot(group)), rule.mode, rule.limit)
      == Victims(Snapshot(group), rule.mode, rule.limit) + {v}
    ensures |LiveSet(Snapshot(group))| < |LiveSet(old(Snapshot(group)))|
  {
    hide Foremost, Victims, LiveSet, Live, AllValid, Fell, Distinct, Killed;
    ghost var t := Snapshot(group);
    ForemostIs(t, rule.mode, Some(v));
    KillStep(t, rule.mode, rule.limit, v);
    LiveStep(t, v);
    Kill(group, v, s, alive, gone);
    victim := Choose(group, rule);
  }

  /** pool_group_limit: exactly the victims die. */
  method GroupLimit(group: Group, rule: Rule)
    requires Distinct(group) && AllValid(group)
    modifies group
    ensures AllValid(group)
    ensures Fell(group, old(Snapshot(group)), old(NotDied(group)),
      if rule.limit == NO_LIMIT then {} else Victims(old(Snapshot(group)), rule.mode, rule.limit))
  {
    ghost var s, alive := Snapshot(group), NotDied(group);
    ghost var gone: set<nat> := {};
    assert Fell(group, s, alive, gone);
    if rule.limit == NO_LIMIT { return; }
    hide *;
    var victim := Choose(group, rule);
    while victim.Some?
      invariant AllValid(group) && Fell(group, s, alive, gone) && Pending(Snapshot(group), rule, victim)
      invariant Victims(s, rule.mode, rule.limit) == gone + Victims(Snapshot(group), rule.mode, rule.limit)
      decreases |LiveSet(Snapshot(group))|
    {
      ghost var v := victim.value;
      victim := KillNext(group, rule, victim.value, s, alive, gone);
      gone := gone + {v};
    }
    NobodyPending(Snapshot(group), rule);
  }

  lemma NobodyPending(s: seq<Seen>, rule: Rule)
    requires Pending(s, rule, None)
    ensures Victims(s, rule.mode, rule.limit) == {}
  {
    NoVictims(s, rule.mode, rule.limit);
  }

  /** The same turn with the action "request": nothing has changed, and somebody is chosen again. */
  method NotifyNext(group: Group, rule: Rule, v: nat) returns (victim: Option<nat>)
    requires Distinct(group) && AllValid(group) && Measured(group) && Pending(Snapshot(group), rule, Some(v))
    modifies group
    ensures AllValid(group) && Measured(group) && Snapshot(group) == old(Snapshot(group))
    ensures victim.Some? && Pending(Snapshot(group), rule, victim)
  {
    ghost var s := Snapshot(group);
    ForemostIs(s, rule.mode, Some(v));
    assert v in LiveSet(s) && |LiveSet(s)| >= rule.limit;
    group[v].Notify();
    assert Snapshot(group) == s;
    hide *;
    victim := Choose(group, rule);
    SomebodyPending(s, rule, v, victim);
  }

  lemma SomebodyPending(s: seq<Seen>, rule: Rule, v: nat, victim: Option<nat>)
    requires Pending(s, rule, victim) && v in LiveSet(s) && |LiveSet(s)| >= rule.limit
    ensures victim.Some?
  {
  }

  lemma ForemostIs(s: seq<Seen>, mode: Mode, c: Option<nat>)
    requires Foremost(s, mode, |s|, c)
    ensures c.None? ==> LiveSet(s) == {}
    ensures c.Some? ==> c.value < |s| && Live(s, c.value)
  {
  }

  // ---- one round of the watching thread ----

  /** The "limit one" loop over all members. */
  method MeasureAll(group: Group)
    requires Distinct(group)
    modifies group
    ensures AllValid(group)
    ensures forall i: nat :: i < |group| ==> group[i].usage == group[i].Parameter()
    ensures forall i: nat :: i < |group| ==> group[i].died == (old(group[i].died) || group[i].ruleOne.limit == 0)
  {
    for n := 0 to |group|
      invariant forall i: nat :: i < n ==>
        group[i].Valid() && group[i].usage == group[i].Parameter()
      invariant forall i: nat :: i < n ==> group[i].died == (old(group[i].died) || group[i].ruleOne.limit == 0)
      invariant forall i: nat :: n <= i < |group| ==> group[i].died == old(group[i].died)
    {
      group[n].Measure();
    }
  }

  ghost predicate Measured(group: Group)
    reads group
  {
    forall i: nat :: i < |group| ==> group[i].usage == group[i].Parameter()
  }

  /** The limit `rule` sets is kept by `alive` members. */
  predicate Within(alive: nat, rule: Rule) {
    rule.limit == NO_LIMIT || alive < rule.limit || alive == 0
  }

  /** After a measurement, the members seen alive are those that answer requests. */
  lemma LiveAreNotDied(group: Group)
    requires Measured(group)
    ensures LiveSet(Snapshot(group)) == NotDied(group)
  {
  }

  lemma FellApart(group: Group, s: seq<Seen>, alive: set<nat>, gone: set<nat>)
    requires Fell(group, s, alive, gone) && alive == LiveSet(s) && gone <= alive
    requires forall i: nat :: i < |s| ==> s[i].usage <= 1
    ensures Measured(group) && NotDied(group) == alive - gone
  {
    forall i: nat | i < |group| ensures group[i].usage == group[i].Parameter() {
      assert i in alive <==> Live(s, i);
    }
  }

  /** The global loop: every member's own rule is put to the whole group. In the end all rules are kept, by as many
      members as the tightest allows. */
  method LimitGlobal(group: Group)
    requires Distinct(group) && AllValid(group) && Measured(group)
    modifies group
    ensures AllValid(group) && Measured(group)
    ensures NotDied(group) <= old(NotDied(group))
    ensures forall i: nat :: i < |group| ==> Within(|NotDied(group)|, group[i].ruleGlobal)
    ensures NotDied(group) == old(NotDied(group))
      || exists i: nat :: i < |group| && !Within(|NotDied(group)| + 1, group[i].ruleGlobal)
  {
    hide AllValid, Distinct, Victims, LiveSet, Fell, Measured;
    for n := 0 to |group|
      invariant AllValid(group) && Measured(group) && NotDied(group) <= old(NotDied(group))
      invariant forall i: nat :: i < n ==> Within(|NotDied(group)|, group[i].ruleGlobal)
      invariant NotDied(group) == old(NotDied(group))
        || exists i: nat :: i < n && !Within(|NotDied(group)| + 1, group[i].ruleGlobal)
    {
      ApplyGlobal(group, group[n].ruleGlobal);
    }
  }

  method ApplyGlobal(group: Group, rule: Rule)
    requires Distinct(group) && AllValid(group) && Measured(group)
    modifies group
    ensures AllValid(group) && Measured(group)
    ensures NotDied(group) <= old(NotDied(group)) && |NotDied(group)| <= |old(NotDied(group))|
    ensures Within(|NotDied(group)|, rule)
    ensures NotDied(group) == old(NotDied(group)) || !Within(|NotDied(group)| + 1, rule)
  {
    ghost var s, alive := Snapshot(group), NotDied(group);
    ghost var gone := if rule.limit == NO_LIMIT then {} else Victims(s, rule.mode, rule.limit);
    assert forall i: nat :: i < |s| ==> s[i].usage <= 1;
    hide *;
    LiveAreNotDied(group);
    GroupLimit(group, rule);
    LimitKept(s, rule, gone);
    FellApart(group, s, alive, gone);
    SubsetSize(NotDied(group), alive);
  }

  lemma LimitKept(s: seq<Seen>, rule: Rule, gone: set<nat>)
    requires gone == if rule.limit == NO_LIMIT then {} else Victims(s, rule.mode, rule.limit)
    ensures gone <= LiveSet(s) && Within(|LiveSet(s) - gone|, rule)
    ensures LiveSet(s) - gone == LiveSet(s) || !Within(|LiveSet(s) - gone| + 1, rule)
  {
    hide Victims, LiveSet, Excess;
    VictimsSuffice(s, rule.mode, rule.limit);
    if gone == {} { assert LiveSet(s) - gone == LiveSet(s); }
  }
}
