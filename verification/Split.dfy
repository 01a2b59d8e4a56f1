/** The stream splitter: reads its input through a small window and cuts behind every separator. */
module Split {

  import opened Common

  // ---- what is promised ----

  predicate MatchAt(input: seq<Byte>, sep: seq<Byte>, k: nat) {
    k + |sep| <= |input| && input[k..k + |sep|] == sep
  }

  lemma MatchByte(input: seq<Byte>, sep: seq<Byte>, k: nat)
    requires |sep| > 0 && MatchAt(input, sep, k)
    ensures k < |input| && input[k] == sep[0]
  {
    assert input[k] == input[k..k + |sep|][0];
  }

  lemma OneByteMatch(input: seq<Byte>, c: Byte, k: nat)
    ensures MatchAt(input, [c], k) <==> k < |input| && input[k] == c
  {
    if k < |input| { assert input[k..k + 1] == [input[k]]; }
  }

  /** The ends of the separators that start in [from, to). */
  function Matches(input: seq<Byte>, sep: seq<Byte>, from: nat, upto: nat): seq<nat>
    decreases upto - from
  {
    if from >= upto then []
    else (if MatchAt(input, sep, from) then [from + |sep|] else []) + Matches(input, sep, from + 1, upto)
  }

  // ---- the window algorithm ----

  /** `window` is the unread part of the reused buffer, which starts `skipped` bytes into it;
      `base` and `end` are the stream offsets the code believes the buffer starts and ends at;
      `slider` is the true position of the next read. */
  datatype State = State(window: seq<Byte>, skipped: nat, base: nat, end: nat, slider: nat, cuts: seq<nat>)

  /** Up to `n` bytes at the slider. */
  function ReadMore(input: seq<Byte>, slider: nat, n: nat): seq<Byte>
    requires slider <= |input|
  {
    input[slider..Min(slider + n, |input|)]
  }

  /** memchr */
  function Find(s: seq<Byte>, c: Byte): (m: nat)
    ensures m <= |s| && (m < |s| ==> s[m] == c) && forall i :: 0 <= i < m ==> s[i] != c
  {
    if s == [] || s[0] == c then 0 else 1 + Find(s[1..], c)
  }

  /** One turn of the inner loop; None leaves it. */
  function Turn(input: seq<Byte>, sep: seq<Byte>, size: nat, st: State): (r: Option<State>)
    requires 0 < |sep| <= size && st.slider <= |input|
    ensures r.Some? ==> r.value.slider <= |input|
    ensures r.Some? ==> r.value.slider > st.slider || (r.value.slider == st.slider && |r.value.window| < |st.window|)
  {
    var m := Find(st.window, sep[0]);
    var rest := st.window[m..];
    if rest == [] then None
    else if |rest| < |sep| then
      var more := ReadMore(input, st.slider, size - |rest|);
      if more == [] then None
      else
        var base := st.base + st.skipped + m;
        Some(State(rest + more, 0, base, base + |more|, st.slider + |more|, st.cuts))
    else
      var cuts := if rest[..|sep|] == sep then st.cuts + [st.base + st.skipped + m + |sep|] else st.cuts;
      Some(st.(window := rest[1..], skipped := st.skipped + m + 1, cuts := cuts))
  }

  function Inner(input: seq<Byte>, sep: seq<Byte>, size: nat, st: State): (r: State)
    requires 0 < |sep| <= size && st.slider <= |input|
    ensures st.slider <= r.slider <= |input|
    decreases |input| - st.slider, |st.window|
  {
    var next := Turn(input, sep, size, st);
    if next.None? then st else Inner(input, sep, size, next.value)
  }

  function Refill(input: seq<Byte>, size: nat, st: State): State
    requires st.slider <= |input|
  {
    var data := ReadMore(input, st.slider, size);
    State(data, 0, st.base, st.base + |data|, st.slider + |data|, st.cuts)
  }

  function Outer(input: seq<Byte>, sep: seq<Byte>, size: nat, st: State): seq<nat>
    requires 0 < |sep| <= size && st.slider <= |input|
    decreases |input| - st.slider
  {
    if st.slider == |input| then st.cuts
    else
      var done := Inner(input, sep, size, Refill(input, size, st));
      Outer(input, sep, size, done.(base := done.end))
  }

  const START := State([], 0, 0, 0, 0, [])

  /** Where split_handler cuts the input: the ends of all slices but the last. */
  function Cuts(input: seq<Byte>, sep: seq<Byte>, size: nat): seq<nat>
    requires 0 < |sep| <= size
  {
    Outer(input, sep, size, START)
  }

  /** split_handler, with the reused window as a buffer of `size` bytes. */
  method SplitHandler(input: seq<Byte>, sep: seq<Byte>, size: nat) returns (cuts: seq<nat>)
    requires 0 < |sep| <= size
    ensures cuts == Cuts(input, sep, size)
  {
    hide Inner;
    var tmp := new Byte[size];
    var slider: nat, base: nat, end: nat := 0, 0, 0;
    cuts := [];
    ghost var entry := START;
    while slider < |input|
      invariant slider <= |input|
      invariant entry == State(entry.window, entry.skipped, base, entry.end, slider, cuts)
      invariant Outer(input, sep, size, entry) == Cuts(input, sep, size)
      decreases |input| - slider
    {
      var n := Min(size, |input| - slider);
      forall i | 0 <= i < n { tmp[i] := input[slider + i]; }
      assert tmp[0..n] == ReadMore(input, slider, size);
      slider, end := slider + n, base + n;
      ghost var done;
      base, end, slider, cuts, done := ScanWindow(input, sep, tmp, n, base, end, slider, cuts);
      entry := done.(base := end);
      base := end;
    }
  }

  /** The inner loop over one window of `n` bytes. */
  method ScanWindow(input: seq<Byte>, sep: seq<Byte>, tmp: array<Byte>, n: nat, base0: nat, end0: nat, slider0: nat,
                    cuts0: seq<nat>)
    returns (base: nat, end: nat, slider: nat, cuts: seq<nat>, ghost st: State)
    requires 0 < |sep| <= tmp.Length && n <= tmp.Length && slider0 <= |input|
    modifies tmp
    ensures st == Inner(input, sep, tmp.Length, State(old(tmp[0..n]), 0, base0, end0, slider0, cuts0))
    ensures st == State(st.window, st.skipped, base, end, slider, cuts)
  {
    hide Turn, Inner;
    var buffer: nat, left: nat := 0, n;
    base, end, slider, cuts := base0, end0, slider0, cuts0;
    st := State(tmp[0..n], 0, base0, end0, slider0, cuts0);
    ghost var result := Inner(input, sep, tmp.Length, st);
    var more := true;
    while more
      invariant buffer + left <= tmp.Length && slider <= |input|
      invariant st == State(tmp[buffer..buffer + left], buffer, base, end, slider, cuts)
      invariant Inner(input, sep, tmp.Length, st) == result
      invariant !more ==> st == result
      decreases |input| - slider, left, more
    {
      InnerTurn(input, sep, tmp.Length, st);
      more, buffer, left, base, end, slider, cuts :=
        WindowTurn(input, sep, tmp, buffer, left, base, end, slider, cuts, st);
      if more { st := Turn(input, sep, tmp.Length, st).value; }
    }
  }

  lemma InnerTurn(input: seq<Byte>, sep: seq<Byte>, size: nat, st: State)
    requires 0 < |sep| <= size && st.slider <= |input|
    ensures var next := Turn(input, sep, size, st);
      Inner(input, sep, size, st) == if next.None? then st else Inner(input, sep, size, next.value)
  {
  }

  /** The three ways a turn goes: nothing left to do, carry over a partial separator, look at a full one. */
  lemma TurnStops(input: seq<Byte>, sep: seq<Byte>, size: nat, st: State)
    requires 0 < |sep| <= size && st.slider <= |input|
    requires var rest := st.window[Find(st.window, sep[0])..];
      rest == [] || (|rest| < |sep| && ReadMore(input, st.slider, size - |rest|) == [])
    ensures Turn(input, sep, size, st) == None
  {
  }

  lemma LeavesLoop(input: seq<Byte>, sep: seq<Byte>, size: nat, st: State)
    requires 0 < |sep| <= size && st.slider <= |input|
    requires var rest := st.window[Find(st.window, sep[0])..];
      rest == [] || (|rest| < |sep| && ReadMore(input, st.slider, size - |rest|) == [])
    ensures TurnIs(input, sep, size, st, false, st)
  {
    hide Find, Turn;
    TurnStops(input, sep, size, st);
  }

  lemma TurnCarries(input: seq<Byte>, sep: seq<Byte>, size: nat, st: State, m: nat, rest: seq<Byte>, more: seq<Byte>)
    requires 0 < |sep| <= size && st.slider <= |input|
    requires m == Find(st.window, sep[0]) && rest == st.window[m..] && 0 < |rest| < |sep|
    requires more == ReadMore(input, st.slider, size - |rest|) != []
    ensures var base := st.base + st.skipped + m;
      Turn(input, sep, size, st) == Some(State(rest + more, 0, base, base + |more|, st.slider + |more|, st.cuts))
  {
  }

  lemma TurnLooks(input: seq<Byte>, sep: seq<Byte>, size: nat, st: State, m: nat, rest: seq<Byte>)
    requires 0 < |sep| <= size && st.slider <= |input|
    requires m == Find(st.window, sep[0]) && rest == st.window[m..] && |rest| >= |sep|
    ensures Turn(input, sep, size, st) ==
      Some(State(rest[1..], st.skipped + m + 1, st.base, st.end, st.slider,
                 if rest[..|sep|] == sep then st.cuts + [st.base + st.skipped + m + |sep|] else st.cuts))
  {
  }

  /** The turn goes on with `now`, or stops and leaves `st`. */
  ghost predicate TurnIs(input: seq<Byte>, sep: seq<Byte>, size: nat, st: State, more: bool, now: State)
    requires 0 < |sep| <= size && st.slider <= |input|
  {
    if more then Turn(input, sep, size, st) == Some(now) else Turn(input, sep, size, st) == None && now == st
  }

  /** The body of the inner loop; `more` tells that it goes on. */
  method WindowTurn(input: seq<Byte>, sep: seq<Byte>, tmp: array<Byte>, buffer0: nat, left0: nat, base0: nat, end0: nat,
                    slider0: nat, cuts0: seq<nat>, ghost st: State)
    returns (more: bool, buffer: nat, left: nat, base: nat, end: nat, slider: nat, cuts: seq<nat>)
    requires 0 < |sep| <= tmp.Length && buffer0 + left0 <= tmp.Length && slider0 <= |input|
    requires st == State(tmp[buffer0..buffer0 + left0], buffer0, base0, end0, slider0, cuts0)
    modifies tmp
    ensures buffer + left <= tmp.Length && slider <= |input|
    ensures TurnIs(input, sep, tmp.Length, st, more, State(tmp[buffer..buffer + left], buffer, base, end, slider, cuts))
  {
    hide Find, TurnIs;
    more, buffer, left, base, end, slider, cuts := false, buffer0, left0, base0, end0, slider0, cuts0;
    var m := Find(tmp[buffer..buffer + left], sep[0]);
    if m == left { LeavesLoop(input, sep, tmp.Length, st); return; }
    var at, rest := buffer + m, left - m;
    Tail(tmp, buffer, left, m);
    if rest < |sep| {
      var n := Min(tmp.Length - rest, |input| - slider);
      if n == 0 { LeavesLoop(input, sep, tmp.Length, st); return; }
      left := CarryTurn(input, sep, tmp, at, rest, n, slider, m, st);
      buffer, base, slider, end := 0, base + at, slider + n, base + at + n;
    } else {
      cuts := LookTurn(input, sep, tmp, at, rest, base, cuts, m, st);
      buffer, left := at + 1, rest - 1;
    }
    more := true;
  }

  /** The turn that carries the `rest` bytes at `at` over and reads `n` more. */
  method CarryTurn(input: seq<Byte>, sep: seq<Byte>, tmp: array<Byte>, at: nat, rest: nat, n: nat, slider: nat,
                   ghost m: nat, ghost st: State)
    returns (left: nat)
    requires 0 < rest < |sep| <= tmp.Length && st.slider <= |input| && at + rest <= tmp.Length
    requires m == Find(st.window, sep[0]) && at == st.skipped + m && tmp[at..at + rest] == st.window[m..]
    requires slider == st.slider && 0 < n == Min(tmp.Length - rest, |input| - slider)
    modifies tmp
    ensures left == rest + n <= tmp.Length
    ensures TurnIs(input, sep, tmp.Length, st, true,
                   State(tmp[0..left], 0, st.base + at, st.base + at + n, st.slider + n, st.cuts))
  {
    hide Find, Turn;
    TurnCarries(input, sep, tmp.Length, st, m, st.window[m..], input[st.slider..st.slider + n]);
    left := CarryOver(input, tmp, at, rest, slider, n);
  }

  /** The turn that looks for the separator at `at`. */
  method LookTurn(input: seq<Byte>, sep: seq<Byte>, tmp: array<Byte>, at: nat, rest: nat, base: nat, cuts0: seq<nat>,
                  ghost m: nat, ghost st: State)
    returns (cuts: seq<nat>)
    requires 0 < |sep| <= rest && |sep| <= tmp.Length && st.slider <= |input| && at + rest <= tmp.Length
    requires m == Find(st.window, sep[0]) && at == st.skipped + m && tmp[at..at + rest] == st.window[m..]
    requires base == st.base && cuts0 == st.cuts
    ensures TurnIs(input, sep, tmp.Length, st, true,
                   State(tmp[at + 1..at + rest], at + 1, base, st.end, st.slider, cuts))
  {
    hide Find, Turn;
    cuts := Look(sep, tmp, at, rest, base, cuts0);
    TurnLooks(input, sep, tmp.Length, st, m, st.window[m..]);
  }

  lemma Tail(tmp: array<Byte>, buffer: nat, left: nat, m: nat)
    requires m <= left && buffer + left <= tmp.Length
    ensures tmp[buffer..buffer + left][m..] == tmp[buffer + m..buffer + left]
  {
  }

  /** Compares the separator with the window at `at`, and cuts behind it. */
  method Look(sep: seq<Byte>, tmp: array<Byte>, at: nat, rest: nat, base: nat, cuts0: seq<nat>) returns (cuts: seq<nat>)
    requires 0 < |sep| <= rest && at + rest <= tmp.Length
    ensures cuts == if tmp[at..at + rest][..|sep|] == sep then cuts0 + [base + at + |sep|] else cuts0
    ensures tmp[at..at + rest][1..] == tmp[at + 1..at + rest]
  {
    assert tmp[at..at + rest][..|sep|] == tmp[at..at + |sep|];
    cuts := cuts0;
    if tmp[at..at + |sep|] == sep {
      cuts := cuts + [base + at + |sep|];
    }
  }

  /** Moves the `kept` bytes at `at` to the front of the window and reads `more` bytes behind them. */
  method CarryOver(input: seq<Byte>, tmp: array<Byte>, at: nat, kept: nat, slider: nat, more: nat) returns (left: nat)
    requires at + kept <= tmp.Length && kept + more <= tmp.Length && slider + more <= |input|
    modifies tmp
    ensures left == kept + more
    ensures tmp[0..left] == old(tmp[at..at + kept]) + input[slider..slider + more]
  {
    ghost var head := tmp[at..at + kept];
    forall i | 0 <= i < kept { tmp[i] := tmp[at + i]; }
    assert tmp[..kept] == head;
    forall i | 0 <= i < more { tmp[kept + i] := input[slider + i]; }
    left := kept + more;
    assert tmp[..kept] == head;
  }

  // ---- what the window algorithm finds ----

  lemma {:induction false} MatchesSplit(input: seq<Byte>, sep: seq<Byte>, from: nat, mid: nat, upto: nat)
    requires from <= mid <= upto
    ensures Matches(input, sep, from, upto) == Matches(input, sep, from, mid) + Matches(input, sep, mid, upto)
    decreases mid - from
  {
    if from < mid {
      MatchesSplit(input, sep, from + 1, mid, upto);
    }
  }

  lemma {:induction false} NoMatches(input: seq<Byte>, sep: seq<Byte>, from: nat, upto: nat)
    requires from <= upto && forall k :: from <= k < upto ==> !MatchAt(input, sep, k)
    ensures Matches(input, sep, from, upto) == []
    decreases upto - from
  {
    if from < upto {
      NoMatches(input, sep, from + 1, upto);
    }
  }

  /** Where the unread part of the window really starts. */
  function Unread(st: State): nat
    requires |st.window| <= st.slider
  {
    st.slider - |st.window|
  }

  /** The window shows the input in front of the slider, and the code believes it to start `lost` bytes too early. */
  ghost predicate Reads(input: seq<Byte>, st: State, lost: nat) {
    && |st.window| <= st.slider <= |input|
    && st.window == input[Unread(st)..st.slider]
    && st.base + st.skipped + lost == Unread(st)
  }

  /** The first occurrence of `c` in [from, end), or `end`. */
  function Candidate(input: seq<Byte>, c: Byte, from: nat, end: nat): (p: nat)
    requires from <= end <= |input|
    ensures from <= p <= end && (p < end ==> input[p] == c) && forall k :: from <= k < p ==> input[k] != c
    decreases end - from
  {
    if from == end || input[from] == c then from else Candidate(input, c, from + 1, end)
  }

  /** Where the processing of a window that was filled up to `end` stops: if the separator's first byte occurs too
      close to the end to be decided, the window is refilled from there. */
  function WindowEnd(input: seq<Byte>, sep: seq<Byte>, size: nat, end: nat): (r: nat)
    requires 0 < |sep| <= size && end <= |input|
    ensures end <= r <= |input|
    decreases |input| - end
  {
    var p := Candidate(input, sep[0], if end + 1 < |sep| then 0 else end + 1 - |sep|, end);
    if end == |input| || p == end then end else WindowEnd(input, sep, size, Min(p + size, |input|))
  }

  /** Windows start at `from`, `from + size`, ...: the end of the first one that carries bytes over. Up to there the
      offsets are right. */
  function Trusted(input: seq<Byte>, sep: seq<Byte>, size: nat, from: nat): (r: nat)
    requires 0 < |sep| <= size && from <= |input|
    ensures from <= r <= |input|
    decreases |input| - from
  {
    if from == |input| then from
    else
      var end := Min(from + size, |input|);
      var stop := WindowEnd(input, sep, size, end);
      if stop == end then Trusted(input, sep, size, end) else stop
  }

  function Lower(s: seq<nat>, lost: nat): seq<int> {
    seq(|s|, i requires 0 <= i < |s| => s[i] - lost)
  }

  /** Before the next occurrence of the separator's first byte there is no match. */
  lemma FirstByteMissing(input: seq<Byte>, sep: seq<Byte>, st: State, lost: nat, m: nat)
    requires 0 < |sep| && Reads(input, st, lost) && m == Find(st.window, sep[0])
    ensures Matches(input, sep, Unread(st), Unread(st) + m) == []
    ensures forall k :: Unread(st) <= k < Unread(st) + m ==> input[k] != sep[0]
    ensures m < |st.window| ==> input[Unread(st) + m] == sep[0]
  {
    var from := Unread(st);
    hide Find, MatchAt;
    forall k | from <= k < from + m ensures input[k] != sep[0] && !MatchAt(input, sep, k) {
      assert st.window[k - from] == input[k] != sep[0];
      if MatchAt(input, sep, k) { MatchByte(input, sep, k); }
    }
    NoMatches(input, sep, from, from + m);
  }

  /** The first candidate close to the end of the window is the one the search in the window meets. */
  lemma CandidateMet(input: seq<Byte>, sep: seq<Byte>, st: State, lost: nat, m: nat, lo: nat)
    requires 0 < |sep| && Reads(input, st, lost) && m == Find(st.window, sep[0])
    requires Unread(st) <= lo <= Unread(st) + m
    ensures Candidate(input, sep[0], lo, st.slider) == Unread(st) + m
  {
    hide Find, Matches;
    FirstByteMissing(input, sep, st, lost, m);
  }

  /** What one window finds: every match in it, each cut `lost` bytes early; a carry loses more bytes. */
  ghost predicate Found(input: seq<Byte>, sep: seq<Byte>, size: nat, st: State, lost: nat, gap: nat, r: State)
    requires 0 < |sep| <= size && |st.window| <= st.slider <= |input|
  {
    && r.slider == WindowEnd(input, sep, size, st.slider)
    && r.cuts == st.cuts + Lower(Matches(input, sep, Unread(st), r.slider), lost)
    && (if r.slider == st.slider then r.end + gap == r.slider else r.end + lost < r.slider)
  }

  lemma FoundStop(input: seq<Byte>, sep: seq<Byte>, size: nat, st: State, lost: nat, gap: nat, m: nat)
    requires 0 < |sep| <= size && Reads(input, st, lost) && m == Find(st.window, sep[0])
    requires st.end + gap == st.slider
    requires st.slider < |input| ==> |st.window| + 1 >= |sep| && m == |st.window|
    requires m == |st.window| || |st.window| < m + |sep|
    ensures Found(input, sep, size, st, lost, gap, st)
  {
    hide Find, Matches, MatchAt;
    var from := Unread(st);
    FirstByteMissing(input, sep, st, lost, m);
    MatchesSplit(input, sep, from, from + m, st.slider);
    TooShort(input, sep, from + m, st.slider);
    if st.slider < |input| {
      CandidateMet(input, sep, st, lost, m, if st.slider + 1 < |sep| then 0 else st.slider + 1 - |sep|);
    }
  }

  /** The end of a window that is carried over. */
  lemma CarryEnd(input: seq<Byte>, sep: seq<Byte>, size: nat, st: State, lost: nat, m: nat)
    requires 0 < |sep| <= size && Reads(input, st, lost) && m == Find(st.window, sep[0])
    requires st.slider < |input| && |st.window| + 1 >= |sep| && m < |st.window| < m + |sep|
    ensures WindowEnd(input, sep, size, st.slider) == WindowEnd(input, sep, size, Min(Unread(st) + m + size, |input|))
  {
    hide Find, Candidate, WindowEnd;
    CandidateMet(input, sep, st, lost, m, if st.slider + 1 < |sep| then 0 else st.slider + 1 - |sep|);
    EndMoves(input, sep, size, st.slider);
  }

  lemma EndMoves(input: seq<Byte>, sep: seq<Byte>, size: nat, end: nat)
    requires 0 < |sep| <= size && end < |input|
    ensures var p := Candidate(input, sep[0], if end + 1 < |sep| then 0 else end + 1 - |sep|, end);
      p < end ==> WindowEnd(input, sep, size, end) == WindowEnd(input, sep, size, Min(p + size, |input|))
  {
  }

  lemma FoundCarry(input: seq<Byte>, sep: seq<Byte>, size: nat, st: State, lost: nat, gap: nat, m: nat, next: State,
                   r: State)
    requires 0 < |sep| <= size && Reads(input, st, lost) && m == Find(st.window, sep[0])
    requires st.slider < |input| && |st.window| + 1 >= |sep| && m < |st.window| < m + |sep|
    requires |st.window| <= st.slider && |next.window| <= next.slider == Min(Unread(st) + m + size, |input|)
    requires Unread(next) == Unread(st) + m
    requires next.cuts == st.cuts && st.slider < next.slider
    requires Found(input, sep, size, next, lost, lost + (|st.window| - m), r)
    ensures Found(input, sep, size, st, lost, gap, r)
  {
    hide Find, Matches, WindowEnd, Reads;
    CarryEnd(input, sep, size, st, lost, m);
    FirstByteMissing(input, sep, st, lost, m);
    MatchesSplit(input, sep, Unread(st), Unread(st) + m, r.slider);
  }

  lemma FoundLook(input: seq<Byte>, sep: seq<Byte>, size: nat, st: State, lost: nat, gap: nat, m: nat, next: State,
                  r: State)
    requires 0 < |sep| <= size && Reads(input, st, lost) && m == Find(st.window, sep[0]) && m + |sep| <= |st.window|
    requires next.slider == st.slider && |next.window| <= next.slider && Unread(next) == Unread(st) + m + 1
    requires next.cuts == st.cuts + if MatchAt(input, sep, Unread(st) + m) then [Unread(st) + m + |sep| - lost] else []
    requires Found(input, sep, size, next, lost, gap, r)
    ensures Found(input, sep, size, st, lost, gap, r)
  {
    assert |st.window| <= st.slider;
    hide Find, Matches, WindowEnd, Reads, MatchAt;
    FirstByteMissing(input, sep, st, lost, m);
    LookFinds(input, sep, st, lost, m, next, r.slider);
  }

  lemma {:induction false} InnerFinds(input: seq<Byte>, sep: seq<Byte>, size: nat, st: State, lost: nat, gap: nat)
    requires 0 < |sep| <= size && Reads(input, st, lost) && st.end + gap == st.slider && gap >= lost
    requires st.slider < |input| ==> |st.window| + 1 >= |sep|
    ensures Found(input, sep, size, st, lost, gap, Inner(input, sep, size, st))
    decreases |input| - st.slider, |st.window|
  {
    hide Find, Matches, Inner, Turn, MatchAt, WindowEnd, Found;
    var m := Find(st.window, sep[0]);
    var rest := st.window[m..];
    InnerTurn(input, sep, size, st);
    if rest == [] || (|rest| < |sep| && st.slider == |input|) {
      TurnStops(input, sep, size, st);
      FoundStop(input, sep, size, st, lost, gap, m);
    } else if |rest| < |sep| {
      var more := ReadMore(input, st.slider, size - |rest|);
      TurnCarries(input, sep, size, st, m, rest, more);
      var next := Turn(input, sep, size, st).value;
      CarryReads(input, size, st, lost, m, next);
      InnerFinds(input, sep, size, next, lost, lost + |rest|);
      FoundCarry(input, sep, size, st, lost, gap, m, next, Inner(input, sep, size, next));
    } else {
      TurnLooks(input, sep, size, st, m, rest);
      var next := Turn(input, sep, size, st).value;
      LookReads(input, sep, st, lost, m, next);
      InnerFinds(input, sep, size, next, lost, gap);
      FoundLook(input, sep, size, st, lost, gap, m, next, Inner(input, sep, size, next));
    }
  }

  lemma CarryReads(input: seq<Byte>, size: nat, st: State, lost: nat, m: nat, next: State)
    requires Reads(input, st, lost) && m < |st.window| < m + size && st.slider < |input|
    requires var rest := st.window[m..]; var more := ReadMore(input, st.slider, size - |rest|);
      var base := st.base + st.skipped + m;
      next == State(rest + more, 0, base, base + |more|, st.slider + |more|, st.cuts)
    ensures Reads(input, next, lost) && Unread(next) == Unread(st) + m
    ensures st.slider < next.slider == Min(Unread(st) + m + size, |input|)
    ensures next.slider < |input| ==> |next.window| == size
    ensures next.end + lost + |st.window[m..]| == next.slider
  {
    SliceOfSlice(input, Unread(st), st.slider, m);
  }

  lemma LookReads(input: seq<Byte>, sep: seq<Byte>, st: State, lost: nat, m: nat, next: State)
    requires 0 < |sep| && Reads(input, st, lost) && m + |sep| <= |st.window|
    requires var rest := st.window[m..];
      next == State(rest[1..], st.skipped + m + 1, st.base, st.end, st.slider,
                    if rest[..|sep|] == sep then st.cuts + [st.base + st.skipped + m + |sep|] else st.cuts)
    ensures Reads(input, next, lost) && Unread(next) == Unread(st) + m + 1
    ensures next.cuts == st.cuts + if MatchAt(input, sep, Unread(st) + m) then [Unread(st) + m + |sep| - lost] else []
  {
    var k, rest := Unread(st) + m, st.window[m..];
    SliceOfSlice(input, Unread(st), st.slider, m);
    assert rest[..|sep|] == input[k..k + |sep|] by { hide Reads; }
    assert rest[1..] == input[k + 1..st.slider] by { hide Reads; }
  }

  lemma LookFinds(input: seq<Byte>, sep: seq<Byte>, st: State, lost: nat, m: nat, next: State, stop: nat)
    requires |st.window| <= st.slider && Unread(st) + m < stop
    requires Matches(input, sep, Unread(st), Unread(st) + m) == []
    requires next.cuts == st.cuts + if MatchAt(input, sep, Unread(st) + m) then [Unread(st) + m + |sep| - lost] else []
    ensures next.cuts + Lower(Matches(input, sep, Unread(st) + m + 1, stop), lost)
      == st.cuts + Lower(Matches(input, sep, Unread(st), stop), lost)
  {
    hide MatchAt, Matches;
    var k := Unread(st) + m;
    MatchesSplit(input, sep, Unread(st), k, stop);
    MatchesStep(input, sep, k, stop);
  }

  /** Near the end of the input, or in front of an empty rest, no separator starts. */
  lemma TooShort(input: seq<Byte>, sep: seq<Byte>, from: nat, upto: nat)
    requires from <= upto <= |input| && (from == upto || |input| < from + |sep|)
    ensures Matches(input, sep, from, upto) == []
  {
    NoMatches(input, sep, from, upto);
  }

  lemma SliceOfSlice(input: seq<Byte>, i: nat, j: nat, m: nat)
    requires i <= i + m <= j <= |input|
    ensures input[i..j][m..] == input[i + m..j]
  {
  }

  lemma MatchesStep(input: seq<Byte>, sep: seq<Byte>, k: nat, upto: nat)
    requires k < upto
    ensures Matches(input, sep, k, upto) ==
      (if MatchAt(input, sep, k) then [k + |sep|] else []) + Matches(input, sep, k + 1, upto)
  {
  }

  /** From a window on, all cuts are right exactly when no match starts where offsets are no longer trusted. */
  lemma {:induction false} OuterFinds(input: seq<Byte>, sep: seq<Byte>, size: nat, st: State, lost: nat)
    requires 0 < |sep| <= size && st.base + lost == st.slider <= |input|
    ensures var out := Outer(input, sep, size, st);
      var from := if lost == 0 then Trusted(input, sep, size, st.slider) else st.slider;
      && st.cuts <= out
      && (out == st.cuts + Matches(input, sep, st.slider, |input|) <==> Matches(input, sep, from, |input|) == [])
    decreases |input| - st.slider
  {
    hide Inner, Matches, WindowEnd;
    if st.slider < |input| {
      var first := Refill(input, size, st);
      InnerFinds(input, sep, size, first, lost, lost);
      var done := Inner(input, sep, size, first);
      OuterFinds(input, sep, size, done.(base := done.end), done.slider - done.end);
      MatchesSplit(input, sep, st.slider, done.slider, |input|);
      CutsDiffer(st.cuts, Matches(input, sep, st.slider, done.slider), lost,
                 Matches(input, sep, done.slider, |input|), Outer(input, sep, size, st));
    } else {
      NoMatches(input, sep, st.slider, |input|);
    }
  }

  /** Cuts that come early stay wrong. */
  lemma CutsDiffer(cuts: seq<nat>, now: seq<nat>, lost: nat, later: seq<nat>, out: seq<nat>)
    requires cuts + Lower(now, lost) <= out
    ensures cuts <= out
    ensures lost == 0 || now == [] ==> cuts + Lower(now, lost) == cuts + now
    ensures lost == 0 || now == [] ==> (out == cuts + (now + later) <==> out == cuts + Lower(now, lost) + later)
    ensures lost > 0 && now != [] ==> out != cuts + (now + later)
  {
    var mid := cuts + Lower(now, lost);
    assert cuts + (now + later) == cuts + now + later;
    assert cuts == mid[..|cuts|] == out[..|cuts|];
    if lost > 0 && now != [] {
      assert out[|cuts|] == mid[|cuts|] == now[0] - lost;
      assert (cuts + (now + later))[|cuts|] == now[0];
    }
  }

  /** The cuts are the ends of all separators exactly when no separator starts behind the first window that had to
      carry bytes over. */
  lemma CutsExact(input: seq<Byte>, sep: seq<Byte>, size: nat)
    requires 0 < |sep| <= size
    ensures Cuts(input, sep, size) == Matches(input, sep, 0, |input|)
      <==> Matches(input, sep, Trusted(input, sep, size, 0), |input|) == []
  {
    OuterFinds(input, sep, size, START, 0);
  }

  /** With a one-byte separator no window carries anything over. */
  lemma {:induction false} TrustedOneByte(input: seq<Byte>, sep: seq<Byte>, size: nat, from: nat)
    requires |sep| == 1 <= size && from <= |input|
    ensures Trusted(input, sep, size, from) == |input|
    decreases |input| - from
  {
    if from < |input| { TrustedOneByte(input, sep, size, Min(from + size, |input|)); }
  }

  /** One-byte separators, or everything in one window: the cuts are the ends of all separators. */
  lemma CutsAreMatches(input: seq<Byte>, sep: seq<Byte>, size: nat)
    requires 0 < |sep| <= size && (|sep| == 1 || |input| <= size)
    ensures Cuts(input, sep, size) == Matches(input, sep, 0, |input|)
  {
    CutsExact(input, sep, size);
    if |sep| == 1 { TrustedOneByte(input, sep, size, 0); }
    NoMatches(input, sep, |input|, |input|);
  }

  lemma WindowSizeIrrelevant(input: seq<Byte>, c: Byte, size: nat, size': nat)
    requires size >= 1 && size' >= 1
    ensures Cuts(input, [c], size) == Cuts(input, [c], size')
  {
    CutsAreMatches(input, [c], size);
    CutsAreMatches(input, [c], size');
  }

  /** A longer separator that straddles two windows is carried over, but the carried byte is then lost from the
      believed offset: the second cut comes one byte early. */
  lemma CarryLosesOffset()
    ensures var input, sep: seq<Byte> := [0, 1, 2, 0, 1, 2], [1, 2];
      Cuts(input, sep, 2) == [3, 5] && Matches(input, sep, 0, |input|) == [3, 6]
  {
    hide Inner, Turn, Matches;
    var input: seq<Byte>, sep: seq<Byte> := [0, 1, 2, 0, 1, 2], [1, 2];
    assert Refill(input, 2, START) == State([0, 1], 0, 0, 2, 2, []);
    OneCarry(input, 0, 2, 2, []);
    var s1 := State([2], 1, 1, 2, 3, [3]);
    assert [] + [3] == [3];
    assert Refill(input, 2, s1.(base := 2)) == State([0, 1], 0, 2, 4, 5, [3]);
    OneCarry(input, 2, 4, 5, [3]);
    assert Outer(input, sep, 2, State([2], 1, 4, 4, 6, [3] + [5])) == [3] + [5];
    assert Outer(input, sep, 2, s1.(base := 2)) == [3, 5];
    TrueCuts();
  }

  /** A window that ends inside the separator: one byte is carried over, the match is found, and `end` stays one
      short. */
  lemma OneCarry(input: seq<Byte>, b: nat, e: nat, s: nat, cuts: seq<nat>)
    requires s < |input| && input[s] == 2
    ensures Inner(input, [1, 2], 2, State([0, 1], 0, b, e, s, cuts)) ==
      State([2], 1, b + 1, b + 2, s + 1, cuts + [b + 3])
  {
    hide Inner, Turn, Find;
    var sep: seq<Byte> := [1, 2];
    var s1 := State([0, 1], 0, b, e, s, cuts);
    var s2 := State([1, 2], 0, b + 1, b + 2, s + 1, cuts);
    var s3 := State([2], 1, b + 1, b + 2, s + 1, cuts + [b + 3]);
    SmallFinds();
    assert ReadMore(input, s, 1) == [2];
    hide ReadMore;
    assert [0, 1][1..] == [1] && [1] + [2] == [1, 2];
    TurnCarries(input, sep, 2, s1, 1, [1], [2]);
    assert [1, 2][0..] == [1, 2] && [1, 2][..2] == sep && [1, 2][1..] == [2];
    TurnLooks(input, sep, 2, s2, 0, [1, 2]);
    assert [2][1..] == [];
    TurnStops(input, sep, 2, s3);
    InnerTurn(input, sep, 2, s1);
    InnerTurn(input, sep, 2, s2);
    InnerTurn(input, sep, 2, s3);
  }

  lemma SmallFinds()
    ensures Find([0, 1], 1) == 1 && Find([1, 2], 1) == 0 && Find([2], 1) == 1
  {
    assert [0, 1][1..] == [1] && [2][1..] == [];
  }

  lemma TrueCuts()
    ensures Matches([0, 1, 2, 0, 1, 2], [1, 2], 0, 6) == [3, 6]
  {
    hide Matches;
    var input: seq<Byte>, sep: seq<Byte> := [0, 1, 2, 0, 1, 2], [1, 2];
    assert input[1..3] == sep && input[4..6] == sep;
    forall k: nat | k < 6 && k != 1 && k != 4 ensures !MatchAt(input, sep, k) {
      if MatchAt(input, sep, k) { MatchByte(input, sep, k); }
    }
    assert MatchAt(input, sep, 1) && MatchAt(input, sep, 4);
    hide MatchAt;
    MatchesStep(input, sep, 0, 6);
    MatchesStep(input, sep, 1, 6);
    MatchesSplit(input, sep, 2, 4, 6);
    NoMatches(input, sep, 2, 4);
    MatchesStep(input, sep, 4, 6);
    NoMatches(input, sep, 5, 6);
  }

  // ---- slices ----

  /** The slices handed on: between consecutive cuts, and from the last cut to the end. */
  function Slices(input: seq<Byte>, from: nat, cuts: seq<nat>): seq<seq<Byte>>
    requires from <= |input| && forall i :: 0 <= i < |cuts| ==> cuts[i] <= |input|
    decreases |cuts|
  {
    if cuts == [] then [input[from..]]
    else (if from <= cuts[0] then [input[from..cuts[0]]] else [[]]) + Slices(input, cuts[0], cuts[1..])
  }

  function Join(pieces: seq<seq<Byte>>): seq<Byte> {
    if pieces == [] then [] else pieces[0] + Join(pieces[1..])
  }

  /** A slice that ends in its only separator. */
  predicate Terminated(piece: seq<Byte>, c: Byte) {
    |piece| > 0 && piece[|piece|-1] == c && forall i :: 0 <= i < |piece| - 1 ==> piece[i] != c
  }

  /** Cutting the input behind `from` at `cuts` gives proper slices: together they are the input, each but the last
      ends in its only separator, and the last contains none. */
  ghost predicate Proper(input: seq<Byte>, c: Byte, from: nat, cuts: seq<nat>) {
    && from <= |input| && (forall i :: 0 <= i < |cuts| ==> cuts[i] <= |input|)
    && var pieces := Slices(input, from, cuts);
    && Join(pieces) == input[from..]
    && |pieces| == |cuts| + 1
    && (forall i :: 0 <= i < |pieces| - 1 ==> Terminated(pieces[i], c))
    && c !in pieces[|pieces|-1]
  }

  lemma ProperEnd(input: seq<Byte>, c: Byte, from: nat)
    requires from <= |input| && c !in input[from..]
    ensures Proper(input, c, from, [])
  {
    assert [input[from..]][1..] == [];
    assert Join([input[from..]]) == input[from..] + [];
  }

  lemma ProperCons(input: seq<Byte>, c: Byte, from: nat, k: nat, more: seq<nat>)
    requires from <= k < |input| && c !in input[from..k] && input[k] == c && Proper(input, c, k + 1, more)
    ensures Proper(input, c, from, [k + 1] + more)
  {
    var cuts, piece := [k + 1] + more, input[from..k + 1];
    assert cuts[1..] == more;
    var rest := Slices(input, k + 1, more);
    assert Slices(input, from, cuts) == [piece] + rest;
    assert ([piece] + rest)[1..] == rest;
    assert input[from..] == piece + input[k + 1..];
    assert forall i :: 0 <= i < |piece| - 1 ==> piece[i] == input[from..k][i];
  }

  /** With no separator between `from` and `k`, cutting behind the later ones splits the rest properly. */
  lemma {:induction false} SlicesProper(input: seq<Byte>, c: Byte, from: nat, k: nat)
    requires from <= k <= |input| && c !in input[from..k]
    ensures Proper(input, c, from, Matches(input, [c], k, |input|))
    decreases |input| - k
  {
    hide MatchAt, Matches, Proper;
    if k == |input| {
      NoMatches(input, [c], k, |input|);
      assert input[from..] == input[from..k];
      ProperEnd(input, c, from);
    } else {
      OneByteMatch(input, c, k);
      MatchesStep(input, [c], k, |input|);
      assert input[from..k + 1] == input[from..k] + [input[k]];
      if input[k] == c {
        SlicesProper(input, c, k + 1, k + 1);
        ProperCons(input, c, from, k, Matches(input, [c], k + 1, |input|));
      } else {
        assert [] + Matches(input, [c], k + 1, |input|) == Matches(input, [c], k + 1, |input|);
        SlicesProper(input, c, from, k + 1);
      }
    }
  }

  /** A one-byte separator splits every input properly, whatever the window size. */
  lemma SplitIsProper(input: seq<Byte>, c: Byte, size: nat)
    requires size >= 1
    ensures Proper(input, c, 0, Cuts(input, [c], size))
  {
    CutsAreMatches(input, [c], size);
    SlicesProper(input, c, 0, 0);
  }
}
