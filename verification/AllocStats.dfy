/** The lock-free allocation accounting of se_alloc_stats.c as a state machine: any number of threads
    allocate, reallocate and free; every atomic operation is one step and the steps interleave freely.

    The counters are reset only while no thread is inside an operation.
  */
module AllocStats {
  import opened Utf8

  datatype Block = Block(category: nat, bytes: nat)

  datatype Counters = Counters(current: int, peak: int, allocBytes: int, freeBytes: int, allocCount: nat,
                               reallocCount: nat, freeCount: nat)

  /** Where a thread is: in the first half of `record_realloc` or in `record_free`, with the block that
      is to follow, or in `record_alloc` or the second half of `record_realloc`. */
  datatype Thread =
    | Idle
    | Freeing(block: Block, next: Option<Block>, stage: nat)
    | Allocating(block: Block, realloc: bool, step: nat, current: int, seen: int)

  /** `highest` and `base` are history: the largest value of each counter since the last reset, and its
      value then. */
  datatype State = State(stats: seq<Counters>, heap: seq<Option<Block>>, threads: seq<Thread>, highest: seq<int>,
                         base: seq<int>)

  datatype Action =
    | Malloc(t: nat, block: Block)
    | Free(t: nat, ptr: nat)
    | Realloc(t: nat, ptr: nat, block: Block)
    | Run(t: nat)
    | Reset

  predicate Quiescent(s: State) { forall t | 0 <= t < |s.threads| :: s.threads[t] == Idle }

  predicate Enabled(s: State, a: Action) {
    match a
    case Malloc(t, block) => t < |s.threads| && s.threads[t].Idle? && block.category < |s.stats|
    case Free(t, ptr) => t < |s.threads| && s.threads[t].Idle? && ptr < |s.heap| && s.heap[ptr].Some?
    case Realloc(t, ptr, block) =>
      && t < |s.threads| && s.threads[t].Idle? && ptr < |s.heap| && s.heap[ptr].Some? && block.category < |s.stats|
    case Run(t) => t < |s.threads| && !s.threads[t].Idle?
    case Reset => Quiescent(s)
  }

  // ----- the atomic steps -----

  function Bump(s: State, c: nat, counters: Counters): State
    requires c < |s.stats|
  {
    s.(stats := s.stats[c := counters])
  }

  function At(s: State, t: nat, thread: Thread): State
    requires t < |s.threads|
  {
    s.(threads := s.threads[t := thread])
  }

  function RunFreeing(s: State, t: nat): State
    requires t < |s.threads| && s.threads[t].Freeing? && s.threads[t].block.category < |s.stats|
  {
    var f := s.threads[t];
    var c := s.stats[f.block.category];
    if f.stage == 0 then At(Bump(s, f.block.category, c.(current := c.current - f.block.bytes)), t, f.(stage := 1))
    else if f.stage == 1 then At(Bump(s, f.block.category, c.(freeBytes := c.freeBytes + f.block.bytes)), t,
            f.(stage := 2))
    else
      At(Bump(s, f.block.category, c.(freeCount := c.freeCount + 1)), t,
         match f.next case None => Idle case Some(b) => Allocating(b, true, 0, 0, 0))
  }

  /** The block is handed to the caller. */
  function Finish(s: State, t: nat): State
    requires t < |s.threads| && s.threads[t].Allocating?
  {
    At(s, t, Idle).(heap := s.heap + [Some(s.threads[t].block)])
  }

  /** Steps 4 and 5 are the loop of `record_peak`: load, then compare and swap. */
  function RunAllocating(s: State, t: nat): State
    requires t < |s.threads| && s.threads[t].Allocating? && s.threads[t].block.category < |s.stats|
  {
    var f := s.threads[t];
    var k := f.block.category;
    var c := s.stats[k];
    if f.step == 0 then
      var now := c.current + f.block.bytes;
      At(Bump(s, k, c.(current := now)), t, f.(step := 1, current := now))
    else if f.step == 1 then At(Bump(s, k, c.(allocBytes := c.allocBytes + f.block.bytes)), t, f.(step := 2))
    else if f.step == 2 then At(Bump(s, k, c.(allocCount := c.allocCount + 1)), t,
            f.(step := if f.realloc then 3 else 4))
    else if f.step == 3 then At(Bump(s, k, c.(reallocCount := c.reallocCount + 1)), t, f.(step := 4))
    else if f.step == 4 then At(s, t, f.(step := 5, seen := c.peak))
    else if !(f.current > f.seen) then Finish(s, t)
    else if c.peak == f.seen then Finish(Bump(s, k, c.(peak := f.current)), t)
    else At(s, t, f.(step := 4))
  }

  function Cleared(c: Counters): Counters { Counters(c.current, c.current, 0, 0, 0, 0, 0) }

  function Raw(s: State, a: Action): State
    requires Typed(s) && Enabled(s, a)
  {
    match a
    case Malloc(t, block) => At(s, t, Allocating(block, false, 0, 0, 0))
    case Free(t, ptr) => At(s, t, Freeing(s.heap[ptr].value, None, 0)).(heap := s.heap[ptr := None])
    case Realloc(t, ptr, block) => At(s, t, Freeing(s.heap[ptr].value, Some(block), 0)).(heap := s.heap[ptr := None])
    case Run(t) => if s.threads[t].Freeing? then RunFreeing(s, t) else RunAllocating(s, t)
    case Reset => s.(stats := seq(|s.stats|, c requires 0 <= c < |s.stats| => Cleared(s.stats[c])))
  }

  function Max(a: int, b: int): int { if a < b then b else a }

  /** One step, and what the history makes of it. */
  function Next(s: State, a: Action): State
    requires Typed(s) && Enabled(s, a)
  {
    var r := Raw(s, a);
    RawKeepsTypes(s, a);
    var currents := seq(|r.stats|, c requires 0 <= c < |r.stats| => r.stats[c].current);
    if a.Reset? then r.(highest := currents, base := currents)
    else r.(highest := seq(|r.stats|, c requires 0 <= c < |r.stats| => Max(r.highest[c], r.stats[c].current)))
  }

  predicate ThreadTyped(thread: Thread, n: nat) {
    match thread
    case Idle => true
    case Freeing(block, next, _) => block.category < n && (next.Some? ==> next.value.category < n)
    case Allocating(block, _, _, _, _) => block.category < n
  }

  predicate Typed(s: State) {
    && |s.highest| == |s.base| == |s.stats|
    && (forall p | 0 <= p < |s.heap| :: s.heap[p].Some? ==> s.heap[p].value.category < |s.stats|)
    && (forall t | 0 <= t < |s.threads| :: ThreadTyped(s.threads[t], |s.stats|))
  }

  lemma RawKeepsTypes(s: State, a: Action)
    requires Typed(s) && Enabled(s, a)
    ensures Typed(Raw(s, a)) && |Raw(s, a).stats| == |s.stats| && |Raw(s, a).threads| == |s.threads|
    ensures Raw(s, a).highest == s.highest && Raw(s, a).base == s.base
  {
  }

  lemma NextKeepsTypes(s: State, a: Action)
    requires Typed(s) && Enabled(s, a)
    ensures Typed(Next(s, a)) && |Next(s, a).stats| == |s.stats|
  {
    RawKeepsTypes(s, a);
    hide Raw;
  }

  // ----- sums -----

  function Total<T>(f: T -> int, s: seq<T>): int {
    if s == [] then 0 else Total(f, s[..|s| - 1]) + f(s[|s| - 1])
  }

  lemma {:induction false} TotalUpdate<T>(f: T -> int, s: seq<T>, i: nat, v: T)
    requires i < |s|
    ensures Total(f, s[i := v]) == Total(f, s) - f(s[i]) + f(v)
  {
    var n := |s| - 1;
    if i < n {
      assert s[i := v][..n] == s[..n][i := v];
      TotalUpdate(f, s[..n], i, v);
    } else {
      assert s[i := v][..n] == s[..n];
    }
  }

  lemma TotalAppend<T>(f: T -> int, s: seq<T>, v: T)
    ensures Total(f, s + [v]) == Total(f, s) + f(v)
  {
    assert (s + [v])[..|s|] == s;
  }

  lemma {:induction false} TotalZero<T>(f: T -> int, s: seq<T>)
    requires forall i | 0 <= i < |s| :: f(s[i]) == 0
    ensures Total(f, s) == 0
  {
    if s != [] { TotalZero(f, s[..|s| - 1]); }
  }

  // ----- what the counters count -----

  function OfCategory(b: Block, c: nat): int { if b.category == c then b.bytes else 0 }

  /** Bytes of category c the caller holds. */
  function Live(c: nat): Option<Block> -> int { (b: Option<Block>) => if b.Some? then OfCategory(b.value, c) else 0 }

  /** Bytes a running operation has in `current_bytes`. */
  function Counted(c: nat): Thread -> int {
    (th: Thread) =>
      match th
      case Idle => 0
      case Freeing(b, _, stage) => if stage == 0 then OfCategory(b, c) else 0
      case Allocating(b, _, step, _, _) => if step == 0 then 0 else OfCategory(b, c)
  }

  /** What a running operation has in `current_bytes` but not yet in the two totals. */
  function Lag(c: nat): Thread -> int {
    (th: Thread) =>
      match th
      case Idle => 0
      case Freeing(b, _, stage) => if stage == 1 then -OfCategory(b, c) else 0
      case Allocating(b, _, step, _, _) => if step == 1 then OfCategory(b, c) else 0
  }

  ghost predicate Balanced(s: State, c: nat)
    requires Typed(s) && c < |s.stats|
  {
    && s.stats[c].current == Total(Live(c), s.heap) + Total(Counted(c), s.threads)
    && s.stats[c].current == s.base[c] + s.stats[c].allocBytes - s.stats[c].freeBytes + Total(Lag(c), s.threads)
  }

  /** The thread has added to counter c and has not yet compared the sum with the peak. */
  predicate Pending(th: Thread, c: nat) { th.Allocating? && th.block.category == c && th.step >= 1 }

  ghost predicate Owed(s: State, c: nat)
    requires Typed(s) && c < |s.stats|
  {
    exists t :: 0 <= t < |s.threads| && Pending(s.threads[t], c) && s.threads[t].current == s.highest[c]
  }

  ghost predicate Peaked(s: State, c: nat)
    requires Typed(s) && c < |s.stats|
  {
    && s.stats[c].current <= s.highest[c] && s.stats[c].peak <= s.highest[c]
    && (forall t | 0 <= t < |s.threads| && Pending(s.threads[t], c) ::
          s.threads[t].current <= s.highest[c] && (s.threads[t].step >= 5 ==> s.threads[t].seen <= s.stats[c].peak))
    && (s.stats[c].peak == s.highest[c] || Owed(s, c))
  }

  ghost predicate Inv(s: State) {
    Typed(s) && forall c: nat | c < |s.stats| :: Balanced(s, c) && Peaked(s, c)
  }

  // ----- every step keeps it -----

  /** A step changes one thread and at most one category; the history follows. */
  lemma NextIs(s: State, a: Action, c: nat)
    requires Typed(s) && Enabled(s, a) && c < |s.stats|
    ensures var r, n := Raw(s, a), Next(s, a);
            && Typed(n) && |n.stats| == |s.stats| && n.stats == r.stats && n.heap == r.heap && n.threads == r.threads
            && (a.Reset? ==> n.highest[c] == n.base[c] == r.stats[c].current)
            && (!a.Reset? ==> n.base == s.base && n.highest[c] == Max(s.highest[c], r.stats[c].current))
  {
    NextKeepsTypes(s, a);
    RawKeepsTypes(s, a);
    hide Raw, Typed;
  }

  lemma Moves(s: State, t: nat, th: Thread, c: nat)
    requires t < |s.threads|
    ensures Total(Counted(c), s.threads[t := th]) ==
        Total(Counted(c), s.threads) - Counted(c)(s.threads[t]) + Counted(c)(th)
    ensures Total(Lag(c), s.threads[t := th]) == Total(Lag(c), s.threads) - Lag(c)(s.threads[t]) + Lag(c)(th)
  {
    TotalUpdate(Counted(c), s.threads, t, th);
    TotalUpdate(Lag(c), s.threads, t, th);
  }

  /** An operation starts: the block leaves the caller's hands, or is still to be made. */
  lemma StartBalances(s: State, t: nat, ptr: nat, next: Option<Block>, block: Block, c: nat)
    requires t < |s.threads| && s.threads[t].Idle?
    ensures Total(Counted(c), s.threads[t := Allocating(block, false, 0, 0, 0)]) == Total(Counted(c), s.threads)
    ensures Total(Lag(c), s.threads[t := Allocating(block, false, 0, 0, 0)]) == Total(Lag(c), s.threads)
    ensures ptr < |s.heap| && s.heap[ptr].Some? ==>
              var th := Freeing(s.heap[ptr].value, next, 0);
              && Total(Live(c), s.heap[ptr := None]) + Total(Counted(c), s.threads[t := th])
                 == Total(Live(c), s.heap) + Total(Counted(c), s.threads)
              && Total(Lag(c), s.threads[t := th]) == Total(Lag(c), s.threads)
  {
    hide Total;
    Moves(s, t, Allocating(block, false, 0, 0, 0), c);
    if ptr < |s.heap| && s.heap[ptr].Some? {
      Moves(s, t, Freeing(s.heap[ptr].value, next, 0), c);
      TotalUpdate(Live(c), s.heap, ptr, None);
    }
  }

  lemma FreeingBalances(s: State, t: nat, c: nat)
    requires Typed(s) && c < |s.stats| && Balanced(s, c) && t < |s.threads| && s.threads[t].Freeing?
    ensures Typed(RunFreeing(s, t)) && Balanced(RunFreeing(s, t), c)
  {
    hide Total;
    var r := RunFreeing(s, t);
    assert r.threads == s.threads[t := r.threads[t]];
    Moves(s, t, r.threads[t], c);
  }

  lemma AllocatingBalances(s: State, t: nat, c: nat)
    requires Typed(s) && c < |s.stats| && Balanced(s, c) && t < |s.threads| && s.threads[t].Allocating?
    ensures Typed(RunAllocating(s, t)) && Balanced(RunAllocating(s, t), c)
  {
    hide Total;
    var r := RunAllocating(s, t);
    assert r.threads == s.threads[t := r.threads[t]];
    Moves(s, t, r.threads[t], c);
    TotalAppend(Live(c), s.heap, Some(s.threads[t].block));
  }

  lemma BalancedStep(s: State, a: Action, c: nat)
    requires Typed(s) && Enabled(s, a) && c < |s.stats| && Balanced(s, c)
    ensures Typed(Next(s, a)) && |Next(s, a).stats| == |s.stats| && Balanced(Next(s, a), c)
  {
    NextIs(s, a, c);
    hide Next, Total, Typed, RunFreeing, RunAllocating;
    match a
    case Malloc(t, block) => StartBalances(s, t, 0, None, block, c);
    case Free(t, ptr) => StartBalances(s, t, ptr, None, Block(0, 0), c);
    case Realloc(t, ptr, block) => StartBalances(s, t, ptr, Some(block), block, c);
    case Run(t) => if s.threads[t].Freeing? { FreeingBalances(s, t, c); } else { AllocatingBalances(s, t, c); }
    case Reset => TotalZero(Lag(c), s.threads);
  }

  /** What one step does to counter c and to the thread that takes it. */
  lemma PeakLocal(s: State, a: Action, c: nat)
    requires Typed(s) && Enabled(s, a) && c < |s.stats| && !a.Reset?
    ensures var r := Raw(s, a);
            && a.t < |s.threads| && r.threads == s.threads[a.t := r.threads[a.t]] && |r.stats| == |s.stats|
            && r.stats[c].peak >= s.stats[c].peak
            && var th, after := s.threads[a.t], r.threads[a.t];
            && (Pending(after, c) ==>
                  && (after.step >= 5 ==> after.seen <= r.stats[c].peak || (Pending(th, c) && th.step >= 5))
                  && (Pending(th, c) ==> after.current == th.current)
                      && (!Pending(th, c) ==> after.current == r.stats[c].current))
            && (r.stats[c].peak == s.stats[c].peak || (Pending(th, c) && r.stats[c].peak == th.current))
            && (Pending(th, c) && !Pending(after, c) ==>
                  r.stats[c].peak >= th.current || (th.step >= 5 && th.seen >= th.current))
            && (r.stats[c].current > s.stats[c].current ==>
                  !Pending(th, c) && Pending(after, c) && after.current == r.stats[c].current)
  {
  }

  lemma PeakedStep(s: State, a: Action, c: nat)
    requires Typed(s) && Enabled(s, a) && c < |s.stats| && Peaked(s, c)
    ensures Typed(Next(s, a)) && |Next(s, a).stats| == |s.stats| && Peaked(Next(s, a), c)
  {
    NextIs(s, a, c);
    if a.Reset? {
    } else {
      PeakLocal(s, a, c);
      hide Next, Raw, Typed;
      var n := Next(s, a);
      if n.stats[c].peak != n.highest[c] {
        if n.highest[c] == s.highest[c] {
          assert Owed(s, c);
          var w :| 0 <= w < |s.threads| && Pending(s.threads[w], c) && s.threads[w].current == s.highest[c];
          assert Pending(n.threads[w], c) && n.threads[w].current == n.highest[c];
        } else {
          assert Pending(n.threads[a.t], c) && n.threads[a.t].current == n.highest[c];
        }
      }
    }
  }

  // ----- runs -----

  const ZERO: Counters := Counters(0, 0, 0, 0, 0, 0, 0)

  function Start(categories: nat, threads: nat): (s: State)
    ensures Typed(s)
  {
    State(seq(categories, _ => ZERO), [], seq(threads, _ => Idle), seq(categories, _ => 0), seq(categories, _ => 0))
  }

  lemma StartIsSound(categories: nat, threads: nat)
    ensures Inv(Start(categories, threads))
  {
    var s := Start(categories, threads);
    forall c: nat | c < categories ensures Balanced(s, c) {
      TotalZero(Counted(c), s.threads);
      TotalZero(Lag(c), s.threads);
    }
  }

  /** The states a list of actions leads through; each must be possible where it is taken. */
  predicate Possible(s: State, actions: seq<Action>)
    requires Typed(s)
    decreases |actions|
  {
    actions == [] ||
    (Enabled(s, actions[0]) && (NextKeepsTypes(s, actions[0]); Possible(Next(s, actions[0]), actions[1..])))
  }

  function After(s: State, actions: seq<Action>): State
    requires Typed(s) && Possible(s, actions)
    decreases |actions|
  {
    if actions == [] then s
    else
      NextKeepsTypes(s, actions[0]);
      After(Next(s, actions[0]), actions[1..])
  }

  /** Every interleaving keeps the invariant. */
  lemma {:induction false} AfterIsSound(s: State, actions: seq<Action>)
    requires Inv(s) && Possible(s, actions)
    ensures Inv(After(s, actions)) && |After(s, actions).stats| == |s.stats|
    decreases |actions|
  {
    hide Balanced, Peaked, Next, Typed, Enabled;
    if actions != [] {
      var a := actions[0];
      NextKeepsTypes(s, a);
      forall c: nat | c < |s.stats| ensures Balanced(Next(s, a), c) && Peaked(Next(s, a), c) {
        BalancedStep(s, a, c);
        PeakedStep(s, a, c);
      }
      AfterIsSound(Next(s, a), actions[1..]);
    }
  }

  /** Once no thread is inside an operation the counters are exact: current is the sum of the live
      blocks, the totals differ by what current has grown since the last reset, and peak is the
      largest value current has had since then. */
  lemma ExactWhenQuiescent(categories: nat, threads: nat, actions: seq<Action>, c: nat)
    requires Possible(Start(categories, threads), actions) && c < categories
    requires Quiescent(After(Start(categories, threads), actions))
    ensures var s := After(Start(categories, threads), actions);
            && |s.stats| == |s.highest| == |s.base| == categories
            && s.stats[c].current == Total(Live(c), s.heap)
            && s.stats[c].allocBytes - s.stats[c].freeBytes == s.stats[c].current - s.base[c]
            && s.stats[c].peak == s.highest[c]
  {
    StartIsSound(categories, threads);
    AfterIsSound(Start(categories, threads), actions);
    hide After, Possible;
    var s := After(Start(categories, threads), actions);
    assert Balanced(s, c) && Peaked(s, c);
    TotalZero(Counted(c), s.threads);
    TotalZero(Lag(c), s.threads);
  }

  // ----- totals and counts -----

  datatype Meter = Allocations | Reallocations | Frees | AllocatedBytes | FreedBytes

  function Reading(c: Counters, k: Meter): int {
    match k
    case Allocations => c.allocCount
    case Reallocations => c.reallocCount
    case Frees => c.freeCount
    case AllocatedBytes => c.allocBytes
    case FreedBytes => c.freeBytes
  }

  function MadeIn(b: Block, k: Meter, c: nat): int {
    if b.category != c then 0 else match k
      case Allocations => 1
      case AllocatedBytes => b.bytes
      case _ => 0
  }

  function FreedIn(b: Block, k: Meter, c: nat): int {
    if b.category != c then 0 else match k
      case Frees => 1
      case FreedBytes => b.bytes
      case _ => 0
  }

  function RemadeIn(b: Block, k: Meter, c: nat): int { if b.category == c && k.Reallocations? then 1 else 0 }

  /** What a call of the caller adds to a meter of category c: a realloc frees in the category of the old
      block, and allocates and reallocates in that of the new one. */
  function Contribution(s: State, a: Action, k: Meter, c: nat): int
    requires Enabled(s, a)
  {
    match a
    case Malloc(_, block) => MadeIn(block, k, c)
    case Free(_, ptr) => FreedIn(s.heap[ptr].value, k, c)
    case Realloc(_, ptr, block) => FreedIn(s.heap[ptr].value, k, c) + MadeIn(block, k, c) + RemadeIn(block, k, c)
    case _ => 0
  }

  /** The contributions of all calls since the last reset. */
  function Tallied(s: State, actions: seq<Action>, k: Meter, c: nat, before: int): int
    requires Typed(s) && Possible(s, actions)
    decreases |actions|
  {
    if actions == [] then before
    else
      var a := actions[0];
      NextKeepsTypes(s, a);
      Tallied(Next(s, a), actions[1..], k, c, if a.Reset? then 0 else before + Contribution(s, a, k, c))
  }

  /** What a running operation has still to add to the meter. */
  function Owes(k: Meter, c: nat): Thread -> int {
    (th: Thread) =>
      match th
      case Idle => 0
      case Freeing(b, next, stage) =>
        (if k.FreedBytes? && stage > 1 then 0 else FreedIn(b, k, c))
        + (if next.Some? then MadeIn(next.value, k, c) + RemadeIn(next.value, k, c) else 0)
      case Allocating(b, realloc, step, _, _) =>
        (if step <= (if k.AllocatedBytes? then 1 else 2) then MadeIn(b, k, c) else 0)
        + (if step == 3 || (realloc && step < 3) then RemadeIn(b, k, c) else 0)
  }

  /** One thread moves from s to r, and what it adds it no longer owes. */
  predicate Settles(s: State, r: State, t: nat, k: Meter, c: nat, added: int)
    requires c < |s.stats|
  {
    && t < |s.threads| == |r.threads| && r.threads == s.threads[t := r.threads[t]] && |r.stats| == |s.stats|
    && Reading(r.stats[c], k) + Owes(k, c)(r.threads[t]) == Reading(s.stats[c], k) + Owes(k, c)(s.threads[t]) + added
  }

  lemma FreeingSettles(s: State, t: nat, k: Meter, c: nat)
    requires Typed(s) && c < |s.stats| && t < |s.threads| && s.threads[t].Freeing?
    ensures Settles(s, RunFreeing(s, t), t, k, c, 0)
  {
  }

  lemma AllocatingSettles(s: State, t: nat, k: Meter, c: nat)
    requires Typed(s) && c < |s.stats| && t < |s.threads| && s.threads[t].Allocating?
    ensures Settles(s, RunAllocating(s, t), t, k, c, 0)
  {
  }

  lemma CallSettles(s: State, a: Action, k: Meter, c: nat)
    requires Typed(s) && Enabled(s, a) && c < |s.stats| && !a.Reset? && !a.Run?
    ensures Settles(s, Raw(s, a), a.t, k, c, Contribution(s, a, k, c))
  {
  }

  lemma MeterLocal(s: State, a: Action, k: Meter, c: nat)
    requires Typed(s) && Enabled(s, a) && c < |s.stats| && !a.Reset?
    ensures Settles(s, Raw(s, a), a.t, k, c, Contribution(s, a, k, c))
  {
    hide Settles, RunFreeing, RunAllocating, Typed;
    if !a.Run? {
      CallSettles(s, a, k, c);
    } else if s.threads[a.t].Freeing? {
      FreeingSettles(s, a.t, k, c);
    } else {
      AllocatingSettles(s, a.t, k, c);
    }
  }

  lemma MeterStep(s: State, a: Action, k: Meter, c: nat)
    requires Typed(s) && Enabled(s, a) && c < |s.stats|
    ensures var n := Next(s, a);
            && Typed(n) && |n.stats| == |s.stats|
            && Reading(n.stats[c], k) + Total(Owes(k, c), n.threads) ==
                 if a.Reset? then 0
                 else Reading(s.stats[c], k) + Total(Owes(k, c), s.threads) + Contribution(s, a, k, c)
  {
    NextIs(s, a, c);
    if a.Reset? {
      hide Next, Typed;
      TotalZero(Owes(k, c), s.threads);
    } else {
      MeterLocal(s, a, k, c);
      hide Next, Raw, Typed, Owes, Contribution, Reading, Enabled;
      TotalUpdate(Owes(k, c), s.threads, a.t, Raw(s, a).threads[a.t]);
    }
  }

  lemma {:induction false} MetersFollow(s: State, actions: seq<Action>, k: Meter, c: nat, before: int)
    requires Typed(s) && Possible(s, actions) && c < |s.stats|
    requires Reading(s.stats[c], k) + Total(Owes(k, c), s.threads) == before
    ensures var r := After(s, actions);
            && Typed(r) && |r.stats| == |s.stats|
            && Reading(r.stats[c], k) + Total(Owes(k, c), r.threads) == Tallied(s, actions, k, c, before)
    decreases |actions|
  {
    hide Next, Typed, Owes, Contribution, Reading, Enabled, Total;
    if actions != [] {
      var a := actions[0];
      MeterStep(s, a, k, c);
      MetersFollow(Next(s, a), actions[1..], k, c, if a.Reset? then 0 else before + Contribution(s, a, k, c));
    }
  }

  /** Once no thread is inside an operation, each of the three counts is the number of calls of its kind in the
      category since the last reset, and each total the sum of their bytes. */
  lemma CountsWhenQuiescent(categories: nat, threads: nat, actions: seq<Action>, k: Meter, c: nat)
    requires Possible(Start(categories, threads), actions) && c < categories
    requires Quiescent(After(Start(categories, threads), actions))
    ensures var s := After(Start(categories, threads), actions);
            |s.stats| == categories && Reading(s.stats[c], k) == Tallied(Start(categories, threads), actions, k, c, 0)
  {
    var s := Start(categories, threads);
    TotalZero(Owes(k, c), s.threads);
    MetersFollow(s, actions, k, c, 0);
    TotalZero(Owes(k, c), After(s, actions).threads);
  }

  // ----- the compare-and-swap loop -----

  predicate Failed(s: State, t: nat)
    requires Typed(s)
  {
    && t < |s.threads| && s.threads[t].Allocating? && s.threads[t].step == 5 && s.threads[t].current > s.threads[t].seen
    && s.stats[s.threads[t].block.category].peak != s.threads[t].seen
  }

  predicate LeavesAlone(actions: seq<Action>, t: nat) {
    forall a | a in actions :: a != Reset && a != Action.Run(t) && (a.Malloc? || a.Free? || a.Realloc? ==> a.t != t)
  }

  /** Other threads leave a thread as it is and never lower a peak. */
  lemma {:induction false} OthersRaise(s: State, actions: seq<Action>, t: nat, c: nat)
    requires Typed(s) && Possible(s, actions) && t < |s.threads| && c < |s.stats| && LeavesAlone(actions, t)
    ensures var r := After(s, actions);
            Typed(r) && |r.stats| == |s.stats| && |r.threads| == |s.threads| && r.threads[t] == s.threads[t]
                && r.stats[c].peak >= s.stats[c].peak
    decreases |actions|
  {
    hide Next, Typed, Enabled, Raw;
    if actions != [] {
      var a := actions[0];
      assert a in actions;
      NextIs(s, a, c);
      PeakLocal(s, a, c);
      OthersRaise(Next(s, a), actions[1..], t, c);
    }
  }

  /** A failed compare-and-swap means the peak has risen: whatever the other threads do before this one
      loads the peak again, the distance left to cover is strictly smaller. */
  lemma RetryLowersGap(s: State, t: nat, others: seq<Action>)
    requires Inv(s) && Failed(s, t)
    requires Possible(Next(s, Action.Run(t)), others) && LeavesAlone(others, t)
    ensures var r := After(Next(s, Action.Run(t)), others);
            && Typed(r) && Enabled(r, Action.Run(t))
            && var n := Next(r, Action.Run(t));
               && t < |n.threads| && n.threads[t].Allocating? && n.threads[t].current == s.threads[t].current
               && n.threads[t].current - n.threads[t].seen < s.threads[t].current - s.threads[t].seen
  {
    var c := s.threads[t].block.category;
    assert Peaked(s, c) && Pending(s.threads[t], c);
    var m := Next(s, Action.Run(t));
    NextIs(s, Action.Run(t), c);
    assert m.threads[t] == s.threads[t].(step := 4);
    OthersRaise(m, others, t, c);
    hide Possible, After;
    var r := After(m, others);
    NextIs(r, Action.Run(t), c);
  }
}
