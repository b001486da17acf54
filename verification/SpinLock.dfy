/** The spin lock, shared by any number of CPUs whose reads, compare-exchanges and
    writes of memory interleave. */
module SpinLock {

  const RELEASED: nat := 1
  const ACQUIRED: nat := 2

  /** Where a CPU is. A blocking call is AcquireSpinLock, the other is
      AcquireSpinLockOrFail alone. */
  datatype Pc =
    | Idle
    | Checking(blocking: bool)    // about to read the lock and assert its value
    | Exchanging(blocking: bool)  // about to compare and exchange
    | Holding
    | Adding(seen: int)           // has read the shared counter
    | Unlocking                   // about to read the lock and assert its value
    | Storing                     // about to store the released value
    | Halted                      // in the assertion that the time is not up

  /** lock and counter are memory; failed says that an assertion on the value of
      the lock did not hold; added counts the completed increments. */
  datatype State = State(lock: nat, counter: int, cpus: seq<Pc>, failed: bool, added: nat)

  predicate Legal(v: nat) {
    v == ACQUIRED || v == RELEASED
  }

  /** InitializeSpinLock, before any CPU uses the lock. */
  ghost predicate Init(s: State) {
    && s.lock == RELEASED && s.counter == 0 && !s.failed && s.added == 0
    && forall i | 0 <= i < |s.cpus| :: s.cpus[i] == Idle
  }

  function Goto(s: State, i: nat, pc: Pc): State
    requires i < |s.cpus|
  {
    s.(cpus := s.cpus[i := pc])
  }

  /** One step of CPU i. */
  ghost predicate Step(s: State, s': State, i: nat)
    requires i < |s.cpus|
  {
    match s.cpus[i]
    case Idle => exists blocking :: s' == Goto(s, i, Checking(blocking))
    case Checking(blocking) =>
      || s' == Goto(s, i, Exchanging(blocking)).(failed := s.failed || !Legal(s.lock))
      || (blocking && s' == Goto(s, i, Halted))
    case Exchanging(blocking) =>
      s' == if s.lock == RELEASED then Goto(s, i, Holding).(lock := ACQUIRED)
            else Goto(s, i, if blocking then Checking(true) else Idle)
    case Holding => s' == Goto(s, i, Adding(s.counter)) || s' == Goto(s, i, Unlocking)
    case Adding(seen) => s' == Goto(s, i, Holding).(counter := seen + 1, added := s.added + 1)
    case Unlocking => s' == Goto(s, i, Storing).(failed := s.failed || !Legal(s.lock))
    case Storing => s' == Goto(s, i, Idle).(lock := RELEASED)
    case Halted => false
  }

  ghost predicate Next(s: State, s': State) {
    exists i: nat :: i < |s.cpus| && Step(s, s', i)
  }

  /** A run from an initialized lock. */
  ghost predicate Run(r: seq<State>) {
    && r != [] && Init(r[0])
    && forall k | 0 <= k < |r| - 1 :: Next(r[k], r[k + 1])
  }

  /** Between a successful acquire and the end of its release. */
  predicate Holds(pc: Pc) {
    pc.Holding? || pc.Adding? || pc.Unlocking? || pc.Storing?
  }

  ghost predicate SomeHolder(s: State) {
    exists i :: 0 <= i < |s.cpus| && Holds(s.cpus[i])
  }

  ghost predicate Exclusive(s: State) {
    forall i, j | 0 <= i < |s.cpus| && 0 <= j < |s.cpus| && Holds(s.cpus[i]) && Holds(s.cpus[j]) :: i == j
  }

  /** What every step keeps. */
  ghost predicate Inv(s: State) {
    && Exclusive(s)
    && Legal(s.lock) && (s.lock == ACQUIRED <==> SomeHolder(s))
    && !s.failed
    && s.counter == s.added
    && forall i | 0 <= i < |s.cpus| && s.cpus[i].Adding? :: s.cpus[i].seen == s.counter
  }

  lemma StepKeepsInv(s: State, s': State, i: nat)
    requires Inv(s) && i < |s.cpus| && Step(s, s', i)
    ensures Inv(s')
  {
    assert |s'.cpus| == |s.cpus| && forall j | 0 <= j < |s.cpus| && j != i :: s'.cpus[j] == s.cpus[j];
    if Holds(s'.cpus[i]) {
      assert SomeHolder(s');
    }
    if j :| 0 <= j < |s.cpus| && Holds(s.cpus[j]) && j != i {
      assert Holds(s'.cpus[j]) && SomeHolder(s');
    }
  }

  lemma {:induction false} RunKeepsInv(r: seq<State>, k: nat)
    requires Run(r) && k < |r|
    ensures Inv(r[k])
    decreases k
  {
    if k > 0 {
      RunKeepsInv(r, k - 1);
      assert Next(r[k - 1], r[k - 1 + 1]);
      var i: nat :| i < |r[k - 1].cpus| && Step(r[k - 1], r[k], i);
      StepKeepsInv(r[k - 1], r[k], i);
    }
  }

  /** In every state of every run at most one CPU holds the lock, the lock word is
      2 exactly when one does and 1 otherwise, no assertion on its value has failed,
      and the shared counter stands at the number of increments completed. */
  lemma MutualExclusion(r: seq<State>, k: nat)
    requires Run(r) && k < |r|
    ensures Exclusive(r[k])
    ensures r[k].lock == if SomeHolder(r[k]) then 2 else 1
    ensures !r[k].failed
    ensures r[k].counter == r[k].added == Increments(r, k)
  {
    RunKeepsInv(r, k);
    AddedCounts(r, k);
  }

  /** A step that ends the increment of some CPU. */
  ghost predicate Increment(s: State, s': State) {
    exists i :: 0 <= i < |s.cpus| && i < |s'.cpus| && s.cpus[i].Adding? && !s'.cpus[i].Adding?
  }

  /** How many of the first k steps of a run do so. */
  ghost function Increments(r: seq<State>, k: nat): nat
    requires k < |r|
  {
    if k == 0 then 0 else Increments(r, k - 1) + if Increment(r[k - 1], r[k]) then 1 else 0
  }

  /** A step of one CPU leaves all others where they are. */
  lemma OthersStay(s: State, s': State, i: nat)
    requires i < |s.cpus| && Step(s, s', i)
    ensures |s'.cpus| == |s.cpus| && forall j | 0 <= j < |s.cpus| && j != i :: s'.cpus[j] == s.cpus[j]
  {
  }

  lemma {:induction false} AddedCounts(r: seq<State>, k: nat)
    requires Run(r) && k < |r|
    ensures r[k].added == Increments(r, k)
    decreases k
  {
    if k > 0 {
      AddedCounts(r, k - 1);
      assert Next(r[k - 1], r[k - 1 + 1]);
      var i: nat :| i < |r[k - 1].cpus| && Step(r[k - 1], r[k], i);
      OthersStay(r[k - 1], r[k], i);
      assert Increment(r[k - 1], r[k]) <==> r[k - 1].cpus[i].Adding? && !r[k].cpus[i].Adding?;
    }
  }

  // ----- Calls -----

  /** In AcquireSpinLock, which does not give up. */
  predicate Blocked(pc: Pc) {
    pc == Checking(true) || pc == Exchanging(true)
  }

  /** A CPU in AcquireSpinLock stays in it until it holds the lock, or is stopped by
      the assertion on the time. */
  lemma AcquireGoesOn(r: seq<State>, k: nat, i: nat)
    requires Run(r) && k + 1 < |r| && i < |r[k].cpus| && Blocked(r[k].cpus[i])
    ensures |r[k + 1].cpus| == |r[k].cpus|
    ensures var pc := r[k + 1].cpus[i]; Blocked(pc) || pc == Holding || pc == Halted
  {
    assert Next(r[k], r[k + 1]);
    var n: nat :| n < |r[k].cpus| && Step(r[k], r[k + 1], n);
    OthersStay(r[k], r[k + 1], n);
  }

  lemma StaysHalted(r: seq<State>, k: nat, i: nat)
    requires Run(r) && k + 1 < |r| && i < |r[k].cpus| && r[k].cpus[i] == Halted
    ensures |r[k + 1].cpus| == |r[k].cpus| && r[k + 1].cpus[i] == Halted
  {
    assert Next(r[k], r[k + 1]);
    var n: nat :| n < |r[k].cpus| && Step(r[k], r[k + 1], n);
    OthersStay(r[k], r[k + 1], n);
  }

  lemma {:induction false} SameCpus(r: seq<State>, j: nat, k: nat)
    requires Run(r) && j <= k < |r|
    ensures |r[k].cpus| == |r[j].cpus|
    decreases k
  {
    if j < k {
      SameCpus(r, j, k - 1);
      assert Next(r[k - 1], r[k - 1 + 1]);
      var n: nat :| n < |r[k - 1].cpus| && Step(r[k - 1], r[k], n);
      OthersStay(r[k - 1], r[k], n);
    }
  }

  predicate HoldingAt(r: seq<State>, h: nat, i: nat) {
    h < |r| && i < |r[h].cpus| && r[h].cpus[i] == Holding
  }

  /** So it does not return without the lock: whatever else it is found doing later,
      it has held the lock in between. */
  lemma {:induction false} AcquireReturnsHolding(r: seq<State>, j: nat, k: nat, i: nat)
    requires Run(r) && j <= k < |r| && i < |r[j].cpus| && Blocked(r[j].cpus[i])
    ensures |r[k].cpus| == |r[j].cpus|
    ensures Blocked(r[k].cpus[i]) || r[k].cpus[i] == Halted || exists h: nat | j < h <= k :: HoldingAt(r, h, i)
    decreases k
  {
    hide Run;
    if j < k {
      AcquireReturnsHolding(r, j, k - 1, i);
      SameCpus(r, j, k);
      if Blocked(r[k - 1].cpus[i]) {
        AcquireGoesOn(r, k - 1, i);
        assert r[k].cpus[i] == Holding ==> HoldingAt(r, k, i);
      } else if r[k - 1].cpus[i] == Halted {
        StaysHalted(r, k - 1, i);
      }
    }
  }

  /** AcquireSpinLockOrFail alone: one check, one exchange, and then the call is over,
      with the lock or without. */
  lemma AttemptIsOneExchange(r: seq<State>, k: nat, i: nat)
    requires Run(r) && k + 1 < |r| && i < |r[k].cpus|
    ensures |r[k + 1].cpus| == |r[k].cpus|
    ensures r[k].cpus[i] == Checking(false) ==> r[k + 1].cpus[i] in {Checking(false), Exchanging(false)}
    ensures r[k].cpus[i] == Exchanging(false) && r[k + 1].cpus[i] != Exchanging(false) ==>
              r[k + 1].cpus[i] == if SomeHolder(r[k]) then Idle else Holding
  {
    RunKeepsInv(r, k);
    assert Next(r[k], r[k + 1]);
    var n: nat :| n < |r[k].cpus| && Step(r[k], r[k + 1], n);
    OthersStay(r[k], r[k + 1], n);
  }

  /** ReleaseSpinLock: one check and one store, after which the lock is free and the
      call over. */
  lemma ReleaseFrees(r: seq<State>, k: nat, i: nat)
    requires Run(r) && k + 1 < |r| && i < |r[k].cpus|
    ensures |r[k + 1].cpus| == |r[k].cpus|
    ensures r[k].cpus[i] == Unlocking ==> r[k + 1].cpus[i] in {Unlocking, Storing}
    ensures r[k].cpus[i] == Storing && r[k + 1].cpus[i] != Storing ==>
              r[k + 1].cpus[i] == Idle && r[k + 1].lock == 1 && !SomeHolder(r[k + 1])
  {
    RunKeepsInv(r, k);
    RunKeepsInv(r, k + 1);
    assert Next(r[k], r[k + 1]);
    var n: nat :| n < |r[k].cpus| && Step(r[k], r[k + 1], n);
    OthersStay(r[k], r[k + 1], n);
  }

  /** A lock that was never initialized: whoever checks its value fails the assertion. */
  lemma UninitializedAsserts(s: State, s': State, i: nat)
    requires i < |s.cpus| && Step(s, s', i) && s.lock != 1 && s.lock != 2
    requires s.cpus[i].Checking? || s.cpus[i].Unlocking?
    ensures s'.failed || s'.cpus[i] == Halted
  {
  }

  /** An attempt succeeds exactly when no CPU holds the lock at its exchange. */
  lemma ExchangeSucceedsIffFree(r: seq<State>, k: nat, i: nat)
    requires Run(r) && k + 1 < |r| && i < |r[k].cpus| && r[k].cpus[i].Exchanging? && Step(r[k], r[k + 1], i)
    ensures Holds(r[k + 1].cpus[i]) <==> !SomeHolder(r[k])
  {
    RunKeepsInv(r, k);
  }

  // ----- A release by a CPU that does not hold the lock -----

  /** ReleaseSpinLock called by an idle CPU: its assertion holds in either state of
      the lock. */
  ghost predicate RogueStep(s: State, s': State, i: nat)
    requires i < |s.cpus|
  {
    s.cpus[i].Idle? && s' == Goto(s, i, Unlocking)
  }

  ghost predicate AnyRun(r: seq<State>) {
    && r != [] && Init(r[0])
    && forall k | 0 <= k < |r| - 1 :: Next(r[k], r[k + 1]) || Rogue(r[k], r[k + 1])
  }

  ghost predicate Rogue(s: State, s': State) {
    exists i: nat :: i < |s.cpus| && RogueStep(s, s', i)
  }

  /** Only such releases can break any of this: a run that comes to a state with two
      holders, a lock word that does not say whether there is one, a failed
      assertion or a lost increment contains one. */
  lemma BrokenOnlyByRogue(r: seq<State>, k: nat)
    requires AnyRun(r) && k < |r|
    requires !Exclusive(r[k]) || r[k].failed || r[k].counter != r[k].added
             || r[k].lock != if SomeHolder(r[k]) then 2 else 1
    ensures exists j | 0 <= j < k :: Rogue(r[j], r[j + 1])
  {
    if forall j | 0 <= j < k :: !Rogue(r[j], r[j + 1]) {
      var p := r[..k + 1];
      forall j | 0 <= j < |p| - 1
        ensures Next(p[j], p[j + 1])
      {
        assert p[j] == r[j] && p[j + 1] == r[j + 1];
      }
      MutualExclusion(p, k);
    }
  }

  /** And one such release does break it, without any assertion failing: a second
      CPU releases the lock the first one holds and then acquires it. */
  function RogueRun(): seq<State> {
    [ State(RELEASED, 0, [Idle, Idle], false, 0),
      State(RELEASED, 0, [Checking(true), Idle], false, 0),
      State(RELEASED, 0, [Exchanging(true), Idle], false, 0),
      State(ACQUIRED, 0, [Holding, Idle], false, 0),
      State(ACQUIRED, 0, [Holding, Unlocking], false, 0),
      State(ACQUIRED, 0, [Holding, Storing], false, 0),
      State(RELEASED, 0, [Holding, Idle], false, 0),
      State(RELEASED, 0, [Holding, Checking(true)], false, 0),
      State(RELEASED, 0, [Holding, Exchanging(true)], false, 0),
      State(ACQUIRED, 0, [Holding, Holding], false, 0) ]
  }

  lemma RogueBreaks()
    ensures AnyRun(RogueRun()) && !Exclusive(RogueRun()[9]) && !RogueRun()[9].failed
  {
    var r := RogueRun();
    assert Step(r[0], r[1], 0) && Step(r[1], r[2], 0) && Step(r[2], r[3], 0);
    assert RogueStep(r[3], r[4], 1);
    RogueTail();
    assert Holds(r[9].cpus[0]) && Holds(r[9].cpus[1]);
    hide Step, RogueStep;
  }

  lemma RogueTail()
    ensures forall k | 4 <= k < 9 :: Next(RogueRun()[k], RogueRun()[k + 1])
  {
    var r := RogueRun();
    assert Step(r[4], r[5], 1) && Step(r[5], r[6], 1) && Step(r[6], r[7], 1);
    assert Step(r[7], r[8], 1) && Step(r[8], r[9], 1);
  }
}
