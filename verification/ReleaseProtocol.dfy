/** The life of a shared payload handed to one multicast, under every interleaving: the sending
    thread takes one reference per message and sends; from then on each message is released at
    any time by any thread, and a release is two steps, the `fetch_sub` and what follows it. */
module ReleaseProtocol {
  import opened Arithmetic
  import opened Lists

  /** Largest number of messages of one multicast: the count is a signed 32-bit number. */
  const MAX_MESSAGES: nat := 0x7FFF_FFFF

  /** `fetch_add(1)` and `fetch_sub(1)` on the reference count. */
  function Raised(count: int): int {
    I32(count + 1)
  }

  function Lowered(count: int): int {
    I32(count - 1)
  }

  /** Where a message stands; `saw` is what its `fetch_sub` returned. */
  datatype Phase = Unbound | Holding | Lowering(saw: int) | Released(saw: int)

  /** `frees` counts deallocations, `touchedFreed` remembers any access after the first one. */
  datatype State = State(phases: seq<Phase>, taken: nat, sent: bool, count: int, frees: nat, touchedFreed: bool)

  datatype Step =
    | FreeUnsent
    | Take
    | Send
    | FetchSub(m: nat)
    | Finish(m: nat)

  function Init(n: nat): State {
    State(seq(n, i => Unbound), 0, false, 0, 0, false)
  }

  /** An access to the block. */
  function Touch(s: State): State {
    s.(touchedFreed := s.touchedFreed || s.frees > 0)
  }

  predicate Enabled(s: State, step: Step) {
    match step
    case FreeUnsent => |s.phases| == 0 && !s.sent
    case Take => s.taken < |s.phases|
    case Send => s.taken == |s.phases| > 0 && !s.sent
    case FetchSub(m) => s.sent && m < |s.phases| && s.phases[m].Holding?
    case Finish(m) => m < |s.phases| && s.phases[m].Lowering?
  }

  function Apply(s: State, step: Step): State
    requires Enabled(s, step)
  {
    match step
    case FreeUnsent =>
      // No connection: the payload is deallocated right away.
      Touch(s).(frees := s.frees + 1, sent := true)
    case Take =>
      Touch(s).(phases := s.phases[s.taken := Holding], taken := s.taken + 1, count := Raised(s.count))
    case Send =>
      s.(sent := true)
    case FetchSub(m) =>
      Touch(s).(phases := s.phases[m := Lowering(s.count)], count := Lowered(s.count))
    case Finish(m) =>
      var saw := s.phases[m].saw;
      var t := s.(phases := s.phases[m := Released(saw)]);
      if saw == 1 then Touch(t).(frees := t.frees + 1) else t
  }

  /** The steps that access the block: the direct deallocation, both changes of the count, and the
      end of a release that saw 1. */
  predicate Accesses(s: State, step: Step)
    requires Enabled(s, step)
  {
    step.FreeUnsent? || step.Take? || step.FetchSub? || (step.Finish? && s.phases[step.m] == Lowering(1))
  }

  /** What the steps do to count, block and messages. An access to a block that was freed is
      noticed, and never forgotten. */
  lemma {:induction false} StepEffects(s: State, step: Step)
    requires Enabled(s, step) && -0x8000_0000 < s.count < 0x7FFF_FFFF
    ensures Apply(s, step).touchedFreed <==> s.touchedFreed || (Accesses(s, step) && s.frees > 0)
    ensures Apply(s, step).frees
            == s.frees + if step.FreeUnsent? || (step.Finish? && s.phases[step.m] == Lowering(1)) then 1 else 0
    ensures Apply(s, step).count == s.count + if step.Take? then 1 else if step.FetchSub? then -1 else 0
    ensures step.Take? ==> Apply(s, step).phases == s.phases[s.taken := Holding]
    ensures step.FetchSub? ==> Apply(s, step).phases == s.phases[step.m := Lowering(s.count)]
    ensures step.Finish? ==> Apply(s, step).phases == s.phases[step.m := Released(s.phases[step.m].saw)]
    ensures step.Send? || step.FreeUnsent? ==> Apply(s, step).phases == s.phases && Apply(s, step).sent
  {
  }

  /** The steps of the list can be taken one after the other. */
  predicate Feasible(s: State, steps: List<Step>)
    decreases steps
  {
    steps.Cons? ==> Enabled(s, steps.head) && Feasible(Apply(s, steps.head), steps.tail)
  }

  function Run(s: State, steps: List<Step>): State
    requires Feasible(s, steps)
    decreases steps
  {
    if steps.Nil? then s else Run(Apply(s, steps.head), steps.tail)
  }

  // ---- Counting messages ----

  function Tally(phases: seq<Phase>, f: Phase -> bool): (k: nat)
    ensures k <= |phases|
  {
    if phases == [] then 0 else (if f(phases[0]) then 1 else 0) + Tally(phases[1..], f)
  }

  lemma {:induction false} TallyUpdate(phases: seq<Phase>, i: nat, p: Phase, f: Phase -> bool)
    requires i < |phases|
    ensures Tally(phases[i := p], f)
            == Tally(phases, f) - (if f(phases[i]) then 1 else 0) + (if f(p) then 1 else 0)
  {
    if i > 0 {
      TallyUpdate(phases[1..], i - 1, p, f);
      assert phases[i := p][1..] == phases[1..][i - 1 := p];
    }
  }

  lemma {:induction false} TallyPositive(phases: seq<Phase>, i: nat, f: Phase -> bool)
    requires i < |phases| && f(phases[i])
    ensures Tally(phases, f) > 0
  {
    if i > 0 {
      TallyPositive(phases[1..], i - 1, f);
    }
  }

  /** Messages whose reference is not yet dropped. */
  function Holders(s: State): nat {
    Tally(s.phases, (p: Phase) => p.Holding?)
  }

  /** Messages whose `fetch_sub` returned 1: on the way to deallocating the block, or done. */
  function AboutToFree(s: State): nat {
    Tally(s.phases, (p: Phase) => p.Lowering? && p.saw == 1)
  }

  function HaveFreed(s: State): nat {
    Tally(s.phases, (p: Phase) => p.Released? && p.saw == 1)
  }

  // ---- The invariant ----

  /** References are taken in order, all of them before the sending. */
  predicate InOrder(s: State) {
    && s.taken <= |s.phases| <= MAX_MESSAGES
    && (s.sent ==> s.taken == |s.phases|)
    && (forall i | 0 <= i < |s.phases| :: s.phases[i].Unbound? <==> i >= s.taken)
    && (forall i | 0 <= i < |s.phases| :: s.phases[i].Lowering? || s.phases[i].Released? ==> s.sent)
  }

  /** The count is the number of references not yet dropped; a release has seen the value 1 if
      and only if all are dropped, and then exactly one has; the block is freed by that release
      or, without connections, directly; and no step has touched it afterwards. */
  predicate Invariant(s: State) {
    && InOrder(s)
    && s.count == Holders(s)
    && (!s.sent ==> s.count == s.taken)
    && (|s.phases| > 0 ==> AboutToFree(s) + HaveFreed(s) == if s.sent && s.count == 0 then 1 else 0)
    && s.frees == (if |s.phases| > 0 then HaveFreed(s) else if s.sent then 1 else 0)
    && !s.touchedFreed
  }

  /** At first no reference is taken, nothing sent and nothing freed. */
  lemma {:induction false} InitIsUntouched(n: nat)
    ensures |Init(n).phases| == n && forall i | 0 <= i < n :: Init(n).phases[i].Unbound?
    ensures Init(n).count == Init(n).frees == Init(n).taken == 0 && !Init(n).sent && !Init(n).touchedFreed
  {
  }

  lemma {:induction false} InitInvariant(n: nat)
    requires n <= MAX_MESSAGES
    ensures Invariant(Init(n))
  {
    TallyOfUnbound(n, (p: Phase) => p.Holding?);
    TallyOfUnbound(n, (p: Phase) => p.Lowering? && p.saw == 1);
    TallyOfUnbound(n, (p: Phase) => p.Released? && p.saw == 1);
  }

  lemma {:induction false} TallyOfUnbound(n: nat, f: Phase -> bool)
    requires !f(Unbound)
    ensures Tally(seq(n, i => Unbound), f) == 0
  {
    if n > 0 {
      TallyOfUnbound(n - 1, f);
      assert seq(n, i => Unbound)[1..] == seq(n - 1, i => Unbound);
    }
  }

  /** What changing one message changes in the counts. */
  lemma {:induction false} CountsAfter(s: State, m: nat, p: Phase)
    requires m < |s.phases|
    ensures var t := s.(phases := s.phases[m := p]);
            var q := s.phases[m];
            && Holders(t) == Holders(s) - (if q.Holding? then 1 else 0) + (if p.Holding? then 1 else 0)
            && AboutToFree(t) == AboutToFree(s)
                 - (if q.Lowering? && q.saw == 1 then 1 else 0) + (if p.Lowering? && p.saw == 1 then 1 else 0)
            && HaveFreed(t) == HaveFreed(s)
                 - (if q.Released? && q.saw == 1 then 1 else 0) + (if p.Released? && p.saw == 1 then 1 else 0)
  {
    TallyUpdate(s.phases, m, p, (p: Phase) => p.Holding?);
    TallyUpdate(s.phases, m, p, (p: Phase) => p.Lowering? && p.saw == 1);
    TallyUpdate(s.phases, m, p, (p: Phase) => p.Released? && p.saw == 1);
  }

  lemma {:induction false} TakeKeeps(s: State)
    requires Invariant(s) && Enabled(s, Take)
    ensures Invariant(Apply(s, Take))
  {
    CountsAfter(s, s.taken, Holding);
  }

  lemma {:induction false} FetchSubKeeps(s: State, m: nat)
    requires Invariant(s) && Enabled(s, FetchSub(m))
    ensures Invariant(Apply(s, FetchSub(m)))
  {
    CountsAfter(s, m, Lowering(s.count));
    TallyPositive(s.phases, m, (p: Phase) => p.Holding?);
  }

  lemma {:induction false} FinishKeeps(s: State, m: nat)
    requires Invariant(s) && Enabled(s, Finish(m))
    ensures Invariant(Apply(s, Finish(m)))
  {
    CountsAfter(s, m, Released(s.phases[m].saw));
    if s.phases[m].saw == 1 {
      TallyPositive(s.phases, m, (p: Phase) => p.Lowering? && p.saw == 1);
    }
  }

  lemma {:induction false} StepKeeps(s: State, step: Step)
    requires Invariant(s) && Enabled(s, step)
    ensures Invariant(Apply(s, step))
  {
    match step
    case FreeUnsent =>
    case Take => TakeKeeps(s);
    case Send =>
    case FetchSub(m) => FetchSubKeeps(s, m);
    case Finish(m) => FinishKeeps(s, m);
  }

  lemma {:induction false} RunKeeps(s: State, steps: List<Step>)
    requires Invariant(s) && Feasible(s, steps)
    ensures Invariant(Run(s, steps))
    decreases steps
  {
    if steps.Cons? {
      StepKeeps(s, steps.head);
      RunKeeps(Apply(s, steps.head), steps.tail);
    }
  }

  /** Once the messages are sent, any of them may be released next, and any release that has begun
      may go on: nothing else has to happen before. */
  lemma {:induction false} AnyReleaseMayGoOn(s: State, m: nat)
    requires Invariant(s) && s.sent && m < |s.phases|
    ensures Enabled(s, FetchSub(m)) <==> s.phases[m].Holding?
    ensures Enabled(s, Finish(m)) <==> s.phases[m].Lowering?
    ensures Enabled(s, FetchSub(m)) || Enabled(s, Finish(m)) || s.phases[m].Released?
  {
  }

  // ---- Every run ends ----

  /** Nothing is left to do. */
  predicate Complete(s: State) {
    s.sent && forall i | 0 <= i < |s.phases| :: s.phases[i].Released?
  }

  /** Steps a message still has to go through. */
  function Left(p: Phase): nat {
    match p
    case Unbound => 3
    case Holding => 2
    case Lowering(_) => 1
    case Released(_) => 0
  }

  function LeftOf(phases: seq<Phase>): nat {
    if phases == [] then 0 else Left(phases[0]) + LeftOf(phases[1..])
  }

  function StepsLeft(s: State): nat {
    LeftOf(s.phases) + if s.sent then 0 else 1
  }

  lemma {:induction false} LeftOfUpdate(phases: seq<Phase>, i: nat, p: Phase)
    requires i < |phases|
    ensures LeftOf(phases[i := p]) == LeftOf(phases) - Left(phases[i]) + Left(p)
  {
    if i > 0 {
      LeftOfUpdate(phases[1..], i - 1, p);
      assert phases[i := p][1..] == phases[1..][i - 1 := p];
    }
  }

  lemma {:induction false} LeftOfUnbound(n: nat)
    ensures LeftOf(seq(n, i => Unbound)) == 3 * n
  {
    if n > 0 {
      LeftOfUnbound(n - 1);
      assert seq(n, i => Unbound)[1..] == seq(n - 1, i => Unbound);
    }
  }

  /** Nothing is left if and only if every message is released. */
  lemma {:induction false} LeftOfZero(phases: seq<Phase>)
    ensures LeftOf(phases) == 0 <==> forall i | 0 <= i < |phases| :: phases[i].Released?
  {
    if phases != [] {
      LeftOfZero(phases[1..]);
      if forall i | 0 <= i < |phases| :: phases[i].Released? {
        assert forall i | 0 <= i < |phases[1..]| :: phases[1..][i] == phases[i + 1];
      }
    }
  }

  lemma {:induction false} StepCosts(s: State, step: Step)
    requires Invariant(s) && Enabled(s, step)
    ensures StepsLeft(s) == StepsLeft(Apply(s, step)) + 1
  {
    match step
    case FreeUnsent =>
    case Take => LeftOfUpdate(s.phases, s.taken, Holding);
    case Send =>
    case FetchSub(m) => LeftOfUpdate(s.phases, m, Lowering(s.count));
    case Finish(m) => LeftOfUpdate(s.phases, m, Released(s.phases[m].saw));
  }

  lemma {:induction false} RunCosts(s: State, steps: List<Step>)
    requires Invariant(s) && Feasible(s, steps)
    ensures StepsLeft(s) == StepsLeft(Run(s, steps)) + steps.Length()
    decreases steps
  {
    if steps.Cons? {
      StepKeeps(s, steps.head);
      StepCosts(s, steps.head);
      RunCosts(Apply(s, steps.head), steps.tail);
    }
  }

  /** No run gets stuck: as long as something is left to do, some step can be taken. */
  lemma {:induction false} CanContinue(s: State) returns (step: Step)
    requires Invariant(s) && !Complete(s)
    ensures Enabled(s, step)
  {
    if |s.phases| == 0 {
      step := FreeUnsent;
    } else if s.taken < |s.phases| {
      step := Take;
    } else if !s.sent {
      step := Send;
    } else {
      var m: nat :| m < |s.phases| && !s.phases[m].Released?;
      step := if s.phases[m].Holding? then FetchSub(m) else Finish(m);
    }
  }

  /** Once nothing is left to do, no reference is left and the block was freed once. */
  lemma {:induction false} CompleteIsFreed(s: State)
    requires Invariant(s) && Complete(s)
    ensures s.count == 0 && s.frees == 1
    ensures |s.phases| > 0 ==> HaveFreed(s) == 1
  {
    TallyOfReleased(s.phases);
  }

  /** A message that still holds its reference keeps the block alive. */
  lemma {:induction false} HolderKeepsAlive(s: State, m: nat)
    requires Invariant(s) && m < |s.phases| && s.phases[m].Holding?
    ensures s.count > 0 && s.frees == 0
  {
    TallyPositive(s.phases, m, (p: Phase) => p.Holding?);
  }

  // ---- The theorem ----

  /** A release that saw the value 1 finds the block still there when it goes on to free it. */
  lemma {:induction false} FreerFindsItAlive(s: State, m: nat)
    requires Invariant(s) && m < |s.phases| && s.phases[m] == Lowering(1)
    ensures s.frees == 0
  {
    TallyPositive(s.phases, m, (p: Phase) => p.Lowering? && p.saw == 1);
  }

  /** Exactly-once release. In every run of a multicast to `n` connections the count is the
      number of references not yet dropped, the block is never touched after it was freed and
      never freed twice, and it is not freed while a reference is left; every run of 3 * n + 1
      steps has released all the messages and freed the block once, by the one release that saw
      the value 1 if there is a message at all; every shorter run can go on, and no run is
      longer. */
  lemma {:induction false} ExactlyOnce(n: nat, steps: List<Step>)
    requires n <= MAX_MESSAGES && Feasible(Init(n), steps)
    ensures var s := Run(Init(n), steps);
            && s.count == Holders(s) && !s.touchedFreed && s.frees <= 1
            && (s.frees == 1 ==> s.count == 0 && s.sent)
            && steps.Length() <= 3 * n + 1
            && (steps.Length() == 3 * n + 1 <==> Complete(s))
            && (Complete(s) ==> s.frees == 1 && (n > 0 ==> HaveFreed(s) == 1))
            && (Complete(s) <==> forall step :: !Enabled(s, step))
  {
    var s := Run(Init(n), steps);
    InitInvariant(n);
    RunKeeps(Init(n), steps);
    RunCosts(Init(n), steps);
    RunSize(Init(n), steps);
    LeftOfUnbound(n);
    LeftOfZero(s.phases);
    if Complete(s) {
      CompleteIsFreed(s);
    } else {
      var step := CanContinue(s);
    }
  }

  lemma {:induction false} RunSize(s: State, steps: List<Step>)
    requires Feasible(s, steps)
    ensures |Run(s, steps).phases| == |s.phases|
    decreases steps
  {
    if steps.Cons? {
      RunSize(Apply(s, steps.head), steps.tail);
    }
  }

  lemma {:induction false} TallyOfReleased(phases: seq<Phase>)
    requires forall i | 0 <= i < |phases| :: phases[i].Released?
    ensures Tally(phases, (p: Phase) => p.Holding?) == 0
    ensures Tally(phases, (p: Phase) => p.Lowering? && p.saw == 1) == 0
  {
    if phases != [] {
      TallyOfReleased(phases[1..]);
    }
  }

  // ---- The steps of the sending thread ----

  /** State after the first `k` references were taken. */
  function Taken(n: nat, k: nat): State
    requires k <= n
  {
    State(seq(n, i => if i < k then Holding else Unbound), k, false, k, 0, false)
  }

  /** What one call of `multicast` leaves behind. */
  function Multicasted(n: nat): State {
    if n == 0 then Apply(Init(0), FreeUnsent) else Apply(Taken(n, n), Send)
  }

  /** `n` times `Take`, with something behind. */
  function Takes(k: nat, rest: List<Step>): List<Step> {
    if k == 0 then rest else Cons(Take, Takes(k - 1, rest))
  }

  lemma {:induction false} TakeStep(n: nat, k: nat)
    requires k < n <= MAX_MESSAGES
    ensures Enabled(Taken(n, k), Take) && Apply(Taken(n, k), Take) == Taken(n, k + 1)
  {
  }

  lemma {:induction false} TakesReach(n: nat, k: nat, rest: List<Step>)
    requires k <= n <= MAX_MESSAGES && Feasible(Taken(n, n), rest)
    ensures Feasible(Taken(n, k), Takes(n - k, rest))
    ensures Run(Taken(n, k), Takes(n - k, rest)) == Run(Taken(n, n), rest)
    decreases n - k
  {
    if k < n {
      TakeStep(n, k);
      TakesReach(n, k + 1, rest);
    }
  }

  /** A call of `multicast` is a run of the protocol. */
  lemma {:induction false} MulticastIsRun(n: nat) returns (steps: List<Step>)
    requires n <= MAX_MESSAGES
    ensures Feasible(Init(n), steps) && Run(Init(n), steps) == Multicasted(n)
    ensures Invariant(Multicasted(n))
  {
    if n == 0 {
      steps := Cons(FreeUnsent, Nil);
    } else {
      var send := Cons(Send, Nil);
      steps := Takes(n, send);
      assert Run(Taken(n, n), send) == Apply(Taken(n, n), Send);
      assert Init(n) == Taken(n, 0);
      TakesReach(n, 0, send);
    }
    InitInvariant(n);
    RunKeeps(Init(n), steps);
  }

  /** Nothing overtakes the sending thread: whatever the schedule, it starts with references being
      taken, and if it gets beyond that, all of them are taken and the messages sent first. What
      comes then are releases from the state one call of `multicast` leaves behind. */
  lemma {:induction false} SendingComesFirst(n: nat, k: nat, steps: List<Step>) returns (j: nat, rest: List<Step>)
    requires k <= n <= MAX_MESSAGES && n > 0 && Feasible(Taken(n, k), steps)
    ensures Feasible(Multicasted(n), rest)
    ensures || (k + j <= n && steps == Takes(j, Nil) && rest == Nil)
            || (steps == Takes(n - k, Cons(Send, rest)) && Run(Taken(n, k), steps) == Run(Multicasted(n), rest))
    decreases steps
  {
    if steps.Nil? {
      j, rest := 0, Nil;
    } else if k < n {
      assert steps.head == Take;
      TakeStep(n, k);
      j, rest := SendingComesFirst(n, k + 1, steps.tail);
      j := j + 1;
    } else {
      assert steps.head == Send;
      j, rest := 0, steps.tail;
    }
  }

  // ---- The steps of the releasing threads ----

  /** After the call every message holds its reference and may release it. */
  lemma {:induction false} AllHolding(n: nat)
    ensures Multicasted(n).sent && Multicasted(n).phases == seq(n, i => Holding)
  {
    assert Taken(n, n).phases == seq(n, i => Holding);
  }

  lemma {:induction false} LeftOfHolding(n: nat)
    ensures LeftOf(seq(n, i => Holding)) == 2 * n
  {
    if n > 0 {
      LeftOfHolding(n - 1);
      assert seq(n, i => Holding)[1..] == seq(n - 1, i => Holding);
    }
  }

  /** After a `multicast` to `n` connections, 2 * n steps in any feasible order release everything;
      no schedule is longer. */
  lemma {:induction false} ReleasesComplete(n: nat, schedule: List<Step>)
    requires n <= MAX_MESSAGES && Feasible(Multicasted(n), schedule)
    ensures schedule.Length() <= 2 * n
    ensures schedule.Length() == 2 * n <==> Complete(Run(Multicasted(n), schedule))
  {
    hide Invariant, Multicasted;
    var steps := MulticastIsRun(n);
    RunCosts(Multicasted(n), schedule);
    AllHolding(n);
    LeftOfHolding(n);
    LeftOfZero(Run(Multicasted(n), schedule).phases);
  }
}
