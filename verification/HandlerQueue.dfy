/** The cross-thread call queue and its eventfd wakeup, as a state machine over the
    interleaved steps of posters and the consuming thread (were/were_handler.cpp). */
module HandlerQueue {

  /** Where the consuming thread is: in epoll_wait, about to read the eventfd, about to
      look at the queue with the mutex held, or running a call with the mutex released. */
  datatype Phase = Waiting | Reading | Looking | Running(call: nat)

  /** writers counts the posters between their push and their write; edge says that an
      edge-triggered event is pending; pushed and started are the calls ever pushed and
      ever started, in order. */
  datatype State = State(
    queue: seq<nat>, counter: nat, edge: bool, writers: nat, phase: Phase, pushed: seq<nat>, started: seq<nat>)

  /** The eventfd blocks writers at this value. */
  const FULL: nat := 0xffff_ffff_ffff_fffe

  ghost predicate Init(s: State) { s == State([], 0, false, 0, Waiting, [], []) }

  // ---------- steps

  /** post, up to the release of the mutex; and its eventfd write. */
  ghost predicate Push(s: State, t: State, call: nat) {
    t == s.(queue := s.queue + [call], writers := s.writers + 1, pushed := s.pushed + [call])
  }

  ghost predicate Write(s: State, t: State) {
    s.writers > 0 && s.counter < FULL && t == s.(writers := s.writers - 1, counter := s.counter + 1, edge := true)
  }

  /** epoll reports a pending edge if the descriptor is still readable, and forgets it
      otherwise. */
  ghost predicate Wake(s: State, t: State) {
    s.phase == Waiting && s.edge && s.counter > 0 && t == s.(edge := false, phase := Reading)
  }

  ghost predicate Forget(s: State, t: State) {
    s.phase == Waiting && s.edge && s.counter == 0 && t == s.(edge := false)
  }

  /** The read blocks while the counter is 0 and otherwise resets it. */
  ghost predicate Read(s: State, t: State) {
    s.phase == Reading && s.counter > 0 && t == s.(counter := 0, phase := Looking)
  }

  /** The rounds of process_queue. */
  ghost predicate Pop(s: State, t: State) {
    s.phase == Looking && s.queue != [] &&
    t == s.(queue := s.queue[1..], phase := Running(s.queue[0]), started := s.started + [s.queue[0]])
  }

  ghost predicate Return(s: State, t: State) { s.phase.Running? && t == s.(phase := Looking) }

  ghost predicate Leave(s: State, t: State) {
    s.phase == Looking && s.queue == [] && t == s.(phase := Waiting)
  }

  /** Every step but a push. */
  ghost predicate Quiet(s: State, t: State) {
    Write(s, t) || Wake(s, t) || Forget(s, t) || Read(s, t) || Pop(s, t) || Return(s, t) || Leave(s, t)
  }

  ghost predicate Step(s: State, t: State) { Quiet(s, t) || exists call :: Push(s, t, call) }

  // ---------- the invariant

  /** A non-empty queue is always on somebody's mind. */
  ghost predicate NoLostWakeup(s: State) {
    s.queue != [] ==> (s.counter > 0 && s.edge) || s.writers > 0 || s.phase != Waiting
  }

  ghost predicate Inv(s: State) {
    && NoLostWakeup(s)
    && s.started + s.queue == s.pushed
    && (s.counter > 0 ==> s.edge || s.phase == Reading)
    && (s.phase == Reading ==> s.counter > 0)
    && (s.phase.Running? ==> s.started != [] && s.started[|s.started| - 1] == s.phase.call)
  }

  lemma StepKeepsInv(s: State, t: State)
    requires Inv(s) && Step(s, t)
    ensures Inv(t) && s.pushed <= t.pushed && s.started <= t.started
  {
    if Pop(s, t) {
      assert s.queue == [s.queue[0]] + s.queue[1..];
    } else if !Quiet(s, t) {
      var call :| Push(s, t, call);
      assert s.started + (s.queue + [call]) == s.started + s.queue + [call];
    }
  }

  /** Runs of any length, by any interleaving. */
  ghost predicate Run(run: seq<State>) {
    run != [] && forall i :: 0 <= i < |run| - 1 ==> Step(run[i], run[i + 1])
  }

  /** Over every run, no wakeup is lost and the calls started are the calls pushed, each
      once and in push order, up to those still queued. */
  lemma {:induction false} EveryRun(run: seq<State>, i: nat)
    requires Run(run) && Init(run[0]) && i < |run|
    ensures Inv(run[i]) && run[i].started <= run[i].pushed
  {
    if i > 0 {
      EveryRun(run, i - 1);
      assert Step(run[i - 1], run[i - 1 + 1]);
      StepKeepsInv(run[i - 1], run[i]);
    }
    assert run[i].started + run[i].queue == run[i].pushed;
  }

  // ---------- progress

  function PhaseWeight(p: Phase): nat {
    match p
    case Waiting => 0
    case Looking => 2
    case Reading => 3
    case Running(_) => 3
  }

  /** An upper bound for the quiet steps that can follow. */
  function Weight(s: State): nat {
    5 * s.writers + (if s.edge then 4 else 0) + 2 * |s.queue| + PhaseWeight(s.phase)
  }

  lemma QuietSteps(s: State, t: State)
    requires Quiet(s, t)
    ensures Weight(t) < Weight(s) && t.pushed == s.pushed
  {
  }

  ghost predicate QuietRun(run: seq<State>) {
    run != [] && forall i :: 0 <= i < |run| - 1 ==> Quiet(run[i], run[i + 1])
  }

  /** Without further posts, every run ends. */
  lemma {:induction false} QuietRunsEnd(run: seq<State>)
    requires QuietRun(run)
    ensures |run| + Weight(run[|run| - 1]) <= Weight(run[0]) + 1
    ensures run[|run| - 1].pushed == run[0].pushed
    decreases |run|
  {
    if |run| > 1 {
      var front := run[..|run| - 1];
      forall i | 0 <= i < |front| - 1
        ensures Quiet(front[i], front[i + 1])
      {
        assert Quiet(run[i], run[i + 1]);
      }
      QuietRunsEnd(front);
      assert Quiet(run[|run| - 2], run[|run| - 2 + 1]);
      QuietSteps(run[|run| - 2], run[|run| - 1]);
    }
  }

  ghost predicate Stuck(s: State) { forall t :: !Quiet(s, t) }

  /** A state where no quiet step is possible has started everything that was pushed. */
  lemma StuckMeansDone(s: State)
    requires Inv(s)
    ensures Stuck(s) ==> s.queue == [] && s.writers == 0 && s.phase == Waiting && s.started == s.pushed
  {
    if Stuck(s) {
      var t := match s.phase
        case Waiting =>
          if s.edge then s.(edge := false, phase := if s.counter > 0 then Reading else Waiting)
          else if s.writers > 0 then s.(writers := s.writers - 1, counter := s.counter + 1, edge := true)
          else s
        case Reading => s.(counter := 0, phase := Looking)
        case Looking =>
          if s.queue == [] then s.(phase := Waiting)
          else s.(queue := s.queue[1..], phase := Running(s.queue[0]), started := s.started + [s.queue[0]])
        case Running(_) => s.(phase := Looking);
      assert !Quiet(s, t);
      assert s.phase == Waiting && s.queue == [];
      assert s.started + [] == s.started;
    }
  }

  /** Once posting stops, every run that cannot go on has run every posted call. */
  lemma {:induction false} PostedCallsRun(run: seq<State>)
    requires QuietRun(run) && Inv(run[0]) && Stuck(run[|run| - 1])
    ensures run[|run| - 1].started == run[0].pushed && run[|run| - 1].phase == Waiting
  {
    InvAlong(run, |run| - 1);
    StuckMeansDone(run[|run| - 1]);
    QuietRunsEnd(run);
  }

  lemma {:induction false} InvAlong(run: seq<State>, i: nat)
    requires QuietRun(run) && Inv(run[0]) && i < |run|
    ensures Inv(run[i])
  {
    if i > 0 {
      InvAlong(run, i - 1);
      assert Quiet(run[i - 1], run[i - 1 + 1]);
      StepKeepsInv(run[i - 1], run[i]);
    }
  }
}
