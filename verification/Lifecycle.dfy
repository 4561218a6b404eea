/** The life of a worker thread under its two flags: `raop_ntp`, `raop_rtp` and `httpd` all start,
    stop and end their thread by this protocol. Every step is what one thread does under the
    mutex, or the join between two such sections; any number of callers may take them. */
module Lifecycle {

  /** A worker is in its loop, past it, past the section that clears the flag, or has returned. */
  datatype Worker = Looping | Leaving | Cleared | Gone

  /** A stop call that has cleared the flag: before the join, before the last section, finished. */
  datatype Stopper = Joining | Marking | Finished

  /** `joins` lists the joined workers in order; the thread handle is that of the newest worker. */
  datatype State = State(running: bool, joined: bool, workers: seq<Worker>, stoppers: seq<Stopper>, joins: seq<nat>)

  const INITIAL := State(false, true, [], [], [])

  datatype Step =
    | Start                 // a start call, which is one section
    | StopBegin             // the first section of a stop call
    | Join(stopper: nat)    // a stop call's join returns
    | Mark(stopper: nat)    // the last section of a stop call
    | Check(worker: nat)    // a worker looks at the flag at the top of its loop
    | Break(worker: nat)    // a worker leaves its loop on its own: an error, or no answers
    | Clear(worker: nat)    // a worker's last section
    | Return(worker: nat)   // a worker's function returns

  predicate Enabled(s: State, step: Step) {
    match step
    case Start => true
    case StopBegin => true
    case Join(i) => i < |s.stoppers| && s.stoppers[i] == Joining && |s.workers| > 0 && s.workers[|s.workers| - 1] == Gone
    case Mark(i) => i < |s.stoppers| && s.stoppers[i] == Marking
    case Check(i) => i < |s.workers| && s.workers[i] == Looping
    case Break(i) => i < |s.workers| && s.workers[i] == Looping
    case Clear(i) => i < |s.workers| && s.workers[i] == Leaving
    case Return(i) => i < |s.workers| && s.workers[i] == Cleared
  }

  /** A start call creates a worker exactly here. */
  predicate Creates(s: State, step: Step) {
    step == Start && !s.running && s.joined
  }

  function Do(s: State, step: Step): State
    requires Enabled(s, step)
  {
    match step
    case Start =>
      if s.running || !s.joined then s
      else s.(running := true, joined := false, workers := s.workers + [Looping])
    case StopBegin =>
      if !s.running || s.joined then s
      else s.(running := false, stoppers := s.stoppers + [Joining])
    case Join(i) => s.(stoppers := s.stoppers[i := Marking], joins := s.joins + [|s.workers| - 1])
    case Mark(i) => s.(joined := true, stoppers := s.stoppers[i := Finished])
    case Check(i) => if s.running then s else s.(workers := s.workers[i := Leaving])
    case Break(i) => s.(workers := s.workers[i := Leaving])
    case Clear(i) => s.(running := false, workers := s.workers[i := Cleared])
    case Return(i) => s.(workers := s.workers[i := Gone])
  }

  /** A run from the initial state; a step that is not enabled leaves the state as it is. */
  function Run(steps: seq<Step>): State {
    if |steps| == 0 then INITIAL
    else
      var s := Run(steps[..|steps| - 1]);
      if Enabled(s, steps[|steps| - 1]) then Do(s, steps[|steps| - 1]) else s
  }

  ghost predicate Active(s: State, i: int) {
    0 <= i < |s.stoppers| && s.stoppers[i] != Finished
  }

  /** The invariant. The newest worker is the only one that may be alive, unjoined, or about to
      clear the flag; and one stop call at most is between its two sections. */
  ghost predicate Inv(s: State) {
    var n := |s.workers|;
    && (n == 0 ==> s.joined)
    && (forall i :: 0 <= i < n - 1 ==> s.workers[i] == Gone)
    && (s.joined ==> !s.running && |s.joins| == n && (n > 0 ==> s.workers[n - 1] == Gone))
    && (!s.joined ==> n - 1 <= |s.joins| <= n)
    && (forall i :: 0 <= i < |s.joins| ==> s.joins[i] == i)
    && (|s.joins| == n && n > 0 ==> s.workers[n - 1] == Gone && !s.running)
    && (s.running ==> s.workers[n - 1] == Looping || s.workers[n - 1] == Leaving)
    && (forall i :: Active(s, i) ==> !s.running && !s.joined)
    && (forall i, j :: Active(s, i) && Active(s, j) ==> i == j)
    && (forall i :: Active(s, i) ==> (s.stoppers[i] == Marking <==> |s.joins| == n))
    && (!s.joined && |s.joins| == n ==> exists i :: Active(s, i))
  }

  lemma StartKeepsInv(s: State)
    requires Inv(s)
    ensures Inv(Do(s, Start))
  {
    var s' := Do(s, Start);
    assert forall i :: Active(s', i) <==> Active(s, i);
  }

  lemma StopBeginKeepsInv(s: State)
    requires Inv(s)
    ensures Inv(Do(s, StopBegin))
  {
    var s' := Do(s, StopBegin);
    if s' != s {
      assert forall i :: Active(s', i) && i != |s.stoppers| ==> Active(s, i);
      assert Active(s', |s.stoppers|);
    }
  }

  lemma StopperKeepsInv(s: State, step: Step)
    requires Inv(s) && (step.Join? || step.Mark?) && Enabled(s, step)
    ensures Inv(Do(s, step))
  {
    var s' := Do(s, step);
    var k := step.stopper;
    assert Active(s, k);
    if step.Join? {
      assert forall i :: Active(s', i) <==> Active(s, i);
    } else {
      forall i ensures !Active(s', i) {
        assert Active(s', i) ==> Active(s, i) && i != k;
      }
    }
  }

  lemma WorkerKeepsInv(s: State, step: Step)
    requires Inv(s) && (step.Check? || step.Break? || step.Clear? || step.Return?) && Enabled(s, step)
    ensures Inv(Do(s, step))
  {
    var s' := Do(s, step);
    assert step.worker == |s.workers| - 1;
    assert forall i :: Active(s', i) <==> Active(s, i);
  }

  /** The invariant holds after every interleaving of steps. */
  lemma {:induction false} EveryRunKeepsInv(steps: seq<Step>)
    ensures Inv(Run(steps))
    decreases |steps|
  {
    if |steps| > 0 {
      var s, step := Run(steps[..|steps| - 1]), steps[|steps| - 1];
      EveryRunKeepsInv(steps[..|steps| - 1]);
      if Enabled(s, step) {
        match step {
          case Start => StartKeepsInv(s);
          case StopBegin => StopBeginKeepsInv(s);
          case Join(_) => StopperKeepsInv(s, step);
          case Mark(_) => StopperKeepsInv(s, step);
          case _ => WorkerKeepsInv(s, step);
        }
      }
    }
  }

  /** In every run: one worker is alive at most; a new one is only created when every earlier one
      has returned and was joined; none is joined twice; and a worker that is about to clear the
      flag is the newest, so it never clears the flag of another. */
  lemma WorkersAreExclusive(steps: seq<Step>)
    ensures var s := Run(steps);
      && (forall i, j :: 0 <= i < |s.workers| && 0 <= j < |s.workers| && s.workers[i] != Gone && s.workers[j] != Gone ==> i == j)
      && (Creates(s, Start) ==> forall i: nat :: i < |s.workers| ==> s.workers[i] == Gone && i in s.joins)
      && (forall i, j :: 0 <= i < j < |s.joins| ==> s.joins[i] != s.joins[j])
      && (forall i :: 0 <= i < |s.workers| && s.workers[i] == Leaving ==> i == |s.workers| - 1)
  {
    EveryRunKeepsInv(steps);
    var s := Run(steps);
    if Creates(s, Start) {
      forall i: nat | i < |s.workers| ensures s.workers[i] == Gone && i in s.joins {
        assert s.joins[i] == i;
      }
    }
  }

  // ---- What the calls achieve ----

  /** A start call adds one worker, in its loop and not joined, or changes nothing. */
  lemma StartAddsOne(s: State)
    ensures var s' := Do(s, Start);
      if Creates(s, Start)
      then s'.workers == s.workers + [Looping] && s'.running && !s'.joined && s'.stoppers == s.stoppers && s'.joins == s.joins
      else s' == s
  {
  }

  /** A stop call on a running service clears the flag, and is from then on the one that will join. */
  lemma StopTakesHold(steps: seq<Step>)
    requires Run(steps).running
    ensures var s, s' := Run(steps), Do(Run(steps), StopBegin);
      && !s'.running && s'.workers == s.workers && s'.joins == s.joins && !s'.joined
      && (forall i :: Active(s', i) <==> i == |s.stoppers|) && s'.stoppers[|s.stoppers|] == Joining
  {
    EveryRunKeepsInv(steps);
    var s := Run(steps);
    var s' := Do(s, StopBegin);
    assert Active(s', |s.stoppers|);
    forall i ensures Active(s', i) <==> i == |s.stoppers| {
      assert !Active(s, i);
    }
  }

  /** What is left to do until stop call `i` is finished. */
  function Remaining(s: State, i: nat): nat
    requires i < |s.stoppers|
  {
    (if |s.workers| == 0 then 0 else match s.workers[|s.workers| - 1]
                                     case Looping => 3 case Leaving => 2 case Cleared => 1 case Gone => 0)
    + match s.stoppers[i] case Joining => 2 case Marking => 1 case Finished => 0
  }

  /** While a stop call is under way, the next step towards its end is always enabled, be it the
      worker's or its own. */
  lemma StopGoesOn(steps: seq<Step>, i: nat) returns (step: Step)
    requires Active(Run(steps), i)
    ensures Enabled(Run(steps), step) && Remaining(Do(Run(steps), step), i) < Remaining(Run(steps), i)
  {
    EveryRunKeepsInv(steps);
    var s := Run(steps);
    var n := |s.workers| - 1;
    match s.workers[n] {
      case Looping => step := Check(n);
      case Leaving => step := Clear(n);
      case Cleared => step := Return(n);
      case Gone => step := if s.stoppers[i] == Joining then Join(i) else Mark(i);
    }
  }

  /** And no step of anybody else puts it off: every enabled step keeps what is left, or lessens it. */
  lemma StopIsNotPutOff(steps: seq<Step>, i: nat, step: Step)
    requires Active(Run(steps), i) && Enabled(Run(steps), step)
    ensures i < |Do(Run(steps), step).stoppers| && Remaining(Do(Run(steps), step), i) <= Remaining(Run(steps), i)
    ensures Remaining(Do(Run(steps), step), i) == Remaining(Run(steps), i) ==>
      Active(Do(Run(steps), step), i)
  {
    EveryRunKeepsInv(steps);
  }

  function RunFrom(s: State, steps: seq<Step>): State
    decreases |steps|
  {
    if |steps| == 0 then s else RunFrom(if Enabled(s, steps[0]) then Do(s, steps[0]) else s, steps[1..])
  }

  predicate EnabledInTurn(s: State, steps: seq<Step>)
    decreases |steps|
  {
    |steps| > 0 ==> Enabled(s, steps[0]) && EnabledInTurn(Do(s, steps[0]), steps[1..])
  }

  /** A whole restart: from any run whose worker is in its loop, it can be stopped, joined once, and
      replaced by a new one. */
  lemma RestartWorks(steps: seq<Step>) returns (cycle: seq<Step>)
    requires Run(steps).running && |Run(steps).workers| > 0 && Run(steps).workers[|Run(steps).workers| - 1] == Looping
    ensures var s := Run(steps); var n, k := |s.workers| - 1, |s.stoppers|;
      && cycle == [StopBegin, Check(n), Clear(n), Return(n), Join(k), Mark(k), Start]
      && EnabledInTurn(s, cycle)
      && RunFrom(s, cycle) == State(true, false, s.workers[n := Gone] + [Looping], s.stoppers + [Finished], s.joins + [n])
  {
    EveryRunKeepsInv(steps);
    var s := Run(steps);
    var n, k := |s.workers| - 1, |s.stoppers|;
    var s1 := s.(running := false, stoppers := s.stoppers + [Joining]);
    var s4 := s1.(workers := s.workers[n := Gone]);
    var s6 := State(false, true, s4.workers, s.stoppers + [Finished], s.joins + [n]);
    assert Do(s, StopBegin) == s1;
    hide Do, Enabled, Inv, Run, EnabledInTurn, RunFrom;
    StartsAgain(s6);
    JoinsAndMarks(s4, s.stoppers, [Start]);
    WorkerEnds(s1, [Join(k), Mark(k)] + [Start]);
    OneTurn(s, StopBegin, [Check(n), Clear(n), Return(n)] + ([Join(k), Mark(k)] + [Start]));
    cycle := [StopBegin] + ([Check(n), Clear(n), Return(n)] + ([Join(k), Mark(k)] + [Start]));
    assert cycle == [StopBegin, Check(n), Clear(n), Return(n), Join(k), Mark(k), Start];
  }

  lemma OneTurn(s: State, step: Step, rest: seq<Step>)
    requires Enabled(s, step) && EnabledInTurn(Do(s, step), rest)
    ensures EnabledInTurn(s, [step] + rest) && RunFrom(s, [step] + rest) == RunFrom(Do(s, step), rest)
  {
    assert ([step] + rest)[1..] == rest;
  }

  lemma StartsAgain(s: State)
    requires !s.running && s.joined
    ensures EnabledInTurn(s, [Start]) && RunFrom(s, [Start]) == s.(running := true, joined := false, workers := s.workers + [Looping])
  {
    OneTurn(s, Start, []);
    assert [Start] + [] == [Start];
  }

  lemma JoinsAndMarks(s: State, finished: seq<Stopper>, rest: seq<Step>)
    requires s.stoppers == finished + [Joining] && |s.workers| > 0 && s.workers[|s.workers| - 1] == Gone
    requires EnabledInTurn(s.(joined := true, stoppers := finished + [Finished], joins := s.joins + [|s.workers| - 1]), rest)
    ensures var k := |finished|;
      && EnabledInTurn(s, [Join(k), Mark(k)] + rest)
      && RunFrom(s, [Join(k), Mark(k)] + rest)
         == RunFrom(s.(joined := true, stoppers := finished + [Finished], joins := s.joins + [|s.workers| - 1]), rest)
  {
    var k := |finished|;
    var s1 := Do(s, Join(k));
    assert s.stoppers[k := Marking][k := Finished] == finished + [Finished];
    OneTurn(s1, Mark(k), rest);
    OneTurn(s, Join(k), [Mark(k)] + rest);
    assert [Join(k)] + ([Mark(k)] + rest) == [Join(k), Mark(k)] + rest;
  }

  lemma WorkerEnds(s: State, rest: seq<Step>)
    requires !s.running && |s.workers| > 0 && s.workers[|s.workers| - 1] == Looping
    requires EnabledInTurn(s.(workers := s.workers[|s.workers| - 1 := Gone]), rest)
    ensures var n := |s.workers| - 1;
      && EnabledInTurn(s, [Check(n), Clear(n), Return(n)] + rest)
      && RunFrom(s, [Check(n), Clear(n), Return(n)] + rest) == RunFrom(s.(workers := s.workers[n := Gone]), rest)
  {
    var n := |s.workers| - 1;
    var s1 := Do(s, Check(n));
    var s2 := Do(s1, Clear(n));
    assert s2.workers[n := Gone] == s.workers[n := Gone];
    OneTurn(s2, Return(n), rest);
    OneTurn(s1, Clear(n), [Return(n)] + rest);
    OneTurn(s, Check(n), [Clear(n)] + ([Return(n)] + rest));
    assert [Check(n)] + ([Clear(n)] + ([Return(n)] + rest)) == [Check(n), Clear(n), Return(n)] + rest;
  }

  // ---- A worker that ends on its own ----

  /** No flag, no stop call under way, and the newest worker was not joined. */
  ghost predicate Orphaned(s: State) {
    !s.running && !s.joined && forall i :: !Active(s, i)
  }

  /** A worker that clears a flag nobody else cleared leaves the service orphaned. */
  lemma SelfExitOrphans(steps: seq<Step>, worker: nat)
    requires Run(steps).running && Enabled(Run(steps), Clear(worker))
    ensures Orphaned(Do(Run(steps), Clear(worker)))
  {
    EveryRunKeepsInv(steps);
    var s := Run(steps);
    assert forall i :: Active(Do(s, Clear(worker)), i) <==> Active(s, i);
  }

  /** From then on nothing that any caller does starts a worker again, or joins the last one. */
  lemma {:induction false} OrphanedForever(steps: seq<Step>, more: seq<Step>)
    requires Orphaned(Run(steps))
    ensures var s := Run(steps + more);
      Orphaned(s) && |s.workers| == |Run(steps).workers| && s.joins == Run(steps).joins && !Creates(s, Start)
    decreases |more|
  {
    if |more| == 0 {
      assert steps + more == steps;
    } else {
      var before, step := more[..|more| - 1], more[|more| - 1];
      OrphanedForever(steps, before);
      assert (steps + more)[..|steps + more| - 1] == steps + before;
      var s := Run(steps + before);
      if Enabled(s, step) {
        assert step.Join? || step.Mark? ==> Active(s, step.stopper);
        assert forall i :: Active(Do(s, step), i) ==> Active(s, i);
      }
    }
  }

  /** At some step of the run a worker cleared the flag although no stop call had: it ended on its
      own. */
  ghost predicate SelfExited(steps: seq<Step>) {
    exists k :: 0 <= k < |steps| && SelfExitAt(steps, k)
  }

  ghost predicate SelfExitAt(steps: seq<Step>, k: int)
    requires 0 <= k < |steps|
  {
    var s := Run(steps[..k]);
    steps[k].Clear? && Enabled(s, steps[k]) && s.running
  }

  lemma OneStep(steps: seq<Step>, k: nat)
    requires k < |steps|
    ensures Run(steps[..k + 1]) == if Enabled(Run(steps[..k]), steps[k]) then Do(Run(steps[..k]), steps[k]) else Run(steps[..k])
  {
    assert steps[..k + 1][..k] == steps[..k];
  }

  /** Any other step starts from an orphaned state if it ends in one. */
  lemma OrphanedBefore(steps: seq<Step>)
    requires |steps| > 0 && Orphaned(Run(steps)) && !SelfExitAt(steps, |steps| - 1)
    ensures Orphaned(Run(steps[..|steps| - 1]))
  {
    var s, step := Run(steps[..|steps| - 1]), steps[|steps| - 1];
    EveryRunKeepsInv(steps[..|steps| - 1]);
    var s' := Run(steps);
    if Enabled(s, step) {
      assert s' == Do(s, step);
      match step {
        case StopBegin =>
          assert s' != s ==> Active(s', |s.stoppers|);
          assert forall i :: Active(s, i) ==> Active(s', i);
        case Join(i) => assert Active(s', i);
        case Mark(_) =>
        case _ => assert forall i :: Active(s', i) <==> Active(s, i);
      }
    }
  }

  /** A service is orphaned exactly if one of its workers ended on its own. */
  lemma {:induction false} OrphanedExactly(steps: seq<Step>)
    ensures Orphaned(Run(steps)) <==> SelfExited(steps)
    decreases |steps|
  {
    if SelfExited(steps) {
      var k :| 0 <= k < |steps| && SelfExitAt(steps, k);
      SelfExitOrphans(steps[..k], steps[k].worker);
      OneStep(steps, k);
      assert steps[..k + 1] + steps[k + 1..] == steps;
      OrphanedForever(steps[..k + 1], steps[k + 1..]);
    } else if |steps| > 0 {
      var before := steps[..|steps| - 1];
      forall k | 0 <= k < |before| ensures SelfExitAt(before, k) <==> SelfExitAt(steps, k) {
        assert before[..k] == steps[..k];
      }
      OrphanedExactly(before);
      if Orphaned(Run(steps)) {
        OrphanedBefore(steps);
        assert false;
      }
    }
  }

  /** The shortest such run: a worker that leaves its loop, as the one of raop_ntp does after too many
      timeouts. The next start call finds neither flag set and creates nothing. */
  lemma SelfExitHappens() returns (steps: seq<Step>)
    ensures SelfExited(steps) && Orphaned(Run(steps)) && !Creates(Run(steps), Start)
  {
    steps := [Start, Break(0), Clear(0)];
    assert steps[..2] == [Start, Break(0)] && steps[..2][..1] == [Start] && steps[..2][..1][..0] == [];
    assert Run(steps[..2][..1]) == State(true, false, [Looping], [], []);
    assert SelfExitAt(steps, 2);
    OrphanedExactly(steps);
  }

  /** When a start call creates a worker: exactly if none is running, no stop call is under way,
      and none has ever ended on its own. */
  lemma StartableExactly(steps: seq<Step>)
    ensures Creates(Run(steps), Start) <==>
      !Run(steps).running && (forall i :: !Active(Run(steps), i)) && !SelfExited(steps)
  {
    EveryRunKeepsInv(steps);
    OrphanedExactly(steps);
  }
}
