/** Any number of threads submitting to any number of contexts of one engine,
    interleaved with a GPU that may run, save or do nothing. One step is what
    happens between two looks at shared state; the scheduler lock is the only
    thing that keeps the threads apart. */
module Execlist {
  import opened Machine

  const SEQNO_LIMIT := 0x7fff_ffff

  /** Where a thread is in Submit, and the context it submits to. */
  datatype Phase =
    | Outside
    | Entered(context: nat)
    | Launched(context: nat, seqno: nat)
    | Fenced(context: nat, seqno: nat)

  /** fence: what the fence page holds. returned: the fences its submissions
      came back with. */
  datatype Context = Context(next: nat, fence: nat, faulted: bool, returned: seq<nat>)

  /** What the engine has been given and not yet saved. */
  datatype Work = Work(context: nat, seqno: nat, executed: bool)

  /** saved: whose completed switch the status page shows, if any. */
  datatype State = State(
    lock: Option<nat>, threads: map<nat, Phase>, contexts: map<nat, Context>,
    faulted: bool, work: Option<Work>, saved: Option<nat>, writes: seq<(nat, nat)>)

  datatype Step =
    | Create(context: nat)
    | Destroy(context: nat)
    | Acquire(thread: nat, context: nat)
    | Refuse(thread: nat)
    | Launch(thread: nat)
    | SeeFence(thread: nat)
    | SeeSaved(thread: nat)
    | TimeOut(thread: nat)
    | Execute
    | Save

  function At(s: State, thread: nat): Phase {
    if thread in s.threads then s.threads[thread] else Outside
  }

  predicate Uses(p: Phase, context: nat) {
    !p.Outside? && p.context == context
  }

  predicate Enabled(s: State, step: Step) {
    match step
    // A new context is not one that was there before.
    case Create(c) => c !in s.contexts && forall i :: 0 <= i < |s.writes| ==> s.writes[i].0 != c
    // Its client's lock keeps a context from going away under a submission, and
    // the client's fault keeps one whose submission timed out from going away.
    case Destroy(c) =>
      c in s.contexts && !s.contexts[c].faulted && forall t :: t in s.threads ==> !Uses(s.threads[t], c)
    case Acquire(t, c) => At(s, t).Outside? && s.lock.None? && c in s.contexts
    // For whatever reason: faulted, no sequence number left, an engine that
    // does not wake up, or an earlier fence that does not arrive.
    case Refuse(t) => At(s, t).Entered?
    case Launch(t) =>
      && At(s, t).Entered? && At(s, t).context in s.contexts
      && var c := s.contexts[At(s, t).context];
         !s.faulted && !c.faulted && c.next < SEQNO_LIMIT && (c.next == 1 || c.fence >= c.next - 1)
    case SeeFence(t) =>
      At(s, t).Launched? && At(s, t).context in s.contexts && s.contexts[At(s, t).context].fence >= At(s, t).seqno
    case SeeSaved(t) => At(s, t).Fenced? && At(s, t).context in s.contexts && s.saved == Some(At(s, t).context)
    case TimeOut(t) => (At(s, t).Launched? || At(s, t).Fenced?) && At(s, t).context in s.contexts
    case Execute => s.work.Some? && !s.work.value.executed && s.work.value.context in s.contexts
    case Save => s.work.Some? && s.work.value.executed
  }

  function Apply(s: State, step: Step): State
    requires Enabled(s, step)
  {
    match step
    case Create(c) => s.(contexts := s.contexts[c := Context(1, 0, false, [])])
    case Destroy(c) => s.(contexts := s.contexts - {c})
    case Acquire(t, c) => s.(lock := Some(t), threads := s.threads[t := Entered(c)])
    case Refuse(t) => s.(lock := None, threads := s.threads[t := Outside])
    case Launch(t) =>
      var id := s.threads[t].context;
      var c := s.contexts[id];
      s.(threads := s.threads[t := Launched(id, c.next)], contexts := s.contexts[id := c.(next := c.next + 1)],
         work := Some(Work(id, c.next, false)), saved := None, writes := s.writes + [(id, c.next)])
    case SeeFence(t) => s.(threads := s.threads[t := Fenced(s.threads[t].context, s.threads[t].seqno)])
    case SeeSaved(t) =>
      var id := s.threads[t].context;
      var c := s.contexts[id];
      s.(lock := None, threads := s.threads[t := Outside],
         contexts := s.contexts[id := c.(returned := c.returned + [s.threads[t].seqno])])
    case TimeOut(t) =>
      var id := s.threads[t].context;
      s.(lock := None, threads := s.threads[t := Outside], faulted := true,
         contexts := s.contexts[id := s.contexts[id].(faulted := true)])
    case Execute =>
      var w := s.work.value;
      s.(work := Some(w.(executed := true)),
         contexts := s.contexts[w.context := s.contexts[w.context].(fence := w.seqno)])
    case Save => s.(work := None, saved := Some(s.work.value.context))
  }

  const START := State(None, map[], map[], false, None, None, [])

  /** Where a schedule leads, if every step of it can be taken. */
  function Run(s: State, steps: seq<Step>): Option<State> {
    if steps == [] then Some(s)
    else
      var before, last := Run(s, steps[..|steps| - 1]), steps[|steps| - 1];
      if before.Some? && Enabled(before.value, last) then Some(Apply(before.value, last)) else None
  }

  // ------------------------------------------------------ one submission

  /** One thread's way through Submit, once it gets as far as the port: what the
      GPU has done of it when the thread gives back the lock, and whether it has
      seen all of it. */
  function Way(thread: nat, context: nat, executed: bool, saved: bool, back: bool): seq<Step> {
    [Acquire(thread, context), Launch(thread)] + (if executed then [Execute] else []) + (if saved then [Save] else [])
    + if back then [SeeFence(thread), SeeSaved(thread)] else [TimeOut(thread)]
  }

  /** Where it leads. */
  function Submitted(s: State, thread: nat, context: nat, executed: bool, saved: bool, back: bool): State
    requires context in s.contexts
  {
    var c := s.contexts[context];
    State(None, s.threads[thread := Outside],
          s.contexts[context := Context(c.next + 1, if executed then c.next else c.fence, !back,
                                        if back then c.returned + [c.next] else c.returned)],
          !back, if saved then None else Some(Work(context, c.next, executed)),
          if saved then Some(context) else None, s.writes + [(context, c.next)])
  }

  lemma RunMore(s: State, steps: seq<Step>, step: Step)
    requires Run(s, steps).Some? && Enabled(Run(s, steps).value, step)
    ensures Run(s, steps + [step]) == Some(Apply(Run(s, steps).value, step))
  {
    assert (steps + [step])[..|steps|] == steps;
  }

  /** The thread has written the port, and the GPU has done so much of it. */
  function Given(s: State, thread: nat, context: nat, executed: bool, saved: bool): State
    requires context in s.contexts
  {
    var c := s.contexts[context];
    State(Some(thread), s.threads[thread := Launched(context, c.next)],
          s.contexts[context := c.(next := c.next + 1, fence := if executed then c.next else c.fence)],
          s.faulted, if saved then None else Some(Work(context, c.next, executed)),
          if saved then Some(context) else None, s.writes + [(context, c.next)])
  }

  predicate Ready(s: State, thread: nat, context: nat) {
    && context in s.contexts && s.lock.None? && s.work.None? && !s.faulted && At(s, thread).Outside?
    && var c := s.contexts[context];
       !c.faulted && 1 <= c.next < SEQNO_LIMIT && c.fence == c.next - 1
  }

  lemma LaunchLeads(s: State, thread: nat, context: nat)
    requires Ready(s, thread, context)
    ensures Run(s, [Acquire(thread, context), Launch(thread)]) == Some(Given(s, thread, context, false, false))
  {
    hide Run;
    Stays(s);
    var t := Apply(s, Acquire(thread, context));
    RunMore(s, [], Acquire(thread, context));
    assert [] + [Acquire(thread, context)] == [Acquire(thread, context)];
    assert Run(s, [Acquire(thread, context)]) == Some(t);
    RunMore(s, [Acquire(thread, context)], Launch(thread));
    assert [Acquire(thread, context)] + [Launch(thread)] == [Acquire(thread, context), Launch(thread)];
    assert t.threads[thread := Launched(context, s.contexts[context].next)]
        == s.threads[thread := Launched(context, s.contexts[context].next)];
  }

  lemma GpuLeads(s: State, thread: nat, context: nat, steps: seq<Step>, executed: bool, saved: bool)
    requires Ready(s, thread, context) && (saved ==> executed)
    requires Run(s, steps) == Some(Given(s, thread, context, false, false))
    ensures Run(s, steps + (if executed then [Execute] else []) + (if saved then [Save] else []))
         == Some(Given(s, thread, context, executed, saved))
  {
    hide Run;
    var run := steps;
    if executed {
      RunMore(s, steps, Execute);
      run := run + [Execute];
      var given := Given(s, thread, context, false, false);
      assert Apply(given, Execute).contexts == Given(s, thread, context, true, false).contexts;
    }
    assert run == steps + (if executed then [Execute] else []);
    assert Run(s, run) == Some(Given(s, thread, context, executed, false));
    if saved {
      RunMore(s, run, Save);
    } else {
      assert run + [] == run;
    }
  }

  lemma BackLeads(s: State, thread: nat, context: nat, steps: seq<Step>)
    requires Ready(s, thread, context)
    requires Run(s, steps) == Some(Given(s, thread, context, true, true))
    ensures Run(s, steps + [SeeFence(thread), SeeSaved(thread)])
         == Some(Submitted(s, thread, context, true, true, true))
  {
    hide Run;
    var given := Given(s, thread, context, true, true);
    var seen := Apply(given, SeeFence(thread));
    RunMore(s, steps, SeeFence(thread));
    RunMore(s, steps + [SeeFence(thread)], SeeSaved(thread));
    assert steps + [SeeFence(thread)] + [SeeSaved(thread)] == steps + [SeeFence(thread), SeeSaved(thread)];
    assert seen.threads[thread := Outside] == s.threads[thread := Outside];
    assert Apply(seen, SeeSaved(thread)).contexts == Submitted(s, thread, context, true, true, true).contexts;
  }

  lemma TimeOutLeads(s: State, thread: nat, context: nat, steps: seq<Step>, executed: bool, saved: bool)
    requires Ready(s, thread, context)
    requires Run(s, steps) == Some(Given(s, thread, context, executed, saved))
    ensures Run(s, steps + [TimeOut(thread)]) == Some(Submitted(s, thread, context, executed, saved, false))
  {
    hide Run;
    var given := Given(s, thread, context, executed, saved);
    RunMore(s, steps, TimeOut(thread));
    assert given.threads[thread := Outside] == s.threads[thread := Outside];
    assert Apply(given, TimeOut(thread)).contexts == Submitted(s, thread, context, executed, saved, false).contexts;
  }

  lemma WayLeads(s: State, thread: nat, context: nat, executed: bool, saved: bool, back: bool)
    requires Ready(s, thread, context) && (saved ==> executed) && (back ==> saved)
    ensures Run(s, Way(thread, context, executed, saved, back))
         == Some(Submitted(s, thread, context, executed, saved, back))
  {
    hide Run, Submitted, Given, Ready;
    var steps := [Acquire(thread, context), Launch(thread)];
    LaunchLeads(s, thread, context);
    GpuLeads(s, thread, context, steps, executed, saved);
    steps := steps + (if executed then [Execute] else []) + (if saved then [Save] else []);
    if back {
      BackLeads(s, thread, context, steps);
    } else {
      TimeOutLeads(s, thread, context, steps, executed, saved);
    }
  }

  lemma Stays(s: State)
    ensures Run(s, []) == Some(s)
  {}

  /** A submission that does not get that far. */
  lemma RefusalLeads(s: State, thread: nat, context: nat)
    requires context in s.contexts && s.lock.None? && At(s, thread).Outside?
    ensures Run(s, [Acquire(thread, context), Refuse(thread)]) == Some(s.(threads := s.threads[thread := Outside]))
  {
    var t := Apply(s, Acquire(thread, context));
    Stays(s);
    RunMore(s, [], Acquire(thread, context));
    RunMore(s, [Acquire(thread, context)], Refuse(thread));
    assert [] + [Acquire(thread, context)] == [Acquire(thread, context)];
    assert t.threads[thread := Outside] == s.threads[thread := Outside];
  }

  // ------------------------------------------------------------- invariant

  predicate Increasing(fences: seq<nat>, bound: nat) {
    && (forall i, j :: 0 <= i < j < |fences| ==> fences[i] < fences[j])
    && (forall i :: 0 <= i < |fences| ==> 0 < fences[i] < bound)
  }

  /** The thread that holds the lock, if one does, is the only one inside. */
  ghost predicate Exclusive(s: State) {
    && (forall t :: t in s.threads && !s.threads[t].Outside? ==>
          s.lock == Some(t) && s.threads[t].context in s.contexts)
    && (s.lock.Some? ==> !At(s, s.lock.value).Outside?)
  }

  function Inside(s: State): Phase {
    if s.lock.Some? then At(s, s.lock.value) else Outside
  }

  /** A submission whose port write is behind it, on an engine that has not been
      given up: the GPU has at most this one, stores its fence before it saves
      it, and shows it saved only when it is. */
  ghost predicate Underway(s: State, id: nat, seqno: nat) {
    && id in s.contexts && 0 < seqno == s.contexts[id].next - 1 && !s.contexts[id].faulted
    && (s.work.Some? ==> s.work.value.context == id && s.work.value.seqno == seqno && s.saved.None?)
    && s.contexts[id].fence == (if s.work.Some? && !s.work.value.executed then seqno - 1 else seqno)
    && Increasing(s.contexts[id].returned, seqno)
  }

  ghost predicate Progress(s: State) {
    match Inside(s)
    case Outside => s.work.None?
    case Entered(_) => s.work.None?
    case Launched(id, seqno) => Underway(s, id, seqno)
    case Fenced(id, seqno) => Underway(s, id, seqno) && s.contexts[id].fence == seqno
  }

  /** Every context but one that has just been launched has had its last fence
      stored. */
  ghost predicate Settled(s: State) {
    forall c :: c in s.contexts && !(Inside(s).Launched? && Inside(s).context == c) ==>
      s.contexts[c].fence == s.contexts[c].next - 1
  }

  ghost predicate Numbered(s: State) {
    && (forall c :: c in s.contexts ==>
          1 <= s.contexts[c].next <= SEQNO_LIMIT && Increasing(s.contexts[c].returned, s.contexts[c].next))
    && (forall i :: 0 <= i < |s.writes| && s.writes[i].0 in s.contexts ==>
          s.writes[i].1 < s.contexts[s.writes[i].0].next)
    && (forall i, j :: 0 <= i < j < |s.writes| && s.writes[i].0 == s.writes[j].0 ==> s.writes[i].1 < s.writes[j].1)
  }

  ghost predicate Stopped(s: State) {
    && (Inside(s).Outside? || Inside(s).Entered?)
    && (s.work.Some? ==> s.work.value.context in s.contexts && s.contexts[s.work.value.context].faulted)
  }

  ghost predicate Inv(s: State) {
    && Exclusive(s) && Numbered(s)
    && (if s.faulted then Stopped(s)
        else Progress(s) && Settled(s) && forall c :: c in s.contexts ==> !s.contexts[c].faulted)
  }

  lemma ExclusiveStep(s: State, step: Step)
    requires Inv(s) && Enabled(s, step)
    ensures Exclusive(Apply(s, step))
  {
    hide Numbered, Increasing;
  }

  lemma IncreasingMore(fences: seq<nat>, bound: nat, more: nat)
    requires Increasing(fences, bound) && bound <= more
    ensures Increasing(fences, more)
    ensures 0 < bound < more ==> Increasing(fences + [bound], more)
  {}

  lemma NumberedStep(s: State, step: Step)
    requires Inv(s) && Enabled(s, step)
    ensures Numbered(Apply(s, step))
  {
    hide Increasing;
    assert Increasing([], 1) by { NoFences(); }
    if step.Launch? {
      var c := s.contexts[s.threads[step.thread].context];
      IncreasingMore(c.returned, c.next, c.next + 1);
    } else if step.SeeSaved? {
      var p := s.threads[step.thread];
      assert Inside(s) == p;
      IncreasingMore(s.contexts[p.context].returned, p.seqno, p.seqno + 1);
    }
  }

  lemma NoFences()
    ensures Increasing([], 1)
  {}

  /** What is left of the invariant. */
  ghost predicate Rest(s: State) {
    if s.faulted then Stopped(s)
    else Progress(s) && Settled(s) && forall c :: c in s.contexts ==> !s.contexts[c].faulted
  }

  lemma RestByContexts(s: State, step: Step)
    requires Inv(s) && Enabled(s, step) && (step.Create? || step.Destroy?)
    ensures Rest(Apply(s, step))
  {
    hide Numbered, Increasing;
  }

  lemma RestByGpu(s: State, step: Step)
    requires Inv(s) && Enabled(s, step) && (step.Execute? || step.Save?)
    ensures Rest(Apply(s, step))
  {
    hide Numbered, Increasing;
  }

  lemma RestByEntering(s: State, step: Step)
    requires Inv(s) && Enabled(s, step) && (step.Acquire? || step.Refuse?)
    ensures Rest(Apply(s, step))
  {
    hide Numbered, Increasing;
  }

  lemma RestByLaunch(s: State, step: Step)
    requires Inv(s) && Enabled(s, step) && step.Launch?
    ensures Rest(Apply(s, step))
  {
    hide Increasing;
    assert Inside(s) == s.threads[step.thread];
  }

  lemma RestByWaiting(s: State, step: Step)
    requires Inv(s) && Enabled(s, step) && (step.SeeFence? || step.SeeSaved? || step.TimeOut?)
    ensures Rest(Apply(s, step))
  {
    hide Numbered, Increasing;
    assert Inside(s) == s.threads[step.thread];
  }

  /** No step of any thread and none of the GPU breaks the invariant. */
  lemma StepKeeps(s: State, step: Step)
    requires Inv(s) && Enabled(s, step)
    ensures Inv(Apply(s, step))
  {
    hide Numbered, Exclusive, Apply, Enabled, Stopped, Progress, Settled;
    ExclusiveStep(s, step);
    NumberedStep(s, step);
    if step.Create? || step.Destroy? {
      RestByContexts(s, step);
    } else if step.Execute? || step.Save? {
      RestByGpu(s, step);
    } else if step.Acquire? || step.Refuse? {
      RestByEntering(s, step);
    } else if step.Launch? {
      RestByLaunch(s, step);
    } else {
      RestByWaiting(s, step);
    }
  }

  lemma {:induction false} RunKeeps(steps: seq<Step>)
    requires Run(START, steps).Some?
    ensures Inv(Run(START, steps).value)
  {
    hide Apply, Enabled;
    if steps != [] {
      var before := steps[..|steps| - 1];
      RunKeeps(before);
      StepKeeps(Run(START, before).value, steps[|steps| - 1]);
    } else {
      StartsWell();
    }
  }

  lemma StartsWell()
    ensures Inv(START)
  {}

  // ------------------------------------------------------------ consequences

  /** The port is only ever written when the GPU has finished and saved all it
      was given before, and the context's new number is above every number it
      has been given, has stored or has returned. */
  lemma LaunchesAlone(steps: seq<Step>, thread: nat)
    requires Run(START, steps).Some? && Enabled(Run(START, steps).value, Step.Launch(thread))
    ensures var s := Run(START, steps).value;
            var id := s.threads[thread].context;
            var next := s.contexts[id].next;
            && s.work.None? && s.contexts[id].fence == next - 1 && next < 0x7fff_ffff
            && (forall i :: 0 <= i < |s.contexts[id].returned| ==> s.contexts[id].returned[i] < next)
            && (forall i :: 0 <= i < |s.writes| && s.writes[i].0 == id ==> s.writes[i].1 < next)
  {
    hide Run;
    RunKeeps(steps);
  }

  /** The fences a context returns strictly increase and never wrap, over any
      run; and a context of an unfaulted engine that nobody is submitting to has
      stored all of them. */
  lemma FencesIncrease(steps: seq<Step>, c: nat)
    requires Run(START, steps).Some? && c in Run(START, steps).value.contexts
    ensures var s := Run(START, steps).value;
            && Increasing(s.contexts[c].returned, s.contexts[c].next) && s.contexts[c].next <= 0x7fff_ffff
            && (!s.faulted && !(Inside(s).Launched? && Inside(s).context == c) ==>
                  s.contexts[c].fence == s.contexts[c].next - 1)
  {
    hide Run, Increasing;
    RunKeeps(steps);
  }

  /** The GPU never acts on a context that has been destroyed. */
  lemma WorkIsAlive(steps: seq<Step>)
    requires Run(START, steps).Some?
    ensures var s := Run(START, steps).value; s.work.Some? ==> s.work.value.context in s.contexts
  {
    hide Run, Numbered, Increasing;
    RunKeeps(steps);
  }

  /** At most one thread is between taking and giving back the lock. */
  lemma OneInside(steps: seq<Step>, t: nat, u: nat)
    requires Run(START, steps).Some? && !At(Run(START, steps).value, t).Outside?
             && !At(Run(START, steps).value, u).Outside?
    ensures t == u
  {
    hide Run, Numbered;
    RunKeeps(steps);
  }

  /** Once a wait has timed out the port is never written again, and the engine
      stays faulted, whatever else happens. */
  lemma {:induction false} FaultStopsPort(s: State, steps: seq<Step>)
    requires s.faulted && Run(s, steps).Some?
    ensures Run(s, steps).value.faulted && Run(s, steps).value.writes == s.writes
  {
    if steps != [] {
      FaultStopsPort(s, steps[..|steps| - 1]);
    }
  }
}
