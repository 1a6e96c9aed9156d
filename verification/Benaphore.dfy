/** headers/lock.h: a counter in front of a semaphore, for any number of threads
    in any interleaving. acquire_lock and release_lock are each one atomic add
    and, sometimes, one semaphore call; acquire_sem may also fail. */
module Benaphore {

  /** Threads that are nowhere in these sets are outside. waiting: past the add,
      in acquire_sem. inside: acquired. releasing: past the add, about to call
      release_sem. aborted: how many acquires have failed. */
  datatype State = State(
    count: int, tokens: nat, waiting: set<nat>, inside: set<nat>, releasing: set<nat>, aborted: nat)

  datatype Step =
    | AcquireAdd(thread: nat)
    | SemAcquire(thread: nat)
    | SemFail(thread: nat)
    | ReleaseAdd(thread: nat)
    | SemRelease(thread: nat)

  predicate Outside(s: State, t: nat) {
    t !in s.waiting && t !in s.inside && t !in s.releasing
  }

  predicate Enabled(s: State, step: Step) {
    match step
    case AcquireAdd(t) => Outside(s, t)
    case SemAcquire(t) => t in s.waiting && s.tokens > 0
    case SemFail(t) => t in s.waiting
    case ReleaseAdd(t) => t in s.inside
    case SemRelease(t) => t in s.releasing
  }

  function Apply(s: State, step: Step): State
    requires Enabled(s, step)
  {
    match step
    case AcquireAdd(t) =>
      if s.count > 0 then s.(count := s.count + 1, waiting := s.waiting + {t})
      else s.(count := s.count + 1, inside := s.inside + {t})
    case SemAcquire(t) => s.(tokens := s.tokens - 1, waiting := s.waiting - {t}, inside := s.inside + {t})
    case SemFail(t) => s.(waiting := s.waiting - {t}, aborted := s.aborted + 1)
    case ReleaseAdd(t) =>
      if s.count > 1 then s.(count := s.count - 1, inside := s.inside - {t}, releasing := s.releasing + {t})
      else s.(count := s.count - 1, inside := s.inside - {t})
    case SemRelease(t) => s.(tokens := s.tokens + 1, releasing := s.releasing - {t})
  }

  /** init_lock. */
  const START := State(0, 0, {}, {}, {}, 0)

  function Run(s: State, steps: seq<Step>): seq<State>
    ensures |Run(s, steps)| >= 1
  {
    if steps == [] then [s]
    else
      var before, last := Run(s, steps[..|steps| - 1]), steps[|steps| - 1];
      var now := before[|before| - 1];
      if Enabled(now, last) then before + [Apply(now, last)] else before
  }

  /** Where a schedule leads; a step that cannot be taken is left out. */
  function End(s: State, steps: seq<Step>): State {
    Run(s, steps)[|Run(s, steps)| - 1]
  }

  /** The chances to get in: a holder, a token, a release on its way. */
  function Chances(s: State): nat {
    |s.inside| + s.tokens + |s.releasing|
  }

  ghost predicate Inv(s: State) {
    && s.waiting !! s.inside && s.waiting !! s.releasing && s.inside !! s.releasing
    && s.count == |s.inside| + |s.waiting| + s.aborted
    && Chances(s) == if s.count > 0 then 1 else 0
  }

  lemma AcquireKeeps(s: State, step: Step)
    requires Inv(s) && Enabled(s, step) && !step.ReleaseAdd? && !step.SemRelease?
    ensures Inv(Apply(s, step))
  {
    var t := step.thread;
    if t in s.waiting {
      assert |s.waiting| == |s.waiting - {t}| + 1;
    }
  }

  lemma ReleaseKeeps(s: State, step: Step)
    requires Inv(s) && Enabled(s, step) && (step.ReleaseAdd? || step.SemRelease?)
    ensures Inv(Apply(s, step))
  {
    var t := step.thread;
    if t in s.inside {
      assert |s.inside| == |s.inside - {t}| + 1;
    } else {
      assert |s.releasing| == |s.releasing - {t}| + 1;
    }
  }

  lemma StepKeeps(s: State, step: Step)
    requires Inv(s) && Enabled(s, step)
    ensures Inv(Apply(s, step))
  {
    hide Inv, Enabled, Apply;
    if step.ReleaseAdd? || step.SemRelease? {
      ReleaseKeeps(s, step);
    } else {
      AcquireKeeps(s, step);
    }
  }

  lemma {:induction false} RunKeeps(steps: seq<Step>)
    ensures Inv(End(START, steps))
  {
    hide Enabled, Apply;
    if steps != [] {
      var rest := steps[..|steps| - 1];
      RunKeeps(rest);
      if Enabled(End(START, rest), steps[|steps| - 1]) {
        StepKeeps(End(START, rest), steps[|steps| - 1]);
      }
    }
  }

  lemma AtMostOne(a: set<nat>, t: nat, u: nat)
    requires |a| <= 1 && t in a && u in a
    ensures t == u
  {
    if t != u {
      assert |{t, u}| == 2 && {t, u} <= a;
      Subset({t, u}, a);
    }
  }

  lemma {:induction false} Subset(a: set<nat>, b: set<nat>)
    requires a <= b
    ensures |a| <= |b|
  {
    if a != {} {
      var x :| x in a;
      Subset(a - {x}, b - {x});
    }
  }

  /** Never two threads inside, whatever acquires fail. */
  lemma MutualExclusion(steps: seq<Step>, t: nat, u: nat)
    requires t in End(START, steps).inside && u in End(START, steps).inside
    ensures t == u
  {
    RunKeeps(steps);
    AtMostOne(End(START, steps).inside, t, u);
  }

  /** While anyone waits there is exactly one chance to get in, so no wakeup is
      ever lost and none is ever given twice; and there is a step to take. */
  lemma NoLostWakeup(steps: seq<Step>)
    requires End(START, steps).waiting != {}
    ensures Chances(End(START, steps)) == 1
    ensures exists step :: Enabled(End(START, steps), step) && !step.AcquireAdd? && !step.SemFail?
  {
    RunKeeps(steps);
    var s := End(START, steps);
    if s.tokens > 0 {
      var t :| t in s.waiting;
      assert Enabled(s, SemAcquire(t));
    } else if s.inside != {} {
      var t :| t in s.inside;
      assert Enabled(s, ReleaseAdd(t));
    } else {
      var t :| t in s.releasing;
      assert Enabled(s, SemRelease(t));
    }
  }

  /** A token nobody waits for is left only by acquires that failed. With nobody
      inside or waiting the lock's count is back at zero exactly when no acquire
      has failed; and without failures it is zero only then. */
  lemma IdleToken(steps: seq<Step>)
    ensures var s := End(START, steps);
            && (s.tokens > 0 && s.waiting == {} ==> s.count == s.aborted > 0 && s.inside == {} && s.releasing == {})
            && (s.inside == {} && s.waiting == {} ==> (s.count == 0 <==> s.aborted == 0))
            && (s.aborted == 0 ==> (s.count == 0 <==> s.inside == {} && s.waiting == {}))
  {
    RunKeeps(steps);
  }

  /** Such a run: the second thread gives up while the first is inside, and when
      the first has left, the lock is not as init_lock left it. */
  lemma LeftBehind()
    ensures End(START, [AcquireAdd(1), AcquireAdd(2), SemFail(2), ReleaseAdd(1), SemRelease(1)])
         == State(1, 1, {}, {}, {}, 1)
  {
    var a := [AcquireAdd(1)];
    var b := a + [AcquireAdd(2)];
    var c := b + [SemFail(2)];
    var d := c + [ReleaseAdd(1)];
    var e := d + [SemRelease(1)];
    assert End(START, a) == State(1, 0, {}, {1}, {}, 0) by { assert a[..0] == []; }
    assert End(START, b) == State(2, 0, {2}, {1}, {}, 0) by { assert b[..1] == a; }
    assert End(START, c) == State(2, 0, {}, {1}, {}, 1) by { assert c[..2] == b; }
    assert End(START, d) == State(1, 0, {}, {}, {1}, 1) by { assert d[..3] == c; }
    assert End(START, e) == State(1, 1, {}, {}, {}, 1) by { assert e[..4] == d; }
    assert e == [AcquireAdd(1), AcquireAdd(2), SemFail(2), ReleaseAdd(1), SemRelease(1)];
  }

  /** One failed acquire leaves the lock's count up for good: from then on every
      acquire goes through the semaphore, though nobody is inside. */
  lemma FailureSticks(s: State, steps: seq<Step>)
    requires Inv(s) && s.aborted > 0
    ensures End(s, steps).aborted >= s.aborted && End(s, steps).count > 0
  {
    FailureCounts(s, steps);
  }

  lemma {:induction false} FailureCounts(s: State, steps: seq<Step>)
    requires Inv(s)
    ensures Inv(End(s, steps)) && End(s, steps).aborted >= s.aborted
  {
    hide Inv, Enabled, Apply;
    if steps != [] {
      var rest := steps[..|steps| - 1];
      FailureCounts(s, rest);
      if Enabled(End(s, rest), steps[|steps| - 1]) {
        StepKeeps(End(s, rest), steps[|steps| - 1]);
        AbortedGrows(End(s, rest), steps[|steps| - 1]);
      }
    }
  }

  lemma AbortedGrows(s: State, step: Step)
    requires Enabled(s, step)
    ensures Apply(s, step).aborted >= s.aborted
  {}

  /** struct lock, shared by all threads; each method is what one thread does in
      one atomic step. */
  class Lock {
    var count: int
    var sem: nat
    ghost var waiting: set<nat>
    ghost var inside: set<nat>
    ghost var releasing: set<nat>
    ghost var aborted: nat

    ghost function Now(): State
      reads this
    {
      State(count, sem, waiting, inside, releasing, aborted)
    }

    constructor ()
      ensures Now() == START
    {
      count, sem, waiting, inside, releasing, aborted := 0, 0, {}, {}, {}, 0;
    }

    /** atomic_add(&lock->count, 1) > 0. */
    method AcquireFirst(ghost t: nat) returns (mustWait: bool)
      requires Inv(Now()) && Outside(Now(), t)
      modifies this
      ensures Now() == Apply(old(Now()), AcquireAdd(t)) && Inv(Now())
      ensures mustWait <==> t in waiting
      ensures !mustWait ==> inside == {t}
    {
      StepKeeps(Now(), AcquireAdd(t));
      var previous := count;
      count := count + 1;
      mustWait := previous > 0;
      if mustWait {
        waiting := waiting + {t};
      } else {
        inside := inside + {t};
      }
    }

    /** acquire_sem, when a token is there or when it is interrupted. */
    method AcquireSecond(ghost t: nat, interrupted: bool) returns (acquired: bool)
      requires Inv(Now()) && t in waiting && (sem > 0 || interrupted)
      modifies this
      ensures acquired <==> !interrupted
      ensures Now() == Apply(old(Now()), if acquired then SemAcquire(t) else SemFail(t)) && Inv(Now())
      ensures acquired ==> inside == {t}
    {
      acquired := !interrupted;
      StepKeeps(Now(), if acquired then SemAcquire(t) else SemFail(t));
      waiting := waiting - {t};
      if acquired {
        sem := sem - 1;
        inside := inside + {t};
      } else {
        aborted := aborted + 1;
      }
    }

    /** atomic_add(&lock->count, -1) > 1. */
    method ReleaseFirst(ghost t: nat) returns (mustWake: bool)
      requires Inv(Now()) && t in inside
      modifies this
      ensures Now() == Apply(old(Now()), ReleaseAdd(t)) && Inv(Now())
      ensures mustWake <==> t in releasing
      ensures old(waiting) != {} ==> mustWake
    {
      StepKeeps(Now(), ReleaseAdd(t));
      var previous := count;
      count := count - 1;
      mustWake := previous > 1;
      inside := inside - {t};
      if mustWake {
        releasing := releasing + {t};
      }
    }

    /** release_sem. */
    method ReleaseSecond(ghost t: nat)
      requires Inv(Now()) && t in releasing
      modifies this
      ensures Now() == Apply(old(Now()), SemRelease(t)) && Inv(Now())
    {
      StepKeeps(Now(), SemRelease(t));
      releasing := releasing - {t};
      sem := sem + 1;
    }
  }
}
