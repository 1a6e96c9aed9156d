/** Which locks the driver takes inside which, for any number of clients, engines
    and threads: gLock, the list of clients, one client, an engine, and the page
    tables or the GTT. An operation is nested blocks, one for each time a lock is
    taken; threads run operations step by step, and wait for locks others hold. */
module LockOrder {

  datatype Lock = Global | Clients | OneClient(client: nat) | Engine(engine: nat) | Table(table: nat)

  function Rank(l: Lock): nat {
    match l
    case Global => 0
    case Clients => 1
    case OneClient(_) => 2
    case Engine(_) => 3
    case Table(_) => 4
  }

  /** A lock is taken, the body runs, the lock is given back. */
  datatype Block = Block(lock: Lock, body: seq<Block>)

  // ------------------------------------------------------- the driver's operations

  /** Every entry of the page tables and of the GTT that takes their lock. */
  predicate TableWork(b: Block) {
    b.lock.Table? && b.body == []
  }

  predicate AllTableWork(bs: seq<Block>) {
    forall i :: 0 <= i < |bs| ==> TableWork(bs[i])
  }

  /** RenderEngine::Submit and Status. */
  predicate EngineWork(b: Block) {
    b.lock.Engine? && AllTableWork(b.body)
  }

  /** RenderClient::Ioctl on a client, except kGpuActivity. */
  predicate IoctlWork(b: Block) {
    b.lock.OneClient? && forall i :: 0 <= i < |b.body| ==> TableWork(b.body[i]) || EngineWork(b.body[i])
  }

  /** _GpuActivity: each client's lock in turn, nothing inside. */
  predicate ActivityWork(b: Block) {
    b.lock == Clients && forall i :: 0 <= i < |b.body| ==> b.body[i].lock.OneClient? && b.body[i].body == []
  }

  /** Entering a client into the list, or taking it out. */
  predicate ListWork(b: Block) {
    b.lock == Clients && b.body == []
  }

  /** device_open: the GTT, the engines and the client, all under gLock. */
  predicate OpenWork(b: Block) {
    b.lock == Global && forall i :: 0 <= i < |b.body| ==> TableWork(b.body[i]) || ListWork(b.body[i])
  }

  /** device_free: the client's destructor without gLock, then the device. */
  predicate FreeWork(bs: seq<Block>) {
    forall i :: 0 <= i < |bs| ==> TableWork(bs[i]) || ListWork(bs[i]) || OpenWork(bs[i])
  }

  predicate Operation(bs: seq<Block>) {
    || (|bs| == 1 && (IoctlWork(bs[0]) || ActivityWork(bs[0]) || OpenWork(bs[0])))
    || FreeWork(bs)
  }

  /** Inside a block only locks of a higher rank are taken, all the way down. */
  predicate Rising(b: Block) {
    forall i :: 0 <= i < |b.body| ==> Rank(b.lock) < Rank(b.body[i].lock) && Rising(b.body[i])
  }

  predicate AllRising(bs: seq<Block>) {
    forall i :: 0 <= i < |bs| ==> Rising(bs[i])
  }

  /** Everything the driver does takes locks in rising rank. In particular no
      thread ever holds two clients' locks. */
  lemma OperationsRise(bs: seq<Block>)
    requires Operation(bs)
    ensures AllRising(bs)
  {
    forall i | 0 <= i < |bs|
      ensures Rising(bs[i])
    {
      BlockRises(bs[i]);
    }
  }

  lemma BlockRises(b: Block)
    requires TableWork(b) || EngineWork(b) || IoctlWork(b) || ActivityWork(b) || ListWork(b) || OpenWork(b)
    ensures Rising(b)
    decreases b
  {
    forall i | 0 <= i < |b.body|
      ensures Rank(b.lock) < Rank(b.body[i].lock) && Rising(b.body[i])
    {
      if b.body[i].body == [] {
        assert Rising(b.body[i]);
      } else {
        BlockRises(b.body[i]);
      }
    }
  }

  // ----------------------------------------------------------------- the threads

  /** A lock a thread holds, and what it has still to do before giving it back.
      The bottom frame holds none. */
  datatype Frame = Frame(held: seq<Lock>, rest: seq<Block>)

  type Thread = seq<Frame>

  type State = map<nat, Thread>

  datatype Step =
    | Start(thread: nat, work: seq<Block>)
    | Enter(thread: nat)
    | Leave(thread: nat)
    | GiveUp(thread: nat)

  predicate Holds(th: Thread, l: Lock) {
    exists i :: 0 <= i < |th| && th[i].held == [l]
  }

  predicate Free(s: State, l: Lock) {
    forall t :: t in s ==> !Holds(s[t], l)
  }

  /** The lock a thread takes next, if it takes one. */
  predicate Wants(th: Thread, l: Lock) {
    th != [] && th[|th| - 1].rest != [] && th[|th| - 1].rest[0].lock == l
  }

  predicate Finished(th: Thread) {
    |th| == 1 && th[0].rest == []
  }

  predicate Enabled(s: State, step: Step) {
    match step
    case Start(t, work) => (t !in s || Finished(s[t])) && Operation(work)
    case Enter(t) => t in s && s[t] != [] && s[t][|s[t]| - 1].rest != [] && Free(s, s[t][|s[t]| - 1].rest[0].lock)
    case Leave(t) => t in s && |s[t]| > 1 && s[t][|s[t]| - 1].rest == []
    // The report's attempt on a client's lock times out.
    case GiveUp(t) => t in s && s[t] != [] && s[t][|s[t]| - 1].rest != [] && s[t][|s[t]| - 1].held == [Clients]
  }

  function Top(th: Thread): Frame
    requires th != []
  {
    th[|th| - 1]
  }

  function Apply(s: State, step: Step): State
    requires Enabled(s, step)
  {
    match step
    case Start(t, work) => s[t := [Frame([], work)]]
    case Enter(t) =>
      var th, top := s[t], Top(s[t]);
      s[t := th[..|th| - 1] + [top.(rest := top.rest[1..]), Frame([top.rest[0].lock], top.rest[0].body)]]
    case Leave(t) => s[t := s[t][..|s[t]| - 1]]
    case GiveUp(t) =>
      var th, top := s[t], Top(s[t]);
      s[t := th[..|th| - 1] + [top.(rest := top.rest[1..])]]
  }

  /** The ranks of what a frame holds and what it will take. */
  predicate Sound(f: Frame) {
    && |f.held| <= 1 && AllRising(f.rest)
    && (f.held != [] ==> forall i :: 0 <= i < |f.rest| ==> Rank(f.held[0]) < Rank(f.rest[i].lock))
  }

  /** One lock a frame, but for the bottom one, in rising rank. */
  ghost predicate Stacked(th: Thread) {
    && th != [] && th[0].held == []
    && (forall i :: 0 <= i < |th| ==> Sound(th[i]))
    && (forall i :: 0 < i < |th| ==> |th[i].held| == 1)
    && (forall i, j :: 0 < i < j < |th| ==> Rank(th[i].held[0]) < Rank(th[j].held[0]))
  }

  ghost predicate Inv(s: State) {
    && (forall t :: t in s ==> Stacked(s[t]))
    && (forall t, u, l :: t in s && u in s && Holds(s[t], l) && Holds(s[u], l) ==> t == u)
  }

  /** Pushing the next block on a stack. */
  lemma EnterStacks(th: Thread)
    requires Stacked(th) && Top(th).rest != []
    ensures var top := Top(th);
            Stacked(th[..|th| - 1] + [top.(rest := top.rest[1..]), Frame([top.rest[0].lock], top.rest[0].body)])
  {
    var top := Top(th);
    var more := th[..|th| - 1] + [top.(rest := top.rest[1..]), Frame([top.rest[0].lock], top.rest[0].body)];
    assert Rising(top.rest[0]);
    forall i | 0 <= i < |more|
      ensures Sound(more[i])
    {
      if i < |th| - 1 {
        assert more[i] == th[i];
      }
    }
    forall i | 0 < i < |th|
      ensures more[i].held == th[i].held
    {}
  }

  lemma {:induction false} StackedStep(s: State, step: Step)
    requires Inv(s) && Enabled(s, step)
    ensures Stacked(Apply(s, step)[step.thread])
  {
    match step
    case Start(t, work) => OperationsRise(work);
    case Enter(t) => EnterStacks(s[t]);
    case Leave(t) =>
    case GiveUp(t) =>
  }

  /** Nobody else comes to hold anything, and the thread itself at most the lock
      it has just found free. */
  lemma HoldsStep(s: State, step: Step, l: Lock)
    requires Inv(s) && Enabled(s, step) && Holds(Apply(s, step)[step.thread], l)
    ensures (step.thread in s && Holds(s[step.thread], l)) || (step.Enter? && Wants(s[step.thread], l) && Free(s, l))
  {
    hide Rising, Operation;
    var more := Apply(s, step)[step.thread];
    var i :| 0 <= i < |more| && more[i].held == [l];
    if step.thread in s && i < |s[step.thread]| {
      assert s[step.thread][i].held == more[i].held || step.Start?;
    }
  }

  lemma StepKeeps(s: State, step: Step)
    requires Inv(s) && Enabled(s, step)
    ensures Inv(Apply(s, step))
  {
    hide Stacked, Enabled, Holds;
    StackedStep(s, step);
    var n := Apply(s, step);
    OtherThreads(s, step);
    forall t, u, l | t in n && u in n && Holds(n[t], l) && Holds(n[u], l)
      ensures t == u
    {
      if t == step.thread {
        HoldsStep(s, step, l);
      }
      if u == step.thread {
        HoldsStep(s, step, l);
      }
    }
  }

  lemma OtherThreads(s: State, step: Step)
    requires Enabled(s, step)
    ensures step.thread in Apply(s, step)
    ensures forall t :: t in Apply(s, step) && t != step.thread ==> t in s && Apply(s, step)[t] == s[t]
  {}

  function Run(s: State, steps: seq<Step>): State {
    if steps == [] then s
    else
      var before, last := Run(s, steps[..|steps| - 1]), steps[|steps| - 1];
      if Enabled(before, last) then Apply(before, last) else before
  }

  lemma {:induction false} RunKeeps(steps: seq<Step>)
    ensures Inv(Run(map[], steps))
  {
    hide Enabled, Apply;
    if steps != [] {
      var rest := steps[..|steps| - 1];
      RunKeeps(rest);
      if Enabled(Run(map[], rest), steps[|steps| - 1]) {
        StepKeeps(Run(map[], rest), steps[|steps| - 1]);
      }
    }
  }

  /** No thread ever holds the locks of two clients. */
  lemma OneClientAtATime(steps: seq<Step>, t: nat, c: nat, d: nat)
    requires t in Run(map[], steps)
    requires Holds(Run(map[], steps)[t], OneClient(c)) && Holds(Run(map[], steps)[t], OneClient(d))
    ensures c == d
  {
    hide Run;
    RunKeeps(steps);
    var th := Run(map[], steps)[t];
    assert Stacked(th);
    var i :| 0 <= i < |th| && th[i].held == [OneClient(c)];
    var j :| 0 <= j < |th| && th[j].held == [OneClient(d)];
    assert i > 0 && j > 0;
  }

  // ------------------------------------------------------------------- no deadlock

  /** t cannot go on before u gives something back. */
  predicate WaitsFor(s: State, t: nat, u: nat) {
    t in s && u in s && s[t] != [] && Top(s[t]).rest != [] && Holds(s[u], Top(s[t]).rest[0].lock)
  }

  function Goal(s: State, t: nat): nat
    requires t in s && s[t] != [] && Top(s[t]).rest != []
  {
    Rank(Top(s[t]).rest[0].lock)
  }

  /** Whoever holds what somebody waits for can only be waiting for more. */
  lemma GoalsRise(s: State, t: nat, u: nat)
    requires Inv(s) && WaitsFor(s, t, u) && Top(s[u]).rest != []
    ensures Goal(s, t) < Goal(s, u)
  {
    var l := Top(s[t]).rest[0].lock;
    var th := s[u];
    var i :| 0 <= i < |th| && th[i].held == [l];
    var last := |th| - 1;
    assert i > 0;
    assert Sound(th[last]) && Rank(l) <= Rank(th[last].held[0]);
  }

  /** A chain of waiting threads. */
  ghost predicate Chain(s: State, ts: seq<nat>) {
    forall i :: 0 <= i < |ts| - 1 ==> WaitsFor(s, ts[i], ts[i + 1])
  }

  lemma {:induction false} ChainRises(s: State, ts: seq<nat>)
    requires Inv(s) && Chain(s, ts) && |ts| >= 2
    requires ts[|ts| - 1] in s && s[ts[|ts| - 1]] != [] && Top(s[ts[|ts| - 1]]).rest != []
    ensures WaitsFor(s, ts[0], ts[1]) && Goal(s, ts[0]) + |ts| - 1 <= Goal(s, ts[|ts| - 1])
  {
    hide WaitsFor, Inv, Goal;
    var n := |ts| - 1;
    assert WaitsFor(s, ts[0], ts[0 + 1]);
    Ready(s, ts[0], ts[1]);
    assert WaitsFor(s, ts[n - 1], ts[n - 1 + 1]);
    Ready(s, ts[n - 1], ts[n]);
    GoalsRise(s, ts[n - 1], ts[n]);
    if n > 1 {
      var front := ts[..n];
      forall i | 0 <= i < |front| - 1
        ensures WaitsFor(s, front[i], front[i + 1])
      {
        assert WaitsFor(s, ts[i], ts[i + 1]);
      }
      ChainRises(s, front);
    }
  }

  lemma Ready(s: State, t: nat, u: nat)
    requires WaitsFor(s, t, u)
    ensures t in s && s[t] != [] && Top(s[t]).rest != []
  {}

  /** Over any run of any number of threads, no threads ever wait for each other
      in a circle. */
  lemma NoWaitCycle(steps: seq<Step>, ts: seq<nat>)
    requires |ts| >= 2 && ts[0] == ts[|ts| - 1]
    ensures !Chain(Run(map[], steps), ts)
  {
    hide Inv, WaitsFor, Goal, Run;
    var s := Run(map[], steps);
    if Chain(s, ts) {
      RunKeeps(steps);
      assert WaitsFor(s, ts[0], ts[0 + 1]);
      Ready(s, ts[0], ts[1]);
      ChainRises(s, ts);
    }
  }

  /** And as long as any thread has something left to do, one of them can. */
  lemma NoDeadlock(steps: seq<Step>, t: nat)
    requires var s := Run(map[], steps); t in s && !Finished(s[t])
    ensures exists u :: Enabled(Run(map[], steps), Enter(u)) || Enabled(Run(map[], steps), Leave(u))
  {
    RunKeeps(steps);
    SomeoneMoves(Run(map[], steps), t);
  }

  /** Following who waits for whom has to end, with a thread that can move. */
  lemma {:induction false} SomeoneMoves(s: State, t: nat)
    requires Inv(s) && t in s && !Finished(s[t])
    ensures exists u :: Enabled(s, Enter(u)) || Enabled(s, Leave(u))
    decreases if s[t] != [] && Top(s[t]).rest != [] then 5 - Goal(s, t) else 0
  {
    hide Rising, Operation;
    assert Stacked(s[t]);
    if Top(s[t]).rest == [] {
      assert Enabled(s, Leave(t));
    } else {
      var l := Top(s[t]).rest[0].lock;
      if Free(s, l) {
        assert Enabled(s, Enter(t));
      } else {
        var u :| u in s && Holds(s[u], l);
        assert WaitsFor(s, t, u);
        assert Stacked(s[u]) && !Finished(s[u]);
        if Top(s[u]).rest != [] {
          GoalsRise(s, t, u);
        }
        SomeoneMoves(s, u);
      }
    }
  }
}
