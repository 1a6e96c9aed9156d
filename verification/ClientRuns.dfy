/** What a client can rely on over a whole run of ioctls: where every address
    leads, what a close takes away, what a fault freezes, which handles and
    fences it is given. */
module ClientRuns {
  import opened Machine
  import opened AddressSpace
  import opened ClientModel
  import opened ClientSafety

  // ------------------------------------------------- where addresses lead

  /** The one buffer whose binding covers a page, or |slots|. */
  function Owner(slots: Slots, page: nat): (i: nat)
    ensures i <= |slots|
    ensures i < |slots| ==> Covers(slots[i], page)
    ensures forall j :: 0 <= j < i ==> !Covers(slots[j], page)
  {
    if slots == [] then 0 else if Covers(slots[0], page) then 0 else 1 + Owner(slots[1..], page)
  }

  /** Every address of a reachable client leads to the right page of the only
      buffer bound there, or is not mapped. */
  lemma EveryAddress(s: Client, page: nat)
    requires Inv(s) && s.render.Some?
    ensures var m, i := s.render.value.mapped, Owner(s.slots, page);
            && (page in m <==> i < |s.slots|)
            && (i < |s.slots| ==> m[page] == PageOf(s.slots[i], page))
            && forall j :: 0 <= j < |s.slots| && j != i ==> !Covers(s.slots[j], page)
  {
    var i := Owner(s.slots, page);
    forall j | 0 <= j < |s.slots| && j != i
      ensures !Covers(s.slots[j], page)
    {
      if i < |s.slots| {
        OneCover(s.slots, i, j, page);
      }
    }
  }

  /** A page of memory some address leads to. */
  ghost predicate Reachable(s: Client, physical: int) {
    s.render.Some? && exists page :: page in s.render.value.mapped && s.render.value.mapped[page] == physical
  }

  /** A page of a buffer that has a virtual address. */
  predicate BoundMemory(slot: Option<Buffer>, physical: int) {
    slot.Some? && slot.value.virt != 0 && physical in slot.value.pages
  }

  /** What the GPU can reach belongs to a buffer that is still open and bound. */
  lemma ReachesOnlyLive(s: Client, physical: int)
    requires Inv(s) && Reachable(s, physical)
    ensures exists i :: 0 <= i < |s.slots| && BoundMemory(s.slots[i], physical)
  {
    var m := s.render.value.mapped;
    var page :| page in m && m[page] == physical;
    var i :| 0 <= i < |s.slots| && Covers(s.slots[i], page);
    assert m[page] == PageOf(s.slots[i], page);
    assert s.slots[i].value.pages[page - s.slots[i].value.virt / PAGE_SIZE] == physical;
  }

  /** Once a buffer is closed no address leads to any of its pages. */
  lemma ClosedUnreachable(s: Client, op: Op, o: Outcome, physical: int)
    requires Inv(s) && op.CloseBuffer? && SlotOf(s.slots, op.handle) < |s.slots| && Close(s, op, o).1.Ok?
    requires physical in s.slots[SlotOf(s.slots, op.handle)].value.pages
    ensures !Reachable(Close(s, op, o).0, physical)
  {
    hide Inv, GoodSlots, Close;
    CloseFinds(s, op, o);
    CloseKeeps(s, op, o);
    var i, t := SlotOf(s.slots, op.handle), Close(s, op, o).0;
    if Reachable(t, physical) {
      ReachesOnlyLive(t, physical);
      var j :| 0 <= j < |t.slots| && BoundMemory(t.slots[j], physical);
      TwoApart(s, i, j);
    }
  }

  lemma CloseFinds(s: Client, op: Op, o: Outcome)
    requires op.CloseBuffer? && Close(s, op, o).1.Ok?
    ensures o.read.Ok? && op.reserved == 0 && op.handle != 0 && SlotOf(s.slots, op.handle) < |s.slots|
  {}

  lemma TwoApart(s: Client, i: nat, j: nat)
    requires Inv(s) && i < |s.slots| && j < |s.slots| && i != j && s.slots[i].Some? && s.slots[j].Some?
    ensures SharesNone(s.slots[i].value.pages, s.slots[j].value.pages)
  {
    assert Apart(s.slots[i].value, s.slots[j].value);
  }

  /** One page map is another with a binding added at its address. */
  ghost predicate Added(before: map<nat, int>, after: map<nat, int>, b: Buffer) {
    forall page: nat ::
      if Covers(Some(b), page) then page in after && after[page] == PageOf(Some(b), page)
      else (page in after <==> page in before) && (page in before ==> after[page] == before[page])
  }

  /** A bind that fails changes nothing the GPU or the client could notice: all
      that stays is page tables it made on the way. One that succeeds adds the
      buffer at the address and nothing else. */
  lemma BindAllOrNothing(s: Client, n: Native, op: Op, o: Outcome)
    requires Inv(s) && s.render == Some(n) && op.BindVirtual?
    ensures var (t, status) := BindVirt(s, n, op, o);
            if !status.Ok? then
              && t.render.Some? && n.tables <= t.render.value.tables
              && t == s.(render := Some(n.(tables := t.render.value.tables)))
            else
              var i := SlotOf(s.slots, op.handle);
              && i < |s.slots| && t.render.Some?
              && var b := s.slots[i].value.(virt := op.address);
                 t.slots == s.slots[i := Some(b)] && Added(n.mapped, t.render.value.mapped, b)
  {
    hide Inv, GoodSlots, Reflects, BindVirt, With, Without, AnyClash;
    var (t, status) := BindVirt(s, n, op, o);
    BindVirtKeeps(s, n, op, o);
    if status.Ok? {
      BindEffect(s, n, op, o);
      var i := SlotOf(s.slots, op.handle);
      var b := s.slots[i].value;
      if b.virt == op.address {
        assert s.slots[i := Some(b.(virt := op.address))] == s.slots;
        forall page: nat
          ensures Covers(Some(b), page) ==> page in n.mapped && n.mapped[page] == PageOf(Some(b), page)
        {
          CoveredIsMapped(s, i, page);
        }
      } else {
        WithIs(n.mapped, op.address / PAGE_SIZE, b.pages);
      }
    }
  }

  lemma CoveredIsMapped(s: Client, i: nat, page: nat)
    requires Inv(s) && s.render.Some? && i < |s.slots|
    ensures Covers(s.slots[i], page) ==>
              page in s.render.value.mapped && s.render.value.mapped[page] == PageOf(s.slots[i], page)
  {}

  /** The two ways a bind succeeds: it was there already, or it goes in. */
  lemma BindEffect(s: Client, n: Native, op: Op, o: Outcome)
    requires op.BindVirtual? && s.render == Some(n) && BindVirt(s, n, op, o).1.Ok?
    ensures var i := SlotOf(s.slots, op.handle);
            && i < |s.slots| && op.address != 0
            && var b := s.slots[i].value;
               BindVirt(s, n, op, o).0 ==
                 if b.virt == op.address then s
                 else s.(render := Some(n.(mapped := With(n.mapped, op.address / PAGE_SIZE, b.pages),
                                           tables := n.tables + o.memory)),
                         slots := s.slots[i := Some(b.(virt := op.address))])
  {
    hide With, Without, AnyClash;
  }

  // ---------------------------------------------------------- submissions

  predicate IsBound(slots: Slots, handle: nat) {
    SlotOf(slots, handle) < |slots| && slots[SlotOf(slots, handle)].value.virt != 0
  }

  /** The GPU address of a byte of a bound buffer leads to that byte's page. */
  ghost predicate Lands(b: Buffer, m: map<nat, int>, at: nat) {
    && b.virt != 0 && at / PAGE_SIZE < |b.pages|
    && (b.virt + at) / PAGE_SIZE in m && m[(b.virt + at) / PAGE_SIZE] == b.pages[at / PAGE_SIZE]
  }

  /** A submission only reaches the hardware with every buffer it names bound,
      and every byte of the batch it points the GPU at leads to the batch
      buffer's own memory. */
  lemma SubmitReaches(s: Client, n: Native, op: Op)
    requires Inv(s) && s.render == Some(n) && op.SubmitObjects? && SubmitCheck(s, n, op).Ok?
    ensures op.count <= |op.handles| && forall k :: 0 <= k < op.count ==> IsBound(s.slots, op.handles[k])
    ensures var i := SlotOf(s.slots, op.batch);
            i < |s.slots| && forall at :: op.offset <= at < op.offset + op.length ==>
              Lands(s.slots[i].value, n.mapped, at)
  {
    hide GoodSlots, Reflects, Inv;
    var named := op.handles[..op.count];
    forall k | 0 <= k < op.count
      ensures IsBound(s.slots, op.handles[k])
    {
      assert named[k] == op.handles[k];
    }
    var k :| 0 <= k < |named| && named[k] == op.batch;
    var i := SlotOf(s.slots, op.batch);
    var b := s.slots[i].value;
    GoodAt(s, i);
    forall at | op.offset <= at < op.offset + op.length
      ensures Lands(b, n.mapped, at)
    {
      assert (b.virt + at) / PAGE_SIZE == b.virt / PAGE_SIZE + at / PAGE_SIZE;
      CoveredIsMapped(s, i, (b.virt + at) / PAGE_SIZE);
    }
  }

  // --------------------------------------------------------------- faults

  /** All memory that is a client's: its buffers, its page tables, and what its
      contexts are made of. */
  function Held(s: Client): set<int> {
    BufferMemory(s.slots) + NativeMemory(s.render)
  }

  function BufferMemory(slots: Slots): set<int> {
    set i, p | 0 <= i < |slots| && slots[i].Some? && p in slots[i].value.pages :: p
  }

  /** An ioctl gives no buffer memory but what it was given for it. */
  lemma StepMemory(s: Client, op: Op, o: Outcome)
    ensures BufferMemory(Step(s, op, o).0.slots) <=
            BufferMemory(s.slots) + if op.CreateBuffer? && Step(s, op, o).1.Ok? then set p | p in o.pages else {}
  {
    hide Step;
    var slots := Step(s, op, o).0.slots;
    forall p | p in BufferMemory(slots)
      ensures p in BufferMemory(s.slots) || (op.CreateBuffer? && Step(s, op, o).1.Ok? && p in o.pages)
    {
      var i :| 0 <= i < |slots| && slots[i].Some? && p in slots[i].value.pages;
      StepSlot(s, op, o, i);
    }
  }

  /** A slot has the memory it had, or none, or that of a new buffer. */
  predicate SlotFrom(t: Slots, s: Slots, i: nat) {
    i < |t| && t[i].Some? ==> i < |s| && s[i].Some? && t[i].value.pages == s[i].value.pages
  }

  lemma UnmapSlots(s: Client, i: nat, j: nat)
    requires i < |s.slots| && s.slots[i].Some?
    ensures SlotFrom(UnmapVirtual(s, i).0.slots, s.slots, j)
  {
    hide Without, RoundUp, InSpace;
  }

  lemma CloseSlots(s: Client, i: nat, j: nat)
    requires i < |s.slots| && s.slots[i].Some?
    ensures SlotFrom(CloseSlot(s, i).0.slots, s.slots, j)
  {
    hide UnmapVirtual;
    var released := if s.slots[i].value.graphics.Some? then s.(bound := s.bound - s.slots[i].value.size) else s;
    UnmapSlots(released, i, j);
  }

  lemma NativeSlots(s: Client, n: Native, op: Op, o: Outcome, j: nat)
    requires IsNative(op)
    ensures SlotFrom(NativeCase(s, n, op, o).0.slots, s.slots, j)
  {
    hide UnmapVirtual, SubmitCheck, FirstZero, IdSlot, AnyClash, With, Without, RoundUp, Backed;
    if op.UnbindVirtual? && SlotOf(s.slots, op.handle) < |s.slots| {
      UnmapSlots(s, SlotOf(s.slots, op.handle), j);
    }
  }

  lemma CreateSlots(s: Client, op: Op, o: Outcome, j: nat)
    requires op.CreateBuffer?
    ensures var (t, status) := Create(s, op, o);
            || SlotFrom(t.slots, s.slots, j)
            || (status.Ok? && j < |t.slots| && t.slots[j].Some? && t.slots[j].value.pages == o.pages)
  {
    hide RoundUp;
  }

  lemma StepSlot(s: Client, op: Op, o: Outcome, i: nat)
    ensures var (t, status) := Step(s, op, o);
            || SlotFrom(t.slots, s.slots, i)
            || (op.CreateBuffer? && status.Ok? && i < |t.slots| && t.slots[i].Some?
                  && t.slots[i].value.pages == o.pages)
  {
    hide NativeCase, Create, CloseSlot;
    if IsNative(op) {
      var n := if s.render.None? then NewNative(o.tables) else s.render.value;
      NativeSlots(s.(render := Some(n)), n, op, o, i);
    } else if op.CreateBuffer? {
      CreateSlots(s, op, o, i);
    } else if op.CloseBuffer? && SlotOf(s.slots, op.handle) < |s.slots| {
      CloseSlots(s, SlotOf(s.slots, op.handle), i);
    }
  }

  function NativeMemory(render: Option<Native>): set<int> {
    if render.None? then {} else render.value.tables + ContextMemory(render.value.backing)
  }

  function ContextMemory(backing: seq<set<int>>): set<int> {
    set i, p | 0 <= i < |backing| && p in backing[i] :: p
  }

  /** What the destructor gives back. */
  function Destroyed(s: Client): set<int> {
    if Faulted(s) then {} else Held(s)
  }

  /** A submission gets to the engine: the client can submit, and the request
      passes every check. */
  predicate Reaches(s: Client, op: Op, o: Outcome) {
    && op.SubmitObjects? && !Faulted(s) && s.capable && (s.render.Some? || o.setup.Ok?) && o.read.Ok?
    && var n := if s.render.None? then NewNative(o.tables) else s.render.value;
       SubmitCheck(s.(render := Some(n)), n, op).Ok?
  }

  /** A submission that got there, was given to the GPU, and did not come back. */
  predicate TimesOut(s: Client, event: Event) {
    Reaches(s, event.op, event.o) && event.o.launched && !event.o.resource.Ok?
  }

  /** Only a submission that times out faults a client, and it always does; of
      the client it changes nothing else. */
  lemma FaultStep(s: Client, op: Op, o: Outcome)
    ensures Faulted(Step(s, op, o).0) <==> Faulted(s) || TimesOut(s, Event(op, o))
  {
    hide SubmitCheck, NativeCase;
    if IsNative(op) {
      var n := if s.render.None? then NewNative(o.tables) else s.render.value;
      NativeFaults(s.(render := Some(n)), n, op, o);
    } else {
      BufferFaults(s, op, o);
    }
  }

  lemma NativeFaults(s: Client, n: Native, op: Op, o: Outcome)
    requires IsNative(op) && s.render == Some(n)
    ensures var t := NativeCase(s, n, op, o).0;
            var timeout := op.SubmitObjects? && o.read.Ok? && SubmitCheck(s, n, op).Ok? && !o.resource.Ok?;
            t.render.Some? && t.render.value.faulted == if timeout then o.launched else n.faulted
  {
    hide SubmitCheck, SlotOf, FirstZero, IdSlot, AnyClash, With, Without, RoundUp, InSpace, Backed;
  }

  lemma BufferFaults(s: Client, op: Op, o: Outcome)
    requires !IsNative(op)
    ensures Faulted(Step(s, op, o).0) == Faulted(s)
  {
    hide SlotOf, FirstEmpty, Without, RoundUp, InSpace;
  }

  lemma TimeoutEffect(s: Client, op: Op, o: Outcome)
    requires TimesOut(s, Event(op, o))
    ensures s.render.Some? && Step(s, op, o) == (s.(render := Some(s.render.value.(faulted := true))), o.resource)
  {
    hide SubmitCheck;
    if s.render.None? {
      NoContextYet(s.(render := Some(NewNative(o.tables))), NewNative(o.tables), op);
    }
  }

  /** A client that has made no context cannot submit. */
  lemma NoContextYet(s: Client, n: Native, op: Op)
    requires op.SubmitObjects? && forall i :: 0 <= i < |n.contexts| ==> n.contexts[i] == 0
    ensures !SubmitCheck(s, n, op).Ok?
  {
    hide SlotOf, Resolves;
  }

  /** From the moment a client is faulted, no run of ioctls changes anything of
      it, and all but the two that only report fail. */
  lemma {:induction false} FaultIsForever(s: Client, events: seq<Event>)
    requires Faulted(s)
    ensures Run(s, events) == s
    ensures forall op, o :: !Step(s, op, o).1.Ok? || op.GetInfo? || op.EngineStatus?
  {
    if events != [] {
      FaultIsForever(s, events[..|events| - 1]);
    }
  }

  /** Some submission of a run times out. */
  ghost predicate AnyTimeout(s: Client, events: seq<Event>) {
    exists k :: 0 <= k < |events| && TimesOut(Run(s, events[..k]), events[k])
  }

  lemma AnyTimeoutMore(s: Client, events: seq<Event>)
    requires events != []
    ensures var rest := events[..|events| - 1];
            AnyTimeout(s, events) <==> AnyTimeout(s, rest) || TimesOut(Run(s, rest), events[|events| - 1])
  {
    hide Run, TimesOut;
    var rest := events[..|events| - 1];
    assert forall k :: 0 <= k < |rest| ==> rest[..k] == events[..k] && rest[k] == events[k];
    if AnyTimeout(s, rest) {
      var k :| 0 <= k < |rest| && TimesOut(Run(s, rest[..k]), rest[k]);
      assert TimesOut(Run(s, events[..k]), events[k]);
    }
  }

  /** In any run, the destructor at its end gives back nothing if some submission
      of it timed out, and everything the client has if none did. */
  lemma {:induction false} GivenBack(capable: bool, aperture: bool, events: seq<Event>)
    ensures var s := Opened(capable, aperture);
            && (Faulted(Run(s, events)) <==> AnyTimeout(s, events))
            && Destroyed(Run(s, events)) == if AnyTimeout(s, events) then {} else Held(Run(s, events))
  {
    hide Step, TimesOut, Held, AnyTimeout;
    var s := Opened(capable, aperture);
    if events == [] {
      assert !AnyTimeout(s, []) by { NoTimeout(s); }
    } else {
      var last := |events| - 1;
      GivenBack(capable, aperture, events[..last]);
      AnyTimeoutMore(s, events);
      FaultStep(Run(s, events[..last]), events[last].op, events[last].o);
    }
  }

  lemma NoTimeout(s: Client)
    ensures !AnyTimeout(s, [])
  {}

  lemma {:induction false} RunSplit(s: Client, events: seq<Event>, k: nat)
    requires k <= |events|
    ensures Run(s, events) == Run(Run(s, events[..k]), events[k..])
  {
    hide Step;
    if k == |events| {
      assert events[..k] == events && events[k..] == [];
    } else {
      var last := |events| - 1;
      RunSplit(s, events[..last], k);
      assert events[..last][..k] == events[..k];
      var rest := events[k..];
      assert rest[..|rest| - 1] == events[..last][k..] && rest[|rest| - 1] == events[last];
    }
  }

  /** A submission that times out at any point of a run is the last thing that
      ever happens to the client: to the end of the run it is what it was when
      the GPU got the batch, but for the fault, and none of its memory is given
      back then or by the destructor. */
  lemma QuarantineInRuns(s: Client, events: seq<Event>, k: nat)
    requires k < |events| && TimesOut(Run(s, events[..k]), events[k])
    ensures var before, end := Run(s, events[..k]), Run(s, events);
            && before.render.Some? && end == before.(render := Some(before.render.value.(faulted := true)))
            && Held(end) == Held(before) && Destroyed(end) == {}
  {
    hide Step, TimesOut;
    assert events[..k + 1][..k] == events[..k];
    TimeoutEffect(Run(s, events[..k]), events[k].op, events[k].o);
    RunSplit(s, events, k + 1);
    FaultIsForever(Run(s, events[..k + 1]), events[k + 1..]);
  }

  /** So whatever the GPU could reach with the batch that did not come back - the
      pages its addresses lead to, the tables they lead through, the context it
      runs in - stays the client's for good. */
  lemma NothingPulledAway(capable: bool, aperture: bool, events: seq<Event>, k: nat, physical: int)
    requires HonestRun(Opened(capable, aperture), events) && k < |events|
    requires TimesOut(Run(Opened(capable, aperture), events[..k]), events[k])
    requires var before := Run(Opened(capable, aperture), events[..k]);
             Reachable(before, physical) || physical in NativeMemory(before.render)
    ensures physical in Held(Run(Opened(capable, aperture), events))
    ensures Destroyed(Run(Opened(capable, aperture), events)) == {}
  {
    hide Inv, Step, TimesOut, Opened;
    QuarantineInRuns(Opened(capable, aperture), events, k);
    HonestPrefix(Opened(capable, aperture), events, k);
    RunKeeps(capable, aperture, events[..k]);
    var before := Run(Opened(capable, aperture), events[..k]);
    if Reachable(before, physical) {
      ReachesOnlyLive(before, physical);
    }
  }

  // ------------------------------------------------------ handles and fences

  lemma {:induction false} IssuedGrows(capable: bool, aperture: bool, events: seq<Event>, k: nat)
    requires HonestRun(Opened(capable, aperture), events) && k <= |events|
    ensures Issued(Run(Opened(capable, aperture), events[..k])) <= Issued(Run(Opened(capable, aperture), events))
    decreases |events| - k
  {
    hide Inv, Issued, Honest, Step, Opened;
    if k == |events| {
      assert events[..k] == events;
    } else {
      IssuedGrows(capable, aperture, events, k + 1);
      var now := Run(Opened(capable, aperture), events[..k]);
      assert events[..k + 1][..k] == events[..k];
      HonestPrefix(Opened(capable, aperture), events, k);
      RunKeeps(capable, aperture, events[..k]);
      StepKeeps(now, events[k].op, events[k].o);
    }
  }

  lemma HonestPrefix(s: Client, events: seq<Event>, k: nat)
    requires HonestRun(s, events) && k <= |events|
    ensures HonestRun(s, events[..k])
  {
    forall j | 0 <= j < k
      ensures Honest(Run(s, events[..k][..j]), events[..k][j].op, events[..k][j].o)
    {
      assert events[..k][..j] == events[..j];
    }
  }

  /** Event k is a create that succeeds. */
  predicate Creates(s: Client, events: seq<Event>, k: nat)
    requires k < |events|
  {
    events[k].op.CreateBuffer? && Step(Run(s, events[..k]), events[k].op, events[k].o).1.Ok?
  }

  /** No run hands out a handle twice: each new one is above all before it. */
  lemma HandlesNeverReused(capable: bool, aperture: bool, events: seq<Event>, i: nat, j: nat)
    requires HonestRun(Opened(capable, aperture), events) && i < j < |events|
    requires Creates(Opened(capable, aperture), events, i) && Creates(Opened(capable, aperture), events, j)
    ensures 0 < Run(Opened(capable, aperture), events[..i]).nextHandle
    ensures Run(Opened(capable, aperture), events[..i]).nextHandle
          < Run(Opened(capable, aperture), events[..j]).nextHandle
  {
    hide Inv, Issued, Honest, Step, Opened;
    var first := Run(Opened(capable, aperture), events[..i]);
    assert events[..i + 1][..i] == events[..i] && events[..j][..i + 1] == events[..i + 1];
    HonestPrefix(Opened(capable, aperture), events, i);
    HonestPrefix(Opened(capable, aperture), events, j);
    RunKeeps(capable, aperture, events[..i]);
    StepKeeps(first, events[i].op, events[i].o);
    IssuedGrows(capable, aperture, events[..j], i + 1);
    RunKeeps(capable, aperture, events[..j]);
    StepKeeps(Run(Opened(capable, aperture), events[..j]), events[j].op, events[j].o);
    PositiveHandle(first, events[i].op, events[i].o);
  }

  lemma PositiveHandle(s: Client, op: Op, o: Outcome)
    requires op.CreateBuffer? && Step(s, op, o).1.Ok?
    ensures s.nextHandle > 0
  {}

  /** The submissions of a run that the hardware finished. */
  function Finished(s: Client, events: seq<Event>): nat {
    if events == [] then 0
    else
      var last := |events| - 1;
      var before := Run(s, events[..last]);
      Finished(s, events[..last]) + (if Finishes(before, events[last].op, events[last].o) then 1 else 0)
  }

  /** A submission runs to the end. */
  predicate Finishes(s: Client, op: Op, o: Outcome) {
    Reaches(s, op, o) && o.resource.Ok?
  }

  function Completed(s: Client): nat {
    if s.render.None? then 0 else s.render.value.completed
  }

  lemma NativeCompletes(s: Client, n: Native, op: Op, o: Outcome)
    requires IsNative(op) && s.render == Some(n)
    ensures var t := NativeCase(s, n, op, o).0;
            var done := op.SubmitObjects? && o.read.Ok? && SubmitCheck(s, n, op).Ok? && o.resource.Ok?;
            t.render.Some? && t.render.value.completed == n.completed + (if done then 1 else 0)
  {
    hide SubmitCheck, SlotOf, FirstZero, IdSlot, AnyClash, With, Without, RoundUp, InSpace, Backed;
  }

  lemma BufferCompletes(s: Client, op: Op, o: Outcome)
    requires !IsNative(op)
    ensures Completed(Step(s, op, o).0) == Completed(s)
  {
    hide SlotOf, FirstEmpty, Without, RoundUp, InSpace;
  }

  lemma CompletedStep(s: Client, op: Op, o: Outcome)
    ensures Completed(Step(s, op, o).0) == Completed(s) + (if Finishes(s, op, o) then 1 else 0)
  {
    hide SubmitCheck, NativeCase;
    if IsNative(op) {
      var n := if s.render.None? then NewNative(o.tables) else s.render.value;
      NativeCompletes(s.(render := Some(n)), n, op, o);
    } else {
      BufferCompletes(s, op, o);
    }
  }

  /** The fence counter counts exactly the submissions that ran to the end, so
      the fences a run returns are 1, 2, 3 and so on. */
  lemma {:induction false} FencesCount(capable: bool, aperture: bool, events: seq<Event>)
    ensures Completed(Run(Opened(capable, aperture), events)) == Finished(Opened(capable, aperture), events)
  {
    hide Step, Finishes;
    if events != [] {
      var last := |events| - 1;
      FencesCount(capable, aperture, events[..last]);
      CompletedStep(Run(Opened(capable, aperture), events[..last]), events[last].op, events[last].o);
    }
  }

  /** Waiting works for exactly the fences of submissions that have finished. */
  lemma WaitableFences(capable: bool, aperture: bool, events: seq<Event>, op: Op, o: Outcome)
    requires op.WaitRenderFence? && o.read.Ok? && o.setup.Ok? && op.timeout <= 10_000_000
    requires capable && !Faulted(Run(Opened(capable, aperture), events))
    ensures Step(Run(Opened(capable, aperture), events), op, o).1.Ok? <==>
            1 <= op.fence <= Finished(Opened(capable, aperture), events)
  {
    hide Run, Finished, Opened;
    FencesCount(capable, aperture, events);
    StaysCapable(capable, aperture, events);
  }

  lemma CapableStep(s: Client, op: Op, o: Outcome)
    ensures Step(s, op, o).0.capable == s.capable
  {
    hide SubmitCheck, SlotOf, FirstZero, IdSlot, FirstEmpty, AnyClash, With, Without, RoundUp, InSpace;
  }

  lemma {:induction false} StaysCapable(capable: bool, aperture: bool, events: seq<Event>)
    ensures Run(Opened(capable, aperture), events).capable == capable
  {
    hide Step;
    if events != [] {
      var last := |events| - 1;
      StaysCapable(capable, aperture, events[..last]);
      CapableStep(Run(Opened(capable, aperture), events[..last]), events[last].op, events[last].o);
    }
  }
}
