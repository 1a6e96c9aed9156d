/** The winsys's records beside the kernel's slots: what it means that the two
    agree, how each kernel request the winsys makes keeps them agreeing, and the
    order in which cached buffers are given back. */
module WinsysModel {
  import opened Machine
  import opened AddressSpace
  import opened ClientModel
  import opened ClientSafety
  import R = ClientRuns

  /** The winsys's own record of a buffer. A purged one is gone from the kernel;
      the record stays to tell the caller so. */
  datatype Record = Record(size: uint64, address: uint64, purgeable: bool, purged: bool, stamp: nat)

  /** By file descriptor and handle. */
  type Records = map<(nat, nat), Record>

  ghost predicate Agrees(buffers: Records, fd: nat, slots: Slots) {
    && (forall i :: 0 <= i < |slots| && slots[i].Some? ==> Recorded(buffers, fd, slots[i].value))
    && (forall h :: (fd, h) in buffers && !buffers[(fd, h)].purged ==> SlotOf(slots, h) < |slots|)
    && (forall h :: (fd, h) in buffers && buffers[(fd, h)].purged ==> buffers[(fd, h)].address == 0)
  }

  ghost predicate Recorded(buffers: Records, fd: nat, b: Buffer) {
    && (fd, b.handle) in buffers && b.graphics.None?
    && var r := buffers[(fd, b.handle)];
       !r.purged && r.size == b.size && r.address == b.virt
  }

  /** A buffer changes, but not its handle: so do its slot and its record. */
  lemma AgreesMoved(buffers: Records, fd: nat, slots: Slots, i: nat, b: Buffer, r: Record)
    requires Agrees(buffers, fd, slots) && GoodSlots(slots) && i < |slots| && slots[i].Some?
    requires b.handle == slots[i].value.handle && Recorded(buffers[(fd, b.handle) := r], fd, b)
    ensures Agrees(buffers[(fd, b.handle) := r], fd, slots[i := Some(b)])
  {
    var new_, more := slots[i := Some(b)], buffers[(fd, b.handle) := r];
    forall j | 0 <= j < |new_| && new_[j].Some?
      ensures Recorded(more, fd, new_[j].value)
    {
      if j != i {
        assert Apart(slots[j].value, slots[i].value) && Recorded(buffers, fd, slots[j].value);
      }
    }
    forall h | (fd, h) in more && !more[(fd, h)].purged
      ensures SlotOf(new_, h) < |new_|
    {
      var j := if h == b.handle then i else SlotOf(slots, h);
      assert new_[j].Some? && new_[j].value.handle == h;
    }
  }

  lemma AgreesDropped(buffers: Records, fd: nat, slots: Slots, i: nat, r: Record)
    requires Agrees(buffers, fd, slots) && GoodSlots(slots) && i < |slots| && slots[i].Some?
    requires r.purged && r.address == 0
    ensures Agrees(buffers[(fd, slots[i].value.handle) := r], fd, slots[i := None])
    ensures Agrees(buffers - {(fd, slots[i].value.handle)}, fd, slots[i := None])
  {
    var new_, handle := slots[i := None], slots[i].value.handle;
    var more, fewer := buffers[(fd, handle) := r], buffers - {(fd, handle)};
    forall j | 0 <= j < |new_| && new_[j].Some?
      ensures Recorded(more, fd, new_[j].value) && Recorded(fewer, fd, new_[j].value)
    {
      assert Apart(slots[j].value, slots[i].value) && Recorded(buffers, fd, slots[j].value);
    }
    forall h | (fd, h) in buffers && h != handle && !buffers[(fd, h)].purged
      ensures SlotOf(new_, h) < |new_|
    {
      var j := SlotOf(slots, h);
      assert new_[j].Some? && new_[j].value.handle == h;
    }
  }

  lemma AgreesAdded(buffers: Records, fd: nat, slots: Slots, i: nat, b: Buffer, r: Record)
    requires Agrees(buffers, fd, slots) && i < |slots| && slots[i].None?
    requires Recorded(buffers[(fd, b.handle) := r], fd, b)
    requires forall j :: 0 <= j < |slots| && slots[j].Some? ==> slots[j].value.handle != b.handle
    ensures Agrees(buffers[(fd, b.handle) := r], fd, slots[i := Some(b)])
  {
    var new_, more := slots[i := Some(b)], buffers[(fd, b.handle) := r];
    forall j | 0 <= j < |new_| && new_[j].Some?
      ensures Recorded(more, fd, new_[j].value)
    {
      if j != i {
        assert Recorded(buffers, fd, slots[j].value);
      }
    }
    forall h | (fd, h) in more && !more[(fd, h)].purged
      ensures SlotOf(new_, h) < |new_|
    {
      var j := if h == b.handle then i else SlotOf(slots, h);
      assert new_[j].Some? && new_[j].value.handle == h;
    }
  }

  // ------------------------------------------------------ the kernel's answers

  /** Nothing outside the request stands in the way of a native ioctl. */
  predicate Cooperates(s: Client, o: Outcome) {
    !Faulted(s) && s.capable && (s.render.Some? || o.setup.Ok?) && o.read.Ok?
  }

  /** One answer of the kernel: what it was asked, and in which state. */
  datatype Answer = Answer(op: Op, before: Client, o: Outcome, status: Status)

  /** Nothing but the request itself could have made this fail. */
  predicate Willing(a: Answer) {
    Cooperates(a.before, a.o) && (a.op.BindVirtual? ==> a.o.vm.Ok?)
  }

  lemma AgreesHas(buffers: Records, fd: nat, s: Client, h: nat)
    requires Inv(s) && Agrees(buffers, fd, s.slots) && (fd, h) in buffers && !buffers[(fd, h)].purged
    ensures var i := SlotOf(s.slots, h);
            && i < |s.slots| && GoodSlots(s.slots) && GoodBuffer(s.slots[i].value)
            && s.slots[i].value.handle == h && Recorded(buffers, fd, s.slots[i].value)
  {}

  /** The client a native ioctl works on. */
  ghost function Started(s: Client, tables: set<int>): Client {
    if s.render.None? then s.(render := Some(NewNative(tables))) else s
  }

  lemma NativeInv(s: Client, tables: set<int>)
    requires Inv(s)
    ensures var n := Started(s, tables); Inv(n) && n.slots == s.slots && n.render.Some?
  {
    hide Inv;
    if s.render.None? {
      FreshNative(s, tables);
    }
  }

  /** Unbinding a buffer works whenever anything does, and moves slot and record
      together. */
  lemma KernelUnbind(buffers: Records, fd: nat, s: Client, h: nat, o: Outcome)
    requires Inv(s) && Agrees(buffers, fd, s.slots) && (fd, h) in buffers && !buffers[(fd, h)].purged
    ensures var (t, status) := Step(s, UnbindVirtual(h, 0), o);
            && Inv(t) && (status.Ok? <==> Willing(Answer(UnbindVirtual(h, 0), s, o, status)))
            && (status.Ok? ==> Agrees(buffers[(fd, h) := buffers[(fd, h)].(address := 0)], fd, t.slots))
            && (!status.Ok? ==> Agrees(buffers, fd, t.slots))
  {
    hide Inv, Agrees, UnmapVirtual, GoodSlots;
    StepKeeps(s, UnbindVirtual(h, 0), o);
    AgreesHas(buffers, fd, s, h);
    var i, n := SlotOf(s.slots, h), Started(s, o.tables);
    NativeInv(s, o.tables);
    UnmapKeeps(n, i);
    AgreesMoved(buffers, fd, s.slots, i, s.slots[i].value.(virt := 0), buffers[(fd, h)].(address := 0));
  }

  /** No other binding this winsys knows of meets the range. */
  predicate Clear(buffers: Records, fd: nat, h: nat, address: nat, size: nat) {
    forall k :: k in buffers && k.0 == fd && k.1 != h && buffers[k].address != 0 ==>
      address + size <= buffers[k].address || buffers[k].address + buffers[k].size <= address
  }

  /** An address the kernel accepts for a buffer of a size. */
  predicate Bindable(address: nat, size: nat) {
    address != 0 && address % PAGE_SIZE == 0 && address + size <= VIRTUAL_LIMIT && size > 0
  }

  lemma NoKernelClash(buffers: Records, fd: nat, s: Client, h: nat, address: nat)
    requires Inv(s) && Agrees(buffers, fd, s.slots) && (fd, h) in buffers && !buffers[(fd, h)].purged
    requires buffers[(fd, h)].address == 0 && Clear(buffers, fd, h, address, buffers[(fd, h)].size)
    ensures !AnyClash(s.slots, address, buffers[(fd, h)].size)
  {
    AgreesHas(buffers, fd, s, h);
    forall i | 0 <= i < |s.slots|
      ensures !Clashes(s.slots[i], address, buffers[(fd, h)].size)
    {
      if s.slots[i].Some? {
        assert Recorded(buffers, fd, s.slots[i].value);
        var k := (fd, s.slots[i].value.handle);
        assert k in buffers;
      }
    }
  }

  /** Binding a buffer that is bound nowhere. When no other binding is in the way
      the kernel never answers that it is busy, and the request fails for no
      reason of its own making. */
  lemma KernelBind(buffers: Records, fd: nat, s: Client, h: nat, address: uint64, o: Outcome)
    requires Inv(s) && Agrees(buffers, fd, s.slots) && (fd, h) in buffers && !buffers[(fd, h)].purged
    requires buffers[(fd, h)].address == 0
    ensures var (t, status) := Step(s, BindVirtual(h, 0, address), o);
            var r := buffers[(fd, h)];
            && Inv(t)
            && (status.Ok? ==>
                  && Bindable(address, r.size)
                  && Agrees(buffers[(fd, h) := r.(address := address)], fd, t.slots))
            && (!status.Ok? ==> Agrees(buffers, fd, t.slots))
            && (Clear(buffers, fd, h, address, r.size) && Bindable(address, r.size) ==>
                  (status.Ok? <==> Willing(Answer(BindVirtual(h, 0, address), s, o, status))))
  {
    hide Inv, Agrees, AnyClash, With, Without, GoodSlots, Clear, RoundUp;
    StepKeeps(s, BindVirtual(h, 0, address), o);
    AgreesHas(buffers, fd, s, h);
    var i, n := SlotOf(s.slots, h), Started(s, o.tables);
    NativeInv(s, o.tables);
    var r := buffers[(fd, h)];
    AgreesMoved(buffers, fd, s.slots, i, s.slots[i].value.(virt := address), r.(address := address));
    if Clear(buffers, fd, h, address, r.size) {
      NoKernelClash(buffers, fd, s, h, address);
    }
    if !Step(s, BindVirtual(h, 0, address), o).1.Ok? && Step(s, BindVirtual(h, 0, address), o).0 != s {
      BindVirtKeeps(n, n.render.value, BindVirtual(h, 0, address), o);
    }
  }

  /** The kernel knows nothing of a purged buffer. */
  lemma KernelBindGone(buffers: Records, fd: nat, s: Client, h: nat, address: uint64, o: Outcome)
    requires Inv(s) && Agrees(buffers, fd, s.slots) && (fd, h) in buffers && buffers[(fd, h)].purged
    ensures var (t, status) := Step(s, BindVirtual(h, 0, address), o);
            Inv(t) && !status.Ok? && t.slots == s.slots
  {
    hide Inv;
    StepKeeps(s, BindVirtual(h, 0, address), o);
    forall i | 0 <= i < |s.slots| && s.slots[i].Some?
      ensures s.slots[i].value.handle != h
    {
      assert Recorded(buffers, fd, s.slots[i].value);
    }
  }

  /** The bindings a process has never overlap, wherever it asked for them. */
  lemma BindingsApart(buffers: Records, fd: nat, s: Client, h: nat)
    requires Inv(s) && Agrees(buffers, fd, s.slots) && (fd, h) in buffers && buffers[(fd, h)].address != 0
    ensures !buffers[(fd, h)].purged && Bindable(buffers[(fd, h)].address, buffers[(fd, h)].size)
    ensures Clear(buffers, fd, h, buffers[(fd, h)].address, buffers[(fd, h)].size)
  {
    hide Inv;
    AgreesHas(buffers, fd, s, h);
    var i := SlotOf(s.slots, h);
    forall k | k in buffers && k.0 == fd && k.1 != h && buffers[k].address != 0
      ensures buffers[(fd, h)].address + buffers[(fd, h)].size <= buffers[k].address
           || buffers[k].address + buffers[k].size <= buffers[(fd, h)].address
    {
      assert k == (fd, k.1);
      AgreesHas(buffers, fd, s, k.1);
      var j := SlotOf(s.slots, k.1);
      assert Apart(s.slots[i].value, s.slots[j].value);
    }
  }

  /** Every page of the address range a buffer is bound at leads to that page of
      the buffer's memory. */
  ghost predicate Walks(s: Client, h: nat, address: nat) {
    && s.render.Some? && SlotOf(s.slots, h) < |s.slots|
    && var b := s.slots[SlotOf(s.slots, h)].value;
       b.virt == address && forall k :: 0 <= k < |b.pages| ==>
         PageLeads(s.render.value.mapped, address / PAGE_SIZE + k, b.pages[k])
  }

  predicate PageLeads(m: map<nat, int>, page: nat, physical: int) {
    page in m && m[page] == physical
  }

  lemma BoundWalks(buffers: Records, fd: nat, s: Client, h: nat)
    requires Inv(s) && Agrees(buffers, fd, s.slots) && (fd, h) in buffers && buffers[(fd, h)].address != 0
    ensures Walks(s, h, buffers[(fd, h)].address)
  {
    hide Inv, GoodSlots, Agrees;
    BoundHas(buffers, fd, s, h);
    var i := SlotOf(s.slots, h);
    var b := s.slots[i].value;
    forall k | 0 <= k < |b.pages|
      ensures PageLeads(s.render.value.mapped, b.virt / PAGE_SIZE + k, b.pages[k])
    {
      R.CoveredIsMapped(s, i, b.virt / PAGE_SIZE + k);
    }
  }

  lemma BoundHas(buffers: Records, fd: nat, s: Client, h: nat)
    requires Inv(s) && Agrees(buffers, fd, s.slots) && (fd, h) in buffers && buffers[(fd, h)].address != 0
    ensures s.render.Some? && !buffers[(fd, h)].purged
    ensures var i := SlotOf(s.slots, h);
            i < |s.slots| && s.slots[i].value.virt == buffers[(fd, h)].address
  {
    hide GoodSlots, Reflects;
    AgreesHas(buffers, fd, s, h);
  }

  /** A submission the kernel runs named every buffer once, and all were bound. */
  lemma KernelSubmit(s: Client, op: Op, o: Outcome)
    requires Inv(s) && op.SubmitObjects?
    ensures Inv(Step(s, op, o).0) && Step(s, op, o).0.slots == s.slots
    ensures s.render.Some? ==>
            Step(s, op, o).0.render.Some? && Step(s, op, o).0.render.value.mapped == s.render.value.mapped
    ensures Step(s, op, o).1.Ok? ==> op.count <= |op.handles| && Resolves(s.slots, op.handles[..op.count])
  {
    hide Inv, Resolves, SlotOf, IdSlot;
    StepKeeps(s, op, o);
  }

  /** Closing a buffer works whenever the request gets through. */
  lemma KernelClose(buffers: Records, fd: nat, s: Client, h: nat, o: Outcome)
    requires Inv(s) && Agrees(buffers, fd, s.slots) && (fd, h) in buffers && !buffers[(fd, h)].purged
    ensures var (t, status) := Step(s, CloseBuffer(h, 0), o);
            && Inv(t) && (status.Ok? <==> !Faulted(s) && o.read.Ok?)
            && (forall r: Record :: status.Ok? && r.purged && r.address == 0 ==>
                  Agrees(buffers[(fd, h) := r], fd, t.slots))
            && (status.Ok? ==> Agrees(buffers - {(fd, h)}, fd, t.slots))
            && (!status.Ok? ==> t == s)
  {
    hide Inv, Agrees, CloseSlot, GoodSlots;
    StepKeeps(s, CloseBuffer(h, 0), o);
    AgreesHas(buffers, fd, s, h);
    var i := SlotOf(s.slots, h);
    if !Faulted(s) && o.read.Ok? {
      CloseKeeps(s, CloseBuffer(h, 0), o);
      AgreesDropped(buffers, fd, s.slots, i, buffers[(fd, h)].(purged := true, address := 0));
      forall r: Record | r.purged && r.address == 0
        ensures Agrees(buffers[(fd, h) := r], fd, s.slots[i := None])
      {
        AgreesDropped(buffers, fd, s.slots, i, r);
      }
    }
  }

  lemma KernelCreate(buffers: Records, fd: nat, s: Client, size: uint64, o: Outcome)
    requires Inv(s) && Agrees(buffers, fd, s.slots) && Honest(s, CreateBuffer(size, 0, 0), o)
    ensures var (t, status) := Step(s, CreateBuffer(size, 0, 0), o);
            && Inv(t)
            && (status.Ok? ==>
                  Agrees(buffers[(fd, s.nextHandle) := Record(RoundUp(size), 0, false, false, 0)], fd, t.slots))
            && (!status.Ok? ==> Agrees(buffers, fd, t.slots))
  {
    hide Inv, Agrees, GoodSlots, RoundUp, NewPages;
    StepKeeps(s, CreateBuffer(size, 0, 0), o);
    var i := FirstEmpty(s.slots);
    if Step(s, CreateBuffer(size, 0, 0), o).1.Ok? {
      NewHandle(s);
      AgreesAdded(buffers, fd, s.slots, i, Buffer(s.nextHandle, RoundUp(size), o.pages, None, 0),
                  Record(RoundUp(size), 0, false, false, 0));
    }
  }

  lemma NewHandle(s: Client)
    requires Inv(s) && s.nextHandle != 0
    ensures forall j :: 0 <= j < |s.slots| && s.slots[j].Some? ==> s.slots[j].value.handle != s.nextHandle
  {}

  /** Requests on one descriptor do not show in another's records. */
  lemma AgreesOther(buffers: Records, more: Records, fd: nat, slots: Slots)
    requires Agrees(buffers, fd, slots)
    requires forall h :: (fd, h) in more <==> (fd, h) in buffers
    requires forall h :: (fd, h) in more ==> more[(fd, h)] == buffers[(fd, h)]
    ensures Agrees(more, fd, slots)
  {
    forall i | 0 <= i < |slots| && slots[i].Some?
      ensures Recorded(more, fd, slots[i].value)
    {
      assert Recorded(buffers, fd, slots[i].value);
    }
  }
}
