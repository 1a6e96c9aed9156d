/** What a client gets out of each ioctl, and when: by handles, context ids and
    pages, as its caller sees them, and not by slots. */
module ClientEffects {
  import opened Machine
  import opened AddressSpace
  import opened ClientModel
  import opened ClientSafety
  import opened ClientRuns

  /** A client that has its native state, and still answers. */
  predicate Ready(s: Client, n: Native) {
    s.capable && s.render == Some(n) && !n.faulted
  }

  /** The buffer a handle stands for. */
  function Named(slots: Slots, handle: nat): Option<Buffer> {
    var i := SlotOf(slots, handle);
    if i < |slots| then slots[i] else None
  }

  /** A slot that holds the handle is the one the search finds. */
  lemma NamedAt(slots: Slots, i: nat, handle: nat)
    requires i < |slots| && slots[i].Some? && slots[i].value.handle == handle
    requires forall j :: 0 <= j < |slots| && j != i && slots[j].Some? ==> slots[j].value.handle != handle
    ensures SlotOf(slots, handle) == i && Named(slots, handle) == slots[i]
  {}

  lemma NamedNowhere(slots: Slots, handle: nat)
    requires forall j :: 0 <= j < |slots| && slots[j].Some? ==> slots[j].value.handle != handle
    ensures SlotOf(slots, handle) == |slots| && Named(slots, handle) == None
  {}

  /** A slot that is changed changes what its handle stands for, and no other. */
  lemma NamedPut(slots: Slots, i: nat, slot: Option<Buffer>, handle: nat)
    requires GoodSlots(slots) && i < |slots| && slots[i].Some?
    requires slot.Some? ==> slot.value.handle == slots[i].value.handle
    ensures Named(slots[i := slot], handle) == if handle == slots[i].value.handle then slot else Named(slots, handle)
  {
    hide GoodBuffer, SharesNone;
    var new_ := slots[i := slot];
    forall j | 0 <= j < |slots| && j != i && slots[j].Some?
      ensures slots[j].value.handle != slots[i].value.handle
    {
      assert Apart(slots[j].value, slots[i].value);
    }
    var k := SlotOf(slots, handle);
    if handle == slots[i].value.handle {
      if slot.Some? {
        NamedAt(new_, i, handle);
      } else {
        NamedNowhere(new_, handle);
      }
    } else if k < |slots| {
      forall j | 0 <= j < |new_| && j != k && new_[j].Some?
        ensures new_[j].value.handle != handle
      {
        assert j != i ==> Apart(slots[j].value, slots[k].value);
      }
      NamedAt(new_, k, handle);
    } else {
      NamedNowhere(new_, handle);
    }
  }

  /** A free slot that is filled gives a new handle its buffer, and changes no
      other. */
  lemma NamedFill(slots: Slots, i: nat, b: Buffer, handle: nat)
    requires GoodSlots(slots) && i < |slots| && slots[i].None?
    requires forall j :: 0 <= j < |slots| && slots[j].Some? ==> slots[j].value.handle != b.handle
    ensures Named(slots, b.handle) == None
    ensures Named(slots[i := Some(b)], handle) == if handle == b.handle then Some(b) else Named(slots, handle)
  {
    hide GoodBuffer, SharesNone;
    var new_ := slots[i := Some(b)];
    NamedNowhere(slots, b.handle);
    var k := SlotOf(slots, handle);
    if handle == b.handle {
      NamedAt(new_, i, handle);
    } else if k < |slots| {
      forall j | 0 <= j < |new_| && j != k && new_[j].Some?
        ensures new_[j].value.handle != handle
      {
        assert j != i ==> Apart(slots[j].value, slots[k].value);
      }
      NamedAt(new_, k, handle);
    } else {
      NamedNowhere(new_, handle);
    }
  }

  // ---------------------------------------------------------------- buffers

  /** A buffer is made exactly for a size from 1 byte to 64 MiB that the client's
      1 GiB has room for, with one of its 256 places free and handles left. */
  lemma CreateAccepts(s: Client, op: Op, o: Outcome)
    requires Inv(s) && !Faulted(s) && op.CreateBuffer?
    ensures Step(s, op, o).1.Ok? <==>
              && o.read.Ok? && o.resource.Ok? && o.copy.Ok? && op.flags == 0 && op.reserved == 0
              && 0 < op.size <= 67_108_864 && Charged(s.slots) + RoundUp(op.size) <= 1_073_741_824
              && (exists i :: 0 <= i < 256 && i < |s.slots| && s.slots[i].None?) && s.nextHandle != 0
  {
    hide GoodSlots, Reflects, GoodContexts;
    var i := FirstEmpty(s.slots);
    assert i < |s.slots| ==> s.slots[i].None?;
  }

  /** A new handle stands for whole pages, as many as the size needs, bound
      nowhere; every other handle for what it stood for. */
  lemma CreateGives(s: Client, op: Op, o: Outcome, handle: nat)
    requires Inv(s) && !Faulted(s) && op.CreateBuffer? && Step(s, op, o).1.Ok?
    ensures var t := Step(s, op, o).0;
            && Named(s.slots, s.nextHandle) == None && op.size <= RoundUp(op.size) < op.size + 4096
            && Named(t.slots, handle) ==
                 if handle == s.nextHandle then Some(Buffer(handle, RoundUp(op.size), o.pages, None, 0))
                 else Named(s.slots, handle)
  {
    hide Reflects, GoodContexts, GoodSlots;
    RoundedUp(op.size);
    NamedFill(s.slots, FirstEmpty(s.slots), Buffer(s.nextHandle, RoundUp(op.size), o.pages, None, 0), handle);
  }

  /** A close takes exactly the one handle away. */
  lemma CloseTakes(s: Client, op: Op, o: Outcome, handle: nat)
    requires Inv(s) && !Faulted(s) && op.CloseBuffer?
    ensures Step(s, op, o).1.Ok? <==>
              o.read.Ok? && op.reserved == 0 && op.handle != 0 && Named(s.slots, op.handle).Some?
    ensures Step(s, op, o).1.Ok? ==>
              Named(Step(s, op, o).0.slots, handle) == if handle == op.handle then None else Named(s.slots, handle)
  {
    hide Inv, GoodSlots, CloseSlot;
    CloseKeeps(s, op, o);
    var i := SlotOf(s.slots, op.handle);
    if i < |s.slots| {
      SlotsGood(s);
      NamedPut(s.slots, i, None, handle);
    }
  }

  lemma SlotsGood(s: Client)
    requires Inv(s)
    ensures GoodSlots(s.slots)
  {}

  /** A buffer goes into the global table exactly when it is in neither address
      space and the client's 64 MiB of it have room. */
  lemma BindGttAccepts(s: Client, op: Op, o: Outcome)
    requires Inv(s) && !Faulted(s) && op.BindBuffer?
    ensures Step(s, op, o).1.Ok? <==>
              && o.read.Ok? && o.resource.Ok? && o.setup.Ok? && o.copy.Ok? && s.aperture
              && op.flags == 0 && op.handle != 0 && op.graphicsAddress == 0
              && var b := Named(s.slots, op.handle);
                 && b.Some? && b.value.virt == 0 && b.value.graphics.None?
                 && PinnedSum(s.slots) + b.value.size <= 67_108_864
  {
    hide GoodSlots, Reflects, GoodContexts;
  }

  lemma BindGttGives(s: Client, op: Op, o: Outcome, handle: nat)
    requires Inv(s) && !Faulted(s) && op.BindBuffer? && Step(s, op, o).1.Ok?
    ensures var t, b := Step(s, op, o).0, Named(s.slots, op.handle);
            && b.Some? && t.bound == s.bound + b.value.size
            && Named(t.slots, handle) ==
                 if handle == op.handle then Some(b.value.(graphics := Some(o.aperture))) else Named(s.slots, handle)
  {
    hide Reflects, GoodContexts, GoodSlots;
    var i := SlotOf(s.slots, op.handle);
    NamedPut(s.slots, i, Some(s.slots[i].value.(graphics := Some(o.aperture))), handle);
  }

  /** Unbinding a pinned buffer unpins it and gives its size back to the budget. */
  lemma UnbindGttTakes(s: Client, op: Op, o: Outcome, handle: nat)
    requires Inv(s) && !Faulted(s) && op.UnbindBuffer? && o.resource.Ok?
    ensures var b := Named(s.slots, op.handle);
            Step(s, op, o).1.Ok? <==>
              o.read.Ok? && op.reserved == 0 && op.handle != 0 && b.Some? && b.value.graphics.Some?
    ensures Step(s, op, o).1.Ok? ==>
              var t, b := Step(s, op, o).0, Named(s.slots, op.handle);
              && b.Some? && t.bound == s.bound - b.value.size
              && Named(t.slots, handle) ==
                   if handle == op.handle then Some(b.value.(graphics := None)) else Named(s.slots, handle)
  {
    hide Reflects, GoodContexts, GoodSlots;
    var i := SlotOf(s.slots, op.handle);
    if i < |s.slots| {
      NamedPut(s.slots, i, Some(s.slots[i].value.(graphics := None)), handle);
    }
  }

  // ------------------------------------------------------ virtual addresses

  /** Another binding is in the way exactly when a page of the range is mapped. */
  lemma ClashIsMapped(slots: Slots, m: map<nat, int>, address: uint64, count: nat)
    requires GoodSlots(slots) && Reflects(slots, m) && address % PAGE_SIZE == 0 && count > 0
    ensures AnyClash(slots, address, count * PAGE_SIZE) <==>
              exists page :: page in m && address / PAGE_SIZE <= page < address / PAGE_SIZE + count
  {
    hide Reflects;
    if AnyClash(slots, address, count * PAGE_SIZE) {
      var i :| 0 <= i < |slots| && Clashes(slots[i], address, count * PAGE_SIZE);
      var b := slots[i].value;
      assert GoodBuffer(b);
      var page := if address <= b.virt then b.virt / PAGE_SIZE else address / PAGE_SIZE;
      assert Covers(slots[i], page) && address / PAGE_SIZE <= page < address / PAGE_SIZE + count;
      CoversIn(slots, m, i, page);
    } else {
      forall page | page in m
        ensures !(address / PAGE_SIZE <= page < address / PAGE_SIZE + count)
      {
        NoClash(slots, m, address, count, page);
      }
    }
  }

  lemma CoversIn(slots: Slots, m: map<nat, int>, i: nat, page: nat)
    requires Reflects(slots, m) && i < |slots| && Covers(slots[i], page)
    ensures page in m
  {}

  /** A virtual bind goes in exactly at an aligned address below 2^47, not zero,
      for a buffer that is in neither address space, where nothing is mapped yet;
      or it is there already. */
  lemma BindVirtAccepts(s: Client, n: Native, op: Op, o: Outcome)
    requires Inv(s) && Ready(s, n) && op.BindVirtual?
    ensures Step(s, op, o).1.Ok? <==>
              && o.read.Ok? && op.flags == 0 && op.handle != 0 && op.address != 0 && op.address % 4096 == 0
              && var b := Named(s.slots, op.handle);
                 && b.Some? && op.address + b.value.size <= 140_737_488_355_328
                 && (b.value.virt == op.address
                     || (b.value.virt == 0 && b.value.graphics.None? && o.vm.Ok?
                           && Vacant(n.mapped, op.address, b.value)))
  {
    hide With, Without, Reflects, GoodContexts;
    var i := SlotOf(s.slots, op.handle);
    if i < |s.slots| {
      var b := s.slots[i].value;
      assert GoodBuffer(b);
      if op.address % PAGE_SIZE == 0 {
        ClashIsMapped(s.slots, n.mapped, op.address, |b.pages|);
      }
    }
  }

  ghost predicate Vacant(m: map<nat, int>, address: nat, b: Buffer) {
    !exists page :: page in m && address / PAGE_SIZE <= page < address / PAGE_SIZE + |b.pages|
  }

  /** Unbinding a buffer takes its pages out of the address space and no other;
      it only fails for want of the buffer. */
  lemma UnbindVirtTakes(s: Client, n: Native, op: Op, o: Outcome, handle: nat)
    requires Inv(s) && Ready(s, n) && op.UnbindVirtual?
    ensures var (t, status) := Step(s, op, o);
            var b := Named(s.slots, op.handle);
            && (status.Ok? <==> o.read.Ok? && op.reserved == 0 && op.handle != 0 && b.Some?)
            && (status.Ok? ==>
                  && b.Some? && t.render.Some?
                  && Named(t.slots, handle) ==
                       (if handle == op.handle then Some(b.value.(virt := 0)) else Named(s.slots, handle))
                  && (forall page :: page in t.render.value.mapped <==> page in n.mapped && !Covers(b, page))
                  && (forall page :: page in t.render.value.mapped ==> t.render.value.mapped[page] == n.mapped[page]))
  {
    hide Inv, GoodSlots, UnmapVirtual;
    var i := SlotOf(s.slots, op.handle);
    if i < |s.slots| {
      UnmapKeeps(s, i);
      SlotsGood(s);
      NamedPut(s.slots, i, Some(s.slots[i].value.(virt := 0)), handle);
      UnmapPages(s, n, i);
    }
  }

  lemma UnmapPages(s: Client, n: Native, i: nat)
    requires Inv(s) && s.render == Some(n) && i < |s.slots| && s.slots[i].Some?
    ensures var t := UnmapVirtual(s, i).0;
            && t.render.Some?
            && (forall page :: page in t.render.value.mapped <==> page in n.mapped && !Covers(s.slots[i], page))
            && (forall page :: page in t.render.value.mapped ==> t.render.value.mapped[page] == n.mapped[page])
  {
    hide Without, Reflects, GoodContexts;
    var b := s.slots[i].value;
    if b.virt != 0 {
      CoversRange(b, 0);
      WithoutIs(n.mapped, b.virt / PAGE_SIZE, |b.pages|);
    }
  }

  // --------------------------------------------------------------- contexts

  predicate Knows(n: Native, id: nat) {
    id != 0 && id in n.contexts
  }

  lemma KnownAt(ids: seq<nat>, id: nat)
    ensures IdSlot(ids, id) < |ids| <==> id in ids
  {
    var i := IdSlot(ids, id);
    if i < |ids| {
      assert ids[i] == id;
    }
  }

  /** A new context has an id no context of the client has; all others keep
      theirs. */
  lemma NewContextGives(s: Client, n: Native, op: Op, o: Outcome, id: nat)
    requires Inv(s) && Ready(s, n) && op.CreateContext? && Step(s, op, o).1.Ok?
    ensures var t := Step(s, op, o).0;
            && t.render.Some? && n.nextContext != 0 && !Knows(n, n.nextContext)
            && (Knows(t.render.value, id) <==> Knows(n, id) || id == n.nextContext)
  {
    hide GoodSlots, Reflects;
    var ids, free := n.contexts, FirstZero(n.contexts);
    var new_ := ids[free := n.nextContext];
    if id in ids && id != 0 {
      var i :| 0 <= i < |ids| && ids[i] == id;
      assert new_[i] == id;
    }
    assert new_[free] == n.nextContext;
  }

  /** A context is made while one of the 16 places is free and ids are left. */
  lemma NewContextAccepts(s: Client, n: Native, op: Op, o: Outcome)
    requires Inv(s) && Ready(s, n) && op.CreateContext?
    ensures Step(s, op, o).1.Ok? <==>
              && o.read.Ok? && o.resource.Ok? && o.copy.Ok? && op.context == 0 && op.flags == 0
              && n.nextContext != 0 && exists i :: 0 <= i < 16 && i < |n.contexts| && n.contexts[i] == 0
  {
    hide GoodSlots, Reflects;
    var i := FirstZero(n.contexts);
    assert i < |n.contexts| ==> n.contexts[i] == 0;
  }

  /** Waiting is for a fence some submission has returned, for ten seconds at most. */
  lemma WaitAccepts(s: Client, n: Native, op: Op, o: Outcome)
    requires Ready(s, n) && op.WaitRenderFence?
    ensures Step(s, op, o).0 == s
    ensures Step(s, op, o).1.Ok? <==> o.read.Ok? && 1 <= op.fence <= n.completed && op.timeout <= 10_000_000
  {}

  /** A destroyed context's id is unknown from then on; it works exactly for a
      known one. */
  lemma DropContextTakes(s: Client, n: Native, op: Op, o: Outcome, id: nat)
    requires Inv(s) && Ready(s, n) && op.DestroyContext?
    ensures Step(s, op, o).1.Ok? <==> o.read.Ok? && op.reserved == 0 && Knows(n, op.context)
    ensures Step(s, op, o).1.Ok? ==>
              var t := Step(s, op, o).0;
              t.render.Some? && (Knows(t.render.value, id) <==> Knows(n, id) && id != op.context)
  {
    hide GoodSlots, Reflects;
    KnownAt(n.contexts, op.context);
    var ids, i := n.contexts, IdSlot(n.contexts, op.context);
    if i < |ids| && op.context != 0 {
      var new_ := ids[i := 0];
      if id in ids && id != op.context {
        var j :| 0 <= j < |ids| && ids[j] == id;
        assert new_[j] == id;
      }
      forall j | 0 <= j < |new_|
        ensures new_[j] != op.context
      {
        assert j < i ==> ids[j] != op.context;
      }
    }
  }

  // ------------------------------------------------------------ submissions

  /** A submission is let through to the engine exactly when it names a context
      of the client and from 1 to 256 buffers, each of them there, bound and
      named once, with the batch inside one of them, eight bytes aligned. */
  lemma SubmitAccepts(s: Client, n: Native, op: Op, o: Outcome)
    requires Inv(s) && Ready(s, n) && op.SubmitObjects?
    ensures Step(s, op, o).1.Ok? <==> o.read.Ok? && SubmitCheck(s, n, op).Ok? && o.resource.Ok? && o.copy.Ok?
    ensures SubmitCheck(s, n, op).Ok? <==>
              && op.flags == 0 && op.fence == 0 && Knows(n, op.context)
              && 1 <= op.count <= 256 && op.count <= |op.handles|
              && op.offset % 8 == 0 && op.length % 4 == 0 && op.length > 0
              && (forall k :: 0 <= k < op.count ==> Usable(s.slots, op.handles, k))
              && op.batch in op.handles[..op.count]
              && Named(s.slots, op.batch).Some? && op.offset + op.length <= Named(s.slots, op.batch).value.size
  {
    hide Inv;
    KnownAt(n.contexts, op.context);
    if op.count <= |op.handles| {
      UsableIs(s.slots, op.handles, op.count);
      if op.batch in op.handles[..op.count] {
        var k :| 0 <= k < op.count && op.handles[..op.count][k] == op.batch;
        assert op.handles[k] == op.batch;
        assert Usable(s.slots, op.handles, k) ==> Named(s.slots, op.batch).Some?;
      }
    }
  }

  /** The k-th buffer named is there and bound, and not named before. */
  predicate Usable(slots: Slots, handles: seq<nat>, k: nat)
    requires k < |handles|
  {
    && Named(slots, handles[k]).Some? && Named(slots, handles[k]).value.virt != 0
    && handles[k] !in handles[..k]
  }

  lemma UsableIs(slots: Slots, handles: seq<nat>, count: nat)
    requires count <= |handles|
    ensures Resolves(slots, handles[..count]) <==> forall k :: 0 <= k < count ==> Usable(slots, handles, k)
  {
    var named := handles[..count];
    assert forall k :: 0 <= k < count ==> named[k] == handles[k];
    if Resolves(slots, named) {
      forall k | 0 <= k < count
        ensures Usable(slots, handles, k)
      {
        assert SlotOf(slots, named[k]) < |slots|;
      }
    } else if forall k :: 0 <= k < count ==> Usable(slots, handles, k) {
      forall k | 0 <= k < |named|
        ensures SlotOf(slots, named[k]) < |slots| && slots[SlotOf(slots, named[k])].value.virt != 0
        ensures forall j :: 0 <= j < k ==> named[j] != named[k]
      {
        assert Usable(slots, handles, k);
        forall j | 0 <= j < k
          ensures named[j] != named[k]
        {
          assert handles[..k][j] == handles[j];
        }
      }
    }
  }
}
