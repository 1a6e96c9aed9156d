/** kernel/RenderClient.cpp: one open device, its buffers and its native state,
    changed in place by one ioctl at a time. `model` is the client as the state
    machine of ClientModel has it; every ioctl moves the two together, so that
    what is proved of the machine holds of the objects. Other clients share the
    global table and the engine; what each promises the others about those is
    Courteous, and Devices shows that it is enough. */
module Clients {
  import opened Machine
  import opened AddressSpace
  import opened ClientModel
  import opened ClientSafety
  import C = Commands
  import R = ClientRuns
  import G = Gtt
  import opened Buffers
  import opened Ppgtt
  import E = Engine

  /** What a native client has besides its buffers. A context slot is empty
      exactly when its id is zero. */
  class NativeState {
    const vm: PageTables
    var contexts: seq<E.RenderEngine?>
    var ids: seq<nat>
    var nextContext: nat
    var addresses: seq<uint64>
    var completed: nat
    var faulted: bool

    constructor ()
      ensures contexts == seq(MAX_CONTEXTS, _ => null) && ids == seq(MAX_CONTEXTS, _ => 0)
      ensures addresses == seq(MAX_BUFFERS, _ => 0) && nextContext == 1 && completed == 0 && !faulted
      ensures fresh(vm) && fresh(vm.fEntries) && vm.Tracks() && !vm.IsValid() && vm.fTables == [] && vm.fDirty
    {
      vm := new PageTables();
      contexts, ids := seq(MAX_CONTEXTS, _ => null), seq(MAX_CONTEXTS, _ => 0);
      addresses := seq(MAX_BUFFERS, _ => 0);
      nextContext, completed, faulted := 1, 0, false;
    }
  }

  const RING_DWORDS := 4096     // kRingSize / 4

  /** What everything else answers while one ioctl is served. read: copying the
      request in and checking its header; copy: copying the answer out. memory:
      create_area for a new buffer, pages: what it gives. maps: get_memory_map for
      the global table; lookups: for the page tables. legacy: the legacy engines'
      tables. scratch: the scratch page of new page tables; plenty: there are
      pages for more tables. context: InitClient of a new context. awake: the GPU
      wakes up when it is told to. */
  datatype World = World(
    read: Status, copy: Status, memory: Status, pages: seq<int>, maps: G.GttArea, lookups: Area, legacy: Status,
    scratch: Lookup, plenty: bool, context: Status, awake: bool)

  /** Neither copy failed on its own. */
  predicate Copied(o: Outcome, w: World) {
    (w.read.Ok? ==> o.read.Ok?) && (w.copy.Ok? ==> o.copy.Ok?)
  }

  /** The global table has room for a buffer, and gets to see all of it. */
  ghost predicate Fits(b: Buffer, maps: G.GttArea, c: G.Content) {
    Shows(maps, b.size, b.pages) && exists f: nat :: G.Free(c, f, |b.pages|)
  }

  /** The page tables get to see all of a buffer, and can map all of it. */
  predicate Mappable(size: uint64, pages: seq<int>, area: Area) {
    && area.Area? && area.size == size && |area.lookups| == |pages|
    && forall k :: 0 <= k < |pages| ==>
         area.lookups[k].Found? && area.lookups[k].physical == pages[k] && Addressable(pages[k])
  }

  ghost predicate RoomFor(s: Client, handle: nat, maps: G.GttArea, c: G.Content) {
    SlotOf(s.slots, handle) < |s.slots| && Fits(s.slots[SlotOf(s.slots, handle)].value, maps, c)
  }

  predicate CanMap(s: Client, handle: nat, area: Area) {
    && SlotOf(s.slots, handle) < |s.slots|
    && var b := s.slots[SlotOf(s.slots, handle)].value;
       Mappable(b.size, b.pages, area)
  }

  lemma MappableMeans(size: uint64, pages: seq<int>, area: Area)
    requires Mappable(size, pages, area)
    ensures area.Area? && area.size == size && |area.lookups| == |pages| && Tells(area.lookups, pages)
    ensures forall k, status :: 0 <= k < |area.lookups| ==> !Refuses(area.lookups[k], status)
  {}

  /** The page map after a bind: all of the pages, or what mapping some of them
      and unmapping the whole range leaves. */
  function Mapped(m: map<nat, int>, first: nat, pages: seq<int>, size: uint64, status: Status,
      done: nat): map<nat, int> {
    if status.Ok? then With(m, first, pages)
    else Without(With(m, first, if done <= |pages| then pages[..done] else pages), first, RoundUp(size) / PAGE_SIZE)
  }

  /** Map, and on failure Unmap of the whole range. */
  method MapOrUndo(vm: PageTables, buffer: BufferObject, address: uint64, w: World)
    returns (status: Status, ghost done: nat)
    requires vm.Valid() && buffer.Whole()
    requires address % PAGE_SIZE == 0 && address < VIRTUAL_LIMIT && buffer.fSize <= VIRTUAL_LIMIT - address
    modifies vm, vm.fEntries
    ensures vm.Valid() && vm.fRoot == old(vm.fRoot) && old(vm.Memory()) <= vm.Memory()
    ensures vm.mapped == Mapped(old(vm.mapped), address / PAGE_SIZE, buffer.pages, buffer.fSize, status, done)
    ensures Mappable(buffer.fSize, buffer.pages, w.lookups) ==> status.Ok? || vm.Short(w.plenty)
  {
    hide PageTables.Valid, With, Without, IsPrefix, Tells, Refuses, Mappable;
    Rooted(vm);
    Inside(buffer, address);
    if Mappable(buffer.fSize, buffer.pages, w.lookups) {
      MappableMeans(buffer.fSize, buffer.pages, w.lookups);
    }
    var area := buffer.DescribePages(w.lookups);
    Sized(area, buffer);
    ghost var physical;
    status, physical := vm.Map(area, address, w.plenty);
    done := |physical|;
    PrefixIs(physical, area, buffer.pages);
    assert status.Ok? ==> buffer.pages[..done] == buffer.pages;
    if !status.Ok? {
      var _ := vm.Unmap(address, buffer.fSize);
    }
  }

  lemma Inside(buffer: BufferObject, address: uint64)
    requires buffer.Whole() && address % PAGE_SIZE == 0 && buffer.fSize <= VIRTUAL_LIMIT - address
    ensures RoundUp(buffer.fSize) == buffer.fSize && InSpace(address, buffer.fSize)
  {}

  lemma Rooted(vm: PageTables)
    requires vm.Valid()
    ensures vm.IsValid()
  {}

  lemma Sized(area: Area, buffer: BufferObject)
    requires buffer.Whole() && (area.Area? ==> area.size == buffer.fSize && Tells(area.lookups, buffer.pages))
    ensures area.Area? ==> |area.lookups| == RoundUp(area.size) / PAGE_SIZE == |buffer.pages|
  {}

  lemma PrefixIs(physical: seq<int>, area: Area, pages: seq<int>)
    requires IsPrefix(physical, LookupsOf(area)) && (area.Area? ==> Tells(area.lookups, pages))
    ensures |physical| <= |pages| && physical == pages[..|physical|]
  {}

  const CALM := Outcome(Ok, Ok, Ok, [], 0, Ok, {}, Ok, 0, {}, false)

  /** The memory of a context's status and fence pages, image and ring. */
  function MemoryOf(context: E.RenderEngine?): set<int> {
    if context == null then {} else context.fMemory
  }

  function BackingOf(contexts: seq<E.RenderEngine?>): seq<set<int>> {
    seq(|contexts|, k requires 0 <= k < |contexts| => MemoryOf(contexts[k]))
  }

  /** Pages none of these buffers holds. */
  ghost predicate Strangers(slots: Slots, pages: seq<int>) {
    forall i :: 0 <= i < |slots| && slots[i].Some? ==>
      SharesNone(slots[i].value.pages, pages) && SharesNone(pages, slots[i].value.pages)
  }

  /** Whatever was bound in the global table, and is none of these buffers, is
      bound there still. */
  ghost predicate Undisturbed(before: G.Content, after: G.Content, slots: Slots) {
    forall f: nat, held: seq<int> ::
      G.Bound(before, f, held) && held != [] && Strangers(slots, held) ==> G.Bound(after, f, held)
  }

  lemma UndisturbedPut(c: G.Content, first: nat, pages: seq<int>, slots: Slots)
    requires G.LowestFree(c, first, |pages|) && pages != []
    ensures first + |pages| <= |c| && Undisturbed(c, G.Put(c, first, pages), slots)
  {
    hide G.Bound, Strangers;
    forall f: nat, held: seq<int> | G.Bound(c, f, held) && held != []
      ensures G.Bound(G.Put(c, first, pages), f, held)
    {
      G.PutKeeps(c, first, pages, f, held);
    }
  }

  lemma UndisturbedTake(c: G.Content, first: nat, slots: Slots, i: nat)
    requires i < |slots| && slots[i].Some? && slots[i].value.pages != [] && G.Bound(c, first, slots[i].value.pages)
    ensures first + |slots[i].value.pages| <= |c|
    ensures Undisturbed(c, G.Take(c, first, |slots[i].value.pages|), slots)
  {
    hide G.Bound;
    var pages := slots[i].value.pages;
    assert first + |pages| <= |c| by { BoundFits(c, first, pages); }
    forall f: nat, held: seq<int> | G.Bound(c, f, held) && held != [] && Strangers(slots, held)
      ensures G.Bound(G.Take(c, first, |pages|), f, held)
    {
      RunsApart(c, first, pages, f, held);
      G.TakeKeeps(c, first, |pages|, f, held);
    }
  }

  lemma BoundFits(c: G.Content, first: nat, pages: seq<int>)
    requires G.Bound(c, first, pages)
    ensures first + |pages| <= |c|
  {}

  /** The buffers themselves may move in between. */
  lemma UndisturbedMore(a: G.Content, b: G.Content, c: G.Content, slots: Slots, moved: Slots)
    requires Undisturbed(a, b, slots) && Undisturbed(b, c, moved)
    requires |moved| == |slots| && forall i :: 0 <= i < |slots| ==> SamePages(moved[i], slots[i])
    ensures Undisturbed(a, c, slots)
  {
    hide G.Bound;
    forall f: nat, held: seq<int> | G.Bound(a, f, held) && held != [] && Strangers(slots, held)
      ensures G.Bound(c, f, held)
    {
      assert Strangers(moved, held);
    }
  }

  predicate SamePages(a: Option<Buffer>, b: Option<Buffer>) {
    a.Some? == b.Some? && (a.Some? ==> a.value.pages == b.value.pages)
  }

  class RenderClient {
    const fGTT: G.GlobalGTT?
    const fScheduler: E.Scheduler
    const fCapable: bool          // kNativeRender
    var fBuffers: seq<BufferObject?>
    var fHandles: seq<nat>
    var fNextHandle: nat
    var fAllocated: int
    var fBound: int
    var fNative: NativeState?

    ghost var model: Client

    // ------------------------------------------------------ the two agree

    function AddressOf(slot: nat): uint64
      reads `fNative, fNative
    {
      if fNative == null || slot >= |fNative.addresses| then 0 else fNative.addresses[slot]
    }

    /** One slot: empty in both, or the same buffer. */
    ghost predicate Mirrors(slots: Slots, i: nat)
      reads `fBuffers, `fHandles, `fNative, fBuffers, fNative
    {
      && i < |fBuffers| && i < |fHandles| && i < |slots|
      && if fBuffers[i] == null then slots[i] == None && AddressOf(i) == 0
         else
           var b := fBuffers[i];
           slots[i] == Some(Buffer(fHandles[i], b.fSize, b.pages,
                                         if b.fGTT == null then None else Some(b.fGraphicsAddress), AddressOf(i)))
    }

    ghost predicate SlotsMirror(slots: Slots)
      reads `fBuffers, `fHandles, `fNative, fBuffers, fNative
    {
      && |fBuffers| == |fHandles| == |slots| == MAX_BUFFERS
      && (forall i :: 0 <= i < MAX_BUFFERS ==> Mirrors(slots, i))
      && (forall i, j :: 0 <= i < j < MAX_BUFFERS && fBuffers[i] != null ==> fBuffers[i] != fBuffers[j])
    }

    ghost predicate Numbers()
      reads `fNextHandle, `fAllocated, `fBound, `model, fGTT
    {
      && fNextHandle == model.nextHandle && fAllocated == model.charged && fBound == model.bound
      && model.capable == fCapable && model.aperture == (fGTT != null && fGTT.fReady)
    }

    /** Every buffer has its memory, and those that are bound have their run of
        this device's table. */
    ghost predicate Pins()
      reads `fBuffers, fBuffers, fGTT
    {
      forall i :: 0 <= i < |fBuffers| && fBuffers[i] != null ==>
        (fBuffers[i].fGTT == null || fBuffers[i].fGTT == fGTT) && fBuffers[i].Pinned()
    }

    ghost predicate Table()
      reads fGTT, if fGTT != null then {fGTT.fEntries, fGTT.fUsed} else {}
    {
      fGTT != null ==> fGTT.Consistent()
    }

    ghost predicate Tables()
      reads `fNative, if fNative != null then {fNative.vm, fNative.vm.fEntries} else {}
    {
      fNative != null ==> fNative.vm.Valid()
    }

    ghost predicate NativeMirrors(render: Option<Native>)
      reads `fNative, fNative, if fNative != null then {fNative.vm} else {}
    {
      if fNative == null then render == None
      else
        && render ==
             Some(Native(fNative.vm.mapped, fNative.ids, fNative.nextContext, fNative.completed, fNative.faulted,
                         fNative.vm.Memory(), BackingOf(fNative.contexts)))
        && |fNative.addresses| == MAX_BUFFERS
    }

    /** A client's contexts run on this engine against this client's tables. */
    ghost predicate ContextsOf(native: NativeState)
      reads native`contexts, native`ids, native.vm`fRoot, fScheduler, set c | c in native.contexts
    {
      && |native.contexts| == |native.ids| == MAX_CONTEXTS
      && (forall k :: 0 <= k < MAX_CONTEXTS ==> (native.contexts[k] == null <==> native.ids[k] == 0))
      && (forall k :: 0 <= k < MAX_CONTEXTS && native.contexts[k] != null ==>
            && native.contexts[k].fAddressSpace == native.vm && native.contexts[k].fScheduler == fScheduler
            && native.contexts[k].fRing.Length == RING_DWORDS && native.contexts[k].fPipe && native.contexts[k].Valid()
            && native.contexts[k].fReady)
      && (forall j, k :: 0 <= j < k < MAX_CONTEXTS && native.contexts[j] != null ==>
            native.contexts[j] != native.contexts[k])
    }

    /** Only a client that is faulted has contexts that are. */
    ghost predicate Sound(native: NativeState)
      reads native`contexts, native`faulted, set c | c in native.contexts
    {
      OnlyFaulted(native, native.faulted)
    }

    ghost predicate OnlyFaulted(native: NativeState, faulted: bool)
      reads native`contexts, set c | c in native.contexts
    {
      forall c :: c in native.contexts && c != null && c.fFaulted ==> faulted
    }

    /** Unless it has been given up, nothing is running between two ioctls. */
    ghost predicate Engine()
      reads fScheduler
    {
      !fScheduler.fFaulted ==> fScheduler.Idle()
    }

    ghost predicate Linked()
      reads this, fBuffers, fNative, fGTT, fScheduler
      reads if fGTT != null then {fGTT.fEntries, fGTT.fUsed} else {}
      reads if fNative != null then {fNative.vm, fNative.vm.fEntries} else {}
      reads if fNative != null then set c | c in fNative.contexts else {}
    {
      && SlotsMirror(model.slots) && Numbers() && Pins() && Table() && Tables() && NativeMirrors(model.render)
      && Engine()
      && (fNative != null ==> ContextsOf(fNative) && Sound(fNative))
    }

    ghost predicate Valid()
      reads this, fBuffers, fNative, fGTT, fScheduler
      reads if fGTT != null then {fGTT.fEntries, fGTT.fUsed} else {}
      reads if fNative != null then {fNative.vm, fNative.vm.fEntries} else {}
      reads if fNative != null then set c | c in fNative.contexts else {}
    {
      Linked() && Inv(model)
    }

    constructor (gtt: G.GlobalGTT?, scheduler: E.Scheduler, capable: bool)
      requires gtt != null ==> gtt.Consistent()
      requires !scheduler.fFaulted ==> scheduler.Idle()
      ensures Valid() && model == Opened(capable, gtt != null && gtt.fReady)
      ensures fGTT == gtt && fScheduler == scheduler && Objects() == {this}
    {
      fGTT, fScheduler, fCapable := gtt, scheduler, capable;
      fBuffers, fHandles := seq(MAX_BUFFERS, _ => null), seq(MAX_BUFFERS, _ => 0);
      fNextHandle, fAllocated, fBound, fNative := 1, 0, 0, null;
      model := Opened(capable, gtt != null && gtt.fReady);
      new;
      EmptiesSum(MAX_BUFFERS);
    }

    /** What is this client's alone. */
    ghost function Objects(): set<object>
      reads `fBuffers, `fNative, (if fNative != null then {fNative} else {})`contexts
    {
      {this} + (set b: BufferObject | b in fBuffers :: b)
      + if fNative == null then {}
        else
          {fNative, fNative.vm, fNative.vm.fEntries}
          + (set c: E.RenderEngine | c in fNative.contexts :: c)
          + (set c: E.RenderEngine | c in fNative.contexts :: c.fRing)
    }

    lemma Owns()
      ensures this in Objects() && forall b: BufferObject :: b in fBuffers ==> b in Objects()
      ensures fNative != null ==>
        && fNative in Objects() && fNative.vm in Objects() && fNative.vm.fEntries in Objects()
        && forall c: E.RenderEngine :: c in fNative.contexts ==> c in Objects() && c.fRing in Objects()
    {}

    /** Buffers, contexts and the native state only ever come from outside new. */
    twostate lemma OnlyNew()
      requires forall b :: b in fBuffers && b != null ==> b in old(fBuffers) || fresh(b)
      requires fNative != null ==>
        || (fNative == old(fNative) && forall c :: c in fNative.contexts && c != null ==>
              c in old(fNative.contexts) || (fresh(c) && fresh(c.fRing)))
        || (fresh(fNative) && fresh(fNative.vm) && fresh(fNative.vm.fEntries)
            && forall c :: c in fNative.contexts && c != null ==> fresh(c) && fresh(c.fRing))
      ensures fresh(Objects() - old(Objects()))
    {}

    /** A submission touches the context it names, and nothing else touches any. */
    twostate predicate Spared(op: Op)
      reads *
    {
      old(fNative) != null ==>
        forall c: E.RenderEngine :: c in old(fNative.contexts) ==>
          (op.SubmitObjects? && old(HasId(fNative, c, op.context))) || unchanged(c)
    }

    /** What the others who share the global table are promised. */
    twostate predicate Courteous(slots: Slots)
      reads fGTT
    {
      fGTT != null ==>
        && fGTT.fReady == old(fGTT.fReady) && fGTT.fBase == old(fGTT.fBase) && fGTT.fUsed == old(fGTT.fUsed)
        && Undisturbed(old(fGTT.content), fGTT.content, slots)
    }

    /** Leaving the table alone is courteous. */
    lemma Untouched()
      ensures fGTT != null ==> Undisturbed(fGTT.content, fGTT.content, model.slots)
    {}

    // -------------------------------------------------------------- lookups

    lemma FirstSlot(slots: Slots, handle: nat, i: nat)
      requires i <= |slots|
      requires i < |slots| ==> slots[i].Some? && slots[i].value.handle == handle
      requires forall j :: 0 <= j < i ==> slots[j].None? || slots[j].value.handle != handle
      ensures SlotOf(slots, handle) == i
    {}

    lemma FirstFree(slots: Slots, i: nat)
      requires i <= |slots| && (i < |slots| ==> slots[i].None?)
      requires forall j :: 0 <= j < i ==> slots[j].Some?
      ensures FirstEmpty(slots) == i
    {}

    /** _Find: the first slot with the handle, or kMaxBuffers. */
    method Find(handle: nat) returns (slot: nat)
      requires SlotsMirror(model.slots)
      ensures slot == SlotOf(model.slots, handle) && |model.slots| == |fBuffers| == MAX_BUFFERS
      ensures slot < MAX_BUFFERS ==> fBuffers[slot] != null && Mirrors(model.slots, slot)
    {
      for i := 0 to MAX_BUFFERS
        invariant forall j :: 0 <= j < i ==> model.slots[j].None? || model.slots[j].value.handle != handle
      {
        assert Mirrors(model.slots, i);
        if fBuffers[i] != null && fHandles[i] == handle {
          FirstSlot(model.slots, handle, i);
          return i;
        }
      }
      FirstSlot(model.slots, handle, MAX_BUFFERS);
      return MAX_BUFFERS;
    }

    method FreeSlot() returns (slot: nat)
      requires SlotsMirror(model.slots)
      ensures slot == FirstEmpty(model.slots) && |model.slots| == |fBuffers| == MAX_BUFFERS
      ensures slot < MAX_BUFFERS ==> fBuffers[slot] == null
    {
      slot := 0;
      while slot < MAX_BUFFERS && fBuffers[slot] != null
        invariant slot <= MAX_BUFFERS && forall j :: 0 <= j < slot ==> model.slots[j].Some?
      {
        assert Mirrors(model.slots, slot);
        slot := slot + 1;
      }
      assert slot < MAX_BUFFERS ==> Mirrors(model.slots, slot);
      FirstFree(model.slots, slot);
    }

    /** The memory all of this client's buffers hold. */
    function Live(): set<int>
      reads `fBuffers, fBuffers
    {
      set i, p | 0 <= i < |fBuffers| && fBuffers[i] != null && p in fBuffers[i].pages :: p
    }

    // ----------------------------------------------------------- the buffers

    method CreateBuffer(op: Op, taken: set<int>, w: World) returns (status: Status, ghost o: Outcome)
      requires Valid() && op.CreateBuffer?
      modifies `model, `fNextHandle, `fBuffers, `fHandles, `fAllocated
      ensures Linked() && (model, status) == Create(old(model), op, o)
      ensures !o.launched && Copied(o, w)
      ensures w.memory.Ok? && Given(w.pages, RoundUp(op.size), old(Live()) + taken) ==> o.resource.Ok?
      ensures status.Ok? ==> NewPages(old(model), op.size, o.pages) && Avoids(o.pages, taken)
      ensures forall b :: b in fBuffers && b != null ==> b in old(fBuffers) || fresh(b)
    {
      hide Avoids, Inv, Linked, SlotsMirror, SharesNone;
      o := CALM;
      Unlink();
      status := w.read;
      o := o.(read := status);
      if !status.Ok? {
        return;
      }
      if op.flags != 0 || op.reserved != 0 || op.size == 0 || op.size > MAX_BUFFER_SIZE || fNextHandle == 0 {
        return BadValue, o;
      }
      var size := RoundUp(op.size);
      if size > MEMORY_LIMIT - fAllocated {
        return NoMemory, o;
      }
      var slot := FreeSlot();
      if slot == MAX_BUFFERS {
        return NoMemory, o;
      }
      status, o := NewBuffer(slot, size, taken, w, o);
    }

    lemma Unlink()
      requires Linked()
      ensures SlotsMirror(model.slots) && Numbers() && Pins() && Table() && Tables()
      ensures NativeMirrors(model.render) && Engine() && (fNative != null ==> ContextsOf(fNative) && Sound(fNative))
    {}

    lemma Relink()
      requires SlotsMirror(model.slots) && Numbers() && Pins() && Table() && Tables()
      requires NativeMirrors(model.render) && Engine() && (fNative != null ==> ContextsOf(fNative) && Sound(fNative))
      ensures Linked()
    {}

    ghost predicate Avoids(pages: seq<int>, taken: set<int>) {
      forall p :: p in pages ==> p !in taken
    }

    /** A buffer object with memory of its own, and nobody else's. */
    method FreshBuffer(size: uint64, taken: set<int>, w: World) returns (status: Status, buffer: BufferObject)
      requires Linked() && size % PAGE_SIZE == 0 && size > 0
      ensures Linked() && fresh(buffer)
      ensures w.memory.Ok? && Given(w.pages, size, Live() + taken) ==> status.Ok?
      ensures status.Ok? ==>
        && buffer.Pinned() && buffer.fGTT == null && buffer.fSize == size && buffer.pages == w.pages
        && (forall p :: p in buffer.pages ==> p !in Live()) && Avoids(buffer.pages, taken)
    {
      hide Linked;
      buffer := new BufferObject();
      status := buffer.Init(size, Live() + taken, w.memory, w.pages);
    }

    /** The rest of kCreateBuffer: the memory, the handle, the answer. */
    method NewBuffer(slot: nat, size: uint64, taken: set<int>, w: World, ghost calm: Outcome)
      returns (status: Status, ghost o: Outcome)
      requires Linked() && slot < MAX_BUFFERS && fBuffers[slot] == null && slot < |model.slots|
      requires size % PAGE_SIZE == 0 && size > 0
      modifies `model, `fNextHandle, `fBuffers, `fHandles, `fAllocated
      ensures Linked()
      ensures o == calm.(resource := o.resource, pages := o.pages, copy := o.copy)
      ensures w.copy.Ok? ==> o.copy.Ok?
      ensures w.memory.Ok? && Given(w.pages, size, old(Live()) + taken) ==> o.resource.Ok?
      ensures !o.resource.Ok? ==> status == o.resource && model == old(model)
      ensures o.resource.Ok? && !o.copy.Ok? ==>
        status == o.copy && model == old(model).(nextHandle := (old(model.nextHandle) + 1) % 0x1_0000_0000)
      ensures o.resource.Ok? && o.copy.Ok? ==>
        status.Ok? && |o.pages| * PAGE_SIZE == size && Strangers(old(model.slots), o.pages) && Avoids(o.pages, taken)
        && model == Grown(old(model), slot, Buffer(old(model.nextHandle), size, o.pages, None, 0))
      ensures forall b :: b in fBuffers && b != null ==> b in old(fBuffers) || fresh(b)
    {
      hide Linked, SharesNone, Strangers, Live, Avoids;
      o := calm;
      var buffer;
      status, buffer := FreshBuffer(size, taken, w);
      o := o.(resource := status, pages := buffer.pages, copy := Ok);
      if !status.Ok? {
        return;
      }
      assert buffer !in fBuffers;
      Unlink();
      Separate(buffer);
      status := Answer(slot, buffer, w);
      o := o.(copy := status);
    }

    /** The answer to the caller, and the buffer into its slot once it is out. */
    method Answer(slot: nat, buffer: BufferObject, w: World) returns (status: Status)
      requires Linked() && slot < MAX_BUFFERS && fBuffers[slot] == null && slot < |model.slots|
      requires buffer.Pinned() && buffer.fGTT == null && buffer !in fBuffers
      modifies `model, `fNextHandle, `fBuffers, `fHandles, `fAllocated
      ensures Linked() && status == w.copy
      ensures !status.Ok? ==> model == old(model).(nextHandle := (old(model.nextHandle) + 1) % 0x1_0000_0000)
      ensures status.Ok? ==>
        model == Grown(old(model), slot, Buffer(old(model.nextHandle), buffer.fSize, buffer.pages, None, 0))
      ensures forall b :: b in fBuffers ==> b in old(fBuffers) || b == buffer
    {
      hide Linked, Table, Tables, NativeMirrors, Engine, ContextsOf, Sound, SlotsMirror, Pins;
      Unlink();
      var handle := TakeHandle();
      status := w.copy;
      if status.Ok? {
        Unlink();
        Install(slot, buffer, handle);
        fAllocated := fAllocated + buffer.fSize;
        ghost var b := Buffer(handle, buffer.fSize, buffer.pages, None, 0);
        model := model.(slots := model.slots[slot := Some(b)], charged := fAllocated);
        Relink();
      }
    }

    /** fNextHandle++. */
    method TakeHandle() returns (handle: nat)
      requires Linked()
      modifies `model, `fNextHandle
      ensures Linked() && handle == old(model.nextHandle)
      ensures model == old(model).(nextHandle := (old(model.nextHandle) + 1) % 0x1_0000_0000)
    {
      hide Linked, Table, Tables, NativeMirrors, Engine, ContextsOf, Sound, SlotsMirror, Pins;
      Unlink();
      handle := fNextHandle;
      fNextHandle := (fNextHandle + 1) % 0x1_0000_0000;
      model := model.(nextHandle := fNextHandle);
      Relink();
    }

    /** The client with one more buffer. */
    ghost function Grown(s: Client, slot: nat, b: Buffer): Client
      requires slot < |s.slots|
    {
      s.(slots := s.slots[slot := Some(b)], charged := s.charged + b.size,
         nextHandle := (s.nextHandle + 1) % 0x1_0000_0000)
    }

    method Install(slot: nat, buffer: BufferObject, handle: nat)
      requires SlotsMirror(model.slots) && Pins() && slot < MAX_BUFFERS && fBuffers[slot] == null
      requires buffer.Pinned() && buffer.fGTT == null && buffer !in fBuffers
      modifies `fBuffers, `fHandles
      ensures slot < |model.slots| && Pins()
      ensures SlotsMirror(model.slots[slot := Some(Buffer(handle, buffer.fSize, buffer.pages, None, 0))])
      ensures forall b :: b in fBuffers ==> b in old(fBuffers) || b == buffer
    {
      assert Mirrors(model.slots, slot);
      fBuffers := fBuffers[slot := buffer];
      fHandles := fHandles[slot := handle];
      ghost var slots := model.slots[slot := Some(Buffer(handle, buffer.fSize, buffer.pages, None, 0))];
      forall i | 0 <= i < MAX_BUFFERS
        ensures Mirrors(slots, i)
      {
        assert old(Mirrors(model.slots, i));
      }
    }

    lemma Separate(buffer: BufferObject)
      requires SlotsMirror(model.slots) && forall p :: p in buffer.pages ==> p !in Live()
      ensures Strangers(model.slots, buffer.pages)
    {
      forall i | 0 <= i < |model.slots| && model.slots[i].Some?
        ensures SharesNone(model.slots[i].value.pages, buffer.pages)
                && SharesNone(buffer.pages, model.slots[i].value.pages)
      {
        assert Mirrors(model.slots, i);
        forall p | p in model.slots[i].value.pages
          ensures p !in buffer.pages
        {
          assert p in Live();
        }
      }
    }

    // ------------------------------------------------------ the global table

    /** A slot's buffer, with the graphics address it has. */
    ghost function Placed(slots: Slots, slot: nat, graphics: Option<nat>): Slots
      requires slot < |slots| && slots[slot].Some?
    {
      slots[slot := Some(slots[slot].value.(graphics := graphics))]
    }

    /** buffer->Bind(*fGTT): this buffer gets a run, and every other buffer keeps
        the run and the pages it has. */
    method Pin(slot: nat, buffer: BufferObject, w: World) returns (status: Status)
      requires SlotsMirror(model.slots) && Pins() && Table() && fGTT != null
      requires slot < MAX_BUFFERS && slot < |fBuffers| && fBuffers[slot] == buffer && buffer.fGTT == null
      modifies buffer`fGTT, buffer`fGraphicsAddress, fGTT`content, fGTT.fEntries, fGTT.fUsed
      ensures Pins() && Table() && slot < |model.slots| && model.slots[slot].Some?
      ensures fGTT.fReady && Fits(model.slots[slot].value, w.maps, old(fGTT.content)) ==> status.Ok?
      ensures !status.Ok? ==> SlotsMirror(model.slots) && fGTT.content == old(fGTT.content)
      ensures status.Ok? ==>
        && SlotsMirror(Placed(model.slots, slot, Some(buffer.fGraphicsAddress)))
        && buffer.fGTT == fGTT
        && G.LowestFree(old(fGTT.content), buffer.Run(), |buffer.pages|)
        && fGTT.content == G.Put(old(fGTT.content), buffer.Run(), buffer.pages)
    {
      hide G.GlobalGTT.Consistent, G.LowestFree, G.Bound;
      assert Mirrors(model.slots, slot);
      status := buffer.Bind(fGTT, w.maps);
      if status.Ok? {
        forall i | 0 <= i < MAX_BUFFERS && fBuffers[i] != null && i != slot && fBuffers[i].fGTT != null
          ensures fBuffers[i].Pinned()
        {
          OtherStays(old(fGTT.content), buffer.Run(), buffer.pages, fBuffers[i].Run(), fBuffers[i].pages);
        }
      }
      ghost var slots := if status.Ok? then Placed(model.slots, slot, Some(buffer.fGraphicsAddress)) else model.slots;
      forall i | 0 <= i < MAX_BUFFERS
        ensures Mirrors(slots, i)
      {
        assert old(Mirrors(model.slots, i));
      }
    }

    lemma OtherStays(c: G.Content, first: nat, pages: seq<int>, other: nat, held: seq<int>)
      requires G.LowestFree(c, first, |pages|) && G.Bound(c, other, held) && pages != [] && held != []
      ensures first + |pages| <= |c| && G.Bound(G.Put(c, first, pages), other, held)
    {
      G.PutKeeps(c, first, pages, other, held);
    }

    /** No two buffers share memory. */
    ghost predicate Unshared(slots: Slots) {
      forall i, j :: 0 <= i < |slots| && 0 <= j < |slots| && i != j && slots[i].Some? && slots[j].Some? ==>
        SharesNone(slots[i].value.pages, slots[j].value.pages)
    }

    lemma GoodUnshared(s: Client)
      requires Inv(s)
      ensures Unshared(s.slots)
    {
      forall i, j | 0 <= i < |s.slots| && 0 <= j < |s.slots| && i != j && s.slots[i].Some? && s.slots[j].Some?
        ensures SharesNone(s.slots[i].value.pages, s.slots[j].value.pages)
      {
        assert Apart(s.slots[i].value, s.slots[j].value);
      }
    }

    lemma PlacedUnshared(slots: Slots, slot: nat, graphics: Option<nat>)
      requires Unshared(slots) && slot < |slots| && slots[slot].Some?
      ensures Unshared(Placed(slots, slot, graphics))
    {}

    /** buffer->Unbind(): its run is free again, and nobody else's changes. */
    method Unpin(slot: nat, buffer: BufferObject, ghost slots: Slots) returns (status: Status)
      requires SlotsMirror(slots) && Pins() && Table() && fGTT != null && Unshared(slots)
      requires slot < MAX_BUFFERS && slot < |fBuffers| && fBuffers[slot] == buffer && buffer.fGTT != null
      modifies buffer`fGTT, buffer`fGraphicsAddress, fGTT, fGTT.fEntries, fGTT.fUsed
      ensures Pins() && Table() && status.Ok? && slot < |slots| && slots[slot].Some?
      ensures SlotsMirror(Placed(slots, slot, None)) && buffer.fGTT == null && buffer.fSize == old(buffer.fSize)
      ensures fGTT.fReady == old(fGTT.fReady) && fGTT.fUsed == old(fGTT.fUsed) && fGTT.fBase == old(fGTT.fBase)
      ensures Undisturbed(old(fGTT.content), fGTT.content, slots)
      ensures old(buffer.Run()) + |buffer.pages| <= |old(fGTT.content)|
           && fGTT.content == G.Take(old(fGTT.content), old(buffer.Run()), |buffer.pages|)
    {
      hide G.GlobalGTT.Consistent, G.Bound, Unshared, Undisturbed;
      assert Mirrors(slots, slot);
      UndisturbedTake(fGTT.content, buffer.Run(), slots, slot);
      status := buffer.Unbind();
      forall i | 0 <= i < MAX_BUFFERS && fBuffers[i] != null && i != slot && fBuffers[i].fGTT != null
        ensures fBuffers[i].Pinned()
      {
        assert old(Mirrors(slots, i));
        OthersRun(old(fGTT.content), slots, slot, i, old(buffer.Run()), fBuffers[i].Run());
      }
      forall i | 0 <= i < MAX_BUFFERS
        ensures Mirrors(Placed(slots, slot, None), i)
      {
        assert old(Mirrors(slots, i));
      }
    }

    lemma OthersRun(c: G.Content, slots: Slots, i: nat, j: nat, mine: nat, other: nat)
      requires Unshared(slots) && i < |slots| && j < |slots| && i != j && slots[i].Some? && slots[j].Some?
      requires G.Bound(c, mine, slots[i].value.pages) && G.Bound(c, other, slots[j].value.pages)
      requires slots[i].value.pages != [] && slots[j].value.pages != []
      ensures mine + |slots[i].value.pages| <= |c|
           && G.Bound(G.Take(c, mine, |slots[i].value.pages|), other, slots[j].value.pages)
    {
      RunsApart(c, mine, slots[i].value.pages, other, slots[j].value.pages);
      G.TakeKeeps(c, mine, |slots[i].value.pages|, other, slots[j].value.pages);
    }

    /** The model with a buffer in the global table. */
    ghost function GttBound(s: Client, slot: nat, address: nat): Client
      requires slot < |s.slots| && s.slots[slot].Some?
    {
      s.(slots := Placed(s.slots, slot, Some(address)), bound := s.bound + s.slots[slot].value.size)
    }

    method BindBuffer(op: Op, w: World) returns (status: Status, ghost o: Outcome)
      requires Valid() && op.BindBuffer?
      modifies `model, `fBound, fBuffers
      modifies if fGTT != null then {fGTT, fGTT.fEntries, fGTT.fUsed} else {}
      ensures Linked() && (model, status) == BindGtt(old(model), op, o)
      ensures !o.launched && Copied(o, w) && (w.legacy.Ok? ==> o.setup.Ok?)
      ensures fGTT != null && RoomFor(old(model), op.handle, w.maps, old(fGTT.content)) ==> o.resource.Ok?
      ensures !status.Ok? && fGTT != null ==> fGTT.content == old(fGTT.content)
      ensures Courteous(old(model.slots))
    {
      hide Inv, Linked, SlotsMirror, Unshared;
      o := CALM;
      Unlink();
      status := w.read;
      o := o.(read := status);
      if !status.Ok? {
        return;
      }
      if op.flags != 0 || op.handle == 0 || op.graphicsAddress != 0 {
        return BadValue, o;
      }
      if fGTT == null || !fGTT.fReady {
        return NotSupported, o;
      }
      var slot := Find(op.handle);
      if slot == MAX_BUFFERS {
        return EntryNotFound, o;
      }
      var buffer := fBuffers[slot];
      if AddressOf(slot) != 0 || buffer.fGTT != null {
        return Busy, o;
      }
      if buffer.fSize > APERTURE_LIMIT - fBound {
        return NoMemory, o;
      }
      GoodUnshared(model);
      status, o := PinAndAnswer(slot, buffer, w, o);
    }

    /** The rest of kBindBuffer: pin the buffer, show it to the legacy engines,
        answer; whatever fails takes the pin out again. */
    method PinAndAnswer(slot: nat, buffer: BufferObject, w: World, ghost calm: Outcome)
      returns (status: Status, ghost o: Outcome)
      requires Linked() && Unshared(model.slots) && fGTT != null && slot < |model.slots| && model.slots[slot].Some?
      requires slot < MAX_BUFFERS && slot < |fBuffers| && fBuffers[slot] == buffer && buffer.fGTT == null
      modifies `model, `fBound, buffer, fGTT, fGTT.fEntries, fGTT.fUsed
      ensures Linked()
      ensures o == calm.(resource := o.resource, setup := o.setup, copy := o.copy, aperture := o.aperture)
      ensures (w.copy.Ok? ==> o.copy.Ok?) && (w.legacy.Ok? ==> o.setup.Ok?)
      ensures old(fGTT.fReady) && Fits(old(model.slots)[slot].value, w.maps, old(fGTT.content)) ==> o.resource.Ok?
      ensures !status.Ok? ==>
        status == (if !o.resource.Ok? then o.resource else if !o.setup.Ok? then o.setup else o.copy)
      ensures status.Ok? <==> o.resource.Ok? && o.setup.Ok? && o.copy.Ok?
      ensures model == if status.Ok? then GttBound(old(model), slot, o.aperture) else old(model)
      ensures !status.Ok? ==> fGTT.content == old(fGTT.content)
      ensures Courteous(old(model.slots))
    {
      hide Undisturbed, Linked, Tables, NativeMirrors, Engine, ContextsOf, SlotsMirror, Pins, Table, Unshared,
           G.LowestFree, G.Put;
      o := calm.(resource := Ok, setup := Ok, copy := Ok);
      Unlink();
      Untouched();
      SizeAt(slot);
      status := Pin(slot, buffer, w);
      o := o.(resource := status, aperture := buffer.fGraphicsAddress);
      if !status.Ok? {
        Relink();
        return;
      }
      Placing(buffer);
      HasPages(buffer);
      UndisturbedPut(old(fGTT.content), buffer.Run(), buffer.pages, model.slots);
      status, o := AnswerBind(slot, buffer, w, old(fGTT.content), o);
      Relink();
    }

    lemma Placing(buffer: BufferObject)
      requires Pins() && buffer in fBuffers && buffer.fGTT != null
      ensures buffer.fGTT == fGTT && buffer.fGraphicsAddress >= buffer.fGTT.fBase
    {
      assert exists i :: 0 <= i < |fBuffers| && fBuffers[i] == buffer && buffer.Pinned();
    }

    method AnswerBind(slot: nat, buffer: BufferObject, w: World, ghost before: G.Content, ghost calm: Outcome)
      returns (status: Status, ghost o: Outcome)
      requires slot < |model.slots| && model.slots[slot].Some? && model.slots[slot].value.graphics == None
      requires model.slots[slot].value.size == buffer.fSize && fBound == model.bound && calm.setup.Ok? && calm.copy.Ok?
      requires SlotsMirror(Placed(model.slots, slot, Some(buffer.fGraphicsAddress)))
      requires Pins() && Table() && fGTT != null && Unshared(model.slots)
      requires slot < MAX_BUFFERS && slot < |fBuffers| && fBuffers[slot] == buffer && buffer.fGTT == fGTT
      requires buffer.fGraphicsAddress >= fGTT.fBase && G.LowestFree(before, buffer.Run(), |buffer.pages|)
      requires fGTT.content == G.Put(before, buffer.Run(), buffer.pages)
      modifies `model, `fBound, buffer`fGTT, buffer`fGraphicsAddress, fGTT, fGTT.fEntries, fGTT.fUsed
      ensures SlotsMirror(model.slots) && Pins() && Table() && fBound == model.bound
      ensures fGTT.fReady == old(fGTT.fReady) && fGTT.fBase == old(fGTT.fBase) && fGTT.fUsed == old(fGTT.fUsed)
      ensures status.Ok? ==> fGTT.content == old(fGTT.content)
      ensures o == calm.(setup := o.setup, copy := o.copy)
      ensures (w.copy.Ok? ==> o.copy.Ok?) && (w.legacy.Ok? ==> o.setup.Ok?)
      ensures !status.Ok? ==> status == (if !o.setup.Ok? then o.setup else o.copy) && fGTT.content == before
      ensures status.Ok? <==> o.setup.Ok? && o.copy.Ok?
      ensures model == if status.Ok? then GttBound(old(model), slot, old(buffer.fGraphicsAddress)) else old(model)
    {
      hide SlotsMirror, Pins, Table, Unshared, G.LowestFree, G.Put;
      o := calm;
      status := w.legacy;
      o := o.(setup := status);
      if status.Ok? {
        status := w.copy;
        o := o.(copy := status);
      }
      if !status.Ok? {
        PutBack(slot, buffer, before);
        return;
      }
      model := GttBound(model, slot, buffer.fGraphicsAddress);
      fBound := fBound + buffer.fSize;
    }

    /** A bind that has to be undone leaves the table as it found it. */
    method PutBack(slot: nat, buffer: BufferObject, ghost before: G.Content)
      requires slot < |model.slots| && model.slots[slot].Some? && model.slots[slot].value.graphics == None
      requires SlotsMirror(Placed(model.slots, slot, Some(buffer.fGraphicsAddress)))
      requires Pins() && Table() && fGTT != null && Unshared(model.slots)
      requires slot < MAX_BUFFERS && slot < |fBuffers| && fBuffers[slot] == buffer && buffer.fGTT == fGTT
      requires buffer.fGraphicsAddress >= fGTT.fBase && G.LowestFree(before, buffer.Run(), |buffer.pages|)
      requires fGTT.content == G.Put(before, buffer.Run(), buffer.pages)
      modifies buffer`fGTT, buffer`fGraphicsAddress, fGTT, fGTT.fEntries, fGTT.fUsed
      ensures SlotsMirror(model.slots) && Pins() && Table() && fGTT.content == before
      ensures fGTT.fReady == old(fGTT.fReady) && fGTT.fBase == old(fGTT.fBase) && fGTT.fUsed == old(fGTT.fUsed)
    {
      hide SlotsMirror, Pins, Table, Unshared;
      ghost var slots := Placed(model.slots, slot, Some(buffer.fGraphicsAddress));
      PlacedUnshared(model.slots, slot, Some(buffer.fGraphicsAddress));
      G.PutTake(before, buffer.Run(), buffer.pages);
      var _ := Unpin(slot, buffer, slots);
      assert Placed(slots, slot, None) == model.slots;
    }

    lemma SizeAt(slot: nat)
      requires SlotsMirror(model.slots) && slot < MAX_BUFFERS
      ensures |fBuffers| == |model.slots| == MAX_BUFFERS && (fBuffers[slot] == null <==> model.slots[slot].None?)
      ensures fBuffers[slot] != null ==>
        && model.slots[slot].value.size == fBuffers[slot].fSize
        && (model.slots[slot].value.graphics.None? <==> fBuffers[slot].fGTT == null)
    {
      assert Mirrors(model.slots, slot);
    }

    lemma SizeIn(slot: nat)
      requires Linked() && slot < |model.slots|
      ensures |fBuffers| == |model.slots| == MAX_BUFFERS && (fBuffers[slot] == null <==> model.slots[slot].None?)
      ensures fBuffers[slot] != null ==>
        && model.slots[slot].value.size == fBuffers[slot].fSize
        && (model.slots[slot].value.graphics.None? <==> fBuffers[slot].fGTT == null)
    {
      hide SlotsMirror, Tables, NativeMirrors, Engine, ContextsOf, Sound, Pins, Table;
      MirrorLengths();
      SizeAt(slot);
    }

    method UnbindBuffer(op: Op, w: World) returns (status: Status, ghost o: Outcome)
      requires Valid() && op.UnbindBuffer?
      modifies `model, `fBound, fBuffers
      modifies if fGTT != null then {fGTT, fGTT.fEntries, fGTT.fUsed} else {}
      ensures Linked() && (model, status) == UnbindGtt(old(model), op, o)
      ensures !o.launched && Copied(o, w)
      // Giving back a run never fails.
      ensures o.resource.Ok? && Courteous(old(model.slots))
    {
      hide Inv, Linked, SlotsMirror, Unshared, Tables, NativeMirrors, Engine, ContextsOf, Pins, Table;
      o := CALM;
      Unlink();
      status := w.read;
      o := o.(read := status);
      if !status.Ok? {
        return;
      }
      if op.reserved != 0 || op.handle == 0 {
        return BadValue, o;
      }
      var slot := Find(op.handle);
      if slot == MAX_BUFFERS {
        return EntryNotFound, o;
      }
      var buffer := fBuffers[slot];
      SizeAt(slot);
      if buffer.fGTT == null {
        return BadValue, o;
      }
      GoodUnshared(model);
      status := Release(slot, buffer);
    }

    /** Unbind, and the budget: a run can always be given back. */
    method Release(slot: nat, buffer: BufferObject) returns (status: Status)
      requires Linked() && Unshared(model.slots) && slot < |model.slots| && model.slots[slot].Some?
      requires slot < MAX_BUFFERS && slot < |fBuffers| && fBuffers[slot] == buffer && buffer.fGTT != null
      modifies `model, `fBound, buffer
      modifies if fGTT != null then {fGTT, fGTT.fEntries, fGTT.fUsed} else {}
      ensures Linked() && status.Ok? && buffer.fSize == old(buffer.fSize)
      ensures model == old(model).(slots := Placed(old(model.slots), slot, None),
                                   bound := old(model.bound) - buffer.fSize)
      ensures Courteous(old(model.slots))
    {
      hide Linked, SlotsMirror, Unshared, Tables, NativeMirrors, Engine, ContextsOf, Pins, Table;
      Unlink();
      Placing(buffer);
      status := Unpin(slot, buffer, model.slots);
      fBound := fBound - buffer.fSize;
      model := model.(slots := Placed(model.slots, slot, None), bound := fBound);
      Relink();
    }

    method CloseBuffer(op: Op, w: World) returns (status: Status, ghost o: Outcome)
      requires Valid() && op.CloseBuffer?
      modifies `model, `fBound, `fAllocated, `fBuffers, `fHandles, fBuffers
      modifies (if fNative != null then {fNative} else {})`addresses
      modifies if fGTT != null then {fGTT, fGTT.fEntries, fGTT.fUsed} else {}
      modifies if fNative != null then {fNative.vm, fNative.vm.fEntries} else {}
      ensures Linked() && (model, status) == Close(old(model), op, o)
      ensures !o.launched && Copied(o, w) && Courteous(old(model.slots))
      ensures forall b :: b in fBuffers && b != null ==> b in old(fBuffers)
    {
      hide Inv, Linked, SlotsMirror, Unshared, CloseSlot;
      o := CALM;
      Unlink();
      status := w.read;
      o := o.(read := status);
      if !status.Ok? {
        return;
      }
      if op.reserved != 0 || op.handle == 0 {
        return BadValue, o;
      }
      var slot := Find(op.handle);
      if slot == MAX_BUFFERS {
        return EntryNotFound, o;
      }
      GoodUnshared(model);
      status := CloseFound(slot);
    }

    method CloseFound(slot: nat) returns (status: Status)
      requires Linked() && Unshared(model.slots) && slot < |model.slots| && model.slots[slot].Some?
      modifies `model, `fBound, `fAllocated, `fBuffers, `fHandles, fBuffers
      modifies (if fNative != null then {fNative} else {})`addresses
      modifies if fGTT != null then {fGTT, fGTT.fEntries, fGTT.fUsed} else {}
      modifies if fNative != null then {fNative.vm, fNative.vm.fEntries} else {}
      ensures Linked() && (model, status) == CloseSlot(old(model), slot)
      ensures Courteous(old(model.slots))
      ensures forall b :: b in fBuffers && b != null ==> b in old(fBuffers)
    {
      hide Linked, SlotsMirror, Unshared, UnmapVirtual, Undisturbed;
      SizeIn(slot);
      Untouched();
      var buffer := fBuffers[slot];
      if buffer.fGTT != null {
        Uncharge(buffer.fSize);
      }
      ghost var released := model;
      status := UnmapSlot(slot);
      if !status.Ok? {
        return;
      }
      UnmappedSlot(released, slot);
      DeleteBuffer(slot, buffer);
    }

    /** fBound -= buffer->Size(). */
    method Uncharge(size: nat)
      requires Linked()
      modifies `model, `fBound
      ensures Linked() && model == old(model).(bound := old(model.bound) - size)
    {
      hide SlotsMirror, Tables, NativeMirrors, Engine, ContextsOf, Pins, Table;
      fBound := fBound - size;
      model := model.(bound := fBound);
    }

    /** Unmapping a buffer leaves it unmapped, and otherwise as it was. */
    lemma UnmappedSlot(s: Client, i: nat)
      requires i < |s.slots| && s.slots[i].Some? && Unshared(s.slots) && UnmapVirtual(s, i).1.Ok?
      ensures var t := UnmapVirtual(s, i).0;
              && t.slots[i] == Some(s.slots[i].value.(virt := t.slots[i].value.virt)) && Unshared(t.slots)
              && (forall c, d :: Undisturbed(c, d, t.slots) ==> Undisturbed(c, d, s.slots))
              && (s.render.Some? ==> t.slots[i].value.virt == 0)
              && t.render.Some? == s.render.Some?
    {
      hide G.Bound, Strangers;
      var t := UnmapVirtual(s, i).0;
      forall c, d | Undisturbed(c, d, t.slots)
        ensures Undisturbed(c, d, s.slots)
      {
        assert forall held: seq<int> :: Strangers(t.slots, held) == Strangers(s.slots, held) by {
          SameStrangers(s.slots, t.slots);
        }
      }
    }

    lemma SameStrangers(a: Slots, b: Slots)
      requires |a| == |b| && forall i :: 0 <= i < |a| ==> SamePages(a[i], b[i])
      ensures forall held: seq<int> :: Strangers(a, held) == Strangers(b, held)
    {}

    /** `delete buffer`: the run first, then the memory, and the slot is free. */
    method DeleteBuffer(slot: nat, buffer: BufferObject)
      requires Linked() && Unshared(model.slots) && slot < |model.slots| && model.slots[slot].Some?
      requires slot < MAX_BUFFERS && slot < |fBuffers| && fBuffers[slot] == buffer
      requires model.render.Some? ==> model.slots[slot].value.virt == 0
      modifies `model, `fAllocated, `fBuffers, `fHandles, buffer
      modifies if fGTT != null then {fGTT, fGTT.fEntries, fGTT.fUsed} else {}
      ensures Linked()
      ensures model == old(model).(slots := old(model.slots)[slot := None],
                                   charged := old(model.charged) - old(model.slots)[slot].value.size)
      ensures Courteous(old(model.slots))
      ensures forall b :: b in fBuffers && b != null ==> b in old(fBuffers)
    {
      hide Linked, SlotsMirror, Unshared, Undisturbed, Tables, Engine, ContextsOf, Sound, Pins, Table,
           PageTables.Memory, BackingOf;
      Unlink();
      SizeAt(slot);
      MirrorAt(slot);
      TakeOut(slot, buffer);
      fAllocated := fAllocated - buffer.fSize;
      model := model.(slots := model.slots[slot := None], charged := fAllocated);
      Relink();
    }

    /** The buffer's destructor, and its slot. */
    method TakeOut(slot: nat, buffer: BufferObject)
      requires SlotsMirror(model.slots) && Pins() && Table() && Unshared(model.slots)
      requires slot < MAX_BUFFERS && slot < |fBuffers| && fBuffers[slot] == buffer
      requires slot < |model.slots| && model.slots[slot].Some? && AddressOf(slot) == 0
      modifies `fBuffers, `fHandles, buffer
      modifies if fGTT != null then {fGTT, fGTT.fEntries, fGTT.fUsed} else {}
      ensures SlotsMirror(model.slots[slot := None]) && Pins() && Table() && buffer.fSize == old(buffer.fSize)
      ensures Courteous(model.slots)
      ensures forall b :: b in fBuffers && b != null ==> b in old(fBuffers)
    {
      hide SlotsMirror, Unshared, Undisturbed, Pins, Table;
      Untouched();
      ghost var slots := model.slots;
      if buffer.fGTT != null {
        Placing(buffer);
        slots := Placed(model.slots, slot, None);
        var _ := Unpin(slot, buffer, model.slots);
      }
      EmptySlot(slot, slots);
      assert slots[slot := None] == model.slots[slot := None];
    }

    method EmptySlot(slot: nat, ghost slots: Slots)
      requires SlotsMirror(slots) && Pins() && slot < MAX_BUFFERS && slot < |slots| && AddressOf(slot) == 0
      modifies `fBuffers, `fHandles
      ensures SlotsMirror(slots[slot := None]) && Pins()
      ensures forall b :: b in fBuffers && b != null ==> b in old(fBuffers)
    {
      fBuffers := fBuffers[slot := null];
      fHandles := fHandles[slot := 0];
      ghost var rest := slots[slot := None];
      forall i | 0 <= i < MAX_BUFFERS
        ensures Mirrors(rest, i)
      {
        assert old(Mirrors(slots, i));
      }
    }

    /** _UnmapVirtual. */
    method UnmapSlot(slot: nat) returns (status: Status)
      requires Linked() && slot < |model.slots| && model.slots[slot].Some?
      modifies `model
      modifies (if fNative != null then {fNative} else {})`addresses
      modifies if fNative != null then {fNative.vm, fNative.vm.fEntries} else {}
      ensures Linked() && (model, status) == UnmapVirtual(old(model), slot)
    {
      hide Linked, Tables, SlotsMirror, Pins, Table, Engine, ContextsOf, Sound, PageTables.Valid, PageTables.Memory,
           Without, BackingOf;
      Unlink();
      SizeAt(slot);
      MirrorAt(slot);
      if fNative == null {
        return Ok;
      }
      if fNative.addresses[slot] != 0 {
        TablesValid();
        status := fNative.vm.Unmap(fNative.addresses[slot], fBuffers[slot].fSize);
        MemoryStays(fNative.vm);
        model := model.(render := Some(model.render.value.(mapped := fNative.vm.mapped)));
        Relink();
        if !status.Ok? {
          return;
        }
        Address(slot, 0);
      }
      status := Ok;
    }

    twostate lemma MemoryStays(vm: PageTables)
      requires vm.fTables == old(vm.fTables) && vm.fScratchPage == old(vm.fScratchPage)
      ensures vm.Memory() == old(vm.Memory())
    {}

    method SetAddress(native: NativeState, slot: nat, address: uint64)
      requires SlotsMirror(model.slots) && native == fNative && slot < |model.slots| && model.slots[slot].Some?
      requires |native.addresses| == MAX_BUFFERS
      modifies native`addresses
      ensures SlotsMirror(model.slots[slot := Some(model.slots[slot].value.(virt := address))])
      ensures |native.addresses| == MAX_BUFFERS
    {
      native.addresses := native.addresses[slot := address];
      ghost var slots := model.slots[slot := Some(model.slots[slot].value.(virt := address))];
      forall i | 0 <= i < MAX_BUFFERS
        ensures Mirrors(slots, i)
      {
        assert old(Mirrors(model.slots, i));
      }
    }

    lemma MirrorAt(slot: nat)
      requires SlotsMirror(model.slots) && slot < MAX_BUFFERS
      ensures Mirrors(model.slots, slot)
    {}

    lemma TablesValid()
      requires Tables() && fNative != null
      ensures fNative.vm.Valid() && fNative.vm.IsValid()
    {}

    // -------------------------------------------------------- the native state

    /** The native state, made on first use. */
    method EnsureNative(w: World) returns (status: Status)
      requires Linked()
      modifies `fNative, `model
      ensures Linked()
      ensures old(fNative) != null ==> status.Ok? && fNative == old(fNative) && model == old(model)
      ensures old(fNative) == null && status.Ok? ==>
        && fNative != null && fresh(fNative) && fresh(fNative.vm) && fresh(fNative.vm.fEntries)
        && (forall c :: c in fNative.contexts ==> c == null)
        && model == old(model).(render := Some(NewNative(fNative.vm.Memory())))
      ensures !status.Ok? ==> fNative == old(fNative) && model == old(model)
      ensures w.scratch.Found? && w.plenty ==> status.Ok?
    {
      hide Linked, SlotsMirror, Pins, Table, Engine, PageTables.Valid, PageTables.Tracks, PageTables.Memory;
      if fNative != null {
        return Ok;
      }
      Unlink();
      var native := new NativeState();
      status := native.vm.Init(w.scratch, w.plenty);
      if !status.Ok? {
        Relink();
        return;
      }
      Adopt(native);
      model := model.(render := Some(NewNative(native.vm.Memory())));
      assert native.ids == model.render.value.contexts && BackingOf(native.contexts) == model.render.value.backing;
      Relink();
    }

    /** fNative, holding nothing yet. */
    method Adopt(native: NativeState)
      requires SlotsMirror(model.slots) && fNative == null && native.addresses == seq(MAX_BUFFERS, _ => 0)
      requires native.vm.Valid()
      modifies `fNative
      ensures fNative == native && SlotsMirror(model.slots) && Tables()
    {
      hide PageTables.Valid;
      fNative := native;
      forall i | 0 <= i < MAX_BUFFERS
        ensures Mirrors(model.slots, i)
      {
        assert old(Mirrors(model.slots, i));
      }
    }

    /** Whether a range of the client's address space meets another binding. */
    method AnyOverlap(address: uint64, size: uint64) returns (clash: bool)
      requires SlotsMirror(model.slots) && fNative != null && |fNative.addresses| == MAX_BUFFERS
      ensures clash <==> AnyClash(model.slots, address, size)
    {
      clash := false;
      for i := 0 to MAX_BUFFERS
        invariant forall j :: 0 <= j < i ==> !Clashes(model.slots[j], address, size)
      {
        assert Mirrors(model.slots, i);
        var other := fNative.addresses[i];
        if other != 0 && address < other + fBuffers[i].fSize && other < address + size {
          assert Clashes(model.slots[i], address, size);
          return true;
        }
      }
    }

    method BindVirtual(op: Op, w: World) returns (status: Status, ghost o: Outcome)
      requires Valid() && op.BindVirtual? && fNative != null && model.render.Some?
      modifies `model, fNative`addresses, fNative.vm, fNative.vm.fEntries
      ensures Linked() && (model, status) == BindVirt(old(model), old(model.render.value), op, o)
      ensures !o.launched && Copied(o, w) && o.setup.Ok?
      ensures CanMap(old(model), op.handle, w.lookups) ==> o.vm.Ok? || fNative.vm.Short(w.plenty)
    {
      hide Inv, Linked, SlotsMirror, AnyClash, With, Without;
      o := CALM;
      Unlink();
      status := w.read;
      o := o.(read := status);
      if !status.Ok? {
        return;
      }
      if op.flags != 0 || op.handle == 0 || op.address == 0 || op.address >= VIRTUAL_LIMIT
         || op.address % PAGE_SIZE != 0 {
        return BadValue, o;
      }
      var slot := Find(op.handle);
      if slot == MAX_BUFFERS {
        return EntryNotFound, o;
      }
      var buffer := fBuffers[slot];
      if buffer.fSize > VIRTUAL_LIMIT - op.address {
        return BadValue, o;
      }
      if fNative.addresses[slot] == op.address {
        return Ok, o;
      }
      if fNative.addresses[slot] != 0 || buffer.fGTT != null {
        return Busy, o;
      }
      var clash := AnyOverlap(op.address, buffer.fSize);
      if clash {
        return Busy, o;
      }
      ghost var mapped, memory;
      status, mapped, memory := MapBuffer(slot, op.address, w);
      o := o.(vm := status, mapped := mapped, memory := memory);
    }

    /** Map, and on failure Unmap of the whole range. */
    method MapBuffer(slot: nat, address: uint64, w: World)
      returns (status: Status, ghost mapped: nat, ghost memory: set<int>)
      requires Linked() && fNative != null && model.render.Some? && slot < |model.slots| && model.slots[slot].Some?
      requires address % PAGE_SIZE == 0 && address < VIRTUAL_LIMIT
               && model.slots[slot].value.size <= VIRTUAL_LIMIT - address
      modifies `model, fNative`addresses, fNative.vm, fNative.vm.fEntries
      ensures Linked() && old(model).render.Some?
      ensures var b := old(model.slots)[slot].value;
              Mappable(b.size, b.pages, w.lookups) ==> status.Ok? || fNative.vm.Short(w.plenty)
      ensures var n, b, first := old(model.render.value), old(model.slots)[slot].value, address / PAGE_SIZE;
              var m := n.(mapped := Mapped(n.mapped, first, b.pages, b.size, status, mapped),
                          tables := n.tables + memory);
              model == if status.Ok?
                then old(model).(render := Some(m), slots := old(model.slots)[slot := Some(b.(virt := address))])
                else old(model).(render := Some(m))
    {
      hide Linked, Tables, SlotsMirror, Pins, Table, Engine, ContextsOf, Sound, PageTables.Valid, PageTables.Memory,
           Mapped, BackingOf;
      Unlink();
      SizeAt(slot);
      MirrorAt(slot);
      TablesValid();
      var buffer := fBuffers[slot];
      WholeAt(buffer);
      status, mapped := MapOrUndo(fNative.vm, buffer, address, w);
      memory := fNative.vm.Memory();
      ghost var n := model.render.value.(mapped := fNative.vm.mapped, tables := memory);
      assert model.render.value.tables + memory == memory;
      model := model.(render := Some(n));
      Relink();
      if status.Ok? {
        Address(slot, address);
      }
    }

    /** fNative->addresses[slot] = address. */
    method Address(slot: nat, address: uint64)
      requires Linked() && fNative != null && slot < |model.slots| && model.slots[slot].Some?
      modifies `model, fNative`addresses
      ensures Linked()
      ensures model == old(model).(slots :=
              old(model.slots)[slot := Some(old(model.slots)[slot].value.(virt := address))])
    {
      hide Linked, Tables, SlotsMirror, Pins, Table, Engine, ContextsOf, Sound, PageTables.Memory, BackingOf;
      Unlink();
      SetAddress(fNative, slot, address);
      model := model.(slots := model.slots[slot := Some(model.slots[slot].value.(virt := address))]);
      Relink();
    }

    lemma HasPages(buffer: BufferObject)
      requires Pins() && buffer in fBuffers
      ensures buffer.pages != []
    {
      assert exists i :: 0 <= i < |fBuffers| && fBuffers[i] == buffer && buffer.Pinned();
    }

    lemma WholeAt(buffer: BufferObject)
      requires Pins() && buffer in fBuffers
      ensures buffer.Whole()
    {
      assert exists i :: 0 <= i < |fBuffers| && fBuffers[i] == buffer && buffer.Pinned();
    }

    method UnbindVirtual(op: Op, w: World) returns (status: Status, ghost o: Outcome)
      requires Valid() && op.UnbindVirtual? && fNative != null && model.render.Some?
      modifies `model, fNative`addresses, fNative.vm, fNative.vm.fEntries
      ensures Linked() && (model, status) == UnbindVirt(old(model), old(model.render.value), op, o)
      ensures !o.launched && Copied(o, w) && o.setup.Ok?
    {
      hide Inv, Linked, SlotsMirror, UnmapVirtual;
      o := CALM;
      Unlink();
      status := w.read;
      o := o.(read := status);
      if !status.Ok? {
        return;
      }
      if op.reserved != 0 || op.handle == 0 {
        return BadValue, o;
      }
      var slot := Find(op.handle);
      if slot == MAX_BUFFERS {
        return EntryNotFound, o;
      }
      status := UnmapSlot(slot);
    }

    method WaitRenderFence(op: Op, w: World) returns (status: Status, ghost o: Outcome)
      requires Valid() && op.WaitRenderFence? && fNative != null && model.render.Some?
      ensures (model, status) == WaitFence(model, model.render.value, op, o)
      ensures status.Ok? <==> w.read.Ok? && 1 <= op.fence <= fNative.completed && op.timeout <= 10_000_000
      ensures !o.launched && Copied(o, w) && o.setup.Ok?
    {
      hide Inv, SlotsMirror, Pins, Table, Tables, Engine, ContextsOf;
      o := CALM;
      status := w.read;
      o := o.(read := status);
      if !status.Ok? {
        return;
      }
      if op.fence == 0 || op.fence > fNative.completed || op.timeout > 10_000_000 {
        return BadValue, o;
      }
      status := Ok;
    }

    // ----------------------------------------------------------- the contexts

    /** `new RenderEngine` and InitClient, on this engine and against the client's
        tables; where the GTT puts its buffers, or that it does not, is not up
        to the driver. */
    method InitContext(vm: PageTables, w: World) returns (status: Status, engine: E.RenderEngine?)
      requires Engine() && vm.Valid()
      ensures status == w.context
      ensures status.Ok? ==>
        && engine != null && engine.fReady
        && fresh(engine) && engine.fAddressSpace == vm && engine.fScheduler == fScheduler
        && engine.fRing.Length == RING_DWORDS && engine.RingSize() == 16 * 1024
        && engine.fPipe && engine.Valid() && !engine.fFaulted
      ensures status.Ok? ==> fresh(engine.fRing)
    {
      hide E.RenderEngine.Shape, PageTables.Valid;
      status, engine := w.context, null;
      if status.Ok? {
        var memory: set<int> := *;
        var context: nat, fencePage: nat, statusPage: nat, ring: nat, device: nat, revision: nat :|
          && context % PAGE_SIZE == 0 && fencePage % PAGE_SIZE == 0
          && context < 0x1_0000_0000 && fencePage < 0x1_0000_0000 && ring < 0x1_0000_0000;
        engine := new E.RenderEngine(fScheduler, vm, true, device, revision, context, fencePage, statusPage,
                                     ring, RING_DWORDS, memory);
      }
    }

    method CreateContext(op: Op, w: World) returns (status: Status, ghost o: Outcome)
      requires Valid() && op.CreateContext? && fNative != null && model.render.Some?
      modifies `model, fNative`nextContext, fNative`contexts, fNative`ids
      ensures Linked() && (model, status) == NewContext(old(model), old(model.render.value), op, o)
      ensures !o.launched && Copied(o, w) && o.setup.Ok? && (w.context.Ok? ==> o.resource.Ok?)
      ensures forall c :: c in fNative.contexts && c != null ==>
                c in old(fNative.contexts) || (fresh(c) && fresh(c.fRing))
    {
      hide Inv, Linked, SlotsMirror, Pins, Table, Tables, Engine, ContextsOf, PageTables.Valid, E.RenderEngine.Valid;
      o := CALM;
      Unlink();
      TablesValid();
      status := w.read;
      o := o.(read := status);
      if !status.Ok? {
        return;
      }
      if op.context != 0 || op.flags != 0 {
        return BadValue, o;
      }
      var slot := FreeContext(fNative);
      if slot == MAX_CONTEXTS || fNative.nextContext == 0 {
        return NoMemory, o;
      }
      var engine;
      status, engine := InitContext(fNative.vm, w);
      o := o.(resource := status);
      if !status.Ok? {
        return;
      }
      status := StartContext(slot, engine, w);
      o := o.(copy := status, memory := engine.fMemory);
    }

    method FreeContext(native: NativeState) returns (slot: nat)
      requires ContextsOf(native)
      ensures slot == FirstZero(native.ids) && |native.ids| == MAX_CONTEXTS
    {
      hide E.RenderEngine.Valid;
      slot := 0;
      while slot < MAX_CONTEXTS && native.contexts[slot] != null
        invariant slot <= MAX_CONTEXTS && forall j :: 0 <= j < slot ==> native.ids[j] != 0
      {
        slot := slot + 1;
      }
      assert FirstZero(native.ids) == slot;
    }

    /** The new context's id, and its slot once the id is out. */
    method StartContext(slot: nat, engine: E.RenderEngine, w: World) returns (status: Status)
      requires Linked() && fNative != null && model.render.Some? && slot == FirstZero(fNative.ids) < MAX_CONTEXTS
      requires fNative.nextContext != 0 && engine !in fNative.contexts && !engine.fFaulted
      requires engine.fAddressSpace == fNative.vm && engine.fScheduler == fScheduler
      requires engine.fRing.Length == RING_DWORDS && engine.fPipe && engine.Valid() && engine.fReady
      modifies `model, fNative`nextContext, fNative`contexts, fNative`ids
      ensures Linked() && status == w.copy
      ensures var n := old(model.render.value);
              var m := n.(nextContext := (n.nextContext + 1) % 0x1_0000_0000);
              && slot < |n.contexts|
              && model == old(model).(render :=
                   Some(if !status.Ok? then m
                     else m.(contexts := n.contexts[slot := n.nextContext],
                             backing := Backed(n.backing, slot, engine.fMemory))))
      ensures forall c :: c in fNative.contexts ==> c in old(fNative.contexts) || c == engine
    {
      hide Linked, ContextsOf, PageTables.Valid, E.RenderEngine.Valid;
      Unlink();
      FewContexts(fNative);
      var id := fNative.nextContext;
      CountContext();
      status := w.copy;
      if status.Ok? {
        EnterContext(slot, engine, id);
      }
    }

    /** fNative->nextContext++. */
    method CountContext()
      requires Linked() && fNative != null && model.render.Some?
      modifies `model, fNative`nextContext
      ensures Linked() && fNative.contexts == old(fNative.contexts)
      ensures var n := old(model.render.value);
              model == old(model).(render := Some(n.(nextContext := (n.nextContext + 1) % 0x1_0000_0000)))
    {
      hide Linked, SlotsMirror, Pins, Table, Tables, Engine, ContextsOf;
      Unlink();
      fNative.nextContext := (fNative.nextContext + 1) % 0x1_0000_0000;
      model := model.(render := Some(model.render.value.(nextContext := fNative.nextContext)));
      SameSlots(old(model.slots));
      Relink();
    }

    method EnterContext(slot: nat, engine: E.RenderEngine, id: nat)
      requires Linked() && fNative != null && model.render.Some? && slot < MAX_CONTEXTS && id != 0
      requires engine !in fNative.contexts && engine.fAddressSpace == fNative.vm && engine.fScheduler == fScheduler
      requires !engine.fFaulted
      requires engine.fRing.Length == RING_DWORDS && engine.fPipe && engine.Valid() && engine.fReady
      modifies `model, fNative`contexts, fNative`ids
      ensures Linked() && slot < |old(model.render.value.contexts)|
      ensures var n := old(model.render.value);
              model == old(model).(render :=
                Some(n.(contexts := n.contexts[slot := id], backing := Backed(n.backing, slot, engine.fMemory))))
      ensures forall c :: c in fNative.contexts ==> c in old(fNative.contexts) || c == engine
    {
      hide Linked, SlotsMirror, Pins, Table, Tables, Engine, ContextsOf, E.RenderEngine.Valid;
      Unlink();
      FewContexts(fNative);
      AddContext(fNative, slot, engine, id);
      BackingMoves(old(fNative.contexts), slot, engine);
      model := model.(render :=
        Some(model.render.value.(contexts := fNative.ids, backing := BackingOf(fNative.contexts))));
      SameSlots(old(model.slots));
      Relink();
    }

    lemma BackingMoves(contexts: seq<E.RenderEngine?>, slot: nat, engine: E.RenderEngine?)
      requires slot < |contexts|
      ensures BackingOf(contexts[slot := engine]) == Backed(BackingOf(contexts), slot, MemoryOf(engine))
    {}

    lemma FewContexts(native: NativeState)
      requires ContextsOf(native)
      ensures |native.contexts| == |native.ids| == MAX_CONTEXTS
    {}

    method AddContext(native: NativeState, slot: nat, engine: E.RenderEngine, id: nat)
      requires ContextsOf(native) && slot < MAX_CONTEXTS && id != 0 && engine !in native.contexts
      requires engine.Valid() && engine.fAddressSpace == native.vm && engine.fScheduler == fScheduler
      requires engine.fRing.Length == RING_DWORDS && engine.fPipe && Sound(native) && !engine.fFaulted && engine.fReady
      modifies native`contexts, native`ids
      ensures ContextsOf(native) && Sound(native) && native.ids == old(native.ids)[slot := id]
      ensures slot < |old(native.contexts)| && native.contexts == old(native.contexts)[slot := engine]
    {
      hide E.RenderEngine.Valid;
      native.contexts := native.contexts[slot := engine];
      native.ids := native.ids[slot := id];
    }

    method DestroyContext(op: Op, w: World) returns (status: Status, ghost o: Outcome)
      requires Valid() && op.DestroyContext? && fNative != null && model.render.Some?
      modifies `model, fNative`contexts, fNative`ids
      ensures Linked() && (model, status) == DropContext(old(model), old(model.render.value), op, o)
      ensures !o.launched && Copied(o, w) && o.setup.Ok?
      ensures forall c :: c in fNative.contexts && c != null ==> c in old(fNative.contexts)
    {
      hide Inv, Linked, SlotsMirror, Pins, Table, Tables, ContextsOf;
      o := CALM;
      Unlink();
      status := w.read;
      o := o.(read := status);
      if !status.Ok? {
        return;
      }
      if op.context == 0 || op.reserved != 0 {
        return BadValue, o;
      }
      FewContexts(fNative);
      for i := 0 to MAX_CONTEXTS
        invariant forall j :: 0 <= j < i ==> fNative.ids[j] != op.context
        invariant Linked() && model == old(model) && |fNative.ids| == MAX_CONTEXTS && o == CALM.(read := Ok)
      {
        if fNative.ids[i] == op.context {
          assert IdSlot(model.render.value.contexts, op.context) == i by { Unlink(); }
          DeleteContext(i);
          return Ok, o;
        }
      }
      Unlink();
      return EntryNotFound, o;
    }

    /** `delete fNative->contexts[i]`, and the slot is free. */
    method DeleteContext(slot: nat)
      requires Linked() && fNative != null && model.render.Some? && slot < |fNative.ids|
      modifies `model, fNative`contexts, fNative`ids
      ensures Linked() && slot < |old(model.render.value.contexts)|
      ensures model == old(model).(render :=
                Some(old(model.render.value).(contexts := old(model.render.value.contexts)[slot := 0],
                                              backing := Backed(old(model.render.value.backing), slot, {}))))
      ensures forall c :: c in fNative.contexts && c != null ==> c in old(fNative.contexts)
    {
      hide Linked, SlotsMirror, Pins, Table, Tables, ContextsOf;
      Unlink();
      RemoveContext(fNative, slot);
      BackingMoves(old(fNative.contexts), slot, null);
      model := model.(render :=
        Some(model.render.value.(contexts := fNative.ids, backing := BackingOf(fNative.contexts))));
      SameSlots(old(model.slots));
      Relink();
    }

    method RemoveContext(native: NativeState, slot: nat)
      requires ContextsOf(native) && Sound(native) && slot < |native.ids|
      modifies native`contexts, native`ids
      ensures ContextsOf(native) && Sound(native) && native.ids == old(native.ids)[slot := 0]
      ensures slot < |old(native.contexts)| && native.contexts == old(native.contexts)[slot := null]
    {
      hide E.RenderEngine.Valid;
      native.contexts := native.contexts[slot := null];
      native.ids := native.ids[slot := 0];
    }

    /** Nothing but addresses and buffers shows in the slots. */
    twostate lemma SameSlots(slots: Slots)
      requires old(SlotsMirror(slots)) && fBuffers == old(fBuffers) && fHandles == old(fHandles)
               && fNative == old(fNative)
      requires forall b :: b in fBuffers && b != null ==> unchanged(b)
      requires fNative != null ==> fNative.addresses == old(fNative.addresses)
      ensures SlotsMirror(slots)
    {
      forall i | 0 <= i < MAX_BUFFERS
        ensures Mirrors(slots, i)
      {
        assert old(Mirrors(slots, i));
        assert fBuffers[i] in fBuffers;
      }
    }

    // --------------------------------------------------------- submissions

    /** A context of the client that goes by an id. */
    ghost predicate HasId(native: NativeState, engine: E.RenderEngine, id: nat)
      reads native`contexts, native`ids
    {
      exists k :: 0 <= k < |native.contexts| && k < |native.ids| && native.contexts[k] == engine && native.ids[k] == id
    }

    /** There is only one. */
    lemma OneContext(a: E.RenderEngine, b: E.RenderEngine, id: nat)
      requires Valid() && fNative != null && HasId(fNative, a, id) && HasId(fNative, b, id)
      ensures a == b
    {
      hide SlotsMirror, Pins, Table, Tables, Engine, Sound, GoodSlots, Reflects, E.RenderEngine.Valid;
    }

    /** The context of a request, which is the last one with its id. */
    method FindContext(id: nat) returns (engine: E.RenderEngine?)
      requires fNative != null && ContextsOf(fNative) && id != 0
      ensures engine == null <==> IdSlot(fNative.ids, id) == |fNative.ids|
      ensures engine != null ==> engine in fNative.contexts && HasId(fNative, engine, id)
    {
      hide E.RenderEngine.Valid;
      engine := null;
      for i := 0 to MAX_CONTEXTS
        invariant engine == null <==> forall j :: 0 <= j < i ==> fNative.ids[j] != id
        invariant engine != null ==> engine in fNative.contexts && HasId(fNative, engine, id)
      {
        if fNative.ids[i] == id {
          engine := fNative.contexts[i];
        }
      }
    }

    /** The request's buffers: all there, all bound, none named twice, the batch
        among them. */
    method CheckObjects(handles: seq<nat>, count: nat, batch: nat) returns (good: bool)
      requires SlotsMirror(model.slots) && count <= |handles|
      ensures good <==> Resolves(model.slots, handles[..count]) && batch in handles[..count]
    {
      hide SlotsMirror;
      var includesBatch := false;
      for i := 0 to count
        invariant Resolves(model.slots, handles[..i])
        invariant includesBatch <==> batch in handles[..i]
      {
        var slot := Find(handles[i]);
        if slot == MAX_BUFFERS || AddressOf(slot) == 0 {
          Unresolved(model.slots, handles, count, i);
          return false;
        }
        for j := 0 to i
          invariant forall k :: 0 <= k < j ==> handles[k] != handles[i]
        {
          if handles[j] == handles[i] {
            Unresolved(model.slots, handles, count, i);
            return false;
          }
        }
        assert handles[..i + 1] == handles[..i] + [handles[i]];
        includesBatch := includesBatch || handles[i] == batch;
      }
      return includesBatch;
    }

    /** One bad handle is enough. */
    lemma Unresolved(slots: Slots, handles: seq<nat>, count: nat, i: nat)
      requires i < count <= |handles|
      requires SlotOf(slots, handles[i]) == |slots| || slots[SlotOf(slots, handles[i])].value.virt == 0
            || exists j :: 0 <= j < i && handles[j] == handles[i]
      ensures !Resolves(slots, handles[..count])
    {
      assert handles[..count][i] == handles[i];
      if j: int :| 0 <= j < i && handles[j] == handles[i] {
        assert handles[..count][j] == handles[j];
      }
    }

    /** What one write of the port gave the GPU: this context, against its own
        tables, all of them in memory, and a batch to run for its last number. */
    ghost predicate Gave(before: seq<E.Job>, engine: E.RenderEngine, batch: uint64)
      reads fScheduler, engine, engine.fAddressSpace
    {
      && engine.fPipe && engine.fFencePage <= 0x1_0000_0000 - PAGE_SIZE && 1 <= engine.fNextSeqno <= 0x8000_0000
      && |fScheduler.log| == |before| + 1 && fScheduler.log[..|before|] == before
      && var job := fScheduler.log[|before|];
         && job.context == engine.Id() && job.root == engine.fAddressSpace.fRoot && !engine.fAddressSpace.fDirty
         && engine.Performs(job, batch, engine.fNextSeqno - 1)
    }

    /** The context with this id can be submitted to. */
    ghost predicate GoingFor(id: nat)
      requires fNative != null
      reads this, fNative`contexts, fNative`ids, fScheduler, set c | c in fNative.contexts
    {
      forall c: E.RenderEngine :: c in fNative.contexts && HasId(fNative, c, id) ==> Going(c)
    }

    /** The engine has not been given up, and the context has numbers left. */
    predicate Going(engine: E.RenderEngine)
      reads fScheduler, engine`fNextSeqno
    {
      !fScheduler.fFaulted && engine.fNextSeqno < 0x7fff_ffff
    }

    /** context->Submit. */
    method RunBatch(native: NativeState, engine: E.RenderEngine, batch: uint64, length: uint32, awake: bool)
      returns (status: Status)
      requires ContextsOf(native) && Engine() && native.vm.Valid() && engine in native.contexts
      requires OnlyFaulted(native, false)
      modifies engine, engine.fRing, fScheduler, native.vm`memory, native.vm`fDirty
      ensures ContextsOf(native) && Engine() && native.vm.Valid() && OnlyFaulted(native, engine.fFaulted)
      ensures |fScheduler.log| != |old(fScheduler.log)| ==>
        Gave(old(fScheduler.log), engine, batch) && (status.Ok? || status == TimedOut)
      ensures status.Ok? ==> |fScheduler.log| != |old(fScheduler.log)|
      ensures length > 0 && batch % 4 == 0 && awake && old(Going(engine)) ==> |fScheduler.log| != |old(fScheduler.log)|
      ensures engine.fFaulted <==> |fScheduler.log| != |old(fScheduler.log)| && !status.Ok?
      ensures old(fScheduler.fFaulted) ==> fScheduler.fFaulted
    {
      hide E.RenderEngine.Shape, PageTables.Valid, C.RunsBatch, E.RenderEngine.Shows;
      var seqno;
      status, seqno := engine.Submit(batch, length, awake);
      engine.Fence();
    }

    /** What a write of the port during this submission gave the GPU: the batch at
        its address, and page tables in which every byte of it leads to the
        batch buffer's own memory. The context it runs in is the one named. */
    ghost predicate Served(s: Client, op: Op, before: seq<E.Job>)
      requires op.SubmitObjects?
      reads `fNative, fScheduler, if fNative != null then {fNative.vm} else {}
      reads (if fNative != null then {fNative} else {})`contexts, (if fNative != null then {fNative} else {})`ids
      reads if fNative != null then set c | c in fNative.contexts else {}
    {
      && fNative != null && SlotOf(s.slots, op.batch) < |s.slots|
      && var b := s.slots[SlotOf(s.slots, op.batch)].value;
         && b.virt + op.offset < 0x1_0000_0000_0000_0000
         && (exists engine: E.RenderEngine :: engine in fNative.contexts && HasId(fNative, engine, op.context)
               && engine.fAddressSpace == fNative.vm && Gave(before, engine, b.virt + op.offset))
         && forall at :: op.offset <= at < op.offset + op.length ==> ReadsAt(fNative.vm, b, at)
    }

    /** What that means for the GPU, whatever translations it had cached from other
        work: as it starts the batch it finds every byte of it in the batch
        buffer's memory. */
    lemma BatchFinds(s: Client, op: Op, before: seq<E.Job>, caches: seq<map<nat, int>>, b: nat, at: nat)
      requires op.SubmitObjects? && Served(s, op, before) && op.offset <= at < op.offset + op.length
      requires |fScheduler.log| == |before| + 1 && fScheduler.log[|before|].commands.Some?
      requires var cs := fScheduler.log[|before|].commands.value;
               E.Caching(cs, caches, fNative.vm) && b < |cs| && cs[b].BatchStart?
      ensures var batch := s.slots[SlotOf(s.slots, op.batch)].value;
              && fScheduler.log[|before|].commands.value[b] == C.BatchStart(batch.virt + op.offset)
              && at / PAGE_SIZE < |batch.pages|
              && E.GoesTo(caches[b], fNative.vm, (batch.virt + at) / PAGE_SIZE, batch.pages[at / PAGE_SIZE])
    {
      hide C.Clean, C.RunsBatch, E.Caching, E.GoesTo, PageTables.Reads;
      var batch := s.slots[SlotOf(s.slots, op.batch)].value;
      assert ReadsAt(fNative.vm, batch, at);
      var engine: E.RenderEngine :| engine in fNative.contexts && Gave(before, engine, batch.virt + op.offset);
      GaveClean(before, engine, batch.virt + op.offset);
      E.BatchTranslates(fScheduler.log[|before|].commands.value, caches, fNative.vm, b,
                        (batch.virt + at) / PAGE_SIZE, batch.pages[at / PAGE_SIZE]);
    }

    lemma GaveClean(before: seq<E.Job>, engine: E.RenderEngine, batch: uint64)
      requires Gave(before, engine, batch)
      ensures var cs := fScheduler.log[|before|].commands;
              && cs.Some? && C.Clean(cs.value)
              && forall k :: 0 <= k < |cs.value| && cs.value[k].BatchStart? ==> cs.value[k] == C.BatchStart(batch)
    {
      hide C.Clean, C.RunsBatch;
      C.RunsClean(fScheduler.log[|before|].commands.value, engine.fDevice, engine.fRevision, batch,
                  engine.FenceSlot(), engine.fNextSeqno - 1);
    }

    ghost predicate ReadsAt(vm: PageTables, b: Buffer, at: nat)
      reads vm
    {
      at / PAGE_SIZE < |b.pages| && vm.Reads((b.virt + at) / PAGE_SIZE, b.pages[at / PAGE_SIZE])
    }

    method SubmitObjects(op: Op, w: World) returns (status: Status, ghost o: Outcome)
      requires Valid() && op.SubmitObjects? && fNative != null && model.render.Some? && !Faulted(model)
      modifies `model, fNative`completed, fNative`faulted, fScheduler, fNative.vm`memory, fNative.vm`fDirty
      modifies set c | c in fNative.contexts, set c: E.RenderEngine | c in fNative.contexts :: c.fRing
      ensures Linked() && (model, status) == Submit(old(model), old(model.render.value), op, o)
      ensures |fScheduler.log| != |old(fScheduler.log)| ==> Served(old(model), op, old(fScheduler.log))
      ensures o.launched <==> |fScheduler.log| != |old(fScheduler.log)|
      ensures o.launched && !o.resource.Ok? ==> Faulted(model)
      ensures old(fScheduler.fFaulted) ==> fScheduler.fFaulted
      ensures o.read.Ok? && SubmitCheck(old(model), old(model.render.value), op).Ok? ==>
        o.resource.Ok? || (w.awake && old(GoingFor(op.context))) ==> o.launched
      ensures Copied(o, w) && o.setup.Ok?
      ensures Spared(op)
    {
      hide Linked, Inv, Served, SubmitCheck, HasId;
      o := CALM;
      status := w.read;
      o := o.(read := status);
      if !status.Ok? {
        return;
      }
      var engine, slot;
      status, engine, slot := CheckSubmit(op);
      if !status.Ok? {
        return;
      }
      status, o := SubmitChecked(op, engine, slot, w, o);
    }

    /** Everything a submission has to satisfy before its context runs it. */
    method CheckSubmit(op: Op) returns (check: Status, engine: E.RenderEngine?, slot: nat)
      requires Linked() && op.SubmitObjects? && fNative != null && model.render.Some?
      ensures check == SubmitCheck(model, model.render.value, op)
      ensures check.Ok? ==>
        && engine != null && engine in fNative.contexts && HasId(fNative, engine, op.context)
        && slot == SlotOf(model.slots, op.batch) < MAX_BUFFERS
    {
      hide Linked, SlotsMirror, Pins, Table, Tables, Engine, ContextsOf, Resolves;
      Unlink();
      engine, slot := null, 0;
      if op.flags != 0 || op.fence != 0 || op.context == 0 || op.count == 0 || op.count > MAX_BUFFERS
         || op.count > |op.handles| || op.length == 0 || op.offset % 8 != 0 || op.length % 4 != 0 {
        return BadValue, engine, slot;
      }
      engine := FindContext(op.context);
      if engine == null {
        return EntryNotFound, engine, slot;
      }
      slot := Find(op.batch);
      if slot == MAX_BUFFERS {
        return EntryNotFound, engine, slot;
      }
      if op.offset >= fBuffers[slot].fSize || op.length > fBuffers[slot].fSize - op.offset {
        return BadValue, engine, slot;
      }
      var good := CheckObjects(op.handles, op.count, op.batch);
      check := if good then Ok else BadValue;
    }

    /** Submit to the context, and what the client keeps of the outcome. */
    method SubmitChecked(op: Op, engine: E.RenderEngine, slot: nat, w: World, ghost calm: Outcome)
      returns (status: Status, ghost o: Outcome)
      requires Valid() && op.SubmitObjects? && fNative != null && model.render.Some? && engine in fNative.contexts
      requires SubmitCheck(model, model.render.value, op).Ok? && slot == SlotOf(model.slots, op.batch) < MAX_BUFFERS
      requires calm.resource.Ok? && !Faulted(model) && HasId(fNative, engine, op.context)
      modifies `model, fNative`completed, fNative`faulted, fScheduler, engine, engine.fRing, fNative.vm`memory,
               fNative.vm`fDirty
      ensures Linked() && o == calm.(resource := o.resource, launched := o.launched, copy := o.copy)
      ensures var n := old(model.render.value);
              model == old(model).(render := Some(
                if o.resource.Ok? then n.(completed := n.completed + 1) else n.(faulted := o.launched)))
      ensures status == if o.resource.Ok? then o.copy else o.resource
      ensures |fScheduler.log| != |old(fScheduler.log)| ==> Served(old(model), op, old(fScheduler.log))
      ensures o.launched <==> |fScheduler.log| != |old(fScheduler.log)|
      ensures o.resource.Ok? || (w.awake && old(Going(engine))) ==> o.launched
      ensures w.copy.Ok? && calm.copy.Ok? ==> o.copy.Ok?
      ensures old(fScheduler.fFaulted) ==> fScheduler.fFaulted
    {
      hide Linked, Inv, SlotsMirror, Pins, Table, Tables, NativeMirrors, Engine, ContextsOf, SubmitCheck, Served;
      o := calm;
      status := RunObjects(op, engine, slot, w);
      o := o.(resource := status, launched := |fScheduler.log| != |old(fScheduler.log)|);
      Count(status, engine.fFaulted);
      if status.Ok? {
        status := w.copy;
        o := o.(copy := status);
      }
    }

    /** Let the context run the batch, at the address the buffer is bound at. */
    method RunObjects(op: Op, engine: E.RenderEngine, slot: nat, w: World) returns (status: Status)
      requires Valid() && op.SubmitObjects? && fNative != null && model.render.Some? && engine in fNative.contexts
      requires SubmitCheck(model, model.render.value, op).Ok? && slot == SlotOf(model.slots, op.batch) < MAX_BUFFERS
      requires !Faulted(model) && HasId(fNative, engine, op.context)
      modifies fScheduler, engine, engine.fRing, fNative.vm`memory, fNative.vm`fDirty
      ensures SlotsMirror(model.slots) && Numbers() && Pins() && Table() && Tables()
      ensures NativeMirrors(model.render) && Engine() && ContextsOf(fNative)
      ensures |fScheduler.log| != |old(fScheduler.log)| ==> Served(model, op, old(fScheduler.log))
      ensures status.Ok? || (w.awake && old(Going(engine))) ==> |fScheduler.log| != |old(fScheduler.log)|
      ensures engine.fFaulted <==> |fScheduler.log| != |old(fScheduler.log)| && !status.Ok?
      ensures OnlyFaulted(fNative, engine.fFaulted)
      ensures old(fScheduler.fFaulted) ==> fScheduler.fFaulted
    {
      hide Linked, Inv, SlotsMirror, Pins, Table, Tables, Engine, ContextsOf, SubmitCheck, PageTables.Valid,
           C.RunsBatch;
      Unlink();
      TablesValid();
      R.SubmitReaches(model, model.render.value, op);
      SizeAt(slot);
      AddressAt(slot, op);
      ghost var b := model.slots[slot].value;
      ghost var m := fNative.vm.mapped;
      var address := fNative.addresses[slot] + op.offset;
      status := RunBatch(fNative, engine, address, op.length, w.awake);
      ValidTables();
      if |fScheduler.log| != |old(fScheduler.log)| {
        BatchReads(fNative.vm, b, m, op.offset, op.length);
      }
    }

    lemma ValidTables()
      requires fNative != null && fNative.vm.Valid()
      ensures Tables()
    {}

    /** The client's side of a submission's outcome: one more fence, or the
        context's fault. */
    method Count(status: Status, faulted: bool)
      requires SlotsMirror(model.slots) && Numbers() && Pins() && Table() && Tables()
      requires NativeMirrors(model.render) && Engine() && fNative != null && ContextsOf(fNative)
      requires OnlyFaulted(fNative, faulted) && (status.Ok? ==> !faulted)
      modifies `model, fNative`completed, fNative`faulted
      ensures Linked() && old(model).render.Some?
      ensures var n := old(model.render.value);
              model == old(model).(render :=
                Some(if status.Ok? then n.(completed := n.completed + 1) else n.(faulted := faulted)))
    {
      hide Linked, SlotsMirror, Pins, Table, Tables, Engine, ContextsOf;
      if status.Ok? {
        fNative.completed := fNative.completed + 1;
      } else {
        fNative.faulted := faulted;
      }
      model := model.(render := Some(model.render.value.(completed := fNative.completed, faulted := fNative.faulted)));
      SameSlots(old(model.slots));
      Relink();
    }

    lemma AddressAt(slot: nat, op: Op)
      requires SlotsMirror(model.slots) && slot < MAX_BUFFERS && op.SubmitObjects? && Inv(model)
      requires model.render.Some? && NativeMirrors(model.render) && SubmitCheck(model, model.render.value, op).Ok?
      requires slot == SlotOf(model.slots, op.batch)
      ensures fNative != null && slot < |model.slots| && slot < |fNative.addresses|
      ensures model.slots[slot].Some? && fNative.addresses[slot] == model.slots[slot].value.virt
      ensures (fNative.addresses[slot] + op.offset) % 4 == 0 && 0 < op.length < 0x1_0000_0000
      ensures fNative.addresses[slot] + op.offset < 0x1_0000_0000_0000_0000
    {
      hide Inv, Resolves;
      assert Mirrors(model.slots, slot);
      GoodAt(model, slot);
      FourAligned(fNative.addresses[slot], op.offset);
    }

    lemma FourAligned(address: nat, offset: nat)
      requires address % PAGE_SIZE == 0 && offset % 8 == 0
      ensures (address + offset) % 4 == 0
    {
      var fours := address / PAGE_SIZE * 1024 + offset / 8 * 2;
      assert address + offset == fours * 4 + 0;
      Parts(fours, 4, 0);
    }

    /** With the tables flushed, the GPU's walk is the flat map's. */
    lemma BatchReads(vm: PageTables, b: Buffer, m: map<nat, int>, offset: nat, length: nat)
      requires vm.Valid() && !vm.fDirty && vm.mapped == m
      requires forall at :: offset <= at < offset + length ==> R.Lands(b, m, at)
      ensures forall at :: offset <= at < offset + length ==> ReadsAt(vm, b, at)
    {
      hide PageTables.Valid;
      forall at | offset <= at < offset + length
        ensures ReadsAt(vm, b, at)
      {
        var page := (b.virt + at) / PAGE_SIZE;
        assert R.Lands(b, m, at);
        MappedInRange(vm, page);
        vm.GpuSees(page);
      }
    }

    lemma MappedInRange(vm: PageTables, page: nat)
      requires vm.Valid() && page in vm.mapped
      ensures page < PAGE_LIMIT
    {}

    // ------------------------------------------------------------- the ioctl

    /** Read-only requests. */
    method Inform(w: World) returns (status: Status, ghost o: Outcome)
      ensures status == if w.read.Ok? then w.copy else w.read
      ensures status == (if o.read.Ok? then o.copy else o.read) && o == CALM.(read := o.read, copy := o.copy)
      ensures Copied(o, w)
    {
      o := CALM;
      status := w.read;
      o := o.(read := status);
      if status.Ok? {
        status := w.copy;
        o := o.(copy := status);
      }
    }

    /** _NativeIoctl's cases do not look at how the native state came about. */
    lemma SetupApart(s: Client, n: Native, op: Op, o: Outcome, tables: set<int>)
      requires IsNative(op)
      ensures NativeCase(s, n, op, o) == NativeCase(s, n, op, o.(setup := Ok, tables := tables))
    {
      hide With, Without, AnyClash, SubmitCheck, UnmapVirtual, SlotOf, FirstZero, IdSlot, RoundUp;
    }

    method NativeSwitch(op: Op, w: World) returns (status: Status, ghost o: Outcome)
      requires Valid() && IsNative(op) && fNative != null && model.render.Some? && !Faulted(model)
      modifies `model, fNative, fScheduler, fNative.vm, fNative.vm.fEntries
      modifies set c | c in fNative.contexts, set c: E.RenderEngine | c in fNative.contexts :: c.fRing
      ensures Linked() && (model, status) == NativeCase(old(model), old(model.render.value), op, o)
      ensures |fScheduler.log| != |old(fScheduler.log)| ==>
        op.SubmitObjects? && Served(old(model), op, old(fScheduler.log))
      ensures o.launched <==> |fScheduler.log| != |old(fScheduler.log)|
      ensures o.launched && !o.resource.Ok? ==> Faulted(model)
      ensures old(fScheduler.fFaulted) ==> fScheduler.fFaulted
      ensures op.SubmitObjects? && o.read.Ok? && o.resource.Ok? ==>
        SubmitCheck(old(model), old(model.render.value), op).Ok? ==> o.launched
      ensures NativeFair(op, o, w)
      ensures forall c :: c in fNative.contexts && c != null ==>
                c in old(fNative.contexts) || (fresh(c) && fresh(c.fRing))
      ensures Spared(op)
    {
      hide Inv, Linked, Served, SubmitCheck, NewContext, DropContext, BindVirt, UnbindVirt, Submit, WaitFence;
      if op.CreateContext? {
        status, o := CreateContext(op, w);
      } else if op.DestroyContext? {
        status, o := DestroyContext(op, w);
      } else if op.BindVirtual? {
        status, o := BindVirtual(op, w);
      } else if op.UnbindVirtual? {
        status, o := UnbindVirtual(op, w);
      } else if op.SubmitObjects? {
        status, o := SubmitObjects(op, w);
      } else {
        status, o := WaitRenderFence(op, w);
      }
    }

    /** What the world did not stand in the way of went through, for the native
        requests. */
    twostate predicate NativeFair(op: Op, o: Outcome, w: World)
      reads *
    {
      && Copied(o, w) && (w.scratch.Found? && w.plenty ==> o.setup.Ok?)
      && (op.CreateContext? && w.context.Ok? ==> o.resource.Ok?)
      && (op.BindVirtual? && fNative != null && CanMap(old(model), op.handle, w.lookups) ==>
            o.vm.Ok? || fNative.vm.Short(w.plenty))
      && (op.SubmitObjects? && o.read.Ok? && old(fNative) != null && old(model.render.Some? && model.capable) ==>
            SubmitCheck(old(model), old(model.render.value), op).Ok? && w.awake && old(GoingFor(op.context)) ==>
              o.launched)
    }

    /** And for the others. */
    twostate predicate BufferFair(op: Op, o: Outcome, w: World, taken: set<int>)
      reads *
    {
      && Copied(o, w)
      && (op.CreateBuffer? && w.memory.Ok? && Given(w.pages, RoundUp(op.size), old(Live()) + taken) ==>
            o.resource.Ok?)
      && (op.BindBuffer? ==>
            && (w.legacy.Ok? ==> o.setup.Ok?)
            && (fGTT != null && RoomFor(old(model), op.handle, w.maps, old(fGTT.content)) ==> o.resource.Ok?))
      && (op.UnbindBuffer? ==> o.resource.Ok?)
    }

    /** _NativeIoctl. */
    method NativeIoctl(op: Op, w: World) returns (status: Status, ghost o: Outcome)
      requires Valid() && IsNative(op) && !Faulted(model)
      modifies `model, `fNative, fNative, fScheduler
      modifies if fNative != null then {fNative.vm, fNative.vm.fEntries} else {}
      modifies if fNative != null then set c | c in fNative.contexts else {}
      modifies if fNative != null then set c: E.RenderEngine | c in fNative.contexts :: c.fRing else {}
      ensures Linked() && (model, status) == NativeStep(old(model), op, o)
      ensures |fScheduler.log| != |old(fScheduler.log)| ==>
        op.SubmitObjects? && Served(old(model), op, old(fScheduler.log))
      ensures o.launched <==> |fScheduler.log| != |old(fScheduler.log)|
      ensures o.launched && !o.resource.Ok? ==> Faulted(model)
      ensures old(fScheduler.fFaulted) ==> fScheduler.fFaulted
      ensures R.Finishes(old(model), op, o) ==> o.launched
      ensures fresh(Objects() - old(Objects()))
      ensures Spared(op) && NativeFair(op, o, w)
    {
      hide Inv, Linked, Served, NativeCase, SubmitCheck, Objects;
      OnlyNew();
      o := CALM;
      HasNative();
      if !fCapable {
        return NotSupported, o;
      }
      FreshOrOld();
      status := EnsureNative(w);
      if !status.Ok? {
        return status, o.(setup := status);
      }
      ghost var t := model;
      HasNative();
      status, o := NativeSwitch(op, w);
      SetupApart(t, t.render.value, op, o, t.render.value.tables);
      o := o.(setup := Ok, tables := t.render.value.tables);
      if op.SubmitObjects? {
        ServedBySlots(t, old(model), op, old(fScheduler.log));
      }
      OnlyNew();
    }

    lemma FreshOrOld()
      requires Valid()
      ensures forall tables :: model.render.None? ==> Inv(model.(render := Some(NewNative(tables))))
    {
      hide Linked, Inv;
      forall tables | model.render.None?
        ensures Inv(model.(render := Some(NewNative(tables))))
      {
        FreshNative(model, tables);
      }
    }

    lemma HasNative()
      requires Linked()
      ensures fNative != null <==> model.render.Some?
      ensures fNative != null ==> fNative.faulted == model.render.value.faulted
      ensures model.capable == fCapable
    {}

    lemma ServedBySlots(s: Client, t: Client, op: Op, before: seq<E.Job>)
      requires s.slots == t.slots && op.SubmitObjects?
      ensures Served(s, op, before) == Served(t, op, before)
    {}

    /** The requests that need no native state. */
    method BufferIoctl(op: Op, taken: set<int>, w: World) returns (status: Status, ghost o: Outcome)
      requires Valid() && !IsNative(op) && (op.GetInfo? || op.EngineStatus? || !Faulted(model))
      modifies `model, `fNextHandle, `fAllocated, `fBound, `fBuffers, `fHandles, fBuffers
      modifies (if fNative != null then {fNative} else {})`addresses
      modifies if fGTT != null then {fGTT, fGTT.fEntries, fGTT.fUsed} else {}
      modifies if fNative != null then {fNative.vm, fNative.vm.fEntries} else {}
      ensures Linked() && (model, status) == Step(old(model), op, o) && !o.launched
      ensures op.CreateBuffer? && status.Ok? ==> NewPages(old(model), op.size, o.pages) && Avoids(o.pages, taken)
      ensures Courteous(old(model.slots))
      ensures forall b :: b in fBuffers && b != null ==> b in old(fBuffers) || fresh(b)
      ensures Spared(op) && BufferFair(op, o, w, taken)
    {
      hide Avoids, Undisturbed, Linked, Inv, Create, Close, BindGtt, UnbindGtt, NewPages;
      Untouched();
      if op.CreateBuffer? {
        status, o := CreateBuffer(op, taken, w);
      } else if op.CloseBuffer? {
        status, o := CloseBuffer(op, w);
      } else if op.BindBuffer? {
        status, o := BindBuffer(op, w);
      } else if op.UnbindBuffer? {
        status, o := UnbindBuffer(op, w);
      } else {
        status, o := Inform(w);
      }
    }

    /** One ioctl: the client moves as the state machine says, whatever the
        request and whatever happens to it; and the execlist port is written at
        most once, by a submission, for its batch. `taken` is the memory anybody
        else holds. */
    method Ioctl(op: Op, taken: set<int>, w: World) returns (status: Status, ghost o: Outcome)
      requires Valid()
      modifies Objects(), fScheduler
      modifies if fGTT != null then {fGTT, fGTT.fEntries, fGTT.fUsed} else {}
      ensures Valid() && (model, status) == Step(old(model), op, o) && Honest(old(model), op, o)
      ensures |fScheduler.log| != |old(fScheduler.log)| ==>
        op.SubmitObjects? && Served(old(model), op, old(fScheduler.log))
      // The GPU is given every submission that succeeds; one it was given and
      // did not answer for faults the client.
      ensures o.launched <==> |fScheduler.log| != |old(fScheduler.log)|
      ensures R.Finishes(old(model), op, o) ==> o.launched
      ensures |fScheduler.log| != |old(fScheduler.log)| && !o.resource.Ok? ==> Faulted(model)
      // Nobody else's memory is taken and nobody else's run of the table moved,
      // and an engine that has been given up stays so.
      ensures op.CreateBuffer? && status.Ok? ==> Avoids(o.pages, taken)
      ensures Courteous(old(model.slots)) && (old(fScheduler.fFaulted) ==> fScheduler.fFaulted)
      ensures fresh(Objects() - old(Objects()))
      ensures Spared(op)
      // Nothing fails but by the client's own state or by what the world answers.
      ensures !old(Faulted(model)) ==> if IsNative(op) then NativeFair(op, o, w) else BufferFair(op, o, w, taken)
    {
      hide Avoids, Undisturbed, Linked, Inv, Served, NativeStep, Step, Honest, NewPages, R.Finishes, Objects,
           HasId, Spared, NativeFair, BufferFair;
      Owns();
      HasNative();
      Untouched();
      if fNative != null && fNative.faulted && !op.GetInfo? && !op.EngineStatus? {
        status, o := Refuse(op);
        return;
      }
      if IsNative(op) {
        status, o := NativeIoctl(op, w);
        NativeIs(old(model), op, o);
      } else {
        status, o := BufferIoctl(op, taken, w);
        NotFinished(old(model), op, o);
        OnlyNew();
      }
      HonestIf(old(model), op, o);
      StepKeeps(old(model), op, o);
    }

    /** A faulted client's answer to all but the reporting requests. */
    method Refuse(op: Op) returns (status: Status, ghost o: Outcome)
      requires Faulted(model) && !op.GetInfo? && !op.EngineStatus?
      ensures o == CALM && status == DevNotReady && Spared(op)
      ensures Step(model, op, o) == (model, status) && !R.Finishes(model, op, o) && Honest(model, op, o)
    {
      hide Step, Honest, R.Finishes;
      o := CALM;
      Refused(model, op, o);
      return DevNotReady, o;
    }

    lemma Refused(s: Client, op: Op, o: Outcome)
      requires Faulted(s) && !op.GetInfo? && !op.EngineStatus?
      ensures Step(s, op, o) == (s, DevNotReady) && !R.Finishes(s, op, o) && Honest(s, op, o)
    {}

    lemma NativeIs(s: Client, op: Op, o: Outcome)
      requires IsNative(op) && !Faulted(s)
      ensures Step(s, op, o) == NativeStep(s, op, o)
    {}

    lemma NotFinished(s: Client, op: Op, o: Outcome)
      requires !IsNative(op)
      ensures !R.Finishes(s, op, o)
    {}

    lemma HonestIf(s: Client, op: Op, o: Outcome)
      ensures (op.CreateBuffer? && Step(s, op, o).1.Ok? ==> NewPages(s, op.size, o.pages)) ==> Honest(s, op, o)
    {}

    /** A client nobody touches stays valid whatever another one with `slots` does
        to the table and the engine they share. */
    twostate lemma StaysValid(slots: Slots)
      requires old(Valid()) && unchanged(old(Objects()))
      requires Table() && Engine() && (old(fScheduler.fFaulted) ==> fScheduler.fFaulted)
      requires Courteous(slots) && R.BufferMemory(slots) !! R.BufferMemory(old(model.slots))
      ensures Valid() && model == old(model) && Objects() == old(Objects())
    {
      hide Inv, Table, Engine, PageTables.Valid, E.RenderEngine.Shape, R.BufferMemory, Undisturbed, G.Bound;
      OwnObjects();
      SameSlots(old(model.slots));
      SamePins(slots);
      if fNative != null {
        SameContexts(fNative);
      }
    }

    twostate lemma OwnObjects()
      requires unchanged(old(Objects()))
      ensures unchanged(this) && Objects() == old(Objects())
      ensures forall b :: b in fBuffers && b != null ==> unchanged(b)
      ensures fNative != null ==>
        && unchanged(fNative) && unchanged(fNative.vm) && unchanged(fNative.vm.fEntries)
        && forall c :: c in fNative.contexts && c != null ==> unchanged(c)
    {}

    twostate lemma SamePins(slots: Slots)
      requires old(SlotsMirror(model.slots)) && old(Pins()) && unchanged(this)
      requires forall b :: b in fBuffers && b != null ==> unchanged(b)
      requires Courteous(slots) && R.BufferMemory(slots) !! R.BufferMemory(old(model.slots))
      ensures Pins()
    {
      hide R.BufferMemory, G.Bound, Strangers;
      forall i | 0 <= i < |fBuffers| && fBuffers[i] != null
        ensures fBuffers[i].Pinned() && (fBuffers[i].fGTT == null || fBuffers[i].fGTT == fGTT)
      {
        var b := fBuffers[i];
        assert b in fBuffers && old(b.Pinned());
        assert old(Mirrors(model.slots, i));
        Foreign(old(model.slots), slots, i);
        if b.fGTT != null {
          assert G.Bound(old(fGTT.content), b.Run(), b.pages);
        }
      }
    }

    lemma Foreign(mine: Slots, slots: Slots, i: nat)
      requires i < |mine| && mine[i].Some? && R.BufferMemory(slots) !! R.BufferMemory(mine)
      ensures Strangers(slots, mine[i].value.pages)
    {
      var pages := mine[i].value.pages;
      assert forall p :: p in pages ==> p in R.BufferMemory(mine);
      forall j | 0 <= j < |slots| && slots[j].Some?
        ensures SharesNone(slots[j].value.pages, pages) && SharesNone(pages, slots[j].value.pages)
      {
        assert forall p :: p in slots[j].value.pages ==> p in R.BufferMemory(slots);
      }
    }

    twostate lemma SameContexts(native: NativeState)
      requires old(ContextsOf(native)) && unchanged(native) && unchanged(native.vm) && Engine()
      requires forall c :: c in native.contexts && c != null ==> unchanged(c)
      requires old(fScheduler.fFaulted) ==> fScheduler.fFaulted
      ensures ContextsOf(native)
    {
      hide E.RenderEngine.Shape;
      forall k | 0 <= k < MAX_CONTEXTS && native.contexts[k] != null
        ensures native.contexts[k].Valid() && native.contexts[k].fReady
      {
        assert native.contexts[k] in native.contexts && old(native.contexts[k].Valid());
      }
    }

    /** A prefix of the slots' memory. */
    ghost function HeldTo(slots: Slots, n: nat): set<int>
      requires n <= |slots|
    {
      if n == 0 then {}
      else HeldTo(slots, n - 1) + if slots[n - 1].Some? then Elements(slots[n - 1].value.pages) else {}
    }

    ghost function Elements(pages: seq<int>): set<int> {
      set p | p in pages
    }

    /** Memory of one of the first slots. */
    ghost predicate InSome(slots: Slots, n: nat, p: int)
      requires n <= |slots|
    {
      exists i :: 0 <= i < n && slots[i].Some? && p in slots[i].value.pages
    }

    lemma {:induction false} HeldAll(slots: Slots, n: nat, p: int)
      requires n <= |slots|
      ensures p in HeldTo(slots, n) <==> InSome(slots, n, p)
    {
      if n > 0 {
        HeldAll(slots, n - 1, p);
      }
    }

    /** The destructor: the tables and contexts, then every buffer's run and
        memory are given back, unless the GPU may still be using them. */
    method Destroy(legacyFault: bool) returns (ghost freed: set<int>)
      requires Valid()
      modifies fBuffers
      modifies if fGTT != null then {fGTT, fGTT.fEntries, fGTT.fUsed} else {}
      ensures freed == if legacyFault then {} else R.Destroyed(model)
      ensures (legacyFault || Faulted(model)) && fGTT != null ==> fGTT.content == old(fGTT.content)
      ensures !legacyFault && !Faulted(model) ==>
        forall i :: 0 <= i < |fBuffers| && fBuffers[i] != null ==> fBuffers[i].fGTT == null
      ensures Courteous(model.slots) && (fGTT != null ==> fGTT.Consistent())
    {
      hide Undisturbed, G.GlobalGTT.Consistent, Inv, SlotsMirror, Pins, Tables, Engine, ContextsOf, R.BufferMemory,
           R.NativeMemory;
      Unlink();
      Untouched();
      freed := {};
      if (fNative != null && fNative.faulted) || legacyFault {
        return;
      }
      freed := DeleteNative();
      ghost var memory := DeleteBuffers();
      freed := memory + freed;
    }

    /** `delete fNative`: the contexts, then the page tables. */
    method DeleteNative() returns (ghost freed: set<int>)
      requires NativeMirrors(model.render) && (fNative != null ==> ContextsOf(fNative))
      ensures freed == R.NativeMemory(model.render)
    {
      hide ContextsOf, BackingOf, R.ContextMemory;
      freed := {};
      if fNative == null {
        return;
      }
      FewContexts(fNative);
      ghost var backing := BackingOf(fNative.contexts);
      BackingLength(fNative.contexts);
      NoBacking(backing);
      for i := 0 to MAX_CONTEXTS
        invariant freed == R.ContextMemory(backing[..i])
      {
        MoreBacking(fNative.contexts, i);
        freed := freed + MemoryOf(fNative.contexts[i]);
      }
      assert backing[..MAX_CONTEXTS] == backing;
      ghost var tables := fNative.vm.Destroy();
      freed := tables + freed;
    }

    lemma BackingLength(contexts: seq<E.RenderEngine?>)
      ensures |BackingOf(contexts)| == |contexts|
    {}

    lemma NoBacking(backing: seq<set<int>>)
      ensures R.ContextMemory(backing[..0]) == {}
    {}

    lemma MoreBacking(contexts: seq<E.RenderEngine?>, i: nat)
      requires i < |contexts| == |BackingOf(contexts)|
      ensures var backing := BackingOf(contexts);
              R.ContextMemory(backing[..i + 1]) == R.ContextMemory(backing[..i]) + MemoryOf(contexts[i])
    {
      var backing := BackingOf(contexts);
      forall p
        ensures p in R.ContextMemory(backing[..i + 1]) <==> p in R.ContextMemory(backing[..i]) + MemoryOf(contexts[i])
      {
        if p in R.ContextMemory(backing[..i]) {
          var k :| 0 <= k < i && p in backing[..i][k];
          assert p in backing[..i + 1][k];
        }
        if p in MemoryOf(contexts[i]) {
          assert p in backing[..i + 1][i];
        }
      }
    }

    /** Every buffer: its run first, then its memory. */
    method DeleteBuffers() returns (ghost freed: set<int>)
      requires SlotsMirror(model.slots) && Pins() && Table() && Inv(model)
      modifies fBuffers
      modifies if fGTT != null then {fGTT, fGTT.fEntries, fGTT.fUsed} else {}
      ensures freed == R.BufferMemory(model.slots)
      ensures forall i :: 0 <= i < |fBuffers| && fBuffers[i] != null ==> fBuffers[i].fGTT == null
      ensures Courteous(model.slots) && Table()
    {
      hide Undisturbed, Inv, SlotsMirror, Pins, Table, Unshared, R.BufferMemory;
      GoodUnshared(model);
      MirrorLengths();
      Untouched();
      freed := {};
      ghost var slots := model.slots;
      for i := 0 to MAX_BUFFERS
        invariant SlotsMirror(slots) && Pins() && Table() && Unshared(slots) && |slots| == |model.slots| == MAX_BUFFERS
        invariant forall j :: 0 <= j < |slots| ==> SamePages(slots[j], model.slots[j])
        invariant forall j :: 0 <= j < i && fBuffers[j] != null ==> fBuffers[j].fGTT == null
        invariant freed == HeldTo(model.slots, i) && (fGTT != null ==> fGTT.fUsed == old(fGTT.fUsed))
        invariant Courteous(model.slots)
      {
        var buffer := fBuffers[i];
        if buffer == null {
          NoBuffer(slots, i);
        } else {
          assert buffer in fBuffers;
          OneBuffer(slots, i);
          if buffer.fGTT != null {
            Placing(buffer);
            ghost var was := fGTT.content;
            var _ := Unpin(i, buffer, slots);
            UndisturbedMore(old(fGTT.content), was, fGTT.content, model.slots, slots);
            PlacedUnshared(slots, i, None);
            slots := Placed(slots, i, None);
          }
          freed := freed + Elements(buffer.pages);
        }
      }
      HeldIs();
    }

    lemma MirrorLengths()
      requires SlotsMirror(model.slots)
      ensures |model.slots| == |fBuffers| == MAX_BUFFERS
    {}

    lemma OneBuffer(slots: Slots, i: nat)
      requires SlotsMirror(slots) && i < MAX_BUFFERS && i < |fBuffers| && fBuffers[i] != null
      ensures i < |slots| && slots[i].Some? && slots[i].value.pages == fBuffers[i].pages
      ensures forall j :: 0 <= j < |fBuffers| && j != i ==> fBuffers[j] != fBuffers[i]
    {
      assert Mirrors(slots, i);
    }

    lemma NoBuffer(slots: Slots, i: nat)
      requires SlotsMirror(slots) && i < MAX_BUFFERS && i < |fBuffers| && fBuffers[i] == null
      ensures i < |slots| && slots[i].None?
    {
      assert Mirrors(slots, i);
    }

    lemma HeldMeans(p: int)
      ensures p in R.BufferMemory(model.slots) <==> InSome(model.slots, |model.slots|, p)
    {}

    lemma HeldIs()
      ensures HeldTo(model.slots, |model.slots|) == R.BufferMemory(model.slots)
    {
      hide R.BufferMemory, HeldTo, InSome;
      forall p
        ensures p in HeldTo(model.slots, |model.slots|) <==> p in R.BufferMemory(model.slots)
      {
        HeldAll(model.slots, |model.slots|, p);
        HeldMeans(p);
      }
    }
  }
}
