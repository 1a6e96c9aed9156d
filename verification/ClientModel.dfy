/** One open device as a state machine over its ioctls: buffers and their
    handles, the two budgets, the fixed virtual bindings with the flat page map
    they add up to, contexts, fences and the sticky fault. The environment's
    part in an ioctl - whether an allocation, a table walk, a copy to the caller
    or the GPU lets it down - is its Outcome. */
module ClientModel {
  import opened Machine
  import opened AddressSpace

  const MAX_BUFFERS := 256
  const MAX_CONTEXTS := 16
  const MAX_BUFFER_SIZE := 0x400_0000
  const MEMORY_LIMIT := 0x4000_0000
  const APERTURE_LIMIT := 0x400_0000
  const VIRTUAL_LIMIT := 0x8000_0000_0000

  /** A live buffer: its pages, where the global table has it, if it does, and
      where the client's own tables have it, or 0. */
  datatype Buffer = Buffer(handle: nat, size: uint64, pages: seq<int>, graphics: Option<nat>, virt: uint64)

  type Slots = seq<Option<Buffer>>

  /** contexts[i] is the id in slot i, or 0. completed counts the submissions
      that came back. tables is the memory of the page tables and their scratch
      page, backing[i] that of context i: its status and fence pages, its image
      and its ring. */
  datatype Native = Native(
    mapped: map<nat, int>, contexts: seq<nat>, nextContext: nat, completed: nat, faulted: bool,
    tables: set<int>, backing: seq<set<int>>)

  /** capable: the device has the native rendering interface. aperture: it has a
      global table this driver manages. */
  datatype Client = Client(
    capable: bool, aperture: bool, slots: Slots, nextHandle: nat, charged: int, bound: int, render: Option<Native>)

  datatype Op =
    | GetInfo | EngineStatus
    | CreateBuffer(size: uint64, flags: nat, reserved: nat)
    | CloseBuffer(handle: nat, reserved: nat)
    | BindBuffer(handle: nat, flags: nat, graphicsAddress: uint64)
    | UnbindBuffer(handle: nat, reserved: nat)
    | CreateContext(context: nat, flags: nat)
    | DestroyContext(context: nat, reserved: nat)
    | BindVirtual(handle: nat, flags: nat, address: uint64)
    | UnbindVirtual(handle: nat, reserved: nat)
    | SubmitObjects(context: nat, batch: nat, offset: uint64, length: uint64,
                    fence: uint64, count: nat, flags: nat, handles: seq<nat>)
    | WaitRenderFence(fence: uint64, timeout: uint64)

  /** read: copying the request in and checking its header. copy: copying it
      back out. resource: what the ioctl allocates or submits to. setup: the
      legacy engines' tables on a GTT bind, the native state on a first native
      ioctl, and tables the memory that state starts with. aperture: the address
      the GTT gave. vm: the page tables, and mapped how many pages went in before
      they failed. memory: what a new context or a bind's new page tables took.
      launched: the engine's port was written for a submission. */
  datatype Outcome = Outcome(
    read: Status, copy: Status, resource: Status, pages: seq<int>, aperture: nat, setup: Status,
    tables: set<int>, vm: Status, mapped: nat, memory: set<int>, launched: bool)

  // ------------------------------------------------------------- the slots

  /** _Find: the first slot holding a handle, or |slots|. */
  function SlotOf(slots: Slots, handle: nat): (i: nat)
    ensures i <= |slots|
    ensures i < |slots| ==> slots[i].Some? && slots[i].value.handle == handle
    ensures forall j :: 0 <= j < i ==> slots[j].None? || slots[j].value.handle != handle
  {
    if slots == [] then 0
    else if slots[0].Some? && slots[0].value.handle == handle then 0
    else 1 + SlotOf(slots[1..], handle)
  }

  /** The first empty slot, or |slots|. */
  function FirstEmpty(slots: Slots): (i: nat)
    ensures i <= |slots|
    ensures i < |slots| ==> slots[i].None?
    ensures forall j :: 0 <= j < i ==> slots[j].Some?
  {
    if slots == [] then 0 else if slots[0].None? then 0 else 1 + FirstEmpty(slots[1..])
  }

  function FirstZero(ids: seq<nat>): (i: nat)
    ensures i <= |ids|
    ensures i < |ids| ==> ids[i] == 0
    ensures forall j :: 0 <= j < i ==> ids[j] != 0
  {
    if ids == [] then 0 else if ids[0] == 0 then 0 else 1 + FirstZero(ids[1..])
  }

  function IdSlot(ids: seq<nat>, id: nat): (i: nat)
    ensures i <= |ids|
    ensures i < |ids| ==> ids[i] == id
    ensures forall j :: 0 <= j < i ==> ids[j] != id
  {
    if ids == [] then 0 else if ids[0] == id then 0 else 1 + IdSlot(ids[1..], id)
  }

  function Charge(slot: Option<Buffer>): nat {
    if slot.Some? then slot.value.size else 0
  }

  function Pinned(slot: Option<Buffer>): nat {
    if slot.Some? && slot.value.graphics.Some? then slot.value.size else 0
  }

  function Charged(slots: Slots): nat {
    if slots == [] then 0 else Charged(slots[..|slots| - 1]) + Charge(slots[|slots| - 1])
  }

  function PinnedSum(slots: Slots): nat {
    if slots == [] then 0 else PinnedSum(slots[..|slots| - 1]) + Pinned(slots[|slots| - 1])
  }

  lemma {:induction false} SumsUpdate(slots: Slots, i: nat, slot: Option<Buffer>)
    requires i < |slots|
    ensures Charged(slots[i := slot]) == Charged(slots) - Charge(slots[i]) + Charge(slot)
    ensures PinnedSum(slots[i := slot]) == PinnedSum(slots) - Pinned(slots[i]) + Pinned(slot)
  {
    var last := |slots| - 1;
    var new_ := slots[i := slot];
    if i == last {
      assert new_[..last] == slots[..last];
    } else {
      assert new_[..last] == slots[..last][i := slot];
      SumsUpdate(slots[..last], i, slot);
    }
  }

  // ----------------------------------------------------- virtual addresses

  /** The buffer's binding covers a page of the client's address space. */
  predicate Covers(slot: Option<Buffer>, page: nat) {
    slot.Some? && slot.value.virt != 0
    && slot.value.virt / PAGE_SIZE <= page < slot.value.virt / PAGE_SIZE + |slot.value.pages|
  }

  /** The check a bind makes against one other slot. */
  predicate Clashes(slot: Option<Buffer>, address: nat, size: nat) {
    slot.Some? && slot.value.virt != 0
    && address < slot.value.virt + slot.value.size && slot.value.virt < address + size
  }

  predicate AnyClash(slots: Slots, address: nat, size: nat) {
    exists i :: 0 <= i < |slots| && Clashes(slots[i], address, size)
  }

  // ---------------------------------------------------------------- the ioctls

  function Create(s: Client, op: Op, o: Outcome): (Client, Status)
    requires op.CreateBuffer?
  {
    if !o.read.Ok? then (s, o.read)
    else if op.flags != 0 || op.reserved != 0 || op.size == 0 || op.size > MAX_BUFFER_SIZE || s.nextHandle == 0
    then (s, BadValue)
    else
      var size := RoundUp(op.size);
      if size > MEMORY_LIMIT - s.charged then (s, NoMemory)
      else
        var slot := FirstEmpty(s.slots);
        if slot == |s.slots| then (s, NoMemory)
        else if !o.resource.Ok? then (s, o.resource)
        else
          var t := s.(nextHandle := (s.nextHandle + 1) % 0x1_0000_0000);
          if !o.copy.Ok? then (t, o.copy)
          else
            var b := Buffer(s.nextHandle, size, o.pages, None, 0);
            (t.(slots := s.slots[slot := Some(b)], charged := s.charged + size), Ok)
  }

  /** _UnmapVirtual on the buffer in a slot. */
  function UnmapVirtual(s: Client, i: nat): (r: (Client, Status))
    requires i < |s.slots| && s.slots[i].Some?
    ensures |r.0.slots| == |s.slots| && r.0.slots[i].Some? && r.0.slots[i].value.size == s.slots[i].value.size
  {
    var b := s.slots[i].value;
    if s.render.None? || b.virt == 0 then (s, Ok)
    else if !InSpace(b.virt, b.size) then (s, BadValue)
    else
      var n := s.render.value;
      var m := Without(n.mapped, b.virt / PAGE_SIZE, RoundUp(b.size) / PAGE_SIZE);
      (s.(render := Some(n.(mapped := m)), slots := s.slots[i := Some(b.(virt := 0))]), Ok)
  }

  function Close(s: Client, op: Op, o: Outcome): (Client, Status)
    requires op.CloseBuffer?
  {
    if !o.read.Ok? then (s, o.read)
    else if op.reserved != 0 || op.handle == 0 then (s, BadValue)
    else
      var i := SlotOf(s.slots, op.handle);
      if i == |s.slots| then (s, EntryNotFound) else CloseSlot(s, i)
  }

  function CloseSlot(s: Client, i: nat): (Client, Status)
    requires i < |s.slots| && s.slots[i].Some?
  {
    var b := s.slots[i].value;
    var released := if b.graphics.Some? then s.(bound := s.bound - b.size) else s;
    var (t, status) := UnmapVirtual(released, i);
    if !status.Ok? then (t, status)
    else (t.(slots := t.slots[i := None], charged := t.charged - b.size), Ok)
  }

  function BindGtt(s: Client, op: Op, o: Outcome): (Client, Status)
    requires op.BindBuffer?
  {
    if !o.read.Ok? then (s, o.read)
    else if op.flags != 0 || op.handle == 0 || op.graphicsAddress != 0 then (s, BadValue)
    else if !s.aperture then (s, NotSupported)
    else
      var i := SlotOf(s.slots, op.handle);
      if i == |s.slots| then (s, EntryNotFound)
      else
        var b := s.slots[i].value;
        if b.virt != 0 || b.graphics.Some? then (s, Busy)
        else if b.size > APERTURE_LIMIT - s.bound then (s, NoMemory)
        else if !o.resource.Ok? then (s, o.resource)
        else if !o.setup.Ok? then (s, o.setup)
        else if !o.copy.Ok? then (s, o.copy)
        else (s.(slots := s.slots[i := Some(b.(graphics := Some(o.aperture)))], bound := s.bound + b.size), Ok)
  }

  function UnbindGtt(s: Client, op: Op, o: Outcome): (Client, Status)
    requires op.UnbindBuffer?
  {
    if !o.read.Ok? then (s, o.read)
    else if op.reserved != 0 || op.handle == 0 then (s, BadValue)
    else
      var i := SlotOf(s.slots, op.handle);
      if i == |s.slots| then (s, EntryNotFound)
      else
        var b := s.slots[i].value;
        if b.graphics.None? then (s, BadValue)
        else (s.(slots := s.slots[i := Some(b.(graphics := None))], bound := s.bound - b.size), o.resource)
  }

  function NewContext(s: Client, n: Native, op: Op, o: Outcome): (Client, Status)
    requires op.CreateContext?
  {
    if !o.read.Ok? then (s, o.read)
    else if op.context != 0 || op.flags != 0 then (s, BadValue)
    else
      var slot := FirstZero(n.contexts);
      if slot == |n.contexts| || n.nextContext == 0 then (s, NoMemory)
      else if !o.resource.Ok? then (s, o.resource)
      else
        var m := n.(nextContext := (n.nextContext + 1) % 0x1_0000_0000);
        if !o.copy.Ok? then (s.(render := Some(m)), o.copy)
        else
          (s.(render := Some(m.(contexts := n.contexts[slot := n.nextContext],
                                backing := Backed(n.backing, slot, o.memory)))), Ok)
  }

  function DropContext(s: Client, n: Native, op: Op, o: Outcome): (Client, Status)
    requires op.DestroyContext?
  {
    if !o.read.Ok? then (s, o.read)
    else if op.context == 0 || op.reserved != 0 then (s, BadValue)
    else
      var slot := IdSlot(n.contexts, op.context);
      if slot == |n.contexts| then (s, EntryNotFound)
      else (s.(render := Some(n.(contexts := n.contexts[slot := 0], backing := Backed(n.backing, slot, {})))), Ok)
  }

  function Backed(backing: seq<set<int>>, slot: nat, memory: set<int>): seq<set<int>> {
    if slot < |backing| then backing[slot := memory] else backing
  }

  /** A failed Map is followed by Unmap of the whole range, but the tables it
      made stay. */
  function BindVirt(s: Client, n: Native, op: Op, o: Outcome): (Client, Status)
    requires op.BindVirtual?
  {
    if !o.read.Ok? then (s, o.read)
    else if op.flags != 0 || op.handle == 0 || op.address == 0 || op.address >= VIRTUAL_LIMIT
       || op.address % PAGE_SIZE != 0
    then (s, BadValue)
    else
      var i := SlotOf(s.slots, op.handle);
      if i == |s.slots| then (s, EntryNotFound)
      else
        var b := s.slots[i].value;
        if b.size > VIRTUAL_LIMIT - op.address then (s, BadValue)
        else if b.virt == op.address then (s, Ok)
        else if b.virt != 0 || b.graphics.Some? then (s, Busy)
        else if AnyClash(s.slots, op.address, b.size) then (s, Busy)
        else
          var first := op.address / PAGE_SIZE;
          if !o.vm.Ok? then
            var part := With(n.mapped, first, if o.mapped <= |b.pages| then b.pages[..o.mapped] else b.pages);
            var m := Without(part, first, RoundUp(b.size) / PAGE_SIZE);
            (s.(render := Some(n.(mapped := m, tables := n.tables + o.memory))), o.vm)
          else
            var m := With(n.mapped, first, b.pages);
            (s.(render := Some(n.(mapped := m, tables := n.tables + o.memory)),
                slots := s.slots[i := Some(b.(virt := op.address))]), Ok)
  }

  function UnbindVirt(s: Client, n: Native, op: Op, o: Outcome): (Client, Status)
    requires op.UnbindVirtual?
  {
    if !o.read.Ok? then (s, o.read)
    else if op.reserved != 0 || op.handle == 0 then (s, BadValue)
    else
      var i := SlotOf(s.slots, op.handle);
      if i == |s.slots| then (s, EntryNotFound) else UnmapVirtual(s, i)
  }

  /** Every named buffer exists, is bound, and is named once. */
  predicate Resolves(slots: Slots, handles: seq<nat>) {
    forall k :: 0 <= k < |handles| ==>
      && SlotOf(slots, handles[k]) < |slots| && slots[SlotOf(slots, handles[k])].value.virt != 0
      && forall j :: 0 <= j < k ==> handles[j] != handles[k]
  }

  /** What kSubmitObjects demands before the context is asked to run anything. */
  function SubmitCheck(s: Client, n: Native, op: Op): Status
    requires op.SubmitObjects?
  {
    if op.flags != 0 || op.fence != 0 || op.context == 0 || op.count == 0 || op.count > MAX_BUFFERS
       || op.count > |op.handles| || op.length == 0 || op.offset % 8 != 0 || op.length % 4 != 0
    then BadValue
    else if IdSlot(n.contexts, op.context) == |n.contexts| then EntryNotFound
    else
      var i := SlotOf(s.slots, op.batch);
      if i == |s.slots| then EntryNotFound
      else if op.offset >= s.slots[i].value.size || op.length > s.slots[i].value.size - op.offset then BadValue
      else if !Resolves(s.slots, op.handles[..op.count]) || op.batch !in op.handles[..op.count] then BadValue
      else Ok
  }

  /** What a submission that fails leaves depends on whether the engine had been
      given it: then it may be running still. */
  function Submit(s: Client, n: Native, op: Op, o: Outcome): (Client, Status)
    requires op.SubmitObjects?
  {
    if !o.read.Ok? then (s, o.read)
    else
      var check := SubmitCheck(s, n, op);
      if !check.Ok? then (s, check)
      else if !o.resource.Ok? then (s.(render := Some(n.(faulted := o.launched))), o.resource)
      else (s.(render := Some(n.(completed := n.completed + 1))), o.copy)
  }

  /** fence is waitable when a submission returned it. */
  function WaitFence(s: Client, n: Native, op: Op, o: Outcome): (Client, Status)
    requires op.WaitRenderFence?
  {
    if !o.read.Ok? then (s, o.read)
    else if op.fence == 0 || op.fence > n.completed || op.timeout > 10_000_000 then (s, BadValue)
    else (s, Ok)
  }

  /** The native state as it is made: no context, nothing mapped. */
  function NewNative(tables: set<int>): Native {
    Native(map[], [0, 0, 0, 0, 0, 0, 0, 0, 0, 0, 0, 0, 0, 0, 0, 0], 1, 0, false, tables,
           [{}, {}, {}, {}, {}, {}, {}, {}, {}, {}, {}, {}, {}, {}, {}, {}])
  }

  predicate IsNative(op: Op) {
    op.CreateContext? || op.DestroyContext? || op.BindVirtual? || op.UnbindVirtual?
    || op.SubmitObjects? || op.WaitRenderFence?
  }

  /** _NativeIoctl: the native state is made on first use, before the request is
      even read. */
  function NativeStep(s: Client, op: Op, o: Outcome): (Client, Status)
    requires IsNative(op)
  {
    if !s.capable then (s, NotSupported)
    else if s.render.None? && !o.setup.Ok? then (s, o.setup)
    else
      var n := if s.render.None? then NewNative(o.tables) else s.render.value;
      NativeCase(s.(render := Some(n)), n, op, o)
  }

  function NativeCase(s: Client, n: Native, op: Op, o: Outcome): (Client, Status)
    requires IsNative(op)
  {
    match op
    case CreateContext(_, _) => NewContext(s, n, op, o)
    case DestroyContext(_, _) => DropContext(s, n, op, o)
    case BindVirtual(_, _, _) => BindVirt(s, n, op, o)
    case UnbindVirtual(_, _) => UnbindVirt(s, n, op, o)
    case SubmitObjects(_, _, _, _, _, _, _, _) => Submit(s, n, op, o)
    case WaitRenderFence(_, _) => WaitFence(s, n, op, o)
  }

  predicate Faulted(s: Client) {
    s.render.Some? && s.render.value.faulted
  }

  function Step(s: Client, op: Op, o: Outcome): (Client, Status) {
    if Faulted(s) && !op.GetInfo? && !op.EngineStatus? then (s, DevNotReady)
    else if IsNative(op) then NativeStep(s, op, o)
    else
      match op
      case GetInfo => (s, if o.read.Ok? then o.copy else o.read)
      case EngineStatus => (s, if o.read.Ok? then o.copy else o.read)
      case CreateBuffer(_, _, _) => Create(s, op, o)
      case CloseBuffer(_, _) => Close(s, op, o)
      case BindBuffer(_, _, _) => BindGtt(s, op, o)
      case UnbindBuffer(_, _) => UnbindGtt(s, op, o)
  }
}
