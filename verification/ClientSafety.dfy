/** What every reachable state of a client satisfies, whatever it asks for and
    whatever the environment does to it. */
module ClientSafety {
  import opened Machine
  import opened AddressSpace
  import opened ClientModel

  predicate SharesNone(a: seq<int>, b: seq<int>) {
    forall p :: p in a ==> p !in b
  }

  /** A buffer by itself: whole pages, and never in both address spaces. */
  ghost predicate GoodBuffer(b: Buffer) {
    && b.handle != 0 && 0 < b.size <= MAX_BUFFER_SIZE
    && b.size == |b.pages| * PAGE_SIZE
    && (b.virt != 0 ==> b.graphics.None? && b.virt % PAGE_SIZE == 0 && b.virt + b.size <= VIRTUAL_LIMIT)
  }

  /** Two buffers: different handles, different memory, disjoint bindings. */
  ghost predicate Apart(a: Buffer, b: Buffer) {
    && a.handle != b.handle
    && SharesNone(a.pages, b.pages) && SharesNone(b.pages, a.pages)
    && (a.virt != 0 && b.virt != 0 ==> a.virt + a.size <= b.virt || b.virt + b.size <= a.virt)
  }

  ghost predicate GoodSlots(slots: Slots) {
    && (forall i :: 0 <= i < |slots| && slots[i].Some? ==> GoodBuffer(slots[i].value))
    && (forall i, j :: 0 <= i < |slots| && 0 <= j < |slots| && i != j && slots[i].Some? && slots[j].Some? ==>
          Apart(slots[i].value, slots[j].value))
  }

  /** The page a binding gives an address it covers. */
  function PageOf(slot: Option<Buffer>, page: nat): int
    requires Covers(slot, page)
  {
    slot.value.pages[page - slot.value.virt / PAGE_SIZE]
  }

  /** The flat page map is exactly the bindings: every page one covers goes to
      the right page of that buffer, and there is nothing else in it. */
  ghost predicate Reflects(slots: Slots, m: map<nat, int>) {
    && (forall i, page :: 0 <= i < |slots| && Covers(slots[i], page) ==>
          page in m && m[page] == PageOf(slots[i], page))
    && (forall page :: page in m ==> exists i :: 0 <= i < |slots| && Covers(slots[i], page))
  }

  /** Every handle given out so far is below this. */
  function Issued(s: Client): nat {
    if s.nextHandle == 0 then 0x1_0000_0000 else s.nextHandle
  }

  /** Every context id given out so far is below this. */
  function IssuedIds(next: nat): nat {
    if next == 0 then 0x1_0000_0000 else next
  }

  /** No two contexts have the same id, and the next one is new. */
  ghost predicate GoodContexts(ids: seq<nat>, next: nat, backing: seq<set<int>>) {
    && |ids| == |backing| == MAX_CONTEXTS && next < 0x1_0000_0000
    && (forall i :: 0 <= i < |ids| ==> ids[i] < IssuedIds(next))
    && (forall i, j :: 0 <= i < j < |ids| && ids[i] != 0 ==> ids[i] != ids[j])
  }

  ghost predicate Inv(s: Client) {
    && |s.slots| == MAX_BUFFERS && s.nextHandle < 0x1_0000_0000
    && GoodSlots(s.slots)
    && (forall i :: 0 <= i < |s.slots| && s.slots[i].Some? ==> s.slots[i].value.handle < Issued(s))
    && s.charged == Charged(s.slots) <= MEMORY_LIMIT
    && s.bound == PinnedSum(s.slots) <= APERTURE_LIMIT
    && (s.render.None? ==> forall i :: 0 <= i < |s.slots| && s.slots[i].Some? ==> s.slots[i].value.virt == 0)
    && (s.render.Some? ==>
          && Reflects(s.slots, s.render.value.mapped)
          && GoodContexts(s.render.value.contexts, s.render.value.nextContext, s.render.value.backing))
  }

  /** The memory manager's promise about a new buffer: whole new pages. */
  predicate NewPages(s: Client, size: uint64, pages: seq<int>) {
    && |pages| * PAGE_SIZE == RoundUp(size)
    && forall i :: 0 <= i < |s.slots| && s.slots[i].Some? ==>
         SharesNone(s.slots[i].value.pages, pages) && SharesNone(pages, s.slots[i].value.pages)
  }

  predicate Honest(s: Client, op: Op, o: Outcome) {
    op.CreateBuffer? && Step(s, op, o).1.Ok? ==> NewPages(s, op.size, o.pages)
  }

  // ------------------------------------------------------- replacing one slot

  lemma PutSlot(slots: Slots, i: nat, b: Buffer)
    requires GoodSlots(slots) && i < |slots| && GoodBuffer(b)
    requires forall j :: 0 <= j < |slots| && j != i && slots[j].Some? ==>
               Apart(slots[j].value, b) && Apart(b, slots[j].value)
    ensures GoodSlots(slots[i := Some(b)])
  {}

  lemma ClearSlot(slots: Slots, i: nat)
    requires GoodSlots(slots) && i < |slots|
    ensures GoodSlots(slots[i := None])
  {}

  /** A slot that is not bound virtually, before and after, changes nothing. */
  lemma QuietSlot(slots: Slots, m: map<nat, int>, i: nat, slot: Option<Buffer>)
    requires Reflects(slots, m) && i < |slots|
    requires slots[i].Some? ==> slots[i].value.virt == 0
    requires slot.Some? ==> slot.value.virt == 0
    ensures Reflects(slots[i := slot], m)
  {
    var new_ := slots[i := slot];
    forall page | page in m
      ensures exists j :: 0 <= j < |new_| && Covers(new_[j], page)
    {
      var j :| 0 <= j < |slots| && Covers(slots[j], page);
      assert Covers(new_[j], page);
    }
  }

  /** Two bindings never cover the same page. */
  lemma OneCover(slots: Slots, i: nat, j: nat, page: nat)
    requires GoodSlots(slots) && i < |slots| && j < |slots| && i != j
    requires Covers(slots[i], page)
    ensures !Covers(slots[j], page)
  {
    if slots[j].Some? {
      assert Apart(slots[i].value, slots[j].value);
      assert GoodBuffer(slots[i].value) && GoodBuffer(slots[j].value);
    }
  }

  /** A binding covers exactly the pages of its byte range. */
  lemma CoversRange(b: Buffer, page: nat)
    requires GoodBuffer(b) && b.virt != 0
    ensures Covers(Some(b), page) <==> b.virt <= page * PAGE_SIZE < b.virt + b.size
    ensures RoundUp(b.size) / PAGE_SIZE == |b.pages| && InSpace(b.virt, b.size)
  {}

  // ------------------------------------------------------------ unbinding

  lemma UnboundReflects(slots: Slots, m: map<nat, int>, i: nat)
    requires GoodSlots(slots) && Reflects(slots, m) && i < |slots| && slots[i].Some? && slots[i].value.virt != 0
    ensures var b := slots[i].value;
            Reflects(slots[i := Some(b.(virt := 0))], Without(m, b.virt / PAGE_SIZE, |b.pages|))
  {
    hide Without, GoodSlots;
    var b := slots[i].value;
    var new_ := slots[i := Some(b.(virt := 0))];
    var rest := Without(m, b.virt / PAGE_SIZE, |b.pages|);
    WithoutIs(m, b.virt / PAGE_SIZE, |b.pages|);
    forall j, page | 0 <= j < |new_| && Covers(new_[j], page)
      ensures page in rest && rest[page] == PageOf(new_[j], page)
    {
      assert j != i && Covers(slots[j], page);
      OneCover(slots, j, i, page);
    }
    forall page | page in rest
      ensures exists j :: 0 <= j < |new_| && Covers(new_[j], page)
    {
      var j :| 0 <= j < |slots| && Covers(slots[j], page);
      assert Covers(new_[j], page);
    }
  }

  lemma UnmapKeeps(s: Client, i: nat)
    requires Inv(s) && i < |s.slots| && s.slots[i].Some?
    ensures var (t, status) := UnmapVirtual(s, i);
            && status.Ok? && Inv(t)
            && t.slots == s.slots[i := Some(s.slots[i].value.(virt := 0))]
            && t.charged == s.charged && t.bound == s.bound && t.nextHandle == s.nextHandle
            && t.capable == s.capable
            && (s.render.Some? ==> t.render == Some(s.render.value.(mapped := t.render.value.mapped)))
            && (s.render.None? ==> t.render.None?)
  {
    var b := s.slots[i].value;
    var (t, status) := UnmapVirtual(s, i);
    if s.render.None? || b.virt == 0 {
      assert s.slots[i := Some(b.(virt := 0))] == s.slots;
    } else {
      CoversRange(b, 0);
      UnboundReflects(s.slots, s.render.value.mapped, i);
      forall j | 0 <= j < |s.slots| && j != i && s.slots[j].Some?
        ensures Apart(s.slots[j].value, b.(virt := 0)) && Apart(b.(virt := 0), s.slots[j].value)
      {
        assert Apart(s.slots[j].value, b) && Apart(b, s.slots[j].value);
      }
      PutSlot(s.slots, i, b.(virt := 0));
      SumsUpdate(s.slots, i, Some(b.(virt := 0)));
    }
  }

  // -------------------------------------------------------------- binding

  lemma BoundReflects(slots: Slots, m: map<nat, int>, i: nat, address: uint64)
    requires GoodSlots(slots) && Reflects(slots, m) && i < |slots| && slots[i].Some? && slots[i].value.virt == 0
    requires GoodSlots(slots[i := Some(slots[i].value.(virt := address))]) && address != 0
    ensures var b := slots[i].value;
            Reflects(slots[i := Some(b.(virt := address))], With(m, address / PAGE_SIZE, b.pages))
  {
    hide With, GoodSlots;
    var b := slots[i].value;
    var new_ := slots[i := Some(b.(virt := address))];
    var more := With(m, address / PAGE_SIZE, b.pages);
    WithIs(m, address / PAGE_SIZE, b.pages);
    forall j, page | 0 <= j < |new_| && Covers(new_[j], page)
      ensures page in more && more[page] == PageOf(new_[j], page)
    {
      if j != i {
        assert Covers(slots[j], page);
        OneCover(new_, j, i, page);
      }
    }
    forall page | page in more
      ensures exists j :: 0 <= j < |new_| && Covers(new_[j], page)
    {
      if Covers(new_[i], page) {
      } else {
        var j :| 0 <= j < |slots| && Covers(slots[j], page);
        assert Covers(new_[j], page);
      }
    }
  }

  /** With no clash, no page of the range is mapped. */
  lemma NoClash(slots: Slots, m: map<nat, int>, address: uint64, count: nat, page: nat)
    requires GoodSlots(slots) && Reflects(slots, m) && page in m
    requires address % PAGE_SIZE == 0 && !AnyClash(slots, address, count * PAGE_SIZE)
    ensures !(address / PAGE_SIZE <= page < address / PAGE_SIZE + count)
  {
    var j :| 0 <= j < |slots| && Covers(slots[j], page);
    assert GoodBuffer(slots[j].value) && !Clashes(slots[j], address, count * PAGE_SIZE);
    CoversRange(slots[j].value, page);
  }

  /** So mapping some of it and unmapping all of it is as if nothing had
      happened. */
  lemma FailedBind(slots: Slots, m: map<nat, int>, address: uint64, count: nat, part: seq<int>)
    requires GoodSlots(slots) && Reflects(slots, m)
    requires address % PAGE_SIZE == 0 && !AnyClash(slots, address, count * PAGE_SIZE) && |part| <= count
    ensures Without(With(m, address / PAGE_SIZE, part), address / PAGE_SIZE, count) == m
  {
    hide GoodSlots, Reflects, AnyClash, With, Without;
    var first := address / PAGE_SIZE;
    WithIs(m, first, part);
    WithoutIs(With(m, first, part), first, count);
    forall page | page in m
      ensures !(first <= page < first + count)
    {
      NoClash(slots, m, address, count, page);
    }
  }

  /** A bind nothing stands in the way of. */
  predicate Unobstructed(s: Client, i: nat, address: uint64) {
    && i < |s.slots| && s.slots[i].Some? && s.slots[i].value.virt == 0 && s.slots[i].value.graphics.None?
    && address != 0 && address % PAGE_SIZE == 0 && address + s.slots[i].value.size <= VIRTUAL_LIMIT
    && !AnyClash(s.slots, address, s.slots[i].value.size)
  }

  lemma BindWorks(s: Client, n: Native, i: nat, address: uint64, tables: set<int>)
    requires Inv(s) && s.render == Some(n) && Unobstructed(s, i, address)
    ensures var b := s.slots[i].value;
            var m := n.(mapped := With(n.mapped, address / PAGE_SIZE, b.pages), tables := tables);
            Inv(s.(render := Some(m), slots := s.slots[i := Some(b.(virt := address))]))
  {
    hide With, Charged, PinnedSum;
    var b := s.slots[i].value;
    var c := b.(virt := address);
    assert GoodBuffer(b);
    forall j | 0 <= j < |s.slots| && j != i && s.slots[j].Some?
      ensures Apart(s.slots[j].value, c) && Apart(c, s.slots[j].value)
    {
      assert Apart(s.slots[j].value, b) && Apart(b, s.slots[j].value);
      assert !Clashes(s.slots[j], address, b.size);
    }
    PutSlot(s.slots, i, c);
    BoundReflects(s.slots, n.mapped, i, address);
    SumsUpdate(s.slots, i, Some(c));
  }

  lemma BindFails(s: Client, n: Native, i: nat, address: uint64, done: nat)
    requires Inv(s) && s.render == Some(n) && Unobstructed(s, i, address)
    ensures var b := s.slots[i].value;
            var part := With(n.mapped, address / PAGE_SIZE, if done <= |b.pages| then b.pages[..done] else b.pages);
            Without(part, address / PAGE_SIZE, RoundUp(b.size) / PAGE_SIZE) == n.mapped
  {
    var b := s.slots[i].value;
    assert GoodBuffer(b) && RoundUp(b.size) / PAGE_SIZE == |b.pages|;
    FailedBind(s.slots, n.mapped, address, |b.pages|, if done <= |b.pages| then b.pages[..done] else b.pages);
  }

  lemma BindVirtKeeps(s: Client, n: Native, op: Op, o: Outcome)
    requires Inv(s) && s.render == Some(n) && op.BindVirtual?
    ensures Inv(BindVirt(s, n, op, o).0) && Issued(BindVirt(s, n, op, o).0) == Issued(s)
    ensures var (t, status) := BindVirt(s, n, op, o);
            !status.Ok? ==>
              && t.render.Some? && n.tables <= t.render.value.tables
              && t == s.(render := Some(n.(tables := t.render.value.tables)))
  {
    hide Inv, AnyClash, With, Without, RoundUp, GoodSlots, Reflects;
    var i := SlotOf(s.slots, op.handle);
    SixteenContexts(s);
    RenderMoves(s, n.(tables := n.tables + o.memory));
    if Unobstructed(s, i, op.address) {
      BindWorks(s, n, i, op.address, n.tables + o.memory);
      BindFails(s, n, i, op.address, o.mapped);
    }
  }

  // -------------------------------------------------------- the other ioctls

  /** Putting a new buffer into an empty slot. */
  lemma FillSlot(s: Client, i: nat, b: Buffer)
    requires Inv(s) && i < |s.slots| && s.slots[i].None? && s.nextHandle != 0
    requires b == Buffer(s.nextHandle, b.size, b.pages, None, 0) && GoodBuffer(b) && b.size <= MEMORY_LIMIT - s.charged
    requires forall j :: 0 <= j < |s.slots| && s.slots[j].Some? ==>
               SharesNone(s.slots[j].value.pages, b.pages) && SharesNone(b.pages, s.slots[j].value.pages)
    ensures Inv(s.(slots := s.slots[i := Some(b)], charged := s.charged + b.size,
                   nextHandle := (s.nextHandle + 1) % 0x1_0000_0000))
  {
    hide Reflects, Charged, PinnedSum, GoodSlots, GoodBuffer, SharesNone;
    forall j | 0 <= j < |s.slots| && j != i && s.slots[j].Some?
      ensures Apart(s.slots[j].value, b) && Apart(b, s.slots[j].value)
    {}
    PutSlot(s.slots, i, b);
    SumsUpdate(s.slots, i, Some(b));
    if s.render.Some? {
      QuietSlot(s.slots, s.render.value.mapped, i, Some(b));
    }
  }

  /** Handles run out before they wrap to one already given. */
  lemma NextHandle(s: Client)
    requires Inv(s)
    ensures var t := s.(nextHandle := (s.nextHandle + 1) % 0x1_0000_0000);
            s.nextHandle != 0 ==> Inv(t) && Issued(t) == s.nextHandle + 1 == Issued(s) + 1
  {
    hide Reflects, Charged, PinnedSum, GoodSlots;
  }

  lemma CreateKeeps(s: Client, op: Op, o: Outcome)
    requires Inv(s) && op.CreateBuffer? && (Create(s, op, o).1.Ok? ==> NewPages(s, op.size, o.pages))
    ensures Inv(Create(s, op, o).0)
    ensures Create(s, op, o).1.Ok? ==> Issued(Create(s, op, o).0) == s.nextHandle + 1 == Issued(s) + 1
    ensures Issued(s) <= Issued(Create(s, op, o).0)
  {
    hide Inv, SharesNone;
    NextHandle(s);
    if Create(s, op, o).1.Ok? {
      var size := RoundUp(op.size);
      assert 0 < size <= MAX_BUFFER_SIZE;
      var slot := FirstEmpty(s.slots);
      if slot < |s.slots| && size <= MEMORY_LIMIT - s.charged {
        FillSlot(s, slot, Buffer(s.nextHandle, size, o.pages, None, 0));
      }
    }
  }

  /** Taking out a buffer that is not bound virtually. */
  lemma DropSlot(s: Client, i: nat)
    requires Inv(s) && i < |s.slots| && s.slots[i].Some? && s.slots[i].value.virt == 0
    ensures var t := s.(slots := s.slots[i := None], charged := s.charged - s.slots[i].value.size,
                        bound := s.bound - Pinned(s.slots[i]));
            Inv(t) && Issued(t) == Issued(s)
  {
    hide Reflects, Charged, PinnedSum, GoodSlots;
    ClearSlot(s.slots, i);
    SumsUpdate(s.slots, i, None);
    if s.render.Some? {
      QuietSlot(s.slots, s.render.value.mapped, i, None);
    }
  }

  lemma GoodAt(s: Client, i: nat)
    requires Inv(s) && i < |s.slots| && s.slots[i].Some?
    ensures GoodBuffer(s.slots[i].value)
  {}

  /** A close that finds its buffer always goes through: the buffer's virtual
      range can always be unmapped, so no close gives up halfway. */
  lemma CloseKeeps(s: Client, op: Op, o: Outcome)
    requires Inv(s) && op.CloseBuffer?
    ensures Inv(Close(s, op, o).0) && Issued(Close(s, op, o).0) == Issued(s)
    ensures var i := SlotOf(s.slots, op.handle);
            o.read.Ok? && op.reserved == 0 && op.handle != 0 && i < |s.slots| ==>
              Close(s, op, o).1.Ok? && Close(s, op, o).0.slots == s.slots[i := None]
  {
    hide Inv, Without;
    var i := SlotOf(s.slots, op.handle);
    if o.read.Ok? && op.reserved == 0 && op.handle != 0 && i < |s.slots| {
      GoodAt(s, i);
      UnmapKeeps(s, i);
      var (t, _) := UnmapVirtual(s, i);
      DropSlot(t, i);
      assert t.slots[i := None] == s.slots[i := None];
    }
  }

  /** Replacing a buffer by one that differs in where the GTT has it. */
  lemma GraphicsMoves(s: Client, i: nat, graphics: Option<nat>)
    requires Inv(s) && i < |s.slots| && s.slots[i].Some? && s.slots[i].value.virt == 0
    ensures var b := s.slots[i].value.(graphics := graphics);
            && GoodSlots(s.slots[i := Some(b)])
            && Charged(s.slots[i := Some(b)]) == s.charged
            && PinnedSum(s.slots[i := Some(b)]) == s.bound - Pinned(s.slots[i]) + Pinned(Some(b))
            && (s.render.Some? ==> Reflects(s.slots[i := Some(b)], s.render.value.mapped))
  {
    var b := s.slots[i].value.(graphics := graphics);
    forall j | 0 <= j < |s.slots| && j != i && s.slots[j].Some?
      ensures Apart(s.slots[j].value, b) && Apart(b, s.slots[j].value)
    {
      assert Apart(s.slots[j].value, s.slots[i].value) && Apart(s.slots[i].value, s.slots[j].value);
    }
    PutSlot(s.slots, i, b);
    SumsUpdate(s.slots, i, Some(b));
    if s.render.Some? {
      QuietSlot(s.slots, s.render.value.mapped, i, Some(b));
    }
  }

  lemma BindGttKeeps(s: Client, op: Op, o: Outcome)
    requires Inv(s) && op.BindBuffer?
    ensures Inv(BindGtt(s, op, o).0) && Issued(BindGtt(s, op, o).0) == Issued(s)
    ensures !BindGtt(s, op, o).1.Ok? ==> BindGtt(s, op, o).0 == s
  {
    var i := SlotOf(s.slots, op.handle);
    if i < |s.slots| && s.slots[i].value.virt == 0 {
      GraphicsMoves(s, i, Some(o.aperture));
    }
  }

  lemma UnbindGttKeeps(s: Client, op: Op, o: Outcome)
    requires Inv(s) && op.UnbindBuffer?
    ensures Inv(UnbindGtt(s, op, o).0) && Issued(UnbindGtt(s, op, o).0) == Issued(s)
  {
    var i := SlotOf(s.slots, op.handle);
    if i < |s.slots| && s.slots[i].value.graphics.Some? {
      assert GoodBuffer(s.slots[i].value);
      GraphicsMoves(s, i, None);
    }
  }

  /** Contexts, fences and faults do not touch what the invariant speaks of. */
  lemma RenderMoves(s: Client, m: Native)
    requires Inv(s) && s.render.Some? && m.mapped == s.render.value.mapped
             && GoodContexts(m.contexts, m.nextContext, m.backing)
    ensures Inv(s.(render := Some(m)))
  {
    hide GoodSlots, Reflects, Charged, PinnedSum;
  }

  lemma SidelineKeeps(s: Client, n: Native, op: Op, o: Outcome)
    requires Inv(s) && s.render == Some(n)
    ensures op.CreateContext? ==> Inv(NewContext(s, n, op, o).0) && Issued(NewContext(s, n, op, o).0) == Issued(s)
    ensures op.DestroyContext? ==> Inv(DropContext(s, n, op, o).0) && Issued(DropContext(s, n, op, o).0) == Issued(s)
    ensures op.SubmitObjects? ==> Inv(Submit(s, n, op, o).0) && Issued(Submit(s, n, op, o).0) == Issued(s)
  {
    hide Inv, SubmitCheck, GoodContexts;
    SixteenContexts(s);
    NewId(n.contexts, n.nextContext, n.backing, o.memory);
    var next := (n.nextContext + 1) % 0x1_0000_0000;
    if n.nextContext != 0 {
      RenderMoves(s, n.(nextContext := next));
    }
    var free := FirstZero(n.contexts);
    if free < |n.contexts| && n.nextContext != 0 {
      RenderMoves(s, n.(nextContext := next, contexts := n.contexts[free := n.nextContext],
                        backing := Backed(n.backing, free, o.memory)));
    }
    if op.DestroyContext? && IdSlot(n.contexts, op.context) < |n.contexts| {
      var i := IdSlot(n.contexts, op.context);
      DropId(n.contexts, n.nextContext, n.backing, i);
      RenderMoves(s, n.(contexts := n.contexts[i := 0], backing := Backed(n.backing, i, {})));
    }
    RenderMoves(s, n.(faulted := o.launched));
    RenderMoves(s, n.(completed := n.completed + 1));
  }

  lemma SixteenContexts(s: Client)
    requires Inv(s) && s.render.Some?
    ensures |s.render.value.contexts| == |s.render.value.backing| == MAX_CONTEXTS
    ensures GoodContexts(s.render.value.contexts, s.render.value.nextContext, s.render.value.backing)
  {}

  /** Counting on leaves the ids good, with the new id in a free slot or not. */
  lemma NewId(ids: seq<nat>, next: nat, backing: seq<set<int>>, memory: set<int>)
    requires GoodContexts(ids, next, backing)
    ensures next != 0 ==>
              && GoodContexts(ids, (next + 1) % 0x1_0000_0000, backing)
              && var free := FirstZero(ids);
                 free < |ids| ==>
                   GoodContexts(ids[free := next], (next + 1) % 0x1_0000_0000, Backed(backing, free, memory))
  {
    if next != 0 {
      assert IssuedIds((next + 1) % 0x1_0000_0000) == next + 1;
    }
  }

  lemma DropId(ids: seq<nat>, next: nat, backing: seq<set<int>>, i: nat)
    requires GoodContexts(ids, next, backing) && i < |ids|
    ensures GoodContexts(ids[i := 0], next, Backed(backing, i, {}))
  {}

  lemma UnbindVirtKeeps(s: Client, n: Native, op: Op, o: Outcome)
    requires Inv(s) && s.render == Some(n) && op.UnbindVirtual?
    ensures Inv(UnbindVirt(s, n, op, o).0) && Issued(UnbindVirt(s, n, op, o).0) == Issued(s)
  {
    hide Inv, UnmapVirtual;
    var i := SlotOf(s.slots, op.handle);
    if i < |s.slots| {
      UnmapKeeps(s, i);
    }
  }

  /** The native state a first native ioctl makes holds nothing. */
  lemma FreshNative(s: Client, tables: set<int>)
    requires Inv(s) && s.render.None?
    ensures Inv(s.(render := Some(NewNative(tables))))
  {
    hide GoodSlots, Charged, PinnedSum;
  }

  lemma NativeKeeps(s: Client, op: Op, o: Outcome)
    requires Inv(s) && IsNative(op)
    ensures Inv(NativeStep(s, op, o).0) && Issued(NativeStep(s, op, o).0) == Issued(s)
  {
    hide Inv, BindVirt, UnbindVirt, Submit, NewContext, DropContext;
    if s.capable && (s.render.Some? || o.setup.Ok?) {
      if s.render.None? {
        FreshNative(s, o.tables);
      }
      var n := if s.render.None? then NewNative(o.tables) else s.render.value;
      var t := s.(render := Some(n));
      if op.BindVirtual? {
        BindVirtKeeps(t, n, op, o);
      } else if op.UnbindVirtual? {
        UnbindVirtKeeps(t, n, op, o);
      } else {
        SidelineKeeps(t, n, op, o);
      }
    }
  }

  // ---------------------------------------------------------- whole runs

  /** Nothing a caller asks for and nothing the environment does breaks it. */
  lemma StepKeeps(s: Client, op: Op, o: Outcome)
    requires Inv(s) && Honest(s, op, o)
    ensures Inv(Step(s, op, o).0)
    ensures Issued(s) <= Issued(Step(s, op, o).0)
    ensures op.CreateBuffer? && Step(s, op, o).1.Ok? ==> s.nextHandle == Issued(s) < Issued(Step(s, op, o).0)
  {
    hide Inv, NewPages, NativeStep, Create, Close, BindGtt, UnbindGtt;
    if Faulted(s) && !op.GetInfo? && !op.EngineStatus? {
    } else if IsNative(op) {
      NativeKeeps(s, op, o);
    } else {
      match op
      case CreateBuffer(_, _, _) => CreateKeeps(s, op, o);
      case CloseBuffer(_, _) => CloseKeeps(s, op, o);
      case BindBuffer(_, _, _) => BindGttKeeps(s, op, o);
      case UnbindBuffer(_, _) => UnbindGttKeeps(s, op, o);
      case GetInfo =>
      case EngineStatus =>
    }
  }

  datatype Event = Event(op: Op, o: Outcome)

  function Run(s: Client, events: seq<Event>): Client {
    if events == [] then s
    else
      var last := |events| - 1;
      Step(Run(s, events[..last]), events[last].op, events[last].o).0
  }

  ghost predicate HonestRun(s: Client, events: seq<Event>) {
    forall k :: 0 <= k < |events| ==> Honest(Run(s, events[..k]), events[k].op, events[k].o)
  }

  /** What RenderClient's constructor leaves. */
  function Opened(capable: bool, aperture: bool): Client {
    Client(capable, aperture, Empties(MAX_BUFFERS), 1, 0, 0, None)
  }

  function Empties(n: nat): (slots: Slots)
    ensures |slots| == n && forall i :: 0 <= i < n ==> slots[i].None?
  {
    if n == 0 then [] else Empties(n - 1) + [None]
  }

  lemma {:induction false} EmptiesSum(n: nat)
    ensures Charged(Empties(n)) == 0 && PinnedSum(Empties(n)) == 0
  {
    if n > 0 {
      EmptiesSum(n - 1);
      assert Empties(n)[..n - 1] == Empties(n - 1);
    }
  }

  /** Every state any run of ioctls reaches satisfies the invariant, and no run
      ever hands out a handle twice: each new one is above all before it. */
  lemma {:induction false} RunKeeps(capable: bool, aperture: bool, events: seq<Event>)
    requires HonestRun(Opened(capable, aperture), events)
    ensures Inv(Run(Opened(capable, aperture), events))
  {
    if events == [] {
      EmptiesSum(MAX_BUFFERS);
    } else {
      var last := |events| - 1;
      var init := events[..last];
      forall k | 0 <= k < |init|
        ensures Honest(Run(Opened(capable, aperture), init[..k]), init[k].op, init[k].o)
      {
        assert init[..k] == events[..k];
      }
      RunKeeps(capable, aperture, init);
      StepKeeps(Run(Opened(capable, aperture), init), events[last].op, events[last].o);
    }
  }
}
