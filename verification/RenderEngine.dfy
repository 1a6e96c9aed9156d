/** kernel/RenderEngine.cpp: one logical ring context and the submission of
    batches to it. The GPU is an adversary that, between any two looks the
    driver takes, may run what its port was given, report a context switch, save
    the context - or do nothing, for ever. It acts on what is in memory: the
    ring, the register image and the page tables as far as they were flushed. */
module Engine {
  import opened Machine
  import opened Commands
  import opened StateLayout
  import opened Ppgtt
  import X = Execlist

  const FENCE_OFFSET := 0x100
  const STATUS_ENTRIES := 6
  const IMAGE_DWORDS := 1024
  const SEQNO_LIMIT := 0x7fff_ffff

  /** One entry of the context status buffer: what happened, and to which context. */
  datatype StatusEntry = StatusEntry(flags: uint32, context: uint32)

  /** What the engine was given at one write of its port: the context, whether
      it is restored from what was saved of it, the commands between the head and
      the tail of its ring, and the root of the page tables they run against. */
  datatype Job = Job(context: nat, restored: bool, commands: Option<seq<Command>>, root: uint64)

  // Of a context descriptor.
  const CONTEXT_VALID := 1
  const CONTEXT_FORCE_RESTORE := 4
  const CONTEXT_LEGACY_64BIT := 3 * 8
  const CONTEXT_PRIVILEGE := 0x100

  /** A descriptor the port takes: valid, bit 0; four level page tables, 3 in bits
      3 and 4; restored whether or not the engine has it already, bit 2; and
      allowed what a driver is, bit 8. Its image is where bits 12 to 31 say. */
  predicate Takes(descriptor: nat, image: nat) {
    && On(descriptor, 1) && descriptor / 8 % 4 == 3 && On(descriptor, 4) && On(descriptor, 0x100)
    && descriptor % 0x1_0000_0000 / PAGE_SIZE * PAGE_SIZE == image
  }

  /** A masked register's bit is set to 1, or to 0, by what is loaded into it. */
  predicate Sets(value: uint32, bit: nat, on: bool)
    requires bit > 0
  {
    On(value / 0x1_0000, bit) && On(value % 0x1_0000, bit) == on
  }

  /** The engine all contexts of a device share: its lock is held for a whole
      Submit, so at any time only one of them is talking to it. */
  class Scheduler {
    var fFaulted: bool
    var fHardwareStatusPage: nat
    // The hardware's side.
    var log: seq<Job>    // every write of the port
    var finished: nat    // how many of those have been run and saved
    var executed: bool   // the last one has run to the end of its ring

    predicate Idle()
      reads `finished, `log
    {
      finished == |log|
    }

    constructor ()
      ensures !fFaulted && Idle() && log == []
    {
      fFaulted, fHardwareStatusPage, log, finished, executed := false, 0, [], 0, false;
    }
  }

  // Positions in the ring are in dwords here.

  /** What lies between head and tail, going round the end. */
  function Ahead(ring: seq<uint32>, head: nat, tail: nat): seq<uint32>
    requires head <= |ring| && tail <= |ring|
  {
    if head <= tail then ring[head..tail] else ring[head..] + ring[..tail]
  }

  /** Whether the GPU gets to see a block written at `tail`: when the new tail
      comes out where the head already is, it takes the ring for empty. */
  predicate Visible(tail: nat, block: nat, size: nat) {
    2 * block <= size || (block < size && tail == 0)
  }

  /** The padding in front of a block: the rest of the ring when the block does
      not fit behind the tail. */
  function Padding(tail: nat, block: nat, size: nat): nat {
    if tail + block > size && tail <= size then size - tail else 0
  }

  /** Where the tail comes out, going round the end. */
  function NextTail(tail: nat, block: nat, size: nat): nat {
    var start := if Padding(tail, block, size) > 0 then 0 else tail;
    if start + block == size then 0 else start + block
  }

  lemma StepAligned(tail: nat, pipe: bool)
    requires tail % BlockDwords(pipe) == 0
    ensures (tail + BlockDwords(pipe)) % BlockDwords(pipe) == 0
    ensures tail > 0 ==> tail >= BlockDwords(pipe)
    ensures tail > BlockDwords(pipe) ==> tail >= 2 * BlockDwords(pipe)
  {}

  /** A tail behind whole blocks is at a multiple of eight bytes. */
  lemma WholeQuads(tail: nat, pipe: bool)
    requires tail % 4 == 0 && tail / 4 % BlockDwords(pipe) == 0
    ensures tail % 8 == 0
  {
    var blocks := tail / 4 / BlockDwords(pipe);
    var quads := blocks * if pipe then 32 else 16;
    assert tail / 4 == blocks * BlockDwords(pipe);
    assert tail == quads * 8 + 0;
    Parts(quads, 8, 0);
  }

  lemma PaddedAhead(ring: seq<uint32>, tail: nat, block: seq<uint32>)
    requires 0 < |block| <= tail < |ring| && ring[..|block|] == block
    ensures Ahead(ring, tail, |block|) == if tail == |block| then [] else ring[tail..] + block
  {}

  lemma PlainAhead(ring: seq<uint32>, tail: nat, block: seq<uint32>)
    requires block != [] && tail + |block| <= |ring| && ring[tail..tail + |block|] == block
    ensures Ahead(ring, tail, if tail + |block| == |ring| then 0 else tail + |block|) ==
            if tail == 0 && |block| == |ring| then [] else block
  {
    if tail + |block| == |ring| {
      assert ring[tail..] + ring[..0] == block;
    }
  }

  /** What lies ahead once a block has been written: the padding, if there is
      any, and the block, as long as the block can be seen at all. */
  lemma BlockAhead(ring: seq<uint32>, tail: nat, pad: seq<uint32>, block: seq<uint32>, pipe: bool)
    requires |block| == BlockDwords(pipe) <= |ring| && tail % BlockDwords(pipe) == 0 && tail < |ring|
    requires |pad| == Padding(tail, |block|, |ring|) && ring[tail..tail + |pad|] == pad
    requires var start := if |pad| > 0 then 0 else tail;
             start + |block| <= |ring| && ring[start..start + |block|] == block
    ensures var next := NextTail(tail, |block|, |ring|);
            && next % BlockDwords(pipe) == 0 && next < |ring|
            && Ahead(ring, tail, next) == if Visible(tail, |block|, |ring|) then pad + block else []
  {
    hide Ahead;
    StepAligned(0, pipe);
    StepAligned(tail, pipe);
    if |pad| > 0 {
      PaddedAhead(ring, tail, block);
    } else {
      PlainAhead(ring, tail, block);
      assert pad + block == block;
    }
  }

  /** Every block gets seen from every position exactly when the ring has room
      for two: in a smaller one the second block, or already the first, leaves
      the tail where the head is. */
  lemma RoomForTwo(pipe: bool, size: nat)
    requires size >= BlockDwords(pipe)
    ensures (forall tail: nat :: tail % BlockDwords(pipe) == 0 && tail < size ==>
               Visible(tail, BlockDwords(pipe), size))
        <==> 2 * BlockDwords(pipe) <= size
  {
    if size < 2 * BlockDwords(pipe) {
      var tail := if size == BlockDwords(pipe) then 0 else BlockDwords(pipe);
      assert tail % BlockDwords(pipe) == 0 && !Visible(tail, BlockDwords(pipe), size);
    }
  }

  // ----------------------------------------------------- cached translations

  /** What the engine may have cached of its translations, before each of these
      commands and after the last: anything at all to begin with, from then on
      what it had, unless the command drops it, and what it finds in memory. */
  ghost predicate Caching(cs: seq<Command>, caches: seq<map<nat, int>>, tables: PageTables)
    reads tables
  {
    |caches| == |cs| + 1 && forall k :: 0 <= k < |cs| ==> CachingStep(cs[k], caches[k], caches[k + 1], tables)
  }

  ghost predicate CachingStep(c: Command, before: map<nat, int>, after: map<nat, int>, tables: PageTables)
    reads tables
  {
    forall page :: page in after ==>
      || tables.Reads(page, after[page])
      || (!Drops(c) && page in before && after[page] == before[page])
  }

  /** The physical page an access to a page gets to. */
  ghost predicate Translates(cache: map<nat, int>, tables: PageTables, page: nat, physical: int)
    reads tables
  {
    if page in cache then physical == cache[page] else tables.Reads(page, physical)
  }

  /** This and no other. */
  ghost predicate GoesTo(cache: map<nat, int>, tables: PageTables, page: nat, physical: int)
    reads tables
  {
    forall p :: Translates(cache, tables, page, p) <==> p == physical
  }

  /** Once caches have been dropped there is nothing stale in them any more. */
  lemma {:induction false} Fresh(cs: seq<Command>, caches: seq<map<nat, int>>, tables: PageTables, d: nat, k: nat)
    requires Caching(cs, caches, tables) && d < k <= |cs| && Drops(cs[d])
    ensures forall page :: page in caches[k] ==> tables.Reads(page, caches[k][page])
  {
    hide PageTables.Reads;
    assert CachingStep(cs[k - 1], caches[k - 1], caches[k], tables);
    if d < k - 1 {
      Fresh(cs, caches, tables, d, k - 1);
    }
  }

  /** So whatever was cached before, a batch that starts clean goes by the tables
      that are in memory. */
  lemma BatchTranslates(cs: seq<Command>, caches: seq<map<nat, int>>, tables: PageTables, b: nat, page: nat,
                        physical: int)
    requires Clean(cs) && Caching(cs, caches, tables) && b < |cs| && cs[b].BatchStart?
    requires tables.Reads(page, physical)
    ensures GoesTo(caches[b], tables, page, physical)
  {
    var d :| 0 <= d < b && Drops(cs[d]);
    Fresh(cs, caches, tables, d, b);
  }

  class RenderEngine {
    const fScheduler: Scheduler
    const fAddressSpace: PageTables
    const fPipe: bool              // fEngine->usesPipeControl
    const fDevice: nat
    const fRevision: nat
    const fContext: nat            // where the GTT has the context, the fence
    const fFencePage: nat          // page and the status page
    const fStatusPage: nat
    const fMemory: set<int>        // the pages of those three and the ring's
    const fRingAddress: nat
    const fRing: array<uint32>
    var fReady: bool
    var fFaulted: bool
    var fRingTail: nat
    var fNextSeqno: nat
    var fRegisterState: seq<uint32>   // the register image as this processor reads it
    // Memory, which the GPU reads and writes.
    var image: seq<uint32>
    var ring: seq<uint32>
    var fence: uint32
    var status: seq<StatusEntry>

    function BlockBytes(): nat {
      BlockDwords(fPipe) * 4
    }

    function RingSize(): nat {
      fRing.Length * 4
    }

    function FenceSlot(): nat {
      fFencePage + FENCE_OFFSET
    }

    /** The descriptor for the port: the image's address, its flags, and the id. */
    function Descriptor(): nat {
      fContext + CONTEXT_LEGACY_64BIT + CONTEXT_VALID + CONTEXT_PRIVILEGE + CONTEXT_FORCE_RESTORE
      + fContext / PAGE_SIZE * 0x1_0000_0000
    }

    /** For a whole page below 4 GiB the fields keep out of each other's way. */
    lemma DescriptorFields()
      requires fContext % PAGE_SIZE == 0 && fContext < 0x1_0000_0000
      ensures Takes(Descriptor(), fContext) && Descriptor() / 0x1_0000_0000 == Id()
    {
      var page := fContext / PAGE_SIZE;
      var k := page + page * 0x10_0000;
      assert Descriptor() == k * PAGE_SIZE + 0x11d;
      LowBits(k);
      HighBits(page);
    }

    lemma LowBits(k: nat)
      ensures var d := k * PAGE_SIZE + 0x11d;
              On(d, 1) && d / 8 % 4 == 3 && On(d, 4) && On(d, 0x100)
    {
      var d := k * PAGE_SIZE + 0x11d;
      Parts(k * 2048 + 0x8e, 2, 1);
      Parts(k * 512 + 0x23, 8, 5);
      Parts(k * 128 + 8, 4, 3);
      Parts(k * 1024 + 0x47, 4, 1);
      Parts(k * 512 + 0x23, 2, 1);
      Parts(k * 16 + 1, 0x100, 0x1d);
      Parts(k * 8, 2, 1);
      assert d == (k * 2048 + 0x8e) * 2 + 1 == (k * 512 + 0x23) * 8 + 5;
      assert d == (k * 1024 + 0x47) * 4 + 1 == (k * 16 + 1) * 0x100 + 0x1d;
      assert k * 512 + 0x23 == (k * 128 + 8) * 4 + 3;
      assert k * 1024 + 0x47 == (k * 512 + 0x23) * 2 + 1 && k * 16 + 1 == k * 8 * 2 + 1;
    }

    lemma HighBits(page: nat)
      requires page < 0x10_0000
      ensures var d := (page + page * 0x10_0000) * PAGE_SIZE + 0x11d;
              d / 0x1_0000_0000 == page && d % 0x1_0000_0000 / PAGE_SIZE == page
    {
      var low := page * PAGE_SIZE + 0x11d;
      assert (page + page * 0x10_0000) * PAGE_SIZE + 0x11d == page * 0x1_0000_0000 + low && low < 0x1_0000_0000;
      Parts(page, PAGE_SIZE, 0x11d);
      Parts(page, 0x1_0000_0000, low);
    }

    function Id(): nat {
      fContext / PAGE_SIZE
    }

    ghost predicate Valid()
      reads this, fScheduler, fAddressSpace`fRoot
    {
      && Shape()
      && (fNextSeqno == 1 ==> image[STATE_CONTEXT_CONTROL] == 0xf_0009)
      && (fFaulted ==> fScheduler.fFaulted)
      && (!fScheduler.fFaulted ==> fScheduler.Idle() && fence == fNextSeqno - 1 && image[STATE_RING_HEAD] == fRingTail)
    }

    ghost predicate Shape()
      reads `fRingTail, `fNextSeqno, `fRegisterState, `image, `ring, `status, fAddressSpace`fRoot
    {
      && BlockDwords(fPipe) <= fRing.Length < 0x400_0000
      && fRingTail % 4 == 0 && fRingTail / 4 % BlockDwords(fPipe) == 0 && fRingTail / 4 < fRing.Length
      && 1 <= fNextSeqno <= SEQNO_LIMIT
      && |fRegisterState| == IMAGE_DWORDS && |ring| == fRing.Length && |status| == 6
      && fFencePage % PAGE_SIZE == 0 && fFencePage <= 0x1_0000_0000 - PAGE_SIZE
      && fContext % PAGE_SIZE == 0 && fContext < 0x1_0000_0000
      && Rooted() && Ringed()
    }

    /** The image names the context's own page tables. */
    ghost predicate Rooted()
      reads `image, fAddressSpace`fRoot
    {
      && |image| == IMAGE_DWORDS
      && Root() == fAddressSpace.fRoot
    }

    /** The image names the context's own ring: where it starts, that it is there
        at all, and for a ring of whole pages how many those are. */
    ghost predicate Ringed()
      reads `image
    {
      && |image| == IMAGE_DWORDS
      && image[STATE_RING_START] == fRingAddress && image[STATE_RING_CONTROL] % 2 == 1
      && (RingSize() % PAGE_SIZE == 0 ==> image[STATE_RING_CONTROL] / PAGE_SIZE + 1 == RingSize() / PAGE_SIZE)
    }

    function Root(): nat
      reads `image
    {
      if |image| == IMAGE_DWORDS
      then Wide(image[STATE_PAGE_DIRECTORY_LOWER], image[STATE_PAGE_DIRECTORY_UPPER]) else 0
    }

    /** A context of its own on a shared scheduler: what InitClient leaves once
        the GTT has placed its buffers. */
    constructor (scheduler: Scheduler, addressSpace: PageTables, pipe: bool, device: nat, revision: nat,
                 context: nat, fencePage: nat, statusPage: nat, ringAddress: uint32, ringDwords: nat, memory: set<int>)
      requires addressSpace.Valid() && (!scheduler.fFaulted ==> scheduler.Idle())
      requires fencePage % PAGE_SIZE == 0 && fencePage < 0x1_0000_0000
      requires context % PAGE_SIZE == 0 && context < 0x1_0000_0000
      requires BlockDwords(pipe) <= ringDwords < 0x400_0000
      ensures fScheduler == scheduler && fAddressSpace == addressSpace && fContext == context && fPipe == pipe
      ensures fMemory == memory
      ensures Valid() && fReady && !fFaulted && fNextSeqno == 1 && fresh(fRing) && RingSize() == ringDwords * 4
      ensures Describes(image, Intended(Layout(fPipe), if fPipe then 0x2000 else 0x22000)) && Starting(image)
    {
      hide Describes, Layout, Intended, Starting, RingControl, Rooted, Ringed, PageTables.Valid;
      fScheduler, fAddressSpace, fPipe, fDevice, fRevision := scheduler, addressSpace, pipe, device, revision;
      fContext, fFencePage, fStatusPage, fRingAddress, fMemory := context, fencePage, statusPage, ringAddress, memory;
      fRing := new uint32[ringDwords](_ => 0);
      fReady, fFaulted, fRingTail, fNextSeqno := true, false, 0, 1;
      fRegisterState, image, ring := [], [], seq(ringDwords, _ => 0);
      fence, status := 0, seq(STATUS_ENTRIES, _ => StatusEntry(0, 0));
      new;
      InitContext();
    }

    function Base(): uint32 {
      if fPipe then 0x2000 else 0x22000
    }

    /** Every register offset and header of the layout is in its place. */
    ghost predicate Describes(words: seq<uint32>, layout: Image) {
      |layout| <= |words| && forall i :: 0 <= i < |layout| && layout[i].Some? ==> words[i] == layout[i].value
    }

    /** What a new context starts with: an empty ring that is not stopped, the batch
        in its own address space, and nothing saved to be restored. */
    ghost predicate Starting(words: seq<uint32>) {
      && |words| == IMAGE_DWORDS
      && words[STATE_RING_HEAD] == words[STATE_RING_TAIL] == words[STATE_TIMESTAMP] == 0
      && Sets(words[STATE_CONTEXT_CONTROL], 1, true) && Sets(words[STATE_CONTEXT_CONTROL], 8, true)
      && Sets(words[STATE_CONTEXT_CONTROL], 2, false) && Sets(words[STATE_CONTEXT_CONTROL], 4, false)
      && Sets(words[STATE_MI_MODE], 0x100, false) && On(words[STATE_BATCH_BUFFER_STATE], 0x20)
    }

    /** (fRingSize - B_PAGE_SIZE) | kRingValid, in 32 bits. */
    function RingControl(): uint32 {
      var size := (RingSize() - PAGE_SIZE) % 0x1_0000_0000;
      if size % 2 == 0 then size + 1 else size
    }

    lemma RingDescribed()
      requires 0 < RingSize() < 0x1000_0000
      ensures RingControl() % 2 == 1
      ensures RingSize() % PAGE_SIZE == 0 ==> RingControl() / PAGE_SIZE + 1 == RingSize() / PAGE_SIZE
    {
      var size := (RingSize() - PAGE_SIZE) % 0x1_0000_0000;
      Parts(size / 2, 2, 1);
      if RingSize() % PAGE_SIZE == 0 {
        var pages := RingSize() / PAGE_SIZE - 1;
        assert size == RingSize() - PAGE_SIZE == pages * PAGE_SIZE;
        Parts(pages * 2048, 2, 0);
        Parts(pages, PAGE_SIZE, 1);
        assert pages * PAGE_SIZE == pages * 2048 * 2;
      }
    }

    /** _InitContext: the image is decoded from the layout, and the values go
        between the register offsets. */
    method InitContext()
      requires fAddressSpace.Valid() && fRingAddress < 0x1_0000_0000 && 0 < RingSize() < 0x1000_0000
      modifies `fRegisterState, `image
      ensures |fRegisterState| == |image| == IMAGE_DWORDS && Rooted() && Ringed() && image[STATE_RING_HEAD] == 0
      ensures Starting(image) && image[STATE_CONTEXT_CONTROL] == 0xf_0009
      ensures image[STATE_RING_START] == fRingAddress && image[STATE_RING_CONTROL] == RingControl()
      ensures Describes(image, Intended(Layout(fPipe), if fPipe then 0x2000 else 0x22000))
    {
      hide Layout, Bytes, Intended, Describes, PageTables.Valid;
      fAddressSpace.RootFits();
      var state := new uint32[IMAGE_DWORDS](_ => 0);
      LoadStarts(fPipe, Base());
      WriteStateLayout(state, Base(), Bytes(Layout(fPipe)), Layout(fPipe));
      ghost var layout := Intended(Layout(fPipe), Base());
      ShippedLayouts(fPipe, Base());
      Decoded(state[..], layout);
      SetRing(state, layout);
      SetRest(state, layout);
      RingDescribed();
      fRegisterState := state[..];
      image := fRegisterState;
    }

    /** The context control word and the ring. */
    method SetRing(state: array<uint32>, ghost layout: Image)
      requires state.Length == IMAGE_DWORDS && |layout| <= IMAGE_DWORDS && Describes(state[..], layout)
      requires fRingAddress < 0x1_0000_0000 && Free(layout)
      modifies state
      ensures Describes(state[..], layout)
      ensures state[STATE_CONTEXT_CONTROL] == 0xf_0009 && state[STATE_RING_HEAD] == state[STATE_RING_TAIL] == 0
      ensures state[STATE_RING_START] == fRingAddress && state[STATE_RING_CONTROL] == RingControl()
    {
      hide Describes, RingControl;
      // InhibitSyn and RestoreInhibit on, bits 1 and 2 off.
      SetValue(state, STATE_CONTEXT_CONTROL, 0xf_0009, layout);
      SetValue(state, STATE_RING_HEAD, 0, layout);
      SetValue(state, STATE_RING_TAIL, 0, layout);
      SetValue(state, STATE_RING_START, fRingAddress, layout);
      SetValue(state, STATE_RING_CONTROL, RingControl(), layout);
    }

    /** The batches' address space, the time, the page tables and the stop bit. */
    method SetRest(state: array<uint32>, ghost layout: Image)
      requires state.Length == IMAGE_DWORDS && |layout| <= IMAGE_DWORDS && Describes(state[..], layout)
      requires 0 <= fAddressSpace.fRoot < 0x1_0000_0000_0000_0000 && Free(layout)
      modifies state
      ensures Describes(state[..], layout)
      ensures state[STATE_BATCH_BUFFER_STATE] == 0x20 && state[STATE_TIMESTAMP] == 0
      ensures Wide(state[STATE_PAGE_DIRECTORY_LOWER], state[STATE_PAGE_DIRECTORY_UPPER]) == fAddressSpace.fRoot
      ensures state[STATE_MI_MODE] == 0x100_0000
      ensures forall i :: 0 <= i < STATE_BATCH_BUFFER_STATE ==> state[i] == old(state[i])
    {
      hide Describes;
      var root := fAddressSpace.fRoot;
      SetValue(state, STATE_BATCH_BUFFER_STATE, 0x20, layout);
      SetValue(state, STATE_TIMESTAMP, 0, layout);
      SetValue(state, STATE_PAGE_DIRECTORY_UPPER, root / 0x1_0000_0000, layout);
      SetValue(state, STATE_PAGE_DIRECTORY_LOWER, root % 0x1_0000_0000, layout);
      SetValue(state, STATE_MI_MODE, 0x100_0000, layout);
    }

    /** Where the layout leaves room for the driver's values. */
    ghost predicate Free(layout: Image) {
      && |layout| > STATE_MI_MODE
      && layout[STATE_CONTEXT_CONTROL].None? && layout[STATE_RING_HEAD].None? && layout[STATE_RING_TAIL].None?
      && layout[STATE_RING_START].None? && layout[STATE_RING_CONTROL].None? && layout[STATE_BATCH_BUFFER_STATE].None?
      && layout[STATE_TIMESTAMP].None? && layout[STATE_PAGE_DIRECTORY_UPPER].None?
      && layout[STATE_PAGE_DIRECTORY_LOWER].None? && layout[STATE_MI_MODE].None?
    }

    lemma Decoded(words: seq<uint32>, layout: Image)
      requires |layout| <= |words|
      requires forall i :: 0 <= i < |layout| && layout[i].Some? ==> words[i] == layout[i].value
      ensures Describes(words, layout)
    {}

    /** A value goes where the layout leaves room for one. */
    method SetValue(state: array<uint32>, index: nat, value: uint32, ghost layout: Image)
      requires state.Length == IMAGE_DWORDS && index < |layout| <= IMAGE_DWORDS && layout[index].None?
      requires Describes(state[..], layout)
      modifies state
      ensures state[..] == old(state[..])[index := value] && Describes(state[..], layout)
    {
      state[index] := value;
    }

    // ------------------------------------------------------------- the GPU

    /** The fence slot once a job has run, which found `before` there. */
    function After(job: Job, before: uint32): uint32 {
      if job.commands.None? then before
      else
        var last := Last(job.commands.value, fFencePage + 0x100);
        if last.Some? then last.value else before
    }

    /** The port was written for this context and the GPU is at it, or through
        with it: it stores the fence when it runs the ring to its end and reports
        a completed switch only once the context has been saved. */
    ghost predicate Running(before: uint32)
      reads `fRingTail, `fence, `status, `image, fScheduler`log, fScheduler`finished, fScheduler`executed
    {
      && fScheduler.log != [] && |fScheduler.log| - 1 <= fScheduler.finished <= |fScheduler.log|
      && |image| == IMAGE_DWORDS && image[STATE_RING_TAIL] == fRingTail
      && fence == (if fScheduler.executed then After(fScheduler.log[|fScheduler.log| - 1], before) else before)
      && (fScheduler.Idle() ==> fScheduler.executed && image[STATE_RING_HEAD] == fRingTail)
      && (forall i :: 0 <= i < |status| && Saved(status[i]) ==> fScheduler.Idle())
    }

    /** What the GPU reports when it has saved this context, whose image is in page
        Id(): active to idle, bit 3, and complete, bit 4. */
    predicate Saved(entry: StatusEntry) {
      On(entry.flags, 0x8) && On(entry.flags, 0x10) && entry.context == fContext / 4096
    }

    /** One thing the GPU may do, or not. */
    method GpuStep(ghost before: uint32)
      requires Shape() && Running(before)
      modifies `fence, `status, `image, fScheduler`finished, fScheduler`executed
      ensures Shape() && Running(before)
    {
      var choice: nat := *;
      var at: nat, entry: StatusEntry, saved: seq<uint32> := *, StatusEntry(0, 0), *;
      var flags: uint32, context: uint32 := *, *;
      entry := StatusEntry(flags, context);
      if choice == 0 && !fScheduler.executed {
        fence := After(fScheduler.log[|fScheduler.log| - 1], fence);
        fScheduler.executed := true;
      } else if choice == 1 && at < 6 && !Saved(entry) {
        status := status[at := entry];
      } else if choice == 2 && at < 6 && Saved(entry) && fScheduler.executed && |saved| == IMAGE_DWORDS
                && saved[STATE_RING_HEAD] == saved[STATE_RING_TAIL] == fRingTail
                && saved[STATE_PAGE_DIRECTORY_LOWER] == image[STATE_PAGE_DIRECTORY_LOWER]
                && saved[STATE_PAGE_DIRECTORY_UPPER] == image[STATE_PAGE_DIRECTORY_UPPER]
                && saved[STATE_RING_START] == image[STATE_RING_START]
                && saved[STATE_RING_CONTROL] == image[STATE_RING_CONTROL] {
        image, fScheduler.finished := saved, |fScheduler.log|;
        status := status[at := entry];
      }
    }

    /** What the port makes the GPU fetch: all of it from memory, and the tail in
        whole quadwords. */
    function Fetched(descriptor: nat): Job
      requires |image| == IMAGE_DWORDS
      reads `image, `ring
    {
      var head, tail := image[STATE_RING_HEAD], image[STATE_RING_TAIL];
      var described := Takes(descriptor, fContext) && tail % 8 == 0
                       && image[STATE_RING_START] == fRingAddress && On(image[STATE_RING_CONTROL], 1);
      Job(descriptor / 0x1_0000_0000, Sets(image[STATE_CONTEXT_CONTROL], 1, false),
          if described && head / 4 <= |ring| && tail / 4 <= |ring| then Parse(Ahead(ring, head / 4, tail / 4))
          else None, Root())
    }

    /** The write of the port. It may only happen when everything before it has
        finished and been saved, with the status page empty and in place and
        every page table entry in memory. */
    method WritePort()
      requires Shape() && fScheduler.Idle() && fScheduler.fHardwareStatusPage == fStatusPage
      requires !Reported()
      requires image[STATE_RING_TAIL] == fRingTail
      requires fAddressSpace.Valid() && !fAddressSpace.fDirty
      modifies fScheduler`log, fScheduler`executed
      ensures Running(fence) && !fScheduler.Idle()
      ensures |image| == IMAGE_DWORDS && fScheduler.log == old(fScheduler.log) + [Fetched(Descriptor())]
              && Root() == fAddressSpace.fRoot
    {
      fScheduler.log, fScheduler.executed := fScheduler.log + [Fetched(Descriptor())], false;
    }

    /** What can be told from the fence while the GPU has the context. */
    lemma RunningMeans(before: uint32)
      requires Running(before)
      ensures fence == before || fence == After(fScheduler.log[|fScheduler.log| - 1], before)
      ensures fScheduler.Idle() ==>
        && fence == After(fScheduler.log[|fScheduler.log| - 1], before)
        && |image| == IMAGE_DWORDS && image[STATE_RING_HEAD] == fRingTail
    {}

    // ----------------------------------------------------------- the waits

    /** _WaitSeqno: poll until the fence is there or time is up. */
    method WaitSeqno(seqno: nat, ghost before: uint32) returns (result: Status)
      requires Shape() && (fence >= seqno || Running(before))
      modifies `fence, `status, `image, fScheduler`finished, fScheduler`executed
      ensures Shape() && (old(fence) >= seqno || Running(before))
      ensures old(fence) >= seqno ==> result.Ok? && unchanged(this) && unchanged(fScheduler)
      ensures result == if fence >= seqno then Ok else TimedOut
    {
      hide Shape, Running;
      if fence >= seqno {
        return Ok;
      }
      var polls: nat :| polls >= 0;
      for i := 0 to polls
        invariant Shape() && Running(before) && fence < seqno
      {
        GpuStep(before);
        if fence >= seqno {
          return Ok;
        }
      }
      return TimedOut;
    }

    /** _WaitContextSaved: poll the status entries for this context's. */
    method WaitContextSaved(ghost before: uint32) returns (result: Status)
      requires Shape() && Running(before)
      modifies `fence, `status, `image, fScheduler`finished, fScheduler`executed
      ensures Shape() && Running(before)
      ensures result.Ok? ==> fScheduler.Idle()
      ensures result == if Reported() then Ok else TimedOut
    {
      hide Shape, Saved;
      var polls: nat :| polls >= 1;
      for k := 0 to polls
        invariant Shape() && Running(before) && (k > 0 ==> !Reported())
      {
        GpuStep(before);
        var saved := AnySaved();
        if saved {
          return Ok;
        }
      }
      return TimedOut;
    }

    /** The GPU has reported this context saved. */
    ghost predicate Reported()
      reads `status
    {
      exists i :: 0 <= i < |status| && Saved(status[i])
    }

    /** Whether both bits of one of the six entries are up, for this context. */
    method AnySaved() returns (saved: bool)
      requires Shape()
      ensures saved <==> Reported()
    {
      hide Saved, Shape;
      SixEntries();
      for i := 0 to STATUS_ENTRIES
        invariant forall j :: 0 <= j < i ==> !Saved(status[j])
      {
        SavedBits(status[i]);
        if status[i].flags / 8 % 4 == 3 && status[i].context == Id() {
          return true;
        }
      }
      return false;
    }

    lemma SixEntries()
      requires Shape()
      ensures |status| == STATUS_ENTRIES
    {}

    lemma SavedBits(entry: StatusEntry)
      ensures Saved(entry) <==> entry.flags / 8 % 4 == 3 && entry.context == Id()
    {
      var eighths := entry.flags / 8;
      assert entry.flags / 0x10 == eighths / 2;
      assert eighths % 4 == 2 * (eighths / 2 % 2) + eighths % 2;
    }

    // ------------------------------------------------------------ the ring

    /** What the GPU is to find for a batch: on a ring position it can see, the
        program for that batch with nothing but padding around it. */
    ghost predicate Shows(commands: Option<seq<Command>>, batch: uint64, seqno: uint32, tail: nat)
      requires fFencePage <= 0x1_0000_0000 - PAGE_SIZE
    {
      if Visible(tail, BlockDwords(fPipe), fRing.Length) then
        exists n, m :: commands == Some(Around(n, batch, seqno, m))
      else commands == Some([])
    }

    /** A job that can be seen runs its batch. */
    lemma ShowsRuns(commands: Option<seq<Command>>, batch: uint64, seqno: uint32, tail: nat)
      requires fFencePage <= 0x1_0000_0000 - PAGE_SIZE && Shows(commands, batch, seqno, tail)
      requires Visible(tail, BlockDwords(fPipe), fRing.Length)
      ensures commands.Some? && RunsBatch(commands.value, fPipe, fDevice, fRevision, batch, FenceSlot(), seqno)
    {
      hide Program, RunsBatch;
      var n, m :| commands == Some(Around(n, batch, seqno, m));
      PaddedRuns(fPipe, fDevice, fRevision, batch, FenceSlot(), seqno, n, m);
    }

    ghost function Around(n: nat, batch: uint64, seqno: uint32, m: nat): seq<Command>
      requires fFencePage <= 0x1_0000_0000 - PAGE_SIZE
    {
      Noops(n) + Program(fPipe, fDevice, fRevision, batch, FenceSlot(), seqno) + Noops(m)
    }

    /** ring[start .. start + at] holds these commands. */
    ghost predicate Emitted(start: nat, at: nat, cs: seq<Command>)
      reads fRing
    {
      start + at <= fRing.Length && fRing[start..start + at] == EncodeAll(cs)
    }

    /** ring[at++] = ... for each dword of one command. */
    method Append(start: nat, at: nat, c: Command, ghost cs: seq<Command>) returns (next: nat)
      requires Emitted(start, at, cs) && start + at + |Encode(c)| <= fRing.Length
      modifies fRing
      ensures next == at + |Encode(c)| && Emitted(start, next, cs + [c])
    {
      hide Encode, EncodeAll;
      var words := Encode(c);
      for k := 0 to |words|
        invariant forall i :: 0 <= i < fRing.Length ==>
                    fRing[i] == if start + at <= i < start + at + k then words[i - start - at] else old(fRing[i])
      {
        fRing[start + at + k] := words[k];
      }
      next := at + |words|;
      EncodeOneMore(cs, c);
      assert fRing[start..start + next] == fRing[start..start + at] + words;
      assert fRing[start..start + at] == old(fRing[start..start + at]);
    }

    method AppendMaskedRegister(start: nat, at: nat, register: uint32, mask: nat, value: nat, ghost cs: seq<Command>)
      returns (next: nat)
      requires mask < 0x1_0000 && value < 0x1_0000
      requires Emitted(start, at, cs) && start + at + 3 <= fRing.Length
      modifies fRing
      ensures next == at + 3 && Emitted(start, next, cs + [Masked(register, mask, value)])
    {
      hide EncodeAll;
      next := Append(start, at, LoadRegister(register, mask * 0x1_0000 + value), cs);
    }

    /** _AppendRenderWorkarounds. */
    method AppendRenderWorkarounds(start: nat) returns (at: nat)
      requires start + 64 <= fRing.Length
      modifies fRing
      ensures at <= 30 && Emitted(start, at, Workarounds(fDevice, fRevision))
    {
      hide Emitted, Masked;
      var commonSlice := 0x2000;
      if KabyLake(fDevice) && fRevision >= 2 {
        commonSlice := commonSlice + 0x100;
      }
      EmittedNothing(start);
      at := AppendMaskedRegister(start, 0, 0x7014, commonSlice, commonSlice, []);
      ghost var cs := [] + [Masked(0x7014, commonSlice, commonSlice)];
      at := AppendMaskedRegister(start, at, 0xe194, 0x114, 0x114, cs);
      cs := cs + [Masked(0xe194, 0x114, 0x114)];
      at := AppendMaskedRegister(start, at, 0xe4f0, 0x8100, 0x8100, cs);
      cs := cs + [Masked(0xe4f0, 0x8100, 0x8100)];
      at := AppendMaskedRegister(start, at, 0x7004, 0x42, 0x42, cs);
      cs := cs + [Masked(0x7004, 0x42, 0x42)];
      at := AppendMaskedRegister(start, at, 0xe188, 8, 0, cs);
      cs := cs + [Masked(0xe188, 8, 0)];
      at := AppendMaskedRegister(start, at, 0x7300, 0x8030, 0x8030, cs);
      cs := cs + [Masked(0x7300, 0x8030, 0x8030)];
      at := AppendMaskedRegister(start, at, 0xe184, 2, 2, cs);
      cs := cs + [Masked(0xe184, 2, 2)];
      at := AppendMaskedRegister(start, at, 0xe180, 0x2000, 0x2000, cs);
      cs := cs + [Masked(0xe180, 0x2000, 0x2000)];
      at := AppendMaskedRegister(start, at, 0x2580, 7, 4, cs);
      cs := cs + [Masked(0x2580, 7, 4)];
      if KabyLake(fDevice) {
        at := AppendMaskedRegister(start, at, 0xe100, 0x10, 0x10, cs);
        cs := cs + [Masked(0xe100, 0x10, 0x10)];
      }
      assert cs == Workarounds(fDevice, fRevision);
    }

    lemma EmittedNothing(start: nat)
      requires start <= fRing.Length
      ensures Emitted(start, 0, [])
    {}

    /** The commands for one batch, and no operation up to the block's size. */
    method EmitProgram(start: nat, batch: uint64, seqno: uint32)
      requires Shape() && start + BlockDwords(fPipe) <= fRing.Length
      modifies fRing
      ensures var cs := Program(fPipe, fDevice, fRevision, batch, FenceSlot(), seqno);
              && |EncodeAll(cs)| <= BlockDwords(fPipe)
              && fRing[start..start + BlockDwords(fPipe)] == Block(cs, BlockDwords(fPipe))
    {
      hide EncodeAll, Workarounds, Emitted;
      var slot := FenceSlot();
      var at := 0;
      ghost var cs := [];
      EmittedNothing(start);
      if fPipe {
        at := AppendRenderWorkarounds(start);
        cs := Workarounds(fDevice, fRevision);
        at := Append(start, at, Pipe(0, 0, 0), cs);
        cs := cs + [Pipe(0, 0, 0)];
        var flags := STALL + TLB_INVALIDATE + QWORD_WRITE + GLOBAL_GTT + INVALIDATE_CACHES;
        at := Append(start, at, Pipe(flags, slot + 8, 0), cs);
        cs := cs + [Pipe(flags, slot + 8, 0)];
      }
      at := Append(start, at, BatchStart(batch), cs);
      cs := cs + [BatchStart(batch)];
      if fPipe {
        var flush := STALL + TLB_INVALIDATE + RENDER_TARGET_FLUSH + DEPTH_FLUSH + DATA_CACHE_FLUSH;
        at := Append(start, at, Pipe(flush, 0, 0), cs);
        cs := cs + [Pipe(flush, 0, 0)];
        var store := QWORD_WRITE + GLOBAL_GTT + PIPE_FLUSH + STALL;
        at := Append(start, at, Pipe(store, slot, seqno), cs);
        cs := cs + [Pipe(store, slot, seqno)];
      } else {
        at := Append(start, at, FlushStore(slot, seqno), cs);
        cs := cs + [FlushStore(slot, seqno)];
      }
      assert cs == Program(fPipe, fDevice, fRevision, batch, slot, seqno);
      PadBlock(start, at, cs);
    }

    /** while (at < kCommandDwords) ring[at++] = kMiNoop. */
    method PadBlock(start: nat, from: nat, ghost cs: seq<Command>)
      requires Emitted(start, from, cs) && from <= BlockDwords(fPipe) && start + BlockDwords(fPipe) <= fRing.Length
      modifies fRing
      ensures |EncodeAll(cs)| == from && fRing[start..start + BlockDwords(fPipe)] == Block(cs, BlockDwords(fPipe))
    {
      hide EncodeAll;
      var at := from;
      while at < BlockDwords(fPipe)
        invariant from <= at <= BlockDwords(fPipe)
        invariant forall i :: 0 <= i < fRing.Length ==>
                    fRing[i] == if start + from <= i < start + at then 0 else old(fRing[i])
      {
        fRing[start + at] := 0;
        at := at + 1;
      }
      ghost var rest := at - from;
      EncodeNoops(rest);
      EncodeAppend(cs, Noops(rest));
      assert fRing[start..start + from] == old(fRing[start..start + from]);
      assert fRing[start..start + at] == fRing[start..start + from] + EncodeAll(Noops(rest));
    }

    /** FlushCpuCache on part of the ring. */
    method FlushRing(from: nat, count: nat)
      requires Shape() && from + count <= fRing.Length
      modifies `ring
      ensures Shape() && |ring| == fRing.Length
      ensures forall i :: 0 <= i < |ring| ==> ring[i] == if from <= i < from + count then fRing[i] else old(ring[i])
    {
      ring := ring[..from] + fRing[from..from + count] + ring[from + count..];
    }

    /** Fill the rest of the ring with no operations when a block does not fit
        behind the tail any more, and start over. */
    method MakeRoom()
      requires Shape()
      modifies fRing, `ring, `fRingTail
      ensures Shape()
      ensures var pad := Padding(old(fRingTail) / 4, BlockDwords(fPipe), fRing.Length);
              && fRingTail == (if pad > 0 then 0 else old(fRingTail))
              && fRingTail / 4 + BlockDwords(fPipe) <= fRing.Length
              && (pad > 0 ==> old(fRingTail) / 4 >= BlockDwords(fPipe))
              && old(fRingTail) / 4 + pad <= |ring|
              && forall i :: old(fRingTail) / 4 <= i < old(fRingTail) / 4 + pad ==> ring[i] == 0
    {
      if fRingTail + BlockBytes() > RingSize() {
        var first, count := fRingTail / 4, (RingSize() - fRingTail) / 4;
        for i := 0 to count
          invariant forall k :: first <= k < first + i ==> fRing[k] == 0
          modifies fRing
        {
          fRing[first + i] := 0;
        }
        FlushRing(first, count);
        fRingTail := 0;
      }
    }

    /** Everything Submit puts into the ring, and the new tail. */
    method FillRing(batch: uint64, seqno: uint32)
      requires Shape()
      modifies fRing, `ring, `fRingTail
      ensures Shape()
      ensures Shows(Parse(Ahead(ring, old(fRingTail) / 4, fRingTail / 4)), batch, seqno, old(fRingTail) / 4)
    {
      hide Shape, Parse, EncodeAll, Program, Ahead, Visible, Padding, Block, Shows;
      InRing();
      ghost var tail := fRingTail / 4;
      ghost var pad := Padding(tail, BlockDwords(fPipe), fRing.Length);
      MakeRoom();
      InRing();
      var start := fRingTail / 4;
      EmitProgram(start, batch, seqno);
      FlushRing(start, BlockDwords(fPipe));
      assert ring[start..start + BlockDwords(fPipe)] == fRing[start..start + BlockDwords(fPipe)];
      Advance();
      EncodeNoops(pad);
      Filled(ring, tail, pad, batch, seqno);
    }

    /** fRingTail = (fRingTail + kCommandDwords * 4) % fRingSize. */
    method Advance()
      requires Shape() && fRingTail / 4 + BlockDwords(fPipe) <= fRing.Length
      modifies `fRingTail
      ensures Shape()
      ensures var end := old(fRingTail) / 4 + BlockDwords(fPipe);
              fRingTail / 4 == if end == fRing.Length then 0 else end
    {
      StepAligned(0, fPipe);
      StepAligned(fRingTail / 4, fPipe);
      Wrapped(fRingTail + BlockBytes(), RingSize());
      fRingTail := (fRingTail + BlockBytes()) % RingSize();
    }

    /** With padding and block in memory, the GPU sees the program. */
    lemma Filled(memory: seq<uint32>, tail: nat, pad: nat, batch: uint64, seqno: uint32)
      requires fFencePage <= 0x1_0000_0000 - PAGE_SIZE && fFencePage % PAGE_SIZE == 0
      requires BlockDwords(fPipe) <= |memory| && tail % BlockDwords(fPipe) == 0 && tail < |memory|
      requires pad == Padding(tail, BlockDwords(fPipe), |memory|) && tail + pad <= |memory|
      requires forall i :: tail <= i < tail + pad ==> memory[i] == 0
      requires var start := if pad > 0 then 0 else tail;
               var cs := Program(fPipe, fDevice, fRevision, batch, FenceSlot(), seqno);
               && start + BlockDwords(fPipe) <= |memory| && |EncodeAll(cs)| <= BlockDwords(fPipe)
               && memory[start..start + BlockDwords(fPipe)] == Block(cs, BlockDwords(fPipe))
      ensures var next := NextTail(tail, BlockDwords(fPipe), |memory|);
              && next % BlockDwords(fPipe) == 0 && next < |memory|
              && (|memory| == fRing.Length ==> Shows(Parse(Ahead(memory, tail, next)), batch, seqno, tail))
    {
      hide Parse, EncodeAll, Program, Ahead, Visible, Block, Padding, NextTail;
      var cs := Program(fPipe, fDevice, fRevision, batch, FenceSlot(), seqno);
      EncodeNoops(pad);
      EncodableProgram(fPipe, fDevice, fRevision, batch, FenceSlot(), seqno);
      ParseBlock(cs, BlockDwords(fPipe), pad);
      assert memory[tail..tail + pad] == EncodeAll(Noops(pad));
      BlockAhead(memory, tail, EncodeAll(Noops(pad)), Block(cs, BlockDwords(fPipe)), fPipe);
      ParseNothing();
      assert Noops(pad) + cs + Noops(BlockDwords(fPipe) - |EncodeAll(cs)|)
          == Around(pad, batch, seqno, BlockDwords(fPipe) - |EncodeAll(cs)|);
    }

    /** fNextSeqno++. */
    method TakeSeqno() returns (seqno: nat)
      requires Shape() && fNextSeqno < SEQNO_LIMIT
      modifies `fNextSeqno
      ensures Shape() && seqno == old(fNextSeqno) < SEQNO_LIMIT && fNextSeqno == seqno + 1
    {
      seqno := fNextSeqno;
      fNextSeqno := fNextSeqno + 1;
    }

    lemma Fence()
      requires Shape()
      ensures fFencePage <= 0x1_0000_0000 - PAGE_SIZE && BlockDwords(fPipe) <= 64
    {}

    lemma InRing()
      requires Shape()
      ensures fRingTail / 4 < fRing.Length == |ring| && fRingTail / 4 % BlockDwords(fPipe) == 0 && fRingTail % 8 == 0
      ensures BlockDwords(fPipe) <= fRing.Length && fFencePage % PAGE_SIZE == 0
              && fFencePage <= 0x1_0000_0000 - PAGE_SIZE && |image| == IMAGE_DWORDS
      ensures image[STATE_RING_START] == fRingAddress && On(image[STATE_RING_CONTROL], 1)
      ensures fContext % PAGE_SIZE == 0 && fContext < 0x1_0000_0000
    {
      WholeQuads(fRingTail, fPipe);
    }

    method FlushTables()
      requires fAddressSpace.Valid()
      modifies fAddressSpace`memory, fAddressSpace`fDirty
      ensures fAddressSpace.Valid() && !fAddressSpace.fDirty
    {
      fAddressSpace.Flush();
    }

    /** _UpdateTail, after the fetch of the image the GPU saved last. */
    method UpdateImage(first: bool)
      requires Shape()
      modifies `fRegisterState, `image
      ensures Shape() && image[STATE_RING_TAIL] == fRingTail && image[STATE_RING_HEAD] == old(image[STATE_RING_HEAD])
      ensures image[STATE_CONTEXT_CONTROL] == if first then old(image[STATE_CONTEXT_CONTROL]) else 0xf_0008
    {
      fRegisterState := image;
      if !first {
        // RestoreInhibit off from the second submission on.
        fRegisterState := fRegisterState[STATE_CONTEXT_CONTROL := 0xf_0008];
      }
      fRegisterState := fRegisterState[STATE_RING_TAIL := fRingTail];
      image := fRegisterState;
    }

    /** The status page, emptied and put in place for this context. */
    method ClearStatus()
      requires Shape()
      modifies `status, fScheduler`fHardwareStatusPage
      ensures Shape() && fScheduler.fHardwareStatusPage == fStatusPage
      ensures !Reported()
    {
      status := seq(STATUS_ENTRIES, _ => StatusEntry(0, 0));
      fScheduler.fHardwareStatusPage := fStatusPage;
    }

    /** Run one batch and wait for it. The port is written at most once, and
        only with everything before it finished and saved; a fence comes back
        exactly when the batch has run and the context is saved, and it is one
        more than the last. When the GPU does not answer, this context and the
        whole engine are faulted for good. `awake` is whether the hardware wakes up
        in time when it is told to. */
    method Submit(batch: uint64, length: uint32, awake: bool) returns (result: Status, seqno: nat)
      requires Valid() && fAddressSpace.Valid()
      modifies this, fRing, fScheduler, fAddressSpace`memory, fAddressSpace`fDirty
      ensures Valid() && fAddressSpace.Valid() && fReady == old(fReady)
      ensures !fReady ==> result == NoInit
      ensures fReady && (length == 0 || batch % 4 != 0) ==> result == BadValue
      ensures fReady && length > 0 && batch % 4 == 0 && (old(fScheduler.fFaulted) || old(fFaulted)) ==>
        result == DevNotReady
      ensures fReady && length > 0 && batch % 4 == 0 && !old(fScheduler.fFaulted) && old(fNextSeqno) >= 0x7fff_ffff ==>
        result == NoMemory
      ensures |fScheduler.log| == |old(fScheduler.log)| ==> !result.Ok? && unchanged(this) && unchanged(fScheduler)
      ensures |fScheduler.log| != |old(fScheduler.log)| <==>
        && old(fReady) && length > 0 && batch % 4 == 0 && !old(fScheduler.fFaulted) && !old(fFaulted)
        && old(fNextSeqno) < 0x7fff_ffff && awake
      ensures |fScheduler.log| != |old(fScheduler.log)| ==>
        && old(fScheduler.Idle())
        && Launched(old(fScheduler.log), batch, old(fNextSeqno), old(fRingTail) / 4) && !fAddressSpace.fDirty
        && fNextSeqno == old(fNextSeqno) + 1 && Running(old(fence))
        && (result.Ok? || (result == TimedOut && fFaulted && fScheduler.fFaulted
                             && (fence < old(fNextSeqno) || !Reported())))
      ensures result.Ok? ==>
        && |fScheduler.log| > |old(fScheduler.log)| && fScheduler.Idle() && !fFaulted && !fScheduler.fFaulted
        && seqno == old(fNextSeqno) == fence && Visible(old(fRingTail) / 4, BlockDwords(fPipe), fRing.Length)
    {
      hide Shape, Running, Shows;
      seqno := 0;
      if !fReady {
        return NoInit, seqno;
      }
      if length == 0 || batch % 4 != 0 {
        return BadValue, seqno;
      }
      if fScheduler.fFaulted || fFaulted {
        return DevNotReady, seqno;
      }
      if fNextSeqno >= SEQNO_LIMIT {
        return NoMemory, seqno;
      }
      if fNextSeqno > 1 {
        result := WaitSeqno(fNextSeqno - 1, fence);
        if !result.Ok? {
          return;
        }
      }
      if !awake {
        return TimedOut, seqno;
      }
      result, seqno := SubmitAwake(batch);
    }

    /** The port's log has one more job: this context's, restored unless there is
        nothing saved of it yet, for this batch. */
    ghost predicate Launched(before: seq<Job>, batch: uint64, seqno: uint32, tail: nat)
      requires fFencePage <= 0x1_0000_0000 - PAGE_SIZE
      reads fScheduler, fAddressSpace`fRoot
    {
      && |fScheduler.log| == |before| + 1 && fScheduler.log[..|before|] == before
      && var job := fScheduler.log[|before|];
         && job.context == Id() && job.root == fAddressSpace.fRoot && (job.restored <==> seqno > 1)
         && Shows(job.commands, batch, seqno, tail)
         && (Visible(tail, BlockDwords(fPipe), fRing.Length) ==> Performs(job, batch, seqno))
    }

    /** What the job makes the GPU do, by what the hardware makes of commands. */
    ghost predicate Performs(job: Job, batch: uint64, seqno: uint32)
      requires fFencePage <= 0x1_0000_0000 - PAGE_SIZE
    {
      job.commands.Some? && RunsBatch(job.commands.value, fPipe, fDevice, fRevision, batch, fFencePage + 0x100, seqno)
    }

    /** The image, the status page, and the write of the port. */
    method HandOver(first: bool)
      requires Shape() && fAddressSpace.Valid() && !fAddressSpace.fDirty && fScheduler.Idle()
      requires |image| == IMAGE_DWORDS && image[STATE_RING_HEAD] / 4 <= |ring|
      requires first ==> image[STATE_CONTEXT_CONTROL] == 0xf_0009
      modifies `fRegisterState, `image, `status
      modifies fScheduler`log, fScheduler`executed, fScheduler`fHardwareStatusPage
      ensures Shape() && Running(fence)
      ensures fRingTail / 4 <= |ring|
      ensures var commands := Parse(Ahead(ring, old(image[STATE_RING_HEAD]) / 4, fRingTail / 4));
              fScheduler.log == old(fScheduler.log) + [Job(Id(), !first, commands, fAddressSpace.fRoot)]
    {
      hide Shape, Running, Parse, Ahead, Takes, Descriptor, PageTables.Valid;
      InRing();
      UpdateImage(first);
      ClearStatus();
      InRing();
      DescriptorFields();
      WritePort();
    }

    /** From the awake engine to the write of its port. */
    method Launch(batch: uint64) returns (seqno: nat)
      requires Valid() && fAddressSpace.Valid() && !fScheduler.fFaulted && fNextSeqno < SEQNO_LIMIT
      modifies `fNextSeqno, `fRingTail, `ring, `fRegisterState, `image, `status, fRing
      modifies fScheduler`log, fScheduler`executed, fScheduler`fHardwareStatusPage
      modifies fAddressSpace`memory, fAddressSpace`fDirty
      ensures seqno == old(fNextSeqno) == fence + 1 && fNextSeqno == seqno + 1 && seqno < SEQNO_LIMIT
      ensures Shape() && fAddressSpace.Valid() && !fAddressSpace.fDirty && Running(fence)
      ensures Launched(old(fScheduler.log), batch, seqno, old(fRingTail) / 4)
      ensures After(fScheduler.log[|old(fScheduler.log)|], fence) ==
              if Visible(old(fRingTail) / 4, BlockDwords(fPipe), fRing.Length) then seqno else fence
    {
      hide Shape, Running, Program, Parse, Ahead, Visible, EncodeAll, Last, Shows, RunsBatch, PageTables.Valid;
      var first := fNextSeqno == 1;
      FlushTables();
      seqno := TakeSeqno();
      ghost var tail := fRingTail / 4;
      InRing();
      FillRing(batch, seqno);
      InRing();
      HandOver(first);
      Leaves(fScheduler.log[|fScheduler.log| - 1], batch, seqno, tail, fence);
      if Visible(tail, BlockDwords(fPipe), fRing.Length) {
        ShowsRuns(fScheduler.log[|fScheduler.log| - 1].commands, batch, seqno, tail);
      }
    }

    method SubmitAwake(batch: uint64) returns (result: Status, seqno: nat)
      requires Valid() && fAddressSpace.Valid() && fReady && !fScheduler.fFaulted && fNextSeqno < SEQNO_LIMIT
      modifies this, fRing, fScheduler, fAddressSpace`memory, fAddressSpace`fDirty
      ensures Valid() && fAddressSpace.Valid() && fReady && !fAddressSpace.fDirty
      ensures Launched(old(fScheduler.log), batch, old(fNextSeqno), old(fRingTail) / 4)
      ensures fNextSeqno == old(fNextSeqno) + 1 && Running(old(fence))
      ensures result.Ok? || (result == TimedOut && fFaulted && fScheduler.fFaulted)
      ensures !result.Ok? ==> fence < old(fNextSeqno) || !Reported()
      ensures result.Ok? ==>
        && fScheduler.Idle() && !fFaulted && !fScheduler.fFaulted
        && seqno == old(fNextSeqno) == fence && Visible(old(fRingTail) / 4, BlockDwords(fPipe), fRing.Length)
    {
      hide Shape, Running, Visible, Shows, After, PageTables.Valid;
      ghost var before := fence;
      seqno := Launch(batch);
      result := WaitSeqno(seqno, before);
      RunningMeans(before);
      if result.Ok? {
        result := WaitContextSaved(before);
      }
      RunningMeans(before);
      if !result.Ok? {
        fFaulted := true;
        fScheduler.fFaulted := true;
      }
    }

    /** A state of the interleaving machine, with nobody inside, says of this
        context and of the engine what is the case. */
    ghost predicate Matches(s: X.State)
      reads this, fScheduler
    {
      && s.lock.None? && s.faulted == fScheduler.fFaulted && (s.work.None? <==> fScheduler.Idle())
      && |s.writes| == |fScheduler.log|
      && (forall i :: 0 <= i < |s.writes| ==> s.writes[i].0 == fScheduler.log[i].context)
      && Id() in s.contexts
      && var c := s.contexts[Id()];
         c.next == fNextSeqno && c.fence == fence && c.faulted == fFaulted
    }

    /** Submit, followed in the interleaving machine: whatever happens is a run of
        it, from a state that matches to one that does; the port is written when
        that run launches, and the fence is the one it returns. So what is proved
        of all runs of that machine holds of what this code does in them. */
    method SubmitFollowed(batch: uint64, length: uint32, awake: bool, ghost thread: nat, ghost s: X.State)
      returns (result: Status, seqno: nat, ghost t: X.State, ghost steps: seq<X.Step>)
      requires Valid() && fAddressSpace.Valid() && 2 * BlockDwords(fPipe) <= fRing.Length
      requires Matches(s) && X.At(s, thread).Outside?
      modifies this, fRing, fScheduler, fAddressSpace`memory, fAddressSpace`fDirty
      ensures Valid() && fAddressSpace.Valid()
      ensures X.Run(s, steps) == Some(t) && Matches(t) && X.At(t, thread).Outside?
      ensures X.Launch(thread) in steps <==> |fScheduler.log| != |old(fScheduler.log)|
      ensures Id() in s.contexts && Id() in t.contexts
      ensures t.contexts[Id()].returned == s.contexts[Id()].returned + if result.Ok? then [seqno] else []
      ensures forall c :: c in s.contexts && c != Id() ==> c in t.contexts && t.contexts[c] == s.contexts[c]
    {
      hide Shape, Shows, Running, After, PageTables.Valid, X.Run, X.Enabled, X.Apply;
      ghost var tail, before := fRingTail / 4, fence;
      Counted();
      result, seqno := Submit(batch, length, awake);
      if |fScheduler.log| == |old(fScheduler.log)| {
        steps, t := [X.Acquire(thread, Id()), X.Refuse(thread)], s.(threads := s.threads[thread := X.Outside]);
        X.RefusalLeads(s, thread, Id());
      } else {
        Fence();
        GpuHas(before);
        Leaves(fScheduler.log[|fScheduler.log| - 1], batch, old(fNextSeqno), tail, before);
        ghost var executed, saved := fScheduler.executed, fScheduler.Idle();
        steps := X.Way(thread, Id(), executed, saved, result.Ok?);
        t := X.Submitted(s, thread, Id(), executed, saved, result.Ok?);
        assert steps[1] == X.Launch(thread);
        X.WayLeads(s, thread, Id(), executed, saved, result.Ok?);
      }
    }

    lemma Counted()
      requires Shape()
      ensures 1 <= fNextSeqno <= SEQNO_LIMIT
    {}

    /** What has become of the work the port was written for. */
    lemma GpuHas(before: uint32)
      requires Running(before)
      ensures fScheduler.log != []
      ensures fence == if fScheduler.executed then After(fScheduler.log[|fScheduler.log| - 1], before) else before
      ensures fScheduler.Idle() ==> fScheduler.executed
    {}

    /** Of what it was given the GPU leaves the new sequence number in the fence
        slot, or, if it could not see it, nothing. */
    lemma Leaves(job: Job, batch: uint64, seqno: uint32, tail: nat, before: uint32)
      requires fFencePage <= 0x1_0000_0000 - PAGE_SIZE && Shows(job.commands, batch, seqno, tail)
      ensures After(job, before) == if Visible(tail, BlockDwords(fPipe), fRing.Length) then seqno else before
    {
      hide Program, Visible;
      if Visible(tail, BlockDwords(fPipe), fRing.Length) {
        var n, m :| job.commands == Some(Around(n, batch, seqno, m));
        ProgramLeaves(fPipe, fDevice, fRevision, batch, FenceSlot(), seqno, n, m);
      }
    }
  }

  lemma Wrapped(x: nat, m: nat)
    requires 0 < m && x <= m
    ensures x % m == if x == m then 0 else x
  {}

  lemma EncodeOneMore(cs: seq<Command>, c: Command)
    ensures EncodeAll(cs + [c]) == EncodeAll(cs) + Encode(c)
  {
    EncodeAppend(cs, [c]);
    assert EncodeAll([c]) == Encode(c) + [];
  }
}
