/** The commands a submission puts into a ring: how they are encoded, how the
    hardware tells them apart again by their length fields, and the program
    RenderEngine::Submit writes for one batch. */
module Commands {
  import opened Machine

  const MI_LOAD_REGISTER_IMM := 0x1100_0000
  const MI_BATCH_BUFFER_START := 0x1880_0001
  const BATCH_PER_PROCESS := 0x100
  const MI_FLUSH_DW := 0x1300_0002
  const FLUSH_STORE := 0x4000
  const FLUSH_USE_GLOBAL_GTT := 4
  const PIPE_CONTROL := 0x7a00_0004       // kPipeControl(6)

  // Flags of a PIPE_CONTROL.
  const TLB_INVALIDATE := 0x4_0000
  const STALL := 0x10_0000
  const QWORD_WRITE := 0x4000
  const GLOBAL_GTT := 0x100_0000
  const RENDER_TARGET_FLUSH := 0x1000
  const PIPE_FLUSH := 0x80
  const DATA_CACHE_FLUSH := 0x20
  const DEPTH_FLUSH := 1
  const INVALIDATE_CACHES := 0xc1c        // bits 11, 10, 4, 3 and 2

  /** What the ring holds. A LoadRegister loads one register; a Pipe that has
      QWORD_WRITE among its flags stores low and high at its address. */
  datatype Command =
    | Noop
    | LoadRegister(register: uint32, value: uint32)
    | BatchStart(batch: uint64)
    | Pipe(flags: uint32, slot: uint32, low: uint32)
    | FlushStore(slot: uint32, value: uint32)

  /** Commands this driver can have meant: addresses of stores are aligned. */
  predicate Encodable(c: Command) {
    c.FlushStore? ==> c.slot % 8 == 0
  }

  function Encode(c: Command): seq<uint32> {
    match c
    case Noop => [0]
    case LoadRegister(register, value) => [MI_LOAD_REGISTER_IMM + 1, register, value]
    case BatchStart(address) =>
      [MI_BATCH_BUFFER_START + BATCH_PER_PROCESS, address % 0x1_0000_0000, address / 0x1_0000_0000]
    case Pipe(flags, address, low) => [PIPE_CONTROL, flags, address, 0, low, 0]
    case FlushStore(address, value) =>
      [MI_FLUSH_DW + FLUSH_STORE, if address % 8 == 0 then address + FLUSH_USE_GLOBAL_GTT else address, 0, value]
  }

  function EncodeAll(cs: seq<Command>): seq<uint32> {
    if cs == [] then [] else Encode(cs[0]) + EncodeAll(cs[1..])
  }

  // ------------------------------------------------------------ the hardware

  /** How many dwords a command takes, from its first: no operation has no
      length field, every other command says its length minus two. */
  function Length(header: uint32): nat {
    if header / 0x80_0000 == 0 then 1
    else if header / 0x2000_0000 == 0 && header / 0x80_0000 % 0x40 == 0x26 then header % 0x40 + 2
    else header % 0x100 + 2
  }

  /** Two dwords of an address, low half first. */
  function Wide(low: uint32, high: uint32): uint64 {
    low + high * 0x1_0000_0000
  }

  /** A memory interface instruction: its number is in bits 23 to 28. */
  function Instruction(number: nat): nat { number * 0x80_0000 }

  /** A 3D instruction of type 3, subtype 3: opcode and subopcode follow. */
  function Graphics(opcode: nat, subopcode: nat): nat {
    3 * 0x2000_0000 + 3 * 0x800_0000 + opcode * 0x100_0000 + subopcode * 0x1_0000
  }

  /** What the engine makes of one command, if it is one of those above: by the
      hardware's numbers, not by the driver's names for them. */
  function Meaning(d: seq<uint32>): Option<Command>
    requires d != [] && |d| == Length(d[0])
  {
    if d[0] == Instruction(0) then Some(Noop)
    else if d[0] == Instruction(0x22) + 1 then Some(LoadRegister(d[1], d[2]))
    // Bit 8: the batch is in the context's own address space.
    else if d[0] == Instruction(0x31) + 0x100 + 1 then Some(BatchStart(Wide(d[1], d[2])))
    else if d[0] == Graphics(2, 0) + 4 && d[3] == 0 && d[5] == 0 then Some(Pipe(d[1], d[2], d[4]))
    // Bit 14: store; bit 2 of the address: to the global table.
    else if d[0] == Instruction(0x26) + 0x4000 + 2 && d[1] % 8 == 4 && d[2] == 0 then Some(FlushStore(d[1] - 4, d[3]))
    else None
  }

  /** Parsing from head to tail, command after command. */
  function Parse(d: seq<uint32>): Option<seq<Command>> {
    if d == [] then Some([])
    else
      var n := Length(d[0]);
      if n > |d| then None
      else
        var c, rest := Meaning(d[..n]), Parse(d[n..]);
        if c.Some? && rest.Some? then Some([c.value] + rest.value) else None
  }

  lemma OneRoundTrip(c: Command)
    requires Encodable(c)
    ensures Encode(c) != [] && |Encode(c)| == Length(Encode(c)[0]) && Meaning(Encode(c)) == Some(c)
  {}

  /** A whole command in front of something that parses. */
  lemma ParseFirst(one: seq<uint32>, rest: seq<uint32>)
    requires one != [] && |one| == Length(one[0]) && Meaning(one).Some? && Parse(rest).Some?
    ensures Parse(one + rest) == Some([Meaning(one).value] + Parse(rest).value)
  {
    hide Length, Meaning;
    assert (one + rest)[..|one|] == one && (one + rest)[|one|..] == rest;
  }

  /** What is encoded is what the hardware parses, whatever follows it. */
  lemma {:induction false} ParseEncode(cs: seq<Command>, more: seq<uint32>)
    requires forall k :: 0 <= k < |cs| ==> Encodable(cs[k])
    requires Parse(more).Some?
    ensures Parse(EncodeAll(cs) + more) == Some(cs + Parse(more).value)
  {
    hide Length, Meaning, Encode, Encodable, Parse;
    if cs == [] {
      assert EncodeAll(cs) + more == more;
      assert cs + Parse(more).value == Parse(more).value;
    } else {
      OneRoundTrip(cs[0]);
      ParseEncode(cs[1..], more);
      ParseFirst(Encode(cs[0]), EncodeAll(cs[1..]) + more);
      assert EncodeAll(cs) + more == Encode(cs[0]) + (EncodeAll(cs[1..]) + more);
      assert cs + Parse(more).value == [cs[0]] + (cs[1..] + Parse(more).value);
    }
  }

  lemma {:induction false} EncodeAppend(cs: seq<Command>, ds: seq<Command>)
    ensures EncodeAll(cs + ds) == EncodeAll(cs) + EncodeAll(ds)
  {
    if cs == [] {
      assert cs + ds == ds;
    } else {
      assert (cs + ds)[1..] == cs[1..] + ds;
      EncodeAppend(cs[1..], ds);
    }
  }

  function Noops(n: nat): (cs: seq<Command>)
    ensures |cs| == n && forall k :: 0 <= k < n ==> cs[k] == Noop
  {
    if n == 0 then [] else [Noop] + Noops(n - 1)
  }

  lemma {:induction false} EncodeNoops(n: nat)
    ensures |EncodeAll(Noops(n))| == n && forall k :: 0 <= k < n ==> EncodeAll(Noops(n))[k] == 0
  {
    if n > 0 {
      assert Noops(n)[1..] == Noops(n - 1);
      EncodeNoops(n - 1);
    }
  }

  // ------------------------------------------------------- what a submission runs

  /** (mask << 16) | value. */
  function Masked(register: uint32, mask: nat, value: nat): Command
    requires mask < 0x1_0000 && value < 0x1_0000
  {
    LoadRegister(register, mask * 0x1_0000 + value)
  }

  /** (fDevice & 0xff00) == 0x5900. */
  predicate KabyLake(device: nat) {
    device / 0x100 % 0x100 == 0x59
  }

  /** The masked loads that have to follow every context restore. */
  function Workarounds(device: nat, revision: nat): seq<Command> {
    var slice := if KabyLake(device) && revision >= 2 then 0x2100 else 0x2000;
    [ Masked(0x7014, slice, slice), Masked(0xe194, 0x114, 0x114), Masked(0xe4f0, 0x8100, 0x8100),
      Masked(0x7004, 0x42, 0x42), Masked(0xe188, 8, 0), Masked(0x7300, 0x8030, 0x8030),
      Masked(0xe184, 2, 2), Masked(0xe180, 0x2000, 0x2000), Masked(0x2580, 7, 4) ]
    + (if KabyLake(device) then [Masked(0xe100, 0x10, 0x10)] else [])
  }

  /** What makes one batch run and say that it has, without the padding. */
  function Program(pipe: bool, device: nat, revision: nat, batch: uint64, fence: uint32, seqno: uint32): seq<Command>
    requires fence + 8 < 0x1_0000_0000
  {
    if pipe then
      Workarounds(device, revision)
      + [ Pipe(0, 0, 0),
          Pipe(STALL + TLB_INVALIDATE + QWORD_WRITE + GLOBAL_GTT + INVALIDATE_CACHES, fence + 8, 0),
          BatchStart(batch),
          Pipe(STALL + TLB_INVALIDATE + RENDER_TARGET_FLUSH + DEPTH_FLUSH + DATA_CACHE_FLUSH, 0, 0),
          Pipe(QWORD_WRITE + GLOBAL_GTT + PIPE_FLUSH + STALL, fence, seqno) ]
    else
      [BatchStart(batch), FlushStore(fence, seqno)]
  }

  /** kCommandDwords. */
  function BlockDwords(pipe: bool): nat {
    if pipe then 64 else 32
  }

  // ------------------------------------------- what the hardware does with it

  /** A bit of a PIPE_CONTROL's flags, by its value. */
  predicate On(flags: nat, bit: nat)
    requires bit > 0
  {
    flags / bit % 2 == 1
  }

  /** A command writes memory at all: a FlushStore, or a PIPE_CONTROL with a
      post-sync operation, bits 14 and 15. */
  predicate Writes(c: Command) {
    c.FlushStore? || (c.Pipe? && c.flags / 0x4000 % 4 != 0)
  }

  /** A command stores eight bytes at an address of the global table: operation 1
      is an immediate write, bit 24 selects the table. */
  predicate Stores(c: Command, address: nat) {
    || (c.FlushStore? && c.slot == address)
    || (c.Pipe? && c.flags / 0x4000 % 4 == 1 && On(c.flags, 0x100_0000) && c.slot == address)
  }

  function Stored(c: Command, address: nat): uint32
    requires Stores(c, address)
  {
    if c.FlushStore? then c.value else c.low
  }

  /** A command that waits, bit 20, and after which nothing the engine had cached
      to read is used any more: translations, bit 18, and the instruction,
      texture, vertex, constant and state caches, bits 11, 10, 4, 3 and 2. */
  predicate Drops(c: Command) {
    && c.Pipe? && On(c.flags, 0x10_0000) && On(c.flags, 0x4_0000) && On(c.flags, 0x800)
    && On(c.flags, 0x400) && On(c.flags, 0x10) && On(c.flags, 0x8) && On(c.flags, 0x4)
  }

  /** A command that waits and writes back everything a batch has drawn: the
      render target, bit 12, depth, bit 0, and data caches, bit 5. The flush the
      other engines take does that by itself. */
  predicate Flushes(c: Command) {
    || c.FlushStore?
    || (c.Pipe? && On(c.flags, 0x10_0000) && On(c.flags, 0x1000) && On(c.flags, 0x1) && On(c.flags, 0x20))
  }

  /** Whether results of a batch may still be in the engine's caches only, after
      these commands, when they may have been before. */
  function Dirty(cs: seq<Command>): bool {
    if cs == [] then true
    else if cs[|cs| - 1].BatchStart? then true
    else if Flushes(cs[|cs| - 1]) then false
    else Dirty(cs[..|cs| - 1])
  }

  /** A store to the fence slot has to find them all in memory: it flushes first
      by itself, or waits, bit 20, for all writes on their way, bit 7, with nothing
      left to be written back. */
  predicate InOrder(cs: seq<Command>, k: nat)
    requires k < |cs|
  {
    cs[k].FlushStore? || (cs[k].Pipe? && On(cs[k].flags, 0x10_0000) && On(cs[k].flags, 0x80) && !Dirty(cs[..k]))
  }

  const BITS: set<nat> := {
    0x1, 0x2, 0x4, 0x8, 0x10, 0x20, 0x40, 0x80, 0x100, 0x200, 0x400, 0x800, 0x1000, 0x2000, 0x4000, 0x8000}

  /** A bit of a masked register: the high half of what is loaded says which bits
      the low half is for, and every other bit stays. */
  predicate Register(cs: seq<Command>, register: nat, bit: nat, before: bool)
    requires bit > 0
  {
    if cs == [] then before
    else
      var c, now := cs[|cs| - 1], Register(cs[..|cs| - 1], register, bit, before);
      if c.LoadRegister? && c.register == register && On(c.value / 0x1_0000, bit) then On(c.value % 0x1_0000, bit)
      else now
  }

  /** What a batch has to find in the registers of a Skylake or Kaby Lake, over
      what was restored into them. */
  predicate WorkedAround(device: nat, revision: nat, register: nat, bit: nat, before: bool) {
    var kabyLake := 0x5900 <= device % 0x1_0000 < 0x5a00;
    if register == 0x7014 then before || bit == 0x2000 || (bit == 0x100 && kabyLake && revision >= 2)
    else if register == 0xe194 then before || bit in {0x4, 0x10, 0x100}
    else if register == 0xe4f0 then before || bit in {0x100, 0x8000}
    else if register == 0x7004 then before || bit in {0x2, 0x40}
    else if register == 0xe188 then before && bit != 0x8
    else if register == 0x7300 then before || bit in {0x10, 0x20, 0x8000}
    else if register == 0xe184 then before || bit == 0x2
    else if register == 0xe180 then before || bit == 0x2000
    else if register == 0x2580 then (before && bit !in {0x1, 0x2}) || bit == 0x4
    else if register == 0xe100 then before || (bit == 0x10 && kabyLake)
    else before
  }

  /** What a run of these commands leaves at an address it stores to. */
  function Last(cs: seq<Command>, address: nat): Option<uint32> {
    if cs == [] then None
    else if Stores(cs[|cs| - 1], address) then Some(Stored(cs[|cs| - 1], address))
    else Last(cs[..|cs| - 1], address)
  }

  /** What a submission has to make of the engine: exactly one batch, at the
      requested address; on the render engine with the workarounds in force and
      nothing stale cached; then the sequence number, stored once, in the fence
      slot, with all the batch's results in memory; and no other memory written
      but the eight bytes behind the slot. */
  ghost predicate RunsBatch(cs: seq<Command>, pipe: bool, device: nat, revision: nat, batch: uint64, fence: uint32,
                            seqno: uint32) {
    exists b :: 0 <= b < |cs| && cs[b] == BatchStart(batch) && Around(cs, b, pipe, device, revision, fence, seqno)
  }

  ghost predicate Around(cs: seq<Command>, b: nat, pipe: bool, device: nat, revision: nat, fence: uint32, seqno: uint32)
    requires b < |cs|
  {
    && (forall k :: 0 <= k < |cs| && cs[k].BatchStart? ==> k == b)
    && (pipe ==> exists k :: 0 <= k < b && Drops(cs[k]))
    && (pipe ==> WorksAround(cs[..b], device, revision))
    && (forall k :: 0 <= k < |cs| ==> NullBefore(cs, k) && WritesOnly(cs[k], fence))
    && StoredOnce(cs, b, fence, seqno)
  }

  /** The fence is stored once, in order, behind the batch. */
  ghost predicate StoredOnce(cs: seq<Command>, b: nat, fence: uint32, seqno: uint32) {
    exists k :: b < k < |cs| && Stores(cs[k], fence) && Stored(cs[k], fence) == seqno && InOrder(cs, k)
      && forall j :: 0 <= j < |cs| && j != k ==> !Stores(cs[j], fence)
  }

  ghost predicate WorksAround(cs: seq<Command>, device: nat, revision: nat) {
    forall r: nat, bit: nat, old_: bool :: bit in BITS ==>
      (Register(cs, r, bit, old_) <==> WorkedAround(device, revision, r, bit, old_))
  }

  /** The vertex cache, bit 4, is only invalidated right behind a PIPE_CONTROL
      that does nothing. */
  predicate NullBefore(cs: seq<Command>, k: nat)
    requires k < |cs|
  {
    cs[k].Pipe? && On(cs[k].flags, 0x10) ==> k > 0 && cs[k - 1].Pipe? && cs[k - 1].flags == 0
  }

  predicate WritesOnly(c: Command, fence: nat) {
    Writes(c) ==> Stores(c, fence) || Stores(c, fence + 8)
  }

  /** Whatever the engine had cached is gone before any batch starts. */
  ghost predicate Clean(cs: seq<Command>) {
    forall b :: 0 <= b < |cs| && cs[b].BatchStart? ==> exists d :: 0 <= d < b && Drops(cs[d])
  }

  lemma RunsClean(cs: seq<Command>, device: nat, revision: nat, batch: uint64, fence: uint32, seqno: uint32)
    requires RunsBatch(cs, true, device, revision, batch, fence, seqno)
    ensures Clean(cs) && forall k :: 0 <= k < |cs| && cs[k].BatchStart? ==> cs[k] == BatchStart(batch)
  {
    hide Drops;
  }

  // ------------------------------------------------------ the program does it

  /** The PIPE_CONTROLs of a program. */
  lemma Flags(address: nat)
    ensures forall c: Command :: c.Pipe? && c.flags == 0 ==> !Writes(c) && !Stores(c, address) && !On(c.flags, 0x10)
    ensures forall c: Command ::
              c.Pipe? && c.flags == STALL + TLB_INVALIDATE + QWORD_WRITE + GLOBAL_GTT + INVALIDATE_CACHES ==>
                (Stores(c, address) <==> c.slot == address) && Drops(c)
    ensures forall c: Command ::
              c.Pipe? && c.flags == STALL + TLB_INVALIDATE + RENDER_TARGET_FLUSH + DEPTH_FLUSH + DATA_CACHE_FLUSH ==>
                !Writes(c) && !Stores(c, address) && Flushes(c) && !On(c.flags, 0x10)
    ensures forall c: Command ::
              c.Pipe? && c.flags == QWORD_WRITE + GLOBAL_GTT + PIPE_FLUSH + STALL ==>
                && (Stores(c, address) <==> c.slot == address) && On(c.flags, 0x10_0000) && On(c.flags, 0x80)
                && !On(c.flags, 0x10)
  {}

  /** What a masked load makes of a bit. */
  predicate Masking(mask: nat, value: nat, bit: nat, before: bool)
    requires bit > 0
  {
    if On(mask, bit) then On(value, bit) else before
  }

  /** One more masked load. */
  lemma MaskedMore(cs: seq<Command>, register: uint32, mask: nat, value: nat, r: nat, bit: nat, before: bool)
    requires mask < 0x1_0000 && value < 0x1_0000 && bit in BITS
    ensures Register(cs + [Masked(register, mask, value)], r, bit, before)
         == if r == register then Masking(mask, value, bit, Register(cs, r, bit, before))
            else Register(cs, r, bit, before)
  {
    hide On;
    var loaded := mask * 0x1_0000 + value;
    assert loaded / 0x1_0000 == mask && loaded % 0x1_0000 == value;
    var all := cs + [Masked(register, mask, value)];
    assert all[..|all| - 1] == cs && all[|all| - 1] == LoadRegister(register, loaded);
  }

  lemma OtherMore(cs: seq<Command>, c: Command, r: nat, bit: nat, before: bool)
    requires !c.LoadRegister? && bit in BITS
    ensures Register(cs + [c], r, bit, before) == Register(cs, r, bit, before)
  {
    assert (cs + [c])[..|cs|] == cs;
  }

  /** Each register is loaded once at most. */
  lemma LoadedOnce(device: nat, revision: nat, r: nat, bit: nat, before: bool)
    requires bit in BITS
    ensures var slice := if KabyLake(device) && revision >= 2 then 0x2100 else 0x2000;
            Register(Workarounds(device, revision), r, bit, before) ==
              if r == 0x7014 then Masking(slice, slice, bit, before)
              else if r == 0xe194 then Masking(0x114, 0x114, bit, before)
              else if r == 0xe4f0 then Masking(0x8100, 0x8100, bit, before)
              else if r == 0x7004 then Masking(0x42, 0x42, bit, before)
              else if r == 0xe188 then Masking(8, 0, bit, before)
              else if r == 0x7300 then Masking(0x8030, 0x8030, bit, before)
              else if r == 0xe184 then Masking(2, 2, bit, before)
              else if r == 0xe180 then Masking(0x2000, 0x2000, bit, before)
              else if r == 0x2580 then Masking(7, 4, bit, before)
              else if r == 0xe100 && KabyLake(device) then Masking(0x10, 0x10, bit, before)
              else before
  {
    hide Register, Masked, Masking;
    var slice := if KabyLake(device) && revision >= 2 then 0x2100 else 0x2000;
    NoLoads(r, bit, before);
    var cs := [];
    MaskedMore(cs, 0x7014, slice, slice, r, bit, before);
    cs := cs + [Masked(0x7014, slice, slice)];
    MaskedMore(cs, 0xe194, 0x114, 0x114, r, bit, before);
    cs := cs + [Masked(0xe194, 0x114, 0x114)];
    MaskedMore(cs, 0xe4f0, 0x8100, 0x8100, r, bit, before);
    cs := cs + [Masked(0xe4f0, 0x8100, 0x8100)];
    MaskedMore(cs, 0x7004, 0x42, 0x42, r, bit, before);
    cs := cs + [Masked(0x7004, 0x42, 0x42)];
    MaskedMore(cs, 0xe188, 8, 0, r, bit, before);
    cs := cs + [Masked(0xe188, 8, 0)];
    MaskedMore(cs, 0x7300, 0x8030, 0x8030, r, bit, before);
    cs := cs + [Masked(0x7300, 0x8030, 0x8030)];
    MaskedMore(cs, 0xe184, 2, 2, r, bit, before);
    cs := cs + [Masked(0xe184, 2, 2)];
    MaskedMore(cs, 0xe180, 0x2000, 0x2000, r, bit, before);
    cs := cs + [Masked(0xe180, 0x2000, 0x2000)];
    MaskedMore(cs, 0x2580, 7, 4, r, bit, before);
    cs := cs + [Masked(0x2580, 7, 4)];
    if KabyLake(device) {
      MaskedMore(cs, 0xe100, 0x10, 0x10, r, bit, before);
      cs := cs + [Masked(0xe100, 0x10, 0x10)];
    }
    assert cs == Workarounds(device, revision);
  }

  lemma NoLoads(r: nat, bit: nat, before: bool)
    requires bit in BITS
    ensures Register([], r, bit, before) == before
  {}

  /** A number's bits, one by one. */
  lemma OnIs(n: nat, bit: nat)
    requires bit in BITS
    ensures On(n, bit) <==>
              || (bit == 0x1 && n % 2 == 1) || (bit == 0x2 && n / 0x2 % 2 == 1)
              || (bit == 0x4 && n / 0x4 % 2 == 1) || (bit == 0x8 && n / 0x8 % 2 == 1)
              || (bit == 0x10 && n / 0x10 % 2 == 1) || (bit == 0x20 && n / 0x20 % 2 == 1)
              || (bit == 0x40 && n / 0x40 % 2 == 1) || (bit == 0x80 && n / 0x80 % 2 == 1)
              || (bit == 0x100 && n / 0x100 % 2 == 1) || (bit == 0x200 && n / 0x200 % 2 == 1)
              || (bit == 0x400 && n / 0x400 % 2 == 1) || (bit == 0x800 && n / 0x800 % 2 == 1)
              || (bit == 0x1000 && n / 0x1000 % 2 == 1) || (bit == 0x2000 && n / 0x2000 % 2 == 1)
              || (bit == 0x4000 && n / 0x4000 % 2 == 1) || (bit == 0x8000 && n / 0x8000 % 2 == 1)
  {}

  /** The masks and values in bits. */
  lemma MaskBits(bit: nat, before: bool)
    requires bit in BITS
    ensures Masking(0x2000, 0x2000, bit, before) <==> before || bit == 0x2000
    ensures Masking(0x2100, 0x2100, bit, before) <==> before || bit == 0x2000 || bit == 0x100
    ensures Masking(0x114, 0x114, bit, before) <==> before || bit in {0x4, 0x10, 0x100}
    ensures Masking(0x8100, 0x8100, bit, before) <==> before || bit in {0x100, 0x8000}
    ensures Masking(0x42, 0x42, bit, before) <==> before || bit in {0x2, 0x40}
    ensures Masking(8, 0, bit, before) <==> before && bit != 0x8
    ensures Masking(0x8030, 0x8030, bit, before) <==> before || bit in {0x10, 0x20, 0x8000}
    ensures Masking(2, 2, bit, before) <==> before || bit == 0x2
    ensures Masking(7, 4, bit, before) <==> (before && bit !in {0x1, 0x2}) || bit == 0x4
    ensures Masking(0x10, 0x10, bit, before) <==> before || bit == 0x10
  {
    hide On;
    OnIs(0x2000, bit);
    OnIs(0x2100, bit);
    OnIs(0x114, bit);
    OnIs(0x8100, bit);
    OnIs(0x42, bit);
    OnIs(8, bit);
    OnIs(0, bit);
    OnIs(0x8030, bit);
    OnIs(2, bit);
    OnIs(7, bit);
    OnIs(4, bit);
    OnIs(0x10, bit);
  }

  lemma KabyLakes(device: nat)
    ensures KabyLake(device) <==> 0x5900 <= device % 0x1_0000 < 0x5a00
  {
    assert device / 0x100 % 0x100 == device % 0x1_0000 / 0x100;
  }

  /** The masked loads leave exactly the intended bits changed, whatever was
      restored, and no other register touched. */
  lemma WorkaroundsWork(device: nat, revision: nat, r: nat, bit: nat, before: bool)
    requires bit in BITS
    ensures Register(Workarounds(device, revision), r, bit, before) <==> WorkedAround(device, revision, r, bit, before)
  {
    hide Register, Workarounds, Masking, KabyLake;
    KabyLakes(device);
    LoadedOnce(device, revision, r, bit, before);
    MaskBits(bit, before);
  }

  /** The commands of a program: the loads first, one batch start, the store last. */
  lemma ProgramShape(pipe: bool, device: nat, revision: nat, batch: uint64, fence: uint32, seqno: uint32)
    requires fence + 8 < 0x1_0000_0000
    ensures var cs := Program(pipe, device, revision, batch, fence, seqno);
            var b := |cs| - (if pipe then 3 else 2);
            && 0 <= b && cs[b] == BatchStart(batch)
            && (forall k :: 0 <= k < |cs| && cs[k].BatchStart? ==> k == b)
            && (forall k :: 0 <= k < |cs| ==> NullBefore(cs, k) && WritesOnly(cs[k], fence))
  {
    hide On, Drops, Stores, Writes, Flushes, Workarounds;
    Flags(fence);
    Flags(fence + 8);
    LoadsPlain();
    LoadsOnly(device, revision);
    var cs, w := Program(pipe, device, revision, batch, fence, seqno), Workarounds(device, revision);
    if pipe {
      assert forall k :: 0 <= k < |w| ==> cs[k] == w[k];
      assert NullBefore(cs, |w| + 1);
    }
  }

  /** Only the last command stores to the fence slot. */
  lemma ProgramStores(pipe: bool, device: nat, revision: nat, batch: uint64, fence: uint32, seqno: uint32)
    requires fence + 8 < 0x1_0000_0000
    ensures var cs := Program(pipe, device, revision, batch, fence, seqno);
            && 0 < |cs| && Stores(cs[|cs| - 1], fence) && Stored(cs[|cs| - 1], fence) == seqno
            && forall k :: 0 <= k < |cs| - 1 ==> !Stores(cs[k], fence)
  {
    hide On, Drops, Stores, Writes, Flushes, Workarounds;
    Flags(fence);
    LoadsPlain();
    LoadsOnly(device, revision);
    var cs, w := Program(pipe, device, revision, batch, fence, seqno), Workarounds(device, revision);
    if pipe {
      assert forall k :: 0 <= k < |w| ==> cs[k] == w[k];
    }
  }

  lemma ProgramRunsBatch(pipe: bool, device: nat, revision: nat, batch: uint64, fence: uint32, seqno: uint32)
    requires fence + 8 < 0x1_0000_0000
    ensures RunsBatch(Program(pipe, device, revision, batch, fence, seqno), pipe, device, revision, batch, fence, seqno)
  {
    hide On, Drops, Stores, Writes, Flushes, WorksAround, Dirty, Workarounds, NullBefore, WritesOnly;
    Flags(fence);
    ProgramShape(pipe, device, revision, batch, fence, seqno);
    ProgramStores(pipe, device, revision, batch, fence, seqno);
    var cs := Program(pipe, device, revision, batch, fence, seqno);
    var b := |cs| - (if pipe then 3 else 2);
    if pipe {
      Prepared(device, revision, batch, fence, seqno);
      Flushed(cs, b + 1);
      assert Drops(cs[b - 1]);
    }
    assert InOrder(cs, |cs| - 1);
    assert StoredOnce(cs, b, fence, seqno);
    assert Around(cs, b, pipe, device, revision, fence, seqno);
  }

  lemma LoadsOnly(device: nat, revision: nat)
    ensures forall k :: 0 <= k < |Workarounds(device, revision)| ==> Workarounds(device, revision)[k].LoadRegister?
  {}

  /** Only a PIPE_CONTROL or a flush can store. */
  lemma LoadsPlain()
    ensures forall c: Command :: !c.Pipe? && !c.FlushStore? ==> !Writes(c) && forall a :: !Stores(c, a)
    ensures forall c: Command, a :: c.FlushStore? ==> (Stores(c, a) <==> c.slot == a)
  {}

  /** A flush in between, and no batch after it. */
  lemma Flushed(cs: seq<Command>, k: nat)
    requires k < |cs| && Flushes(cs[k]) && !cs[k].BatchStart?
    ensures !Dirty(cs[..k + 1])
  {
    assert cs[..k + 1][|cs[..k + 1]| - 1] == cs[k];
  }

  /** By the time the batch starts all workarounds are in force. */
  lemma Prepared(device: nat, revision: nat, batch: uint64, fence: uint32, seqno: uint32)
    requires fence + 8 < 0x1_0000_0000
    ensures var cs := Program(true, device, revision, batch, fence, seqno);
            var b := |Workarounds(device, revision)| + 2;
            b <= |cs| && WorksAround(cs[..b], device, revision)
  {
    hide Register, WorkedAround, Workarounds;
    var cs := Program(true, device, revision, batch, fence, seqno);
    var w := Workarounds(device, revision);
    var b := |w| + 2;
    forall r: nat, bit: nat, old_: bool | bit in BITS
      ensures Register(cs[..b], r, bit, old_) <==> WorkedAround(device, revision, r, bit, old_)
    {
      WorkaroundsWork(device, revision, r, bit, old_);
      OtherMore(w, cs[|w|], r, bit, old_);
      OtherMore(w + [cs[|w|]], cs[|w| + 1], r, bit, old_);
      assert cs[..b] == w + [cs[|w|]] + [cs[|w| + 1]];
    }
  }

  /** Padding in front changes nothing of what follows. */
  lemma {:induction false} DirtyBehind(n: nat, cs: seq<Command>)
    ensures Dirty(Noops(n) + cs) == Dirty(cs)
  {
    if cs == [] {
      assert Noops(n) + cs == Noops(n);
      if n > 0 {
        assert Noops(n)[..n - 1] == Noops(n - 1) + [] && Noops(n)[n - 1] == Noop;
        DirtyBehind(n - 1, []);
      }
    } else {
      var all := Noops(n) + cs;
      assert all[..|all| - 1] == Noops(n) + cs[..|cs| - 1] && all[|all| - 1] == cs[|cs| - 1];
      DirtyBehind(n, cs[..|cs| - 1]);
    }
  }

  lemma {:induction false} RegisterBehind(n: nat, cs: seq<Command>, r: nat, bit: nat, before: bool)
    requires bit > 0
    ensures Register(Noops(n) + cs, r, bit, before) == Register(cs, r, bit, before)
  {
    if cs == [] {
      assert Noops(n) + cs == Noops(n);
      if n > 0 {
        assert Noops(n)[..n - 1] == Noops(n - 1) + [] && Noops(n)[n - 1] == Noop;
        RegisterBehind(n - 1, [], r, bit, before);
      }
    } else {
      var all := Noops(n) + cs;
      assert all[..|all| - 1] == Noops(n) + cs[..|cs| - 1] && all[|all| - 1] == cs[|cs| - 1];
      RegisterBehind(n, cs[..|cs| - 1], r, bit, before);
    }
  }

  lemma WorksBehind(n: nat, cs: seq<Command>, device: nat, revision: nat)
    requires WorksAround(cs, device, revision)
    ensures WorksAround(Noops(n) + cs, device, revision)
  {
    hide WorkedAround, Register;
    forall r: nat, bit: nat, old_: bool | bit in BITS
      ensures Register(Noops(n) + cs, r, bit, old_) <==> WorkedAround(device, revision, r, bit, old_)
    {
      RegisterBehind(n, cs, r, bit, old_);
    }
  }

  /** A command of a padded program is one of the program or does nothing. */
  lemma Within(n: nat, cs: seq<Command>, m: nat, k: nat)
    requires k < n + |cs| + m
    ensures (Noops(n) + cs + Noops(m))[k] == if n <= k < n + |cs| then cs[k - n] else Noop
  {}

  /** Padding a program leaves it right: nothing else is written, and the vertex
      cache still has its null command in front. */
  lemma PaddedHarmless(n: nat, cs: seq<Command>, m: nat, fence: uint32)
    requires forall k :: 0 <= k < |cs| ==> NullBefore(cs, k) && WritesOnly(cs[k], fence)
    ensures var all := Noops(n) + cs + Noops(m);
            forall k :: 0 <= k < |all| ==> NullBefore(all, k) && WritesOnly(all[k], fence)
  {
    hide On, Stores, Writes;
    LoadsPlain();
    var all := Noops(n) + cs + Noops(m);
    forall k | 0 <= k < |all|
      ensures NullBefore(all, k) && WritesOnly(all[k], fence)
    {
      Within(n, cs, m, k);
      if n <= k < n + |cs| {
        assert NullBefore(cs, k - n) && WritesOnly(cs[k - n], fence);
        if k > n {
          Within(n, cs, m, k - 1);
        }
      }
    }
  }

  lemma NoopPlain(address: nat)
    ensures !Stores(Noop, address)
  {}

  lemma PaddedStore(n: nat, cs: seq<Command>, m: nat, b: nat, fence: uint32, seqno: uint32)
    requires StoredOnce(cs, b, fence, seqno)
    ensures StoredOnce(Noops(n) + cs + Noops(m), n + b, fence, seqno)
  {
    hide On, Stores, Dirty, InOrder;
    NoopPlain(fence);
    var all := Noops(n) + cs + Noops(m);
    var last :| b < last < |cs| && Stores(cs[last], fence) && Stored(cs[last], fence) == seqno && InOrder(cs, last)
      && forall j :: 0 <= j < |cs| && j != last ==> !Stores(cs[j], fence);
    Within(n, cs, m, n + last);
    PaddedOrder(n, cs, m, last);
    forall j | 0 <= j < |all| && j != n + last
      ensures !Stores(all[j], fence)
    {
      Within(n, cs, m, j);
      if n <= j < n + |cs| {
        assert !Stores(cs[j - n], fence);
      } else {
        assert all[j] == Noop;
      }
    }
  }

  lemma PaddedOrder(n: nat, cs: seq<Command>, m: nat, k: nat)
    requires k < |cs| && InOrder(cs, k)
    ensures n + k < |Noops(n) + cs + Noops(m)| && InOrder(Noops(n) + cs + Noops(m), n + k)
  {
    hide On, Dirty;
    var all := Noops(n) + cs + Noops(m);
    assert all[..n + k] == Noops(n) + cs[..k];
    DirtyBehind(n, cs[..k]);
    Within(n, cs, m, n + k);
  }

  lemma PaddedAround(n: nat, cs: seq<Command>, m: nat, b: nat, pipe: bool, device: nat, revision: nat, fence: uint32,
      seqno: uint32)
    requires b < |cs| && Around(cs, b, pipe, device, revision, fence, seqno)
    ensures Around(Noops(n) + cs + Noops(m), n + b, pipe, device, revision, fence, seqno)
  {
    hide NullBefore, WritesOnly, Drops, WorksAround, StoredOnce;
    PaddedStart(n, cs, m, b);
    PaddedStore(n, cs, m, b, fence, seqno);
    PaddedHarmless(n, cs, m, fence);
    if pipe {
      PaddedDrop(n, cs, m, b);
      assert (Noops(n) + cs + Noops(m))[..n + b] == Noops(n) + cs[..b];
      WorksBehind(n, cs[..b], device, revision);
    }
  }

  lemma PaddedStart(n: nat, cs: seq<Command>, m: nat, b: nat)
    requires forall k :: 0 <= k < |cs| && cs[k].BatchStart? ==> k == b
    ensures var all := Noops(n) + cs + Noops(m);
            forall k :: 0 <= k < |all| && all[k].BatchStart? ==> k == n + b
  {
    var all := Noops(n) + cs + Noops(m);
    forall k | 0 <= k < |all| && all[k].BatchStart?
      ensures k == n + b
    {
      Within(n, cs, m, k);
    }
  }

  lemma PaddedDrop(n: nat, cs: seq<Command>, m: nat, b: nat)
    requires b < |cs| && exists k :: 0 <= k < b && Drops(cs[k])
    ensures var all := Noops(n) + cs + Noops(m);
            n + b < |all| && exists k :: 0 <= k < n + b && Drops(all[k])
  {
    hide Drops;
    var d :| 0 <= d < b && Drops(cs[d]);
    Within(n, cs, m, n + d);
    assert Drops((Noops(n) + cs + Noops(m))[n + d]);
  }

  /** However a program is padded, it does what a submission has to do. */
  lemma PaddedRuns(pipe: bool, device: nat, revision: nat, batch: uint64, fence: uint32, seqno: uint32, n: nat, m: nat)
    requires fence + 8 < 0x1_0000_0000
    ensures RunsBatch(Noops(n) + Program(pipe, device, revision, batch, fence, seqno) + Noops(m),
                      pipe, device, revision, batch, fence, seqno)
  {
    hide Program, Around;
    ProgramRunsBatch(pipe, device, revision, batch, fence, seqno);
    var cs := Program(pipe, device, revision, batch, fence, seqno);
    var b :| 0 <= b < |cs| && cs[b] == BatchStart(batch) && Around(cs, b, pipe, device, revision, fence, seqno);
    PaddedAround(n, cs, m, b, pipe, device, revision, fence, seqno);
    Within(n, cs, m, n + b);
    assert (Noops(n) + cs + Noops(m))[n + b] == BatchStart(batch);
  }

  /** However a program is padded, what it leaves in the fence slot is the
      sequence number. */
  lemma ProgramLeaves(pipe: bool, device: nat, revision: nat, batch: uint64, fence: uint32, seqno: uint32,
      n: nat, m: nat)
    requires fence + 8 < 0x1_0000_0000
    ensures Last(Noops(n) + Program(pipe, device, revision, batch, fence, seqno) + Noops(m), fence) == Some(seqno)
  {
    var cs := Program(pipe, device, revision, batch, fence, seqno);
    assert Stores(cs[|cs| - 1], fence) && Stored(cs[|cs| - 1], fence) == seqno;
    LastBeforeNoops(Noops(n) + cs, m, fence);
  }

  lemma {:induction false} LastBeforeNoops(cs: seq<Command>, m: nat, address: nat)
    ensures Last(cs + Noops(m), address) == Last(cs, address)
  {
    if m == 0 {
      assert cs + Noops(0) == cs;
    } else {
      assert Noops(m) == Noops(m - 1) + [Noop];
      assert (cs + Noops(m))[..|cs| + m - 1] == cs + Noops(m - 1);
      LastBeforeNoops(cs, m - 1, address);
    }
  }

  lemma EncodableProgram(pipe: bool, device: nat, revision: nat, batch: uint64, fence: uint32, seqno: uint32)
    requires fence + 8 < 0x1_0000_0000 && fence % 8 == 0
    ensures var cs := Program(pipe, device, revision, batch, fence, seqno);
            && (forall k :: 0 <= k < |cs| ==> Encodable(cs[k]))
  {}

  /** A block of commands: a program, and no operation up to its size. */
  function Block(cs: seq<Command>, size: nat): seq<uint32>
    requires |EncodeAll(cs)| <= size
  {
    EncodeAll(cs + Noops(size - |EncodeAll(cs)|))
  }

  /** Padding in front and a program in a block parse as just that. */
  lemma ParseBlock(cs: seq<Command>, size: nat, pad: nat)
    requires forall k :: 0 <= k < |cs| ==> Encodable(cs[k])
    requires |EncodeAll(cs)| <= size
    ensures |Block(cs, size)| == size
    ensures Parse(EncodeAll(Noops(pad)) + Block(cs, size)) == Some(Noops(pad) + cs + Noops(size - |EncodeAll(cs)|))
  {
    hide Parse, Encode, Encodable, EncodeAll;
    var n := size - |EncodeAll(cs)|;
    var all := Noops(pad) + cs + Noops(n);
    assert all == Noops(pad) + (cs + Noops(n));
    EncodeAppend(Noops(pad), cs + Noops(n));
    EncodeAppend(cs, Noops(n));
    EncodeNoops(n);
    NoopsEncodable(n);
    NoopsEncodable(pad);
    assert Parse([]) == Some([]) by { ParseNothing(); }
    ParseEncode(all, []);
    assert EncodeAll(all) + [] == EncodeAll(all) && all + [] == all;
  }

  lemma NoopsEncodable(n: nat)
    ensures forall k :: 0 <= k < n ==> Encodable(Noops(n)[k])
  {}

  lemma ParseNothing()
    ensures Parse([]) == Some([])
  {}
}
