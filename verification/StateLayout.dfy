/** The register image of a logical context: the byte code its shape is stored
    in, WriteStateLayout, which rebuilds the image's load commands from it, and
    the two layouts the driver ships. */
module StateLayout {
  import opened Machine
  import opened Commands

  type uint8 = n: nat | n < 0x100

  const MI_LOAD_POSTED := 0x1000

  /** REG or REG16: a register offset in one byte or in two. */
  datatype Register = Short(offset: nat) | Long(offset: nat)

  /** NOP or LRI. */
  datatype Item = Skip(count: nat) | Load(posted: bool, registers: seq<Register>)

  predicate Storable(r: Register) {
    r.offset % 4 == 0 && r.offset < if r.Short? then 0x200 else 0x1_0000
  }

  /** What the macros can express: seven bits of skip, six of load. */
  predicate Expressible(item: Item) {
    match item
    case Skip(count) => count < 0x80
    case Load(_, registers) =>
      0 < |registers| < 0x40 && forall k :: 0 <= k < |registers| ==> Storable(registers[k])
  }

  // --------------------------------------------------------------- the bytes

  function RegisterBytes(r: Register): (b: seq<uint8>)
    requires Storable(r)
    ensures |b| == if r.Short? then 1 else 2
  {
    if r.Short? then [r.offset / 4] else [0x80 + r.offset / 0x200, r.offset / 4 % 0x80]
  }

  function RegistersBytes(rs: seq<Register>): seq<uint8>
    requires forall k :: 0 <= k < |rs| ==> Storable(rs[k])
  {
    if rs == [] then [] else RegisterBytes(rs[0]) + RegistersBytes(rs[1..])
  }

  function ItemBytes(item: Item): (b: seq<uint8>)
    requires Expressible(item)
    ensures b != [] && b[0] != 0
  {
    match item
    case Skip(count) => [0x80 + count]
    case Load(posted, registers) => [(if posted then 0x40 else 0) + |registers|] + RegistersBytes(registers)
  }

  /** The terminated byte string of a layout. */
  function Bytes(items: seq<Item>): (b: seq<uint8>)
    requires forall k :: 0 <= k < |items| ==> Expressible(items[k])
    ensures b != []
  {
    if items == [] then [0] else ItemBytes(items[0]) + Bytes(items[1..])
  }

  // --------------------------------------------------------------- the image

  /** What a dword of the image has to be; None where the layout leaves it be. */
  type Image = seq<Option<uint32>>

  function Header(count: nat, posted: bool): uint32
    requires 0 < count < 0x40
  {
    MI_LOAD_REGISTER_IMM + 2 * count - 1 + if posted then MI_LOAD_POSTED else 0
  }

  /** A header is what the hardware takes for a load of that many registers:
      instruction 0x22, a length that ends right behind them, and bit 12 as asked. */
  lemma HeaderMeans(count: nat, posted: bool)
    requires 0 < count < 0x40
    ensures var h := Header(count, posted);
            && h / 0x2000_0000 == 0 && h / 0x80_0000 % 0x40 == 0x22 && Length(h) == 1 + 2 * count
            && (On(h, 0x1000) <==> posted)
  {}

  /** A register's offset, and room for its value. */
  function Pairs(rs: seq<Register>, base: uint32): (r: Image)
    ensures |r| == 2 * |rs|
    ensures forall k :: 0 <= k < |rs| ==>
              r[2 * k] == Some((base + rs[k].offset) % 0x1_0000_0000) && r[2 * k + 1] == None
  {
    if rs == [] then [] else Pairs(rs[..|rs| - 1], base) + [Some((base + rs[|rs| - 1].offset) % 0x1_0000_0000), None]
  }

  function ItemImage(item: Item, base: uint32): (r: Image)
    requires Expressible(item)
    ensures |r| == Size(item)
  {
    match item
    case Skip(count) => seq(count, _ => None)
    case Load(posted, registers) => [Some(Header(|registers|, posted))] + Pairs(registers, base)
  }

  function Size(item: Item): nat {
    match item
    case Skip(count) => count
    case Load(_, registers) => 1 + 2 * |registers|
  }

  /** The image a layout describes. */
  function Intended(items: seq<Item>, base: uint32): Image
    requires forall k :: 0 <= k < |items| ==> Expressible(items[k])
  {
    if items == [] then []
    else Intended(items[..|items| - 1], base) + ItemImage(items[|items| - 1], base)
  }

  /** From `at` on, dwords the image speaks of are as it says; all others are
      as before. */
  ghost predicate Wrote(before: seq<uint32>, after: seq<uint32>, at: nat, image: Image) {
    && |after| == |before| && at + |image| <= |before|
    && forall i :: 0 <= i < |before| ==>
         after[i] == if at <= i < at + |image| && image[i - at].Some? then image[i - at].value else before[i]
  }

  /** Two pieces of image written one after the other. */
  lemma WroteMore(before: seq<uint32>, mid: seq<uint32>, after: seq<uint32>, at: nat, image: Image, more: Image)
    requires Wrote(before, mid, at, image) && Wrote(mid, after, at + |image|, more)
    ensures Wrote(before, after, at, image + more)
  {}

  /** The layout up to an item describes the image up to that item. */
  lemma {:induction false} IntendedPrefix(items: seq<Item>, m: nat, base: uint32)
    requires m <= |items| && forall k :: 0 <= k < |items| ==> Expressible(items[k])
    ensures Intended(items[..m], base) <= Intended(items, base)
  {
    hide Expressible, ItemImage;
    if m == |items| {
      assert items[..m] == items;
    } else {
      var rest := items[..|items| - 1];
      IntendedPrefix(rest, m, base);
      assert rest[..m] == items[..m];
    }
  }

  lemma IntendedNext(items: seq<Item>, m: nat, base: uint32)
    requires m < |items| && forall k :: 0 <= k < |items| ==> Expressible(items[k])
    ensures Intended(items[..m + 1], base) == Intended(items[..m], base) + ItemImage(items[m], base)
    ensures Intended(items[..m + 1], base) <= Intended(items, base)
  {
    hide Expressible, ItemImage;
    IntendedPrefix(items, m + 1, base);
    assert items[..m + 1][..m] == items[..m];
  }

  lemma BytesNext(items: seq<Item>, m: nat)
    requires m < |items| && forall k :: 0 <= k < |items| ==> Expressible(items[k])
    ensures Bytes(items[m..]) == ItemBytes(items[m]) + Bytes(items[m + 1..])
    ensures ItemBytes(items[m])[0] >= 0x80 <==> items[m].Skip?
  {
    assert items[m..][1..] == items[m + 1..];
  }

  /** One register offset: seven bits a byte until one has bit 7 clear. */
  method ReadOffset(data: seq<uint8>, start: nat, ghost r: Register) returns (offset: nat, at: nat)
    requires start <= |data| && Storable(r) && RegisterBytes(r) <= data[start..]
    ensures offset * 4 == r.offset && at == start + |RegisterBytes(r)|
  {
    ghost var bytes := RegisterBytes(r);
    assert forall k :: 0 <= k < |bytes| ==> data[start + k] == bytes[k] by {
      assert forall k :: 0 <= k < |bytes| ==> bytes[k] == data[start..][k];
    }
    offset, at := 0, start;
    var more := true;
    while more
      invariant start <= at <= start + |bytes|
      invariant more <==> at < start + |bytes|
      invariant offset == if at == start then 0 else if more then bytes[0] - 0x80 else r.offset / 4
      decreases start + |bytes| - at
    {
      var byte := data[at];
      offset := offset * 0x80 + byte % 0x80;
      at, more := at + 1, byte >= 0x80;
    }
  }

  lemma PairsNext(rs: seq<Register>, done: nat, base: uint32)
    requires done < |rs|
    ensures Pairs(rs[..done + 1], base) ==
            Pairs(rs[..done], base) + [Some((base + rs[done].offset) % 0x1_0000_0000), None]
  {
    assert rs[..done + 1][..done] == rs[..done];
  }

  lemma RegistersNext(rs: seq<Register>, done: nat)
    requires done < |rs| && forall k :: 0 <= k < |rs| ==> Storable(rs[k])
    ensures RegistersBytes(rs[done..]) == RegisterBytes(rs[done]) + RegistersBytes(rs[done + 1..])
  {
    assert rs[done..][1..] == rs[done + 1..];
  }

  /** Each register of a load, in front of the place for its value. */
  method WriteRegisters(state: array<uint32>, base: uint32, data: seq<uint8>, start: nat, first: nat,
                        count: nat, ghost rs: seq<Register>)
    returns (at: nat, registers: nat)
    requires |rs| == count && forall k :: 0 <= k < |rs| ==> Storable(rs[k])
    requires start <= |data| && RegistersBytes(rs) <= data[start..] && first + 2 * count <= state.Length
    modifies state
    ensures at == start + |RegistersBytes(rs)| && registers == first + 2 * count
    ensures Wrote(old(state[..]), state[..], first, Pairs(rs, base))
  {
    hide RegistersBytes, RegisterBytes, Storable, Pairs, Wrote;
    var left := count;
    at, registers := start, first;
    ghost var done := 0;
    assert rs[0..] == rs;
    NoPairs(rs, base, state[..], first);
    while left > 0
      invariant done + left == |rs| && registers == first + 2 * done
      invariant start <= at <= |data| && RegistersBytes(rs[done..]) <= data[at..]
      invariant at + |RegistersBytes(rs[done..])| == start + |RegistersBytes(rs)|
      invariant Wrote(old(state[..]), state[..], first, Pairs(rs[..done], base))
    {
      RegistersNext(rs, done);
      PairsNext(rs, done, base);
      ghost var here, before := data[at..], state[..];
      var offset;
      offset, at := ReadOffset(data, at, rs[done]);
      assert data[at..] == here[|RegisterBytes(rs[done])|..];
      state[registers] := (base + offset * 4) % 0x1_0000_0000;
      OnePair(before, state[..], registers, (base + rs[done].offset) % 0x1_0000_0000);
      WroteMore(old(state[..]), before, state[..], first, Pairs(rs[..done], base),
                [Some((base + rs[done].offset) % 0x1_0000_0000), None]);
      registers, left, done := registers + 2, left - 1, done + 1;
    }
    assert rs[..done] == rs;
    NoRegisters(rs, done);
  }

  lemma NoPairs(rs: seq<Register>, base: uint32, state: seq<uint32>, first: nat)
    requires first <= |state|
    ensures Wrote(state, state, first, Pairs(rs[..0], base))
  {}

  lemma NoRegisters(rs: seq<Register>, done: nat)
    requires done == |rs|
    ensures RegistersBytes(rs[done..]) == []
  {}

  lemma OnePair(before: seq<uint32>, after: seq<uint32>, at: nat, value: uint32)
    requires at + 2 <= |before| && after == before[at := value]
    ensures Wrote(before, after, at, [Some(value), None])
  {}

  lemma OneHeader(before: seq<uint32>, after: seq<uint32>, at: nat, value: uint32)
    requires at < |before| && after == before[at := value]
    ensures Wrote(before, after, at, [Some(value)])
  {}

  /** A load command: its header, then its registers. */
  method WriteLoad(state: array<uint32>, base: uint32, data: seq<uint8>, start: nat, first: nat, ghost item: Item)
    returns (at: nat, registers: nat)
    requires item.Load? && Expressible(item)
    requires start <= |data| && ItemBytes(item) <= data[start..] && first + Size(item) <= state.Length
    modifies state
    ensures at == start + |ItemBytes(item)| && registers == first + Size(item)
    ensures Wrote(old(state[..]), state[..], first, ItemImage(item, base))
  {
    hide RegistersBytes, Storable, Pairs, Wrote;
    ghost var rs, before := item.registers, state[..];
    assert data[start] == data[start..][0] == ItemBytes(item)[0];
    assert data[start + 1..] == data[start..][1..] && ItemBytes(item)[1..] == RegistersBytes(rs);
    var count: nat, posted := data[start] % 0x40, data[start] / 0x40 != 0;
    assert count == |rs| && posted == item.posted;
    state[first] := MI_LOAD_REGISTER_IMM + (2 * count - 1);
    if posted {
      state[first] := state[first] + MI_LOAD_POSTED;
    }
    OneHeader(before, state[..], first, Header(|rs|, item.posted));
    ghost var mid := state[..];
    at, registers := WriteRegisters(state, base, data, start + 1, first + 1, count, rs);
    WroteMore(before, mid, state[..], first, [Some(Header(|rs|, item.posted))], Pairs(rs, base));
  }

  /** Decode a layout into the image. What the bytes encode comes back exactly:
      every header with its count and posted flag, every register at base plus
      offset, at the intended dword, and nothing else is written. */
  method WriteStateLayout(state: array<uint32>, base: uint32, data: seq<uint8>, ghost items: seq<Item>)
    requires forall k :: 0 <= k < |items| ==> Expressible(items[k])
    requires data == Bytes(items) && |Intended(items, base)| <= state.Length
    modifies state
    ensures Wrote(old(state[..]), state[..], 0, Intended(items, base))
  {
    hide ItemBytes, ItemImage, Expressible, Intended, Wrote;
    var registers: nat, at: nat := 0, 0;
    ghost var done := 0;
    NothingYet(items, base, state[..]);
    assert items[0..] == items && data[0..] == data;
    while data[at] != 0
      invariant done <= |items| && at < |data| && data[at..] == Bytes(items[done..])
      invariant registers == |Intended(items[..done], base)|
      invariant Wrote(old(state[..]), state[..], 0, Intended(items[..done], base))
      decreases |data| - at
    {
      assert data[at..][0] == data[at];
      ghost var item, before, here := items[done], state[..], data[at..];
      BytesNext(items, done);
      IntendedNext(items, done, base);
      if data[at] >= 0x80 {
        SkipByte(item, base, state[..], registers);
        registers := registers + data[at] % 0x80;
        at := at + 1;
      } else {
        at, registers := WriteLoad(state, base, data, at, registers, item);
      }
      assert data[at..] == here[|ItemBytes(item)|..];
      WroteMore(old(state[..]), before, state[..], 0, Intended(items[..done], base), ItemImage(item, base));
      done := done + 1;
    }
    assert data[at..][0] == data[at];
    AtTheEnd(items, done);
    assert items[..done] == items;
  }

  lemma NothingYet(items: seq<Item>, base: uint32, state: seq<uint32>)
    ensures Intended(items[..0], base) == [] && Wrote(state, state, 0, Intended(items[..0], base))
  {}

  lemma SkipByte(item: Item, base: uint32, state: seq<uint32>, at: nat)
    requires item.Skip? && Expressible(item) && at + item.count <= |state|
    ensures |ItemBytes(item)| == 1 && ItemBytes(item)[0] % 0x80 == item.count == |ItemImage(item, base)|
    ensures Wrote(state, state, at, ItemImage(item, base))
  {}

  lemma AtTheEnd(items: seq<Item>, done: nat)
    requires done <= |items| && forall k :: 0 <= k < |items| ==> Expressible(items[k])
    requires Bytes(items[done..])[0] == 0
    ensures done == |items|
  {}

  // ------------------------------------------------------- the shipped layouts

  const FIRST_LOAD: seq<Register> := [
    Long(0x244), Short(0x034), Short(0x030), Short(0x038), Short(0x03c), Short(0x168), Short(0x140),
    Short(0x110), Short(0x11c), Short(0x114), Short(0x118), Short(0x1c0), Short(0x1c4), Short(0x1c8)]

  const SECOND_LOAD: seq<Register> := [
    Long(0x3a8), Long(0x28c), Long(0x288), Long(0x284), Long(0x280), Long(0x27c), Long(0x278), Long(0x274), Long(0x270)]

  const LAST_LOAD: seq<Register> := [
    Short(0x028), Short(0x09c), Short(0x0c0), Short(0x178), Short(0x17c),
    Long(0x358), Short(0x170), Short(0x150), Short(0x154), Short(0x158),
    Long(0x41c), Long(0x600), Long(0x604), Long(0x608), Long(0x60c),
    Long(0x610), Long(0x614), Long(0x618), Long(0x61c), Long(0x620),
    Long(0x624), Long(0x628), Long(0x62c), Long(0x630), Long(0x634),
    Long(0x638), Long(0x63c), Long(0x640), Long(0x644), Long(0x648),
    Long(0x64c), Long(0x650), Long(0x654), Long(0x658), Long(0x65c),
    Long(0x660), Long(0x664), Long(0x668), Long(0x66c), Long(0x670),
    Long(0x674), Long(0x678), Long(0x67c), Short(0x068)]

  lemma LoadsStorable()
    ensures forall k :: 0 <= k < |FIRST_LOAD| ==> Storable(FIRST_LOAD[k])
    ensures forall k :: 0 <= k < |SECOND_LOAD| ==> Storable(SECOND_LOAD[k])
    ensures forall k :: 0 <= k < |LAST_LOAD| ==> Storable(LAST_LOAD[k])
  {}

  /** kRenderStateLayout or kEngineStateLayout: they differ in one block. */
  function Layout(render: bool): (items: seq<Item>)
    ensures forall k :: 0 <= k < |items| ==> Expressible(items[k])
  {
    LoadsStorable();
    [ Skip(1), Load(true, FIRST_LOAD), Skip(3), Load(true, SECOND_LOAD), Skip(13),
      if render then Load(false, [Short(0x0c8)]) else Load(true, [Long(0x200)]),
      Skip(13), Load(true, LAST_LOAD) ]
  }

  // kState*: where the driver puts the values it fills in.
  const STATE_CONTEXT_CONTROL := 0x03
  const STATE_RING_HEAD := 0x05
  const STATE_RING_TAIL := 0x07
  const STATE_RING_START := 0x09
  const STATE_RING_CONTROL := 0x0b
  const STATE_BATCH_BUFFER_STATE := 0x11
  const STATE_TIMESTAMP := 0x23
  const STATE_PAGE_DIRECTORY_UPPER := 0x31
  const STATE_PAGE_DIRECTORY_LOWER := 0x33
  const STATE_POWER_CLOCK := 0x43
  const STATE_MI_MODE := 0x55

  /** The dword is a value, and the dword before it names the register it is for. */
  ghost predicate ValueOf(image: Image, index: nat, register: nat) {
    0 < index < |image| && image[index].None? && image[index - 1] == Some(register)
  }

  lemma LoadAt(items: seq<Item>, m: nat, k: nat, base: uint32)
    requires forall k :: 0 <= k < |items| ==> Expressible(items[k])
    requires m < |items| && items[m].Load? && k < |items[m].registers|
    requires base + items[m].registers[k].offset < 0x1_0000_0000
    ensures ValueOf(Intended(items, base), |Intended(items[..m], base)| + 2 + 2 * k,
            base + items[m].registers[k].offset)
  {
    hide Expressible, Intended;
    IntendedNext(items, m, base);
    var image, before := Intended(items, base), Intended(items[..m], base);
    var one := ItemImage(items[m], base);
    var pairs := Pairs(items[m].registers, base);
    var index := |before| + 2 + 2 * k;
    assert one[1 + 2 * k] == pairs[2 * k] && one[2 + 2 * k] == pairs[2 * k + 1];
    assert (before + one)[index] == one[2 + 2 * k] && (before + one)[index - 1] == one[1 + 2 * k];
    assert image[index] == (before + one)[index] && image[index - 1] == (before + one)[index - 1];
  }

  /** Where each of the four loads starts, and how long the image is. */
  lemma LoadStarts(render: bool, base: uint32)
    ensures var items := Layout(render);
            && |Intended(items[..1], base)| == 0x01 && |Intended(items[..3], base)| == 0x21
            && |Intended(items[..5], base)| == 0x41 && |Intended(items[..7], base)| == 0x51
            && |Intended(items, base)| == 0xaa
  {
    hide Expressible, ItemImage, Intended;
    var items := Layout(render);
    StartsEmpty(items, base);
    for m := 0 to 8
      invariant forall j :: 0 <= j <= m ==>
                  |Intended(items[..j], base)| == [0, 1, 0x1e, 0x21, 0x34, 0x41, 0x44, 0x51, 0xaa][j]
    {
      IntendedNext(items, m, base);
    }
    assert items[..8] == items;
  }

  lemma StartsEmpty(items: seq<Item>, base: uint32)
    ensures |Intended(items[..0], base)| == 0
  {}

  /** Both shipped layouts put every value the driver fills in where it expects
      it, behind the register it is meant for. */
  lemma ShippedLayouts(render: bool, base: uint32)
    requires base < 0x8000_0000
    ensures var image := Intended(Layout(render), base);
            && ValueOf(image, STATE_CONTEXT_CONTROL, base + 0x244)
            && ValueOf(image, STATE_RING_HEAD, base + 0x34)
            && ValueOf(image, STATE_RING_TAIL, base + 0x30)
            && ValueOf(image, STATE_RING_START, base + 0x38)
            && ValueOf(image, STATE_RING_CONTROL, base + 0x3c)
            && ValueOf(image, STATE_BATCH_BUFFER_STATE, base + 0x110)
            && ValueOf(image, STATE_TIMESTAMP, base + 0x3a8)
            && ValueOf(image, STATE_PAGE_DIRECTORY_UPPER, base + 0x274)
            && ValueOf(image, STATE_PAGE_DIRECTORY_LOWER, base + 0x270)
            && ValueOf(image, STATE_POWER_CLOCK, base + if render then 0xc8 else 0x200)
            && ValueOf(image, STATE_MI_MODE, base + 0x9c)
  {
    hide Layout, Expressible, ItemImage, Intended, ValueOf;
    FirstLoad(render, base);
    LaterLoads(render, base);
  }

  lemma FirstLoad(render: bool, base: uint32)
    requires base < 0x8000_0000
    ensures var image := Intended(Layout(render), base);
            && ValueOf(image, STATE_CONTEXT_CONTROL, base + 0x244)
            && ValueOf(image, STATE_RING_HEAD, base + 0x34)
            && ValueOf(image, STATE_RING_TAIL, base + 0x30)
            && ValueOf(image, STATE_RING_START, base + 0x38)
            && ValueOf(image, STATE_RING_CONTROL, base + 0x3c)
            && ValueOf(image, STATE_BATCH_BUFFER_STATE, base + 0x110)
  {
    hide Expressible, ItemImage, Intended, ValueOf;
    var items := Layout(render);
    LoadStarts(render, base);
    LoadAt(items, 1, 0, base);
    LoadAt(items, 1, 1, base);
    LoadAt(items, 1, 2, base);
    LoadAt(items, 1, 3, base);
    LoadAt(items, 1, 4, base);
    LoadAt(items, 1, 7, base);
  }

  lemma LaterLoads(render: bool, base: uint32)
    requires base < 0x8000_0000
    ensures var image := Intended(Layout(render), base);
            && ValueOf(image, STATE_TIMESTAMP, base + 0x3a8)
            && ValueOf(image, STATE_PAGE_DIRECTORY_UPPER, base + 0x274)
            && ValueOf(image, STATE_PAGE_DIRECTORY_LOWER, base + 0x270)
            && ValueOf(image, STATE_POWER_CLOCK, base + if render then 0xc8 else 0x200)
            && ValueOf(image, STATE_MI_MODE, base + 0x9c)
  {
    hide Expressible, ItemImage, Intended, ValueOf;
    var items := Layout(render);
    LoadStarts(render, base);
    LoadAt(items, 3, 0, base);
    LoadAt(items, 3, 7, base);
    LoadAt(items, 3, 8, base);
    LoadAt(items, 5, 0, base);
    LoadAt(items, 7, 1, base);
  }
}
