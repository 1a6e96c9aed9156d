/** What every layer of the driver shares: status codes, page arithmetic, and
    the parts of the operating system the driver can only ask and not decide. */
module Machine {

  const PAGE_SIZE := 4096
  const ADDRESS_LIMIT := 0x1_0000_0000_0000   // 48 bit GPU addresses
  const PAGE_LIMIT := 0x10_0000_0000          // 36 bit GPU page numbers

  type uint32 = n: nat | n < 0x1_0000_0000
  type uint64 = n: nat | n < 0x1_0000_0000_0000_0000

  /** The status_t values the modelled code returns. Failures of calls into the
      operating system keep their code in System. */
  datatype Status =
    | Ok | NoInit | BadValue | Busy | NoMemory | BadAddress | EntryNotFound
    | Error | TimedOut | DevNotReady | NotSupported
    | System(code: int)

  datatype Option<+T> = None | Some(value: T)

  /** (size + mask) & ~mask in 64 bits: the sum wraps before the mask applies. */
  function RoundUp(size: uint64): uint64 {
    (size + (PAGE_SIZE - 1)) % 0x1_0000_0000_0000_0000 / PAGE_SIZE * PAGE_SIZE
  }

  lemma RoundedUp(size: uint64)
    ensures RoundUp(size) % PAGE_SIZE == 0 && 0 <= RoundUp(size) < 0x1_0000_0000_0000_0000
    ensures if size > 0xffff_ffff_ffff_f000 then RoundUp(size) == 0 else size <= RoundUp(size) < size + 4096
  {}

  lemma Ordered(a: nat, b: nat, m: nat)
    ensures a <= b ==> a * m <= b * m
  {}

  /** A number put together from a quotient and a remainder comes apart again. */
  lemma Parts(q: nat, m: nat, r: nat)
    requires r < m
    ensures (q * m + r) / m == q && (q * m + r) % m == r
  {
    var x := q * m + r;
    var d := x / m;
    assert x == d * m + x % m;
    Ordered(d + 1, q, m);
    Ordered(q + 1, d, m);
    assert (d + 1) * m == d * m + m && (q + 1) * m == q * m + m;
  }

  /** The k-th page from a page aligned address on. */
  lemma PageAt(address: nat, k: nat)
    requires address % PAGE_SIZE == 0
    ensures (address + k * PAGE_SIZE) / PAGE_SIZE == address / PAGE_SIZE + k
    ensures (address + k * PAGE_SIZE) % PAGE_SIZE == 0
  {}

  /** What get_memory_map says about one page of an area. */
  datatype Lookup = Found(physical: uint64) | Failed(code: int)

  /** An area as the kernel sees it through get_area_info and get_memory_map. */
  datatype Area = Area(size: uint64, lookups: seq<Lookup>) | NoArea(code: int)

  function PageAddress(k: nat): nat { k * PAGE_SIZE }

  /** Some page is not held, with more of them than are. */
  lemma PageLeft(live: set<int>, n: nat)
    requires |live| < n
    ensures exists k: nat :: 1 <= k <= n && PageAddress(k) !in live
  {
    if PageAddress(n) in live {
      PageLeft(live - {PageAddress(n)}, n - 1);
    }
  }

  /** create_area for one contiguous page followed by get_memory_map on it. Both
      may fail, unless there are pages below 512 GiB in `plenty`; what the memory
      manager promises is a whole page, not page zero, that nobody among `live`
      already holds. */
  method AllocatePage(live: set<int>, plenty: bool) returns (status: Status, physical: int)
    ensures status.Ok? ==> physical % PAGE_SIZE == 0 && physical > 0 && physical !in live
    ensures plenty && |live| <= 512 ==> status.Ok? && physical < 0x80_0000_0000
  {
    status, physical := *, *;
    if status.Ok? && !(physical % PAGE_SIZE == 0 && physical > 0 && physical !in live) {
      status := NoMemory;
    }
    if plenty && |live| <= 512 && !(status.Ok? && physical < 0x80_0000_0000) {
      PageLeft(live, 0x7ff_ffff);
      var k: nat :| 1 <= k <= 0x7ff_ffff && PageAddress(k) !in live;
      status, physical := Ok, PageAddress(k);
    }
  }
}
