/** The tree of page tables as a value: which table serves which region of the
    address space, what the hardware finds when it walks them, and the two ways
    the driver changes them. Nothing in here has any storage; PageTables keeps
    the real tables and shows that its writes are exactly these changes. */
module AddressSpace {
  import opened Machine

  const ENTRIES := 512
  const MAX_TABLES := 512

  /** kPageEntryAddressMask covers bits 12 to 38: a physical address is usable
      when it has no bit outside that mask. */
  predicate Addressable(physical: int) {
    physical % PAGE_SIZE == 0 && 0 <= physical < 0x80_0000_0000
  }

  /** physical | present | writable, for a page aligned address. */
  function PageEntry(physical: int): int { physical + 3 }

  /** entry & kPageEntryAddressMask. */
  function EntryAddress(entry: int): int {
    entry / PAGE_SIZE % 0x800_0000 * PAGE_SIZE
  }

  /** An address survives the mask exactly when it is usable. */
  lemma MaskKeeps(physical: uint64)
    ensures Addressable(physical) <==> EntryAddress(physical) == physical
  {}

  /** What the hardware lets through an entry: bit 0 says there is something
      behind it, bit 1 that it may be written. */
  predicate Allows(entry: int, write: bool) {
    entry % 2 == 1 && (write ==> entry / 2 % 2 == 1)
  }

  /** IndexAt on a page number: nine bits per level, top level first. */
  function Index(page: nat, level: nat): nat
    requires level <= 3
  {
    if level == 0 then page / 0x800_0000 % ENTRIES
    else if level == 1 then page / 0x4_0000 % ENTRIES
    else if level == 2 then page / 0x200 % ENTRIES
    else page % ENTRIES
  }

  /** IndexAt as it is written, on a byte address: shift down and mask. */
  function IndexAt(address: uint64, level: nat): nat
    requires level <= 3
  {
    if level == 0 then address / 0x80_0000_0000 % ENTRIES
    else if level == 1 then address / 0x4000_0000 % ENTRIES
    else if level == 2 then address / 0x20_0000 % ENTRIES
    else address / 0x1000 % ENTRIES
  }

  lemma IndexOfPage(address: uint64, level: nat)
    requires level <= 3
    ensures IndexAt(address, level) == Index(address / PAGE_SIZE, level)
  {}

  /** A part of the address space one table is responsible for, named by the
      indices that lead to it: everything for the root, 512 GiB one step down,
      then 1 GiB, then 2 MiB. */
  datatype Region = Root | Sub(parent: Region, index: nat)

  function Level(r: Region): nat {
    match r
    case Root => 0
    case Sub(parent, _) => Level(parent) + 1
  }

  function RegionOf(page: nat, level: nat): (r: Region)
    requires level <= 3
    ensures Level(r) == level
  {
    if level == 0 then Root else Sub(RegionOf(page, level - 1), Index(page, level - 1))
  }

  /** The regions below the root, down to a level, that a walk to `page` enters. */
  ghost function Path(page: nat, level: nat): set<Region>
    requires level <= 3
  {
    if level == 0 then {} else Path(page, level - 1) + {RegionOf(page, level)}
  }

  /** Tables 0, 1 and 2 are the shared scratch tables of levels 3, 2 and 1; the
      rest belong to one region each, owner[j - 3] for table j. */
  datatype Space = Space(
    tables: seq<seq<int>>,
    physical: seq<int>,
    owner: seq<Region>,
    node: map<Region, nat>,
    scratch: int)

  function ScratchTable(level: nat): nat
    requires 1 <= level <= 3
  {
    3 - level
  }

  /** The table a walk is in after consuming the indices above `r`. */
  function TableFor(s: Space, r: Region): nat
    requires 1 <= Level(r) <= 3 || r in s.node
  {
    if r in s.node then s.node[r] else ScratchTable(Level(r))
  }

  ghost predicate Shaped(s: Space) {
    && 4 <= |s.tables| <= MAX_TABLES
    && |s.physical| == |s.tables|
    && |s.owner| == |s.tables| - 3
    && (forall j :: 0 <= j < |s.tables| ==> |s.tables[j]| == ENTRIES)
    && (forall j :: 0 <= j < |s.physical| ==> Addressable(s.physical[j]) && s.physical[j] != 0)
    && (forall j, k :: 0 <= j < k < |s.physical| ==> s.physical[j] != s.physical[k])
  }

  /** Private tables form a tree: every region owns at most one table, every
      table but the scratch ones has one region, and parents come along. */
  ghost predicate Tree(s: Space)
    requires Shaped(s)
  {
    && Root in s.node && s.node[Root] == 3
    && (forall r :: r in s.node ==>
          3 <= s.node[r] < |s.tables| && s.owner[s.node[r] - 3] == r && Level(r) <= 3)
    && (forall r: Region, i: nat :: Sub(r, i) in s.node ==> r in s.node && i < ENTRIES)
    && |s.node| == |s.owner|
  }

  /** Every entry above the last level points at the table of the region below
      it, and the scratch tables at each other and at the scratch page. */
  ghost predicate Linked(s: Space)
    requires Shaped(s) && Tree(s)
  {
    && (forall r, i {:trigger s.tables[s.node[r]][i]} :: r in s.node && Level(r) < 3 && 0 <= i < ENTRIES ==>
          s.tables[s.node[r]][i] == PageEntry(s.physical[TableFor(s, Sub(r, i))]))
    && (forall i :: 0 <= i < ENTRIES ==> s.tables[0][i] == PageEntry(s.scratch))
    && (forall i :: 0 <= i < ENTRIES ==> s.tables[1][i] == PageEntry(s.physical[0]))
    && (forall i :: 0 <= i < ENTRIES ==> s.tables[2][i] == PageEntry(s.physical[1]))
  }

  ghost predicate WellFormed(s: Space) {
    Shaped(s) && Tree(s) && Linked(s)
  }

  /** The flat reading: the entry of the 2 MiB region's own table if it has one,
      the scratch page otherwise. */
  function Flat(s: Space, page: nat): int
    requires Shaped(s) && Tree(s)
    requires page < PAGE_LIMIT
  {
    var leaf := RegionOf(page, 3);
    if leaf in s.node then s.tables[s.node[leaf]][page % ENTRIES] else PageEntry(s.scratch)
  }

  // ---------------------------------------------------------------- the walk

  /** The table at a physical address, by the first match, as _Descend searches. */
  function Find(physical: seq<int>, address: int): (j: int)
    ensures -1 <= j < |physical|
    ensures j >= 0 ==> physical[j] == address
    ensures j < 0 ==> address !in physical
  {
    if physical == [] then -1
    else if physical[0] == address then 0
    else
      var rest := Find(physical[1..], address);
      if rest < 0 then -1 else rest + 1
  }

  /** The hardware's walk for a read or a write: four dependent reads of memory
      by physical address, and the page the last of them leads to. An entry on
      the way that does not allow the access is a fault, as is an address where
      there is no table. */
  function Walk(memory: seq<seq<int>>, physical: seq<int>, table: int, page: nat, level: nat, write: bool): Option<int>
    requires |memory| == |physical|
    requires forall j :: 0 <= j < |memory| ==> |memory[j]| == ENTRIES
    requires level <= 3
    decreases 3 - level
  {
    var j := Find(physical, table);
    if j < 0 then None
    else
      var entry := memory[j][Index(page, level)];
      if !Allows(entry, write) then None
      else if level == 3 then Some(EntryAddress(entry))
      else Walk(memory, physical, EntryAddress(entry), page, level + 1, write)
  }

  lemma FindDistinct(physical: seq<int>, j: nat)
    requires j < |physical|
    requires forall i, k :: 0 <= i < k < |physical| ==> physical[i] != physical[k]
    ensures Find(physical, physical[j]) == j
  {
    var k := Find(physical, physical[j]);
    assert physical[j] in physical;
  }

  /** The flags stay clear of the address. */
  lemma EntryParts(frame: nat)
    ensures (frame * PAGE_SIZE + 3) / PAGE_SIZE == frame
    ensures (frame * PAGE_SIZE + 3) % PAGE_SIZE == 3
    ensures (frame * PAGE_SIZE + 3) % 4 == 3 && (frame * PAGE_SIZE + 3) % 2 == 1
    ensures (frame * PAGE_SIZE + 3) / 2 % 2 == 1
  {
    Parts(frame, PAGE_SIZE, 3);
    Parts(frame * 1024, 4, 3);
    Parts(frame * 2048 + 1, 2, 1);
    Parts(frame * 1024, 2, 1);
    assert frame * PAGE_SIZE + 3 == frame * 1024 * 4 + 3 == (frame * 2048 + 1) * 2 + 1;
    assert frame * 2048 + 1 == frame * 1024 * 2 + 1;
  }

  /** An entry for a usable page leads to that page, for reads and for writes,
      and says nothing else. */
  lemma EntryRoundTrip(physical: int)
    requires Addressable(physical)
    ensures EntryAddress(PageEntry(physical)) == physical && PageEntry(physical) % 4096 == 3
    ensures Allows(PageEntry(physical), false) && Allows(PageEntry(physical), true)
  {
    EntryParts(physical / PAGE_SIZE);
  }

  /** The entry for the scratch page, whose address nobody has checked, always
      leads to some page; it is the scratch page exactly when that is usable. */
  lemma ScratchEntry(physical: nat)
    requires physical % PAGE_SIZE == 0
    ensures Allows(PageEntry(physical), false) && Allows(PageEntry(physical), true)
    ensures EntryAddress(PageEntry(physical)) == physical <==> Addressable(physical)
  {
    EntryParts(physical / PAGE_SIZE);
  }

  lemma ScratchOutOfReach()
    ensures EntryAddress(PageEntry(0x80_0000_0000)) == 0
  {}

  /** The four indices of a page number are all of it. */
  lemma Compose(p: nat)
    requires p < PAGE_LIMIT
    ensures p == ((Index(p, 0) * ENTRIES + Index(p, 1)) * ENTRIES + Index(p, 2)) * ENTRIES + Index(p, 3)
  {
    var a, b, c := p / 0x200, p / 0x4_0000, p / 0x800_0000;
    assert p == a * 0x200 + p % 0x200;
    assert b == a / 0x200 && a == b * 0x200 + a % 0x200;
    assert c == b / 0x200 && b == c * 0x200 + b % 0x200;
    assert c < 0x200;
  }

  lemma LeafDecides(p: nat, q: nat)
    requires p < PAGE_LIMIT && q < PAGE_LIMIT
    requires RegionOf(p, 3) == RegionOf(q, 3) && p % ENTRIES == q % ENTRIES
    ensures p == q
  {
    assert RegionOf(p, 2) == RegionOf(q, 2);
    assert RegionOf(p, 1) == RegionOf(q, 1);
    Compose(p);
    Compose(q);
  }

  /** One step of the walk lands in the table of the next region down, whether
      that is a private table or the scratch one. */
  lemma StepLands(s: Space, page: nat, level: nat)
    requires WellFormed(s) && page < PAGE_LIMIT && level < 3
    ensures var here := TableFor(s, RegionOf(page, level));
            var below := TableFor(s, RegionOf(page, level + 1));
            s.tables[here][Index(page, level)] == PageEntry(s.physical[below])
  {
    var r := RegionOf(page, level);
    assert RegionOf(page, level + 1) == Sub(r, Index(page, level));
  }

  /** What an access finds behind an entry of the last level. */
  function Behind(entry: int, write: bool): Option<int> {
    if Allows(entry, write) then Some(EntryAddress(entry)) else None
  }

  lemma {:induction false} WalkFrom(s: Space, page: nat, level: nat, write: bool)
    requires WellFormed(s) && page < PAGE_LIMIT && level <= 3
    ensures Walk(s.tables, s.physical, s.physical[TableFor(s, RegionOf(page, level))], page, level, write)
         == Behind(Flat(s, page), write)
    decreases 3 - level
  {
    hide Allows, EntryAddress, PageEntry;
    var here := TableFor(s, RegionOf(page, level));
    FindDistinct(s.physical, here);
    if level < 3 {
      StepLands(s, page, level);
      EntryRoundTrip(s.physical[TableFor(s, RegionOf(page, level + 1))]);
      WalkFrom(s, page, level + 1, write);
    }
  }

  /** No entry above the last level ever stands in the way: every 48 bit address
      walks to the flat reading's entry, and to the page behind it. */
  lemma WalkIsFlat(s: Space, page: nat, write: bool)
    requires WellFormed(s) && page < PAGE_LIMIT
    ensures Walk(s.tables, s.physical, s.physical[3], page, 0, write) == Behind(Flat(s, page), write)
  {
    WalkFrom(s, page, 0, write);
  }

  /** `mapped` is the flat page map a tree stands for: the given physical page
      where there is one, the scratch page everywhere else. */
  function EntryFor(mapped: map<nat, int>, scratch: int, page: nat): int {
    PageEntry(if page in mapped then mapped[page] else scratch)
  }

  ghost predicate StandsFor(s: Space, mapped: map<nat, int>) {
    && WellFormed(s)
    && (forall page :: page in mapped ==> page < PAGE_LIMIT && Addressable(mapped[page]))
    && (forall page :: 0 <= page < PAGE_LIMIT ==> Flat(s, page) == EntryFor(mapped, s.scratch, page))
  }

  /** The bounds a caller that only holds StandsFor works with. */
  lemma Bounds(s: Space, mapped: map<nat, int>)
    requires StandsFor(s, mapped)
    ensures 4 <= |s.tables| == |s.physical| <= MAX_TABLES
    ensures forall j :: 0 <= j < |s.tables| ==> |s.tables[j]| == ENTRIES
    ensures Root in s.node && s.node[Root] == 3
    ensures forall r :: r in s.node ==> 3 <= s.node[r] < |s.tables|
    ensures forall r, q :: r in s.node && q in s.node && s.node[r] == s.node[q] ==> r == q
  {}

  /** Tables were given to some of the allowed regions and taken from none. */
  ghost predicate Grew(before: set<Region>, after: set<Region>, allowed: set<Region>) {
    before <= after <= before + allowed
  }

  lemma GrewMore(before: set<Region>, now: set<Region>, page: nat, level: nat)
    requires level < 3 && Grew(before, now, Path(page, level))
    ensures Grew(before, now, Path(page, level + 1))
    ensures Grew(before, now + {RegionOf(page, level + 1)}, Path(page, level + 1))
  {}

  lemma {:induction false} GrewAll(before: set<Region>, now: set<Region>, page: nat, level: nat)
    requires level <= 3 && Grew(before, now, Path(page, level))
    ensures Grew(before, now, Path(page, 3))
    decreases 3 - level
  {
    if level < 3 {
      GrewMore(before, now, page, level);
      GrewAll(before, now, page, level + 1);
    }
  }

  /** Searching for the table an entry points at finds the one of the region
      below: a private one if it has one, else the scratch table of its level. */
  lemma DescendFinds(s: Space, mapped: map<nat, int>, page: nat, level: nat)
    requires StandsFor(s, mapped) && page < PAGE_LIMIT && level < 3
    ensures var here := TableFor(s, RegionOf(page, level));
            var below := TableFor(s, RegionOf(page, level + 1));
            && here < |s.tables| && |s.tables[here]| == ENTRIES && Index(page, level) < ENTRIES
            && Find(s.physical, EntryAddress(s.tables[here][Index(page, level)])) == below
            && (below < 3 <==> RegionOf(page, level + 1) !in s.node)
  {
    StepLands(s, page, level);
    var below := TableFor(s, RegionOf(page, level + 1));
    EntryRoundTrip(s.physical[below]);
    FindDistinct(s.physical, below);
  }

  /** Where a walk leaves the private tables it does not meet one again. */
  lemma {:induction false} NoneBelow(s: Space, mapped: map<nat, int>, page: nat, level: nat)
    requires StandsFor(s, mapped) && level <= 3
    requires RegionOf(page, level) !in s.node
    ensures RegionOf(page, 3) !in s.node
    decreases 3 - level
  {
    if level < 3 {
      assert RegionOf(page, level + 1) == Sub(RegionOf(page, level), Index(page, level));
      NoneBelow(s, mapped, page, level + 1);
    }
  }

  /** A page with a last level table of its own has one at every level. */
  lemma WholePath(s: Space, mapped: map<nat, int>, page: nat)
    requires StandsFor(s, mapped) && RegionOf(page, 3) in s.node
    ensures Path(page, 3) <= s.node.Keys
  {
    assert RegionOf(page, 3) == Sub(RegionOf(page, 2), Index(page, 2));
    assert RegionOf(page, 2) == Sub(RegionOf(page, 1), Index(page, 1));
    assert Path(page, 1) == {RegionOf(page, 1)};
  }

  /** A page whose region has no table of its own reads as scratch, so taking
      it out of the flat map changes nothing. */
  lemma Unreached(s: Space, mapped: map<nat, int>, page: nat)
    requires StandsFor(s, mapped) && page < PAGE_LIMIT && RegionOf(page, 3) !in s.node
    ensures StandsFor(s, mapped - {page})
  {
    assert Flat(s, page) == PageEntry(s.scratch);
  }

  /** What the hardware finds at an address is what the flat map says: a mapped
      page reads and writes its own physical page, every other page of the
      address space one and the same page, and nothing is ever a fault. */
  lemma WalkIsMapped(s: Space, mapped: map<nat, int>, page: nat, write: bool)
    requires StandsFor(s, mapped) && page < PAGE_LIMIT
    requires page in mapped || (s.scratch >= 0 && s.scratch % PAGE_SIZE == 0)
    ensures Walk(s.tables, s.physical, s.physical[3], page, 0, write)
         == Some(if page in mapped then mapped[page] else EntryAddress(PageEntry(s.scratch)))
  {
    hide WellFormed, Flat, Walk, PageEntry, EntryAddress, Allows;
    WalkIsFlat(s, page, write);
    if page in mapped {
      EntryRoundTrip(mapped[page]);
    } else {
      ScratchEntry(s.scratch);
    }
  }

  // ------------------------------------------------------------- the changes

  /** A table with every entry the same. */
  function Filled(entry: int): (table: seq<int>)
    ensures |table| == ENTRIES && forall i :: 0 <= i < ENTRIES ==> table[i] == entry
  {
    seq(ENTRIES, _ => entry)
  }

  /** Give `child` a table of its own: a copy of the scratch table it used,
      hung into its parent. This is the only way a table is added. */
  function Grow(s: Space, child: Region, address: int): Space
    requires child.Sub? && Level(child) <= 3 && child.parent in s.node
    requires 3 <= |s.tables| && s.node[child.parent] < |s.tables|
    requires child.index < |s.tables[s.node[child.parent]]|
  {
    var parent := s.node[child.parent];
    var made := s.tables + [Filled(0)];
    var copied := made[|s.tables| := made[ScratchTable(Level(child))]];
    Space(
      copied[parent := copied[parent][child.index := PageEntry(address)]],
      s.physical + [address],
      s.owner + [child],
      s.node[child := |s.tables|],
      s.scratch)
  }

  /** `child` may be given a table at `address`: its parent has one, it has
      none, and no other table lives there. */
  ghost predicate Growable(s: Space, child: Region, address: int) {
    && Shaped(s) && Tree(s) && |s.tables| < MAX_TABLES
    && child.Sub? && Level(child) <= 3 && child.index < ENTRIES
    && child.parent in s.node && child !in s.node
    && Addressable(address) && address != 0 && address !in s.physical
  }

  lemma GrowShaped(s: Space, child: Region, address: int)
    requires Growable(s, child, address)
    ensures Shaped(Grow(s, child, address))
  {
    var t := Grow(s, child, address);
    forall j, k | 0 <= j < k < |t.physical|
      ensures t.physical[j] != t.physical[k]
    {
      assert t.physical[j] == s.physical[j];
      if k < |s.physical| { assert t.physical[k] == s.physical[k]; }
    }
  }

  lemma GrowTree(s: Space, child: Region, address: int)
    requires Growable(s, child, address)
    ensures Shaped(Grow(s, child, address)) && Tree(Grow(s, child, address))
  {
    var t := Grow(s, child, address);
    GrowShaped(s, child, address);
    forall r | r in t.node
      ensures 3 <= t.node[r] < |t.tables| && t.owner[t.node[r] - 3] == r && Level(r) <= 3
    {
      if r != child { assert r in s.node; }
    }
    assert t.node.Keys == s.node.Keys + {child};
  }

  /** The new table starts out sending every index where the scratch table did. */
  lemma GrowEntryNew(s: Space, child: Region, address: int, i: nat)
    requires Growable(s, child, address) && Linked(s)
    requires Shaped(Grow(s, child, address)) && Tree(Grow(s, child, address))
    requires Level(child) < 3 && i < ENTRIES
    ensures var t := Grow(s, child, address);
            t.tables[t.node[child]][i] == PageEntry(t.physical[TableFor(t, Sub(child, i))])
  {
    var t := Grow(s, child, address);
    assert Sub(child, i) !in s.node;
    assert t.tables[|s.tables|] == s.tables[ScratchTable(Level(child))];
    assert t.physical[0] == s.physical[0] && t.physical[1] == s.physical[1];
  }

  /** An existing table is written at most at the entry the child hangs from. */
  lemma GrowWrites(s: Space, child: Region, address: int, j: nat, i: nat)
    requires Growable(s, child, address)
    requires j < |s.tables| && i < ENTRIES
    ensures var t := Grow(s, child, address);
            && j < |t.tables| && |t.tables[j]| == ENTRIES
            && t.tables[j][i] == if j == s.node[child.parent] && i == child.index
                                 then PageEntry(address) else s.tables[j][i]
  {}

  /** No index but the child's own is sent anywhere else than before. */
  lemma GrowOthers(s: Space, child: Region, address: int, r: Region, i: nat)
    requires Growable(s, child, address)
    requires r in s.node && i < ENTRIES && Sub(r, i) != child
    ensures var t := Grow(s, child, address);
            && s.node[r] < |s.tables| < |t.tables| && |t.tables[s.node[r]]| == ENTRIES
            && t.tables[s.node[r]][i] == s.tables[s.node[r]][i]
  {
    GrowWrites(s, child, address, s.node[r], i);
    assert s.owner[s.node[r] - 3] == r;
    assert s.owner[s.node[child.parent] - 3] == child.parent;
  }

  lemma GrowWellFormed(s: Space, child: Region, address: int)
    requires Growable(s, child, address) && Linked(s)
    ensures WellFormed(Grow(s, child, address))
  {
    var t := Grow(s, child, address);
    GrowTree(s, child, address);
    forall r, i | r in t.node && Level(r) < 3 && 0 <= i < ENTRIES
      ensures t.tables[t.node[r]][i] == PageEntry(t.physical[TableFor(t, Sub(r, i))])
    {
      if r == child {
        GrowEntryNew(s, child, address, i);
      } else if Sub(r, i) == child {
        GrowWrites(s, child, address, s.node[r], i);
      } else {
        GrowOthers(s, child, address, r, i);
        assert s.tables[s.node[r]][i] == PageEntry(s.physical[TableFor(s, Sub(r, i))]);
      }
    }
    var parent := s.node[child.parent];
    assert parent >= 3;
    assert t.tables[0] == s.tables[0] && t.tables[1] == s.tables[1] && t.tables[2] == s.tables[2];
  }

  /** Giving a region its own table changes no translation at all. */
  lemma GrowFlat(s: Space, child: Region, address: int, page: nat)
    requires Growable(s, child, address) && Linked(s) && page < PAGE_LIMIT
    ensures Shaped(Grow(s, child, address)) && Tree(Grow(s, child, address))
    ensures Flat(Grow(s, child, address), page) == Flat(s, page)
  {
    GrowTree(s, child, address);
    var leaf := RegionOf(page, 3);
    if leaf in s.node {
      GrowWrites(s, child, address, s.node[leaf], page % ENTRIES);
      assert s.owner[s.node[leaf] - 3] == leaf;
      assert s.owner[s.node[child.parent] - 3] == child.parent;
    }
  }

  lemma GrowStandsFor(s: Space, mapped: map<nat, int>, child: Region, address: int)
    requires StandsFor(s, mapped) && |s.tables| < MAX_TABLES
    requires child.Sub? && Level(child) <= 3 && child.index < ENTRIES
    requires child.parent in s.node && child !in s.node
    requires Addressable(address) && address != 0 && address !in s.physical
    ensures StandsFor(Grow(s, child, address), mapped)
  {
    var t := Grow(s, child, address);
    GrowWellFormed(s, child, address);
    forall page | 0 <= page < PAGE_LIMIT
      ensures Flat(t, page) == EntryFor(mapped, t.scratch, page)
    {
      GrowFlat(s, child, address, page);
    }
  }

  /** What no operation takes back once it is there: every region keeps the
      table it has, every table its place in memory, and the scratch tables all
      regions share are not written. */
  ghost predicate Keeps(s: Space, t: Space) {
    && 3 <= |s.tables| <= |t.tables| && s.physical <= t.physical
    && (forall r :: r in s.node ==> r in t.node && t.node[r] == s.node[r])
    && (forall j :: 0 <= j < 3 ==> t.tables[j] == s.tables[j])
  }

  lemma KeepsMore(s: Space, t: Space, u: Space)
    requires Keeps(s, t) && Keeps(t, u)
    ensures Keeps(s, u)
  {}

  lemma KeepsSelf(s: Space, mapped: map<nat, int>)
    requires StandsFor(s, mapped)
    ensures Keeps(s, s)
  {}

  lemma GrowKeeps(s: Space, mapped: map<nat, int>, child: Region, address: int)
    requires StandsFor(s, mapped) && child.Sub? && child.parent in s.node && child !in s.node
    requires child.index < ENTRIES
    ensures 3 <= s.node[child.parent] < |s.tables| && |s.tables[s.node[child.parent]]| == ENTRIES
    ensures Level(child) <= 3 ==> Keeps(s, Grow(s, child, address))
  {
    hide Linked, Flat;
  }

  lemma SetLeafKeeps(s: Space, mapped: map<nat, int>, page: nat, entry: int)
    requires StandsFor(s, mapped) && page < PAGE_LIMIT && RegionOf(page, 3) in s.node
    ensures 3 <= s.node[RegionOf(page, 3)] < |s.tables| && |s.tables[s.node[RegionOf(page, 3)]]| == ENTRIES
    ensures Keeps(s, SetLeaf(s, page, entry))
  {
    hide Linked, Flat, RegionOf;
  }

  /** Write one entry of the table that covers a page. */
  function SetLeaf(s: Space, page: nat, entry: int): Space
    requires RegionOf(page, 3) in s.node && s.node[RegionOf(page, 3)] < |s.tables|
    requires |s.tables[s.node[RegionOf(page, 3)]]| == ENTRIES
  {
    var leaf := s.node[RegionOf(page, 3)];
    var written: seq<int> := s.tables[leaf][page % ENTRIES := entry];
    s.(tables := s.tables[leaf := written])
  }

  lemma SetLeafWellFormed(s: Space, page: nat, entry: int)
    requires WellFormed(s) && page < PAGE_LIMIT && RegionOf(page, 3) in s.node
    ensures WellFormed(SetLeaf(s, page, entry))
  {
    var t := SetLeaf(s, page, entry);
    var leaf := s.node[RegionOf(page, 3)];
    assert Shaped(t) && Tree(t);
    forall r, i | r in t.node && Level(r) < 3 && 0 <= i < ENTRIES
      ensures t.tables[t.node[r]][i] == PageEntry(t.physical[TableFor(t, Sub(r, i))])
    {
      assert s.owner[s.node[r] - 3] == r;
      assert s.node[r] != leaf;
      assert TableFor(t, Sub(r, i)) == TableFor(s, Sub(r, i));
    }
    assert t.tables[0] == s.tables[0] && t.tables[1] == s.tables[1] && t.tables[2] == s.tables[2];
  }

  /** One entry of one private table is written, and nothing else. */
  lemma SetLeafWrites(s: Space, page: nat, entry: int, r: Region, i: nat)
    requires Shaped(s) && Tree(s) && RegionOf(page, 3) in s.node && r in s.node && i < ENTRIES
    ensures var t := SetLeaf(s, page, entry);
            && Shaped(t) && Tree(t)
            && t.tables[t.node[r]][i] ==
                 if r == RegionOf(page, 3) && i == page % ENTRIES then entry else s.tables[s.node[r]][i]
  {
    hide RegionOf;
    assert s.owner[s.node[r] - 3] == r;
    assert s.owner[s.node[RegionOf(page, 3)] - 3] == RegionOf(page, 3);
  }

  /** Writing a page's entry changes the translation of that page and no other. */
  lemma SetLeafFlat(s: Space, page: nat, entry: int, p: nat)
    requires WellFormed(s) && page < PAGE_LIMIT && RegionOf(page, 3) in s.node
    requires p < PAGE_LIMIT
    ensures Shaped(SetLeaf(s, page, entry)) && Tree(SetLeaf(s, page, entry))
    ensures Flat(SetLeaf(s, page, entry), p) == if p == page then entry else Flat(s, p)
  {
    hide Linked, Tree, RegionOf;
    SetLeafWrites(s, page, entry, RegionOf(page, 3), 0);
    var q := RegionOf(p, 3);
    if q in s.node {
      SetLeafWrites(s, page, entry, q, p % ENTRIES);
      if q == RegionOf(page, 3) && p % ENTRIES == page % ENTRIES {
        LeafDecides(p, page);
      }
    }
  }

  lemma SetLeafStandsFor(s: Space, mapped: map<nat, int>, page: nat, physical: int)
    requires StandsFor(s, mapped) && page < PAGE_LIMIT && RegionOf(page, 3) in s.node
    ensures Addressable(physical) ==> StandsFor(SetLeaf(s, page, PageEntry(physical)), mapped[page := physical])
    ensures physical == s.scratch ==>
              StandsFor(SetLeaf(s, page, PageEntry(physical)), mapped - {page})
  {
    var t := SetLeaf(s, page, PageEntry(physical));
    SetLeafWellFormed(s, page, PageEntry(physical));
    forall p | 0 <= p < PAGE_LIMIT
      ensures Flat(t, p) == EntryFor(mapped[page := physical], t.scratch, p)
      ensures physical == s.scratch ==> Flat(t, p) == EntryFor(mapped - {page}, t.scratch, p)
    {
      SetLeafFlat(s, page, PageEntry(physical), p);
    }
  }

  /** The four tables Init makes, deepest scratch table first and the top last. */
  function Initial(physical: seq<int>, scratch: int): Space
    requires |physical| == 4
  {
    Space(
      [Filled(PageEntry(scratch)), Filled(PageEntry(physical[0])),
       Filled(PageEntry(physical[1])), Filled(PageEntry(physical[2]))],
      physical, [Root], map[Root := 3], scratch)
  }

  /** The first `level` of them: each points at the one before, and `below` is
      the entry that points at the last. */
  ghost predicate Stacked(tables: seq<seq<int>>, physical: seq<int>, scratch: int, below: int) {
    && |tables| == |physical| <= 3
    && (forall i :: 0 <= i < |physical| ==> Addressable(physical[i]) && physical[i] != 0)
    && (forall i, j :: 0 <= i < j < |physical| ==> physical[i] != physical[j])
    && (forall i :: 0 <= i < |tables| ==>
          tables[i] == Filled(PageEntry(if i == 0 then scratch else physical[i - 1])))
    && below == PageEntry(if |physical| == 0 then scratch else physical[|physical| - 1])
  }

  /** One more table on top of three is the whole initial tree, in which nothing
      is mapped anywhere. */
  lemma StackedStandsFor(tables: seq<seq<int>>, physical: seq<int>, scratch: int, below: int, top: int)
    requires Stacked(tables, physical, scratch, below) && |physical| == 3
    requires Addressable(top) && top != 0 && top !in physical
    ensures Initial(physical + [top], scratch).tables == (tables + [Filled(0)])[3 := Filled(below)]
    ensures StandsFor(Initial(physical + [top], scratch), map[])
  {
    InitialStandsFor(physical + [top], scratch);
  }

  /** Nothing is mapped anywhere in them. */
  lemma InitialStandsFor(physical: seq<int>, scratch: int)
    requires |physical| == 4
    requires forall i :: 0 <= i < 4 ==> Addressable(physical[i]) && physical[i] != 0
    requires forall i, j :: 0 <= i < j < 4 ==> physical[i] != physical[j]
    ensures StandsFor(Initial(physical, scratch), map[])
  {
    assert Tree(Initial(physical, scratch));
  }

  // ------------------------------------------------------- runs of pages

  /** A page aligned range inside the 48 bit address space. */
  predicate InSpace(address: uint64, size: uint64) {
    address % PAGE_SIZE == 0 && address < ADDRESS_LIMIT && size <= ADDRESS_LIMIT - address
  }

  /** The flat map with the pages from `first` on pointed at `physical`. */
  function With(m: map<nat, int>, first: nat, physical: seq<int>): map<nat, int> {
    if physical == [] then m
    else
      var last := |physical| - 1;
      With(m, first, physical[..last])[first + last := physical[last]]
  }

  lemma WithMore(m: map<nat, int>, first: nat, physical: seq<int>, p: int)
    ensures With(m, first, physical + [p]) == With(m, first, physical)[first + |physical| := p]
  {
    assert (physical + [p])[..|physical|] == physical;
  }

  /** Exactly the pages of the run change, each to its own physical page. */
  lemma {:induction false} WithIs(m: map<nat, int>, first: nat, physical: seq<int>)
    ensures forall page :: page in With(m, first, physical) <==> page in m || first <= page < first + |physical|
    ensures forall page :: page in With(m, first, physical) ==>
              With(m, first, physical)[page] ==
                if first <= page < first + |physical| then physical[page - first] else m[page]
  {
    if physical != [] {
      WithIs(m, first, physical[..|physical| - 1]);
    }
  }

  /** The flat map with `count` pages from `first` on taken out. */
  function Without(m: map<nat, int>, first: nat, count: nat): map<nat, int> {
    if count == 0 then m else Without(m, first, count - 1) - {first + count - 1}
  }

  lemma {:induction false} WithoutIs(m: map<nat, int>, first: nat, count: nat)
    ensures forall page :: page in Without(m, first, count) <==> page in m && !(first <= page < first + count)
    ensures forall page :: page in Without(m, first, count) ==> Without(m, first, count)[page] == m[page]
  {
    if count > 0 {
      WithoutIs(m, first, count - 1);
    }
  }

  // ------------------------------------------------------------- the counts

  /** fTableCount is four plus the number of regions below the root that own a
      table, so a table is only ever added by giving some region its first. */
  lemma TableCount(s: Space)
    requires WellFormed(s)
    ensures |s.tables| == 4 + |s.node.Keys - {Root}|
  {
    assert |s.node.Keys| == |s.node|;
  }

  /** Mapping makes at most one table for each region it is the first to enter. */
  lemma TablesAdded(before: Space, after: Space, touched: set<Region>)
    requires WellFormed(before) && WellFormed(after)
    requires Grew(before.node.Keys, after.node.Keys, touched)
    ensures |before.tables| <= |after.tables| <= |before.tables| + |touched - before.node.Keys|
  {
    var new_ := after.node.Keys - before.node.Keys;
    assert after.node.Keys == before.node.Keys + new_ && new_ <= touched - before.node.Keys;
    FewerIn(new_, touched - before.node.Keys);
    assert |after.node.Keys| == |after.node| && |before.node.Keys| == |before.node|;
  }

  lemma {:induction false} FewerIn(a: set<Region>, b: set<Region>)
    requires a <= b
    ensures |a| <= |b|
  {
    if a != {} {
      var r :| r in a;
      FewerIn(a - {r}, b - {r});
    }
  }
}
