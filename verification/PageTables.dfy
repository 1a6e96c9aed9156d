/** kernel/PageTables.cpp: the four level tables of one process, written in
    place. `mapped` is the flat page map they stand for and `memory` is what
    main memory holds of each table, which is all the GPU can see: a write stays
    in this processor's cache until it is flushed. */
module Ppgtt {
  import opened Machine
  import opened AddressSpace

  /** One page of entries, by its row of the entry array, and where it lives. */
  datatype Table = Table(row: nat, physical: int)

  /** The regions below the root that pages first .. first + count lie in. */
  ghost function Touched(first: nat, count: nat): set<Region> {
    if count == 0 then {} else Touched(first, count - 1) + Path(first + count - 1, 3)
  }

  lemma {:induction false} TouchedWithin(first: nat, done: nat, count: nat)
    requires done <= count
    ensures Touched(first, done) <= Touched(first, count)
    decreases count - done
  {
    if done < count {
      TouchedWithin(first, done + 1, count);
    }
  }

  /** The first pages of a run are in: their translations and nothing else have
      changed, and only regions the first `count` pages lie in have new tables. */
  ghost predicate RunIn(s: Space, m: map<nat, int>, t: Space, n: map<nat, int>, first: nat, physical: seq<int>,
      count: nat) {
    && n == With(m, first, physical)
    && Grew(s.node.Keys, t.node.Keys, Touched(first, count))
    && Touched(first, |physical|) <= t.node.Keys
  }

  /** One more page of a run: its walk adds at most its own path. */
  lemma RunMore(s: Space, m: map<nat, int>, t: Space, n: map<nat, int>, u: Space, first: nat,
      physical: seq<int>, p: int)
    requires RunIn(s, m, t, n, first, physical, |physical|)
    requires Grew(t.node.Keys, u.node.Keys, Path(first + |physical|, 3))
    ensures RunIn(s, m, u, n, first, physical, |physical| + 1)
    ensures Path(first + |physical|, 3) <= u.node.Keys ==>
              RunIn(s, m, u, n[first + |physical| := p], first, physical + [p], |physical| + 1)
  {
    WithMore(m, first, physical, p);
  }

  lemma RunWithin(s: Space, m: map<nat, int>, t: Space, n: map<nat, int>, first: nat, physical: seq<int>, done: nat,
      count: nat)
    requires RunIn(s, m, t, n, first, physical, done) && done <= count
    ensures RunIn(s, m, t, n, first, physical, count)
  {
    TouchedWithin(first, done, count);
  }

  lemma NoRun(s: Space, m: map<nat, int>, first: nat)
    ensures RunIn(s, m, s, m, first, [], 0)
  {}

  /** `count` physical pages from `start` on. */
  ghost function Consecutive(start: nat, count: nat): (p: seq<int>)
    ensures |p| == count
  {
    if count == 0 then [] else Consecutive(start, count - 1) + [start + (count - 1) * PAGE_SIZE]
  }

  function LookupsOf(area: Area): seq<Lookup> {
    if area.Area? then area.lookups else []
  }

  /** The physical pages get_memory_map found for the first pages of an area,
      all of them usable in an entry. */
  ghost predicate IsPrefix(physical: seq<int>, lookups: seq<Lookup>) {
    && |physical| <= |lookups|
    && forall i :: 0 <= i < |physical| ==>
         lookups[i].Found? && lookups[i].physical == physical[i] && Addressable(physical[i])
  }

  function PagesOf(tables: seq<Table>): set<int> {
    set t | t in tables :: t.physical
  }

  lemma {:induction false} FewPages(tables: seq<Table>)
    ensures |PagesOf(tables)| <= |tables|
  {
    if tables != [] {
      var last := |tables| - 1;
      FewPages(tables[..last]);
      assert tables == tables[..last] + [tables[last]];
      assert PagesOf(tables) == PagesOf(tables[..last]) + {tables[last].physical};
    }
  }

  /** What a page that cannot be mapped makes of the call: the lookup's own error,
      or that no entry can hold the address, which has 39 bits and no offset. */
  predicate Refuses(lookup: Lookup, status: Status) {
    match lookup
    case Failed(code) => status == System(code)
    case Found(physical) => (physical % 4096 != 0 || physical >= 0x80_0000_0000) && status == BadAddress
  }

  class PageTables {
    const fEntries: array2<int>
    var fTables: seq<Table>   // fTables[0 .. fTableCount)
    var fTop: Table
    var fRoot: int
    var fScratchPage: int
    var fDirty: bool

    ghost var space: Space
    ghost var mapped: map<nat, int>
    ghost var memory: seq<seq<int>>

    /** `space` lists the tables there are, with the entries this processor
        reads in them. */
    ghost predicate Tracks()
      reads this, fEntries
    {
      && fEntries.Length0 == MAX_TABLES && fEntries.Length1 == ENTRIES
      && |space.tables| == |space.physical| == |fTables| == |memory| <= MAX_TABLES
      && (forall j :: 0 <= j < |fTables| ==> fTables[j] == Table(j, space.physical[j]))
      && (forall j :: 0 <= j < |fTables| ==> |space.tables[j]| == ENTRIES)
      && (forall j, i :: 0 <= j < |fTables| && 0 <= i < ENTRIES ==> fEntries[j, i] == space.tables[j][i])
    }

    /** The tables are a tree that stands for `mapped`, and memory is behind
        only while the dirty flag says so. */
    ghost predicate Valid()
      reads this, fEntries
    {
      && Tracks() && StandsFor(space, mapped) && fScratchPage == space.scratch
      && fTop == fTables[3] && fRoot == fTop.physical && fRoot != 0
      && (!fDirty ==> memory == space.tables)
    }

    predicate IsValid()
      reads this
    {
      fRoot != 0
    }

    constructor ()
      ensures Tracks() && !IsValid() && fTables == [] && fDirty && fresh(fEntries)
    {
      fEntries := new int[MAX_TABLES, ENTRIES];
      fTables, fRoot, fScratchPage, fDirty := [], 0, 0, true;
      fTop := Table(0, 0);
      space, mapped, memory := Space([], [], [], map[], 0), map[], [];
    }

    method CreateTable(plenty: bool) returns (status: Status, table: Table)
      requires Tracks()
      modifies this`fTables, this`memory, this`space, fEntries
      ensures Tracks()
      ensures !status.Ok? ==> space == old(space) && fTables == old(fTables)
      ensures |old(fTables)| == MAX_TABLES ==> status == NoMemory
      ensures |old(fTables)| < MAX_TABLES && plenty ==> status.Ok?
      ensures status.Ok? ==>
        && |old(fTables)| < MAX_TABLES
        && table == Table(|old(fTables)|, table.physical) && fTables == old(fTables) + [table]
        && space == old(space).(tables := old(space.tables) + [Filled(0)],
                                physical := old(space.physical) + [table.physical])
        && Addressable(table.physical) && table.physical != 0 && table.physical !in old(space.physical)
    {
      table := Table(0, 0);
      if |fTables| == MAX_TABLES {
        return NoMemory, table;
      }
      var live := PagesOf(fTables);
      FewPages(fTables);
      var address;
      status, address := AllocatePage(live, plenty);
      if !status.Ok? {
        return;
      }
      if !Addressable(address) {
        return BadAddress, table;
      }
      forall j | 0 <= j < |space.physical|
        ensures space.physical[j] != address
      {
        assert fTables[j].physical in live;
      }
      table := Table(|fTables|, address);
      fTables := fTables + [table];
      // What the page held before stays in memory until the zeroes get there.
      ghost var stale: seq<int> := *;
      memory := memory + [stale];
      space := space.(tables := space.tables + [Row(table.row)], physical := space.physical + [address]);
      Fill(table, 0);
    }

    /** What this processor reads in one row of entries. */
    ghost function Row(row: nat): seq<int>
      requires row < fEntries.Length0 && fEntries.Length1 == ENTRIES
      reads fEntries
    {
      seq(ENTRIES, i requires 0 <= i < ENTRIES reads fEntries => fEntries[row, i])
    }

    /** Set every entry of a table to the same value. */
    method Fill(table: Table, entry: int)
      requires Tracks() && table.row < |fTables|
      modifies fEntries, this`space
      ensures Tracks() && space == old(space).(tables := old(space.tables)[table.row := Filled(entry)])
    {
      for i := 0 to ENTRIES
        invariant forall j, k :: 0 <= j < |fTables| && 0 <= k < ENTRIES ==>
                    fEntries[j, k] == if j == table.row && k < i then entry else space.tables[j][k]
        modifies fEntries
      {
        fEntries[table.row, i] := entry;
      }
      space := space.(tables := space.tables[table.row := Filled(entry)]);
    }

    /** Copy every entry of one table into another. */
    method Copy(table: Table, from: Table)
      requires Tracks() && table.row < |fTables| && from.row < |fTables| && table.row != from.row
      modifies fEntries, this`space
      ensures Tracks() && space == old(space).(tables := old(space.tables)[table.row := old(space.tables)[from.row]])
    {
      for i := 0 to ENTRIES
        invariant forall j, k :: 0 <= j < |fTables| && 0 <= k < ENTRIES ==>
                    fEntries[j, k] == space.tables[if j == table.row && k < i then from.row else j][k]
        modifies fEntries
      {
        fEntries[table.row, i] := fEntries[from.row, i];
      }
      space := space.(tables := space.tables[table.row := space.tables[from.row]]);
    }

    /** table.entries[index] = entry. */
    method Store(table: Table, index: nat, entry: int)
      requires Tracks() && table.row < |fTables| && index < ENTRIES
      modifies fEntries, this`space
      ensures Tracks()
      ensures var row := old(space.tables)[table.row];
              space == old(space).(tables := old(space.tables)[table.row := row[index := entry]])
    {
      fEntries[table.row, index] := entry;
      space := space.(tables := space.tables[table.row := space.tables[table.row][index := entry]]);
    }

    /** The three scratch tables, each filled with the level below it. */
    method CreateScratch(plenty: bool) returns (status: Status, below: int)
      requires Tracks()
      modifies this`fTables, this`memory, this`space, fEntries
      ensures Tracks() && (plenty && old(fTables) == [] ==> status.Ok?)
      ensures status.Ok? && old(fTables) == [] ==>
        |fTables| == 3 && Stacked(space.tables, space.physical, fScratchPage, below)
    {
      status := Ok;
      below := PageEntry(fScratchPage);
      for level := 0 to 3
        invariant Tracks() && status.Ok?
        invariant old(fTables) == [] ==>
                    |fTables| == level && Stacked(space.tables, space.physical, fScratchPage, below)
      {
        var table;
        status, table := CreateTable(plenty);
        if !status.Ok? {
          return;
        }
        Fill(table, below);
        below := PageEntry(table.physical);
      }
    }

    method Init(scratch: Lookup, plenty: bool) returns (status: Status)
      requires Tracks()
      modifies this, fEntries
      ensures Tracks()
      ensures old(IsValid()) ==> status == Busy && fTables == old(fTables)
      // On an object no earlier Init left tables in, and nobody flushed before
      // it had any: the flag has to be up from the constructor on.
      ensures status.Ok? && old(fTables) == [] && old(fDirty) ==>
        Valid() && mapped == map[] && |fTables| == 4 && fDirty
      ensures scratch.Found? && status.Ok? ==> fScratchPage == scratch.physical
      ensures !old(IsValid()) && old(fTables) == [] && scratch.Found? && plenty ==> status.Ok?
    {
      hide StandsFor;
      if IsValid() {
        return Busy;
      }
      if scratch.Failed? {
        return System(scratch.code);
      }
      fScratchPage := scratch.physical;
      var below, top;
      status, below := CreateScratch(plenty);
      if !status.Ok? { return; }
      ghost var levels := space;
      status, top := CreateTable(plenty);
      if !status.Ok? { return; }
      fTop := top;
      Fill(top, below);
      fRoot := top.physical;
      if old(fTables) == [] {
        StackedStandsFor(levels.tables, levels.physical, fScratchPage, below, top.physical);
        space, mapped := Initial(levels.physical + [top.physical], fScratchPage), map[];
      }
    }

    /** What nothing changes once Init is through. */
    twostate predicate SameRoot()
      reads this
    {
      fRoot == old(fRoot) && fTop == old(fTop) && fScratchPage == old(fScratchPage) && Keeps(old(space), space)
    }

    /** The same said of the tables themselves. */
    twostate lemma TablesKept()
      requires old(Valid()) && Valid() && Keeps(old(space), space)
      ensures old(fTables) <= fTables
      ensures forall j, i :: 0 <= j < 3 && 0 <= i < ENTRIES ==> fEntries[j, i] == old(fEntries[j, i])
    {
      forall j | 0 <= j < |old(fTables)|
        ensures fTables[j] == old(fTables)[j]
      {
        assert space.physical[j] == old(space.physical)[j];
      }
      forall j, i | 0 <= j < 3 && 0 <= i < ENTRIES
        ensures fEntries[j, i] == old(fEntries[j, i])
      {
        assert space.tables[j][i] == old(space.tables)[j][i];
      }
    }

    /** What a walk never changes: where it starts, and what it means. */
    twostate predicate Same()
      reads this
    {
      SameRoot() && fDirty == old(fDirty) && mapped == old(mapped)
    }

    /** The table one level down, found by its physical address. */
    method Descend(table: Table, index: nat, create: bool) returns (status: Status, child: Table)
      requires Tracks() && table.row < |fTables| && index < ENTRIES
      ensures var j := Find(space.physical, EntryAddress(space.tables[table.row][index]));
              if j >= 0 then status.Ok? && child == fTables[j]
              else status == if create then Error else EntryNotFound
    {
      child := table;
      var physical := EntryAddress(fEntries[table.row, index]);
      for i := 0 to |fTables|
        invariant physical !in space.physical[..i]
      {
        if fTables[i].physical == physical {
          FirstMatch(space.physical, physical, i);
          return Ok, fTables[i];
        }
        assert space.physical[..i + 1] == space.physical[..i] + [fTables[i].physical];
      }
      assert space.physical[..|fTables|] == space.physical;
      return if create then Error else EntryNotFound, child;
    }

    /** There is no room for another table, or no page. */
    predicate Short(plenty: bool)
      reads `fTables
    {
      !plenty || |fTables| == 512
    }

    /** Replace the scratch table under `index` with a copy of its own, hung
        into `table`, which belongs to `parent`. */
    method GiveTable(ghost parent: Region, table: Table, index: nat, child: Table, plenty: bool)
      returns (status: Status, replacement: Table)
      requires Valid() && fDirty
      requires parent in space.node && Level(parent) < 3 && index < ENTRIES && Sub(parent, index) !in space.node
      requires table.row == space.node[parent] && child.row == ScratchTable(Level(parent) + 1)
      modifies this`fTables, this`memory, this`space, fEntries
      ensures Valid() && Keeps(old(space), space)
      ensures !status.Ok? ==> space == old(space) && Short(plenty)
      ensures status.Ok? ==>
        && space == Grow(old(space), Sub(parent, index), replacement.physical)
        && replacement == Table(space.node[Sub(parent, index)], replacement.physical)
    {
      hide StandsFor, Keeps;
      Bounds(space, mapped);
      KeepsSelf(space, mapped);
      ghost var before := space;
      status, replacement := CreateTable(plenty);
      if !status.Ok? {
        return;
      }
      Copy(replacement, child);
      Store(table, index, PageEntry(replacement.physical));
      GrowKeeps(before, mapped, Sub(parent, index), replacement.physical);
      GrowStandsFor(before, mapped, Sub(parent, index), replacement.physical);
      assert space.tables == Grow(before, Sub(parent, index), replacement.physical).tables;
      space := Grow(before, Sub(parent, index), replacement.physical);
    }

    /** `table` is the private table of the region a page lies in. */
    ghost predicate At(page: nat, level: nat, table: Table)
      requires level <= 3
      reads this
    {
      && RegionOf(page, level) in space.node
      && table.row == space.node[RegionOf(page, level)] < |fTables|
    }

    /** Whether a table is one of the three everything shares. */
    method IsScratch(table: Table) returns (isScratch: bool)
      requires Valid() && table.row < |fTables| && table == fTables[table.row]
      ensures isScratch <==> table.row < 3
    {
      Bounds(space, mapped);
      isScratch := false;
      for i := 0 to 3
        invariant isScratch <==> table.row < i
      {
        if fTables[i].physical == table.physical {
          isScratch := true;
        }
      }
    }

    /** One level of the walk. */
    method Step(ghost page: nat, ghost level: nat, table: Table, index: nat, create: bool, plenty: bool)
      returns (status: Status, child: Table)
      requires Valid() && (create ==> fDirty) && page < PAGE_LIMIT
      requires level < 3 && index == Index(page, level) && At(page, level, table)
      modifies if create then {this, fEntries} else {}
      ensures Valid() && Same()
      ensures !status.Ok? ==> space == old(space)
      ensures !status.Ok? ==> if create then Short(plenty) else RegionOf(page, 3) !in space.node
      ensures status.Ok? ==>
        && space.node.Keys == old(space.node.Keys) + {RegionOf(page, level + 1)}
        && At(page, level + 1, child)
    {
      hide StandsFor, Keeps;
      Bounds(space, mapped);
      KeepsSelf(space, mapped);
      DescendFinds(space, mapped, page, level);
      status, child := Descend(table, index, create);
      var isScratch := IsScratch(child);
      if isScratch {
        if !create {
          NoneBelow(space, mapped, page, level + 1);
          return EntryNotFound, child;
        }
        assert RegionOf(page, level + 1) == Sub(RegionOf(page, level), index);
        status, child := GiveTable(RegionOf(page, level), table, index, child, plenty);
      }
    }

    /** The last level table for an address and the index to use in it. With
        `create`, scratch tables on the way are replaced by private ones. */
    method WalkTo(address: uint64, ghost page: nat, create: bool, plenty: bool)
      returns (status: Status, pageTable: Table, index: nat)
      requires Valid() && (create ==> fDirty) && page < PAGE_LIMIT && address / PAGE_SIZE == page
      modifies if create then {this, fEntries} else {}
      ensures Valid() && Same()
      ensures Grew(old(space.node.Keys), space.node.Keys, Path(page, 3))
      ensures status.Ok? ==> At(page, 3, pageTable) && index == Index(page, 3)
      ensures !status.Ok? ==> if create then Short(plenty) else RegionOf(page, 3) !in space.node
    {
      hide StandsFor, Keeps;
      Bounds(space, mapped);
      KeepsSelf(space, mapped);
      var table := fTop;
      status, pageTable := Ok, fTop;
      for level := 0 to 3
        invariant Valid() && Same()
        invariant status.Ok? && At(page, level, table)
        invariant Grew(old(space.node.Keys), space.node.Keys, Path(page, level))
      {
        index := IndexAt(address, level);
        IndexOfPage(address, level);
        GrewAll(old(space.node.Keys), space.node.Keys, page, level);
        GrewMore(old(space.node.Keys), space.node.Keys, page, level);
        ghost var before := space;
        status, table := Step(page, level, table, index, create, plenty);
        KeepsMore(old(space), before, space);
        if !status.Ok? {
          return;
        }
      }
      pageTable := table;
      index := IndexAt(address, 3);
      IndexOfPage(address, 3);
    }

    /** Map's loop body for one page whose physical address is known to fit. */
    method MapPage(address: uint64, ghost page: nat, physical: int, plenty: bool) returns (status: Status)
      requires Valid() && fDirty && page < PAGE_LIMIT && address / PAGE_SIZE == page && Addressable(physical)
      modifies this, fEntries
      ensures Valid() && SameRoot() && fDirty
      ensures mapped == if status.Ok? then old(mapped)[page := physical] else old(mapped)
      ensures Grew(old(space.node.Keys), space.node.Keys, Path(page, 3))
      ensures status.Ok? ==> Path(page, 3) <= space.node.Keys
      ensures !status.Ok? ==> Short(plenty)
    {
      hide StandsFor, Keeps;
      var pageTable, index;
      status, pageTable, index := WalkTo(address, page, true, plenty);
      if !status.Ok? {
        return;
      }
      WholePath(space, mapped, page);
      SetLeafStandsFor(space, mapped, page, physical);
      Bounds(space, mapped);
      ghost var walked := space;
      SetLeafKeeps(space, mapped, page, PageEntry(physical));
      Store(pageTable, index, PageEntry(physical));
      KeepsMore(old(space), walked, space);
      mapped := mapped[page := physical];
    }

    /** The first pages of a run of `count` are in. */
    twostate predicate MappedRun(first: nat, physical: seq<int>, count: nat)
      reads this
    {
      RunIn(old(space), old(mapped), space, mapped, first, physical, count)
    }

    /** Map's loop. */
    method MapPages(address: uint64, size: uint64, lookups: seq<Lookup>, plenty: bool)
      returns (status: Status, ghost physical: seq<int>)
      requires Valid() && fDirty
      requires address % PAGE_SIZE == 0 && address + size <= ADDRESS_LIMIT
      requires size == |lookups| * PAGE_SIZE
      modifies this, fEntries
      ensures Valid() && SameRoot() && fDirty
      ensures IsPrefix(physical, lookups) && MappedRun(address / PAGE_SIZE, physical, |lookups|)
      ensures status.Ok? ==> |physical| == |lookups|
      ensures !status.Ok? ==> |physical| < |lookups| && (Refuses(lookups[|physical|], status) || Short(plenty))
    {
      hide Valid, StandsFor, Keeps, RunIn, Grew;
      ValidKeeps();
      var offset := 0;
      physical := [];
      ghost var first := address / PAGE_SIZE;
      NoRun(space, mapped, first);
      while offset < size
        invariant offset == |physical| * PAGE_SIZE <= size
        invariant Valid() && SameRoot() && fDirty
        invariant IsPrefix(physical, lookups) && MappedRun(first, physical, |physical|)
      {
        RunWithin(old(space), old(mapped), space, mapped, first, physical, |physical|, |lookups|);
        PageAt(0, |physical|);
        var entry := lookups[offset / PAGE_SIZE];
        if entry.Failed? {
          return System(entry.code), physical;
        }
        if !Addressable(entry.physical) {
          return BadAddress, physical;
        }
        status := MapNext(address, |physical|, offset, entry.physical, plenty, physical, old(space), old(mapped));
        if !status.Ok? {
          RunWithin(old(space), old(mapped), space, mapped, first, physical, |physical| + 1, |lookups|);
          return;
        }
        physical := physical + [entry.physical];
        offset := offset + PAGE_SIZE;
      }
      status := Ok;
    }

    /** One more page of a run that began with the tables as in `before`. */
    method MapNext(address: uint64, ghost done: nat, offset: uint64, page: int, plenty: bool,
                   ghost physical: seq<int>, ghost before: Space, ghost map_: map<nat, int>)
      returns (status: Status)
      requires Valid() && fDirty && address % PAGE_SIZE == 0 && address + offset < ADDRESS_LIMIT
      requires offset == done * PAGE_SIZE && done == |physical| && Addressable(page)
      requires Keeps(before, space) && RunIn(before, map_, space, mapped, address / PAGE_SIZE, physical, done)
      modifies this, fEntries
      ensures Valid() && SameRoot() && fDirty && Keeps(before, space) && (!status.Ok? ==> Short(plenty))
      ensures RunIn(before, map_, space, mapped, address / PAGE_SIZE,
                    if status.Ok? then physical + [page] else physical, done + 1)
    {
      hide Valid, StandsFor, Keeps, RunIn, Grew;
      PageAt(address, done);
      ghost var first := address / PAGE_SIZE;
      assert (address + offset) / PAGE_SIZE == first + done;
      status := MapPage(address + offset, first + done, page, plenty);
      KeepsMore(before, old(space), space);
      RunMore(before, map_, old(space), old(mapped), space, first, physical, page);
    }

    /** Point the pages from `address` on at the pages of an area. Pages that
        were mapped already are overwritten; a failure leaves those before it. */
    method Map(area: Area, address: uint64, plenty: bool) returns (status: Status, ghost physical: seq<int>)
      requires IsValid() ==> Valid()
      requires area.Area? ==> |area.lookups| == RoundUp(area.size) / PAGE_SIZE
      modifies this, fEntries
      ensures !IsValid() ==> status == NoInit && unchanged(this)
      ensures IsValid() ==> Valid() && SameRoot()
      ensures IsValid() ==>
        && IsPrefix(physical, LookupsOf(area))
        && MappedRun(address / PAGE_SIZE, physical, |LookupsOf(area)|)
      ensures status.Ok? ==> area.Area? && |physical| == |area.lookups|
      ensures !status.Ok? && physical != [] ==>
        && area.Area? && |physical| < |area.lookups|
        && (Refuses(area.lookups[|physical|], status) || Short(plenty))
      ensures IsValid() && area.Area? && InSpace(address, RoundUp(area.size)) && !status.Ok? ==>
        |physical| < |area.lookups| && (Refuses(area.lookups[|physical|], status) || Short(plenty))
      ensures IsValid() ==> old(fTables) <= fTables
      ensures IsValid() && (address % PAGE_SIZE != 0 || address >= ADDRESS_LIMIT) ==>
              status == BadValue && physical == []
    {
      hide Valid, StandsFor, Keeps, RunIn;
      physical := [];
      if !IsValid() {
        return NoInit, physical;
      }
      ValidKeeps();
      NothingIn(address / PAGE_SIZE, |LookupsOf(area)|);
      if address % PAGE_SIZE != 0 || address >= ADDRESS_LIMIT {
        return BadValue, physical;
      }
      if area.NoArea? {
        return System(area.code), physical;
      }
      var size := RoundUp(area.size);
      if size > ADDRESS_LIMIT - address {
        return BadValue, physical;
      }
      MarkDirty();
      status, physical := MapPages(address, size, area.lookups, plenty);
      TablesKept();
    }

    /** The same for memory this object does not own: consecutive physical pages. */
    method MapPhysical(address: uint64, start: uint64, size: uint64, plenty: bool)
      returns (status: Status, ghost done: nat)
      requires IsValid() ==> Valid()
      modifies this, fEntries
      ensures !IsValid() ==> status == NoInit && unchanged(this)
      ensures IsValid() ==> Valid() && SameRoot()
      ensures IsValid() ==> MappedRun(address / PAGE_SIZE, Consecutive(start, done), size / PAGE_SIZE)
      ensures status.Ok? ==> done == size / PAGE_SIZE
      ensures IsValid() && start % PAGE_SIZE == 0 && size % PAGE_SIZE == 0 && InSpace(address, size) && !status.Ok? ==>
        && done < size / PAGE_SIZE
        && (if Addressable(start + done * PAGE_SIZE) then Short(plenty) else status == BadAddress)
      ensures IsValid() ==> old(fTables) <= fTables
    {
      hide Valid, StandsFor, Keeps, RunIn;
      done := 0;
      if !IsValid() {
        return NoInit, done;
      }
      ValidKeeps();
      NothingIn(address / PAGE_SIZE, size / PAGE_SIZE);
      if address % PAGE_SIZE != 0 || start % PAGE_SIZE != 0
         || address >= ADDRESS_LIMIT || size > ADDRESS_LIMIT - address || size % PAGE_SIZE != 0 {
        return BadValue, done;
      }
      MarkDirty();
      status, done := MapFrames(address, start, size, plenty);
      TablesKept();
    }

    /** MapPhysical's loop. */
    method MapFrames(address: uint64, start: uint64, size: uint64, plenty: bool)
      returns (status: Status, ghost done: nat)
      requires Valid() && fDirty
      requires address % PAGE_SIZE == 0 && start % PAGE_SIZE == 0 && size % PAGE_SIZE == 0
      requires address + size <= ADDRESS_LIMIT
      modifies this, fEntries
      ensures Valid() && SameRoot() && fDirty
      ensures MappedRun(address / PAGE_SIZE, Consecutive(start, done), size / PAGE_SIZE)
      ensures status.Ok? ==> done == size / PAGE_SIZE
      ensures !status.Ok? ==>
        && done < size / PAGE_SIZE
        && (if Addressable(start + done * PAGE_SIZE) then Short(plenty) else status == BadAddress)
    {
      hide Valid, StandsFor, Keeps, RunIn, Grew;
      ValidKeeps();
      done := 0;
      ghost var first, count := address / PAGE_SIZE, size / PAGE_SIZE;
      NoRun(space, mapped, first);
      var offset := 0;
      while offset < size
        invariant offset == done * PAGE_SIZE <= size
        invariant Valid() && SameRoot() && fDirty
        invariant MappedRun(first, Consecutive(start, done), done)
      {
        RunWithin(old(space), old(mapped), space, mapped, first, Consecutive(start, done), done, count);
        if !Addressable(start + offset) {
          return BadAddress, done;
        }
        status := MapNext(address, done, offset, start + offset, plenty, Consecutive(start, done), old(space),
                          old(mapped));
        if !status.Ok? {
          RunWithin(old(space), old(mapped), space, mapped, first, Consecutive(start, done), done + 1, count);
          return;
        }
        done := done + 1;
        offset := offset + PAGE_SIZE;
      }
      status := Ok;
    }

    /** Unmap's loop body: point a page back at scratch if its table is private. */
    method UnmapPage(address: uint64, ghost page: nat)
      requires Valid() && fDirty && page < PAGE_LIMIT && address / PAGE_SIZE == page
      modifies this`space, this`mapped, fEntries
      ensures Valid()
      ensures mapped == old(mapped) - {page}
      ensures space.node == old(space.node) && Keeps(old(space), space)
    {
      hide StandsFor, Keeps;
      var status, pageTable, index := WalkTo(address, page, false, false);
      if !status.Ok? {
        Unreached(space, mapped, page);
        mapped := mapped - {page};
        return;
      }
      SetLeafKeeps(space, mapped, page, PageEntry(fScratchPage));
      SetLeafStandsFor(space, mapped, page, fScratchPage);
      Bounds(space, mapped);
      Store(pageTable, index, PageEntry(fScratchPage));
      mapped := mapped - {page};
    }

    /** Point the pages from `address` on back at scratch. No table is made and
        none is given up, and every page outside the range stays as it was. */
    method Unmap(address: uint64, size: uint64) returns (status: Status)
      requires IsValid() ==> Valid()
      modifies this, fEntries
      ensures !IsValid() ==> status == NoInit && unchanged(this)
      ensures IsValid() ==> Valid() && SameRoot() && fTables == old(fTables) && space.node == old(space.node)
      ensures IsValid() ==> status == (if InSpace(address, size) then Ok else BadValue)
      ensures IsValid() && status.Ok? ==> mapped == Without(old(mapped), address / PAGE_SIZE, RoundUp(size) / PAGE_SIZE)
      ensures !status.Ok? ==> mapped == old(mapped)
    {
      hide Valid, StandsFor, Keeps;
      if !IsValid() {
        return NoInit;
      }
      ValidKeeps();
      if address % PAGE_SIZE != 0 || address >= ADDRESS_LIMIT {
        return BadValue;
      }
      if size > ADDRESS_LIMIT - address {
        return BadValue;
      }
      MarkDirty();
      var rounded := RoundUp(size);
      var offset := 0;
      ghost var first, done: nat := address / PAGE_SIZE, 0;
      while offset < rounded
        invariant offset == done * PAGE_SIZE <= rounded
        invariant Valid() && SameRoot() && fDirty && fTables == old(fTables) && space.node == old(space.node)
        invariant mapped == Without(old(mapped), first, done)
      {
        PageAt(address, done);
        assert (address + offset) / PAGE_SIZE == first + done;
        ghost var before := space;
        UnmapPage(address + offset, first + done);
        KeepsMore(old(space), before, space);
        done := done + 1;
        offset := offset + PAGE_SIZE;
      }
      status := Ok;
    }

    lemma NothingIn(first: nat, count: nat)
      ensures RunIn(space, mapped, space, mapped, first, [], count)
    {
      NoRun(space, mapped, first);
      RunWithin(space, mapped, space, mapped, first, [], 0, count);
    }

    lemma ValidKeeps()
      requires Valid()
      ensures Keeps(space, space)
    {
      KeepsSelf(space, mapped);
    }

    /** fDirty = true, raised before any entry is written: a walk may create
        tables and the call still fail partway. */
    method MarkDirty()
      requires Valid()
      modifies this`fDirty
      ensures Valid() && fDirty
    {
      fDirty := true;
    }

    /** Write every table back, unless nothing was written since the last time. */
    method Flush()
      requires Tracks()
      modifies this`memory, this`fDirty
      ensures Tracks() && (old(Valid()) ==> Valid())
      ensures !fDirty && |memory| == |old(memory)|
      ensures memory == if old(fDirty) then space.tables else old(memory)
    {
      if !fDirty {
        return;
      }
      for i := 0 to |fTables|
        invariant |memory| == |fTables| && fDirty
        invariant forall j :: 0 <= j < i ==> memory[j] == space.tables[j]
      {
        memory := memory[i := space.tables[i]];
      }
      fDirty := false;
    }

    /** The memory that is the tables': a page for each, and the scratch page. */
    function Memory(): set<int>
      reads `fTables, `fScratchPage
    {
      PagesOf(fTables) + {fScratchPage}
    }

    /** The destructor: every table, then the scratch page. */
    method Destroy() returns (ghost freed: set<int>)
      ensures freed == Memory()
    {
      freed := {};
      for i := 0 to |fTables|
        invariant freed == PagesOf(fTables[..i])
      {
        assert fTables[..i + 1] == fTables[..i] + [fTables[i]];
        freed := freed + {fTables[i].physical};
      }
      assert fTables[..|fTables|] == fTables;
      freed := freed + {fScratchPage};
    }

    /** What the GPU finds once the tables have been flushed: at every mapped page
        the page the flat map gives it, for reads and writes, and one page at all
        others. */
    lemma GpuSees(page: nat)
      requires Valid() && !fDirty && page < PAGE_LIMIT
      requires page in mapped || (fScratchPage >= 0 && fScratchPage % PAGE_SIZE == 0)
      ensures Reads(page, if page in mapped then mapped[page] else EntryAddress(PageEntry(fScratchPage)))
    {
      hide Walk;
      WalkIsMapped(space, mapped, page, false);
      WalkIsMapped(space, mapped, page, true);
    }

    /** The page the GPU gets to at an address, to read it and to write it: it
        walks what is in memory. */
    ghost predicate Reads(page: nat, physical: int)
      reads this
    {
      && |memory| == |space.physical| && (forall j :: 0 <= j < |memory| ==> |memory[j]| == ENTRIES)
      && Walk(memory, space.physical, fRoot, page, 0, false) == Some(physical)
      && Walk(memory, space.physical, fRoot, page, 0, true) == Some(physical)
    }

    /** The root has a physical address a context image can hold. */
    lemma RootFits()
      requires Valid()
      ensures 0 < fRoot < 0x80_0000_0000
    {
      Bounds(space, mapped);
    }

    /** A cache line of table j reaches memory on its own, at any time. */
    ghost method Evict(j: nat, i: nat)
      requires Valid() && j < |fTables| && i < ENTRIES && |memory[j]| == ENTRIES
      modifies this`memory
      ensures Valid()
    {
      if !fDirty {
        assert memory[j][i := fEntries[j, i]] == memory[j];
      }
      memory := memory[j := memory[j][i := fEntries[j, i]]];
    }
  }

  lemma {:induction false} FirstMatch(physical: seq<int>, address: int, i: nat)
    requires i < |physical| && physical[i] == address && address !in physical[..i]
    ensures Find(physical, address) == i
  {
    if i > 0 {
      assert physical[0] in physical[..i];
      assert physical[1..][..i - 1] == physical[..i][1..];
      FirstMatch(physical[1..], address, i - 1);
    }
  }
}
