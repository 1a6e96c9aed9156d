/** kernel/GlobalGTT.cpp: the device's flat page table behind its BAR and the
    bitmap of the part of it this driver hands out. `content` is what the two
    stand for: the physical page each managed page is bound to, or None. */
module Gtt {
  import opened Machine
  import opened AddressSpace

  const MANAGED_SIZE := 0x1000_0000
  const CHUNK_PAGES := 32

  type Content = seq<Option<int>>

  /** physical | present. */
  function GttEntry(physical: int): int { physical + 1 }

  lemma EntryPage(page: nat)
    ensures (page * 4096 + 1) / 4096 == page
  {}

  lemma EntryPresent(page: nat)
    ensures (page * 4096 + 1) % 2 == 1
  {
    Odd(page * 2048);
  }

  lemma Odd(half: nat)
    ensures (2 * half + 1) % 2 == 1
  {}

  lemma EntryMasked(page: nat)
    requires page < 0x800_0000
    ensures page % 0x800_0000 == page
  {}

  /** An entry names the page, says that it is there, and nothing else. */
  lemma EntryReads(physical: int)
    requires Addressable(physical)
    ensures GttEntry(physical) % 2 == 1 && EntryAddress(GttEntry(physical)) == physical
    ensures GttEntry(physical) % 4096 == 1
  {
    var page := physical / PAGE_SIZE;
    EntryPage(page);
    EntryPresent(page);
    EntryMasked(page);
    Parts(page, PAGE_SIZE, 1);
  }

  // ------------------------------------------------------------ the bitmap

  /** Eight pages' bits. */
  datatype Byte = Byte(bits: bv8)

  function Bit(k: nat): bv8
    requires k < 8
  {
    if k == 0 then 1 else if k == 1 then 2 else if k == 2 then 4 else if k == 3 then 8
    else if k == 4 then 16 else if k == 5 then 32 else if k == 6 then 64 else 128
  }

  predicate BitSet(byte: bv8, k: nat)
    requires k < 8
  {
    byte & Bit(k) != 0
  }

  /** byte |= 1 << k, or byte &= ~(1 << k). */
  function WithBit(byte: bv8, k: nat, set_: bool): bv8
    requires k < 8
  {
    if set_ then byte | Bit(k) else byte & !Bit(k)
  }

  /** Setting or clearing one bit of a byte moves that bit and no other. */
  lemma BitMoves(byte: bv8, k: nat, j: nat, set_: bool)
    requires k < 8 && j < 8
    ensures BitSet(WithBit(byte, k, set_), j) <==> if j == k then set_ else BitSet(byte, j)
  {}

  lemma NoBits(k: nat)
    requires k < 8
    ensures !BitSet(0, k)
  {}

  /** The same for two pages whose bits share a byte. */
  lemma PageBitMoves(byte: bv8, page: nat, p: nat, used: bool)
    requires p / 8 == page / 8
    ensures BitSet(WithBit(byte, page % 8, used), p % 8) <==> if p == page then used else BitSet(byte, p % 8)
  {
    hide BitSet, WithBit;
    BitMoves(byte, page % 8, p % 8, used);
  }

  // ---------------------------------------------------- what the table holds

  ghost predicate Free(c: Content, first: nat, count: nat) {
    first + count <= |c| && forall i {:trigger c[i]} :: first <= i < first + count ==> c[i].None?
  }

  /** The run _Allocate has to answer with: free, and no lower one is. */
  ghost predicate LowestFree(c: Content, first: nat, count: nat) {
    Free(c, first, count) && forall f :: 0 <= f < first ==> !Free(c, f, count)
  }

  /** A run of managed pages holds these physical pages, in order. */
  ghost predicate Bound(c: Content, first: nat, pages: seq<int>) {
    first + |pages| <= |c| && forall i :: 0 <= i < |pages| ==> c[first + i] == Some(pages[i])
  }

  function Put(c: Content, first: nat, pages: seq<int>): (r: Content)
    requires first + |pages| <= |c|
    ensures |r| == |c|
    ensures forall i :: 0 <= i < |c| ==>
              r[i] == if first <= i < first + |pages| then Some(pages[i - first]) else c[i]
  {
    seq(|c|, i requires 0 <= i < |c| => if first <= i < first + |pages| then Some(pages[i - first]) else c[i])
  }

  /** A run taken, whatever pages it will hold. */
  function Claimed(c: Content, first: nat, count: nat): (r: Content)
    requires first + count <= |c|
    ensures |r| == |c|
    ensures forall i :: 0 <= i < |c| ==> (r[i].Some? <==> c[i].Some? || first <= i < first + count)
  {
    Put(c, first, seq(count, _ => 0))
  }

  function Take(c: Content, first: nat, count: nat): (r: Content)
    requires first + count <= |c|
    ensures |r| == |c|
    ensures forall i :: 0 <= i < |c| ==> r[i] == if first <= i < first + count then None else c[i]
  {
    seq(|c|, i requires 0 <= i < |c| => if first <= i < first + count then None else c[i])
  }

  /** A new run cannot touch one that is bound already: the two are disjoint and
      the older one keeps its pages. */
  lemma PutKeeps(c: Content, first: nat, pages: seq<int>, other: nat, held: seq<int>)
    requires Free(c, first, |pages|) && Bound(c, other, held) && pages != [] && held != []
    ensures first + |pages| <= other || other + |held| <= first
    ensures Bound(Put(c, first, pages), first, pages)
    ensures Bound(Put(c, first, pages), other, held)
  {
    forall j | other <= j < other + |held|
      ensures c[j].Some?
    {
      var i := j - other;
      assert c[other + i] == Some(held[i]);
    }
    assert c[first].None? && c[other].Some?;
  }

  /** Taking a run back leaves every disjoint one bound and the run free. */
  lemma TakeKeeps(c: Content, first: nat, count: nat, other: nat, held: seq<int>)
    requires first + count <= |c| && Bound(c, other, held)
    requires first + count <= other || other + |held| <= first
    ensures Bound(Take(c, first, count), other, held)
    ensures Free(Take(c, first, count), first, count)
  {}

  /** Binding and unbinding again leaves everything as it was. */
  lemma PutTake(c: Content, first: nat, pages: seq<int>)
    requires Free(c, first, |pages|)
    ensures Take(Put(c, first, pages), first, |pages|) == c
  {}

  // ------------------------------------------------- the pages of an area

  /** One piece of physical memory in a get_memory_map answer. */
  datatype Piece = Piece(address: nat, size: nat)

  /** The answer for one chunk of an area. */
  datatype MemoryMap = Pieces(pieces: seq<Piece>) | MapFailed(code: int)

  /** An area to be bound: its size and the answers to the lookups of its chunks. */
  datatype GttArea = GttArea(size: uint64, maps: seq<MemoryMap>) | NoGttArea(code: int)

  /** The pages of a piece, from byte `offset` on. */
  function PiecePages(p: Piece, offset: nat): seq<int>
    decreases p.size - offset
  {
    if offset >= p.size then [] else [p.address + offset] + PiecePages(p, offset + PAGE_SIZE)
  }

  /** The pages of all pieces, one after the other. */
  function Flatten(pieces: seq<Piece>): seq<int> {
    if pieces == [] then [] else PiecePages(pieces[0], 0) + Flatten(pieces[1..])
  }

  /** What one lookup contributes: the driver reads at most 32 pieces of it. */
  function ChunkPages(pieces: seq<Piece>): seq<int> {
    Flatten(if |pieces| > CHUNK_PAGES then pieces[..CHUNK_PAGES] else pieces)
  }

  function Min(a: nat, b: nat): nat { if a <= b then a else b }

  /** The lookups answer for `pages`: chunk k of 32 pages is what the k-th lookup
      starts with. */
  ghost predicate Answers(maps: seq<MemoryMap>, pages: seq<int>) {
    forall k :: 0 <= k && k * CHUNK_PAGES < |pages| ==> AnswersChunk(maps, pages, k)
  }

  ghost predicate AnswersChunk(maps: seq<MemoryMap>, pages: seq<int>, k: nat)
    requires k * CHUNK_PAGES < |pages|
  {
    && k < |maps| && maps[k].Pieces?
    && pages[k * CHUNK_PAGES..Min((k + 1) * CHUNK_PAGES, |pages|)] <= ChunkPages(maps[k].pieces)
  }

  /** The lookups do not answer for so many pages that entries can hold. */
  ghost predicate Unusable(maps: seq<MemoryMap>, count: nat) {
    forall p :: !(|p| == count && Answers(maps, p) && AllAddressable(p))
  }

  ghost predicate AllAddressable(pages: seq<int>) {
    forall i :: 0 <= i < |pages| ==> Addressable(pages[i])
  }

  /** One more answered chunk. */
  lemma AnswersMore(maps: seq<MemoryMap>, pages: seq<int>, more: seq<int>, k: nat, count: nat)
    requires Answers(maps, pages) && |pages| == k * CHUNK_PAGES && k < |maps| && maps[k].Pieces?
    requires 0 < |more| <= CHUNK_PAGES && more <= ChunkPages(maps[k].pieces)
    ensures Answers(maps, pages + more)
  {
    var all := pages + more;
    forall j | 0 <= j && j * CHUNK_PAGES < |all|
      ensures AnswersChunk(maps, all, j)
    {
      if j < k {
        assert AnswersChunk(maps, pages, j);
        assert all[j * CHUNK_PAGES..(j + 1) * CHUNK_PAGES] == pages[j * CHUNK_PAGES..(j + 1) * CHUNK_PAGES];
      } else {
        assert j == k && all[k * CHUNK_PAGES..] == more;
      }
    }
  }

  /** Any page of an answered area is the page its chunk's lookup gives there. */
  lemma AnsweredPage(maps: seq<MemoryMap>, p: seq<int>, k: nat, i: nat)
    requires Answers(maps, p) && i < CHUNK_PAGES && k * CHUNK_PAGES + i < |p|
    ensures k < |maps| && maps[k].Pieces? && i < |ChunkPages(maps[k].pieces)|
    ensures ChunkPages(maps[k].pieces)[i] == p[k * CHUNK_PAGES + i]
  {
    assert AnswersChunk(maps, p, k);
    var part := p[k * CHUNK_PAGES..Min((k + 1) * CHUNK_PAGES, |p|)];
    assert part[i] == p[k * CHUNK_PAGES + i];
  }

  /** A chunk whose lookup failed, ran out of pieces or met a page no entry can
      hold leaves nothing that would answer for the whole area. */
  lemma NoAnswer(maps: seq<MemoryMap>, count: nat, k: nat, good: nat)
    requires k < |maps| && k * CHUNK_PAGES + good < count && good < CHUNK_PAGES
    requires maps[k].MapFailed?
             || |ChunkPages(maps[k].pieces)| == good
             || (good < |ChunkPages(maps[k].pieces)| && !Addressable(ChunkPages(maps[k].pieces)[good]))
    ensures forall p :: !(|p| == count && Answers(maps, p) && AllAddressable(p))
  {
    forall p: seq<int>
      ensures !(|p| == count && Answers(maps, p) && AllAddressable(p))
    {
      if |p| == count && Answers(maps, p) {
        AnsweredPage(maps, p, k, good);
      }
    }
  }

  class GlobalGTT {
    const fEntries: array<int>   // the page table behind the BAR
    var fReady: bool             // fEntries != 0
    var fFirstPage: nat
    var fPageCount: nat
    var fBase: nat
    var fSize: nat
    var fScratchPage: int
    var fUsed: array<Byte>

    ghost var content: Content

    ghost predicate Consistent()
      reads this, fEntries, fUsed
    {
      fReady ==> Valid()
    }

    ghost predicate Valid()
      reads this, fEntries, fUsed
    {
      && Sized() && TableIs(content) && BitmapIs(content)
      && forall page :: 0 <= page < |content| && content[page].Some? ==> Addressable(content[page].value)
    }

    ghost predicate Sized()
      reads this
    {
      && fFirstPage + fPageCount <= fEntries.Length && fPageCount > 0
      && fBase == fFirstPage * PAGE_SIZE && fSize == fPageCount * PAGE_SIZE
      && |content| == fPageCount && fUsed.Length == (fPageCount + 7) / 8
    }

    /** The bit of every managed page says whether it is bound. */
    ghost predicate BitmapIs(c: Content)
      reads `fPageCount, `fUsed, fUsed
    {
      && fUsed.Length == (fPageCount + 7) / 8 && |c| == fPageCount
      && forall page :: 0 <= page < fPageCount ==> (Used(page) <==> c[page].Some?)
    }

    /** The entry of every managed page is its own, or the scratch page's. */
    ghost predicate TableIs(c: Content)
      reads `fPageCount, `fFirstPage, `fScratchPage, fEntries
    {
      && |c| == fPageCount && fFirstPage + fPageCount <= fEntries.Length
      && forall i {:trigger fEntries[i]} :: fFirstPage <= i < fFirstPage + fPageCount ==>
           fEntries[i] == EntryFor(c[i - fFirstPage])
    }

    ghost function EntryFor(bound: Option<int>): int
      reads `fScratchPage
    {
      GttEntry(if bound.Some? then bound.value else fScratchPage)
    }

    predicate Used(page: nat)
      requires page / 8 < fUsed.Length
      reads `fUsed, fUsed
    {
      BitSet(fUsed[page / 8].bits, page % 8)
    }

    method SetUsed(page: nat, used: bool)
      requires page < fPageCount && fUsed.Length == (fPageCount + 7) / 8
      modifies fUsed
      ensures forall p :: 0 <= p < fPageCount ==> (Used(p) <==> if p == page then used else old(Used(p)))
    {
      hide BitSet, WithBit;
      ghost var byte := fUsed[page / 8].bits;
      fUsed[page / 8] := Byte(WithBit(fUsed[page / 8].bits, page % 8, used));
      forall p | 0 <= p < fPageCount
        ensures Used(p) <==> if p == page then used else old(Used(p))
      {
        if p / 8 == page / 8 {
          PageBitMoves(byte, page, p, used);
        }
      }
    }

    /** The lowest run of `count` free pages, marked used; no memory exactly when
        there is no such run. */
    method Allocate(count: nat) returns (status: Status, first: nat)
      requires count > 0 && BitmapIs(content)
      modifies fUsed
      ensures status == Ok || status == NoMemory
      ensures status.Ok? ==> LowestFree(content, first, count) && BitmapIs(Claimed(content, first, count))
      ensures status == NoMemory ==> BitmapIs(content) && forall f: nat :: !Free(content, f, count)
    {
      hide BitSet;
      var run := 0;
      first := 0;
      for page := 0 to fPageCount
        invariant run <= page && run < count
        invariant forall i :: page - run <= i < page ==> content[i].None?
        invariant page - run > 0 ==> content[page - run - 1].Some?
        invariant forall f: nat :: f + count <= page ==> !Free(content, f, count)
        invariant BitmapIs(content)
      {
        ghost var before := run;
        if Used(page) {
          run := 0;
          forall f: nat | f + count <= page + 1
            ensures !Free(content, f, count)
          {
            assert f + count == page + 1 ==> !content[page].None?;
          }
        } else {
          run := run + 1;
          if run >= count {
            first := page + 1 - count;
            MarkUsed(first, count);
            return Ok, first;
          }
          forall f: nat | f + count <= page + 1
            ensures !Free(content, f, count)
          {
            assert f + count == page + 1 ==> f <= page - before - 1 < f + count;
          }
        }
      }
      return NoMemory, first;
    }

    method MarkUsed(first: nat, count: nat)
      requires BitmapIs(content) && first + count <= fPageCount
      modifies fUsed
      ensures BitmapIs(Claimed(content, first, count))
    {
      hide BitSet;
      for i := 0 to count
        invariant forall p :: 0 <= p < fPageCount ==> (Used(p) <==> content[p].Some? || first <= p < first + i)
      {
        SetUsed(first + i, true);
      }
    }

    method Release(first: nat, count: nat, ghost c: Content)
      requires BitmapIs(c) && first + count <= fPageCount
      modifies fUsed
      ensures BitmapIs(Take(c, first, count))
    {
      hide BitSet;
      for i := 0 to count
        invariant forall p :: 0 <= p < fPageCount ==> (Used(p) <==> c[p].Some? && !(first <= p < first + i))
      {
        SetUsed(first + i, false);
      }
    }

    /** Point a run back at scratch, whatever the entries in it were. */
    method Scratch(first: nat, count: nat, ghost c: Content)
      requires first + count <= |c| == fPageCount && fFirstPage + fPageCount <= fEntries.Length
      requires forall i {:trigger fEntries[i]} :: fFirstPage <= i < fFirstPage + first ==>
                 fEntries[i] == EntryFor(c[i - fFirstPage])
      requires forall i {:trigger fEntries[i]} :: fFirstPage + first + count <= i < fFirstPage + fPageCount ==>
                 fEntries[i] == EntryFor(c[i - fFirstPage])
      modifies fEntries
      ensures TableIs(Take(c, first, count))
      ensures forall i :: 0 <= i < fEntries.Length && !(fFirstPage + first <= i < fFirstPage + first + count) ==>
                fEntries[i] == old(fEntries[i])
    {
      Fill(first, count, GttEntry(fScratchPage));
    }

    /** _WriteEntry for `count` managed pages in a row. */
    method Fill(first: nat, count: nat, entry: int)
      requires fFirstPage + first + count <= fEntries.Length
      modifies fEntries
      ensures forall i :: 0 <= i < fEntries.Length ==>
                fEntries[i] == if fFirstPage + first <= i < fFirstPage + first + count then entry else old(fEntries[i])
    {
      for k := 0 to count
        invariant forall i :: 0 <= i < fEntries.Length ==>
                    fEntries[i] == if fFirstPage + first <= i < fFirstPage + first + k then entry else old(fEntries[i])
      {
        fEntries[fFirstPage + first + k] := entry;
      }
    }

    /** The innermost loop of _MapArea: the pages of one piece. `all` are the
        pages of the whole chunk, of which `start` are written already. */
    method MapPiece(at: nat, piece: Piece, start: nat, chunk: nat, ghost all: seq<int>, ghost tail: seq<int>)
      returns (status: Status, page: nat)
      requires at + chunk <= fEntries.Length && start <= chunk && start <= |all|
      requires all[start..] == PiecePages(piece, 0) + tail
      requires AllAddressable(all[..start])
      modifies fEntries
      ensures start <= page <= chunk && page <= |all| && AllAddressable(all[..page])
      ensures forall i :: 0 <= i < fEntries.Length ==>
                fEntries[i] == if at + start <= i < at + page then GttEntry(all[i - at]) else old(fEntries[i])
      ensures status.Ok? ==> page == chunk || all[page..] == tail
      ensures !status.Ok? ==> status == BadAddress && page < chunk && page < |all| && !Addressable(all[page])
    {
      page := start;
      var offset := 0;
      while offset < piece.size && page < chunk
        invariant start <= page <= chunk && page <= |all| && AllAddressable(all[..page])
        invariant all[page..] == PiecePages(piece, offset) + tail
        invariant forall i :: 0 <= i < fEntries.Length ==>
                    fEntries[i] == if at + start <= i < at + page then GttEntry(all[i - at]) else old(fEntries[i])
        decreases piece.size - offset
      {
        var physical := piece.address + offset;
        assert all[page] == all[page..][0] == physical;
        if !Addressable(physical) {
          return BadAddress, page;
        }
        fEntries[at + page] := GttEntry(physical);
        assert all[page + 1..] == all[page..][1..] == PiecePages(piece, offset + PAGE_SIZE) + tail;
        offset, page := offset + PAGE_SIZE, page + 1;
      }
      status := Ok;
    }

    /** One chunk: its pieces one by one until it is full. */
    method MapChunk(at: nat, pieces: seq<Piece>, chunk: nat) returns (status: Status, page: nat)
      requires at + chunk <= fEntries.Length && chunk <= CHUNK_PAGES
      modifies fEntries
      ensures page <= chunk && page <= |ChunkPages(pieces)| && AllAddressable(ChunkPages(pieces)[..page])
      ensures forall i :: 0 <= i < fEntries.Length ==>
                fEntries[i] == if at <= i < at + page then GttEntry(ChunkPages(pieces)[i - at]) else old(fEntries[i])
      ensures status.Ok? ==> page == chunk
      ensures status == Ok || status == BadAddress || status == BadValue
      ensures !status.Ok? ==> page < chunk && (page == |ChunkPages(pieces)| || !Addressable(ChunkPages(pieces)[page]))
    {
      ghost var all := ChunkPages(pieces);
      var limit := if |pieces| > CHUNK_PAGES then CHUNK_PAGES else |pieces|;
      ghost var table := pieces[..limit];
      assert table[0..] == table == (if |pieces| > CHUNK_PAGES then pieces[..CHUNK_PAGES] else pieces);
      assert all[0..] == all;
      page := 0;
      var i := 0;
      while i < limit && page < chunk
        invariant i <= limit && page <= chunk && page <= |all| && AllAddressable(all[..page])
        invariant page == chunk || all[page..] == Flatten(table[i..])
        invariant forall k :: 0 <= k < fEntries.Length ==>
                    fEntries[k] == if at <= k < at + page then GttEntry(all[k - at]) else old(fEntries[k])
        decreases limit - i
      {
        assert table[i..][0] == pieces[i] && table[i..][1..] == table[i + 1..];
        status, page := MapPiece(at, pieces[i], page, chunk, all, Flatten(table[i + 1..]));
        if !status.Ok? {
          return;
        }
        i := i + 1;
      }
      if page != chunk {
        assert all[page..] == [];
        return BadValue, page;
      }
      return Ok, page;
    }

    /** Write the entries of a run: the answers to the area's lookups, 32 pages
        at a time. It succeeds exactly when the lookups answer for every page
        with an address an entry can hold. */
    method MapArea(first: nat, maps: seq<MemoryMap>, count: nat) returns (status: Status, ghost pages: seq<int>)
      requires fFirstPage + first + count <= fEntries.Length && count <= |maps| * CHUNK_PAGES
      modifies fEntries
      ensures forall i :: 0 <= i < fEntries.Length && !(fFirstPage + first <= i < fFirstPage + first + count) ==>
                fEntries[i] == old(fEntries[i])
      ensures status.Ok? ==>
        && |pages| == count && Answers(maps, pages) && AllAddressable(pages)
        && forall i :: fFirstPage + first <= i < fFirstPage + first + count ==>
             fEntries[i] == GttEntry(pages[i - fFirstPage - first])
      ensures !status.Ok? ==> Unusable(maps, count)
      ensures status != NoMemory
    {
      var done, k := 0, 0;
      pages := [];
      var at := fFirstPage + first;
      while done < count
        invariant done == |pages| == Min(k * CHUNK_PAGES, count)
        invariant Answers(maps, pages) && AllAddressable(pages)
        invariant forall i :: 0 <= i < fEntries.Length ==>
                    fEntries[i] == if at <= i < at + done then GttEntry(pages[i - at]) else old(fEntries[i])
        decreases count - done
      {
        var chunk := count - done;
        if chunk > CHUNK_PAGES {
          chunk := CHUNK_PAGES;
        }
        if maps[k].MapFailed? {
          NoAnswer(maps, count, k, 0);
          return System(maps[k].code), pages;
        }
        var page;
        status, page := MapChunk(at + done, maps[k].pieces, chunk);
        if !status.Ok? {
          NoAnswer(maps, count, k, page);
          return;
        }
        AnswersMore(maps, pages, ChunkPages(maps[k].pieces)[..chunk], k, count);
        pages := pages + ChunkPages(maps[k].pieces)[..chunk];
        done, k := done + chunk, k + 1;
      }
      status := Ok;
    }

    /** An object Init has not set up yet; `table` is the page table's window. */
    constructor (table: array<int>)
      ensures fEntries == table && !fReady && fresh(fUsed)
    {
      fEntries := table;
      fReady, fFirstPage, fPageCount, fBase, fSize, fScratchPage := false, 0, 0, 0, 0, 0;
      fUsed := new Byte[0];
      content := [];
    }

    /** Take over the part of the table above `reserved`: every managed page is
        free and points at scratch, and no other entry is written. */
    method Init(barSize: uint64, generation: nat, tableSize: uint64, reserved: uint64, scratch: Lookup, room: bool)
      returns (status: Status)
      requires fEntries.Length == tableSize / 8
      modifies this, fEntries
      ensures status.Ok? ==>
        && !old(fReady) && fReady && Valid() && fresh(fUsed)
        && generation >= 8 && 0 < tableSize <= barSize / 2
        && scratch.Found? && fScratchPage == scratch.physical && Addressable(fScratchPage)
        && fBase == RoundUp(reserved) && fSize == Min(256 * 1024 * 1024, tableSize / 8 * PAGE_SIZE - fBase)
        && forall page :: 0 <= page < fPageCount ==> content[page].None?
      ensures status.Ok? ==> forall i :: 0 <= i < fEntries.Length ==>
                fEntries[i] == if fFirstPage <= i < fFirstPage + fPageCount then GttEntry(fScratchPage)
                  else old(fEntries[i])
      ensures !status.Ok? ==> unchanged(this) && unchanged(fEntries)
      // `room` is whether there is memory for the bitmap.
      ensures status.Ok? <==>
        && !old(fReady) && generation >= 8 && 0 < tableSize <= barSize / 2
        && RoundUp(reserved) < tableSize / 8 * PAGE_SIZE && scratch.Found? && Addressable(scratch.physical) && room
    {
      hide BitSet, RoundUp, BitmapIs, TableIs, Addressable;
      RoundedUp(reserved);
      if fReady {
        return Busy;
      }
      if generation < 8 {
        return NotSupported;
      }
      if tableSize == 0 || tableSize > barSize / 2 {
        return BadValue;
      }
      var entryCount := tableSize / 8;
      var addressSpace := entryCount * PAGE_SIZE;
      var base := RoundUp(reserved);
      if base >= addressSpace {
        return NoMemory;
      }
      var size := addressSpace - base;
      if size > MANAGED_SIZE {
        size := MANAGED_SIZE;
      }
      var pages := size / PAGE_SIZE;
      if scratch.Failed? {
        return System(scratch.code);
      }
      if !Addressable(scratch.physical) {
        return BadAddress;
      }
      if !room {
        return NoMemory;
      }
      var used := new Byte[(pages + 7) / 8](_ => Byte(0));
      fReady := true;
      fFirstPage, fPageCount, fBase, fSize := base / PAGE_SIZE, pages, base, size;
      fScratchPage, fUsed := scratch.physical, used;
      content := seq(pages, _ => None);
      NothingUsed();
      Fill(0, fPageCount, GttEntry(fScratchPage));
      AllScratch();
      return Ok;
    }

    /** A cleared bitmap has no page in use. */
    lemma NothingUsed()
      requires |content| == fPageCount && fUsed.Length == (fPageCount + 7) / 8
      requires forall i :: 0 <= i < fUsed.Length ==> fUsed[i] == Byte(0)
      requires forall page :: 0 <= page < |content| ==> content[page].None?
      ensures BitmapIs(content)
    {
      hide BitSet;
      forall page | 0 <= page < fPageCount
        ensures !Used(page)
      {
        NoBits(page % 8);
      }
    }

    /** A table full of scratch stands for nothing bound. */
    lemma AllScratch()
      requires |content| == fPageCount && fFirstPage + fPageCount <= fEntries.Length
      requires forall i :: fFirstPage <= i < fFirstPage + fPageCount ==> fEntries[i] == GttEntry(fScratchPage)
      requires forall page :: 0 <= page < |content| ==> content[page].None?
      ensures TableIs(content)
    {}

    /** The physical page a global address resolves to. */
    method Lookup(address: uint64) returns (status: Status, physical: int)
      requires Consistent()
      ensures status.Ok? ==> address / PAGE_SIZE < fEntries.Length
      ensures fReady && address % PAGE_SIZE == 0 && fBase <= address < fBase + fSize ==>
        var page := (address - fBase) / PAGE_SIZE;
        content[page].Some? ==> status.Ok? && physical == content[page].value
    {
      physical := 0;
      if !fReady {
        return NotSupported, physical;
      }
      if address % PAGE_SIZE != 0 {
        return BadValue, physical;
      }
      var page := address / PAGE_SIZE;
      if page >= fEntries.Length {
        return BadValue, physical;
      }
      var entry := fEntries[page];
      if fBase <= address < fBase + fSize && content[page - fFirstPage].Some? {
        EntryReads(content[page - fFirstPage].value);
      }
      if entry % 2 == 0 {
        return EntryNotFound, physical;
      }
      return Ok, EntryAddress(entry);
    }

    /** Pin an area: the lowest free run large enough gets its pages. A failure
        leaves both the table and the bitmap as they were. */
    method Bind(area: GttArea) returns (status: Status, address: nat, ghost pages: seq<int>)
      requires Consistent()
      requires area.GttArea? ==> RoundUp(area.size) <= |area.maps| * CHUNK_PAGES * PAGE_SIZE
      modifies this`content, fEntries, fUsed
      ensures Consistent()
      ensures !status.Ok? ==> content == old(content) && fEntries[..] == old(fEntries[..])
      ensures status.Ok? ==>
        && fReady && area.GttArea? && pages != [] && |pages| * PAGE_SIZE == RoundUp(area.size)
        && Answers(area.maps, pages) && AllAddressable(pages)
        && address >= fBase && (address - fBase) % PAGE_SIZE == 0
        && var first := (address - fBase) / PAGE_SIZE;
           LowestFree(old(content), first, |pages|) && content == Put(old(content), first, pages)
      ensures status == NoMemory ==> area.GttArea? && forall f: nat :: !Free(content, f, RoundUp(area.size) / PAGE_SIZE)
      // It fails only when there is no room or the area's pages cannot be had.
      ensures fReady && area.GttArea? && RoundUp(area.size) > 0 && !status.Ok? ==>
        || (forall f: nat :: !Free(content, f, RoundUp(area.size) / PAGE_SIZE))
        || Unusable(area.maps, RoundUp(area.size) / PAGE_SIZE)
      ensures forall i :: 0 <= i < fEntries.Length && !(fFirstPage <= i < fFirstPage + fPageCount) ==>
                fEntries[i] == old(fEntries[i])
    {
      hide BitSet, BitmapIs, TableIs, Claimed, RoundUp, Unusable;
      address, pages := 0, [];
      if !fReady {
        return NotSupported, address, pages;
      }
      if area.NoGttArea? {
        return System(area.code), address, pages;
      }
      RoundedUp(area.size);
      var size := RoundUp(area.size);
      if size == 0 || size > fSize {
        TooLong(size);
        return BadValue, address, pages;
      }
      var count := size / PAGE_SIZE;
      assert size == count * PAGE_SIZE;
      var first;
      status, first := Allocate(count);
      if !status.Ok? {
        return;
      }
      status, pages := MapRun(first, area.maps, count);
      address := fBase + first * PAGE_SIZE;
      PageAt(0, first);
    }

    lemma TooLong(size: nat)
      requires Sized() && |content| == fPageCount && size % PAGE_SIZE == 0
      ensures size > fSize ==> forall f: nat :: !Free(content, f, size / PAGE_SIZE)
    {}

    /** Bind once the run is claimed: fill it, or put everything back. */
    method MapRun(first: nat, maps: seq<MemoryMap>, count: nat) returns (status: Status, ghost pages: seq<int>)
      requires Sized() && TableIs(content) && count <= |maps| * CHUNK_PAGES && Free(content, first, count)
      requires BitmapIs(Claimed(content, first, count))
      modifies this`content, fEntries, fUsed
      ensures TableIs(content) && BitmapIs(content)
      ensures status != NoMemory
      ensures !status.Ok? ==> content == old(content) && fEntries[..] == old(fEntries[..]) && Unusable(maps, count)
      ensures status.Ok? ==> |pages| == count && Answers(maps, pages) && AllAddressable(pages)
      ensures status.Ok? ==> content == Put(old(content), first, pages)
      ensures forall i :: 0 <= i < fEntries.Length && !(fFirstPage <= i < fFirstPage + fPageCount) ==>
                fEntries[i] == old(fEntries[i])
    {
      hide BitSet, BitmapIs, TableIs, Claimed, Addressable, Answers, AllAddressable, Unusable;
      TableEntries(content);
      status, pages := MapArea(first, maps, count);
      if !status.Ok? {
        Undo(first, count, old(fEntries[..]));
        return;
      }
      TableAfter(content, first, pages, old(fEntries[..]));
      SameBits(Claimed(content, first, count), Put(content, first, pages));
      content := Put(content, first, pages);
    }

    lemma TableReads(c: Content)
      requires TableIs(c)
      ensures |c| == fPageCount && fFirstPage + fPageCount <= fEntries.Length
      ensures forall i {:trigger fEntries[i]} :: fFirstPage <= i < fFirstPage + fPageCount ==>
                fEntries[i] == EntryFor(c[i - fFirstPage])
    {}

    lemma TableEntries(c: Content)
      requires TableIs(c)
      ensures |c| == fPageCount && fFirstPage + fPageCount <= fEntries.Length
      ensures forall i {:trigger fEntries[..][i]} :: fFirstPage <= i < fFirstPage + fPageCount ==>
                fEntries[..][i] == EntryFor(c[i - fFirstPage])
    {}

    /** The table with one more run written stands for the content with it put. */
    lemma TableAfter(c: Content, first: nat, pages: seq<int>, before: seq<int>)
      requires |c| == fPageCount && fFirstPage + fPageCount <= fEntries.Length == |before| && first + |pages| <= |c|
      requires forall i {:trigger before[i]} :: fFirstPage <= i < fFirstPage + fPageCount ==>
                 before[i] == EntryFor(c[i - fFirstPage])
      requires forall i :: 0 <= i < fEntries.Length && !(fFirstPage + first <= i < fFirstPage + first + |pages|) ==>
                 fEntries[i] == before[i]
      requires forall i :: fFirstPage + first <= i < fFirstPage + first + |pages| ==>
                 fEntries[i] == GttEntry(pages[i - fFirstPage - first])
      ensures TableIs(Put(c, first, pages))
    {}

    /** Bind's way out when an area's pages turn out not to be usable. */
    method Undo(first: nat, count: nat, ghost before: seq<int>)
      requires Sized() && Free(content, first, count) && |content| == fPageCount
      requires BitmapIs(Claimed(content, first, count))
      requires |before| == fEntries.Length
      requires forall i :: 0 <= i < fEntries.Length && !(fFirstPage + first <= i < fFirstPage + first + count) ==>
                 fEntries[i] == before[i]
      requires forall i {:trigger before[i]} :: fFirstPage <= i < fFirstPage + fPageCount ==>
                 before[i] == EntryFor(content[i - fFirstPage])
      modifies fEntries, fUsed
      ensures BitmapIs(content) && TableIs(content) && fEntries[..] == before
    {
      hide BitSet, BitmapIs, Claimed;
      Scratch(first, count, content);
      assert Take(content, first, count) == content;
      Release(first, count, Claimed(content, first, count));
      SameBits(Take(Claimed(content, first, count), first, count), content);
    }

    lemma SameBits(c: Content, d: Content)
      requires BitmapIs(c) && |d| == |c| && forall i :: 0 <= i < |c| ==> (c[i].Some? <==> d[i].Some?)
      ensures BitmapIs(d)
    {}

    /** Give a run back, all of which must be in use. */
    method Unbind(address: nat, bytes: uint64) returns (status: Status)
      requires Consistent()
      modifies this`content, fEntries, fUsed
      ensures Consistent()
      ensures !status.Ok? ==> content == old(content)
      ensures status.Ok? <==> fReady && Whole(old(content), address, RoundUp(bytes))
      ensures status.Ok? ==>
        content == Take(old(content), (address - fBase) / PAGE_SIZE, RoundUp(bytes) / PAGE_SIZE)
      ensures forall i :: 0 <= i < fEntries.Length && !(fFirstPage <= i < fFirstPage + fPageCount) ==>
                fEntries[i] == old(fEntries[i])
    {
      hide BitSet, BitmapIs, TableIs, Addressable, RoundUp;
      if !fReady {
        return NotSupported;
      }
      RoundedUp(bytes);
      var size := RoundUp(bytes);
      if address % PAGE_SIZE != 0 || address < fBase || size == 0
         || address - fBase >= fSize || size > fSize - (address - fBase) {
        return BadValue;
      }
      var first, count := (address - fBase) / PAGE_SIZE, size / PAGE_SIZE;
      PagesOf(address, size);
      var all := AllUsed(first, count);
      if !all {
        return BadValue;
      }
      TableReads(content);
      Scratch(first, count, content);
      Release(first, count, content);
      content := Take(content, first, count);
      status := Ok;
    }

    /** A page aligned managed range in pages. */
    lemma PagesOf(address: nat, size: nat)
      requires Sized() && address % PAGE_SIZE == 0 && size % PAGE_SIZE == 0 && size > 0
      requires fBase <= address && address + size <= fBase + fSize
      ensures (address - fBase) / PAGE_SIZE + size / PAGE_SIZE <= fPageCount && size / PAGE_SIZE > 0
      ensures (address - fBase + size) / PAGE_SIZE == (address - fBase) / PAGE_SIZE + size / PAGE_SIZE
    {
      var a, b := address / PAGE_SIZE - fFirstPage, size / PAGE_SIZE;
      assert address - fBase == a * PAGE_SIZE && size == b * PAGE_SIZE;
      Parts(a, PAGE_SIZE, 0);
      Parts(a + b, PAGE_SIZE, 0);
    }

    /** Unbind's check that nothing in a run is free. */
    method AllUsed(first: nat, count: nat) returns (all: bool)
      requires BitmapIs(content) && first + count <= fPageCount
      ensures all <==> forall k :: first <= k < first + count ==> content[k].Some?
    {
      hide BitSet;
      for i := 0 to count
        invariant forall k :: first <= k < first + i ==> content[k].Some?
      {
        if !Used(first + i) {
          assert content[first + i].None?;
          return false;
        }
      }
      return true;
    }

    /** A page aligned managed range with every page in use. */
    ghost predicate Whole(c: Content, address: nat, size: nat)
      reads this
    {
      && address % PAGE_SIZE == 0 && size > 0 && fBase <= address && address + size <= fBase + fSize
      && |c| == fPageCount && fSize == fPageCount * PAGE_SIZE
      && forall k :: (address - fBase) / PAGE_SIZE <= k < (address - fBase + size) / PAGE_SIZE && k < |c| ==> c[k].Some?
    }
  }
}
