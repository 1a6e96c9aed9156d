/** kernel/BufferObject.cpp: a kernel area and the run of the global table that
    pins it. The object owns its run: nobody else can take it back, and it is
    given back before the memory is. */
module Buffers {
  import opened Machine
  import opened Gtt

  /** get_area_info and get_memory_map tell the truth about an area's pages, or
      fail. */
  predicate Truthful(maps: seq<MemoryMap>, pages: seq<int>) {
    |pages| <= |maps| * CHUNK_PAGES
    && forall k :: 0 <= k < |maps| && k * CHUNK_PAGES < |pages| ==> TruthfulChunk(maps, pages, k)
  }

  predicate TruthfulChunk(maps: seq<MemoryMap>, pages: seq<int>, k: nat)
    requires k < |maps| && k * CHUNK_PAGES < |pages|
  {
    maps[k].Pieces? ==>
      pages[k * CHUNK_PAGES..Min((k + 1) * CHUNK_PAGES, |pages|)] <= ChunkPages(maps[k].pieces)
  }

  predicate Tells(lookups: seq<Lookup>, pages: seq<int>) {
    |lookups| == |pages| && forall k :: 0 <= k < |pages| && lookups[k].Found? ==> lookups[k].physical == pages[k]
  }

  /** Whole pages nobody holds. */
  predicate Given(memory: seq<int>, size: uint64, live: set<int>) {
    |memory| * PAGE_SIZE == size && forall k :: 0 <= k < |memory| ==> memory[k] !in live
  }

  /** The lookups show the whole of an area, to a table that can take it. */
  ghost predicate Shows(area: GttArea, size: uint64, pages: seq<int>) {
    area.GttArea? && area.size == size && Answers(area.maps, pages) && AllAddressable(pages)
  }

  lemma ShowsTruly(area: GttArea, size: uint64, pages: seq<int>)
    requires Shows(area, size, pages) && pages != []
    ensures Truthful(area.maps, pages) && !Unusable(area.maps, |pages|)
  {
    var last := (|pages| - 1) / CHUNK_PAGES;
    assert AnswersChunk(area.maps, pages, last);
    forall k | 0 <= k < |area.maps| && k * CHUNK_PAGES < |pages|
      ensures TruthfulChunk(area.maps, pages, k)
    {
      assert AnswersChunk(area.maps, pages, k);
    }
  }

  /** So what a bind wrote for an area is the area. */
  lemma BoundIsTrue(maps: seq<MemoryMap>, pages: seq<int>, p: seq<int>)
    requires Truthful(maps, pages) && Answers(maps, p) && |p| == |pages|
    ensures p == pages
  {
    hide ChunkPages;
    forall i | 0 <= i < |p|
      ensures p[i] == pages[i]
    {
      var k, j := i / CHUNK_PAGES, i % CHUNK_PAGES;
      AnsweredPage(maps, p, k, j);
      assert TruthfulChunk(maps, pages, k);
      var chunk := pages[k * CHUNK_PAGES..Min((k + 1) * CHUNK_PAGES, |pages|)];
      assert chunk[j] == pages[i];
    }
  }

  /** Runs of buffers that share no page of memory cannot overlap. */
  lemma RunsApart(c: Content, f1: nat, p1: seq<int>, f2: nat, p2: seq<int>)
    requires Bound(c, f1, p1) && Bound(c, f2, p2) && p1 != [] && p2 != []
    requires forall p :: p in p1 ==> p !in p2
    ensures f1 + |p1| <= f2 || f2 + |p2| <= f1
  {
    var v := InRun(c, f1, p1, f1);
    var w := InRun(c, f2, p2, f2);
    InRunIf(c, f2, p2, f1, v);
    InRunIf(c, f1, p1, f2, w);
  }

  lemma InRun(c: Content, first: nat, pages: seq<int>, k: nat) returns (v: int)
    requires Bound(c, first, pages) && first <= k < first + |pages|
    ensures k < |c| && c[k] == Some(v) && v in pages
  {
    v := pages[k - first];
    assert c[first + (k - first)] == Some(v);
  }

  lemma InRunIf(c: Content, first: nat, pages: seq<int>, k: nat, v: int)
    requires Bound(c, first, pages) && k < |c| && c[k] == Some(v)
    ensures first <= k < first + |pages| ==> v in pages
  {
    if first <= k < first + |pages| {
      var w := InRun(c, first, pages, k);
    }
  }

  class BufferObject {
    var fArea: bool          // fArea >= 0
    var fSize: uint64
    var fGTT: GlobalGTT?
    var fGraphicsAddress: nat
    var pages: seq<int>      // the memory behind the area

    /** The first page of the run this buffer has, if it has one. */
    ghost function Run(): nat
      requires fGTT != null && fGraphicsAddress >= fGTT.fBase
      reads this, fGTT
    {
      (fGraphicsAddress - fGTT.fBase) / PAGE_SIZE
    }

    ghost predicate Whole() reads this {
      fArea && |pages| * PAGE_SIZE == fSize && pages != [] && fSize % PAGE_SIZE == 0
    }

    /** While bound, the run holds the buffer's own pages, in order. */
    ghost predicate Pinned()
      reads this, fGTT
    {
      && Whole()
      && (fGTT != null ==>
            && fGTT.fReady && fGraphicsAddress >= fGTT.fBase && (fGraphicsAddress - fGTT.fBase) % PAGE_SIZE == 0
            && Bound(fGTT.content, Run(), pages))
    }

    constructor ()
      ensures !fArea && fGTT == null
    {
      fArea, fSize, fGTT, fGraphicsAddress, pages := false, 0, null, 0, [];
    }

    /** create_area, locked, with `answer`; the memory manager gives nothing but as
        many whole pages as were asked for, which nobody holds yet. */
    method Init(size: uint64, live: set<int>, answer: Status, memory: seq<int>) returns (status: Status)
      requires size % PAGE_SIZE == 0 && size > 0 && !fArea && fGTT == null
      modifies this
      ensures fGTT == null
      ensures status.Ok? <==> answer.Ok? && Given(memory, size, live)
      ensures status.Ok? ==> Pinned() && fSize == size && pages == memory
      ensures !status.Ok? ==> !fArea
    {
      if !answer.Ok? || !Given(memory, size, live) {
        return if answer.Ok? then Error else answer;
      }
      fArea, fSize, pages := true, size, memory;
      status := Ok;
    }

    /** What the kernel says about this area when the GTT asks: the truth, or
        nothing. */
    method Describe(answer: GttArea) returns (area: GttArea)
      requires Whole()
      ensures area.GttArea? ==> area.size == fSize && Truthful(area.maps, pages)
      ensures answer.GttArea? && answer.size == fSize && Truthful(answer.maps, pages) ==> area == answer
    {
      area := answer;
      if area.GttArea? && !(area.size == fSize && Truthful(area.maps, pages)) {
        area := NoGttArea(-1);
      }
    }

    /** The same for the page tables, page by page. */
    method DescribePages(answer: Area) returns (area: Area)
      requires Whole()
      ensures area.Area? ==> area.size == fSize && Tells(area.lookups, pages)
      ensures answer.Area? && answer.size == fSize && Tells(answer.lookups, pages) ==> area == answer
    {
      area := answer;
      if area.Area? && !(area.size == fSize && Tells(area.lookups, pages)) {
        area := NoArea(-1);
      }
    }

    /** Pin the buffer: its run is the lowest free one that is large enough. It
        only fails when there is none, or when the kernel does not show the buffer
        to the table. */
    method Bind(gtt: GlobalGTT, answer: GttArea) returns (status: Status)
      requires Whole() && gtt.Consistent() && (fGTT == null || Pinned())
      modifies `fGTT, `fGraphicsAddress, gtt`content, gtt.fEntries, gtt.fUsed
      ensures gtt.Consistent() && Whole()
      ensures old(fGTT) != null ==> status == Busy
      ensures !status.Ok? ==>
        fGTT == old(fGTT) && fGraphicsAddress == old(fGraphicsAddress) && gtt.content == old(gtt.content)
      ensures status.Ok? ==>
        && fGTT == gtt && Pinned() && LowestFree(old(gtt.content), Run(), |pages|)
        && gtt.content == Put(old(gtt.content), Run(), pages)
      ensures status == NoMemory ==> forall f: nat :: !Free(gtt.content, f, |pages|)
      ensures old(fGTT) == null && gtt.fReady && Shows(answer, fSize, pages) && !status.Ok? ==>
        forall f: nat :: !Free(gtt.content, f, |pages|)
    {
      hide GlobalGTT.Valid, Answers, Truthful, AllAddressable, LowestFree, Free, Bound, RoundUp, Unusable;
      if !fArea {
        return NoInit;
      }
      if fGTT != null {
        return Busy;
      }
      var area := Describe(answer);
      WholePages();
      if area.GttArea? {
        Enough(area.maps, pages);
      }
      if Shows(answer, fSize, pages) {
        ShowsTruly(answer, fSize, pages);
      }
      var address;
      ghost var bound;
      status, address, bound := gtt.Bind(area);
      if !status.Ok? {
        return;
      }
      BoundIsTrue(area.maps, pages, bound);
      PutBound(old(gtt.content), (address - gtt.fBase) / PAGE_SIZE, pages);
      fGTT := gtt;
      fGraphicsAddress := address;
    }

    lemma WholePages()
      requires Whole()
      ensures RoundUp(fSize) == fSize && fSize / PAGE_SIZE == |pages|
    {}

    lemma PutBound(c: Content, first: nat, memory: seq<int>)
      requires LowestFree(c, first, |memory|)
      ensures first + |memory| <= |c| && Bound(Put(c, first, memory), first, memory)
    {}

    lemma Enough(maps: seq<MemoryMap>, memory: seq<int>)
      requires Truthful(maps, memory)
      ensures |memory| <= |maps| * CHUNK_PAGES
    {}

    /** A pinned run is what the table calls whole: aligned, inside, all used. */
    lemma RunIsWhole()
      requires Pinned() && fGTT != null && fGTT.Consistent()
      ensures RoundUp(fSize) == fSize && fSize / PAGE_SIZE == |pages| && Run() + |pages| <= |fGTT.content|
      ensures fGTT.Whole(fGTT.content, fGraphicsAddress, fSize)
    {
      hide GlobalGTT.BitmapIs, GlobalGTT.TableIs;
      var c, first := fGTT.content, Run();
      assert fGraphicsAddress == fGTT.fBase + first * PAGE_SIZE;
      assert (fGraphicsAddress - fGTT.fBase + fSize) / PAGE_SIZE == first + |pages|;
      forall k | first <= k < first + |pages|
        ensures c[k].Some?
      {
        assert c[first + (k - first)] == Some(pages[k - first]);
      }
    }

    /** Give the run back. It always works, and the run is free again. */
    method Unbind() returns (status: Status)
      requires Pinned() && (fGTT != null ==> fGTT.Consistent())
      modifies `fGTT, `fGraphicsAddress
      modifies if fGTT != null then {fGTT, fGTT.fEntries, fGTT.fUsed} else {}
      ensures Pinned() && fGTT == null
      ensures old(fGTT) == null ==> status == BadValue
      ensures old(fGTT) != null ==>
        && status.Ok? && old(fGTT).Consistent()
        && old(Run()) + |pages| <= |old(fGTT.content)|
        && old(fGTT).content == Take(old(fGTT.content), old(Run()), |pages|)
        && old(fGTT).fReady && old(fGTT).fBase == old(fGTT.fBase) && old(fGTT).fSize == old(fGTT.fSize)
        && old(fGTT).fFirstPage == old(fGTT.fFirstPage) && old(fGTT).fPageCount == old(fGTT.fPageCount)
        && old(fGTT).fScratchPage == old(fGTT.fScratchPage) && old(fGTT).fUsed == old(fGTT.fUsed)
    {
      hide GlobalGTT.Valid, GlobalGTT.Whole;
      if fGTT == null {
        return BadValue;
      }
      RunIsWhole();
      status := fGTT.Unbind(fGraphicsAddress, fSize);
      fGTT := null;
      fGraphicsAddress := 0;
    }
  }
}
