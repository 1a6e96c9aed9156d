/** mesa/overlay/compat/IntelWinsys.cpp: the process's own view of its buffers,
    kept beside the kernel's, its cache of buffers the caller has finished with,
    and the rebinding in front of every submission. All of it runs under one
    lock. A kernel call is one step of ClientModel, with any outcome. */
module Winsys {
  import opened Machine
  import opened ClientModel
  import opened ClientSafety
  import opened WinsysModel

  const RECLAIM_BATCH := 16
  const MAX_CACHED := 64

  /** One object of a submission: the buffer and where the caller wants it. */
  datatype Object = Object(handle: nat, offset: uint64, relocations: nat)

  /** Purgeable and still there. */
  predicate Cached(buffers: Records, k: (nat, nat), fd: nat) {
    k in buffers && k.0 == fd && buffers[k].purgeable && !buffers[k].purged
  }

  function Cache(buffers: Records, fd: nat): set<(nat, nat)> {
    set k | k in buffers && Cached(buffers, k, fd)
  }

  /** No process keeps more than the watermark allows. */
  ghost predicate Bounded(buffers: Records) {
    forall fd :: |Cache(buffers, fd)| <= 64
  }

  /** Stamps put the cached buffers of a process in an order, without ties. */
  ghost predicate Stamped(buffers: Records, clock: nat) {
    && (forall k :: k in buffers && buffers[k].purgeable ==> buffers[k].stamp <= clock)
    && (forall j, k :: j in buffers && k in buffers && j != k && buffers[j].purgeable && buffers[k].purgeable ==>
          buffers[j].stamp != buffers[k].stamp)
  }

  function Purged(r: Record): Record {
    r.(purged := true, address := 0)
  }

  /** The records once these handles have been given back. */
  function AllPurged(buffers: Records, fd: nat, closed: seq<nat>): Records {
    map k | k in buffers :: if k.0 == fd && k.1 in closed then Purged(buffers[k]) else buffers[k]
  }

  function Sizes(buffers: Records, fd: nat, closed: seq<nat>): nat {
    if closed == [] then 0
    else
      var k := (fd, closed[|closed| - 1]);
      Sizes(buffers, fd, closed[..|closed| - 1]) + if k in buffers then buffers[k].size else 0
  }

  /** Only cached buffers, each once, and each the oldest of those then left. */
  ghost predicate OldestFirst(buffers: Records, fd: nat, closed: seq<nat>) {
    forall i :: 0 <= i < |closed| ==> OldestAt(buffers, fd, closed, i)
  }

  ghost predicate OldestAt(buffers: Records, fd: nat, closed: seq<nat>, i: nat)
    requires i < |closed|
  {
    && Cached(buffers, (fd, closed[i]), fd) && closed[i] !in closed[..i]
    && forall k: (nat, nat) :: Cached(buffers, k, fd) && k.1 !in closed[..i] ==>
         buffers[(fd, closed[i])].stamp <= buffers[k].stamp
  }

  /** Handle j of a submission comes up again before object n. */
  predicate NamedAgain(objects: seq<Object>, j: nat, n: nat)
    requires j < |objects|
  {
    exists k :: j < k < n && k < |objects| && objects[k].handle == objects[j].handle
  }

  /** What a caller may ask for: buffers that are there, each once, each at an
      address the kernel accepts, and no two in each other's way. */
  ghost predicate Layout(buffers: Records, fd: nat, objects: seq<Object>) {
    && (forall i :: 0 <= i < |objects| ==> Placeable(buffers, fd, objects[i]))
    && (forall i, j :: 0 <= i < |objects| && 0 <= j < |objects| && i != j ==>
          Disjoint(buffers, fd, objects[i], objects[j]))
  }

  ghost predicate Placeable(buffers: Records, fd: nat, o: Object) {
    && (fd, o.handle) in buffers && !buffers[(fd, o.handle)].purged && o.relocations == 0
    && Bindable(o.offset, buffers[(fd, o.handle)].size)
  }

  ghost predicate Disjoint(buffers: Records, fd: nat, a: Object, b: Object) {
    && a.handle != b.handle && (fd, a.handle) in buffers && (fd, b.handle) in buffers
    && (a.offset + buffers[(fd, a.handle)].size <= b.offset || b.offset + buffers[(fd, b.handle)].size <= a.offset)
  }

  function Handles(objects: seq<Object>): (handles: seq<nat>)
    ensures |handles| == |objects| && forall i :: 0 <= i < |objects| ==> handles[i] == objects[i].handle
  {
    seq(|objects|, i requires 0 <= i < |objects| => objects[i].handle)
  }

  /** An object is where it was asked to be, for the winsys, for the kernel and
      for the GPU. */
  ghost predicate Home(buffers: Records, fd: nat, s: Client, o: Object) {
    (fd, o.handle) in buffers && buffers[(fd, o.handle)].address == o.offset && Walks(s, o.handle, o.offset)
  }

  /** Every object is there, and nothing else is bound where it is to go. */
  ghost predicate Swept(buffers: Records, fd: nat, objects: seq<Object>, n: nat) {
    forall i :: 0 <= i < |objects| && i < n ==> SweptFor(buffers, fd, objects[i])
  }

  ghost predicate SweptFor(buffers: Records, fd: nat, o: Object) {
    && (fd, o.handle) in buffers
    && (o.offset != 0 ==> Clear(buffers, fd, o.handle, o.offset, buffers[(fd, o.handle)].size))
  }

  /** The objects so far are where they were asked to be, unless one of them
      was named again. */
  ghost predicate Settled(buffers: Records, fd: nat, objects: seq<Object>, n: nat) {
    forall j :: 0 <= j < |objects| && j < n && !NamedAgain(objects, j, n) ==> SettledAt(buffers, fd, objects[j])
  }

  ghost predicate SettledAt(buffers: Records, fd: nat, o: Object) {
    (fd, o.handle) in buffers && buffers[(fd, o.handle)].address == o.offset && o.relocations == 0
  }

  ghost predicate FrankIn(before: seq<Answer>, after: seq<Answer>) {
    before <= after && forall i :: |before| <= i < |after| ==> (after[i].status.Ok? <==> Willing(after[i]))
  }

  /** The last answer is the kernel's refusal to close a buffer, for want of the
      request or because the client is faulted. */
  ghost predicate RefusedIn(before: seq<Answer>, after: seq<Answer>) {
    && before < after
    && var a := after[|after| - 1];
       a.op.CloseBuffer? && !a.status.Ok? && (Faulted(a.before) || !a.o.read.Ok?)
  }

  /** How an allocation goes that the kernel has refused once: cached buffers are
      given back, until 16 of them with as many bytes as were asked for have been,
      or no more can be had; then, if that freed any, it is asked once more. */
  ghost predicate Retried(before: seq<Answer>, after: seq<Answer>, buffers: Records, fd: nat, size: uint64,
                          closed: seq<nat>, status: Status) {
    exists k :: |before| < k <= |after|
      && (RefusedIn(before, after[..k]) || Cache(AllPurged(buffers, fd, closed), fd) == {}
            || (|closed| >= 16 && Sizes(buffers, fd, closed) >= size))
      && if closed == [] then k == |after| && !status.Ok?
         else k + 1 == |after| && after[k].op == CreateBuffer(size, 0, 0) && after[k].status == status
  }

  /** Whether a binding lies where an object is to go. */
  predicate Meets(buffers: Records, fd: nat, o: Object, k: (nat, nat))
    requires k in buffers
  {
    && k.0 == fd && (fd, o.handle) in buffers && buffers[k].address != 0
    && o.offset < buffers[k].address + buffers[k].size
    && buffers[k].address < o.offset + buffers[(fd, o.handle)].size
  }

  ghost predicate InTheWay(buffers: Records, fd: nat, objects: seq<Object>, k: (nat, nat))
    requires k in buffers
  {
    exists i :: 0 <= i < |objects| && Meets(buffers, fd, objects[i], k)
  }

  ghost predicate IsNamed(fd: nat, objects: seq<Object>, k: (nat, nat)) {
    k.0 == fd && exists i :: 0 <= i < |objects| && objects[i].handle == k.1
  }

  /** No binding has moved but of an object, or out of an object's way. */
  ghost predicate OnlyNeeded(before: Records, after: Records, fd: nat, objects: seq<Object>) {
    after.Keys == before.Keys && forall k :: k in before && after[k].address != before[k].address ==>
      InTheWay(before, fd, objects, k) || IsNamed(fd, objects, k)
  }

  ghost predicate MovesIn(before: seq<Answer>, after: seq<Answer>) {
    && before <= after
    && forall i :: |before| <= i < |after| ==> after[i].op.BindVirtual? || after[i].op.UnbindVirtual?
  }

  lemma AnswersMore(a: seq<Answer>, b: seq<Answer>, c: seq<Answer>)
    ensures FrankIn(a, b) && FrankIn(b, c) ==> FrankIn(a, c)
    ensures MovesIn(a, b) && MovesIn(b, c) ==> MovesIn(a, c)
  {
    hide Willing;
  }

  /** With these entries to go, no binding has been taken out that was clear of a
      range, and none that is not is left among the others. */
  ghost predicate Sweeping(before: Records, now: Records, entries: set<(nat, nat)>, fd: nat, handle: nat, start: nat,
                           size: nat) {
    && now.Keys == before.Keys && (forall k :: k in entries && k in now ==> now[k] == before[k])
    && (forall k :: k in now && now[k] != before[k] ==>
          start < before[k].address + before[k].size && before[k].address < start + size)
    && (forall k :: k in now && k !in entries && k.0 == fd && k.1 != handle && now[k].address != 0 ==>
          start + size <= now[k].address || now[k].address + now[k].size <= start)
  }

  lemma NothingSwept(buffers: Records, fd: nat, handle: nat, start: nat, size: nat)
    ensures Sweeping(buffers, buffers, buffers.Keys, fd, handle, start, size)
  {}

  lemma SweptOne(before: Records, was: Records, now: Records, entries: set<(nat, nat)>, entry: (nat, nat), fd: nat,
                 handle: nat, start: nat, size: nat)
    requires Sweeping(before, was, entries, fd, handle, start, size) && entry in entries && entry in was
    requires var other := was[entry];
             now == if entry.0 == fd && entry.1 != handle && other.address != 0
                       && start < other.address + other.size && other.address < start + size
                    then was[entry := other.(address := 0)] else was
    ensures Sweeping(before, now, entries - {entry}, fd, handle, start, size)
  {}

  lemma StillSweeping(before: Records, now: Records, entries: set<(nat, nat)>, fd: nat, handle: nat, start: nat,
                      size: nat)
    requires Sweeping(before, now, entries, fd, handle, start, size)
    ensures now.Keys == before.Keys && forall k :: k in now && now[k] != before[k] ==>
              start < before[k].address + before[k].size && before[k].address < start + size
  {}

  lemma AllSwept(before: Records, now: Records, fd: nat, handle: nat, start: nat, size: nat)
    requires Sweeping(before, now, {}, fd, handle, start, size)
    ensures Clear(now, fd, handle, start, size)
    ensures now.Keys == before.Keys && forall k :: k in now && now[k] != before[k] ==>
              start < before[k].address + before[k].size && before[k].address < start + size
  {}

  lemma CountOneMore<T>(all: set<T>, seen: set<T>, x: T)
    requires x !in seen
    ensures |all * (seen + {x})| == |all * seen| + (if x in all then 1 else 0)
  {
    assert all * (seen + {x}) == all * seen + (if x in all then {x} else {});
  }

  class Adapter {
    var purgeClock: nat
    var buffers: Records
    /** The kernel's side, one client for each open descriptor. */
    var kernels: map<nat, Client>
    /** Every answer the kernel has given. */
    ghost var trace: seq<Answer>

    ghost predicate Valid()
      reads this
    {
      && (forall fd :: fd in kernels ==> Inv(kernels[fd]) && Agrees(buffers, fd, kernels[fd].slots))
      && (forall k :: k in buffers ==> k.0 in kernels)
      && Stamped(buffers, purgeClock)
    }

    constructor (opened_: set<nat>, capable: bool, aperture: bool)
      ensures Valid() && buffers == map[] && kernels.Keys == opened_
    {
      purgeClock, buffers, trace := 0, map[], [];
      kernels := map fd | fd in opened_ :: Opened(capable, aperture);
      new;
      forall fd | fd in kernels
        ensures Inv(kernels[fd]) && Agrees(buffers, fd, kernels[fd].slots)
      {
        RunKeeps(capable, aperture, []);
      }
    }

    /** An ioctl on the device: the kernel's client takes one step. */
    method Call(fd: nat, op: Op) returns (status: Status, ghost o: Outcome)
      requires fd in kernels
      modifies `kernels, `trace
      ensures Honest(old(kernels)[fd], op, o)
      ensures trace == old(trace) + [Answer(op, old(kernels)[fd], o, status)]
      ensures (kernels, status) ==
              (old(kernels)[fd := Step(old(kernels)[fd], op, o).0], Step(old(kernels)[fd], op, o).1)
    {
      var outcome: Outcome := *;
      if !Honest(kernels[fd], op, outcome) {
        outcome := outcome.(read := BadAddress);
      }
      o := outcome;
      var next := Step(kernels[fd], op, outcome);
      trace := trace + [Answer(op, kernels[fd], o, next.1)];
      kernels := kernels[fd := next.0];
      status := next.1;
    }

    /** What is left of a descriptor's affairs when only its own records and its
        own kernel client change. */
    ghost predicate Others(fd: nat, before: Records, kernelsBefore: map<nat, Client>)
      reads this
    {
      && kernels.Keys == kernelsBefore.Keys
      && (forall d :: d in kernels && d != fd ==> kernels[d] == kernelsBefore[d])
      && (forall k: (nat, nat) :: k.0 != fd ==>
            (k in buffers <==> k in before) && (k in before ==> buffers[k] == before[k]))
    }

    lemma OthersStay(fd: nat, before: Records, kernelsBefore: map<nat, Client>)
      requires Others(fd, before, kernelsBefore)
      requires forall d :: d in kernelsBefore ==> Inv(kernelsBefore[d]) && Agrees(before, d, kernelsBefore[d].slots)
      ensures forall d :: d in kernels && d != fd ==> Inv(kernels[d]) && Agrees(buffers, d, kernels[d].slots)
    {
      hide Inv, Agrees;
      forall d | d in kernels && d != fd
        ensures Inv(kernels[d]) && Agrees(buffers, d, kernels[d].slots)
      {
        AgreesOther(before, buffers, d, kernels[d].slots);
      }
    }

    /** Ask the kernel to close a buffer and mark it purged. */
    method CloseCached(fd: nat, handle: nat) returns (status: Status, ghost o: Outcome)
      requires Valid() && Cached(buffers, (fd, handle), fd)
      modifies `buffers, `kernels, `trace
      ensures Valid() && kernels.Keys == old(kernels.Keys)
      ensures buffers == if status.Ok? then old(buffers)[(fd, handle) := Purged(old(buffers)[(fd, handle)])]
              else old(buffers)
      ensures trace == old(trace) + [Answer(CloseBuffer(handle, 0), old(kernels)[fd], o, status)]
      ensures status.Ok? <==> !Faulted(old(kernels)[fd]) && o.read.Ok?
    {
      hide Inv, Agrees, Step, Honest, Stamped;
      ghost var s := kernels[fd];
      status, o := Call(fd, CloseBuffer(handle, 0));
      KernelClose(buffers, fd, s, handle, o);
      if status.Ok? {
        var r := Purged(buffers[(fd, handle)]);
        buffers := buffers[(fd, handle) := r];
      }
      StampedSame(old(buffers), buffers, purgeClock);
      OthersStay(fd, old(buffers), old(kernels));
    }

    /** The oldest buffer of the cache, if there is one. */
    method Oldest(fd: nat) returns (found: bool, handle: nat)
      ensures found <==> Cache(buffers, fd) != {}
      ensures found ==> Cached(buffers, (fd, handle), fd)
      ensures found ==> forall k: (nat, nat) :: Cached(buffers, k, fd) ==>
              buffers[(fd, handle)].stamp <= buffers[k].stamp
    {
      found, handle := false, 0;
      var entries := buffers.Keys;
      while entries != {}
        invariant entries <= buffers.Keys
        invariant found ==> Cached(buffers, (fd, handle), fd)
        invariant forall k: (nat, nat) :: Cached(buffers, k, fd) && k !in entries ==>
                  found && buffers[(fd, handle)].stamp <= buffers[k].stamp
        decreases |entries|
      {
        var entry :| entry in entries;
        entries := entries - {entry};
        if entry.0 != fd || !buffers[entry].purgeable || buffers[entry].purged {
          continue;
        }
        assert Cached(buffers, entry, fd);
        if !found || buffers[entry].stamp < buffers[(fd, handle)].stamp {
          found, handle := true, entry.1;
        }
      }
      assert found ==> (fd, handle) in Cache(buffers, fd);
    }

    /** Give cached buffers back, oldest first, until both quotas are met: that,
        an empty cache, or a kernel that does not let go ends it. */
    method Reclaim(fd: nat, bytes: nat, count: nat)
      returns (purged: nat, ghost closed: seq<nat>)
      requires Valid()
      modifies `buffers, `kernels, `trace
      ensures Valid() && kernels.Keys == old(kernels.Keys)
      ensures purged == |closed| && OldestFirst(old(buffers), fd, closed)
      ensures buffers == AllPurged(old(buffers), fd, closed)
      ensures old(trace) <= trace
      ensures RefusedIn(old(trace), trace) || Cache(buffers, fd) == {}
              || (|closed| >= count && Sizes(old(buffers), fd, closed) >= bytes)
      ensures closed != [] ==> |closed| - 1 < count || Sizes(old(buffers), fd, closed[..|closed| - 1]) < bytes
      ensures Bounded(old(buffers)) ==> Bounded(buffers)
    {
      hide Valid, OldestFirst, AllPurged, Sizes, Cached, Cache, Bounded;
      var freed := 0;
      NoneClosed(buffers, fd);
      purged, closed := 0, [];
      while purged < count || freed < bytes
        invariant Valid() && kernels.Keys == old(kernels.Keys) && old(trace) <= trace
        invariant purged == |closed| && freed == Sizes(old(buffers), fd, closed)
        invariant OldestFirst(old(buffers), fd, closed) && buffers == AllPurged(old(buffers), fd, closed)
        invariant closed != [] ==> |closed| - 1 < count || Sizes(old(buffers), fd, closed[..|closed| - 1]) < bytes
        decreases |Cache(buffers, fd)|
      {
        var found, handle := Oldest(fd);
        if !found {
          break;
        }
        ghost var before := buffers;
        ClientOf(fd, handle);
        var status;
        ghost var o;
        status, o := CloseCached(fd, handle);
        if !status.Ok? {
          break;
        }
        OneMore(old(buffers), fd, closed, handle);
        OneFewer(before, fd, handle);
        freed := freed + buffers[(fd, handle)].size;
        purged := purged + 1;
        closed := closed + [handle];
      }
      PurgedBounded(old(buffers), fd, closed);
    }

    lemma ClientOf(fd: nat, handle: nat)
      requires Valid() && Cached(buffers, (fd, handle), fd)
      ensures fd in kernels
    {}

    /** How much of the cache there is. */
    method CountCached(fd: nat) returns (cached: nat)
      ensures cached == |Cache(buffers, fd)|
    {
      cached := 0;
      var entries := buffers.Keys;
      ghost var cache, seen := Cache(buffers, fd), buffers.Keys - entries;
      while entries != {}
        invariant entries <= buffers.Keys && seen == buffers.Keys - entries
        invariant cached == |cache * seen|
        decreases |entries|
      {
        var entry :| entry in entries;
        assert entry in cache <==> entry.0 == fd && buffers[entry].purgeable && !buffers[entry].purged;
        CountOneMore(cache, seen, entry);
        entries, seen := entries - {entry}, seen + {entry};
        if entry.0 == fd && buffers[entry].purgeable && !buffers[entry].purged {
          cached := cached + 1;
        }
      }
      assert cache * seen == cache;
    }

    /** What the caller says about a buffer: given up, with a new stamp, or not. */
    method Mark(fd: nat, handle: nat, dontNeed: bool)
      requires Valid() && (fd, handle) in buffers && !buffers[(fd, handle)].purged
      modifies `buffers, `purgeClock
      ensures Valid() && (fd, handle) in old(buffers)
      ensures !dontNeed ==> buffers == old(buffers)[(fd, handle) := old(buffers)[(fd, handle)].(purgeable := false)]
      ensures dontNeed ==>
        buffers == old(buffers)[(fd, handle) :=
          old(buffers)[(fd, handle)].(purgeable := true, stamp := old(purgeClock) + 1)]
      ensures dontNeed ==> Cached(buffers, (fd, handle), fd)
      ensures dontNeed ==> forall k :: k in buffers && k != (fd, handle) && buffers[k].purgeable ==>
              buffers[k].stamp < buffers[(fd, handle)].stamp
    {
      hide Inv, Agrees;
      var bo := buffers[(fd, handle)].(purgeable := dontNeed);
      if dontNeed {
        purgeClock := purgeClock + 1;
        bo := bo.(stamp := purgeClock);
      }
      buffers := buffers[(fd, handle) := bo];
      forall d | d in kernels
        ensures Agrees(buffers, d, kernels[d].slots)
      {
        AgreesSame(old(buffers), buffers, d, kernels[d].slots);
      }
    }

    /** DRM_IOCTL_I915_GEM_MADVISE. */
    method Madvise(fd: nat, handle: nat, dontNeed: bool)
      returns (status: Status, retained: bool, ghost closed: seq<nat>)
      requires Valid()
      modifies this
      ensures Valid() && kernels.Keys == old(kernels.Keys)
      ensures status == if (fd, handle) in old(buffers) then Ok else BadValue
      ensures !status.Ok? ==> buffers == old(buffers)
      ensures status.Ok? && old(buffers)[(fd, handle)].purged ==> !retained && buffers == old(buffers)
      ensures status.Ok? && !old(buffers)[(fd, handle)].purged && !dontNeed ==>
        retained && buffers == old(buffers)[(fd, handle) := old(buffers)[(fd, handle)].(purgeable := false)]
      // Giving a buffer up never costs that buffer itself, and the cache is
      // within bounds afterwards, by its oldest members only.
      ensures status.Ok? && !old(buffers)[(fd, handle)].purged && dontNeed ==>
        && var now := old(buffers)[(fd, handle) :=
             old(buffers)[(fd, handle)].(purgeable := true, stamp := old(purgeClock) + 1)];
           && retained && Cached(buffers, (fd, handle), fd)
           && OldestFirst(now, fd, closed) && buffers == AllPurged(now, fd, closed)
           && (RefusedIn(old(trace), trace) || |Cache(buffers, fd)| <= 64)
           && (closed != [] ==> |Cache(buffers, fd)| >= 64)
      // The bound is only missed when the kernel does not let go.
      ensures Bounded(old(buffers)) && !RefusedIn(old(trace), trace) ==> Bounded(buffers)
    {
      hide Valid, OldestFirst, AllPurged, Cached, Cache, Bounded;
      retained, closed := false, [];
      if (fd, handle) !in buffers {
        return BadValue, retained, closed;
      }
      status := Ok;
      if buffers[(fd, handle)].purged {
        return;
      }
      Mark(fd, handle, dontNeed);
      if !dontNeed {
        retained := true;
        FewerCached(old(buffers), buffers);
        return;
      }
      ghost var now := buffers;
      NoneClosed(now, fd);
      var cached := CountCached(fd);
      if cached > MAX_CACHED {
        var purged;
        purged, closed := Reclaim(fd, 0, cached - MAX_CACHED);
        CacheSize(now, fd, closed);
      }
      SomeCached(now, fd, handle);
      Newest(now, fd, handle, closed);
      MarkedBounded(old(buffers), now, fd, handle, closed);
      retained := !buffers[(fd, handle)].purged;
    }

    /** DRM_IOCTL_I915_GEM_CREATE: ask the kernel, and once more after giving back
        part of the cache. */
    method Create(fd: nat, size: uint64) returns (status: Status, handle: nat, ghost closed: seq<nat>)
      requires Valid() && fd in kernels
      modifies this
      ensures Valid() && kernels.Keys == old(kernels.Keys)
      // Only cached buffers are ever sacrificed, the oldest first, and no more
      // than it takes.
      ensures OldestFirst(old(buffers), fd, closed)
      ensures closed != [] ==> |closed| - 1 < 16 || Sizes(old(buffers), fd, closed[..|closed| - 1]) < size
      ensures status.Ok? ==>
        buffers == AllPurged(old(buffers), fd, closed)[(fd, handle) := Record(RoundUp(size), 0, false, false, 0)]
      ensures !status.Ok? ==> buffers == AllPurged(old(buffers), fd, closed)
      // The kernel is asked first, and once more when it refused and something
      // could be given back.
      ensures |old(trace)| < |trace| && old(trace) <= trace && trace[|old(trace)|].op == CreateBuffer(size, 0, 0)
      ensures if trace[|old(trace)|].status.Ok? then status.Ok? && closed == [] && |trace| == |old(trace)| + 1
              else Retried(old(trace), trace, old(buffers), fd, size, closed, status)
      ensures Bounded(old(buffers)) ==> Bounded(buffers)
    {
      hide Valid, OldestFirst, AllPurged, Cached, Cache, RoundUp, Sizes, Bounded;
      closed := [];
      NoneClosed(buffers, fd);
      status, handle := CreateOnce(fd, size);
      if !status.Ok? {
        var freed;
        freed, closed := Reclaim(fd, size, RECLAIM_BATCH);
        ghost var reclaimed := trace;
        assert trace[..|reclaimed|] == reclaimed;
        if freed == 0 {
          return;
        }
        status, handle := CreateOnce(fd, size);
        assert trace[..|reclaimed|] == reclaimed;
      }
    }

    method CreateOnce(fd: nat, size: uint64) returns (status: Status, handle: nat)
      requires Valid() && fd in kernels
      modifies `buffers, `kernels, `trace
      ensures Valid() && kernels.Keys == old(kernels.Keys)
      ensures buffers == if status.Ok?
                then old(buffers)[(fd, handle) := Record(RoundUp(size), 0, false, false, 0)] else old(buffers)
      ensures |trace| == |old(trace)| + 1 && old(trace) <= trace
      ensures trace[|old(trace)|].op == CreateBuffer(size, 0, 0) && trace[|old(trace)|].status == status
      ensures Bounded(old(buffers)) ==> Bounded(buffers)
    {
      hide Inv, Agrees, Step, Honest, RoundUp, Cache, Cached, Bounded, Stamped;
      ghost var s := kernels[fd];
      handle := kernels[fd].nextHandle;
      ghost var o;
      status, o := Call(fd, CreateBuffer(size, 0, 0));
      KernelCreate(buffers, fd, s, size, o);
      if status.Ok? {
        buffers := buffers[(fd, handle) := Record(RoundUp(size), 0, false, false, 0)];
        StampedNew(old(buffers), (fd, handle), buffers[(fd, handle)], purgeClock);
      }
      FewerCached(old(buffers), buffers);
      OthersStay(fd, old(buffers), old(kernels));
    }

    /** DRM_IOCTL_GEM_CLOSE: a purged buffer is gone from the kernel already. */
    method Close(fd: nat, handle: nat) returns (status: Status)
      requires Valid()
      modifies `buffers, `kernels, `trace
      ensures Valid() && kernels.Keys == old(kernels.Keys)
      ensures (fd, handle) !in old(buffers) ==> status == BadValue
      ensures buffers == if status.Ok? then old(buffers) - {(fd, handle)} else old(buffers)
      ensures (fd, handle) in old(buffers) && old(buffers)[(fd, handle)].purged ==>
              status.Ok? && kernels == old(kernels)
      ensures (fd, handle) in old(buffers) && !old(buffers)[(fd, handle)].purged ==>
        && |trace| == |old(trace)| + 1 && old(trace) <= trace
        && var a := trace[|old(trace)|];
           a.op == CloseBuffer(handle, 0) && (status.Ok? <==> !Faulted(a.before) && a.o.read.Ok?)
      ensures Bounded(old(buffers)) ==> Bounded(buffers)
    {
      hide Inv, Agrees, Step, Honest, Stamped, Cache, Cached, Bounded;
      if (fd, handle) !in buffers {
        return BadValue;
      }
      if !buffers[(fd, handle)].purged {
        ghost var s := kernels[fd];
        ghost var o;
        status, o := Call(fd, CloseBuffer(handle, 0));
        KernelClose(buffers, fd, s, handle, o);
        if !status.Ok? {
          OthersStay(fd, old(buffers), old(kernels));
          return;
        }
      } else {
        ForgetPurged(buffers, fd, handle, kernels[fd].slots);
      }
      buffers := buffers - {(fd, handle)};
      StampedFewer(old(buffers), (fd, handle), purgeClock);
      FewerCached(old(buffers), buffers);
      OthersStay(fd, old(buffers), old(kernels));
      status := Ok;
    }

    // ---------------------------------------------------------- submissions

    /** Since `before`, no kernel request failed that anything could have made
        succeed. */
    ghost predicate Frank(before: seq<Answer>)
      reads `trace
    {
      FrankIn(before, trace)
    }

    /** Since `before` the kernel has only been asked to bind and unbind. */
    ghost predicate OnlyMoves(before: seq<Answer>)
      reads `trace
    {
      MovesIn(before, trace)
    }

    /** A request since `before` failed, and it was the last. */
    ghost predicate Failed(before: seq<Answer>)
      reads `trace
    {
      before < trace && !trace[|trace| - 1].status.Ok?
    }

    /** Take a binding out of the kernel, and note that it is gone. */
    method Unbind(fd: nat, handle: nat) returns (status: Status)
      requires Valid() && (fd, handle) in buffers && !buffers[(fd, handle)].purged
      modifies `buffers, `kernels, `trace
      ensures Valid() && kernels.Keys == old(kernels.Keys) && (fd, handle) in old(buffers) && fd in kernels
      ensures buffers == if status.Ok? then old(buffers)[(fd, handle) := old(buffers)[(fd, handle)].(address := 0)]
              else old(buffers)
      ensures Frank(old(trace)) && (!status.Ok? ==> Failed(old(trace)))
      ensures OnlyMoves(old(trace))
    {
      hide Inv, Agrees, Step, Honest, Willing, Stamped;
      ghost var s := kernels[fd];
      ghost var o;
      status, o := Call(fd, UnbindVirtual(handle, 0));
      KernelUnbind(buffers, fd, s, handle, o);
      if status.Ok? {
        buffers := buffers[(fd, handle) := buffers[(fd, handle)].(address := 0)];
      }
      StampedSame(old(buffers), buffers, purgeClock);
      OthersStay(fd, old(buffers), old(kernels));
    }

    /** Bind a buffer that is bound nowhere, and note where it is now. */
    method Bind(fd: nat, handle: nat, address: uint64) returns (status: Status)
      requires Valid() && (fd, handle) in buffers && buffers[(fd, handle)].address == 0
      modifies `buffers, `kernels, `trace
      ensures Valid() && kernels.Keys == old(kernels.Keys) && (fd, handle) in old(buffers) && fd in kernels
      ensures buffers == if status.Ok?
                then old(buffers)[(fd, handle) := old(buffers)[(fd, handle)].(address := address)] else old(buffers)
      ensures status.Ok? ==> address != 0
      ensures old(trace) <= trace && (!status.Ok? ==> Failed(old(trace)))
      ensures var r := old(buffers)[(fd, handle)];
              !r.purged && Clear(old(buffers), fd, handle, address, r.size) && Bindable(address, r.size) ==>
                Frank(old(trace))
      ensures OnlyMoves(old(trace))
    {
      hide Inv, Agrees, Step, Honest, Willing, Clear, Stamped;
      ghost var s := kernels[fd];
      ghost var o;
      status, o := Call(fd, BindVirtual(handle, 0, address));
      if buffers[(fd, handle)].purged {
        KernelBindGone(buffers, fd, s, handle, address, o);
      } else {
        KernelBind(buffers, fd, s, handle, address, o);
      }
      if status.Ok? {
        buffers := buffers[(fd, handle) := buffers[(fd, handle)].(address := address)];
      }
      StampedSame(old(buffers), buffers, purgeClock);
      OthersStay(fd, old(buffers), old(kernels));
    }

    /** Some bindings of a process are gone, and nothing else has changed. */
    ghost predicate Loosened(before: Records, fd: nat)
      reads `buffers
    {
      && buffers.Keys == before.Keys
      && forall k :: k in buffers ==>
           buffers[k] == before[k] || (k.0 == fd && buffers[k] == before[k].(address := 0))
    }

    /** The sweep for one object: evict every other binding its new home meets. */
    method EvictFor(fd: nat, handle: nat, start: nat, size: nat) returns (status: Status)
      requires Valid()
      modifies `buffers, `kernels, `trace
      ensures Valid() && kernels.Keys == old(kernels.Keys) && Loosened(old(buffers), fd)
      ensures Frank(old(trace)) && (!status.Ok? ==> Failed(old(trace)))
      ensures status.Ok? ==> Clear(buffers, fd, handle, start, size)
      ensures forall k :: k in buffers && buffers[k] != old(buffers)[k] ==>
        start < old(buffers)[k].address + old(buffers)[k].size && old(buffers)[k].address < start + size
      ensures OnlyMoves(old(trace))
    {
      hide Valid, Willing, FrankIn, MovesIn, Sweeping;
      NothingAsked();
      NothingSwept(buffers, fd, handle, start, size);
      var entries := buffers.Keys;
      while entries != {}
        invariant Valid() && kernels.Keys == old(kernels.Keys) && Loosened(old(buffers), fd) && Frank(old(trace))
        invariant OnlyMoves(old(trace)) && entries <= buffers.Keys
        invariant Sweeping(old(buffers), buffers, entries, fd, handle, start, size)
        decreases |entries|
      {
        var entry :| entry in entries;
        ghost var left, was := entries, buffers;
        entries := entries - {entry};
        if entry.0 == fd && entry.1 != handle && buffers[entry].address != 0 {
          var other := buffers[entry];
          if start < other.address + other.size && other.address < start + size {
            assert entry == (fd, entry.1);
            BoundHere(fd, entry.1);
            ghost var asked := trace;
            status := Unbind(fd, entry.1);
            AnswersMore(old(trace), asked, trace);
            Onward(old(trace), asked);
            if !status.Ok? {
              StillSweeping(old(buffers), buffers, left, fd, handle, start, size);
              return;
            }
          }
        }
        SweptOne(old(buffers), was, buffers, left, entry, fd, handle, start, size);
      }
      AllSwept(old(buffers), buffers, fd, handle, start, size);
      status := Ok;
    }

    lemma BoundHere(fd: nat, handle: nat)
      requires Valid() && (fd, handle) in buffers && buffers[(fd, handle)].address != 0
      ensures !buffers[(fd, handle)].purged && Bindable(buffers[(fd, handle)].address, buffers[(fd, handle)].size)
      ensures Clear(buffers, fd, handle, buffers[(fd, handle)].address, buffers[(fd, handle)].size)
    {
      hide Inv, Agrees, Clear;
      assert (fd, handle).0 in kernels;
      BindingsApart(buffers, fd, kernels[fd], handle);
    }

    /** The first loop: make way for every object that is moving. */
    method EvictAll(fd: nat, objects: seq<Object>) returns (status: Status)
      requires Valid()
      modifies `buffers, `kernels, `trace
      ensures Valid() && kernels.Keys == old(kernels.Keys) && Loosened(old(buffers), fd) && Frank(old(trace))
      ensures status.Ok? ==> Swept(buffers, fd, objects, |objects|)
      ensures OnlyNeeded(old(buffers), buffers, fd, objects)
      ensures !status.Ok? && (forall i :: 0 <= i < |objects| ==> (fd, objects[i].handle) in buffers) ==>
              Failed(old(trace))
      ensures OnlyMoves(old(trace))
    {
      hide Valid, Willing, Clear;
      for i := 0 to |objects|
        invariant Valid() && kernels.Keys == old(kernels.Keys) && Loosened(old(buffers), fd) && Frank(old(trace))
        invariant OnlyMoves(old(trace))
        invariant Swept(buffers, fd, objects, i) && OnlyNeeded(old(buffers), buffers, fd, objects)
      {
        var o := objects[i];
        if (fd, o.handle) !in buffers {
          return BadValue;
        }
        var bo := buffers[(fd, o.handle)];
        if bo.address == o.offset {
          if bo.address != 0 {
            BoundHere(fd, o.handle);
          }
        } else {
          ghost var before := buffers;
          status := EvictFor(fd, o.handle, o.offset, bo.size);
          NeededMore(old(buffers), before, fd, objects, i);
          if !status.Ok? {
            return;
          }
          forall j | 0 <= j < i
            ensures SweptFor(buffers, fd, objects[j])
          {
            assert (fd, objects[j].handle) in before;
            LooserClear(before, fd, objects[j].handle, objects[j].offset);
          }
        }
      }
      status := Ok;
    }

    /** What a sweep for an object takes out was in its way. */
    lemma NeededMore(old_: Records, before: Records, fd: nat, objects: seq<Object>, i: nat)
      requires i < |objects| && OnlyNeeded(old_, before, fd, objects) && (fd, objects[i].handle) in old_
      requires before.Keys == old_.Keys && Loosened(before, fd)
      requires forall k :: k in before ==> before[k] == old_[k] || before[k] == old_[k].(address := 0)
      requires forall k :: k in buffers && buffers[k] != before[k] ==>
                 && objects[i].offset < before[k].address + before[k].size
                 && before[k].address < objects[i].offset + before[(fd, objects[i].handle)].size
      ensures OnlyNeeded(old_, buffers, fd, objects)
    {
      forall k | k in buffers && buffers[k].address != old_[k].address
        ensures InTheWay(old_, fd, objects, k) || IsNamed(fd, objects, k)
      {
        if before[k].address == old_[k].address {
          assert Meets(old_, fd, objects[i], k);
        }
      }
    }

    lemma LooserClear(before: Records, fd: nat, handle: nat, address: nat)
      requires Loosened(before, fd) && (fd, handle) in before
      ensures buffers[(fd, handle)].size == before[(fd, handle)].size
      ensures Clear(before, fd, handle, address, before[(fd, handle)].size) ==>
                Clear(buffers, fd, handle, address, before[(fd, handle)].size)
    {}

    /** Only addresses differ. */
    ghost predicate Moved(before: Records)
      reads `buffers
    {
      buffers.Keys == before.Keys && forall k :: k in buffers ==>
        buffers[k] == before[k].(address := buffers[k].address)
    }

    /** Only the objects' own bindings have moved. */
    ghost predicate OnlyObjects(before: Records, fd: nat, objects: seq<Object>)
      reads `buffers
    {
      forall k :: k in buffers && k in before && buffers[k].address != before[k].address ==> IsNamed(fd, objects, k)
    }

    /** The second loop: every object to its place. */
    method BindAll(fd: nat, objects: seq<Object>) returns (status: Status)
      requires Valid() && Swept(buffers, fd, objects, |objects|)
      modifies `buffers, `kernels, `trace
      ensures Valid() && kernels.Keys == old(kernels.Keys) && Moved(old(buffers)) && old(trace) <= trace
      ensures status.Ok? ==> Settled(buffers, fd, objects, |objects|)
      ensures Layout(old(buffers), fd, objects) ==> Frank(old(trace)) && (!status.Ok? ==> Failed(old(trace)))
      ensures OnlyMoves(old(trace)) && OnlyObjects(old(buffers), fd, objects)
    {
      hide Valid, Willing, Clear, Layout, Frank;
      NothingAsked();
      for i := 0 to |objects|
        invariant Valid() && kernels.Keys == old(kernels.Keys) && Moved(old(buffers)) && old(trace) <= trace
        invariant Settled(buffers, fd, objects, i) && OnlyMoves(old(trace)) && OnlyObjects(old(buffers), fd, objects)
        invariant Layout(old(buffers), fd, objects) ==> Frank(old(trace)) && Swept(buffers, fd, objects, |objects|)
      {
        status := Place(fd, objects, i, old(buffers), old(trace));
        if !status.Ok? {
          return;
        }
      }
      status := Ok;
    }

    lemma NothingAsked()
      ensures Frank(trace) && OnlyMoves(trace)
    {}

    lemma Onward(before: seq<Answer>, asked: seq<Answer>)
      requires FrankIn(before, asked)
      ensures Failed(asked) ==> Failed(before)
    {}

    /** Unbind a buffer, if it is bound, and bind it where it is to be. */
    method MoveTo(fd: nat, handle: nat, offset: uint64) returns (status: Status)
      requires Valid() && (fd, handle) in buffers
      modifies `buffers, `kernels, `trace
      ensures Valid() && kernels.Keys == old(kernels.Keys) && (fd, handle) in old(buffers)
      ensures var r := old(buffers)[(fd, handle)];
              && (status.Ok? ==> buffers == old(buffers)[(fd, handle) := r.(address := offset)])
              && (!status.Ok? ==> buffers == old(buffers) || buffers == old(buffers)[(fd, handle) := r.(address := 0)])
      ensures old(trace) <= trace && (!status.Ok? ==> Failed(old(trace)))
      ensures var r := old(buffers)[(fd, handle)];
              !r.purged && Clear(old(buffers), fd, handle, offset, r.size) && Bindable(offset, r.size) ==>
                Frank(old(trace))
      ensures OnlyMoves(old(trace))
    {
      hide Valid, Willing;
      ghost var before := buffers;
      if buffers[(fd, handle)].address != 0 {
        BoundHere(fd, handle);
        status := Unbind(fd, handle);
        if !status.Ok? {
          return;
        }
      }
      status := Bind(fd, handle, offset);
    }

    /** One object to its place. */
    method Place(fd: nat, objects: seq<Object>, i: nat, ghost before: Records, ghost asked: seq<Answer>)
      returns (status: Status)
      requires Valid() && Moved(before) && asked <= trace && i < |objects| && (fd, objects[i].handle) in buffers
      requires Settled(buffers, fd, objects, i)
      requires Layout(before, fd, objects) ==> Frank(asked) && Swept(buffers, fd, objects, |objects|)
      modifies `buffers, `kernels, `trace
      ensures Valid() && kernels.Keys == old(kernels.Keys) && Moved(before) && asked <= trace
      ensures status.Ok? ==> Settled(buffers, fd, objects, i + 1)
      ensures Layout(before, fd, objects) ==> Frank(asked) && (!status.Ok? ==> Failed(asked))
      ensures Layout(before, fd, objects) && status.Ok? ==> Swept(buffers, fd, objects, |objects|)
      ensures OnlyMoves(old(trace)) && (old(OnlyObjects(before, fd, objects)) ==> OnlyObjects(before, fd, objects))
    {
      hide Valid, Willing, Clear, Layout, Swept, Settled;
      ghost var was := buffers;
      var o := objects[i];
      if o.relocations != 0 {
        NotALayout(before, fd, objects, i);
        return BadValue;
      }
      if Layout(before, fd, objects) {
        ReadyToBind(before, fd, objects, i);
      }
      if buffers[(fd, o.handle)].address != o.offset {
        status := MoveTo(fd, o.handle, o.offset);
        if !status.Ok? {
          return;
        }
      }
      SettledMore(was, fd, objects, i);
      if Layout(before, fd, objects) {
        StillSwept(before, was, fd, objects, i);
      }
      status := Ok;
    }

    lemma NotALayout(before: Records, fd: nat, objects: seq<Object>, i: nat)
      requires i < |objects| && objects[i].relocations != 0
      ensures !Layout(before, fd, objects)
    {
      assert !Placeable(before, fd, objects[i]);
    }

    lemma ReadyToBind(before: Records, fd: nat, objects: seq<Object>, i: nat)
      requires Layout(before, fd, objects) && Moved(before) && Swept(buffers, fd, objects, |objects|) && i < |objects|
      ensures var o := objects[i];
              && (fd, o.handle) in buffers && !buffers[(fd, o.handle)].purged
              && Clear(buffers, fd, o.handle, o.offset, buffers[(fd, o.handle)].size)
              && Bindable(o.offset, buffers[(fd, o.handle)].size)
    {
      hide Clear;
      assert Placeable(before, fd, objects[i]) && SweptFor(buffers, fd, objects[i]);
    }

    /** With one more object in its place the earlier ones still are. */
    lemma SettledMore(was: Records, fd: nat, objects: seq<Object>, i: nat)
      requires i < |objects| && (fd, objects[i].handle) in was && objects[i].relocations == 0
      requires buffers == was[(fd, objects[i].handle) := was[(fd, objects[i].handle)].(address := objects[i].offset)]
      requires Settled(was, fd, objects, i)
      ensures Settled(buffers, fd, objects, i + 1)
    {
      forall j | 0 <= j < i + 1 && !NamedAgain(objects, j, i + 1)
        ensures SettledAt(buffers, fd, objects[j])
      {
        if j < i {
          assert objects[i].handle != objects[j].handle;
          assert !NamedAgain(objects, j, i) && SettledAt(was, fd, objects[j]);
        }
      }
    }

    /** In a layout, an object in its place is in nobody's way. */
    lemma StillSwept(before: Records, was: Records, fd: nat, objects: seq<Object>, i: nat)
      requires Layout(before, fd, objects) && Moved(before) && i < |objects| && was.Keys == before.Keys
      requires (fd, objects[i].handle) in was
      requires buffers == was[(fd, objects[i].handle) := was[(fd, objects[i].handle)].(address := objects[i].offset)]
      requires Swept(was, fd, objects, |objects|)
      ensures Swept(buffers, fd, objects, |objects|)
    {
      forall j | 0 <= j < |objects|
        ensures SweptFor(buffers, fd, objects[j])
      {
        assert SweptFor(was, fd, objects[j]);
        if j != i {
          assert Disjoint(before, fd, objects[i], objects[j]);
        }
      }
    }

    /** The object a submission's batch is in. */
    function BatchOf(objects: seq<Object>, first: bool): nat
      requires objects != []
    {
      objects[if first then 0 else |objects| - 1].handle
    }

    /** What the adapter itself demands of a submission's batch. */
    predicate HasBatch(fd: nat, objects: seq<Object>, first: bool, start: uint64, length: uint64)
      reads `buffers
    {
      && 0 < |objects| <= MAX_BUFFERS && (fd, BatchOf(objects, first)) in buffers
      && var size := buffers[(fd, BatchOf(objects, first))].size;
         start < size && length <= size - start
    }

    /** The one submission a call may end in: the batch is in the first object or
        the last, as the caller says, from where it says on, for as long as it
        says or to the end of that object. */
    predicate Asks(op: Op, objects: seq<Object>, first: bool, start: uint64, length: uint64, size: uint64,
                   context: nat) {
      && op.SubmitObjects? && objects != [] && op.context == context && op.flags == 0 && op.fence == 0
      && op.batch == (if first then objects[0].handle else objects[|objects| - 1].handle)
      && op.offset == start && op.length == (if length != 0 then length else size - start)
      && op.count == |objects| == |op.handles| && forall i :: 0 <= i < |objects| ==> op.handles[i] == objects[i].handle
    }

    /** The address the kernel has a submission's batch run at. */
    function RunsAt(s: Client, op: Op): nat
      requires op.SubmitObjects?
    {
      var i := SlotOf(s.slots, op.batch);
      if i < |s.slots| then s.slots[i].value.virt + op.offset else 0
    }

    /** DRM_IOCTL_I915_GEM_EXECBUFFER2, from the batch on: make way, bind, submit.
        Asked for a layout, none of the binds and unbinds fails unless something
        outside makes it - the kernel never finds one of its bindings in the way.
        And it only succeeds for a layout, with every object bound where it was
        asked for, here and in the kernel, and every page of it in its place. */
    method Execbuffer(fd: nat, objects: seq<Object>, batchFirst: bool, start: uint64, length: uint64, context: nat)
      returns (status: Status)
      requires Valid()
      modifies `buffers, `kernels, `trace
      ensures Valid() && kernels.Keys == old(kernels.Keys) && Moved(old(buffers)) && old(trace) <= trace
      ensures !old(HasBatch(fd, objects, batchFirst, start, length)) ==> status == BadValue && buffers == old(buffers)
      ensures Layout(old(buffers), fd, objects) ==>
        forall i :: |old(trace)| <= i < |trace| && !trace[i].op.SubmitObjects? ==>
          (trace[i].status.Ok? <==> Willing(trace[i]))
      ensures Layout(old(buffers), fd, objects) && !status.Ok? ==>
        old(HasBatch(fd, objects, batchFirst, start, length)) ==> Failed(old(trace))
      ensures status.Ok? ==>
        && Layout(old(buffers), fd, objects) && fd in kernels
        && forall i :: 0 <= i < |objects| ==> Home(buffers, fd, kernels[fd], objects[i])
      // Nothing is submitted but what was asked for, and that once everything is
      // in place; it runs where the caller wants the batch.
      ensures forall i :: |old(trace)| <= i < |trace| && trace[i].op.SubmitObjects? ==>
        && i == |trace| - 1 && objects != []
        && var handle := if batchFirst then objects[0].handle else objects[|objects| - 1].handle;
           && (fd, handle) in old(buffers)
           && Asks(trace[i].op, objects, batchFirst, start, length, old(buffers)[(fd, handle)].size, context)
      ensures status.Ok? ==>
        && |old(trace)| < |trace| && trace[|trace| - 1].op.SubmitObjects? && trace[|trace| - 1].status.Ok?
        && RunsAt(trace[|trace| - 1].before, trace[|trace| - 1].op)
           == (if batchFirst then objects[0].offset else objects[|objects| - 1].offset) + start
      ensures Bounded(old(buffers)) ==> Bounded(buffers)
      ensures OnlyNeeded(old(buffers), buffers, fd, objects)
    {
      hide Valid, Willing, Clear, Layout, Swept, Settled, Frank, Home, Bounded, Cache, Cached, InTheWay, IsNamed;
      if objects == [] || |objects| > MAX_BUFFERS {
        return BadValue;
      }
      var handle := BatchOf(objects, batchFirst);
      if (fd, handle) !in buffers || start >= buffers[(fd, handle)].size
         || length > buffers[(fd, handle)].size - start {
        return BadValue;
      }
      var size := if length != 0 then length else buffers[(fd, handle)].size - start;
      status := Arrange(fd, objects);
      FewerCached(old(buffers), buffers);
      if !status.Ok? {
        FrankMeans(old(trace));
        return;
      }
      FrankMeans(old(trace));
      HasClient(fd, handle);
      status := SubmitArranged(fd, objects,
        SubmitObjects(context, handle, start, size, 0, |objects|, 0, Handles(objects)));
      SameLayout(old(buffers), buffers, fd, objects);
    }

    lemma FrankMeans(before: seq<Answer>)
      ensures Frank(before) ==> forall i :: |before| <= i < |trace| ==> (trace[i].status.Ok? <==> Willing(trace[i]))
    {}

    lemma HasClient(fd: nat, handle: nat)
      requires Valid() && (fd, handle) in buffers
      ensures fd in kernels
    {}

    /** Both loops. */
    method Arrange(fd: nat, objects: seq<Object>) returns (status: Status)
      requires Valid()
      modifies `buffers, `kernels, `trace
      ensures Valid() && kernels.Keys == old(kernels.Keys) && Moved(old(buffers)) && old(trace) <= trace
      ensures status.Ok? ==> Settled(buffers, fd, objects, |objects|)
      ensures Layout(old(buffers), fd, objects) ==> Frank(old(trace)) && (!status.Ok? ==> Failed(old(trace)))
      ensures OnlyMoves(old(trace)) && OnlyNeeded(old(buffers), buffers, fd, objects)
    {
      hide Valid, Willing, Clear, Layout, Swept, Settled, InTheWay, IsNamed;
      status := EvictAll(fd, objects);
      SameLayout(old(buffers), buffers, fd, objects);
      if !status.Ok? {
        AllThere(old(buffers), fd, objects);
        return;
      }
      status := BindAll(fd, objects);
    }

    /** The submission itself, once everything is in place. */
    method SubmitArranged(fd: nat, objects: seq<Object>, op: Op) returns (status: Status)
      requires Valid() && fd in kernels && Settled(buffers, fd, objects, |objects|)
      requires op.SubmitObjects? && op.count == |objects| && op.handles == Handles(objects)
      modifies `kernels, `trace
      ensures Valid() && kernels.Keys == old(kernels.Keys)
      ensures |trace| == |old(trace)| + 1 && trace[..|old(trace)|] == old(trace)
      ensures trace[|old(trace)|].op == op && trace[|old(trace)|].status == status
      ensures trace[|old(trace)|].before == old(kernels)[fd]
      ensures status.Ok? ==> forall i :: 0 <= i < |objects| && objects[i].handle == op.batch ==>
        RunsAt(old(kernels)[fd], op) == objects[i].offset + op.offset
      ensures status.Ok? ==>
        && Layout(buffers, fd, objects)
        && forall i :: 0 <= i < |objects| ==> Home(buffers, fd, kernels[fd], objects[i])
    {
      hide Inv, Agrees, Step, Honest, Stamped, Settled, Layout, Resolves, Home;
      ghost var s := kernels[fd];
      ghost var o;
      status, o := Call(fd, op);
      KernelSubmit(s, op, o);
      if status.Ok? {
        assert op.handles[..op.count] == op.handles;
        EverythingHome(buffers, fd, kernels[fd], objects);
        forall i | 0 <= i < |objects| && objects[i].handle == op.batch
          ensures RunsAt(s, op) == objects[i].offset + op.offset
        {
          AtHome(buffers, fd, kernels[fd], objects[i]);
        }
      }
    }
  }

  /** A layout stays one wherever its buffers are bound at present. */
  lemma SameLayout(before: Records, after: Records, fd: nat, objects: seq<Object>)
    requires after.Keys == before.Keys
    requires forall k :: k in after ==> after[k] == before[k].(address := after[k].address)
    ensures Layout(before, fd, objects) <==> Layout(after, fd, objects)
  {
    forall i | 0 <= i < |objects|
      ensures Placeable(before, fd, objects[i]) <==> Placeable(after, fd, objects[i])
    {}
    forall i, j | 0 <= i < |objects| && 0 <= j < |objects|
      ensures Disjoint(before, fd, objects[i], objects[j]) <==> Disjoint(after, fd, objects[i], objects[j])
    {}
  }

  lemma AllThere(buffers: Records, fd: nat, objects: seq<Object>)
    ensures Layout(buffers, fd, objects) ==> forall i :: 0 <= i < |objects| ==> (fd, objects[i].handle) in buffers
  {
    if Layout(buffers, fd, objects) {
      forall i | 0 <= i < |objects|
        ensures (fd, objects[i].handle) in buffers
      {
        assert Placeable(buffers, fd, objects[i]);
      }
    }
  }

  /** When the kernel finds every buffer of a submission bound, and none named
      twice, they are all where they were asked to be, and that was a layout. */
  lemma EverythingHome(buffers: Records, fd: nat, s: Client, objects: seq<Object>)
    requires Inv(s) && Agrees(buffers, fd, s.slots)
    requires Settled(buffers, fd, objects, |objects|) && Resolves(s.slots, Handles(objects))
    ensures Layout(buffers, fd, objects)
    ensures forall i :: 0 <= i < |objects| ==> Home(buffers, fd, s, objects[i])
  {
    hide Inv, Agrees, Walks, Clear;
    var handles := Handles(objects);
    forall i | 0 <= i < |objects|
      ensures Placeable(buffers, fd, objects[i]) && Home(buffers, fd, s, objects[i])
      ensures Clear(buffers, fd, objects[i].handle, objects[i].offset, buffers[(fd, objects[i].handle)].size)
              && objects[i].offset != 0
    {
      NamedOnce(s.slots, objects, i);
      assert SettledAt(buffers, fd, objects[i]);
      assert handles[i] == objects[i].handle;
      RecordOf(buffers, fd, s, objects[i].handle);
      BindingsApart(buffers, fd, s, objects[i].handle);
      BoundWalks(buffers, fd, s, objects[i].handle);
    }
    forall i, j | 0 <= i < |objects| && 0 <= j < |objects| && i != j
      ensures Disjoint(buffers, fd, objects[i], objects[j])
    {
      assert Placeable(buffers, fd, objects[i]) && Placeable(buffers, fd, objects[j]);
      assert handles[i] != handles[j];
      ClearOf(buffers, fd, objects[i].handle, objects[j].handle, objects[i].offset);
    }
  }

  lemma AtHome(buffers: Records, fd: nat, s: Client, o: Object)
    requires Home(buffers, fd, s, o)
    ensures SlotOf(s.slots, o.handle) < |s.slots| && s.slots[SlotOf(s.slots, o.handle)].value.virt == o.offset
  {}

  lemma NamedOnce(slots: Slots, objects: seq<Object>, i: nat)
    requires i < |objects| && Resolves(slots, Handles(objects))
    ensures !NamedAgain(objects, i, |objects|)
  {
    forall k | i < k < |objects|
      ensures objects[k].handle != objects[i].handle
    {
      assert Handles(objects)[k] != Handles(objects)[i];
    }
  }

  lemma RecordOf(buffers: Records, fd: nat, s: Client, h: nat)
    requires Inv(s) && Agrees(buffers, fd, s.slots) && SlotOf(s.slots, h) < |s.slots|
    requires s.slots[SlotOf(s.slots, h)].value.virt != 0
    ensures (fd, h) in buffers && buffers[(fd, h)].address != 0
  {
    assert Recorded(buffers, fd, s.slots[SlotOf(s.slots, h)].value);
  }

  lemma ClearOf(buffers: Records, fd: nat, h: nat, k: nat, address: nat)
    requires (fd, h) in buffers && (fd, k) in buffers && h != k && buffers[(fd, k)].address != 0
    requires Clear(buffers, fd, h, address, buffers[(fd, h)].size)
    ensures address + buffers[(fd, h)].size <= buffers[(fd, k)].address
         || buffers[(fd, k)].address + buffers[(fd, k)].size <= address
  {
    assert (fd, k) in buffers && (fd, k).0 == fd && (fd, k).1 != h;
  }

  lemma NoneClosed(buffers: Records, fd: nat)
    ensures OldestFirst(buffers, fd, []) && AllPurged(buffers, fd, []) == buffers && Sizes(buffers, fd, []) == 0
  {}

  lemma StampedSame(buffers: Records, more: Records, clock: nat)
    requires Stamped(buffers, clock) && more.Keys == buffers.Keys
    requires forall k :: k in more ==> more[k].purgeable == buffers[k].purgeable && more[k].stamp == buffers[k].stamp
    ensures Stamped(more, clock)
  {}

  lemma StampedNew(buffers: Records, k: (nat, nat), r: Record, clock: nat)
    requires Stamped(buffers, clock) && !r.purgeable
    ensures Stamped(buffers[k := r], clock)
  {}

  lemma StampedFewer(buffers: Records, k: (nat, nat), clock: nat)
    requires Stamped(buffers, clock)
    ensures Stamped(buffers - {k}, clock)
  {}

  /** Whether a record is purgeable, and since when, is the winsys's own affair. */
  lemma AgreesSame(buffers: Records, more: Records, fd: nat, slots: Slots)
    requires Agrees(buffers, fd, slots) && more.Keys == buffers.Keys
    requires forall k :: k in more ==>
               more[k] == buffers[k].(purgeable := more[k].purgeable, stamp := more[k].stamp)
    ensures Agrees(more, fd, slots)
  {
    forall i | 0 <= i < |slots| && slots[i].Some?
      ensures Recorded(more, fd, slots[i].value)
    {
      assert Recorded(buffers, fd, slots[i].value);
    }
  }

  lemma ForgetPurged(buffers: Records, fd: nat, handle: nat, slots: Slots)
    requires Agrees(buffers, fd, slots) && (fd, handle) in buffers && buffers[(fd, handle)].purged
    ensures Agrees(buffers - {(fd, handle)}, fd, slots)
  {
    forall i | 0 <= i < |slots| && slots[i].Some?
      ensures Recorded(buffers - {(fd, handle)}, fd, slots[i].value)
    {
      assert Recorded(buffers, fd, slots[i].value);
    }
  }

  lemma OldestPrefix(buffers: Records, fd: nat, closed: seq<nat>, n: nat)
    requires OldestFirst(buffers, fd, closed) && n <= |closed|
    ensures OldestFirst(buffers, fd, closed[..n])
  {
    hide Cached;
    forall i | 0 <= i < n
      ensures OldestAt(buffers, fd, closed[..n], i)
    {
      assert OldestAt(buffers, fd, closed, i) && closed[..n][..i] == closed[..i];
    }
  }

  /** Every buffer given back makes the cache smaller by one. */
  lemma {:induction false} CacheSize(buffers: Records, fd: nat, closed: seq<nat>)
    requires OldestFirst(buffers, fd, closed)
    ensures |Cache(AllPurged(buffers, fd, closed), fd)| == |Cache(buffers, fd)| - |closed|
  {
    hide OldestFirst, Cached, Cache, AllPurged;
    if closed == [] {
      NoneClosed(buffers, fd);
    } else {
      var n := |closed| - 1;
      var handle, rest := closed[n], closed[..n];
      OldestPrefix(buffers, fd, closed, n);
      CacheSize(buffers, fd, rest);
      LastCached(buffers, fd, closed);
      StillCached(buffers, fd, rest);
      PurgedMore(buffers, fd, rest, handle);
      OneFewer(AllPurged(buffers, fd, rest), fd, handle);
      assert rest + [handle] == closed;
    }
  }

  lemma LastCached(buffers: Records, fd: nat, closed: seq<nat>)
    requires OldestFirst(buffers, fd, closed) && closed != []
    ensures Cached(buffers, (fd, closed[|closed| - 1]), fd) && (fd, closed[|closed| - 1]) in buffers
    ensures closed[|closed| - 1] !in closed[..|closed| - 1]
  {
    assert OldestAt(buffers, fd, closed, |closed| - 1);
  }

  /** The newest buffer of the cache is given back only with all the others. */
  lemma Newest(buffers: Records, fd: nat, handle: nat, closed: seq<nat>)
    requires OldestFirst(buffers, fd, closed) && Cached(buffers, (fd, handle), fd)
    requires forall k :: k in buffers && k != (fd, handle) && buffers[k].purgeable ==>
             buffers[k].stamp < buffers[(fd, handle)].stamp
    requires |closed| < |Cache(buffers, fd)|
    ensures handle !in closed && Cached(AllPurged(buffers, fd, closed), (fd, handle), fd)
  {
    if i :| 0 <= i < |closed| && closed[i] == handle {
      assert OldestAt(buffers, fd, closed, i);
      OldestPrefix(buffers, fd, closed, i);
      CacheSize(buffers, fd, closed[..i]);
      StillCached(buffers, fd, closed[..i]);
      var rest := Cache(AllPurged(buffers, fd, closed[..i]), fd);
      forall k | k in rest
        ensures k == (fd, handle)
      {
        assert Cached(buffers, k, fd) && k.1 !in closed[..i];
      }
      assert rest <= {(fd, handle)};
      AtMostOne(rest, (fd, handle));
    }
    StillCached(buffers, fd, closed);
  }

  lemma SomeCached(buffers: Records, fd: nat, handle: nat)
    requires Cached(buffers, (fd, handle), fd)
    ensures |Cache(buffers, fd)| >= 1
  {
    assert (fd, handle) in Cache(buffers, fd);
  }

  lemma AtMostOne(a: set<(nat, nat)>, k: (nat, nat))
    requires a <= {k}
    ensures |a| <= 1
  {
    if k in a {
      assert a == {k};
    } else {
      assert a == {};
    }
  }

  /** What is cached after some have been given back was cached before, and is
      none of those. */
  lemma StillCached(buffers: Records, fd: nat, closed: seq<nat>)
    ensures forall k :: Cached(AllPurged(buffers, fd, closed), k, fd) <==> Cached(buffers, k, fd) && k.1 !in closed
  {}

  lemma PurgedMore(buffers: Records, fd: nat, closed: seq<nat>, handle: nat)
    requires (fd, handle) in buffers && handle !in closed
    ensures (fd, handle) in AllPurged(buffers, fd, closed)
    ensures AllPurged(buffers, fd, closed)[(fd, handle)] == buffers[(fd, handle)]
    ensures AllPurged(buffers, fd, closed + [handle])
         == AllPurged(buffers, fd, closed)[(fd, handle) := Purged(buffers[(fd, handle)])]
  {}

  /** Giving back the oldest of what is left. */
  lemma OneMore(buffers: Records, fd: nat, closed: seq<nat>, handle: nat)
    requires OldestFirst(buffers, fd, closed)
    requires var now := AllPurged(buffers, fd, closed);
             && Cached(now, (fd, handle), fd)
             && forall k: (nat, nat) :: Cached(now, k, fd) ==> now[(fd, handle)].stamp <= now[k].stamp
    ensures (fd, handle) in AllPurged(buffers, fd, closed) && OldestFirst(buffers, fd, closed + [handle])
    ensures AllPurged(buffers, fd, closed + [handle]) ==
            AllPurged(buffers, fd, closed)[(fd, handle) := Purged(AllPurged(buffers, fd, closed)[(fd, handle)])]
    ensures Sizes(buffers, fd, closed + [handle]) ==
            Sizes(buffers, fd, closed) + AllPurged(buffers, fd, closed)[(fd, handle)].size
    ensures (closed + [handle])[..|closed|] == closed
  {
    var now, all := AllPurged(buffers, fd, closed), closed + [handle];
    StillCached(buffers, fd, closed);
    PurgedMore(buffers, fd, closed, handle);
    assert all[..|closed|] == closed && all[|closed|] == handle;
    OldestMore(buffers, fd, closed, handle);
  }

  lemma OldestMore(buffers: Records, fd: nat, closed: seq<nat>, handle: nat)
    requires OldestFirst(buffers, fd, closed) && Cached(buffers, (fd, handle), fd) && handle !in closed
    requires var now := AllPurged(buffers, fd, closed);
             && (fd, handle) in now
             && forall k: (nat, nat) :: Cached(now, k, fd) ==> now[(fd, handle)].stamp <= now[k].stamp
    ensures OldestFirst(buffers, fd, closed + [handle])
  {
    hide Cached;
    var now, all := AllPurged(buffers, fd, closed), closed + [handle];
    StillCached(buffers, fd, closed);
    forall i | 0 <= i < |all|
      ensures OldestAt(buffers, fd, all, i)
    {
      if i < |closed| {
        assert OldestAt(buffers, fd, closed, i) && all[..i] == closed[..i];
      } else {
        assert all[..i] == closed;
        forall k: (nat, nat) | Cached(buffers, k, fd) && k.1 !in closed
          ensures k in buffers && (fd, handle) in buffers && buffers[(fd, handle)].stamp <= buffers[k].stamp
        {
          assert Cached(now, k, fd);
          CachedIn(buffers, k, fd);
          CachedIn(buffers, (fd, handle), fd);
        }
      }
    }
  }

  /** Whatever makes no buffer purgeable leaves no cache larger than it was. */
  lemma FewerCached(before: Records, after: Records)
    requires forall k :: k in after && after[k].purgeable && !after[k].purged ==>
               k in before && before[k].purgeable && !before[k].purged
    ensures Bounded(before) ==> Bounded(after)
  {
    forall d
      ensures |Cache(after, d)| <= |Cache(before, d)|
    {
      assert Cache(after, d) <= Cache(before, d);
      FewerIn(Cache(after, d), Cache(before, d));
    }
  }

  lemma {:induction false} FewerIn(a: set<(nat, nat)>, b: set<(nat, nat)>)
    requires a <= b
    ensures |a| <= |b|
  {
    if a != {} {
      var k :| k in a;
      FewerIn(a - {k}, b - {k});
    }
  }

  lemma PurgedBounded(buffers: Records, fd: nat, closed: seq<nat>)
    ensures Bounded(buffers) ==> Bounded(AllPurged(buffers, fd, closed))
  {
    hide Bounded;
    FewerCached(buffers, AllPurged(buffers, fd, closed));
  }

  /** A buffer given up only counts against its own process. */
  lemma MarkedBounded(before: Records, now: Records, fd: nat, handle: nat, closed: seq<nat>)
    requires (fd, handle) in now && forall k :: k in now && k != (fd, handle) ==> k in before && now[k] == before[k]
    ensures Bounded(before) && |Cache(AllPurged(now, fd, closed), fd)| <= 64 ==>
              Bounded(AllPurged(now, fd, closed))
  {
    var after := AllPurged(now, fd, closed);
    forall d | d != fd
      ensures |Cache(after, d)| <= |Cache(before, d)|
    {
      assert Cache(after, d) <= Cache(before, d);
      FewerIn(Cache(after, d), Cache(before, d));
    }
  }

  lemma CachedIn(buffers: Records, k: (nat, nat), fd: nat)
    requires Cached(buffers, k, fd)
    ensures k in buffers && k.0 == fd
  {}

  lemma OneFewer(buffers: Records, fd: nat, handle: nat)
    requires Cached(buffers, (fd, handle), fd)
    ensures |Cache(buffers[(fd, handle) := Purged(buffers[(fd, handle)])], fd)| == |Cache(buffers, fd)| - 1
  {
    var more := buffers[(fd, handle) := Purged(buffers[(fd, handle)])];
    assert Cache(more, fd) == Cache(buffers, fd) - {(fd, handle)};
  }
}
