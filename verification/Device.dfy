/** kernel/device.cpp: everybody who has the device open. The clients share the
    global table and the engine and have everything else to themselves; one
    client's ioctl, opening or closing leaves every other one valid and as it
    was, so what is proved of a client alone holds of it among any others. */
module Devices {
  import opened Machine
  import opened ClientModel
  import opened ClientSafety
  import opened Clients
  import R = ClientRuns
  import opened Buffers
  import G = Gtt
  import E = Engine

  class Device {
    const fGTT: G.GlobalGTT?
    const fScheduler: E.Scheduler
    var fClients: set<RenderClient>

    ghost function Common(): set<object>
      reads fGTT
    {
      if fGTT == null then {this, fScheduler}
      else
        var gtt: G.GlobalGTT := fGTT;
        {this, fScheduler, gtt, gtt.fEntries, gtt.fUsed}
    }

    /** Apart from what they all share, two clients have nothing in common: no
        object of the driver and no page of memory. */
    ghost predicate Apart(a: RenderClient, b: RenderClient)
      reads *
    {
      a.Objects() !! b.Objects() && R.BufferMemory(a.model.slots) !! R.BufferMemory(b.model.slots)
    }

    ghost predicate Member(c: RenderClient)
      reads *
    {
      c.Valid() && c.fGTT == fGTT && c.fScheduler == fScheduler && c.Objects() !! Common()
    }

    /** What they share is in order. */
    ghost predicate Working()
      reads fScheduler, fGTT, if fGTT != null then {fGTT.fEntries, fGTT.fUsed} else {}
    {
      (fGTT != null ==> fGTT.Consistent()) && (!fScheduler.fFaulted ==> fScheduler.Idle())
    }

    /** Clients that are each in order and have nothing in common. */
    ghost predicate Crowd(clients: set<RenderClient>)
      reads *
    {
      && (forall c :: c in clients ==> Member(c))
      && (forall a, b :: a in clients && b in clients && a != b ==> Apart(a, b))
    }

    ghost predicate Valid()
      reads *
    {
      Working() && Crowd(fClients)
    }

    constructor (gtt: G.GlobalGTT?, scheduler: E.Scheduler)
      requires gtt != null ==> gtt.Consistent()
      requires !scheduler.fFaulted ==> scheduler.Idle()
      ensures Valid() && fClients == {}
    {
      fGTT, fScheduler, fClients := gtt, scheduler, {};
    }

    // ------------------------------------------------------ the others

    lemma Known(clients: set<RenderClient>)
      requires Crowd(clients)
      ensures forall c :: c in clients ==> c.Objects() !! Common() && c.fGTT == fGTT && c.fScheduler == fScheduler
      ensures forall c, x :: c in clients && x in c.Objects() ==> allocated(x)
      ensures forall c :: c in clients ==> c.Valid()
    {}

    lemma Without(clients: set<RenderClient>, client: RenderClient)
      requires Crowd(clients) && client in clients
      ensures Crowd(clients - {client}) && client.Valid()
      ensures forall c :: c in clients && c != client ==>
                c.Objects() !! client.Objects() && R.BufferMemory(client.model.slots) !! R.BufferMemory(c.model.slots)
    {
      hide RenderClient.Valid, RenderClient.Objects, R.BufferMemory, Common;
      forall c | c in clients && c != client
        ensures Apart(c, client)
      {}
    }

    lemma Including(clients: set<RenderClient>, client: RenderClient)
      requires Crowd(clients) && client.Valid() && client.fGTT == fGTT && client.fScheduler == fScheduler
      requires client.Objects() !! Common()
      requires forall c :: c in clients ==>
                 c.Objects() !! client.Objects() && R.BufferMemory(client.model.slots) !! R.BufferMemory(c.model.slots)
      ensures Crowd(clients + {client})
    {
      hide RenderClient.Valid, RenderClient.Objects, R.BufferMemory, Common;
      assert Member(client);
      forall c | c in clients
        ensures Apart(c, client) && Apart(client, c)
      {}
    }

    /** Clients that are each in order, and as they were, still have nothing in
        common. */
    twostate lemma StillApart(others: set<RenderClient>)
      requires old(Crowd(others)) && forall c :: c in others ==> Member(c)
      requires forall c :: c in others ==> c.model == old(c.model) && c.Objects() == old(c.Objects())
      ensures Crowd(others)
    {
      hide RenderClient.Objects, R.BufferMemory, Member;
      forall a, b | a in others && b in others && a != b
        ensures Apart(a, b)
      {
        assert old(Apart(a, b));
      }
    }

    /** Without buffers there is nothing to be in anybody's way. */
    lemma NothingMoved()
      ensures fGTT != null ==> Undisturbed(fGTT.content, fGTT.content, [])
      ensures R.BufferMemory([]) == {}
    {}

    lemma NoMemory(capable: bool, aperture: bool)
      ensures R.BufferMemory(Opened(capable, aperture).slots) == {}
    {}

    /** What a valid client says of what it shares. */
    lemma Shared(client: RenderClient)
      requires client.Valid() && client.fGTT == fGTT && client.fScheduler == fScheduler
      ensures Working()
    {
      hide G.GlobalGTT.Consistent, Inv;
    }

    /** An ioctl's new memory is nobody else's. */
    lemma NewMemory(s: Client, t: Client, op: Op, o: Outcome, status: Status, taken: set<int>)
      requires (t, status) == Step(s, op, o)
      requires op.CreateBuffer? && status.Ok? ==> forall p :: p in o.pages ==> p !in taken
      ensures R.BufferMemory(t.slots) - R.BufferMemory(s.slots) !! taken
    {
      hide Step, R.BufferMemory;
      R.StepMemory(s, op, o);
      forall p: int | p in R.BufferMemory(t.slots) && p !in R.BufferMemory(s.slots)
        ensures p !in taken
      {
        assert p in o.pages;
      }
    }

    // ------------------------------------------------------ the operations

    /** device_open. */
    method Open(capable: bool) returns (client: RenderClient)
      requires Valid()
      modifies this
      ensures Valid() && fresh(client) && fClients == old(fClients) + {client}
      ensures client.model == Opened(capable, fGTT != null && fGTT.fReady)
      ensures forall c :: c in old(fClients) ==> c.model == old(c.model)
    {
      hide Crowd, RenderClient.Valid, RenderClient.Objects, Undisturbed, R.BufferMemory, G.GlobalGTT.Consistent, Opened;
      Known(fClients);
      client := new RenderClient(fGTT, fScheduler, capable);
      fClients := fClients + {client};
      NothingMoved();
      forall c | c in old(fClients)
        ensures Member(c) && c.model == old(c.model) && c.Objects() == old(c.Objects())
      {
        c.StaysValid([]);
      }
      StillApart(old(fClients));
      NoMemory(capable, fGTT != null && fGTT.fReady);
      Including(old(fClients), client);
    }

    /** device_ioctl, for one of the clients. The memory the others hold is not
        given out again. */
    method Ioctl(client: RenderClient, op: Op, taken: set<int>, w: World) returns (status: Status, ghost o: Outcome)
      requires Valid() && client in fClients
      requires forall c :: c in fClients && c != client ==> R.BufferMemory(c.model.slots) <= taken
      modifies client.Objects(), Common() - {this}
      ensures Valid() && fClients == old(fClients)
      ensures (client.model, status) == Step(old(client.model), op, o) && Honest(old(client.model), op, o)
      ensures forall c :: c in fClients && c != client ==> c.model == old(c.model)
      ensures !old(Faulted(client.model)) ==>
        if IsNative(op) then client.NativeFair(op, o, w) else client.BufferFair(op, o, w, taken)
    {
      hide Crowd, RenderClient.Valid, RenderClient.Objects, Undisturbed, R.BufferMemory, G.GlobalGTT.Consistent,
           Step, Honest, RenderClient.NativeFair, RenderClient.BufferFair;
      ghost var s, others := client.model, fClients - {client};
      Known(fClients);
      Without(fClients, client);
      status, o := client.Ioctl(op, taken, w);
      Shared(client);
      forall c | c in others
        ensures Member(c) && c.model == old(c.model) && c.Objects() == old(c.Objects())
      {
        c.StaysValid(s.slots);
      }
      StillApart(others);
      NewMemory(s, client.model, op, o, status, taken);
      forall c | c in others
        ensures R.BufferMemory(client.model.slots) !! R.BufferMemory(c.model.slots)
      {
        assert old(R.BufferMemory(c.model.slots)) <= taken
               && R.BufferMemory(s.slots) !! old(R.BufferMemory(c.model.slots));
        assert R.BufferMemory(c.model.slots) == old(R.BufferMemory(c.model.slots));
      }
      Including(others, client);
      assert others + {client} == fClients;
    }

    /** device_free: the client's destructor. Its memory is given back, or kept
        for good when the GPU may still be using it; nobody else notices. */
    method Free(client: RenderClient, legacyFault: bool) returns (ghost freed: set<int>)
      requires Valid() && client in fClients
      modifies this, client.Objects(), Common()
      ensures Valid() && fClients == old(fClients) - {client}
      ensures freed == if legacyFault then {} else R.Destroyed(old(client.model))
      ensures forall c :: c in fClients ==> c.model == old(c.model)
    {
      hide Crowd, RenderClient.Valid, RenderClient.Objects, Undisturbed, R.BufferMemory, R.Held, G.GlobalGTT.Consistent;
      Known(fClients);
      Without(fClients, client);
      Owned(client);
      freed := client.Destroy(legacyFault);
      fClients := fClients - {client};
      forall c | c in fClients
        ensures Member(c) && c.model == old(c.model) && c.Objects() == old(c.Objects())
      {
        c.StaysValid(client.model.slots);
      }
      StillApart(fClients);
    }

    lemma Owned(c: RenderClient)
      ensures forall b: BufferObject :: b in c.fBuffers ==> b in c.Objects()
    {}
  }
}
