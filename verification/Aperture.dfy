/** The global table as everyone who shares it sees it: clients binding and
    closing buffers, engines placing their own, in any order. A bind gets the
    lowest free run that is large enough and an unbind gives back the run of one
    earlier bind, which is what GlobalGTT and BufferObject do to the content. */
module Aperture {
  import opened Machine
  import opened Gtt

  /** One bind that has not been undone: who asked, where, and for what memory. */
  datatype Pin = Pin(owner: nat, first: nat, pages: seq<int>)

  /** Pins are told apart by the number of the bind that made them. */
  datatype Table = Table(content: Content, pins: map<nat, Pin>, binds: nat)

  datatype Use = Bind(owner: nat, first: nat, pages: seq<int>) | Unbind(pin: nat)

  ghost predicate Possible(t: Table, use: Use) {
    match use
    case Bind(_, first, pages) => pages != [] && LowestFree(t.content, first, |pages|)
    case Unbind(pin) => pin in t.pins && t.pins[pin].first + |t.pins[pin].pages| <= |t.content|
  }

  function Apply(t: Table, use: Use): Table
    requires Possible(t, use)
  {
    match use
    case Bind(owner, first, pages) =>
      Table(Put(t.content, first, pages), t.pins[t.binds := Pin(owner, first, pages)], t.binds + 1)
    case Unbind(pin) =>
      t.(content := Take(t.content, t.pins[pin].first, |t.pins[pin].pages|), pins := t.pins - {pin})
  }

  function Nothing(count: nat): (c: Content)
    ensures |c| == count && forall i :: 0 <= i < count ==> c[i].None?
  {
    seq(count, _ => None)
  }

  /** What GlobalGTT::Init leaves. */
  function Start(count: nat): Table {
    Table(Nothing(count), map[], 0)
  }

  /** Where a sequence of uses leads, if each is possible when it comes. */
  ghost function Run(t: Table, uses: seq<Use>): Option<Table> {
    if uses == [] then Some(t)
    else
      var before, last := Run(t, uses[..|uses| - 1]), uses[|uses| - 1];
      if before.Some? && Possible(before.value, last) then Some(Apply(before.value, last)) else None
  }

  predicate Separate(a: Pin, b: Pin) {
    a.first + |a.pages| <= b.first || b.first + |b.pages| <= a.first
  }

  predicate Within(pin: Pin, page: nat) {
    pin.first <= page < pin.first + |pin.pages|
  }

  /** Every pin has its pages in its run, no two runs meet, and a page that is in
      no run is free. */
  ghost predicate Inv(t: Table) {
    && (forall p :: p in t.pins ==>
          p < t.binds && t.pins[p].pages != [] && Bound(t.content, t.pins[p].first, t.pins[p].pages))
    && (forall p, q :: p in t.pins && q in t.pins && p != q ==> Separate(t.pins[p], t.pins[q]))
    && (forall page :: 0 <= page < |t.content| && t.content[page].Some? ==>
          exists p :: p in t.pins && Within(t.pins[p], page))
  }

  lemma BindKeeps(t: Table, use: Use)
    requires Inv(t) && use.Bind? && Possible(t, use)
    ensures Inv(Apply(t, use))
  {
    hide Bound, Free;
    var u := Apply(t, use);
    var new_ := u.pins[t.binds];
    forall p | p in t.pins
      ensures Bound(u.content, t.pins[p].first, t.pins[p].pages) && Separate(new_, t.pins[p])
      ensures Bound(u.content, use.first, use.pages)
    {
      PutKeeps(t.content, use.first, use.pages, t.pins[p].first, t.pins[p].pages);
    }
    PutIsBound(t.content, use.first, use.pages);
    forall page | 0 <= page < |u.content| && u.content[page].Some?
      ensures exists p :: p in u.pins && Within(u.pins[p], page)
    {
      if Within(new_, page) {
        assert t.binds in u.pins;
      } else {
        assert t.content[page].Some?;
        var p :| p in t.pins && Within(t.pins[p], page);
        assert u.pins[p] == t.pins[p];
      }
    }
  }

  lemma PutIsBound(c: Content, first: nat, pages: seq<int>)
    requires LowestFree(c, first, |pages|)
    ensures first + |pages| <= |c| && Bound(Put(c, first, pages), first, pages)
  {}

  lemma UnbindKeeps(t: Table, use: Use)
    requires Inv(t) && use.Unbind? && Possible(t, use)
    ensures Inv(Apply(t, use))
  {
    hide Bound, Free;
    var u := Apply(t, use);
    var gone := t.pins[use.pin];
    forall p | p in u.pins
      ensures Bound(u.content, u.pins[p].first, u.pins[p].pages)
    {
      assert Separate(gone, t.pins[p]);
      TakeKeeps(t.content, gone.first, |gone.pages|, t.pins[p].first, t.pins[p].pages);
    }
    forall page | 0 <= page < |u.content| && u.content[page].Some?
      ensures exists p :: p in u.pins && Within(u.pins[p], page)
    {
      var p :| p in t.pins && Within(t.pins[p], page);
      assert p != use.pin && u.pins[p] == t.pins[p];
    }
  }

  /** Whoever binds and unbinds, and in whatever order: each pin's run holds its
      own memory and nothing else is handed out twice. */
  lemma {:induction false} RunsStayApart(count: nat, uses: seq<Use>)
    requires Run(Start(count), uses).Some?
    ensures Inv(Run(Start(count), uses).value) && |Run(Start(count), uses).value.content| == count
  {
    hide Inv, Possible, Apply;
    if uses == [] {
      StartsEmpty(count);
    } else {
      var rest, last := uses[..|uses| - 1], uses[|uses| - 1];
      RunsStayApart(count, rest);
      var t := Run(Start(count), rest).value;
      if last.Bind? {
        BindKeeps(t, last);
      } else {
        UnbindKeeps(t, last);
      }
      SameSize(t, last);
    }
  }

  lemma StartsEmpty(count: nat)
    ensures Inv(Start(count))
  {}

  lemma SameSize(t: Table, use: Use)
    requires Possible(t, use)
    ensures |Apply(t, use).content| == |t.content|
  {}

  /** Nobody but its owner moves a pin: until it is unbound it stays where it is,
      whatever all the others do. */
  lemma {:induction false} OthersStay(count: nat, uses: seq<Use>, more: seq<Use>, pin: nat)
    requires Run(Start(count), uses + more).Some? && Unbind(pin) !in more
    requires Run(Start(count), uses).Some? && pin in Run(Start(count), uses).value.pins
    ensures var before, after := Run(Start(count), uses).value, Run(Start(count), uses + more).value;
            && pin in after.pins && after.pins[pin] == before.pins[pin]
            && Bound(after.content, before.pins[pin].first, before.pins[pin].pages)
    decreases |more|
  {
    hide Inv, Possible, Bound;
    if more == [] {
      assert uses + more == uses;
    } else {
      var rest := more[..|more| - 1];
      assert (uses + more)[..|uses + more| - 1] == uses + rest;
      OthersStay(count, uses, rest, pin);
      StartNumbers(count, uses + rest, pin);
    }
    RunsStayApart(count, uses + more);
    PinBound(Run(Start(count), uses + more).value, pin);
  }

  lemma StartNumbers(count: nat, uses: seq<Use>, pin: nat)
    requires Run(Start(count), uses).Some? && pin in Run(Start(count), uses).value.pins
    ensures pin < Run(Start(count), uses).value.binds
  {
    hide Bound, Run;
    RunsStayApart(count, uses);
  }

  lemma PinBound(t: Table, pin: nat)
    requires Inv(t) && pin in t.pins
    ensures Bound(t.content, t.pins[pin].first, t.pins[pin].pages)
  {}

  /** When everything has been given back the table is empty again. */
  lemma AllGivenBack(count: nat, uses: seq<Use>)
    requires Run(Start(count), uses).Some? && Run(Start(count), uses).value.pins == map[]
    ensures Run(Start(count), uses).value.content == Nothing(count)
  {
    hide Run, Bound;
    RunsStayApart(count, uses);
    var c := Run(Start(count), uses).value.content;
    forall page | 0 <= page < count
      ensures c[page].None?
    {}
  }
}
