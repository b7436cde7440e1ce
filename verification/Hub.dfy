/**
  The devices behind a USB hub (src/hub.rs): the event loop that hands each device to a free
  child, and the children that serve it and give its address back.

  `events` and the children are one task: while `events` waits for anything, every child runs
  (`Suspend`). What the hub reports, whether a device enumerates and as what, and when serving
  it ends on its own are choices of the environment.
 */
module Hub {
  import opened Common

  const MAX_PORTS: nat := 8
  const CHILDREN: nat := 3

  datatype Event = Attached(address: nat) | Detached

  /** Where a child is in its loop: waiting for a device, serving one, or done with one that
      the hub has not reported gone. */
  datatype Child = Waiting | Serving(address: nat) | ServedOut(address: nat)

  /** What a newly detected device turns out to be: nothing that answers, a hub, anything else. */
  datatype Outcome = Silent | AHub | ADevice

  /** What happened to addresses: handed to a child for the device on a port, that device
      reported gone to its child, given back. */
  datatype Record = Handed(port: nat, address: nat) | Told(port: nat, address: nat) | Freed(address: nat)

  /** The life of an address: out of use, serving the device on a port, on its way back. */
  datatype Phase = Out | InUse(port: nat) | Leaving | Broken

  function Next(phase: Phase, r: Record, address: nat): Phase {
    if r.address != address then phase
    else match (phase, r)
      case (Out, Handed(port, _)) => InUse(port)
      case (InUse(p), Told(port, _)) => if p == port then Leaving else Broken
      case (Leaving, Freed(_)) => Out
      case _ => Broken
  }

  /** `Broken` once anything happened to the address out of turn. */
  function PhaseOf(history: seq<Record>, address: nat): Phase {
    if history == [] then Out
    else Next(PhaseOf(history[..|history| - 1], address), history[|history| - 1], address)
  }

  lemma PhaseNext(history: seq<Record>, r: Record)
    ensures forall a: nat :: PhaseOf(history + [r], a) == Next(PhaseOf(history, a), r, a)
  {
    assert (history + [r])[..|history|] == history;
  }

  // ---- Ports and children ----

  predicate Injective(ports: seq<Option<nat>>) {
    forall p, q :: 0 <= p < q < |ports| && ports[p].Some? ==> ports[p] != ports[q]
  }

  /** Every port is served by a child of its own; a child is busy exactly when it serves a port
      or is `stranded`: no port leads to it any more. */
  predicate TableOk(ports: seq<Option<nat>>, busy: seq<bool>, stranded: set<nat>) {
    && |ports| == MAX_PORTS && |busy| == CHILDREN
    && Injective(ports)
    && (forall p :: 0 <= p < MAX_PORTS && ports[p].Some? ==>
          ports[p].value < CHILDREN && busy[ports[p].value] && ports[p].value !in stranded)
    && (forall c :: 0 <= c < CHILDREN && busy[c] ==> c in stranded || Some(c) in ports)
    && (forall c :: c in stranded ==> c < CHILDREN && busy[c])
  }

  function AttachPort(ports: seq<Option<nat>>, port: nat, c: nat): seq<Option<nat>> {
    if port < |ports| then ports[port := Some(c)] else ports
  }

  /** The child that handing `port` to the child `c` strands: `c` itself if the port is not
      tracked, the child the port had if it had one. */
  function Strands(ports: seq<Option<nat>>, port: nat, c: nat): set<nat> {
    if port >= |ports| then {c} else if ports[port].Some? then {ports[port].value} else {}
  }

  /** Whatever port the hub reports, the table stays consistent with that child stranded. */
  lemma AttachKeeps(ports: seq<Option<nat>>, busy: seq<bool>, stranded: set<nat>, port: nat, c: nat)
    requires TableOk(ports, busy, stranded) && c < CHILDREN && !busy[c]
    ensures TableOk(AttachPort(ports, port, c), busy[c := true], stranded + Strands(ports, port, c))
  {
    var after := AttachPort(ports, port, c);
    assert Some(c) !in ports;
    forall d | 0 <= d < CHILDREN && busy[c := true][d] && d !in stranded + Strands(ports, port, c)
      ensures Some(d) in after
    {
      if d == c {
        assert after[port] == Some(c);
      } else {
        var p :| 0 <= p < MAX_PORTS && ports[p] == Some(d);
        assert after[p] == Some(d);
      }
    }
  }

  /** Nobody is stranded by it if and only if the port is tracked and has no child yet. */
  lemma AttachKeepsIff(ports: seq<Option<nat>>, busy: seq<bool>, stranded: set<nat>, port: nat, c: nat)
    requires TableOk(ports, busy, stranded) && c < CHILDREN && !busy[c]
    ensures TableOk(AttachPort(ports, port, c), busy[c := true], stranded) <==> port < MAX_PORTS && ports[port].None?
  {
    var after := AttachPort(ports, port, c);
    assert Some(c) !in ports;
    if port < MAX_PORTS && ports[port].None? {
      AttachKeeps(ports, busy, stranded, port, c);
      assert stranded + {} == stranded;
    } else if port < MAX_PORTS {
      assert Some(ports[port].value) !in after;
    }
  }

  /** Taking the port of a removed device out frees its child. */
  lemma RemoveKeeps(ports: seq<Option<nat>>, busy: seq<bool>, stranded: set<nat>, port: nat)
    requires TableOk(ports, busy, stranded) && port < MAX_PORTS && ports[port].Some?
    ensures TableOk(ports[port := None], busy[ports[port].value := false], stranded)
  {
    var c := ports[port].value;
    var after := ports[port := None];
    forall d | 0 <= d < CHILDREN && busy[c := false][d] && d !in stranded
      ensures Some(d) in after
    {
      var p :| 0 <= p < MAX_PORTS && ports[p] == Some(d);
      assert after[p] == Some(d);
    }
  }

  // ---- What events do to the table ----

  datatype PortEvent = Detected(port: nat, outcome: Outcome) | Removed(port: nat)

  datatype Table = Table(ports: seq<Option<nat>>, busy: seq<bool>, stranded: set<nat>)

  /** The first child that is not busy; none if it is past the end. */
  function FirstFree(busy: seq<bool>): (c: nat)
    ensures c <= |busy| && (c < |busy| ==> !busy[c]) && forall d :: 0 <= d < c ==> busy[d]
  {
    if busy == [] then 0 else if !busy[0] then 0 else 1 + FirstFree(busy[1..])
  }

  function Step(t: Table, e: PortEvent): Table {
    match e
    case Detected(port, outcome) =>
      var c := FirstFree(t.busy);
      if c == |t.busy| || outcome != ADevice then t
      else Table(AttachPort(t.ports, port, c), t.busy[c := true], t.stranded + Strands(t.ports, port, c))
    case Removed(port) =>
      if port < |t.ports| && t.ports[port].Some? && t.ports[port].value < |t.busy| then
        Table(t.ports[port := None], t.busy[t.ports[port].value := false], t.stranded)
      else t
  }

  function Steps(t: Table, events: seq<PortEvent>): Table {
    if events == [] then t else Step(Steps(t, events[..|events| - 1]), events[|events| - 1])
  }

  // ---- Addresses ----

  /** The address a child has, or is about to get. */
  function AddressOf(slot: Option<Event>, child: Child): Option<nat> {
    match child
    case Serving(a) => Some(a)
    case ServedOut(a) => Some(a)
    case Waiting => if slot.Some? && slot.value.Attached? then Some(slot.value.address) else None
  }

  function Held(slots: seq<Option<Event>>, children: seq<Child>): (held: seq<Option<nat>>)
    requires |slots| == |children|
    ensures |held| == |slots| && forall c :: 0 <= c < |held| ==> held[c] == AddressOf(slots[c], children[c])
  {
    seq(|slots|, c requires 0 <= c < |slots| => AddressOf(slots[c], children[c]))
  }

  /** No two children have the same address; an address is in use exactly when a child has it
      or it is one of the unserved. */
  ghost predicate AddressesOk(held: seq<Option<nat>>, live: set<nat>, unserved: set<nat>) {
    && (forall c, d :: 0 <= c < d < |held| && held[c].Some? ==> held[c] != held[d])
    && (forall a: nat :: a in live <==> a in unserved || Some(a) in held)
    && (forall a: nat :: a in unserved ==> Some(a) !in held)
  }

  /** The history agrees: the child of a port has the address handed to it for that port, a
      child that is not busy any more has one on its way back, all others are out of use. */
  ghost predicate HistoryOk(ports: seq<Option<nat>>, busy: seq<bool>, stranded: set<nat>, held: seq<Option<nat>>, history: seq<Record>)
    requires TableOk(ports, busy, stranded) && |held| == CHILDREN
  {
    && (forall p :: 0 <= p < MAX_PORTS && ports[p].Some? ==>
          var h := held[ports[p].value];
          h.Some? && PhaseOf(history, h.value) == InUse(p))
    && (forall c :: 0 <= c < CHILDREN && !busy[c] && held[c].Some? ==> PhaseOf(history, held[c].value) == Leaving)
    && (forall c :: c in stranded ==> held[c].Some? && PhaseOf(history, held[c].value).InUse?)
    && (forall a: nat :: Some(a) !in held ==> PhaseOf(history, a) == Out)
  }

  lemma HeldAfter(held: seq<Option<nat>>, c: nat, h: Option<nat>)
    requires c < |held|
    requires forall d :: 0 <= d < |held| && d != c ==> held[d] != held[c] || held[c].None?
    ensures forall a: nat :: Some(a) in held[c := h] <==> h == Some(a) || (Some(a) in held && held[c] != Some(a))
  {
    var after := held[c := h];
    assert after[c] == h;
    forall a: nat | Some(a) in held && held[c] != Some(a)
      ensures Some(a) in after
    {
      var d :| 0 <= d < |held| && held[d] == Some(a);
      assert after[d] == Some(a);
    }
  }

  lemma Handing(ports: seq<Option<nat>>, busy: seq<bool>, stranded: set<nat>, held: seq<Option<nat>>, live: set<nat>, unserved: set<nat>,
                history: seq<Record>, port: nat, c: nat, address: nat)
    requires TableOk(ports, busy, stranded) && |held| == CHILDREN
    requires AddressesOk(held, live, unserved) && HistoryOk(ports, busy, stranded, held, history)
    requires c < CHILDREN && !busy[c] && held[c].None? && address in unserved
    ensures var ps, bs, st := AttachPort(ports, port, c), busy[c := true], stranded + Strands(ports, port, c);
            && TableOk(ps, bs, st)
            && AddressesOk(held[c := Some(address)], live, unserved - {address})
            && HistoryOk(ps, bs, st, held[c := Some(address)], history + [Handed(port, address)])
  {
    hide PhaseOf, TableOk, AddressesOk, HistoryOk, Strands;
    AttachKeeps(ports, busy, stranded, port, c);
    HandedAddress(held, live, unserved, c, address);
    HandedHistory(ports, busy, stranded, held, history, port, c, address);
  }

  lemma HandedAddress(held: seq<Option<nat>>, live: set<nat>, unserved: set<nat>, c: nat, address: nat)
    requires AddressesOk(held, live, unserved) && c < |held| && held[c].None? && address in unserved
    ensures AddressesOk(held[c := Some(address)], live, unserved - {address}) && Some(address) !in held
  {
    HeldAfter(held, c, Some(address));
  }

  lemma HandedHistory(ports: seq<Option<nat>>, busy: seq<bool>, stranded: set<nat>, held: seq<Option<nat>>,
                      history: seq<Record>, port: nat, c: nat, address: nat)
    requires TableOk(ports, busy, stranded) && |held| == CHILDREN && HistoryOk(ports, busy, stranded, held, history)
    requires c < CHILDREN && !busy[c] && held[c].None? && Some(address) !in held
    requires TableOk(AttachPort(ports, port, c), busy[c := true], stranded + Strands(ports, port, c))
    ensures HistoryOk(AttachPort(ports, port, c), busy[c := true], stranded + Strands(ports, port, c),
                      held[c := Some(address)], history + [Handed(port, address)])
  {
    hide PhaseOf;
    PhaseNext(history, Handed(port, address));
    HeldAfter(held, c, Some(address));
    assert Some(c) !in ports;
  }

  lemma NothingYet()
    ensures var ports: seq<Option<nat>>, busy := seq(MAX_PORTS, p => None), seq(CHILDREN, c => false);
            var held: seq<Option<nat>> := seq(CHILDREN, c => None);
            TableOk(ports, busy, {}) && AddressesOk(held, {}, {}) && HistoryOk(ports, busy, {}, held, [])
  {
  }

  lemma Distinct(held: seq<Option<nat>>, live: set<nat>, unserved: set<nat>)
    requires AddressesOk(held, live, unserved)
    ensures forall c, d :: 0 <= c < d < |held| && held[c].Some? ==> held[c] != held[d]
  {
  }

  lemma Telling(ports: seq<Option<nat>>, busy: seq<bool>, stranded: set<nat>, held: seq<Option<nat>>, history: seq<Record>, port: nat)
    requires TableOk(ports, busy, stranded) && |held| == CHILDREN && HistoryOk(ports, busy, stranded, held, history)
    requires forall c, d :: 0 <= c < d < |held| && held[c].Some? ==> held[c] != held[d]
    requires port < MAX_PORTS && ports[port].Some?
    ensures held[ports[port].value].Some?
    ensures var c := ports[port].value;
            TableOk(ports[port := None], busy[c := false], stranded) &&
            HistoryOk(ports[port := None], busy[c := false], stranded, held, history + [Told(port, held[c].value)])
  {
    var c := ports[port].value;
    RemoveKeeps(ports, busy, stranded, port);
    PhaseNext(history, Told(port, held[c].value));
    assert held[c] == Some(held[c].value);
  }

  lemma Freeing(ports: seq<Option<nat>>, busy: seq<bool>, stranded: set<nat>, held: seq<Option<nat>>, live: set<nat>, unserved: set<nat>,
                history: seq<Record>, c: nat)
    requires TableOk(ports, busy, stranded) && |held| == CHILDREN
    requires AddressesOk(held, live, unserved) && HistoryOk(ports, busy, stranded, held, history)
    requires c < CHILDREN && !busy[c] && held[c].Some?
    ensures AddressesOk(held[c := None], live - {held[c].value}, unserved)
    ensures HistoryOk(ports, busy, stranded, held[c := None], history + [Freed(held[c].value)])
  {
    hide PhaseOf;
    HeldAfter(held, c, None);
    PhaseNext(history, Freed(held[c].value));
    assert held[c] == Some(held[c].value);
  }

  /** In every state: nothing ever happened to an address out of turn. */
  lemma NeverBroken(ports: seq<Option<nat>>, busy: seq<bool>, stranded: set<nat>, held: seq<Option<nat>>, history: seq<Record>, a: nat)
    requires TableOk(ports, busy, stranded) && |held| == CHILDREN && HistoryOk(ports, busy, stranded, held, history)
    ensures PhaseOf(history, a) != Broken
    ensures PhaseOf(history, a) == Out <==> Some(a) !in held
  {
    if Some(a) in held {
      var c :| 0 <= c < CHILDREN && held[c] == Some(a);
      if busy[c] && c !in stranded {
        var p :| 0 <= p < MAX_PORTS && ports[p] == Some(c);
      }
    }
  }

  /** A busy child has a device or is being given one; another is waiting or is being told
      that its device is gone. */
  predicate ChildOk(busy: bool, slot: Option<Event>, child: Child) {
    if busy then
      if child.Waiting? then slot.Some? && slot.value.Attached? else slot.None?
    else
      if child.Waiting? then slot.None? else slot == Some(Detached)
  }

  /** What a child makes of a signal. */
  function AfterSignal(child: Child, e: Event): Child {
    match (child, e)
    case (Waiting, Attached(a)) => Serving(a)
    case (_, Detached) => Waiting
    case _ => child
  }

  class Bus {
    const portChild: array<Option<nat>>
    const busy: array<bool>
    const slots: array<Option<Event>>
    var children: seq<Child>
    // Addresses in use on the bus. No child has those of hubs behind the hub, nor that of a
    // device just enumerated. No port leads to a stranded child.
    var live: set<nat>
    ghost var unserved: set<nat>
    ghost var stranded: set<nat>
    ghost var history: seq<Record>

    ghost predicate Shape()
      reads this`children
    {
      portChild.Length == MAX_PORTS && busy.Length == slots.Length == |children| == CHILDREN
    }

    ghost predicate ChildrenOk()
      reads this`children, busy, slots
    {
      Shape() && forall c :: 0 <= c < CHILDREN ==> ChildOk(busy[c], slots[c], children[c])
    }

    ghost predicate Valid()
      reads this, portChild, busy, slots
    {
      && Shape()
      && TableOk(portChild[..], busy[..], stranded)
      && ChildrenOk()
      && AddressesOk(Held(slots[..], children), live, unserved)
      && HistoryOk(portChild[..], busy[..], stranded, Held(slots[..], children), history)
    }

    constructor ()
      ensures Valid() && live == {} && stranded == {} && history == []
      ensures fresh(portChild) && fresh(busy) && fresh(slots)
      ensures forall p :: 0 <= p < MAX_PORTS ==> portChild[p].None?
    {
      portChild := new Option<nat>[MAX_PORTS](i => None);
      busy := new bool[CHILDREN](i => false);
      slots := new Option<Event>[CHILDREN](i => None);
      children := [Waiting, Waiting, Waiting];
      live, unserved, stranded, history := {}, {}, {}, [];
      new;
      hide TableOk, AddressesOk, HistoryOk;
      assert portChild[..] == seq(MAX_PORTS, p => None) && busy[..] == seq(CHILDREN, c => false);
      assert Held(slots[..], children) == seq(CHILDREN, c => None);
      NothingYet();
    }

    /** `Signal::signal`, where it takes the place of no other signal. */
    method Signal(c: nat, e: Event)
      requires c < slots.Length && slots[c].None?
      modifies slots
      ensures slots[..] == old(slots[..])[c := Some(e)]
    {
      slots[c] := Some(e);
    }

    /** `free_address`. */
    method Free(address: nat)
      modifies this`live, this`history
      ensures live == old(live) - {address}
      ensures history == old(history) + [Freed(address)]
    {
      live := live - {address};
      history := history + [Freed(address)];
    }

    /** `child`, from one wait to the next. */
    method RunChild(c: nat)
      requires c < CHILDREN && Valid()
      modifies this`children, this`live, this`history, slots
      ensures Valid() && slots[..] == old(slots[..])[c := None]
      ensures old(slots[c]) == Some(Detached) ==>
                && !old(children[c]).Waiting?
                && history == old(history) + [Freed(old(children[c]).address)]
                && live == old(live) - {old(children[c]).address}
      ensures old(slots[c]) != Some(Detached) ==> history == old(history) && live == old(live)
      ensures forall d :: 0 <= d < CHILDREN && d != c ==> children[d] == old(children[d])
      ensures old(slots[c]).Some? && old(slots[c]).value.Attached? ==>
                children[c] == Serving(old(slots[c]).value.address) && old(children[c]).Waiting?
      ensures old(slots[c]) == Some(Detached) ==> children[c] == Waiting
      ensures old(slots[c]).None? && children[c] != old(children[c]) ==>
                old(children[c]).Serving? && children[c] == ServedOut(old(children[c]).address)
    {
      hide TableOk, AddressesOk, HistoryOk;
      ghost var held := Held(slots[..], children);
      var fails: bool :| true;
      if children[c].Serving? && fails {
        children := children[c := ServedOut(children[c].address)];
      }
      if slots[c].Some? {
        var e := slots[c].value;
        slots[c] := None;
        if e.Detached? && !children[c].Waiting? {
          Freeing(portChild[..], busy[..], stranded, held, live, unserved, history, c);
          Free(children[c].address);
        }
        children := children[c := AfterSignal(children[c], e)];
      }
      assert Held(slots[..], children) == if old(slots[c]) == Some(Detached) then held[c := None] else held;
    }

    /** `events` waits: every child gets to run. */
    method Suspend()
      requires Valid()
      modifies this`children, this`live, this`history, slots
      ensures Valid() && forall c :: 0 <= c < CHILDREN ==> slots[c].None? && (busy[c] <==> !children[c].Waiting?)
      ensures live <= old(live) && old(history) <= history
      ensures (forall c :: 0 <= c < CHILDREN ==> old(slots[c]) != Some(Detached)) ==> live == old(live) && history == old(history)
    {
      hide TableOk, AddressesOk, HistoryOk;
      var c := 0;
      while c < CHILDREN
        invariant Valid() && c <= CHILDREN && live <= old(live) && old(history) <= history
        invariant forall d :: c <= d < CHILDREN ==> slots[d] == old(slots[d])
        invariant (forall d :: 0 <= d < c ==> old(slots[d]) != Some(Detached)) ==> live == old(live) && history == old(history)
        invariant forall d :: 0 <= d < c ==> slots[d].None?
      {
        RunChild(c);
        c := c + 1;
      }
    }

    /** The first child that is not busy. */
    method FindFree() returns (free: nat)
      requires Shape()
      ensures free <= CHILDREN && (free < CHILDREN ==> !busy[free])
      ensures forall c :: 0 <= c < free ==> busy[c]
    {
      free := 0;
      while free < CHILDREN && busy[free]
        invariant free <= CHILDREN
        invariant forall c :: 0 <= c < free ==> busy[c]
      {
        free := free + 1;
      }
    }

    /** `enumerate`: the port reset waits, so the children run. A device that answers gets an
        address that is not in use. */
    method Enumerate(outcome: Outcome) returns (address: Option<nat>)
      requires Valid()
      modifies this`children, this`live, this`unserved, this`history, slots
      ensures Valid() && forall c :: 0 <= c < CHILDREN ==> slots[c].None?
      ensures (forall c :: 0 <= c < CHILDREN ==> old(slots[c]).None?) ==> history == old(history)
      ensures address.None? <==> outcome == Silent
      ensures address.None? ==> unserved == old(unserved)
      ensures address.Some? ==> address.value !in old(unserved) && unserved == old(unserved) + {address.value}
    {
      hide TableOk, HistoryOk;
      Suspend();
      if outcome == Silent {
        address := None;
      } else {
        Unused(live);
        var a: nat :| a !in live;
        address := Some(a);
        live, unserved := live + {a}, unserved + {a};
      }
    }

    lemma Unused(used: set<nat>)
      ensures exists a: nat :: a !in used
    {
      var bound := Bound(used);
      assert bound !in used;
    }

    lemma {:induction false} Bound(used: set<nat>) returns (bound: nat)
      ensures forall a :: a in used ==> a < bound
      decreases |used|
    {
      if used == {} {
        bound := 0;
      } else {
        var a :| a in used;
        var rest := used - {a};
        assert used == rest + {a};
        bound := Bound(rest);
        bound := if a < bound then bound else a + 1;
      }
    }

    /** The handing over of an enumerated device. */
    method Attach(port: nat, free: nat, address: nat)
      requires Valid() && address in unserved
      requires free < CHILDREN && !busy[free] && slots[free].None?
      modifies this`unserved, this`stranded, this`history, portChild, busy, slots
      ensures Valid() && unserved == old(unserved) - {address}
      ensures stranded == old(stranded) + Strands(old(portChild[..]), port, free)
      ensures portChild[..] == AttachPort(old(portChild[..]), port, free) && busy[..] == old(busy[..])[free := true]
      ensures slots[..] == old(slots[..])[free := Some(Attached(address))]
      ensures history == old(history) + [Handed(port, address)]
    {
      hide TableOk, AddressesOk, HistoryOk;
      ghost var held := Held(slots[..], children);
      Handing(portChild[..], busy[..], stranded, held, live, unserved, history, port, free, address);
      stranded := stranded + Strands(portChild[..], port, free);
      if port < portChild.Length {
        portChild[port] := Some(free);
      }
      busy[free] := true;
      Signal(free, Attached(address));
      unserved := unserved - {address};
      history := history + [Handed(port, address)];
      assert portChild[..] == AttachPort(old(portChild[..]), port, free);
      assert busy[..] == old(busy[..])[free := true];
      assert Held(slots[..], children) == held[free := Some(address)];
    }

    /** A device was detected on `port`, whatever port that is. It is served if and only if a child
        is not busy and it enumerates as anything but a hub, and then by the first such child; a
        hub keeps its address. A child is stranded if and only if the port is not tracked or had
        a child. */
    method DeviceDetected(port: nat, outcome: Outcome) returns (child: Option<nat>)
      requires Valid() && forall c :: 0 <= c < CHILDREN ==> slots[c].None?
      modifies this, portChild, busy, slots
      ensures Valid()
      ensures child.Some? <==> outcome == ADevice && exists c :: 0 <= c < CHILDREN && !old(busy[c])
      ensures child.Some? ==>
                var c := child.value;
                && c < CHILDREN && !old(busy[c]) && (forall d :: 0 <= d < c ==> old(busy[d]))
                && slots[c].Some? && slots[c].value.Attached?
                && history == old(history) + [Handed(port, slots[c].value.address)]
                && portChild[..] == AttachPort(old(portChild[..]), port, c) && busy[..] == old(busy[..])[c := true]
                && unserved == old(unserved) && stranded == old(stranded) + Strands(old(portChild[..]), port, c)
      ensures child.None? ==>
                && portChild[..] == old(portChild[..]) && busy[..] == old(busy[..])
                && history == old(history) && stranded == old(stranded)
      ensures outcome == AHub && (exists c :: 0 <= c < CHILDREN && !old(busy[c])) ==>
                exists a: nat :: a !in old(unserved) && unserved == old(unserved) + {a}
      ensures child.None? && !(outcome == AHub && exists c :: 0 <= c < CHILDREN && !old(busy[c])) ==>
                unserved == old(unserved)
      ensures (forall c :: 0 <= c < CHILDREN ==> old(busy[c])) ==> live == old(live)
      ensures stranded == old(stranded) <==> child.None? || (port < MAX_PORTS && old(portChild[port]).None?)
    {
      hide AddressesOk, HistoryOk;
      child := None;
      var free := FindFree();
      if free == CHILDREN {
        return;
      }
      var address := Enumerate(outcome);
      if address.Some? && outcome != AHub {
        Attach(port, free, address.value);
        child := Some(free);
        assert old(unserved) + {address.value} - {address.value} == old(unserved);
      }
    }

    /** The device on `port` is gone: its child, and no other, is told, once. */
    method DeviceRemoved(port: nat)
      requires Valid() && forall c :: 0 <= c < CHILDREN ==> slots[c].None?
      modifies this`history, portChild, busy, slots
      ensures Valid()
      ensures port >= MAX_PORTS || old(portChild[port]).None? ==>
                && history == old(history) && portChild[..] == old(portChild[..])
                && busy[..] == old(busy[..]) && slots[..] == old(slots[..])
      ensures port < MAX_PORTS && old(portChild[port]).Some? ==>
                var c := old(portChild[port]).value;
                && c < CHILDREN && !children[c].Waiting?
                && history == old(history) + [Told(port, children[c].address)]
                && portChild[..] == old(portChild[..])[port := None] && busy[..] == old(busy[..])[c := false]
                && slots[..] == old(slots[..])[c := Some(Detached)]
    {
      hide AddressesOk, HistoryOk;
      if port < portChild.Length && portChild[port].Some? {
        var c := portChild[port].value;
        ghost var held := Held(slots[..], children);
        Distinct(held, live, unserved);
        Telling(portChild[..], busy[..], stranded, held, history, port);
        history := history + [Told(port, held[c].value)];
        portChild[port] := None;
        busy[c] := false;
        Signal(c, Detached);
        assert portChild[..] == old(portChild[..])[port := None];
        assert busy[..] == old(busy[..])[c := false];
        assert Held(slots[..], children) == held;
      }
    }

    ghost function CurrentTable(): Table
      reads this`stranded, portChild, busy
    {
      Table(portChild[..], busy[..], stranded)
    }

    /** `events` for whatever the hub reports. */
    method Events(events: seq<PortEvent>)
      requires Valid()
      modifies this, portChild, busy, slots
      ensures Valid() && CurrentTable() == Steps(old(CurrentTable()), events)
    {
      hide Valid, Step;
      var k := 0;
      while k < |events|
        invariant 0 <= k <= |events| && Valid()
        invariant CurrentTable() == Steps(old(CurrentTable()), events[..k])
      {
        assert events[..k + 1][..k] == events[..k];
        HandleEvent(events[k]);
        k := k + 1;
      }
      assert events[..k] == events;
    }

    /** One turn of `events`. */
    method HandleEvent(e: PortEvent)
      requires Valid()
      modifies this, portChild, busy, slots
      ensures Valid() && CurrentTable() == Step(old(CurrentTable()), e)
    {
      hide TableOk, AddressesOk, HistoryOk, Strands, AttachPort;
      Suspend();
      match e {
        case Detected(port, outcome) =>
          FirstFreeIs(busy[..]);
          var child := DeviceDetected(port, outcome);
        case Removed(port) =>
          DeviceRemoved(port);
      }
    }

    lemma FirstFreeIs(busy: seq<bool>)
      ensures FirstFree(busy) < |busy| <==> exists c :: 0 <= c < |busy| && !busy[c]
      ensures forall c :: 0 <= c < |busy| && !busy[c] && (forall d :: 0 <= d < c ==> busy[d]) ==> c == FirstFree(busy)
    {
    }

    /** What holds in every state. Ports map to children one to one; a child is busy exactly when
        a port maps to it or it is stranded. Every address a child has was handed to it and not
        given back since; the history never shows an address handed twice, told of a removal on
        another port, or given back before that or twice. */
    lemma ValidMeans(a: nat)
      requires Valid()
      ensures PhaseOf(history, a) != Broken
      ensures PhaseOf(history, a) == Out <==> a !in live || a in unserved
      ensures forall c :: 0 <= c < CHILDREN ==> (busy[c] <==> Some(c) in portChild[..] || c in stranded)
      ensures forall c :: c in stranded ==> Some(c) !in portChild[..]
      ensures Injective(portChild[..])
    {
      hide PhaseOf;
      NeverBroken(portChild[..], busy[..], stranded, Held(slots[..], children), history, a);
    }
  }
}
