/**
  The wheel link of src/device.rs and src/proxy.rs: core 1 reports the wheel there or gone
  through a four-deep queue; core 0 follows it with the pull-up and clears the packet queues
  before every reconnection.

  `Others` lets everything else run: the proxy that reports the wheel, the console and the
  wheel filling the packet queues, whoever empties them, and time.
 */
module LinkFollower {
  import opened Changes
  import opened Common

  const LINK_LEN: nat := 4

  /** Milliseconds an off lasts at least, for the console to notice it. */
  const MIN_DETACH: nat := 500

  // The packet queues, in the order in which they are cleared.
  const INPUT_IN: nat := 0
  const HIDPP_IN: nat := 1
  const FFB_IN: nat := 2
  const FFB_OUT: nat := 3
  const CONTROL_OUT: nat := 4
  const IF0_OUT: nat := 5
  const QUEUES: nat := 6

  function Capacity(q: nat): nat {
    if q == HIDPP_IN then 32 else 8
  }

  /** Queues that the console fills; the wheel fills the others. */
  predicate FromConsole(q: nat) {
    q in {FFB_OUT, CONTROL_OUT, IF0_OUT}
  }

  /** When a packet was queued: during which connection, and whether the device was on the bus.
      Connections are counted by reconnections; number 0 is the first. */
  datatype Packet = Packet(connection: nat, onBus: bool)

  datatype Delivery = Delivery(queue: nat, packet: Packet, connection: nat, onBus: bool)

  /** The pull-up switched to `on` at the time `at`. */
  datatype Change = Change(at: nat, on: bool)

  /** The proxy of an attached wheel: it has started, and is or is not recovering. */
  datatype Proxy = Gone | Serving(recovering: bool)

  function Values(changes: seq<Change>): (r: seq<bool>)
    ensures |r| == |changes| && forall i :: 0 <= i < |r| ==> r[i] == changes[i].on
  {
    seq(|changes|, i requires 0 <= i < |changes| => changes[i].on)
  }

  /** Starting off the bus, the changes alternate. */
  lemma CollapsedAlternates(s: seq<bool>)
    ensures forall i :: 0 <= i < |Collapsed(false, s)| ==> Collapsed(false, s)[i] == (i % 2 == 0)
  {
    CollapsedChanges(false, s);
    forall i: nat | i < |Collapsed(false, s)|
      ensures Collapsed(false, s)[i] == (i % 2 == 0)
    {
      Alternates(Collapsed(false, s), i);
    }
  }

  lemma {:induction false} Alternates(c: seq<bool>, i: nat)
    requires i < |c| && forall k :: 0 <= k < |c| ==> c[k] != LastOf(false, c[..k])
    ensures c[i] == (i % 2 == 0)
  {
    assert c[i] != LastOf(false, c[..i]);
    if i == 0 {
    } else {
      Alternates(c, i - 1);
    }
  }

  class Device {
    // WHEEL_LINK, and the follower's own record of it.
    var link: seq<bool>
    var attached: bool
    var pullup: bool
    var queues: seq<seq<Packet>>
    var proxy: Proxy
    var now: nat
    // The number of reconnections, which marks the packets.
    var connection: nat

    // What was reported, what of it got into the queue, how much did not, and what the
    // follower has taken out.
    ghost var sent: seq<bool>
    ghost var accepted: seq<bool>
    ghost var lost: nat
    ghost var taken: seq<bool>
    // The pull-up's changes, the queues cleared for the latest reconnection, and every packet
    // taken from a queue.
    ghost var changes: seq<Change>
    ghost var cleared: nat
    ghost var delivered: seq<Delivery>

    ghost predicate LinkInv()
      reads this`link, this`proxy, this`sent, this`accepted, this`lost, this`taken
    {
      && |link| <= LINK_LEN
      && accepted == taken + link
      && (lost == 0 ==> accepted == sent)
      && (proxy.Gone? ==> !LastOf(false, sent))
    }

    /** The pull-up has followed all values taken, except perhaps the latest. */
    ghost predicate PullupInv()
      reads this`pullup, this`taken, this`changes, this`now
    {
      && pullup == LastOf(false, Values(changes))
      && (Values(changes) == Collapsed(false, taken) || (taken != [] && Values(changes) == Collapsed(false, taken[..|taken| - 1])))
      && (forall i :: 0 <= i < |changes| ==> changes[i].at <= now)
      && (forall i :: 0 <= i < |changes| - 1 && !changes[i].on ==> changes[i].at + MIN_DETACH <= changes[i + 1].at)
    }

    ghost predicate QueueInv()
      reads this`queues, this`pullup, this`connection, this`cleared
    {
      && |queues| == QUEUES
      && cleared <= QUEUES && (pullup ==> cleared == QUEUES)
      && forall q :: 0 <= q < QUEUES ==>
           && |queues[q]| <= Capacity(q)
           && forall i :: 0 <= i < |queues[q]| ==>
                && (q < cleared ==> queues[q][i].connection == connection)
                && (FromConsole(q) ==> queues[q][i].onBus)
    }

    ghost predicate DeliveredInv()
      reads this`delivered
    {
      forall i :: 0 <= i < |delivered| && delivered[i].onBus ==>
        && delivered[i].packet.connection == delivered[i].connection
        && (FromConsole(delivered[i].queue) ==> delivered[i].packet.onBus)
    }

    ghost predicate Inv()
      reads this
    {
      LinkInv() && PullupInv() && QueueInv() && DeliveredInv()
    }

    /** The follower has dealt with everything it took, and is waiting for the next value. */
    ghost predicate Settled()
      reads this`attached, this`pullup, this`taken, this`changes, this`now
    {
      && attached == pullup
      && Values(changes) == Collapsed(false, taken)
      && (changes != [] && !pullup ==> changes[|changes| - 1].at + MIN_DETACH <= now)
    }

    constructor ()
      ensures Inv() && Settled() && !pullup && sent == [] && delivered == [] && changes == []
    {
      link, attached, pullup, queues, proxy, now := [], false, false, [[], [], [], [], [], []], Gone, 0;
      sent, accepted, lost, taken, changes := [], [], 0, [], [];
      connection, cleared, delivered := 0, QUEUES, [];
    }

    // ---- Everything but the follower ----

    /** `wheel_link`: queued, or lost when the queue is full. It takes effect, then, if and only
        if there was room or the last value accepted was the same. */
    method WheelLink(v: bool)
      modifies this`link, this`sent, this`accepted, this`lost
      ensures sent == old(sent) + [v]
      ensures |old(link)| < LINK_LEN ==>
                link == old(link) + [v] && accepted == old(accepted) + [v] && lost == old(lost)
      ensures |old(link)| >= LINK_LEN ==>
                link == old(link) && accepted == old(accepted) && lost == old(lost) + 1
      ensures LastOf(false, accepted) == v <==> |old(link)| < LINK_LEN || LastOf(false, old(accepted)) == v
    {
      sent := sent + [v];
      if |link| < LINK_LEN {
        link := link + [v];
        accepted := accepted + [v];
      } else {
        lost := lost + 1;
      }
    }

    /** One step of the proxy: it starts, reports the wheel awake, begins a recovery, ends it,
        or is dropped at any moment, also in the middle of a recovery. */
    method ProxyStep()
      requires LinkInv()
      modifies this`link, this`sent, this`accepted, this`lost, this`proxy
      ensures LinkInv() && old(link) <= link
      ensures old(proxy).Gone? ==> proxy == Serving(false) && sent == old(sent)
      ensures old(proxy).Serving? ==>
                || (proxy == old(proxy) && sent == old(sent) + [true])
                || (proxy == Serving(!old(proxy).recovering) && sent == old(sent) + [old(proxy).recovering])
                || (proxy == Gone && sent == old(sent) + [false])
    {
      match proxy {
        case Gone =>
          proxy := Serving(false);
        case Serving(recovering) =>
          if * {
            WheelLink(true);
          } else if * {
            WheelLink(recovering);
            proxy := Serving(!recovering);
          } else {
            WheelLink(false);
            proxy := Gone;
          }
      }
    }

    /** A packet comes in. The console sends none to a device that is not on the bus. */
    method Enqueue(q: nat)
      requires q < QUEUES && QueueInv() && (FromConsole(q) ==> pullup)
      modifies this`queues
      ensures QueueInv()
      ensures queues ==
              if |old(queues[q])| < Capacity(q) then old(queues)[q := old(queues[q]) + [Packet(connection, pullup)]]
              else old(queues)
    {
      if |queues[q]| < Capacity(q) {
        queues := queues[q := queues[q] + [Packet(connection, pullup)]];
      }
    }

    /** The oldest packet goes out. */
    method Dequeue(q: nat)
      requires q < QUEUES && QueueInv() && DeliveredInv()
      modifies this`queues, this`delivered
      ensures QueueInv() && DeliveredInv()
      ensures queues == if old(queues[q]) == [] then old(queues) else old(queues)[q := old(queues[q])[1..]]
      ensures delivered ==
              if old(queues[q]) == [] then old(delivered)
              else old(delivered) + [Delivery(q, old(queues[q][0]), connection, pullup)]
    {
      if queues[q] != [] {
        delivered := delivered + [Delivery(q, queues[q][0], connection, pullup)];
        queues := queues[q := queues[q][1..]];
      }
    }

    method Others()
      requires Inv()
      modifies this`link, this`sent, this`accepted, this`lost, this`proxy, this`queues, this`delivered, this`now
      ensures Inv() && old(link) <= link && old(now) <= now
    {
      hide LinkInv, QueueInv, DeliveredInv, Collapsed, LastOf;
      var n: nat :| true;
      while n > 0
        invariant Inv() && old(link) <= link && old(now) <= now
      {
        var q: nat :| true;
        var ms: nat :| true;
        if * {
          ProxyStep();
        } else if * {
          if q < QUEUES && (FromConsole(q) ==> pullup) {
            Enqueue(q);
          }
        } else if q < QUEUES {
          Dequeue(q);
        }
        now := now + ms;
        n := n - 1;
      }
    }

    // ---- The follower ----

    method Receive() returns (v: bool)
      requires Inv() && Settled() && link != []
      modifies this`link, this`taken
      ensures Inv() && v == old(link)[0] && link == old(link)[1..] && taken == old(taken) + [v]
      ensures Values(changes) == Collapsed(false, old(taken))
      ensures Collapsed(false, taken) == if v == pullup then Collapsed(false, old(taken)) else Collapsed(false, old(taken)) + [v]
    {
      hide QueueInv, DeliveredInv, Collapsed;
      v := link[0];
      CollapsedLast(false, taken);
      CollapsedNext(false, taken, v);
      assert (taken + [v])[..|taken|] == taken;
      link, taken := link[1..], taken + [v];
    }

    /** The follower has taken a value that the pull-up does not have yet. */
    ghost predicate Due(on: bool)
      reads this`pullup, this`taken, this`changes
    {
      pullup != on && Collapsed(false, taken) == Values(changes) + [on]
    }

    method SetPullup(on: bool)
      requires Inv() && Due(on) && (on ==> cleared == QUEUES)
      requires on && changes != [] ==> changes[|changes| - 1].at + MIN_DETACH <= now
      modifies this`pullup, this`changes
      ensures Inv() && pullup == on && Values(changes) == Collapsed(false, taken)
      ensures changes == old(changes) + [Change(now, on)]
    {
      hide LinkInv, DeliveredInv, Collapsed;
      pullup := on;
      changes := changes + [Change(now, on)];
      assert Values(changes) == Values(old(changes)) + [on];
    }

    /** `clear` of the next queue. */
    method ClearNext(q: nat)
      requires Inv() && cleared == q < QUEUES
      modifies this`link, this`sent, this`accepted, this`lost, this`proxy, this`queues, this`delivered, this`now,
               this`cleared
      ensures Inv() && cleared == q + 1 && old(link) <= link && old(now) <= now
    {
      hide LinkInv, DeliveredInv, Collapsed;
      queues := queues[q := []];
      cleared := q + 1;
      Others();
    }

    /** From here on packets are marked as the next connection's. */
    method NextConnection()
      requires Inv() && !pullup
      modifies this`connection, this`cleared
      ensures Inv() && connection == old(connection) + 1 && cleared == 0
    {
      hide LinkInv, DeliveredInv, PullupInv;
      connection, cleared := connection + 1, 0;
    }

    /** Back on the bus as a new connection: the six queues are emptied first. */
    method Reconnect()
      requires Inv() && Due(true) && changes != [] && changes[|changes| - 1].at + MIN_DETACH <= now
      modifies this`link, this`sent, this`accepted, this`lost, this`proxy, this`queues, this`delivered, this`now,
               this`cleared, this`connection, this`pullup, this`changes
      ensures Inv() && pullup && connection == old(connection) + 1 && old(link) <= link
      ensures Values(changes) == Collapsed(false, taken)
      ensures exists at: nat :: changes == old(changes) + [Change(at, true)]
    {
      hide LinkInv, DeliveredInv, QueueInv, PullupInv, Collapsed;
      NextConnection();
      ClearNext(INPUT_IN);
      ClearNext(HIDPP_IN);
      ClearNext(FFB_IN);
      ClearNext(FFB_OUT);
      ClearNext(CONTROL_OUT);
      ClearNext(IF0_OUT);
      SetPullup(true);
    }

    /** `Timer::after`. */
    method Pause(ms: nat)
      requires Inv()
      modifies this`link, this`sent, this`accepted, this`lost, this`proxy, this`queues, this`delivered, this`now
      ensures Inv() && old(link) <= link && now >= old(now) + ms
    {
      hide LinkInv, QueueInv, DeliveredInv, Collapsed;
      Others();
      var late: nat :| true;
      now := now + ms + late;
    }

    /** One turn of `follow_wheel`. */
    method FollowTurn()
      requires Inv() && Settled() && link != [] && changes != []
      modifies this
      ensures Inv() && Settled() && changes != []
      ensures taken == old(taken) + old(link[..1]) && pullup == old(link[0])
      ensures connection == old(connection) + if pullup && !old(pullup) then 1 else 0
      ensures pullup == old(pullup) ==> changes == old(changes)
    {
      hide LinkInv, QueueInv, DeliveredInv, Collapsed, PullupInv;
      var link := Receive();
      if link == attached {
        return;
      }
      attached := link;
      if !attached {
        SetPullup(false);
        Pause(MIN_DETACH);
      } else {
        Reconnect();
      }
    }

    /** The wait in `task`: off the bus until the wheel is there for the first time, for as many
        values as `most`, or waiting with none in the queue. All of them are offs but the one that
        starts the device. The device is built, and its pull-up set, some time after that. */
    method Start(most: nat) returns (started: bool)
      requires Inv() && Settled() && changes == [] && cleared == QUEUES
      modifies this
      ensures Inv() && Settled() && started == pullup && connection == old(connection)
      ensures started ==> Values(changes) == [true]
      ensures !started ==> changes == []
      ensures old(taken) <= taken && |taken| <= |old(taken)| + most
      ensures forall i :: |old(taken)| <= i < |taken| ==> taken[i] == (started && i == |taken| - 1)
      ensures started ==> |taken| > |old(taken)|
      ensures !started ==> |taken| == |old(taken)| + most || link == []
    {
      hide LinkInv, QueueInv, DeliveredInv, Collapsed;
      var left := most;
      started := false;
      while left > 0 && !started
        invariant Inv() && cleared == QUEUES && changes == [] && connection == old(connection) && !pullup
        invariant if started then Due(true) else Settled()
        invariant old(taken) <= taken && |taken| + left == |old(taken)| + most
        invariant forall i :: |old(taken)| <= i < |taken| ==> taken[i] == (started && i == |taken| - 1)
        invariant started ==> |taken| > |old(taken)|
      {
        Others();
        if link == [] {
          return;
        }
        started := Receive();
        left := left - 1;
      }
      if started {
        attached := true;
        Others();
        SetPullup(true);
      }
    }

    /** `follow_wheel` for as many values as `most`, or until it waits with none in the queue. */
    method FollowWheel(most: nat)
      requires Inv() && Settled() && changes != []
      modifies this
      ensures Inv() && Settled() && changes != [] && old(connection) <= connection
      ensures old(taken) <= taken && |taken| <= |old(taken)| + most
      ensures |taken| == |old(taken)| + most || link == []
    {
      hide LinkInv, QueueInv, DeliveredInv, Collapsed, PullupInv;
      var left := most;
      while left > 0
        invariant Inv() && Settled() && changes != [] && old(connection) <= connection
        invariant old(taken) <= taken && |taken| + left == |old(taken)| + most
      {
        Others();
        if link == [] {
          return;
        }
        FollowTurn();
        left := left - 1;
      }
    }

    // ---- What this means ----

    /** Once the queue is drained the pull-up is what was last accepted; if nothing was lost,
        what was last sent. So without a proxy the device is off the bus, even if the proxy
        was dropped in the middle of a recovery. */
    lemma DrainedMeans()
      requires Inv() && Settled() && link == []
      ensures pullup == LastOf(false, accepted)
      ensures lost == 0 ==> pullup == LastOf(false, sent) && (proxy.Gone? ==> !pullup)
    {
      assert taken + [] == taken;
      CollapsedLast(false, taken);
    }

    /** A quick off-and-on is not collapsed into "on": with the queue drained, an off accepted
        while on, and an on right behind it, are two changes of the pull-up at least
        `MIN_DETACH` apart. */
    lemma OffIsSeen(k: nat) returns (i: nat)
      requires Inv() && Settled() && link == []
      requires k + 1 < |accepted| && LastOf(false, accepted[..k]) && !accepted[k] && accepted[k + 1]
      ensures i + 1 < |changes| && !changes[i].on && changes[i + 1].on
      ensures changes[i].at + 500 <= changes[i + 1].at
      ensures Values(changes)[..i] == Collapsed(false, accepted[..k])
    {
      hide QueueInv, DeliveredInv, Collapsed;
      assert taken + [] == taken && accepted == taken;
      NextChangeShows(false, accepted, k);
      i := |Collapsed(false, accepted[..k])|;
    }

    /** The pull-up's changes alternate, starting with on. */
    lemma ChangesAlternate()
      requires Inv()
      ensures forall i :: 0 <= i < |changes| ==> changes[i].on == (i % 2 == 0)
    {
      CollapsedAlternates(taken);
      if taken != [] {
        CollapsedAlternates(taken[..|taken| - 1]);
      }
    }
  }
}
