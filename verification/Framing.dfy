/**
  Reports on an interrupt IN endpoint (`forward_in` in src/device.rs): how they are split into
  packets, and how a USB host puts them together again (section 5.7.3 of USB 2.0, section 8.4
  of HID 1.11).
 */
module Framing {
  import opened Common

  /** Longest report; a transfer of this length ends by itself. */
  const MAX_PACKET: nat := 64

  /** `report` in packets of `mps` bytes, the last one possibly shorter. */
  function Chunks(report: Bytes, mps: nat): seq<Bytes>
    requires mps > 0
    decreases |report|
  {
    if |report| == 0 then []
    else if |report| <= mps then [report]
    else [report[..mps]] + Chunks(report[mps..], mps)
  }

  /** `write_transfer`: the chunks, and a zero-length packet if one is asked for and the last
      chunk is full. */
  function Transfer(report: Bytes, mps: nat, zlp: bool): seq<Bytes>
    requires mps > 0
  {
    Chunks(report, mps) + if zlp && |report| % mps == 0 then [[]] else []
  }

  /** All reports, one transfer each, with the rule of `forward_in`. */
  function Frames(reports: seq<Bytes>, mps: nat): seq<Bytes>
    requires mps > 0
  {
    if reports == [] then []
    else Transfer(reports[0], mps, |reports[0]| < MAX_PACKET) + Frames(reports[1..], mps)
  }

  /** The host's view: reports completed, and the bytes of one not yet complete. */
  datatype Received = Received(reports: seq<Bytes>, pending: Bytes)

  /** A report ends at a short packet or when the longest report is complete. */
  function Reassemble(packets: seq<Bytes>, mps: nat, pending: Bytes): Received {
    if packets == [] then Received([], pending)
    else
      var all := pending + packets[0];
      if |packets[0]| < mps || |all| >= 64 then
        var r := Reassemble(packets[1..], mps, []);
        Received([all] + r.reports, r.pending)
      else Reassemble(packets[1..], mps, all)
  }

  lemma {:induction false} ReassembleAppend(a: seq<Bytes>, b: seq<Bytes>, mps: nat, pending: Bytes)
    ensures var first := Reassemble(a, mps, pending);
            var second := Reassemble(b, mps, first.pending);
            Reassemble(a + b, mps, pending) == Received(first.reports + second.reports, second.pending)
    decreases |a|
  {
    if a == [] {
      assert a + b == b;
    } else {
      assert (a + b)[0] == a[0] && (a + b)[1..] == a[1..] + b;
      var all := pending + a[0];
      if |a[0]| < mps || |all| >= 64 {
        ReassembleAppend(a[1..], b, mps, []);
      } else {
        ReassembleAppend(a[1..], b, mps, all);
      }
    }
  }

  /** A transfer of `n` bytes ends in a full packet (or has none). */
  predicate EndsFull(n: nat, mps: nat)
    requires mps > 0
  {
    n % mps == 0
  }

  lemma MulMonotone(a: int, b: int, m: nat)
    requires a <= b
    ensures a * m <= b * m
  {
  }

  lemma DivisionUnique(q1: int, r1: nat, q2: int, r2: nat, m: nat)
    requires r1 < m && r2 < m && q1 * m + r1 == q2 * m + r2
    ensures q1 == q2 && r1 == r2
  {
    assert (q1 + 1) * m == q1 * m + m && (q2 + 1) * m == q2 * m + m;
    if q1 < q2 {
      MulMonotone(q1 + 1, q2, m);
    } else if q2 < q1 {
      MulMonotone(q2 + 1, q1, m);
    }
  }

  lemma OneMorePacket(n: nat, m: nat)
    requires m > 0
    ensures EndsFull(n + m, m) <==> EndsFull(n, m)
    ensures n < m ==> (EndsFull(n, m) <==> n == 0)
  {
    assert (n / m + 1) * m == n / m * m + m;
    DivisionUnique((n + m) / m, (n + m) % m, n / m + 1, n % m, m);
    if n < m {
      DivisionUnique(n / m, n % m, 0, n, m);
    }
  }

  /** The chunks of a report alone complete it exactly when the last is short or the report has
      the full length. */
  lemma {:induction false} ChunksReassemble(report: Bytes, mps: nat, pending: Bytes)
    requires 1 <= mps <= MAX_PACKET && |pending| + |report| <= MAX_PACKET
    requires report == [] ==> |pending| < MAX_PACKET
    ensures Reassemble(Chunks(report, mps), mps, pending)
            == if !EndsFull(|report|, mps) || |pending| + |report| == MAX_PACKET
               then Received([pending + report], [])
               else Received([], pending + report)
    decreases |report|
  {
    hide EndsFull;
    var cs := Chunks(report, mps);
    if |report| == 0 {
      OneMorePacket(0, mps);
      assert pending + report == pending;
    } else if |report| <= mps {
      assert cs == [report] && cs[1..] == [];
      OneMorePacket(0, mps);
      OneMorePacket(if |report| < mps then |report| else 0, mps);
    } else {
      var head, tail := report[..mps], report[mps..];
      assert cs[0] == head && cs[1..] == Chunks(tail, mps);
      assert pending + report == (pending + head) + tail;
      OneMorePacket(|tail|, mps);
      ChunksReassemble(tail, mps, pending + head);
    }
  }

  /** The zero-length packet is sent exactly to the reports that would not end without it, and
      with it every report does. */
  lemma TransferReassembles(report: Bytes, mps: nat)
    requires 1 <= mps <= MAX_PACKET && |report| <= MAX_PACKET
    ensures Reassemble(Transfer(report, mps, |report| < MAX_PACKET), mps, []) == Received([report], [])
    ensures Reassemble(Transfer(report, mps, false), mps, []) == Received([report], [])
            <==> !(|report| < MAX_PACKET && |report| % mps == 0)
  {
    ChunksReassemble(report, mps, []);
    var cs := Chunks(report, mps);
    assert cs + [] == cs && [] + report == report;
    if |report| < MAX_PACKET && |report| % mps == 0 {
      ReassembleAppend(cs, [[]], mps, []);
      assert report + [] == report;
      assert Reassemble([[]], mps, report) == Received([report], []);
    }
  }

  /** Round trip: the host recovers exactly the reports sent, one by one. */
  lemma {:induction false} FramesRoundTrip(reports: seq<Bytes>, mps: nat)
    requires 1 <= mps <= 64 && forall i :: 0 <= i < |reports| ==> |reports[i]| <= 64
    ensures Reassemble(Frames(reports, mps), mps, []) == Received(reports, [])
    decreases |reports|
  {
    if reports == [] {
    } else {
      var first := Transfer(reports[0], mps, |reports[0]| < MAX_PACKET);
      TransferReassembles(reports[0], mps);
      FramesRoundTrip(reports[1..], mps);
      ReassembleAppend(first, Frames(reports[1..], mps), mps, []);
    }
  }

  /** `Packet::new`: what fits. */
  function Truncated(data: Bytes): (r: Bytes)
    ensures r <= data && |r| == Min(|data|, MAX_PACKET)
  {
    if |data| <= MAX_PACKET then data else data[..MAX_PACKET]
  }

  lemma {:induction false} ChunkSizes(report: Bytes, mps: nat)
    requires mps > 0
    ensures forall i :: 0 <= i < |Chunks(report, mps)| ==> |Chunks(report, mps)[i]| <= mps
    decreases |report|
  {
    if |report| <= mps {
    } else {
      ChunkSizes(report[mps..], mps);
    }
  }

  method WriteTransfer(report: Bytes, mps: nat, zlp: bool) returns (packets: seq<Bytes>)
    requires mps > 0
    ensures packets == Transfer(report, mps, zlp)
    ensures forall i :: 0 <= i < |packets| ==> |packets[i]| <= mps
  {
    ChunkSizes(report, mps);
    packets := [];
    var left := report;
    while left != []
      invariant packets + Chunks(left, mps) == Chunks(report, mps)
      decreases |left|
    {
      var n := if |left| < mps then |left| else mps;
      packets := packets + [left[..n]];
      assert left[..n] == if |left| <= mps then left else left[..mps];
      left := left[n..];
    }
    if zlp && |report| % mps == 0 {
      packets := packets + [[]];
    }
  }

  /** Cut short, a report is not taken for another one: no proper beginning of its packets
      completes a report. */
  lemma {:induction false} CutChunks(report: Bytes, mps: nat, pending: Bytes, n: nat)
    requires 1 <= mps <= MAX_PACKET && |pending| + |report| <= MAX_PACKET
    requires n < |Chunks(report, mps)|
    ensures Reassemble(Chunks(report, mps)[..n], mps, pending).reports == []
    decreases n
  {
    if n == 0 {
    } else {
      var cs := Chunks(report, mps);
      assert cs[..n][1..] == cs[1..][..n - 1];
      CutChunks(report[mps..], mps, pending + report[..mps], n - 1);
    }
  }

  lemma CutTransfer(report: Bytes, mps: nat, n: nat)
    requires 1 <= mps <= MAX_PACKET && |report| <= MAX_PACKET
    requires n < |Transfer(report, mps, |report| < MAX_PACKET)|
    ensures Reassemble(Transfer(report, mps, |report| < MAX_PACKET)[..n], mps, []).reports == []
  {
    hide Reassemble;
    var t, cs := Transfer(report, mps, |report| < MAX_PACKET), Chunks(report, mps);
    if n < |cs| {
      assert t[..n] == cs[..n];
      CutChunks(report, mps, [], n);
    } else {
      assert t[..n] == cs;
      ChunksReassemble(report, mps, []);
    }
  }

  /** What the host reads when the endpoint was enabled several times: it drops what it has of a
      report when the endpoint goes away. */
  function HostReads(periods: seq<seq<Bytes>>, mps: nat): seq<Bytes> {
    if periods == [] then []
    else HostReads(periods[..|periods| - 1], mps) + Reassemble(periods[|periods| - 1], mps, []).reports
  }

  function AllPackets(periods: seq<seq<Bytes>>): seq<Bytes> {
    if periods == [] then [] else AllPackets(periods[..|periods| - 1]) + periods[|periods| - 1]
  }

  /** The reports whose write does not fail, in order. */
  function Written(queue: seq<Bytes>, fails: seq<Option<nat>>): seq<Bytes>
    requires |fails| == |queue|
  {
    if queue == [] then []
    else
      var n := |queue| - 1;
      Written(queue[..n], fails[..n]) + if fails[n].None? then [queue[n]] else []
  }

  lemma WrittenNext(queue: seq<Bytes>, fails: seq<Option<nat>>, k: nat)
    requires k < |queue| == |fails|
    ensures Written(queue[..k + 1], fails[..k + 1])
            == Written(queue[..k], fails[..k]) + if fails[k].None? then [queue[k]] else []
  {
    assert queue[..k + 1][..k] == queue[..k] && fails[..k + 1][..k] == fails[..k];
  }

  lemma PeriodEnds(periods: seq<seq<Bytes>>, wire: seq<Bytes>, mps: nat)
    ensures HostReads(periods + [wire], mps) == HostReads(periods, mps) + Reassemble(wire, mps, []).reports
    ensures AllPackets(periods + [wire]) == AllPackets(periods) + wire
  {
    assert (periods + [wire])[..|periods|] == periods;
  }

  /** `write_transfer`, which may fail with only so many packets out. */
  method TryWriteTransfer(report: Bytes, mps: nat, zlp: bool, fail: Option<nat>) returns (packets: seq<Bytes>)
    requires mps > 0
    ensures fail.None? ==> packets == Transfer(report, mps, zlp)
    ensures fail.Some? && Transfer(report, mps, zlp) != [] ==>
              && |packets| < |Transfer(report, mps, zlp)|
              && packets == Transfer(report, mps, zlp)[..|packets|]
  {
    packets := WriteTransfer(report, mps, zlp);
    if fail.Some? && packets != [] {
      packets := packets[..if fail.value < |packets| then fail.value else |packets| - 1];
    }
  }

  /**
    `forward_in` over the packets it takes from its queue, each made by `Packet::new`: the relay
    sends each as one packet, the other roles as one transfer. A write that fails loses its
    report, and the loop waits for the endpoint to be enabled again. Whichever writes fail, the
    host reads exactly the reports of the others.
   */
  method ForwardIn(queue: seq<Bytes>, mps: nat, relay: bool, fails: seq<Option<nat>>)
    returns (periods: seq<seq<Bytes>>)
    requires 1 <= mps <= 64 && |fails| == |queue|
    requires forall i :: 0 <= i < |queue| ==> |queue[i]| <= 64
    ensures relay ==> AllPackets(periods) == Written(queue, fails)
    ensures !relay ==> HostReads(periods, mps) == Written(queue, fails)
  {
    hide Transfer, Reassemble, HostReads, AllPackets, Written;
    Nothing(mps);
    periods := [];
    var wire: seq<Bytes> := [];
    var k := 0;
    while k < |queue|
      invariant 0 <= k <= |queue|
      invariant relay ==> AllPackets(periods) + wire == Written(queue[..k], fails[..k])
      invariant !relay ==> Reassemble(wire, mps, []).pending == []
      invariant !relay ==>
                  HostReads(periods, mps) + Reassemble(wire, mps, []).reports == Written(queue[..k], fails[..k])
    {
      var report := queue[k];
      var packets;
      if relay {
        packets := if fails[k].None? then [report] else [];
      } else {
        NeverEmpty(report, mps);
        packets := TryWriteTransfer(report, mps, |report| < MAX_PACKET, fails[k]);
        ReportSent(wire, report, packets, fails[k].None?, mps);
      }
      wire := wire + packets;
      WrittenNext(queue, fails, k);
      if fails[k].Some? {
        PeriodEnds(periods, wire, mps);
        periods, wire := periods + [wire], [];
      }
      k := k + 1;
    }
    PeriodEnds(periods, wire, mps);
    periods := periods + [wire];
    assert queue[..k] == queue && fails[..k] == fails;
  }

  lemma NeverEmpty(report: Bytes, mps: nat)
    requires mps > 0
    ensures Transfer(report, mps, |report| < MAX_PACKET) != []
  {
  }

  lemma Nothing(mps: nat)
    ensures Reassemble([], mps, []) == Received([], []) && HostReads([], mps) == [] && AllPackets([]) == []
    ensures Written([], []) == []
  {
  }

  lemma ReportSent(wire: seq<Bytes>, report: Bytes, packets: seq<Bytes>, ok: bool, mps: nat)
    requires 1 <= mps <= MAX_PACKET && |report| <= MAX_PACKET && Reassemble(wire, mps, []).pending == []
    requires var t := Transfer(report, mps, |report| < MAX_PACKET);
             if ok then packets == t else |packets| < |t| && packets == t[..|packets|]
    ensures Reassemble(wire + packets, mps, []).reports
            == Reassemble(wire, mps, []).reports + if ok then [report] else []
    ensures ok ==> Reassemble(wire + packets, mps, []).pending == []
  {
    hide Transfer, Reassemble;
    ReassembleAppend(wire, packets, mps, []);
    if ok {
      TransferReassembles(report, mps);
    } else {
      CutTransfer(report, mps, |packets|);
    }
  }
}
