// The ring of received packets of Engine/NetStatus.cpp, against the whole history of packets.

module PacketRing {
  import opened Arithmetic

  const PACKET_SAMPLES := 1024

  /** A packet received: real time, and the number of new usercmds in it. */
  datatype Packet = Packet(time: int, cmds: int)

  /** The clock gives positive times and does not go back. */
  ghost predicate Ordered(h: seq<Packet>) {
    && (forall i | 0 <= i < |h| :: 0 < h[i].time)
    && (forall i, j | 0 <= i < j < |h| :: h[i].time <= h[j].time)
  }

  predicate IsRecent(p: Packet, now: int) { now - p.time < 1000 }

  /** How many packets of the history are less than a second old. */
  function Recent(h: seq<Packet>, now: int): nat {
    if h == [] then 0
    else Recent(h[..|h| - 1], now) + if IsRecent(h[|h| - 1], now) then 1 else 0
  }

  function Cmds(h: seq<Packet>): int {
    if h == [] then 0 else h[0].cmds + Cmds(h[1..])
  }

  /** The usercmds of a list are those of its parts. */
  lemma {:induction false} CmdsAppend(a: seq<Packet>, b: seq<Packet>)
    ensures Cmds(a + b) == Cmds(a) + Cmds(b)
    ensures |a| == 1 ==> Cmds(a) == a[0].cmds
    decreases |a|
  {
    if a == [] {
      assert a + b == b;
    } else {
      assert (a + b)[1..] == a[1..] + b;
      CmdsAppend(a[1..], b);
    }
  }

  /** The usercmds of the last n packets. */
  function LastCmds(h: seq<Packet>, n: nat): int
    requires n <= |h|
  {
    Cmds(h[|h| - n..])
  }

  /** In time order, a packet that is too old has only older ones before it. */
  lemma {:induction false} OldBeforeOld(h: seq<Packet>, now: int)
    requires Ordered(h) && h != [] && !IsRecent(h[|h| - 1], now)
    ensures Recent(h, now) == 0
    decreases |h|
  {
    if |h| > 1 {
      assert h[..|h| - 1][|h| - 2] == h[|h| - 2];
      OldBeforeOld(h[..|h| - 1], now);
    }
  }

  lemma RecentIsAtMost(h: seq<Packet>, now: int)
    ensures Recent(h, now) <= |h|
  {
  }

  /** The recent packets are the last ones of the history. */
  lemma {:induction false} RecentAreLast(h: seq<Packet>, now: int, i: nat)
    requires Ordered(h) && i < |h|
    ensures now - h[i].time < 1000 <==> |h| - Recent(h, now) <= i
    decreases |h|
  {
    RecentIsAtMost(h[..|h| - 1], now);
    if i < |h| - 1 {
      RecentAreLast(h[..|h| - 1], now, i);
      if !IsRecent(h[|h| - 1], now) {
        OldBeforeOld(h, now);
      }
    } else if !IsRecent(h[i], now) {
      OldBeforeOld(h, now);
    }
  }

  /** The slot of a packet number, and the slot n before the one that is written next. */
  function SlotOf(j: nat): nat { j % PACKET_SAMPLES }

  function SlotBefore(index: nat, n: nat): (i: nat)
    requires n <= PACKET_SAMPLES
    ensures i < PACKET_SAMPLES
  {
    (index + PACKET_SAMPLES - n) % PACKET_SAMPLES
  }

  /** The ring holds the last 1024 packets, each at its number modulo 1024, and 0 in the slots not yet used. */
  ghost predicate Holds(times: seq<int>, cmds: seq<int>, h: seq<Packet>)
    requires |times| == |cmds| == PACKET_SAMPLES
  {
    && (forall j | 0 <= j < |h| && |h| - PACKET_SAMPLES <= j ::
          times[SlotOf(j)] == h[j].time && cmds[SlotOf(j)] == h[j].cmds)
    && (forall i | |h| <= i < PACKET_SAMPLES :: times[i] == 0)
  }

  lemma HoldsOneMore(times: seq<int>, cmds: seq<int>, h: seq<Packet>, p: Packet)
    requires |times| == |cmds| == PACKET_SAMPLES && Holds(times, cmds, h)
    ensures Holds(times[SlotOf(|h|) := p.time], cmds[SlotOf(|h|) := p.cmds], h + [p])
  {
    forall j | 0 <= j < |h| && |h| + 1 - PACKET_SAMPLES <= j
      ensures SlotOf(j) != SlotOf(|h|)
    {
      SlotsDiffer(j, |h|);
    }
  }

  lemma SlotsDiffer(j: nat, k: nat)
    requires j < k < j + PACKET_SAMPLES
    ensures SlotOf(j) != SlotOf(k)
  {
  }

  lemma OrderedOneMore(h: seq<Packet>, p: Packet)
    requires Ordered(h) && 0 < p.time && (h != [] ==> h[|h| - 1].time <= p.time)
    ensures Ordered(h + [p])
  {
  }

  /** What the n-th slot back holds. */
  lemma SlotHolds(times: seq<int>, cmds: seq<int>, h: seq<Packet>, n: nat)
    requires |times| == |cmds| == PACKET_SAMPLES && Holds(times, cmds, h) && Ordered(h) && 1 <= n <= PACKET_SAMPLES
    ensures var i := SlotBefore(SlotOf(|h|), n);
      if n <= |h| then times[i] == h[|h| - n].time && times[i] != 0 && cmds[i] == h[|h| - n].cmds else times[i] == 0
  {
    hide SlotOf, SlotBefore;
    if n <= |h| {
      SlotBack(|h|, n);
    } else {
      SlotUnused(|h|, n);
    }
  }

  lemma SlotBack(length: nat, n: nat)
    requires 1 <= n <= length && n <= PACKET_SAMPLES
    ensures SlotBefore(SlotOf(length), n) == SlotOf(length - n)
  {
  }

  lemma SlotUnused(length: nat, n: nat)
    requires length < n <= PACKET_SAMPLES
    ensures SlotBefore(SlotOf(length), n) == length + PACKET_SAMPLES - n
  {
  }

  class NetEstimate {
    const packetTime: array<int>
    const packetCmds: array<int>
    var packetIndex: nat
    ghost var history: seq<Packet>

    constructor ()
      ensures Valid() && history == [] && fresh(packetTime) && fresh(packetCmds)
    {
      packetTime := new int[PACKET_SAMPLES](_ => 0);
      packetCmds := new int[PACKET_SAMPLES](_ => 0);
      packetIndex, history := 0, [];
    }

    ghost predicate Valid()
      reads this, packetTime, packetCmds
    {
      && packetTime.Length == packetCmds.Length == PACKET_SAMPLES && packetTime != packetCmds
      && packetIndex == SlotOf(|history|)
      && Ordered(history)
      && Holds(packetTime[..], packetCmds[..], history)
    }

    /** The part of PacketReceived that writes the ring. */
    method PacketReceived(now: int, newCmds: int)
      requires Valid() && 0 < now && (history != [] ==> history[|history| - 1].time <= now)
      modifies this, packetTime, packetCmds
      ensures Valid() && history == old(history) + [Packet(now, newCmds)]
    {
      hide Ordered, Holds;
      HoldsOneMore(packetTime[..], packetCmds[..], history, Packet(now, newCmds));
      OrderedOneMore(history, Packet(now, newCmds));
      packetTime[packetIndex] := now;
      packetCmds[packetIndex] := newCmds;
      packetIndex := (packetIndex + 1) % PACKET_SAMPLES;
      history := history + [Packet(now, newCmds)];
    }

    /** Backwards through the ring, to the first packet that is a second old: the answer, up to 1024 packets, that
        the whole history would give. */
    method CountPackets(now: int) returns (packets: nat, cmds: int)
      requires Valid()
      ensures packets == Min(Recent(history, now), PACKET_SAMPLES)
      ensures packets <= |history| && cmds == LastCmds(history, packets)
    {
      hide Recent, Cmds, LastCmds, Ordered, Holds, SlotOf, SlotBefore, Min;
      packets, cmds := 0, 0;
      var n := 1;
      NothingWalked(history, now);
      while n <= PACKET_SAMPLES
        invariant 1 <= n <= PACKET_SAMPLES + 1
        invariant packets == n - 1 <= |history|
        invariant cmds == LastCmds(history, packets)
        invariant Recent(history, now) == Recent(history[..|history| - packets], now) + packets
      {
        var i := SlotBefore(packetIndex, n);
        SlotHolds(packetTime[..], packetCmds[..], history, n);
        if packetTime[i] == 0 || now - packetTime[i] >= 1000 {
          StopWalking(history, now, packets);
          MinIs(Recent(history, now), packets);
          return;
        }
        WalkBack(history, now, packets);
        packets := packets + 1;
        cmds := cmds + packetCmds[i];
        n := n + 1;
      }
      MinIs(Recent(history, now), packets);
    }
  }

  lemma MinIs(recent: nat, n: nat)
    requires (recent == n && n <= PACKET_SAMPLES) || (recent >= n && n == PACKET_SAMPLES)
    ensures n == Min(recent, PACKET_SAMPLES)
  {
  }

  lemma NothingWalked(h: seq<Packet>, now: int)
    ensures Recent(h, now) <= |h| && h[..|h|] == h && LastCmds(h, 0) == 0
  {
    RecentIsAtMost(h, now);
  }

  /** One more recent packet. */
  lemma WalkBack(h: seq<Packet>, now: int, n: nat)
    requires n < |h| && IsRecent(h[|h| - n - 1], now)
    ensures Recent(h[..|h| - n], now) == Recent(h[..|h| - n - 1], now) + 1
    ensures LastCmds(h, n + 1) == LastCmds(h, n) + h[|h| - n - 1].cmds
  {
    assert h[..|h| - n][..|h| - n - 1] == h[..|h| - n - 1];
    assert h[|h| - n - 1..] == [h[|h| - n - 1]] + h[|h| - n..];
  }

  /** The walk stops at the start of the history, or at a packet that is too old. */
  lemma StopWalking(h: seq<Packet>, now: int, n: nat)
    requires Ordered(h) && n <= |h| && (n < |h| ==> !IsRecent(h[|h| - n - 1], now))
    ensures Recent(h[..|h| - n], now) == 0
  {
    if n < |h| {
      OldBeforeOld(h[..|h| - n], now);
    }
  }
}
