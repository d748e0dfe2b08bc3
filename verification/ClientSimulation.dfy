// The client time simulation: SimulateClient of Engine/NetStatus.cpp, and the list-based simulate_client of
// docs/netstatus-simulation.py that it stands for. The floating-point sums are reals.

module ClientSimulation {
  import opened Arithmetic

  const PHASES := 4
  const WARM_SNAPSHOTS := 30
  const SNAPSHOTS := 130
  const PACKETS := 10

  /** Three periods: from snapshot to snapshot and from frame to frame in ms, from packet to packet in frames. */
  datatype Params = Params(interval: int, frameMs: int, framesPerPacket: int) {
    predicate Valid() { 0 < interval && 0 < frameMs && 0 < framesPerPacket }
  }

  function Abs(x: int): nat { if x < 0 then -x else x }

  // ---------- The rules of the client ----------

  /** CL_AdjustTimeDelta: from the delta and the flag of before a new snapshot to those of after it. */
  function AdjustTimeDelta(delta: int, newDelta: int, extrapolated: bool): (int, bool) {
    var deltaDelta := Abs(newDelta - delta);
    if deltaDelta > 500 then (newDelta, extrapolated)
    else if deltaDelta > 100 then ((delta + newDelta) / 2, extrapolated)
    else if extrapolated then (delta - 2, false)
    else (delta + 1, false)
  }

  /** The client at the start of a frame, with what has been recorded so far. */
  datatype Client = Client(frame: nat, realtime: int, snapshots: nat, snapTime: int, delta: int, extrapolated: bool,
                           clServerTime: int, lastAcked: int, packets: nat, delays: seq<int>, rtts: seq<int>)

  function Start(p: Params, phase: nat): Client {
    Client(0, phase * p.frameMs / PHASES, 0, 0, -p.interval - 5, false, 0, -1, 0, [], [])
  }

  /** How many snapshots have arrived at a real time: those of the multiples of the interval up to it. */
  function Arrived(p: Params, realtime: int): int
    requires p.Valid()
  {
    realtime / p.interval + 1
  }

  /** The frames that send a packet. */
  predicate IsMultiple(n: nat, d: int)
    requires 0 < d
  {
    n % d == 0
  }

  /** When the k-th snapshot was made. */
  function SnapTime(p: Params, k: int): int { (k - 1) * p.interval }

  /** One frame. */
  function Frame(p: Params, s: Client): Client
    requires p.Valid()
  {
    var arrived := Max(0, Arrived(p, s.realtime));
    var isNew := arrived > s.snapshots;
    var snapTime := if isNew then SnapTime(p, arrived) else s.snapTime;
    var sends := arrived > WARM_SNAPSHOTS && IsMultiple(s.frame, p.framesPerPacket);
    var acks := sends && snapTime != s.lastAcked;
    var (delta, extrapolated) :=
      if isNew then AdjustTimeDelta(s.delta, snapTime - s.realtime, s.extrapolated) else (s.delta, s.extrapolated);
    Client(s.frame + 1, s.realtime + p.frameMs, if isNew then arrived else s.snapshots, snapTime,
           delta, extrapolated || s.realtime + delta >= snapTime - 5,
           Max(s.clServerTime, s.realtime + delta),
           if acks then snapTime else s.lastAcked,
           if sends then s.packets + 1 else s.packets,
           if sends then s.delays + [s.clServerTime - s.realtime] else s.delays,
           if acks then s.rtts + [s.realtime - snapTime] else s.rtts)
  }

  function At(p: Params, phase: nat, n: nat): Client
    requires p.Valid()
  {
    if n == 0 then Start(p, phase) else Frame(p, At(p, phase, n - 1))
  }

  predicate Done(s: Client) { s.snapshots >= SNAPSHOTS && s.packets >= PACKETS }

  /** Frame n is the first at which a phase is done. */
  ghost predicate Ends(p: Params, phase: nat, n: nat)
    requires p.Valid()
  {
    Done(At(p, phase, n)) && forall m: nat | m < n :: !Done(At(p, phase, m))
  }

  lemma EndsOnce(p: Params, phase: nat, n: nat, m: nat)
    requires p.Valid() && Ends(p, phase, n) && Ends(p, phase, m)
    ensures n == m
  {
  }

  // ---------- Arithmetic ----------

  /** The floor: k fits d times in x if and only if k * d does not exceed x. */
  lemma DivIsFloor(x: int, d: int, k: int)
    requires 0 < d
    ensures k <= x / d <==> k * d <= x
  {
    DivMod(x, d);
    if k < x / d {
      MulLess(k, x / d, d);
    } else if x / d < k {
      MulLess(x / d, k, d);
    }
  }

  // ---------- The clock of the simulation ----------

  /** After the first frame, the newest snapshot is less than an interval before the last frame. */
  ghost predicate Timely(p: Params, s: Client)
    requires p.Valid()
  {
    && (s.frame == 0 ==> s.snapshots == 0 && 0 <= s.realtime < p.frameMs)
    && (s.frame > 0 ==>
          && 0 <= s.realtime - p.frameMs
          && s.snapshots == Arrived(p, s.realtime - p.frameMs)
          && s.snapTime == SnapTime(p, s.snapshots))
  }

  lemma ArrivedBounds(p: Params, realtime: int)
    requires p.Valid() && 0 <= realtime
    ensures 1 <= Arrived(p, realtime)
    ensures SnapTime(p, Arrived(p, realtime)) <= realtime < SnapTime(p, Arrived(p, realtime)) + p.interval
  {
    DivMod(realtime, p.interval);
  }

  lemma ArrivedGrows(p: Params, before: int, realtime: int)
    requires p.Valid() && 0 <= before <= realtime
    ensures Arrived(p, before) <= Arrived(p, realtime)
    ensures Arrived(p, before) < Arrived(p, realtime) ==>
      SnapTime(p, Arrived(p, before)) + p.interval <= SnapTime(p, Arrived(p, realtime))
  {
    DivMod(before, p.interval);
    DivIsFloor(realtime, p.interval, before / p.interval);
    if Arrived(p, before) < Arrived(p, realtime) {
      MulLess(Arrived(p, before) - 1, Arrived(p, realtime) - 1, p.interval);
    }
  }

  lemma {:induction false} AlwaysTimely(p: Params, phase: nat, n: nat)
    requires p.Valid() && phase < PHASES
    ensures Timely(p, At(p, phase, n)) && At(p, phase, n).frame == n
    ensures At(p, phase, n).realtime == Start(p, phase).realtime + FrameTime(p, n)
  {
    hide Timely, Arrived, SnapTime, Start, Frame, FrameTime;
    FrameTimeStep(p, n);
    if n > 0 {
      AlwaysTimely(p, phase, n - 1);
      TimelyFrame(p, At(p, phase, n - 1));
      NextFrameTime(p, At(p, phase, n - 1));
    } else {
      StartIsTimely(p, phase);
    }
  }

  /** The time that n frames take. */
  function FrameTime(p: Params, n: nat): int { n * p.frameMs }

  lemma FrameTimeStep(p: Params, n: nat)
    ensures FrameTime(p, 0) == 0
    ensures n > 0 ==> FrameTime(p, n) == FrameTime(p, n - 1) + p.frameMs
  {
  }

  lemma NextFrameTime(p: Params, s: Client)
    requires p.Valid()
    ensures Frame(p, s).realtime == s.realtime + p.frameMs && Frame(p, s).frame == s.frame + 1
  {
    hide Arrived, SnapTime, IsMultiple, AdjustTimeDelta;
  }

  lemma StartIsTimely(p: Params, phase: nat)
    requires p.Valid() && phase < PHASES
    ensures Timely(p, Start(p, phase)) && Start(p, phase).frame == 0
  {
    assert phase == 0 || phase == 1 || phase == 2 || phase == 3;
  }

  lemma TimelyFrame(p: Params, s: Client)
    requires p.Valid() && Timely(p, s)
    ensures Timely(p, Frame(p, s)) && Frame(p, s).snapshots >= s.snapshots
  {
    hide Arrived, SnapTime, IsMultiple, AdjustTimeDelta;
    if s.frame > 0 {
      ArrivedGrows(p, s.realtime - p.frameMs, s.realtime);
    }
    ArrivedBounds(p, s.realtime);
  }

  // ---------- The band ----------

  /** The highest delta, in terms of the shorter of a frame and an interval. */
  function Upper(p: Params): int { Min(p.frameMs, p.interval) - p.interval - 5 }

  /** Between frames, the delta is in its band, and the flag says that the client got to snapTime - 5 since the last
      change of the delta. */
  ghost predicate InBand(p: Params, s: Client) {
    && -p.interval - 6 <= s.delta <= Upper(p)
    && (s.extrapolated ==> s.delta >= -p.interval - 4)
    && (s.frame > 0 && s.realtime - p.frameMs + s.delta >= s.snapTime - 5 ==> s.extrapolated)
    && (s.frame == 0 ==> s.delta == -p.interval - 5 && !s.extrapolated)
  }

  /** The difference that CL_AdjustTimeDelta looks at, in a frame that has a new snapshot. */
  function DeltaDelta(p: Params, s: Client): nat
    requires p.Valid()
  {
    Abs(Frame(p, s).snapTime - s.realtime - s.delta)
  }

  /**
   * The feedback loop, for every frame length and packet rate, and every interval that the caller lets through
   * (interval + 5 < 100): the fast adjust and the reset never run, and the delta stays in a band of the width of a
   * frame.
   */
  lemma {:induction false} DeltaStaysInBand(p: Params, phase: nat, n: nat)
    requires p.Valid() && phase < PHASES && p.interval + 5 < 100
    ensures InBand(p, At(p, phase, n))
    ensures DeltaDelta(p, At(p, phase, n)) <= 100
  {
    if n > 0 {
      DeltaStaysInBand(p, phase, n - 1);
      AlwaysTimely(p, phase, n - 1);
      BandFrame(p, At(p, phase, n - 1));
    }
    AlwaysTimely(p, phase, n);
    BandIsNear(p, At(p, phase, n));
  }

  lemma BandIsNear(p: Params, s: Client)
    requires p.Valid() && p.interval + 5 < 100 && Timely(p, s) && InBand(p, s)
    ensures DeltaDelta(p, s) <= 100
  {
    hide Arrived, SnapTime, IsMultiple;
    TimelyFrame(p, s);
    ArrivedBounds(p, s.realtime);
  }

  lemma BandFrame(p: Params, s: Client)
    requires p.Valid() && p.interval + 5 < 100 && Timely(p, s) && InBand(p, s)
    ensures InBand(p, Frame(p, s))
  {
    hide Arrived, SnapTime, IsMultiple;
    TimelyFrame(p, s);
    ArrivedBounds(p, s.realtime);
    BandIsNear(p, s);
    if s.frame > 0 {
      ArrivedGrows(p, s.realtime - p.frameMs, s.realtime);
      ArrivedBounds(p, s.realtime - p.frameMs);
    }
  }

  /** The client time never goes back, and stays below the real time and the top of the band. */
  lemma {:induction false} ClientTimeIsBounded(p: Params, phase: nat, n: nat)
    requires p.Valid() && phase < PHASES && p.interval + 5 < 100
    ensures 0 <= At(p, phase, n).clServerTime <= At(p, phase, n + 1).clServerTime
    ensures At(p, phase, n + 1).clServerTime <= Max(0, At(p, phase, n).realtime + Upper(p))
  {
    hide Frame, Arrived, SnapTime, Timely, Upper;
    var s := At(p, phase, n);
    DeltaStaysInBand(p, phase, n + 1);
    AlwaysTimely(p, phase, n);
    NextFrameTime(p, s);
    assert At(p, phase, n + 1) == Frame(p, s);
    ClientTimeFrame(p, s);
    if n > 0 {
      ClientTimeIsBounded(p, phase, n - 1);
      FrameTimeStep(p, n);
      AlwaysTimely(p, phase, n - 1);
    }
  }

  lemma ClientTimeFrame(p: Params, s: Client)
    requires p.Valid()
    ensures Frame(p, s).clServerTime == Max(s.clServerTime, s.realtime + Frame(p, s).delta)
  {
    hide Arrived, SnapTime, IsMultiple, AdjustTimeDelta;
  }

  /** The guard is tight: at the first interval that it refuses, the fast adjust does run. */
  lemma GuardIsTight()
    ensures var p := Params(95, 1, 1);
      p.interval + 5 == 100 && At(p, 0, 190).delta == -101 && DeltaDelta(p, At(p, 0, 190)) > 100
  {
    var p := Params(95, 1, 1);
    TightFirst(p, 95);
    TightSecond(p, 190);
    AlwaysTimely(p, 0, 190);
  }

  lemma {:induction false} TightFirst(p: Params, n: nat)
    requires p == Params(95, 1, 1) && 1 <= n <= 95
    ensures var s := At(p, 0, n);
      s.realtime == n && s.snapshots == 1 && s.snapTime == 0 && s.delta == -99 && (s.extrapolated <==> n == 95)
  {
    if n == 1 {
      assert At(p, 0, 1) == Frame(p, Start(p, 0));
    } else {
      TightFirst(p, n - 1);
    }
  }

  lemma {:induction false} TightSecond(p: Params, n: nat)
    requires p == Params(95, 1, 1) && 96 <= n <= 190
    ensures var s := At(p, 0, n);
      s.realtime == n && s.snapshots == 2 && s.snapTime == 95 && s.delta == -101 && !s.extrapolated
  {
    if n == 96 {
      TightFirst(p, 95);
    } else {
      TightSecond(p, n - 1);
    }
  }

  // ---------- The end of a phase ----------

  /** The frame at which 130 snapshots have arrived for sure, and the one at which 10 packets have then left. */
  function LastSnapshotFrame(p: Params): nat
    requires p.Valid()
  {
    DivMod((SNAPSHOTS - 1) * p.interval, p.frameMs);
    (SNAPSHOTS - 1) * p.interval / p.frameMs + 2
  }

  function LastFrame(p: Params): nat
    requires p.Valid()
  {
    LastSnapshotFrame(p) + PACKETS * p.framesPerPacket
  }

  /** How many frames before n send a packet, once the client is warm. */
  function Multiples(n: nat, d: nat): nat
    requires 0 < d
  {
    if n == 0 then 0 else Multiples(n - 1, d) + if IsMultiple(n - 1, d) then 1 else 0
  }

  lemma {:induction false} MultiplesIsDivision(n: nat, d: nat)
    requires 0 < d
    ensures Multiples(n, d) == (n + d - 1) / d
  {
    if n > 0 {
      MultiplesIsDivision(n - 1, d);
      CeilingStep(n - 1, d);
    } else {
      QuotientIs(d - 1, d, 0, d - 1);
    }
  }

  lemma CeilingStep(n: nat, d: nat)
    requires 0 < d
    ensures (n + d) / d == (n + d - 1) / d + if n % d == 0 then 1 else 0
  {
    var q, r := n / d, n % d;
    assert n == q * d + r;
    assert (q + 1) * d == q * d + d;
    QuotientIs(n + d, d, q + 1, r);
    if r == 0 {
      QuotientIs(n + d - 1, d, q, d - 1);
    } else {
      QuotientIs(n + d - 1, d, q + 1, r - 1);
    }
  }

  lemma QuotientIs(x: int, d: int, q: int, r: int)
    requires 0 <= r < d && x == q * d + r
    ensures x / d == q
  {
    DivIsFloor(x, d, q);
    DivIsFloor(x, d, q + 1);
    assert (q + 1) * d == q * d + d;
  }

  /** In k packets' worth of frames, k packets. */
  lemma MultiplesAdd(n: nat, k: nat, d: nat)
    requires 0 < d
    ensures Multiples(n + k * d, d) == Multiples(n, d) + k
  {
    MultiplesIsDivision(n, d);
    MultiplesIsDivision(n + k * d, d);
    DivAdd(n + d - 1, k, d);
  }

  lemma DivAdd(x: int, k: int, d: int)
    requires 0 < d
    ensures (x + k * d) / d == x / d + k
  {
    var q := x / d;
    DivMod(x, d);
    Distribute(q, k, d);
    QuotientIs(x + k * d, d, q + k, x - q * d);
  }

  lemma Distribute(a: int, b: int, d: int)
    ensures (a + b) * d == a * d + b * d
  {
  }

  lemma AllSnapshotsArrived(p: Params, phase: nat, n: nat)
    requires p.Valid() && phase < PHASES && n >= LastSnapshotFrame(p)
    ensures At(p, phase, n).snapshots >= SNAPSHOTS
  {
    hide At, SnapTime;
    AlwaysTimely(p, phase, n);
    FrameTimeStep(p, n);
    var realtime := At(p, phase, n).realtime - p.frameMs;
    var all := (SNAPSHOTS - 1) * p.interval;
    DivIsFloor(all, p.frameMs, n - 1);
    assert FrameTime(p, n - 1) >= all;
    DivIsFloor(realtime, p.interval, SNAPSHOTS - 1);
  }

  lemma {:induction false} PacketsLeave(p: Params, phase: nat, n: nat)
    requires p.Valid() && phase < PHASES && n >= LastSnapshotFrame(p)
    ensures At(p, phase, n).packets >= Multiples(n, p.framesPerPacket) - Multiples(LastSnapshotFrame(p), p.framesPerPacket)
    decreases n
  {
    hide Frame, LastSnapshotFrame, Timely, IsMultiple;
    if n > LastSnapshotFrame(p) {
      PacketsLeave(p, phase, n - 1);
      AllSnapshotsArrived(p, phase, n - 1);
      AlwaysTimely(p, phase, n - 1);
      WarmFrame(p, At(p, phase, n - 1));
    }
  }

  lemma WarmFrame(p: Params, s: Client)
    requires p.Valid() && Timely(p, s) && s.snapshots >= SNAPSHOTS
    ensures Frame(p, s).packets == s.packets + if IsMultiple(s.frame, p.framesPerPacket) then 1 else 0
  {
    hide Arrived, SnapTime, IsMultiple, AdjustTimeDelta;
    ArrivedGrows(p, s.realtime - p.frameMs, s.realtime);
  }

  /** Every phase ends, at the latest at LastFrame. */
  lemma PhaseEnds(p: Params, phase: nat)
    requires p.Valid() && phase < PHASES
    ensures Done(At(p, phase, LastFrame(p)))
  {
    hide At;
    AllSnapshotsArrived(p, phase, LastFrame(p));
    PacketsLeave(p, phase, LastFrame(p));
    MultiplesAdd(LastSnapshotFrame(p), PACKETS, p.framesPerPacket);
  }

  lemma {:induction false} DoneStays(p: Params, phase: nat, n: nat, m: nat)
    requires p.Valid() && n <= m && phase < PHASES && Done(At(p, phase, n))
    ensures Done(At(p, phase, m))
    decreases m
  {
    if n < m {
      DoneStays(p, phase, n, m - 1);
      AlwaysTimely(p, phase, m - 1);
      TimelyFrame(p, At(p, phase, m - 1));
    }
  }

  // ---------- What is recorded ----------

  /** The first frame from n on at which a phase is done. */
  function End(p: Params, phase: nat, n: nat): (r: nat)
    requires p.Valid() && phase < PHASES && n <= LastFrame(p)
    ensures n <= r <= LastFrame(p) && Done(At(p, phase, r))
    ensures forall m: nat | n <= m < r :: !Done(At(p, phase, m))
    decreases LastFrame(p) - n
  {
    PhaseEnds(p, phase);
    if Done(At(p, phase, n)) then n else End(p, phase, n + 1)
  }

  /** The delays of the first k phases, in order. */
  function Delays(p: Params, k: nat): seq<int>
    requires p.Valid() && k <= PHASES
  {
    if k == 0 then [] else Delays(p, k - 1) + At(p, k - 1, End(p, k - 1, 0)).delays
  }

  function RoundTrips(p: Params, k: nat): seq<int>
    requires p.Valid() && k <= PHASES
  {
    if k == 0 then [] else RoundTrips(p, k - 1) + At(p, k - 1, End(p, k - 1, 0)).rtts
  }

  ghost predicate Recording(p: Params, s: Client) {
    && |s.delays| == s.packets
    && (s.rtts == [] ==> s.lastAcked == -1 && s.packets == 0)
    && 0 <= s.snapTime
    && forall x | x in s.rtts :: 0 <= x < p.interval
  }

  lemma {:induction false} AlwaysRecording(p: Params, phase: nat, n: nat)
    requires p.Valid() && phase < PHASES
    ensures Recording(p, At(p, phase, n))
  {
    hide Frame, Timely;
    if n > 0 {
      hide Recording;
      AlwaysRecording(p, phase, n - 1);
      AlwaysTimely(p, phase, n - 1);
      RecordingFrame(p, At(p, phase, n - 1));
    }
  }

  lemma RecordingFrame(p: Params, s: Client)
    requires p.Valid() && Timely(p, s) && Recording(p, s)
    ensures Recording(p, Frame(p, s))
  {
    hide Arrived, SnapTime, IsMultiple, AdjustTimeDelta;
    TimelyFrame(p, s);
    ArrivedBounds(p, s.realtime);
    SnapTimeNotNegative(p, Arrived(p, s.realtime));
  }

  lemma SnapTimeNotNegative(p: Params, k: int)
    requires p.Valid() && 1 <= k
    ensures 0 <= SnapTime(p, k)
  {
  }

  /** There is a delay and a round trip to take the mean of, and every round trip is in [0, interval). */
  lemma {:induction false} SomethingIsRecorded(p: Params, k: nat)
    requires p.Valid() && 0 < k <= PHASES
    ensures Delays(p, k) != [] && RoundTrips(p, k) != []
    ensures |Delays(p, k)| >= PACKETS * k
    ensures forall x | x in RoundTrips(p, k) :: 0 <= x < p.interval
    decreases k
  {
    hide At;
    if k > 1 {
      SomethingIsRecorded(p, k - 1);
    }
    AlwaysRecording(p, k - 1, End(p, k - 1, 0));
  }

  function Sum(s: seq<int>): int {
    if s == [] then 0 else Sum(s[..|s| - 1]) + s[|s| - 1]
  }

  function Mean(s: seq<int>): real
    requires s != []
  {
    Sum(s) as real / |s| as real
  }

  function Smallest(s: seq<int>): (r: int)
    requires s != []
    ensures r in s && forall x | x in s :: r <= x
  {
    var last := s[|s| - 1];
    if |s| == 1 then last
    else
      assert s == s[..|s| - 1] + [last];
      Min(Smallest(s[..|s| - 1]), last)
  }

  function MaxReal(a: real, b: real): real { if a < b then b else a }

  /** The delay and the round trip of the simulated client, as the script defines them. */
  function MeanDelay(p: Params): real
    requires p.Valid()
  {
    SomethingIsRecorded(p, PHASES);
    Mean(Delays(p, PHASES))
  }

  function RoundTrip(p: Params): real
    requires p.Valid()
  {
    SomethingIsRecorded(p, PHASES);
    MaxReal(Smallest(RoundTrips(p, PHASES)) as real,
            Mean(RoundTrips(p, PHASES)) - (p.framesPerPacket * p.frameMs) as real / 2.0)
  }

  // ---------- What the recorded values are ----------

  /** The real time of frame m. */
  function FrameAt(p: Params, phase: nat, m: nat): int { phase * p.frameMs / 4 + FrameTime(p, m) }

  /** Frame m sends a recorded packet: 31 snapshots have arrived, from 0 to 30 intervals. */
  predicate Sends(p: Params, phase: nat, m: nat)
    requires p.Valid()
  {
    FrameAt(p, phase, m) >= 30 * p.interval && m % p.framesPerPacket == 0
  }

  /** How old the newest snapshot is at frame m. */
  function Age(p: Params, phase: nat, m: nat): int
    requires p.Valid()
  {
    FrameAt(p, phase, m) % p.interval
  }

  function Sent(p: Params, phase: nat, n: nat): nat
    requires p.Valid()
  {
    if n == 0 then 0 else Sent(p, phase, n - 1) + if Sends(p, phase, n - 1) then 1 else 0
  }

  /** The newest snapshot that a packet before frame n has acknowledged; -1 when there was no packet. */
  function Acknowledged(p: Params, phase: nat, n: nat): int
    requires p.Valid()
  {
    if n == 0 then -1
    else if Sends(p, phase, n - 1) then FrameAt(p, phase, n - 1) - Age(p, phase, n - 1)
    else Acknowledged(p, phase, n - 1)
  }

  /** The ages of the snapshots at the first packet after each of them. */
  function Ages(p: Params, phase: nat, n: nat): seq<int>
    requires p.Valid()
  {
    if n == 0 then []
    else
      var m := n - 1;
      var first := Sends(p, phase, m) && FrameAt(p, phase, m) - Age(p, phase, m) != Acknowledged(p, phase, m);
      Ages(p, phase, m) + if first then [Age(p, phase, m)] else []
  }

  /** What one frame records. */
  lemma FrameRecords(p: Params, phase: nat, n: nat)
    requires p.Valid() && phase < PHASES
    ensures var s, s' := At(p, phase, n), At(p, phase, n + 1);
            var newest := FrameAt(p, phase, n) - Age(p, phase, n);
      && s.realtime == FrameAt(p, phase, n)
      && (s'.snapshots >= 130 <==> FrameAt(p, phase, n) >= 129 * p.interval)
      && if Sends(p, phase, n) then
           && s'.packets == s.packets + 1 && s'.delays == s.delays + [s.clServerTime - s.realtime]
           && s'.lastAcked == newest
           && s'.rtts == s.rtts + if newest != s.lastAcked then [Age(p, phase, n)] else []
         else
           s'.packets == s.packets && s'.delays == s.delays && s'.lastAcked == s.lastAcked && s'.rtts == s.rtts
  {
    hide At, Timely, Arrived, SnapTime, Frame, FrameTime, Start;
    AlwaysTimely(p, phase, n);
    BeforeFrame(p, phase, n);
    var s := At(p, phase, n);
    StartsAt(p, phase);
    ArrivedIs(p, s.realtime);
    TimelyNow(p, s);
    RecordedBy(p, s);
  }

  lemma StartsAt(p: Params, phase: nat)
    ensures Start(p, phase).realtime == phase * p.frameMs / 4
  {
  }

  lemma ArrivedIs(p: Params, realtime: int)
    requires p.Valid() && 0 <= realtime
    ensures SnapTime(p, Arrived(p, realtime)) == realtime - realtime % p.interval
    ensures Arrived(p, realtime) > 30 <==> realtime >= 30 * p.interval
    ensures Arrived(p, realtime) >= 130 <==> realtime >= 129 * p.interval
    ensures Arrived(p, realtime) >= 1
  {
    DivMod(realtime, p.interval);
    DivIsFloor(realtime, p.interval, 30);
    DivIsFloor(realtime, p.interval, 129);
    DivIsFloor(realtime, p.interval, 0);
  }

  lemma TimelyNow(p: Params, s: Client)
    requires p.Valid() && Timely(p, s)
    ensures 0 <= s.realtime && s.snapshots <= Arrived(p, s.realtime)
    ensures Frame(p, s).snapshots == Arrived(p, s.realtime)
    ensures Frame(p, s).snapTime == SnapTime(p, Arrived(p, s.realtime))
  {
    hide Arrived, SnapTime, IsMultiple, AdjustTimeDelta;
    TimelyFrame(p, s);
    ArrivedBounds(p, s.realtime);
    if s.frame > 0 {
      ArrivedGrows(p, s.realtime - p.frameMs, s.realtime);
    }
  }

  lemma RecordedBy(p: Params, s: Client)
    requires p.Valid() && Arrived(p, s.realtime) >= 1
    ensures var s', newest := Frame(p, s), Frame(p, s).snapTime;
      if Arrived(p, s.realtime) > WARM_SNAPSHOTS && s.frame % p.framesPerPacket == 0 then
        && s'.packets == s.packets + 1 && s'.delays == s.delays + [s.clServerTime - s.realtime]
        && s'.lastAcked == newest
        && s'.rtts == s.rtts + if newest != s.lastAcked then [s.realtime - newest] else []
      else
        s'.packets == s.packets && s'.delays == s.delays && s'.lastAcked == s.lastAcked && s'.rtts == s.rtts
  {
    hide Arrived, SnapTime, AdjustTimeDelta;
  }

  /** The round trips that are recorded are those ages, and a phase ends by the times of its frames alone. */
  lemma {:induction false} RoundTripsAre(p: Params, phase: nat, n: nat)
    requires p.Valid() && phase < PHASES
    ensures At(p, phase, n).rtts == Ages(p, phase, n) && At(p, phase, n).lastAcked == Acknowledged(p, phase, n)
    ensures At(p, phase, n).packets == Sent(p, phase, n) == |At(p, phase, n).delays|
    ensures n > 0 ==>
      (Done(At(p, phase, n)) <==> FrameAt(p, phase, n - 1) >= 129 * p.interval && Sent(p, phase, n) >= 10)
  {
    if n > 0 {
      RoundTripsAre(p, phase, n - 1);
      hide Frame, At, FrameAt, Age, Sends;
      FrameRecords(p, phase, n - 1);
    }
  }

  /**
   * Every recorded delay, for the intervals that the caller lets through: the client is behind by an interval and five
   * milliseconds at the least, and by a frame and one more at the most.
   */
  lemma {:induction false} DelaysAreBounded(p: Params, phase: nat, n: nat)
    requires p.Valid() && phase < PHASES && p.interval + 5 < 100
    ensures forall d | d in At(p, phase, n).delays :: -p.frameMs - p.interval - 6 <= d <= -p.interval - 5
  {
    hide Frame, At;
    if n == 0 {
      AtStart(p, phase, [], []);
    } else {
      var m := n - 1;
      DelaysAreBounded(p, phase, m);
      FrameRecords(p, phase, m);
      if Sends(p, phase, m) {
        DelayIsBounded(p, phase, m);
      }
    }
  }

  lemma DelayIsBounded(p: Params, phase: nat, n: nat)
    requires p.Valid() && phase < PHASES && p.interval + 5 < 100 && Sends(p, phase, n)
    ensures var s := At(p, phase, n);
      -p.frameMs - p.interval - 6 <= s.clServerTime - s.realtime <= -p.interval - 5
  {
    hide Frame, At, Arrived, SnapTime, Timely, Start;
    AlwaysTimely(p, phase, n);
    StartsAt(p, phase);
    if n == 0 {
      AtStart(p, phase, [], []);
      StartIsTimely(p, phase);
      FirstRealTime(p, phase);
    } else {
      FrameTimeStep(p, n);
      var s := At(p, phase, n - 1);
      BeforeFrame(p, phase, n - 1);
      AlwaysTimely(p, phase, n - 1);
      DeltaStaysInBand(p, phase, n);
      ClientTimeIsBounded(p, phase, n - 1);
      ClientTimeFrame(p, s);
    }
  }

  lemma FirstRealTime(p: Params, phase: nat)
    requires p.Valid() && phase < PHASES
    ensures 0 <= phase * p.frameMs / 4 < p.frameMs
  {
    assert phase == 0 || phase == 1 || phase == 2 || phase == 3;
  }

  /** The sum of a list is the sum of its parts. */
  lemma {:induction false} SumAppend(a: seq<int>, b: seq<int>)
    ensures Sum(a + b) == Sum(a) + Sum(b)
    ensures |b| == 1 ==> Sum(b) == b[0]
    decreases |b|
  {
    if b == [] {
      assert a + b == a;
    } else {
      assert (a + b)[..|a + b| - 1] == a + b[..|b| - 1];
      SumAppend(a, b[..|b| - 1]);
    }
  }

  lemma {:induction false} SumIsBounded(s: seq<int>, low: int, high: int)
    requires forall x | x in s :: low <= x <= high
    ensures low * |s| <= Sum(s) <= high * |s|
  {
    if s != [] {
      var rest := s[..|s| - 1];
      assert s[|s| - 1] in s && forall x | x in rest :: x in s;
      SumIsBounded(rest, low, high);
      assert low * |s| == low * |rest| + low && high * |s| == high * |rest| + high;
    }
  }

  lemma MeanIsBounded(s: seq<int>, low: int, high: int)
    requires s != [] && forall x | x in s :: low <= x <= high
    ensures low as real <= Mean(s) <= high as real
  {
    SumIsBounded(s, low, high);
    Quotient(Sum(s), |s|, low, high);
  }

  lemma Quotient(x: int, d: int, low: int, high: int)
    requires 0 < d && low * d <= x <= high * d
    ensures low as real <= x as real / d as real <= high as real
  {
    var q := x as real / d as real;
    assert q * d as real == x as real;
    assert (low * d) as real == low as real * d as real && (high * d) as real == high as real * d as real;
    if q < low as real {
      MulLessReal(q, low as real, d as real);
    }
    if q > high as real {
      MulLessReal(high as real, q, d as real);
    }
  }

  lemma MulLessReal(a: real, b: real, d: real)
    requires a < b && 0.0 < d
    ensures a * d < b * d
  {
  }

  lemma {:induction false} AllDelaysAreBounded(p: Params, k: nat)
    requires p.Valid() && k <= PHASES && p.interval + 5 < 100
    ensures forall d | d in Delays(p, k) :: -p.frameMs - p.interval - 6 <= d <= -p.interval - 5
    decreases k
  {
    hide At;
    if k > 0 {
      AllDelaysAreBounded(p, k - 1);
      DelaysAreBounded(p, k - 1, End(p, k - 1, 0));
    }
  }

  /** So is their mean. */
  lemma MeanDelayIsBounded(p: Params)
    requires p.Valid() && p.interval + 5 < 100
    ensures (-p.frameMs - p.interval - 6) as real <= MeanDelay(p) <= (-p.interval - 5) as real
    ensures MeanDelay(p) * |Delays(p, PHASES)| as real == Sum(Delays(p, PHASES)) as real
  {
    hide Delays, Mean, Sum;
    AllDelaysAreBounded(p, PHASES);
    SomethingIsRecorded(p, PHASES);
    MeanIs(Delays(p, PHASES));
    MeanIsBounded(Delays(p, PHASES), -p.frameMs - p.interval - 6, -p.interval - 5);
  }

  /** The ages that the first k phases record. */
  function AllAges(p: Params, k: nat): seq<int>
    requires p.Valid() && k <= PHASES
  {
    if k == 0 then [] else AllAges(p, k - 1) + Ages(p, k - 1, End(p, k - 1, 0))
  }

  lemma {:induction false} AllRoundTripsAre(p: Params, k: nat)
    requires p.Valid() && k <= PHASES
    ensures RoundTrips(p, k) == AllAges(p, k)
    decreases k
  {
    hide At, Ages;
    if k > 0 {
      AllRoundTripsAre(p, k - 1);
      RoundTripsAre(p, k - 1, End(p, k - 1, 0));
    }
  }

  /** The larger of the least value and the mean less `half`, where the mean is total / count. */
  ghost predicate IsLarger(r: real, least: real, total: real, count: real, half: real) {
    && least <= r && total - half * count <= r * count
    && (r == least || r * count == total - half * count)
  }

  /**
   * The round trip: the mean age less half the time between two packets, but not less than the least age. It is at
   * least 0 and below the interval, and it is the least age when packets are two intervals apart or more.
   */
  lemma RoundTripMeans(p: Params) returns (least: int)
    requires p.Valid()
    ensures var ages, between := AllAges(p, PHASES), p.framesPerPacket * p.frameMs;
      && least in ages && (forall x | x in ages :: least <= x)
      && IsLarger(RoundTrip(p), least as real, Sum(ages) as real, |ages| as real, between as real / 2.0)
      && (between >= 2 * p.interval ==> RoundTrip(p) == least as real)
    ensures 0.0 <= RoundTrip(p) < p.interval as real
  {
    hide Sum, AllAges, Mean, RoundTrip, MaxReal, IsLarger;
    RoundTripIs(p);
    var ages, between := AllAges(p, PHASES), p.framesPerPacket * p.frameMs;
    least := Smallest(ages);
    MeanIs(ages);
    LargerOf(Mean(ages), Sum(ages) as real, |ages| as real, between as real / 2.0, least as real);
    MeanIsBounded(ages, 0, p.interval - 1);
    assert 0 < between by { MulLess(0, p.framesPerPacket, p.frameMs); }
    HeldBack(p.interval, Mean(ages), least, between);
  }

  lemma HeldBack(interval: int, mean: real, least: int, between: int)
    requires 0 <= least < interval && 0.0 <= mean <= (interval - 1) as real && 0 < between
    ensures var r := MaxReal(least as real, mean - between as real / 2.0);
      0.0 <= r < interval as real && (between >= 2 * interval ==> r == least as real)
  {
  }

  lemma RoundTripIs(p: Params)
    requires p.Valid()
    ensures var ages := AllAges(p, PHASES);
      && ages != [] && (forall x | x in ages :: 0 <= x < p.interval)
      && RoundTrip(p)
         == MaxReal(Smallest(ages) as real, Mean(ages) - (p.framesPerPacket * p.frameMs) as real / 2.0)
  {
    hide RoundTrips, AllAges, Mean, Sum;
    SomethingIsRecorded(p, PHASES);
    AllRoundTripsAre(p, PHASES);
  }

  lemma MeanIs(s: seq<int>)
    requires s != []
    ensures Mean(s) * |s| as real == Sum(s) as real
  {
    hide Sum;
  }

  lemma LargerOf(mean: real, total: real, count: real, half: real, least: real)
    requires 0.0 < count && mean * count == total
    ensures IsLarger(MaxReal(least, mean - half), least, total, count, half)
  {
    assert (mean - half) * count == total - half * count;
    if mean - half < least {
      MulLessReal(mean - half, least, count);
    }
  }

  /** What SimulateClient returns is in between. */
  lemma SimulatedIsBounded(p: Params)
    requires p.Valid() && p.interval + 5 < 100
    ensures (-p.frameMs - p.interval - 6) as real <= MeanDelay(p) + RoundTrip(p) < -5.0
  {
    hide MeanDelay, RoundTrip;
    MeanDelayIsBounded(p);
    var _ := RoundTripMeans(p);
  }

  // ---------- The two programs ----------

  /** The inner loop of both programs: what has arrived by now, and which snapshot is newest. */
  method Arrivals(p: Params, realtime: int, before: nat, timeBefore: int)
    returns (snapshots: nat, snapTime: int, newSnapshot: bool)
    requires p.Valid() && 0 <= realtime && before <= Arrived(p, realtime)
    ensures snapshots == Arrived(p, realtime)
    ensures newSnapshot <==> before < snapshots
    ensures snapTime == if newSnapshot then SnapTime(p, snapshots) else timeBefore
  {
    snapshots, snapTime, newSnapshot := before, timeBefore, false;
    while snapshots * p.interval <= realtime
      invariant before <= snapshots <= Arrived(p, realtime)
      invariant newSnapshot <==> before < snapshots
      invariant snapTime == if newSnapshot then SnapTime(p, snapshots) else timeBefore
      decreases Arrived(p, realtime) - snapshots
    {
      DivIsFloor(realtime, p.interval, snapshots);
      snapTime := snapshots * p.interval;
      newSnapshot := true;
      snapshots := snapshots + 1;
    }
    DivIsFloor(realtime, p.interval, snapshots);
  }

  lemma AtStart(p: Params, phase: nat, delays: seq<int>, rtts: seq<int>)
    requires p.Valid()
    ensures At(p, phase, 0)
         == Client(0, phase * p.frameMs / PHASES, 0, 0, -p.interval - 5, false, 0, -1, 0, [], [])
    ensures delays + At(p, phase, 0).delays == delays && rtts + At(p, phase, 0).rtts == rtts
  {
  }

  lemma BeforeFrame(p: Params, phase: nat, n: nat)
    requires p.Valid() && phase < PHASES
    ensures var s := At(p, phase, n);
      && 0 <= s.realtime && s.snapshots <= Arrived(p, s.realtime)
      && SnapTime(p, Arrived(p, s.realtime)) <= s.realtime
      && (s.snapshots == Arrived(p, s.realtime) ==> s.snapTime == SnapTime(p, s.snapshots))
      && At(p, phase, n + 1) == Frame(p, s)
    ensures n <= End(p, phase, 0) && !Done(At(p, phase, n)) ==> n < End(p, phase, 0)
  {
    AlwaysTimely(p, phase, n);
    TimelyFrame(p, At(p, phase, n));
    ArrivedBounds(p, At(p, phase, n).realtime);
  }

  /** At the frame where the loop of a phase ends, its recorded values are those of the phase. */
  lemma PhaseDone(p: Params, phase: nat, n: nat)
    requires p.Valid() && phase < PHASES && n <= End(p, phase, 0) && Done(At(p, phase, n))
    ensures Delays(p, phase + 1) == Delays(p, phase) + At(p, phase, n).delays
    ensures RoundTrips(p, phase + 1) == RoundTrips(p, phase) + At(p, phase, n).rtts
  {
    hide At;
    assert n == End(p, phase, 0);
  }

  /** simulate_client with the mean: it keeps the values, and takes their statistics at the end. */
  method SimulateClientLists(interval: int, frameMs: int, framesPerPacket: int) returns (delay: real, rtt: real)
    requires Params(interval, frameMs, framesPerPacket).Valid()
    ensures delay == MeanDelay(Params(interval, frameMs, framesPerPacket))
    ensures rtt == RoundTrip(Params(interval, frameMs, framesPerPacket))
  {
    hide Arrived, SnapTime, LastFrame, LastSnapshotFrame, At, Sum, AdjustTimeDelta, Mean, IsMultiple, End;
    var p := Params(interval, frameMs, framesPerPacket);
    var delays, rtts: seq<int> := [], [];
    for phase := 0 to PHASES
      invariant delays == Delays(p, phase) && rtts == RoundTrips(p, phase)
    {
      var realtime := phase * frameMs / PHASES;
      var n: nat, sent: nat, frame: nat := 0, 0, 0;
      var snapTime, newSnapshot, delta, extrapolated, clServerTime, lastAcked := 0, false, -interval - 5, false, 0, -1;
      ghost var before := (delays, rtts);
      AtStart(p, phase, delays, rtts);
      while n < SNAPSHOTS || sent < PACKETS
        invariant frame <= End(p, phase, 0) && !newSnapshot
        invariant var s := At(p, phase, frame);
          && s == Client(frame, realtime, n, snapTime, delta, extrapolated, clServerTime, lastAcked, sent, s.delays, s.rtts)
          && delays == before.0 + s.delays && rtts == before.1 + s.rtts
        decreases End(p, phase, 0) - frame
      {
        ghost var s := At(p, phase, frame);
        BeforeFrame(p, phase, frame);
        n, snapTime, newSnapshot := Arrivals(p, realtime, n, snapTime);
        if n > WARM_SNAPSHOTS && IsMultiple(frame, framesPerPacket) {
          delays := delays + [clServerTime - realtime];
          sent := sent + 1;
          if snapTime != lastAcked {
            lastAcked := snapTime;
            rtts := rtts + [realtime - snapTime];
          }
        }
        if newSnapshot {
          var r := AdjustTimeDelta(delta, snapTime - realtime, extrapolated);
          delta, extrapolated := r.0, r.1;
          newSnapshot := false;
        }
        clServerTime := Max(clServerTime, realtime + delta);
        if realtime + delta >= snapTime - 5 {
          extrapolated := true;
        }
        frame := frame + 1;
        realtime := realtime + frameMs;
      }
      PhaseDone(p, phase, frame);
    }
    SomethingIsRecorded(p, PHASES);
    var hold := (framesPerPacket * frameMs) as real / 2.0;
    return Mean(delays), MaxReal(Smallest(rtts) as real, Mean(rtts) - hold);
  }

  /** What SimulateClient keeps instead of the values. */
  ghost predicate Sums(delays: seq<int>, rtts: seq<int>, delaySum: real, delayCount: nat, rttMin: int, rttSum: int,
                       rttCount: nat) {
    && delaySum == Sum(delays) as real && delayCount == |delays|
    && rttSum == Sum(rtts) && rttCount == |rtts|
    && (forall x | x in rtts :: 0 <= x)
    && rttMin == if rtts == [] then -1 else Smallest(rtts)
  }

  lemma AddDelay(delays: seq<int>, rtts: seq<int>, delaySum: real, delayCount: nat, rttMin: int, rttSum: int,
                 rttCount: nat, x: int)
    requires Sums(delays, rtts, delaySum, delayCount, rttMin, rttSum, rttCount)
    ensures Sums(delays + [x], rtts, delaySum + x as real, delayCount + 1, rttMin, rttSum, rttCount)
  {
    assert (delays + [x])[..|delays|] == delays;
  }

  lemma AddRoundTrip(delays: seq<int>, rtts: seq<int>, delaySum: real, delayCount: nat, rttMin: int, rttSum: int,
                     rttCount: nat, x: nat)
    requires Sums(delays, rtts, delaySum, delayCount, rttMin, rttSum, rttCount)
    ensures Sums(delays, rtts + [x], delaySum, delayCount, if rttMin < 0 || x < rttMin then x else rttMin, rttSum + x,
                 rttCount + 1)
  {
    assert (rtts + [x])[..|rtts|] == rtts;
  }

  /**
   * SimulateClient of the proxy, which keeps sums, a count and a minimum. It returns what the script returns, as the
   * sum of the two values.
   */
  method SimulateClient(interval: int, frameMs: int, framesPerPacket: int) returns (r: real)
    requires Params(interval, frameMs, framesPerPacket).Valid()
    ensures r == MeanDelay(Params(interval, frameMs, framesPerPacket))
                 + RoundTrip(Params(interval, frameMs, framesPerPacket))
  {
    hide Arrived, SnapTime, LastFrame, LastSnapshotFrame, At, Sum, Mean, Sums, AdjustTimeDelta, Start, Abs, IsMultiple, End;
    var p := Params(interval, frameMs, framesPerPacket);
    var delaySum, delayCount, rttMin, rttSum, rttCount := 0.0, 0, -1, 0, 0;
    ghost var delays, rtts: seq<int> := [], [];
    NothingSummed();
    for phase := 0 to PHASES
      invariant delays == Delays(p, phase) && rtts == RoundTrips(p, phase)
      invariant Sums(delays, rtts, delaySum, delayCount, rttMin, rttSum, rttCount)
    {
      var realtime := phase * frameMs / PHASES;
      var snapshots: nat, packets: nat, frame: nat := 0, 0, 0;
      var snapTime, newSnapshot, serverTimeDelta, extrapolated := 0, false, -interval - 5, false;
      var clServerTime, lastAcked := 0, -1;
      ghost var before := (delays, rtts);
      AtStart(p, phase, delays, rtts);
      while snapshots < SNAPSHOTS || packets < PACKETS
        invariant frame <= End(p, phase, 0) && !newSnapshot
        invariant var s := At(p, phase, frame);
          && s == Client(frame, realtime, snapshots, snapTime, serverTimeDelta, extrapolated, clServerTime, lastAcked,
                         packets, s.delays, s.rtts)
          && delays == before.0 + s.delays && rtts == before.1 + s.rtts
        invariant Sums(delays, rtts, delaySum, delayCount, rttMin, rttSum, rttCount)
        decreases End(p, phase, 0) - frame
      {
        ghost var s := At(p, phase, frame);
        BeforeFrame(p, phase, frame);
        snapshots, snapTime, newSnapshot := Arrivals(p, realtime, snapshots, snapTime);

        // A packet, with the time that the last frame left
        if snapshots > WARM_SNAPSHOTS && IsMultiple(frame, framesPerPacket) {
          AddDelay(delays, rtts, delaySum, delayCount, rttMin, rttSum, rttCount, clServerTime - realtime);
          delays := delays + [clServerTime - realtime];
          delaySum := delaySum + (clServerTime - realtime) as real;
          delayCount := delayCount + 1;
          packets := packets + 1;
          if snapTime != lastAcked {
            var rtt := realtime - snapTime;
            lastAcked := snapTime;
            AddRoundTrip(delays, rtts, delaySum, delayCount, rttMin, rttSum, rttCount, rtt);
            rtts := rtts + [rtt];
            rttSum := rttSum + rtt;
            rttCount := rttCount + 1;
            rttMin := if rttMin < 0 || rtt < rttMin then rtt else rttMin;
          }
        }

        // The delta, once per new snapshot
        if newSnapshot {
          serverTimeDelta, extrapolated := AdjustInPlace(serverTimeDelta, snapTime - realtime, extrapolated);
          newSnapshot := false;
        }

        // The client time, and whether it has got near the snapshot
        clServerTime := Max(clServerTime, realtime + serverTimeDelta);
        if realtime + serverTimeDelta >= snapTime - 5 {
          extrapolated := true;
        }
        frame := frame + 1;
        realtime := realtime + frameMs;
      }
      PhaseDone(p, phase, frame);
    }
    SomethingIsRecorded(p, PHASES);
    var hold := (framesPerPacket * frameMs) as real / 2.0;
    SumsGiveMeans(delays, rtts, delaySum, delayCount, rttMin, rttSum, rttCount);
    return delaySum / delayCount as real + MaxReal(rttMin as real, rttSum as real / rttCount as real - hold);
  }

  /** The part of the frame that runs CL_AdjustTimeDelta. */
  method AdjustInPlace(delta: int, newDelta: int, flag: bool) returns (serverTimeDelta: int, extrapolated: bool)
    ensures (serverTimeDelta, extrapolated) == AdjustTimeDelta(delta, newDelta, flag)
  {
    serverTimeDelta, extrapolated := delta, flag;
    var deltaDelta := Abs(newDelta - serverTimeDelta);
    if deltaDelta > 500 {
      serverTimeDelta := newDelta;
    } else if deltaDelta > 100 {
      serverTimeDelta := (serverTimeDelta + newDelta) / 2;
    } else if extrapolated {
      extrapolated := false;
      serverTimeDelta := serverTimeDelta - 2;
    } else {
      serverTimeDelta := serverTimeDelta + 1;
    }
  }

  lemma NothingSummed()
    ensures Sums([], [], 0.0, 0, -1, 0, 0)
  {
  }

  lemma SumsGiveMeans(delays: seq<int>, rtts: seq<int>, delaySum: real, delayCount: nat, rttMin: int, rttSum: int,
                      rttCount: nat)
    requires Sums(delays, rtts, delaySum, delayCount, rttMin, rttSum, rttCount) && delays != [] && rtts != []
    ensures 0 < delayCount && 0 < rttCount
    ensures delaySum / delayCount as real == Mean(delays)
    ensures rttMin == Smallest(rtts) && rttSum as real / rttCount as real == Mean(rtts)
  {
  }
}
