/** Value-level model of the dead-reckoning extrapolator: its state as a
    datatype, and each operation as a function from the old state to the new
    one. Floating-point quantities are modelled as `real`; narrowing casts are
    taken to be exact. The class in module Extrapolator is proved against
    these functions. */
module Extrapolation {

  datatype Option<T> = None | Some(value: T)

  /** Guard against near-zero intervals, used both when deriving a velocity
      from two samples and when aiming the snap segment. */
  const Epsilon: real := 0.0001

  /** Every field of one extrapolator; all four vectors have the same length,
      the dimension fixed at construction. */
  datatype State = State(
    snapPos: seq<real>,
    snapVel: seq<real>,
    aimPos: seq<real>,
    lastPacketPos: seq<real>,
    snapTime: real,
    aimTime: real,
    lastPacketTime: real,
    latency: real,
    updateTime: real)

  /** The answer to a position query: whether the time was in range, the
      (possibly clamped) position and the reported velocity. */
  datatype Reading = Reading(inRange: bool, pos: seq<real>, vel: seq<real>)

  /** One timestamped sample; without a velocity, one is derived from the
      previous sample. */
  datatype Sample = Sample(packetTime: real, curTime: real, pos: seq<real>, vel: Option<seq<real>>)

  function Abs(x: real): (r: real) { if x < 0.0 then -x else x }

  function Max(x: real, y: real): (r: real) { if x < y then y else x }

  /** x lies in the closed interval spanned by a and b. */
  predicate Between(x: real, a: real, b: real) {
    (a <= x <= b) || (b <= x <= a)
  }

  function Zeros(n: nat): (v: seq<real>) { seq(n, i => 0.0) }

  /** Componentwise pos + vel * dt. */
  function Extrapolate(pos: seq<real>, vel: seq<real>, dt: real): (p: seq<real>)
    requires |vel| == |pos|
  {
    seq(|pos|, i requires 0 <= i < |pos| => pos[i] + vel[i] * dt)
  }

  function Dim(s: State): (n: nat) { |s.snapPos| }

  /** All vectors of the state have the dimension n. */
  predicate Sized(s: State, n: nat) {
    |s.snapPos| == n && |s.snapVel| == n && |s.aimPos| == n && |s.lastPacketPos| == n
  }

  /** What every reachable state satisfies: both running estimates are
      non-negative and the aim point lies one update interval after the snap
      point. */
  predicate Good(s: State) {
    s.latency >= 0.0 && s.updateTime >= 0.0 && s.aimTime == s.snapTime + s.updateTime
  }

  /** The state of a freshly constructed extrapolator: every field zero. */
  function Initial(n: nat): (s: State)
    ensures Sized(s, n) && Good(s)
    ensures s.lastPacketTime == 0.0
  {
    State(Zeros(n), Zeros(n), Zeros(n), Zeros(n), 0.0, 0.0, 0.0, 0.0, 0.0)
  }

  /** The asymmetric running average: halfway toward a larger observation,
      one eighth of the way toward a smaller or equal one. */
  function Smooth(estimate: real, observed: real): (r: real)
    ensures observed > estimate ==> estimate < r < observed
    ensures observed <= estimate ==> observed <= r <= estimate
    ensures observed > estimate ==> r - observed == (estimate - observed) / 2.0
    ensures observed <= estimate ==> r - observed == (estimate - observed) * 7.0 / 8.0
  {
    if observed > estimate then (estimate + observed) * 0.5
    else (estimate * 7.0 + observed) * 0.125
  }

  /** The staleness check and the two running estimates: None when the
      packet is not newer than the last accepted one, otherwise the state
      with latency and update interval smoothed toward the observed values. */
  function Estimates(s: State, packet: real, cur: real): (r: Option<State>)
    ensures r.None? <==> packet <= s.lastPacketTime
    ensures r.Some? ==> r.value == s.(latency := r.value.latency, updateTime := r.value.updateTime)
    ensures r.Some? && s.latency >= 0.0 ==> r.value.latency >= 0.0
    ensures r.Some? && s.updateTime >= 0.0 ==> r.value.updateTime > 0.0
    ensures r.Some? ==> Between(r.value.latency, s.latency, Max(0.0, cur - packet))
    ensures r.Some? ==> Between(r.value.updateTime, s.updateTime, packet - s.lastPacketTime)
  {
    if packet <= s.lastPacketTime then None
    else
      var lat := Max(0.0, cur - packet);
      var tick := packet - s.lastPacketTime;
      Some(s.(latency := Smooth(s.latency, lat), updateTime := Smooth(s.updateTime, tick)))
  }

  /** The end of the extrapolation horizon: one update interval past the aim
      time. */
  function Horizon(s: State): (t: real) { s.aimTime + s.updateTime }

  /** A position query: the time is clamped first to the snap time from
      below, then to the horizon from above; any clamping makes the answer
      out of range and zeroes the velocity. */
  function ReadAt(s: State, forTime: real): (r: Reading)
    requires |s.snapVel| == |s.snapPos|
    ensures |r.pos| == |s.snapPos| && |r.vel| == |s.snapPos|
    ensures r.inRange <==> s.snapTime <= forTime <= Horizon(s)
    ensures r.inRange ==> r.pos == Extrapolate(s.snapPos, s.snapVel, forTime - s.snapTime)
    ensures r.inRange ==> r.vel == s.snapVel
    ensures !r.inRange ==> r.vel == Zeros(|s.snapPos|)
  {
    var (t1, ok1) := if forTime < s.snapTime then (s.snapTime, false) else (forTime, true);
    var (t2, ok2) := if t1 > Horizon(s) then (Horizon(s), false) else (t1, ok1);
    Reading(ok2, Extrapolate(s.snapPos, s.snapVel, t2 - s.snapTime),
            if ok2 then s.snapVel else Zeros(|s.snapPos|))
  }

  /** The velocity a sample without one is given: the displacement since the
      last accepted sample over the elapsed packet time, or zero when that
      time is within Epsilon of zero. */
  function DeriveVelocity(s: State, packet: real, pos: seq<real>): (vel: seq<real>)
    requires |pos| == |s.lastPacketPos|
    ensures |vel| == |pos|
    ensures Abs(packet - s.lastPacketTime) > Epsilon ==>
              forall i :: 0 <= i < |pos| ==> vel[i] * (packet - s.lastPacketTime) == pos[i] - s.lastPacketPos[i]
    ensures Abs(packet - s.lastPacketTime) <= Epsilon ==> vel == Zeros(|pos|)
  {
    if Abs(packet - s.lastPacketTime) > Epsilon then
      var dt := 1.0 / (packet - s.lastPacketTime);
      seq(|pos|, i requires 0 <= i < |pos| => (pos[i] - s.lastPacketPos[i]) * dt)
    else
      Zeros(|pos|)
  }

  /** The snap velocity that carries snapPos to aimPos in `span` time. */
  function AimVelocity(aimPos: seq<real>, snapPos: seq<real>, span: real): (v: seq<real>)
    requires |snapPos| == |aimPos| && span != 0.0
  {
    var dt := 1.0 / span;
    seq(|aimPos|, i requires 0 <= i < |aimPos| => (aimPos[i] - snapPos[i]) * dt)
  }

  /** Ingesting a sample with a known velocity. A stale sample is rejected
      and leaves the state as it was; otherwise the estimates are smoothed,
      the sample becomes the last packet, the current extrapolation at
      `cur` (with the old segment but the new update interval) becomes the
      snap point, and the snap velocity is aimed at the sample extrapolated
      one update interval ahead. */
  function AcceptSample(s: State, packet: real, cur: real, pos: seq<real>, vel: seq<real>): (r: (bool, State))
    requires Sized(s, Dim(s)) && |pos| == Dim(s) && |vel| == Dim(s)
    ensures r.0 <==> packet > s.lastPacketTime
    ensures !r.0 ==> r.1 == s
    ensures r.0 ==> r.1.lastPacketTime == packet && r.1.lastPacketPos == pos
    ensures r.0 ==> r.1.snapTime == cur && r.1.aimTime == cur + r.1.updateTime
    ensures r.0 ==> r.1.lastPacketTime > s.lastPacketTime
    ensures r.0 ==> r.1.latency == Estimates(s, packet, cur).value.latency
    ensures r.0 ==> r.1.updateTime == Estimates(s, packet, cur).value.updateTime
    ensures Sized(r.1, Dim(s))
    ensures Good(s) ==> Good(r.1)
  {
    match Estimates(s, packet, cur)
    case None => (false, s)
    case Some(e) =>
      var snapPos := ReadAt(e, cur).pos;
      var aimTime := cur + e.updateTime;
      var aimPos := Extrapolate(pos, vel, aimTime - packet);
      var snapVel := if Abs(aimTime - cur) < Epsilon then vel else AimVelocity(aimPos, snapPos, aimTime - cur);
      (true, State(snapPos, snapVel, aimPos, pos, cur, aimTime, packet, e.latency, e.updateTime))
  }

  /** Ingesting a sample without a velocity: the velocity is derived from
      the state before the call, whether or not the sample is then
      accepted. */
  function AcceptDerivedSample(s: State, packet: real, cur: real, pos: seq<real>): (r: (bool, State))
    requires Sized(s, Dim(s)) && |pos| == Dim(s)
    ensures r.0 <==> packet > s.lastPacketTime
    ensures !r.0 ==> r.1 == s
    ensures r.0 ==> r.1.lastPacketTime == packet && r.1.lastPacketPos == pos && r.1.snapTime == cur
    ensures r.0 ==> r.1.latency == Estimates(s, packet, cur).value.latency
    ensures r.0 ==> r.1.updateTime == Estimates(s, packet, cur).value.updateTime
    ensures Sized(r.1, Dim(s))
    ensures Good(s) ==> Good(r.1)
  {
    AcceptSample(s, packet, cur, pos, DeriveVelocity(s, packet, pos))
  }

  /** Reseeding every field: the snap point is the given sample at `cur`,
      both estimates become cur - packet, and the aim point lies one update
      interval ahead along the given velocity. */
  function ResetTo(packet: real, cur: real, pos: seq<real>, vel: seq<real>): (s: State)
    requires packet <= cur && |vel| == |pos|
    ensures Sized(s, |pos|) && Good(s)
    ensures s.snapPos == pos && s.snapVel == vel && s.lastPacketPos == pos
    ensures s.lastPacketTime == packet && s.snapTime == cur
    ensures s.latency == s.updateTime == cur - packet
    ensures s.aimPos == Extrapolate(s.snapPos, s.snapVel, s.aimTime - s.snapTime)
  {
    var u := cur - packet;
    State(pos, vel, Extrapolate(pos, vel, u), pos, cur, cur + u, packet, u, u)
  }

  /** A sample is well-formed for an extrapolator of dimension n when its
      vectors have that dimension. */
  predicate SampleFits(x: Sample, n: nat) {
    |x.pos| == n && (x.vel.Some? ==> |x.vel.value| == n)
  }

  predicate AllFit(xs: seq<Sample>, n: nat) {
    forall k :: 0 <= k < |xs| ==> SampleFits(xs[k], n)
  }

  /** One ingestion, through whichever overload the sample calls for. */
  function Step(s: State, x: Sample): (r: (bool, State))
    requires Sized(s, Dim(s)) && SampleFits(x, Dim(s))
    ensures r.0 <==> x.packetTime > s.lastPacketTime
    ensures !r.0 ==> r.1 == s
    ensures r.0 ==> r.1.lastPacketTime == x.packetTime
    ensures r.0 ==> r.1.latency == Estimates(s, x.packetTime, x.curTime).value.latency
    ensures r.0 ==> r.1.updateTime == Estimates(s, x.packetTime, x.curTime).value.updateTime
    ensures Sized(r.1, Dim(s))
    ensures Good(s) ==> Good(r.1)
  {
    match x.vel
    case Some(v) => AcceptSample(s, x.packetTime, x.curTime, x.pos, v)
    case None => AcceptDerivedSample(s, x.packetTime, x.curTime, x.pos)
  }

  /** The state after ingesting a sequence of samples in order. */
  function Run(s: State, xs: seq<Sample>): (t: State)
    requires Sized(s, Dim(s)) && AllFit(xs, Dim(s))
    decreases |xs|
  {
    if xs == [] then s
    else
      var s1 := Step(s, xs[0]).1;
      assert Dim(s1) == Dim(s);
      Run(s1, xs[1..])
  }

  /** The packet times of the samples of a run that were accepted, in
      order. */
  function AcceptedTimes(s: State, xs: seq<Sample>): (ts: seq<real>)
    requires Sized(s, Dim(s)) && AllFit(xs, Dim(s))
    decreases |xs|
  {
    if xs == [] then []
    else
      var r := Step(s, xs[0]);
      assert Dim(r.1) == Dim(s);
      (if r.0 then [xs[0].packetTime] else []) + AcceptedTimes(r.1, xs[1..])
  }
}
