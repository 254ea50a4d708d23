/** Properties of the value-level extrapolator model: what a query answers
    at the ends of the segment, what an ingestion leaves behind, and how the
    state evolves over a stream of samples. */
module ExtrapolationProperties {
  import opened Extrapolation

  /** Extrapolating over no time leaves the position where it is. */
  lemma ExtrapolateZero(pos: seq<real>, vel: seq<real>)
    requires |vel| == |pos|
    ensures Extrapolate(pos, vel, 0.0) == pos
  {
    assert forall i :: 0 <= i < |pos| ==> Extrapolate(pos, vel, 0.0)[i] == pos[i];
  }

  /** A query exactly at the snap time is in range and answers the snap
      point and the snap velocity. */
  lemma ReadAtSnapTime(s: State)
    requires Sized(s, Dim(s)) && Good(s)
    ensures ReadAt(s, s.snapTime) == Reading(true, s.snapPos, s.snapVel)
  {
    ExtrapolateZero(s.snapPos, s.snapVel);
  }

  /** A query before the snap time is clamped to the snap point. */
  lemma ReadBeforeSnapTime(s: State, forTime: real)
    requires Sized(s, Dim(s)) && Good(s) && forTime < s.snapTime
    ensures ReadAt(s, forTime) == Reading(false, s.snapPos, Zeros(Dim(s)))
  {
    ExtrapolateZero(s.snapPos, s.snapVel);
  }

  /** A query past the horizon is clamped to it: the position is the one
      the horizon itself answers (in range), and the velocity is zero. */
  lemma ReadBeyondHorizon(s: State, forTime: real)
    requires Sized(s, Dim(s)) && Good(s) && forTime > Horizon(s)
    ensures ReadAt(s, Horizon(s)).inRange
    ensures ReadAt(s, forTime) == Reading(false, ReadAt(s, Horizon(s)).pos, Zeros(Dim(s)))
  {
  }

  /** After a reset, a query at the reset's current time answers the reset
      position and velocity, and one at the aim time answers the aim
      point. */
  lemma ResetThenRead(packet: real, cur: real, pos: seq<real>, vel: seq<real>)
    requires packet <= cur && |vel| == |pos|
    ensures ReadAt(ResetTo(packet, cur, pos, vel), cur) == Reading(true, pos, vel)
    ensures var s := ResetTo(packet, cur, pos, vel);
            ReadAt(s, s.aimTime) == Reading(true, s.aimPos, vel)
  {
    ReadAtSnapTime(ResetTo(packet, cur, pos, vel));
  }

  /** After an accepted sample the new segment continues the old one: the
      snap point is where the previous segment stood at `cur`, with `cur`
      clamped to that segment's range (whose horizon is bounded by the new
      update interval); and a query at `cur` gives that snapshot back, in
      range. */
  lemma SnapshotRoundTrip(s: State, packet: real, cur: real, pos: seq<real>, vel: seq<real>)
    requires Sized(s, Dim(s)) && |pos| == Dim(s) && |vel| == Dim(s) && Good(s)
    requires packet > s.lastPacketTime
    ensures var t := AcceptSample(s, packet, cur, pos, vel).1;
            s.snapTime <= cur <= s.aimTime + t.updateTime ==>
              t.snapPos == Extrapolate(s.snapPos, s.snapVel, cur - s.snapTime)
    ensures var t := AcceptSample(s, packet, cur, pos, vel).1;
            cur < s.snapTime ==> t.snapPos == s.snapPos
    ensures var t := AcceptSample(s, packet, cur, pos, vel).1;
            cur > s.aimTime + t.updateTime ==>
              t.snapPos == Extrapolate(s.snapPos, s.snapVel, s.aimTime + t.updateTime - s.snapTime)
    ensures var t := AcceptSample(s, packet, cur, pos, vel).1;
            ReadAt(t, cur) == Reading(true, t.snapPos, t.snapVel)
  {
    ExtrapolateZero(s.snapPos, s.snapVel);
    ReadAtSnapTime(AcceptSample(s, packet, cur, pos, vel).1);
  }

  /** (aim - snap) * (1 / span) carried over span lands on aim. */
  lemma AimVelocityReachesAim(aimPos: seq<real>, snapPos: seq<real>, span: real)
    requires |snapPos| == |aimPos| && span != 0.0
    ensures Extrapolate(snapPos, AimVelocity(aimPos, snapPos, span), span) == aimPos
  {
    var v := AimVelocity(aimPos, snapPos, span);
    forall i | 0 <= i < |aimPos|
      ensures Extrapolate(snapPos, v, span)[i] == aimPos[i]
    {
      var d := aimPos[i] - snapPos[i];
      calc {
        v[i] * span;
        (d * (1.0 / span)) * span;
        d * ((1.0 / span) * span);
        d;
      }
    }
  }

  /** After an accepted sample, the aim point is the sample carried forward
      to the aim time along its own velocity. When the update interval is at
      least Epsilon the new segment runs from the snap point to the aim
      point and is in range at the aim time; otherwise the snap velocity is
      the sample's velocity. */
  lemma AimPointOnSegment(s: State, packet: real, cur: real, pos: seq<real>, vel: seq<real>)
    requires Sized(s, Dim(s)) && |pos| == Dim(s) && |vel| == Dim(s) && Good(s)
    requires packet > s.lastPacketTime
    ensures var t := AcceptSample(s, packet, cur, pos, vel).1;
            t.aimPos == Extrapolate(pos, vel, t.aimTime - packet)
    ensures var t := AcceptSample(s, packet, cur, pos, vel).1;
            t.updateTime >= Epsilon ==>
              Extrapolate(t.snapPos, t.snapVel, t.aimTime - t.snapTime) == t.aimPos &&
              ReadAt(t, t.aimTime) == Reading(true, t.aimPos, t.snapVel)
    ensures var t := AcceptSample(s, packet, cur, pos, vel).1;
            t.updateTime < Epsilon ==> t.snapVel == vel
  {
    var t := AcceptSample(s, packet, cur, pos, vel).1;
    assert t.aimTime - t.snapTime == t.updateTime >= 0.0;
    if t.updateTime >= Epsilon {
      AimVelocityReachesAim(t.aimPos, t.snapPos, t.updateTime);
    }
  }

  /** The smoothing filter applied n times to a constant observation. */
  function Iterate(estimate: real, observed: real, n: nat): (r: real)
    decreases n
  {
    if n == 0 then estimate else Iterate(Smooth(estimate, observed), observed, n - 1)
  }

  /** (7/8)^n * gap, the geometric bound on the remaining gap after n
      smoothing steps. */
  function GeometricBound(gap: real, n: nat): (b: real)
    decreases n
  {
    if n == 0 then gap else 7.0 / 8.0 * GeometricBound(gap, n - 1)
  }

  lemma {:induction false} GeometricBoundMonotone(a: real, b: real, n: nat)
    requires a <= b
    ensures GeometricBound(a, n) <= GeometricBound(b, n)
    decreases n
  {
    if n > 0 {
      GeometricBoundMonotone(a, b, n - 1);
    }
  }

  lemma {:induction false} GeometricBoundShift(gap: real, n: nat)
    requires n > 0
    ensures GeometricBound(7.0 / 8.0 * gap, n - 1) == GeometricBound(gap, n)
    decreases n
  {
    if n > 1 {
      GeometricBoundShift(gap, n - 1);
    }
  }

  /** Repeated smoothing toward a constant observation never overshoots it,
      and closes the gap geometrically: each step keeps at most 7/8 of it. */
  lemma {:induction false} IterateConverges(estimate: real, observed: real, n: nat)
    ensures Between(Iterate(estimate, observed, n), estimate, observed)
    ensures Abs(Iterate(estimate, observed, n) - observed) <= GeometricBound(Abs(estimate - observed), n)
    decreases n
  {
    if n > 0 {
      var e1 := Smooth(estimate, observed);
      IterateConverges(e1, observed, n - 1);
      var g := Abs(estimate - observed);
      assert Abs(e1 - observed) <= 7.0 / 8.0 * g;
      GeometricBoundMonotone(Abs(e1 - observed), 7.0 / 8.0 * g, n - 1);
      GeometricBoundShift(g, n);
    }
  }

  /** A stream of samples with constant latency L, the first one T after t0
      and each later one T after the one before. */
  predicate Steady(xs: seq<Sample>, t0: real, T: real, L: real) {
    T > 0.0 && L >= 0.0 &&
    (xs != [] ==> xs[0].packetTime == t0 + T) &&
    (forall k :: 0 < k < |xs| ==> xs[k].packetTime == xs[k - 1].packetTime + T) &&
    (forall k :: 0 <= k < |xs| ==> xs[k].curTime == xs[k].packetTime + L)
  }

  lemma SteadyTail(xs: seq<Sample>, t0: real, T: real, L: real)
    requires Steady(xs, t0, T, L) && xs != []
    ensures Steady(xs[1..], xs[0].packetTime, T, L)
  {
    forall k | 0 < k < |xs| - 1
      ensures xs[1..][k].packetTime == xs[1..][k - 1].packetTime + T
    {
      assert xs[1..][k] == xs[k + 1] && xs[1..][k - 1] == xs[k];
    }
  }

  /** Fed a steady stream, every sample is accepted, and the two estimates
      are exactly the smoothing filter iterated toward L and T once per
      sample; by IterateConverges both therefore converge geometrically,
      with ratio at most 7/8 per sample, to the true latency and
      interval. */
  lemma {:induction false} SteadyRunEstimates(s: State, xs: seq<Sample>, T: real, L: real)
    requires Sized(s, Dim(s)) && AllFit(xs, Dim(s)) && Steady(xs, s.lastPacketTime, T, L)
    ensures Run(s, xs).latency == Iterate(s.latency, L, |xs|)
    ensures Run(s, xs).updateTime == Iterate(s.updateTime, T, |xs|)
    ensures AcceptedTimes(s, xs) == seq(|xs|, k requires 0 <= k < |xs| => xs[k].packetTime)
    decreases |xs|
  {
    if xs != [] {
      var x := xs[0];
      var r := Step(s, x);
      var s1 := r.1;
      assert r.0;
      assert s1.latency == Smooth(s.latency, L);
      assert s1.updateTime == Smooth(s.updateTime, T);
      SteadyTail(xs, s.lastPacketTime, T, L);
      assert AllFit(xs[1..], Dim(s1));
      SteadyRunEstimates(s1, xs[1..], T, L);
    }
  }

  /** Any run keeps the dimension and the invariant Good. */
  lemma {:induction false} RunPreservesGood(s: State, xs: seq<Sample>)
    requires Sized(s, Dim(s)) && AllFit(xs, Dim(s)) && Good(s)
    ensures Sized(Run(s, xs), Dim(s)) && Good(Run(s, xs))
    decreases |xs|
  {
    if xs != [] {
      var s1 := Step(s, xs[0]).1;
      assert Good(s1);
      RunPreservesGood(s1, xs[1..]);
    }
  }

  predicate StrictlyIncreasing(ts: seq<real>) {
    forall i, j :: 0 <= i < j < |ts| ==> ts[i] < ts[j]
  }

  /** The packet times of the accepted samples of a run strictly increase,
      and all exceed the last packet time before the run. */
  lemma {:induction false} AcceptedTimesIncrease(s: State, xs: seq<Sample>)
    requires Sized(s, Dim(s)) && AllFit(xs, Dim(s))
    ensures StrictlyIncreasing(AcceptedTimes(s, xs))
    ensures forall i :: 0 <= i < |AcceptedTimes(s, xs)| ==> s.lastPacketTime < AcceptedTimes(s, xs)[i]
    decreases |xs|
  {
    if xs != [] {
      var r := Step(s, xs[0]);
      var s1 := r.1;
      AcceptedTimesIncrease(s1, xs[1..]);
      var rest := AcceptedTimes(s1, xs[1..]);
      if r.0 {
        assert s1.lastPacketTime == xs[0].packetTime > s.lastPacketTime;
        PrependIncreasing(xs[0].packetTime, rest);
      } else {
        assert s1 == s;
        assert AcceptedTimes(s, xs) == rest;
      }
    }
  }

  lemma PrependIncreasing(t: real, rest: seq<real>)
    requires StrictlyIncreasing(rest)
    requires forall i :: 0 <= i < |rest| ==> t < rest[i]
    ensures StrictlyIncreasing([t] + rest)
  {
  }

  /** After a run, the last packet time is that of the last accepted
      sample, or unchanged when none was accepted. */
  lemma {:induction false} RunLastPacketTime(s: State, xs: seq<Sample>)
    requires Sized(s, Dim(s)) && AllFit(xs, Dim(s))
    ensures var ts := AcceptedTimes(s, xs);
            Run(s, xs).lastPacketTime == if ts == [] then s.lastPacketTime else ts[|ts| - 1]
    decreases |xs|
  {
    if xs != [] {
      var r := Step(s, xs[0]);
      var s1 := r.1;
      RunLastPacketTime(s1, xs[1..]);
      var rest := AcceptedTimes(s1, xs[1..]);
      if r.0 {
        assert AcceptedTimes(s, xs) == [xs[0].packetTime] + rest;
      } else {
        assert s1 == s;
        assert AcceptedTimes(s, xs) == rest;
      }
    }
  }

  /** Rejection is total: no field of the state changes on any ingestion
      whose packet time is not newer, with or without a velocity. */
  lemma StaleSampleIgnored(s: State, x: Sample)
    requires Sized(s, Dim(s)) && SampleFits(x, Dim(s)) && x.packetTime <= s.lastPacketTime
    ensures Step(s, x) == (false, s)
  {
  }

  /** A fresh extrapolator starts with last packet time zero, so a first
      sample whose packet time is zero or negative is rejected and the
      state stays all zero. */
  lemma InitialRejectsNonPositive(n: nat, x: Sample)
    requires SampleFits(x, n) && x.packetTime <= 0.0
    ensures Step(Initial(n), x) == (false, Initial(n))
  {
    StaleSampleIgnored(Initial(n), x);
  }

  /** The state of the one-dimensional walk-through after the reset at the
      origin at time 0, before and after the estimates of the sample at
      packet time 1 and local time 1, and after that sample. */
  const Origin := State([0.0], [0.0], [0.0], [0.0], 0.0, 0.0, 0.0, 0.0, 0.0)
  const OriginEstimated := State([0.0], [0.0], [0.0], [0.0], 0.0, 0.0, 0.0, 0.0, 0.5)
  const AfterSample := State([0.0], [30.0], [15.0], [10.0], 1.0, 1.5, 1.0, 0.0, 0.5)

  /** Walk-through, reset: a reset at the origin with zero velocity at time 0
      is the all-zero state. */
  lemma ScenarioReset()
    ensures ResetTo(0.0, 0.0, [0.0], [0.0]) == Origin
  {
    assert Extrapolate([0.0], [0.0], 0.0) == [0.0];
  }

  /** Walk-through, derived velocity: position 10 one time unit after the
      origin gives velocity 10. */
  lemma ScenarioVelocity()
    ensures DeriveVelocity(Origin, 1.0, [10.0]) == [10.0]
  {
    var v := DeriveVelocity(Origin, 1.0, [10.0]);
    assert v[0] * 1.0 == 10.0;
  }

  /** Walk-through, estimates: a packet arriving at once keeps latency 0, and
      the first interval of 1 moves the update interval halfway, to 1/2. */
  lemma ScenarioEstimates()
    ensures Estimates(Origin, 1.0, 1.0) == Some(OriginEstimated)
  {
    assert Smooth(0.0, 0.0) == 0.0;
    assert Smooth(0.0, 1.0) == 0.5;
  }

  /** Walk-through, snapshot: time 1 lies past the horizon 1/2 of the old
      segment, which has zero velocity, so the snapshot is the origin. */
  lemma ScenarioSnapshot()
    ensures ReadAt(OriginEstimated, 1.0) == Reading(false, [0.0], [0.0])
  {
    assert Horizon(OriginEstimated) == 0.5;
    assert Extrapolate([0.0], [0.0], 0.5) == [0.0];
  }

  /** Walk-through, aim: the sample carried 1/2 ahead along velocity 10 aims
      at 15 at time 3/2, and the segment from the snapshot 0 reaches it with
      velocity 30. */
  lemma ScenarioAim()
    ensures Extrapolate([10.0], [10.0], 0.5) == [15.0]
    ensures AimVelocity([15.0], [0.0], 0.5) == [30.0]
  {
    assert Extrapolate([10.0], [10.0], 0.5)[0] == 15.0;
    assert AimVelocity([15.0], [0.0], 0.5)[0] == 30.0;
  }

  /** Walk-through, acceptance: with velocity 10 the sample is accepted and
      the whole new state is AfterSample. */
  lemma ScenarioAccept()
    ensures AcceptSample(Origin, 1.0, 1.0, [10.0], [10.0]) == (true, AfterSample)
  {
    ScenarioEstimates();
    ScenarioSnapshot();
    ScenarioAim();
    var e := Estimates(Origin, 1.0, 1.0).value;
    assert e == OriginEstimated;
    var aimTime := 1.0 + e.updateTime;
    assert aimTime == 1.5 && aimTime - 1.0 == 0.5;
    assert !(Abs(aimTime - 1.0) < Epsilon);
  }

  /** A one-dimensional walk-through: reset at the origin at time 0, then
      ingest position 10 at packet time 1 and local time 1 with a derived
      velocity of 10. The sample is accepted, the update interval becomes
      1/2, the snapshot is still 0 (the old segment has zero velocity and
      its horizon ends at 1/2), the aim point is 15 at time 3/2 and the snap
      velocity is 30; a query at time 1 then answers 0, in range. */
  lemma OneDimensionalScenario()
    ensures ResetTo(0.0, 0.0, [0.0], [0.0]) == Origin
    ensures DeriveVelocity(Origin, 1.0, [10.0]) == [10.0]
    ensures AcceptDerivedSample(Origin, 1.0, 1.0, [10.0]) == (true, AfterSample)
    ensures ReadAt(AfterSample, 1.0) == Reading(true, [0.0], [30.0])
  {
    ScenarioReset();
    ScenarioVelocity();
    ScenarioAccept();
    ReadAtSnapTime(AfterSample);
  }
}
