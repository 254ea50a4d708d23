/** The extrapolator object: fixed-length vectors updated in place and five
    scalar fields. Every method is proved against the value-level model in
    module Extrapolation through Model(), the state it abstracts to. */
module Extrapolator {
  import opened Extrapolation

  class FloatExtrapolator {
    /** The dimension; every vector below has this length. */
    const size: nat
    const snapPos: array<real>
    const snapVel: array<real>
    const aimPos: array<real>
    const lastPacketPos: array<real>
    var snapTime: real
    var aimTime: real
    var lastPacketTime: real
    var latency: real
    var updateTime: real

    /** The arrays the extrapolator owns; callers never see them. */
    ghost function Repr(): set<object>
      reads this
    {
      {snapPos, snapVel, aimPos, lastPacketPos}
    }

    /** The vectors have the dimension and are four distinct arrays. */
    ghost predicate Shaped()
      reads this
    {
      snapPos.Length == size && snapVel.Length == size &&
      aimPos.Length == size && lastPacketPos.Length == size &&
      snapPos != snapVel && snapPos != aimPos && snapPos != lastPacketPos &&
      snapVel != aimPos && snapVel != lastPacketPos && aimPos != lastPacketPos
    }

    /** The object invariant: well shaped, and the state is one every
        operation keeps (non-negative estimates, aim one update interval
        after the snap). */
    ghost predicate Valid()
      reads this
    {
      Shaped() && latency >= 0.0 && updateTime >= 0.0 && aimTime == snapTime + updateTime
    }

    /** The value of every field. */
    ghost function Model(): State
      reads this, snapPos, snapVel, aimPos, lastPacketPos
    {
      State(snapPos[..], snapVel[..], aimPos[..], lastPacketPos[..],
            snapTime, aimTime, lastPacketTime, latency, updateTime)
    }

    /** An extrapolator for vectors of `size` components, every field
        zero. */
    constructor (size: nat)
      ensures Valid() && this.size == size && Model() == Initial(size)
      ensures fresh(Repr())
    {
      this.size := size;
      var a := new real[size];
      var b := new real[size];
      var c := new real[size];
      var d := new real[size];
      a := Clear(a);
      b := Clear(b);
      c := Clear(c);
      d := Clear(d);
      snapPos, snapVel, aimPos, lastPacketPos := a, b, c, d;
      snapTime, aimTime, lastPacketTime, latency, updateTime := 0.0, 0.0, 0.0, 0.0, 0.0;
    }

    /** The default extrapolator tracks a scalar. */
    constructor Scalar()
      ensures Valid() && size == 1 && Model() == Initial(1)
      ensures fresh(Repr())
    {
      this.size := 1;
      var a := new real[1];
      var b := new real[1];
      var c := new real[1];
      var d := new real[1];
      a := Clear(a);
      b := Clear(b);
      c := Clear(c);
      d := Clear(d);
      snapPos, snapVel, aimPos, lastPacketPos := a, b, c, d;
      snapTime, aimTime, lastPacketTime, latency, updateTime := 0.0, 0.0, 0.0, 0.0, 0.0;
    }

    /** Sets every element of arr to zero and hands arr back. */
    static method Clear(arr: array<real>) returns (r: array<real>)
      modifies arr
      ensures r == arr && arr[..] == Zeros(arr.Length)
    {
      for i := 0 to arr.Length
        invariant forall j :: 0 <= j < i ==> arr[j] == 0.0
      {
        arr[i] := 0.0;
      }
      r := arr;
    }

    /** Copies all of src over the front of dest. */
    static method CopyArray(dest: array<real>, src: array<real>)
      requires src.Length <= dest.Length
      modifies dest
      ensures dest[..src.Length] == old(src[..])
      ensures dest[src.Length..] == old(dest[src.Length..])
    {
      for i := 0 to src.Length
        invariant forall j :: 0 <= j < i ==> dest[j] == old(src[j])
        invariant forall j :: i <= j < src.Length ==> src[j] == old(src[j])
        invariant forall j :: src.Length <= j < dest.Length ==> dest[j] == old(dest[j])
      {
        dest[i] := src[i];
      }
    }

    /** The smoothed latency estimate. */
    function EstimateLatency(): (r: real)
      reads this
      requires Valid()
      ensures r >= 0.0
    {
      latency
    }

    /** The smoothed update-interval estimate. */
    function EstimateUpdateTime(): (r: real)
      reads this
      requires Valid()
      ensures r >= 0.0 && aimTime - snapTime == r
    {
      updateTime
    }

    /** The staleness check and the update of the two running estimates;
        nothing changes when the packet is not newer than the last one. */
    method Estimates(packet: real, cur: real) returns (ok: bool)
      requires Shaped()
      modifies this`latency, this`updateTime
      ensures ok == Extrapolation.Estimates(old(Model()), packet, cur).Some?
      ensures ok ==> Model() == Extrapolation.Estimates(old(Model()), packet, cur).value
      ensures !ok ==> Model() == old(Model())
    {
      if packet <= lastPacketTime {
        return false;
      }
      var lat := cur - packet;
      if lat < 0.0 {
        lat := 0.0;
      }
      if lat > latency {
        latency := (latency + lat) * 0.5;
      } else {
        latency := (latency * 7.0 + lat) * 0.125;
      }
      var tick := packet - lastPacketTime;
      if tick > updateTime {
        updateTime := (updateTime + tick) * 0.5;
      } else {
        updateTime := (updateTime * 7.0 + tick) * 0.125;
      }
      return true;
    }

    /** The position (and, when outVel is given, the velocity) at forTime,
        clamped to the extrapolation range; the result says whether forTime
        was in range. outPos may be snapPos itself, which is how a sample's
        snapshot is taken; apart from that no field changes. */
    method ReadPositionAndVelocity(forTime: real, outPos: array<real>, outVel: array?<real>) returns (isOk: bool)
      requires Shaped() && outPos.Length == size
      requires outPos != snapVel && outPos != aimPos && outPos != lastPacketPos
      requires outVel != null ==> outVel.Length == size && outVel !in Repr() && outVel != outPos
      modifies outPos, outVel
      ensures isOk == ReadAt(old(Model()), forTime).inRange
      ensures outPos[..] == ReadAt(old(Model()), forTime).pos
      ensures outVel != null ==> outVel[..] == ReadAt(old(Model()), forTime).vel
      ensures outPos != snapPos ==> Model() == old(Model())
      ensures outPos == snapPos ==> Model() == old(Model()).(snapPos := ReadAt(old(Model()), forTime).pos)
    {
      ghost var s := Model();
      ghost var r := ReadAt(s, forTime);
      isOk := true;
      var t := forTime;
      if t < snapTime {
        t := snapTime;
        isOk := false;
      }
      var maxRange := aimTime + updateTime;
      if t > maxRange {
        t := maxRange;
        isOk := false;
      }
      var dt := t - snapTime;
      assert r.pos == Extrapolate(s.snapPos, s.snapVel, dt);
      for i := 0 to size
        invariant forall j :: 0 <= j < i ==> outPos[j] == s.snapPos[j] + s.snapVel[j] * dt
        invariant forall j :: i <= j < size ==> snapPos[j] == s.snapPos[j]
        invariant outPos != snapPos ==> snapPos[..] == s.snapPos
        invariant outVel != null ==> forall j :: 0 <= j < i ==> outVel[j] == s.snapVel[j]
      {
        var p, v := snapPos[i], snapVel[i];
        if outVel != null {
          outVel[i] := v;
        }
        outPos[i] := p + v * dt;
      }
      if !isOk && outVel != null {
        var _ := Clear(outVel);
      }
      ExtrapolateFromElements(outPos[..], s.snapPos, s.snapVel, dt);
    }

    /** The position at forTime, clamped to the extrapolation range. */
    method ReadPosition(forTime: real, outPos: array<real>) returns (isOk: bool)
      requires Shaped() && outPos.Length == size
      requires outPos != snapVel && outPos != aimPos && outPos != lastPacketPos
      modifies outPos
      ensures isOk == ReadAt(old(Model()), forTime).inRange
      ensures outPos[..] == ReadAt(old(Model()), forTime).pos
      ensures outPos != snapPos ==> Model() == old(Model())
      ensures outPos == snapPos ==> Model() == old(Model()).(snapPos := ReadAt(old(Model()), forTime).pos)
    {
      isOk := ReadPositionAndVelocity(forTime, outPos, null);
    }

    /** Carries pos forward along vel for dt into aimPos. */
    method AimFrom(pos: array<real>, vel: array<real>, dt: real)
      requires Shaped() && pos.Length == size && vel.Length == size
      requires pos != aimPos && vel != aimPos
      modifies aimPos
      ensures aimPos[..] == Extrapolate(old(pos[..]), old(vel[..]), dt)
    {
      for i := 0 to size
        invariant forall j :: 0 <= j < i ==> aimPos[j] == pos[j] + vel[j] * dt
      {
        aimPos[i] := pos[i] + vel[i] * dt;
      }
      ExtrapolateFromElements(aimPos[..], pos[..], vel[..], dt);
    }

    /** Sets snapVel to the velocity that leads from snapPos to aimPos in
        span time. */
    method AimSnapVelocity(span: real)
      requires Shaped() && span != 0.0
      modifies snapVel
      ensures snapVel[..] == AimVelocity(aimPos[..], snapPos[..], span)
    {
      var dt := 1.0 / span;
      for i := 0 to size
        invariant forall j :: 0 <= j < i ==> snapVel[j] == (aimPos[j] - snapPos[j]) * dt
      {
        snapVel[i] := (aimPos[i] - snapPos[i]) * dt;
      }
      AimVelocityFromElements(snapVel[..], aimPos[..], snapPos[..], span);
    }

    /** Ingests a sample with a known velocity; see AcceptSample. */
    method AddSampleWithVelocity(packetTime: real, curTime: real, pos: array<real>, vel: array<real>) returns (ok: bool)
      requires Valid() && pos.Length == size && vel.Length == size
      requires pos !in Repr() && vel !in Repr()
      modifies this, Repr()
      ensures Valid()
      ensures ok == (packetTime > old(lastPacketTime))
      ensures (ok, Model()) == AcceptSample(old(Model()), packetTime, curTime, old(pos[..]), old(vel[..]))
    {
      ghost var s := Model();
      ok := Estimates(packetTime, curTime);
      if !ok {
        return;
      }
      ghost var e := Model();
      ghost var p, v := pos[..], vel[..];
      AcceptSampleParts(s, packetTime, curTime, p, v, e);
      CopyArray(lastPacketPos, pos);
      assert lastPacketPos[..] == lastPacketPos[..size] == p;
      lastPacketTime := packetTime;
      ReadAtIgnoresLastPacket(e, curTime, p, packetTime);
      var _ := ReadPosition(curTime, snapPos);
      ghost var snap := snapPos[..];
      assert snap == ReadAt(e, curTime).pos;
      aimTime := curTime + updateTime;
      var dt := aimTime - packetTime;
      snapTime := curTime;
      AimFrom(pos, vel, dt);
      ghost var aim := aimPos[..];
      if Abs(aimTime - snapTime) < Epsilon {
        CopyArray(snapVel, vel);
        assert snapVel[..] == snapVel[..size] == v;
      } else {
        AimSnapVelocity(aimTime - snapTime);
      }
      assert snapPos[..] == snap && aimPos[..] == aim && lastPacketPos[..] == p;
    }

    /** Ingests a sample without a velocity: the velocity is derived from
        the last accepted sample before the staleness check; see
        AcceptDerivedSample. */
    method AddSample(packetTime: real, curTime: real, pos: array<real>) returns (ok: bool)
      requires Valid() && pos.Length == size && pos !in Repr()
      modifies this, Repr()
      ensures Valid()
      ensures ok == (packetTime > old(lastPacketTime))
      ensures (ok, Model()) == AcceptDerivedSample(old(Model()), packetTime, curTime, old(pos[..]))
    {
      var vel := new real[size];
      if Abs(packetTime - lastPacketTime) > Epsilon {
        var dt := 1.0 / (packetTime - lastPacketTime);
        for i := 0 to size
          modifies vel
          invariant forall j :: 0 <= j < i ==> vel[j] == (pos[j] - lastPacketPos[j]) * dt
        {
          vel[i] := (pos[i] - lastPacketPos[i]) * dt;
        }
        DeriveVelocityFromElements(vel[..], Model(), packetTime, pos[..]);
      } else {
        vel := Clear(vel);
      }
      ok := AddSampleWithVelocity(packetTime, curTime, pos, vel);
    }

    /** Reseeds every field from the given sample and velocity; see
        ResetTo. */
    method ResetWithVelocity(packetTime: real, curTime: real, pos: array<real>, vel: array<real>)
      requires Valid() && pos.Length == size && vel.Length == size
      requires pos !in Repr() && vel !in Repr()
      requires packetTime <= curTime
      modifies this, Repr()
      ensures Valid()
      ensures Model() == ResetTo(packetTime, curTime, old(pos[..]), old(vel[..]))
    {
      lastPacketTime := packetTime;
      CopyArray(lastPacketPos, pos);
      snapTime := curTime;
      CopyArray(snapPos, pos);
      updateTime := curTime - packetTime;
      latency := updateTime;
      aimTime := curTime + updateTime;
      CopyArray(snapVel, vel);
      assert lastPacketPos[..] == pos[..] && snapPos[..] == pos[..] && snapVel[..] == vel[..];
      AimFrom(snapPos, snapVel, updateTime);
    }

    /** Reseeds every field from the given sample, with zero velocity. */
    method Reset(packetTime: real, curTime: real, pos: array<real>)
      requires Valid() && pos.Length == size && pos !in Repr()
      requires packetTime <= curTime
      modifies this, Repr()
      ensures Valid()
      ensures Model() == ResetTo(packetTime, curTime, old(pos[..]), Zeros(size))
    {
      var zero := new real[size];
      zero := Clear(zero);
      ResetWithVelocity(packetTime, curTime, pos, zero);
    }
  }

  /** A sequence that agrees elementwise with pos + vel * dt is that
      extrapolation. */
  lemma ExtrapolateFromElements(a: seq<real>, pos: seq<real>, vel: seq<real>, dt: real)
    requires |a| == |pos| == |vel|
    requires forall j :: 0 <= j < |a| ==> a[j] == pos[j] + vel[j] * dt
    ensures a == Extrapolate(pos, vel, dt)
  {
    assert forall j :: 0 <= j < |a| ==> Extrapolate(pos, vel, dt)[j] == a[j];
  }

  /** An accepted sample, in terms of the estimated state e: the snapshot
      read from e at cur, the aim point one update interval ahead, and the
      snap velocity towards it. */
  lemma AcceptSampleParts(s: State, packet: real, cur: real, pos: seq<real>, vel: seq<real>, e: State)
    requires Sized(s, Dim(s)) && |pos| == Dim(s) && |vel| == Dim(s)
    requires Estimates(s, packet, cur) == Some(e)
    ensures var aimTime := cur + e.updateTime;
            var snapPos := ReadAt(e, cur).pos;
            var aimPos := Extrapolate(pos, vel, aimTime - packet);
            var snapVel := if Abs(aimTime - cur) < Epsilon then vel else AimVelocity(aimPos, snapPos, aimTime - cur);
            AcceptSample(s, packet, cur, pos, vel) == (true, State(snapPos, snapVel, aimPos, pos, cur, aimTime, packet, e.latency, e.updateTime))
  {
  }

  /** A position query does not look at the last packet. */
  lemma ReadAtIgnoresLastPacket(s: State, forTime: real, pos: seq<real>, packet: real)
    requires |s.snapVel| == |s.snapPos|
    ensures ReadAt(s.(lastPacketPos := pos, lastPacketTime := packet), forTime) == ReadAt(s, forTime)
  {
  }

  /** A sequence that agrees elementwise with (aim - snap) * (1 / span) is
      that aim velocity. */
  lemma AimVelocityFromElements(v: seq<real>, aimPos: seq<real>, snapPos: seq<real>, span: real)
    requires |v| == |aimPos| == |snapPos| && span != 0.0
    requires forall j :: 0 <= j < |v| ==> v[j] == (aimPos[j] - snapPos[j]) * (1.0 / span)
    ensures v == AimVelocity(aimPos, snapPos, span)
  {
    assert forall j :: 0 <= j < |v| ==> AimVelocity(aimPos, snapPos, span)[j] == v[j];
  }

  /** A sequence that agrees elementwise with the displacement over the
      packet interval is the derived velocity. */
  lemma DeriveVelocityFromElements(v: seq<real>, s: State, packet: real, pos: seq<real>)
    requires |v| == |pos| == |s.lastPacketPos| && Abs(packet - s.lastPacketTime) > Epsilon
    requires forall j :: 0 <= j < |v| ==> v[j] == (pos[j] - s.lastPacketPos[j]) * (1.0 / (packet - s.lastPacketTime))
    ensures v == DeriveVelocity(s, packet, pos)
  {
    assert forall j :: 0 <= j < |v| ==> DeriveVelocity(s, packet, pos)[j] == v[j];
  }
}
