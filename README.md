# Dead-reckoning extrapolator

This project models `FloatExtrapolator`, the dead-reckoning extrapolator of the
jameo game code. One instance tracks one N-component quantity of one remote
entity, such as a position. It does three things:

- It ingests timestamped samples (`addSample`), with a known velocity or one
  derived from the previous sample. Stale and out-of-order samples are rejected.
- It keeps two running estimates, network latency and update interval. Each is
  smoothed asymmetrically: it moves halfway toward a larger observation and one
  eighth of the way toward a smaller one.
- It answers "where is the entity at time T" (`readPosition`). The answer is a
  linear extrapolation from a snap point along a snap velocity. The time is
  clamped to `[snapTime, aimTime + updateTime]`, and the result says whether
  clamping happened.

`reset` reseeds all the state.

The model is in three files: two layers and the lemmas about them.

- `extrapolation.dfy`, module `Extrapolation`, is a value-level model. `State`
  holds every field of the object. `AcceptSample`, `AcceptDerivedSample`,
  `ResetTo`, `ReadAt` and `Estimates` are functions from the old state to the
  result and the new state. `Run` feeds a sequence of samples.
- `float_extrapolator.dfy`, module `Extrapolator`, is the object itself. Class
  `FloatExtrapolator` has fixed-length `array<real>` vectors, which are updated
  in place by `for` loops as in the source, and five scalar fields. Every method
  is proved against the value-level functions through `Model()`. The class
  invariant `Valid()` says that both estimates are non-negative and that
  `aimTime == snapTime + updateTime`.
- `extrapolation_properties.dfy`, module `ExtrapolationProperties`, holds the
  lemmas. They cover queries at the ends of the segment, the snapshot round
  trip, the aim point lying on the new segment, reset-then-read, rejection of
  stale samples, strictly increasing accepted packet times over any run, the
  invariant over any run, and geometric convergence of both estimates under a
  steady stream of samples.

Arithmetic is over `real`. The source's `float`/`double` values and its
`(float)` narrowing casts are treated as exact. The guard `1e-4` is the real
`0.0001`.

The model follows the source in these places:

- Every field starts at zero. So before any `reset` the last packet time is
  `0`, and a first sample whose packet time is `<= 0` is rejected
  (`InitialRejectsNonPositive`). The model adds no negative-infinity sentinel.
- The snapshot taken during an accepted sample uses the old snap time, snap
  velocity and aim time, but the freshly smoothed update interval in its
  horizon. That is the order in which the source updates its fields.
- The 3-argument `addSample` derives the velocity from the state before the
  call, before the staleness check.

## Model

| member | source | states |
|---|---|---|
| `Extrapolation.Initial` | core/src/net/wytrem/jameo/utils/FloatExtrapolator.java:28-46 | A new extrapolator has vectors of the given dimension, all zero, and last packet time 0; the invariant already holds. |
| `Extrapolation.Smooth` | core/src/net/wytrem/jameo/utils/FloatExtrapolator.java:258-262 | The filter lands strictly between estimate and observation when the observation is larger, and halves the gap. Otherwise it lands between the two and keeps 7/8 of the gap. |
| `Extrapolation.Estimates` | core/src/net/wytrem/jameo/utils/FloatExtrapolator.java:245-275 | Rejects exactly when packet <= last packet time. On acceptance only latency and update interval change. Each new value lies between its old value and the observation (max(0, cur - packet), resp. packet - last). Latency stays non-negative and the update interval becomes positive. |
| `Extrapolation.ReadAt` | core/src/net/wytrem/jameo/utils/FloatExtrapolator.java:204-235 | In range exactly when snapTime <= forTime <= aimTime + updateTime. Then the position is snapPos + snapVel*(forTime - snapTime) and the velocity is snapVel. Otherwise the velocity is all zeros. |
| `Extrapolation.DeriveVelocity` | core/src/net/wytrem/jameo/utils/FloatExtrapolator.java:63-75 | When the packet interval exceeds 1e-4 in absolute value, velocity times interval equals the displacement from the last packet position. Otherwise the velocity is zero. |
| `Extrapolation.AcceptSample` | core/src/net/wytrem/jameo/utils/FloatExtrapolator.java:101-133 | Accepts exactly when packet > last packet time; a rejected sample leaves the state unchanged. On acceptance: last packet = (packet, pos), snapTime = cur, aimTime = cur + new updateTime, last packet time strictly increases, and the estimates are those of Estimates. Dimension and invariant are preserved. |
| `Extrapolation.AcceptDerivedSample` | core/src/net/wytrem/jameo/utils/FloatExtrapolator.java:63-78 | The 3-argument ingestion accepts under the same condition and commits the same fields, with the derived velocity. It also keeps dimension and invariant. |
| `Extrapolation.ResetTo` | core/src/net/wytrem/jameo/utils/FloatExtrapolator.java:155-171 | Given packet <= cur: snap and last packet = pos, snapTime = cur, latency = updateTime = cur - packet, snapVel = vel. The aim point lies on the segment at aimTime. The invariant holds. |
| `Extrapolation.Step` | core/src/net/wytrem/jameo/utils/FloatExtrapolator.java:63-133 | Either overload, as the sample calls for. It rejects exactly stale samples with no change, and on acceptance sets the last packet time and the smoothed estimates. |
| `ExtrapolationProperties.ReadAtSnapTime` | core/src/net/wytrem/jameo/utils/FloatExtrapolator.java:204-235 | A query at snapTime is in range and answers (snapPos, snapVel). |
| `ExtrapolationProperties.ReadBeforeSnapTime` | core/src/net/wytrem/jameo/utils/FloatExtrapolator.java:207-211 | A query before snapTime is out of range, answers snapPos, and zeroes the velocity. |
| `ExtrapolationProperties.ReadBeyondHorizon` | core/src/net/wytrem/jameo/utils/FloatExtrapolator.java:213-218 | A query past the horizon is out of range, answers the position at the horizon (itself in range), and zeroes the velocity. |
| `ExtrapolationProperties.ResetThenRead` | core/src/net/wytrem/jameo/utils/FloatExtrapolator.java:155-171 | After a reset, a query at cur answers (pos, vel) in range, and a query at aimTime answers aimPos. |
| `ExtrapolationProperties.SnapshotRoundTrip` | core/src/net/wytrem/jameo/utils/FloatExtrapolator.java:106-111 | After an accepted sample the new segment continues the old one. When cur lies within the old segment's range under the new horizon, snapPos = old snapPos + old snapVel*(cur - old snapTime). Before that range it is the old snapPos; after it, the old segment's position at the horizon. A query at cur gives that snapshot back in range: the snapshot, not the sample's position. |
| `ExtrapolationProperties.AimVelocityReachesAim` | core/src/net/wytrem/jameo/utils/FloatExtrapolator.java:126-129 | (aim - snap)*(1/span), carried over span from snap, lands on aim. |
| `ExtrapolationProperties.AimPointOnSegment` | core/src/net/wytrem/jameo/utils/FloatExtrapolator.java:109-130 | aimPos = pos + vel*(aimTime - packet). If updateTime >= 1e-4, snapPos + snapVel*(aimTime - snapTime) = aimPos and a query at aimTime answers aimPos in range. Otherwise snapVel = vel. |
| `ExtrapolationProperties.IterateConverges` | core/src/net/wytrem/jameo/utils/FloatExtrapolator.java:254-272 | Smoothing n times toward a constant observation never overshoots it, and leaves at most (7/8)^n of the initial gap. |
| `ExtrapolationProperties.SteadyRunEstimates` | core/src/net/wytrem/jameo/utils/FloatExtrapolator.java:245-275 | In a stream with constant latency L and constant interval T, every sample is accepted. Latency and update interval after n samples are the filter iterated n times toward L and T, so by IterateConverges both converge geometrically. |
| `ExtrapolationProperties.RunPreservesGood` | core/src/net/wytrem/jameo/utils/FloatExtrapolator.java:245-275 | Any sequence of ingestions keeps the dimension, latency >= 0, updateTime >= 0 and aimTime = snapTime + updateTime. |
| `ExtrapolationProperties.AcceptedTimesIncrease` | core/src/net/wytrem/jameo/utils/FloatExtrapolator.java:101-107 | Over any run, the packet times of the accepted samples strictly increase and all exceed the last packet time before the run. |
| `ExtrapolationProperties.RunLastPacketTime` | core/src/net/wytrem/jameo/utils/FloatExtrapolator.java:106-107 | After any run, the last packet time is that of the last accepted sample, or unchanged if none was accepted. |
| `ExtrapolationProperties.StaleSampleIgnored` | core/src/net/wytrem/jameo/utils/FloatExtrapolator.java:245-248 | A sample not newer than the last packet is rejected with no field changed, with or without a velocity. |
| `ExtrapolationProperties.InitialRejectsNonPositive` | core/src/net/wytrem/jameo/utils/FloatExtrapolator.java:30 | A fresh extrapolator rejects a first sample with packet time <= 0. |
| `ExtrapolationProperties.OneDimensionalScenario` | core/src/net/wytrem/jameo/utils/FloatExtrapolator.java:63-133 | Reset at 0 with position 0, then sample 10 at time 1: derived velocity 10, update interval 1/2, snapshot 0, aim 15 at time 3/2, snap velocity 30, and a query at 1 answers 0 in range. |
| `ExtrapolationProperties.ScenarioReset` | core/src/net/wytrem/jameo/utils/FloatExtrapolator.java:155-171 | Walk-through: a reset at the origin at time 0 with zero velocity is the all-zero state. |
| `ExtrapolationProperties.ScenarioVelocity` | core/src/net/wytrem/jameo/utils/FloatExtrapolator.java:63-75 | Walk-through: position 10 one time unit after the origin gives derived velocity 10. |
| `ExtrapolationProperties.ScenarioEstimates` | core/src/net/wytrem/jameo/utils/FloatExtrapolator.java:245-275 | Walk-through: an immediate packet keeps latency 0, and the first interval of 1 moves the update interval to 1/2. |
| `ExtrapolationProperties.ScenarioSnapshot` | core/src/net/wytrem/jameo/utils/FloatExtrapolator.java:204-235 | Walk-through: time 1 is past the old segment's horizon 1/2, so the snapshot is the origin, out of range. |
| `ExtrapolationProperties.ScenarioAim` | core/src/net/wytrem/jameo/utils/FloatExtrapolator.java:109-130 | Walk-through: the sample carried 1/2 ahead aims at 15, and the segment from 0 reaches it with velocity 30. |
| `ExtrapolationProperties.ScenarioAccept` | core/src/net/wytrem/jameo/utils/FloatExtrapolator.java:101-133 | Walk-through: the sample with velocity 10 is accepted and the whole new state is snap 0, snap velocity 30, aim 15 at 3/2, last packet 10 at 1, latency 0, update interval 1/2. |
| `Extrapolator.FloatExtrapolator.constructor` | core/src/net/wytrem/jameo/utils/FloatExtrapolator.java:37-46 | Allocates four fresh, distinct vectors of the given size; the state is Initial(size). |
| `Extrapolator.FloatExtrapolator.Scalar` | core/src/net/wytrem/jameo/utils/FloatExtrapolator.java:33-35 | The default extrapolator has size 1 and state Initial(1). |
| `Extrapolator.FloatExtrapolator.Clear` | core/src/net/wytrem/jameo/utils/FloatExtrapolator.java:277-282 | Every element becomes zero; the same array is returned. |
| `Extrapolator.FloatExtrapolator.CopyArray` | core/src/net/wytrem/jameo/utils/FloatExtrapolator.java:288-290 | The first src.Length elements of dest become src; the rest of dest is unchanged. |
| `Extrapolator.FloatExtrapolator.EstimateLatency` | core/src/net/wytrem/jameo/utils/FloatExtrapolator.java:237-239 | Returns the latency estimate, which is non-negative. |
| `Extrapolator.FloatExtrapolator.EstimateUpdateTime` | core/src/net/wytrem/jameo/utils/FloatExtrapolator.java:241-243 | Returns the update-interval estimate, which is non-negative and equals aimTime - snapTime. |
| `Extrapolator.FloatExtrapolator.Estimates` | core/src/net/wytrem/jameo/utils/FloatExtrapolator.java:245-275 | Returns whether Estimates accepts; only latency and updateTime change, as Estimates says; nothing changes on rejection. |
| `Extrapolator.FloatExtrapolator.ReadPositionAndVelocity` | core/src/net/wytrem/jameo/utils/FloatExtrapolator.java:204-235 | Writes ReadAt's position into outPos and, when outVel is non-null, its velocity into outVel, and returns ReadAt's in-range flag. No field changes unless outPos is snapPos itself, which then receives the answer. |
| `Extrapolator.FloatExtrapolator.ReadPosition` | core/src/net/wytrem/jameo/utils/FloatExtrapolator.java:186-188 | The same without a velocity output. |
| `Extrapolator.FloatExtrapolator.AimFrom` | core/src/net/wytrem/jameo/utils/FloatExtrapolator.java:112-115 | aimPos becomes pos + vel*dt elementwise. |
| `Extrapolator.FloatExtrapolator.AimSnapVelocity` | core/src/net/wytrem/jameo/utils/FloatExtrapolator.java:126-129 | snapVel becomes (aimPos - snapPos)*(1/span) elementwise. |
| `Extrapolator.FloatExtrapolator.AddSampleWithVelocity` | core/src/net/wytrem/jameo/utils/FloatExtrapolator.java:101-133 | Returns packetTime > old last packet time. The new state is AcceptSample of the old one, and the invariant is kept. |
| `Extrapolator.FloatExtrapolator.AddSample` | core/src/net/wytrem/jameo/utils/FloatExtrapolator.java:63-78 | Derives the velocity from the pre-call state, then behaves as AcceptDerivedSample; the invariant is kept. |
| `Extrapolator.FloatExtrapolator.ResetWithVelocity` | core/src/net/wytrem/jameo/utils/FloatExtrapolator.java:155-171 | Given packetTime <= curTime, the new state is ResetTo(packetTime, curTime, pos, vel), and the invariant holds. |
| `Extrapolator.FloatExtrapolator.Reset` | core/src/net/wytrem/jameo/utils/FloatExtrapolator.java:143-145 | The same with a zero velocity. |

## Left out

- Floating point: `float`/`double` rounding and the `(float)` narrowing casts
  (FloatExtrapolator.java:71, 114, 128, 169, 227) are not modelled. All
  arithmetic is exact over `real`.
- Scratch buffers: `_tmpArr`, `_tmpArr2` and `_tmpArr3` are not fields. The
  3-argument `addSample` and `reset` use a freshly allocated local vector
  instead. The source writes the derived velocity into `_tmpArr2` even when the
  sample is then rejected. Callers cannot see that buffer, so the model does
  not capture that write.
- Caller vectors: the input vectors `pos` and `vel` must have exactly the
  extrapolator's dimension and must not be its own internal vectors, which the
  source keeps private. The requires exclude wrong lengths, so the model does
  not capture what the source then does (FloatExtrapolator.java:63-171).
  `copyArray` copies `src.length` entries (:288-290), and the loops run over
  `_size` entries.
  - 4-argument `addSample`, longer `pos`: throws at :106. `estimates` (:102)
    has already changed the latency and update interval, so the object is
    left half-updated.
  - 4-argument `addSample`, shorter `pos` or `vel`: throws in the aim loop
    (:112-115). By then the last packet and the snapshot are also updated.
  - 4-argument `addSample`, longer `vel`: the aim loop reads only the first
    `_size` entries. When `|aimTime - snapTime| >= 1e-4`, the snap-velocity
    loop (:126-129) reads only internal vectors, so nothing is thrown and the
    extra entries are ignored. Otherwise `copyArray` at :124 throws.
  - A stale sample returns false before `pos` or `vel` is touched (:102-103),
    except in the 3-argument `addSample`. When the packet interval exceeds
    1e-4, its derived-velocity loop (:67-72) reads `pos` first, so a shorter
    `pos` throws there even for a stale sample.
  - `reset`, longer `pos`: throws at :159, after :158 has set
    `_lastPacketTime`.
  - `reset`, shorter `pos`, or a shorter `vel` in the 4-argument overload: is
    silently accepted. The old tails of `_lastPacketPos`, `_snapPos` (and
    `_snapVel`) are kept, and `_aimPos` (:167-170) is computed from those
    mixed vectors.
  - 4-argument `reset`, longer `vel`: throws at :165. `System.arraycopy`
    (:289) checks its bounds before copying anything, so every field but
    `_snapVel` and `_aimPos` has been set, and those two keep their old
    values.
- Extrapolator.FloatExtrapolator.constructor: takes the dimension as a `nat`.
  The source's `FloatExtrapolator(int size)` accepts any `int`. With a
  negative size, `new float[_size]` in `createArray` (:284-286, first called
  at :39) throws `NegativeArraySizeException` after `_size` has been set
  (:38). The model does not cover that case.
- Extrapolator.FloatExtrapolator.ReadPositionAndVelocity: requires both output
  vectors to have exactly the extrapolator's dimension. The source accepts
  longer ones and writes their first `_size` entries. Out of range it zeroes
  the whole of a longer velocity output, because `clear` runs to the array's
  length.
- Extrapolator.FloatExtrapolator.ReadPosition: requires the output vector to
  have exactly the extrapolator's dimension. The source accepts a longer one
  and writes its first `_size` entries.
- Extrapolator.FloatExtrapolator.ReadPositionAndVelocity: requires `outVel` and
  `outPos` to be different arrays. The source accepts one array for both. It
  would then end with the position in range and the zero vector out of range.
  The model does not cover that aliasing.
- The Java `assert` in `reset` becomes the precondition `packetTime <= curTime`.
  With assertions disabled, the source would go on with a negative update
  interval. The model does not cover that case.
- The class is `abstract` in the source, with no abstract members. Subclasses
  are not part of this model.
- The entity-system wiring around the extrapolator is not part of this model:
  physics, input, map loading, rendering, camera and position-sync systems,
  bootstrap, and the component holders. Neither is any sharing of one instance
  between threads, which the source leaves to its callers.
