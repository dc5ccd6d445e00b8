/** Lock of the choreographer timer: timestamps exactly `T` apart are tracked for ever, and the
    phase and period errors die out. The measure is the quadratic form
    `V = (d - q)^2 + 4 q^2` of the phase error `d` and the period error `q`. */
module FilterLock {
  import opened CInt
  import opened ChoreographerTimer

  function Energy(d: int, q: int): int {
    (d - q) * (d - q) + 4 * (q * q)
  }

  /** The energy of a phase about to receive `point`, for a true period of `T`. */
  function EnergyAt(p: Phase, point: int, T: int): int {
    Energy(Delta(p, point), T - p.period)
  }

  /** Inside this set a point is tracked without catching up and is not an outlier. */
  predicate InLock(p: Phase, point: int, T: int) {
    25 * EnergyAt(p, point, T) <= 4 * (T * T)
  }

  lemma SquareLe(a: int, b: int)
    requires a * a <= b * b && b >= 0
    ensures Abs(a) <= b
  {
    if Abs(a) > b {
      MulLe(b, Abs(a), b);
      MulLt(b, Abs(a), Abs(a));
    }
  }

  lemma SquareOfDouble(r: int)
    ensures (2 * r) * (2 * r) == 4 * (r * r)
  {
  }

  lemma Cauchy43(u: int, v: int)
    ensures (4 * u + 3 * v) * (4 * u + 3 * v) <= 25 * (u * u + v * v)
  {
    assert (3 * u - 4 * v) * (3 * u - 4 * v) >= 0;
  }

  lemma Cauchy41(u: int, v: int)
    ensures (4 * u + v) * (4 * u + v) <= 17 * (u * u + v * v)
  {
    assert (u - 4 * v) * (u - 4 * v) >= 0;
  }

  lemma SquareIsNonNegative(a: int)
    ensures a * a >= 0
  {
  }

  lemma EnergyExceedsPeriodError(d: int, q: int)
    ensures Energy(d, q) >= 4 * (q * q) == 4 * (Abs(q) * Abs(q))
  {
    SquareIsNonNegative(d - q);
  }

  lemma EnergyBoundsPeriodError(d: int, q: int, r: int)
    requires 25 * Energy(d, q) <= 4 * (r * r) && r >= 0
    ensures 5 * Abs(q) <= r
  {
    EnergyExceedsPeriodError(d, q);
    assert (5 * q) * (5 * q) == 25 * (q * q);
    SquareLe(5 * q, r);
  }

  lemma EnergyBoundsBothSides(d: int, q: int, r: int)
    requires 25 * Energy(d, q) <= 4 * (r * r) && r >= 0
    ensures Abs(2 * d + q) <= r && Abs(2 * d - q) <= r
  {
    var u, v := d - q, 2 * q;
    SquareOfDouble(q);
    SquareOfDouble(r);
    SquareIsNonNegative(u);
    SquareIsNonNegative(v);
    Cauchy43(u, v);
    SquareLe(4 * u + 3 * v, 2 * r);
    Cauchy41(u, v);
    SquareLe(4 * u + v, 2 * r);
  }

  /** In lock a timestamp is tracked by smoothing alone. */
  lemma LockedPointIsAccepted(p: Phase, point: int, T: int)
    requires T > 0 && InLock(p, point, T)
    ensures p.period > 0 && !Behind(p, point) && !IsOutlier(p, point)
    ensures Track(p, point) == Smooth(p, point)
  {
    var d, q := Delta(p, point), T - p.period;
    EnergyBoundsPeriodError(d, q, T);
    EnergyBoundsBothSides(d, q, T);
  }

  /** The rounding of the smoothing step, in fifths of a nanosecond. */
  function Rounding(d: int): int {
    5 * Quot(d * 2, 10) - d
  }

  lemma RoundingIsSmall(d: int)
    ensures -4 <= Rounding(d) <= 4
  {
  }

  /** The exact effect of an accepted point on the energy, in the code's own integers. Without
      the rounding terms every point takes away exactly a fifth. */
  lemma EnergyStep(p: Phase, point: int, T: int)
    ensures var d, q, f := Delta(p, point), T - p.period, Rounding(Delta(p, point));
            5 * EnergyAt(Smooth(p, point), point + T, T) == 4 * EnergyAt(p, point, T) - 8 * (q * f) + f * f
  {
    var d, q := Delta(p, point), T - p.period;
    var t := Quot(d * 2, 10);
    assert Delta(Smooth(p, point), point + T) == d + q - 2 * t;
    EnergyIdentity(d, q, t);
  }

  lemma EnergyIdentity(d: int, q: int, t: int)
    ensures var f := 5 * t - d;
            5 * Energy(d + q - 2 * t, q - t) == 4 * Energy(d, q) - 8 * (q * f) + f * f
  {
  }

  lemma EnergyStepBound(p: Phase, point: int, T: int)
    ensures 5 * EnergyAt(Smooth(p, point), point + T, T)
            <= 4 * EnergyAt(p, point, T) + 32 * Abs(T - p.period) + 16
  {
    EnergyStep(p, point, T);
    RoundingIsSmall(Delta(p, point));
    var q, f := T - p.period, Rounding(Delta(p, point));
    BoundedProduct(q, f);
  }

  lemma BoundedProduct(q: int, f: int)
    requires -4 <= f <= 4
    ensures -8 * (q * f) + f * f <= 32 * Abs(q) + 16
  {
  }

  lemma LockArithmetic(v: int, w: int, a: int, T: int)
    requires 5 * w <= 4 * v + 32 * a + 16 && 25 * v <= 4 * (T * T) && 5 * a <= T
    requires T >= 43 || (T >= 37 && a <= 6)
    ensures 25 * w <= 4 * (T * T)
  {
    if T >= 43 { MulLe(43, T, T); } else { MulLe(37, T, T); MulLe(37, T, 37); }
  }

  lemma SquareBelow(e: int, k: nat)
    requires e * e < (k + 1) * (k + 1)
    ensures e * e <= k * k
  {
    var a := Abs(e);
    assert a * a == e * e;
    if a > k { MulLe(k + 1, a, a); MulLe(k + 1, a, k + 1); } else { MulLe(a, k, a); MulLe(a, k, k); }
  }

  lemma EdgeRounding(q: int, f: int)
    requires -4 <= f <= 4
    ensures -8 * (q * f) + f * f <= 32 * Abs(q) + 16
    ensures -3 <= f <= 3 ==> -8 * (q * f) + f * f <= 24 * Abs(q) + 9
  {
    BoundedProduct(q, f);
  }

  /** Short periods with the largest period errors: there is no square in the last gap. */
  lemma LockAtTheEdge(e: int, q: int, f: int, v: int, w: int, T: int)
    requires 37 <= T < 43 && 7 <= Abs(q) && 5 * Abs(q) <= T && -4 <= f <= 4
    requires v == e * e + 4 * (q * q) && 25 * v <= 4 * (T * T) && 5 * w == 4 * v - 8 * (q * f) + f * f
    requires T == 40 && e == 0 ==> -3 <= f <= 3
    ensures 25 * w <= 4 * (T * T)
  {
    EdgeRounding(q, f);
    assert (Abs(q) == 7 && q * q == 49) || (Abs(q) == 8 && q * q == 64);
    EdgeSquares(T);
    EdgeGap(e, Abs(q), v, T, T * T);
    EdgeArithmetic(Abs(q), e * e, v, -8 * (q * f) + f * f, w, T, T * T);
  }

  lemma EdgeSquares(T: int)
    requires 37 <= T < 43
    ensures T * T == if T == 37 then 1369 else if T == 38 then 1444 else if T == 39 then 1521
                     else if T == 40 then 1600 else if T == 41 then 1681 else 1764
  {
  }

  lemma EdgeGap(e: int, a: int, v: int, T: int, tt: int)
    requires 25 * v <= 4 * tt && ((a == 7 && v == e * e + 196) || (a == 8 && v == e * e + 256))
    requires tt == if T == 37 then 1369 else if T == 38 then 1444 else if T == 39 then 1521
                   else if T == 40 then 1600 else if T == 41 then 1681 else 1764
    ensures T == 37 && a == 7 ==> v <= 212
    ensures T == 38 && a == 7 ==> v <= 221
    ensures T == 40 && a == 8 ==> e == 0
    ensures T == 41 && a == 8 ==> v <= 265
  {
    if T == 37 && a == 7 {
      SquareBelow(e, 4);
    } else if T == 38 && a == 7 {
      SquareBelow(e, 5);
    } else if T == 40 && a == 8 {
      SquareBelow(e, 0);
      if e != 0 { MulLe(1, Abs(e), Abs(e)); }
    } else if T == 41 && a == 8 {
      SquareBelow(e, 3);
    }
  }

  lemma EdgeArithmetic(a: int, ee: int, v: int, r: int, w: int, T: int, tt: int)
    requires 37 <= T < 43 && 5 * a <= T && 25 * v <= 4 * tt && 5 * w == 4 * v + r
    requires tt == if T == 37 then 1369 else if T == 38 then 1444 else if T == 39 then 1521
                   else if T == 40 then 1600 else if T == 41 then 1681 else 1764
    requires (a == 7 && v == ee + 196) || (a == 8 && v == ee + 256)
    requires r <= 32 * a + 16 && (T == 40 && a == 8 ==> r <= 24 * a + 9)
    requires T == 37 && a == 7 ==> v <= 212
    requires T == 38 && a == 7 ==> v <= 221
    requires T == 41 && a == 8 ==> v <= 265
    ensures 25 * w <= 4 * tt
  {
  }

  /** For periods of 37 ns and more the lock is never lost. */
  lemma LockIsKept(p: Phase, point: int, T: int)
    requires T >= 37 && InLock(p, point, T)
    ensures p.period > 0 && InLock(Track(p, point), point + T, T)
  {
    LockedPointIsAccepted(p, point, T);
    var d, q := Delta(p, point), T - p.period;
    EnergyBoundsPeriodError(d, q, T);
    if T >= 43 || Abs(q) <= 6 {
      EnergyStepBound(p, point, T);
      LockArithmetic(EnergyAt(p, point, T), EnergyAt(Smooth(p, point), point + T, T), Abs(q), T);
    } else {
      EnergyStep(p, point, T);
      RoundingIsSmall(d);
      LockAtTheEdge(d - q, q, Rounding(d), Energy(d, q), EnergyAt(Smooth(p, point), point + T, T), T);
    }
  }

  ghost predicate KeepsLock(p: Phase, point: int, T: int) {
    InLock(p, point, T) ==> p.period > 0 && InLock(Track(p, point), point + T, T)
  }

  /** 37 ns is the shortest bound on the period from which the lock is kept: at 36 ns rounding can
      break it. */
  lemma LockIsKeptIff(bound: int)
    requires bound > 0
    ensures (forall p, point, T :: T >= bound ==> KeepsLock(p, point, T)) <==> bound >= 37
  {
    if bound >= 37 {
      forall p, point, T | T >= bound ensures KeepsLock(p, point, T) {
        if InLock(p, point, T) { LockIsKept(p, point, T); }
      }
    } else {
      var p, point := Phase(0, 29), 33;
      assert InLock(p, point, 36);
      assert Track(p, point) == Phase(29, 29);
      assert !KeepsLock(p, point, 36);
    }
  }

  /** The `n`-th of a series of timestamps exactly `T` apart that starts at `point`. */
  function Timestamp(point: int, T: int, n: nat): int {
    if n == 0 then point else Timestamp(point, T, n - 1) + T
  }

  /** The phase after the first `n` timestamps. */
  function Ticks(p: Phase, point: int, T: int, n: nat): (r: Phase)
    requires p.period > 0
    ensures r.period > 0
  {
    if n == 0 then p
    else
      var q := Ticks(p, point, T, n - 1);
      PeriodStaysPositive(q, Timestamp(point, T, n - 1));
      Track(q, Timestamp(point, T, n - 1))
  }

  /** From a locked phase on, every timestamp is accepted without catching up. */
  lemma {:induction false} LockedForever(p: Phase, point: int, T: int, n: nat)
    requires T >= 37 && p.period > 0 && InLock(p, point, T)
    ensures var q, at := Ticks(p, point, T, n), Timestamp(point, T, n);
            && InLock(q, at, T)
            && !Behind(q, at) && !IsOutlier(q, at)
            && Ticks(p, point, T, n + 1) == Smooth(q, at)
  {
    if n > 0 {
      LockedForever(p, point, T, n - 1);
      LockIsKept(Ticks(p, point, T, n - 1), Timestamp(point, T, n - 1), T);
    }
    LockedPointIsAccepted(Ticks(p, point, T, n), Timestamp(point, T, n), T);
  }

  // ------------------------------------------- timestamps that repeat, or are skipped

  /** Timestamps after the one at `last`, each by a number of periods later than the one before. */
  function Follow(p: Phase, last: int, T: int, gaps: seq<nat>): Phase
    requires p.period > 0
    decreases |gaps|
  {
    if gaps == [] then p
    else
      var at := last + gaps[0] * T;
      PeriodStaysPositive(p, at);
      Follow(Track(p, at), at, T, gaps[1..])
  }

  function Fresh(gaps: seq<nat>): nat {
    if gaps == [] then 0 else (if gaps[0] == 0 then 0 else 1) + Fresh(gaps[1..])
  }

  /** However often timestamps are repeated, in lock only the fresh ones count. */
  lemma {:induction false} RepeatsDoNotMatter(p: Phase, point: int, T: int, n: nat, gaps: seq<nat>)
    requires T >= 37 && p.period > 0 && InLock(p, point, T) && n > 0
    requires forall g <- gaps :: g <= 1
    ensures Follow(Ticks(p, point, T, n), Timestamp(point, T, n - 1), T, gaps) == Ticks(p, point, T, n + Fresh(gaps))
    decreases |gaps|
  {
    hide InLock, Track, Ticks, Timestamp, Follow, Fresh;
    FreshOnes(gaps);
    if gaps == [] {
      FollowNothing(Ticks(p, point, T, n), Timestamp(point, T, n - 1), T);
    } else {
      var next := if gaps[0] == 0 then n else n + 1;
      NextInLock(p, point, T, n, gaps[0]);
      FollowStep(Ticks(p, point, T, n), Timestamp(point, T, n - 1), T, gaps, Timestamp(point, T, next - 1), Ticks(p, point, T, next));
      RepeatsDoNotMatter(p, point, T, next, gaps[1..]);
    }
  }

  lemma FreshOnes(gaps: seq<nat>)
    ensures Fresh(gaps) == if gaps == [] then 0 else (if gaps[0] == 0 then 0 else 1) + Fresh(gaps[1..])
    ensures gaps != [] ==> gaps[0] in gaps && forall g <- gaps[1..] :: g in gaps
  {
  }

  lemma FollowNothing(p: Phase, last: int, T: int)
    requires p.period > 0
    ensures Follow(p, last, T, []) == p
  {
  }

  lemma FollowStep(p: Phase, last: int, T: int, gaps: seq<nat>, at: int, next: Phase)
    requires p.period > 0 && gaps != [] && at == last + gaps[0] * T && next == Track(p, at)
    ensures next.period > 0 && Follow(p, last, T, gaps) == Follow(next, at, T, gaps[1..])
  {
    hide Track, CatchUp, Smooth, IsOutlier;
    PeriodStaysPositive(p, at);
  }

  lemma NextInLock(p: Phase, point: int, T: int, n: nat, gap: nat)
    requires T >= 37 && p.period > 0 && InLock(p, point, T) && n > 0 && gap <= 1
    ensures var next := if gap == 0 then n else n + 1;
            && Timestamp(point, T, next - 1) == Timestamp(point, T, n - 1) + gap * T
            && Ticks(p, point, T, next) == Track(Ticks(p, point, T, n), Timestamp(point, T, next - 1))
  {
    hide Track;
    if gap == 0 { RepeatInLock(p, point, T, n - 1); } else { assert gap * T == T; }
  }

  lemma RepeatInLock(p: Phase, point: int, T: int, n: nat)
    requires T >= 37 && p.period > 0 && InLock(p, point, T)
    ensures Track(Ticks(p, point, T, n + 1), Timestamp(point, T, n)) == Ticks(p, point, T, n + 1)
  {
    LockedForever(p, point, T, n);
    AcceptedRepeat(Ticks(p, point, T, n), Timestamp(point, T, n), T);
    hide InLock, Track, CatchUp, Smooth, IsOutlier;
  }

  lemma AcceptedRepeat(p: Phase, point: int, T: int)
    requires T >= 37 && p.period > 0 && InLock(p, point, T)
    ensures var q := Track(p, point); q.period > 0 && Track(q, point) == q
  {
    LockedPointIsAccepted(p, point, T);
    PeriodStaysPositive(p, point);
    EnergyBoundsPeriodError(Delta(p, point), T - p.period, T);
    hide InLock, Energy;
    RepeatsAreIgnored(p, point);
    hide Smooth, IsOutlier, Track;
  }

  /** The phase error at a timestamp that comes `m` periods after the last one: each skipped period
      adds the period error once more. Inside the lock set the catch-up loop makes up for exactly
      the periods that were skipped, and the lock is kept. */
  lemma GapKeepsLock(p: Phase, last: int, T: int, m: nat)
    requires T >= 37 && m >= 1 && p.period > 0
    requires var q := T - p.period; 25 * Energy(Delta(p, last + T) + (m - 1) * q, q) <= 4 * (T * T)
    ensures var caughtUp := Phase(p.base + (m - 1) * p.period, p.period);
            && Track(p, last + m * T) == Smooth(caughtUp, last + m * T)
            && InLock(Track(p, last + m * T), last + m * T + T, T)
  {
    var caughtUp, at := Phase(p.base + (m - 1) * p.period, p.period), last + m * T;
    GapError(p.period, T, m);
    assert InLock(caughtUp, at, T);
    CatchesUp(p, at, T, m - 1);
    LockedPointIsAccepted(caughtUp, at, T);
    LockIsKept(caughtUp, at, T);
  }

  lemma GapError(period: int, T: int, m: nat)
    ensures m * T - (m - 1) * period == T + (m - 1) * (T - period)
  {
  }

  lemma {:induction false} CatchesUp(p: Phase, at: int, T: int, k: nat)
    requires T > 0 && p.period > 0 && InLock(Phase(p.base + k * p.period, p.period), at, T)
    ensures CatchUp(p, at) == Phase(p.base + k * p.period, p.period)
    decreases k
  {
    var caughtUp := Phase(p.base + k * p.period, p.period);
    LockedPointIsAccepted(caughtUp, at, T);
    if k > 0 {
      EarlyBound(Delta(caughtUp, at), T - p.period, T);
      MulLe(1, k, p.period);
      assert Behind(p, at);
      assert p.base + p.period + (k - 1) * p.period == p.base + k * p.period;
      CatchesUp(p.(base := p.base + p.period), at, T, k - 1);
    }
  }

  /** In lock a point is less than half a period early. */
  lemma EarlyBound(d: int, q: int, T: int)
    requires T > 0 && 25 * Energy(d, q) <= 4 * (T * T)
    ensures 2 * d - q > -T
  {
    Cauchy41(d - q, 2 * q);
    assert (2 * q) * (2 * q) == 4 * (q * q);
    assert 4 * (d - q) + 2 * q == 2 * (2 * d - q);
    SquareOfDouble(2 * d - q);
    assert (2 * d - q) * (2 * d - q) == (q - 2 * d) * (q - 2 * d);
    MulLe(1, T, T);
    if 2 * d - q <= -T {
      MulLe(T, q - 2 * d, T);
      MulLe(T, q - 2 * d, q - 2 * d);
    }
  }

  // ------------------------------------------------------------- how the errors die out

  const NOISE := 272

  /** The energy `v` before and `w` after a point, and the size `a` of the period error. */
  lemma FallArithmetic(v: int, w: int, a: int)
    requires 5 * w <= 4 * v + 32 * a + 16 && v >= 4 * (a * a) && a >= 0
    ensures (v > NOISE ==> w < v) && (v <= NOISE ==> w <= NOISE)
    ensures 10 * (w - 288) <= 9 * (v - 288)
  {
    SquareIsNonNegative(a - 8);
    assert (a - 8) * (a - 8) == a * a - 16 * a + 64;
    if a >= 9 { MulLe(9, a, a); }
  }

  /** Above the rounding noise the energy strictly falls, and it never climbs out of the noise. */
  lemma EnergyFalls(p: Phase, point: int, T: int)
    ensures var v, w := EnergyAt(p, point, T), EnergyAt(Smooth(p, point), point + T, T);
            (v > NOISE ==> w < v) && (v <= NOISE ==> w <= NOISE)
  {
    EnergyStepBound(p, point, T);
    EnergyExceedsPeriodError(Delta(p, point), T - p.period);
    FallArithmetic(EnergyAt(p, point, T), EnergyAt(Smooth(p, point), point + T, T), Abs(T - p.period));
  }

  function Pow(b: nat, n: nat): nat {
    if n == 0 then 1 else b * Pow(b, n - 1)
  }

  /** One step of geometric decay towards a level just above the noise. */
  lemma EnergyShrinks(p: Phase, point: int, T: int)
    ensures 10 * (EnergyAt(Smooth(p, point), point + T, T) - 288) <= 9 * (EnergyAt(p, point, T) - 288)
  {
    EnergyStepBound(p, point, T);
    EnergyExceedsPeriodError(Delta(p, point), T - p.period);
    FallArithmetic(EnergyAt(p, point, T), EnergyAt(Smooth(p, point), point + T, T), Abs(T - p.period));
  }

  function EnergyAfter(p: Phase, point: int, T: int, n: nat): int
    requires p.period > 0
  {
    EnergyAt(Ticks(p, point, T, n), Timestamp(point, T, n), T)
  }

  lemma EnergyAfterOneMore(p: Phase, point: int, T: int, n: nat)
    requires T >= 37 && p.period > 0 && InLock(p, point, T)
    ensures var v, w := EnergyAfter(p, point, T, n), EnergyAfter(p, point, T, n + 1);
            && (v > NOISE ==> w < v) && (v <= NOISE ==> w <= NOISE)
            && 10 * (w - 288) <= 9 * (v - 288)
  {
    LockedForever(p, point, T, n);
    var q, at := Ticks(p, point, T, n), Timestamp(point, T, n);
    EnergyFalls(q, at, T);
    EnergyShrinks(q, at, T);
  }

  lemma {:induction false} DecayOf(e: nat -> int, n: nat)
    requires forall k: nat :: k < n ==> 10 * e(k + 1) <= 9 * e(k)
    ensures Pow(10, n) * e(n) <= Pow(9, n) * e(0)
  {
    if n > 0 {
      DecayOf(e, n - 1);
      Chain(Pow(10, n - 1), Pow(9, n - 1), e(n - 1), e(n), e(0));
    }
  }

  lemma Chain(x: nat, y: nat, before: int, after: int, start: int)
    requires x * before <= y * start && 10 * after <= 9 * before
    ensures (10 * x) * after <= (9 * y) * start
  {
    MulLe(10 * after, 9 * before, x);
    assert (10 * after) * x == (10 * x) * after;
    assert (9 * before) * x == 9 * (x * before);
    assert (9 * y) * start == 9 * (y * start);
  }

  /** In lock the energy decays geometrically, in the code's own integer arithmetic. */
  lemma GeometricDecay(p: Phase, point: int, T: int, n: nat)
    requires T >= 37 && p.period > 0 && InLock(p, point, T)
    ensures Pow(10, n) * (EnergyAfter(p, point, T, n) - 288) <= Pow(9, n) * (EnergyAt(p, point, T) - 288)
  {
    var e: nat -> int := (k: nat) => EnergyAfter(p, point, T, k) - 288;
    forall k: nat | k < n ensures 10 * e(k + 1) <= 9 * e(k) {
      EnergyAfterOneMore(p, point, T, k);
    }
    DecayOf(e, n);
  }

  /** After a number of timestamps that grows with the logarithm of the initial energy the period
      is within 8 ns and the predicted vsync within 18 ns of the truth, and both stay there. */
  lemma ErrorsSettle(p: Phase, point: int, T: int, n: nat, later: nat)
    requires T >= 37 && p.period > 0 && InLock(p, point, T)
    requires Pow(9, n) * (EnergyAt(p, point, T) - 288) < Pow(10, n) && later >= n
    ensures var q := Ticks(p, point, T, later);
            Abs(T - q.period) <= 8 && Abs(Delta(q, Timestamp(point, T, later))) <= 18
  {
    GeometricDecay(p, point, T, n);
    PowIsPositive(10, n);
    BelowOne(Pow(10, n), EnergyAfter(p, point, T, n) - 288, Pow(9, n) * (EnergyAt(p, point, T) - 288));
    NoiseIsKept(p, point, T, n, later);
    var q := Ticks(p, point, T, later);
    NoiseBounds(Delta(q, Timestamp(point, T, later)), T - q.period);
  }

  lemma BelowOne(x: int, e: int, bound: int)
    requires x * e <= bound < x
    ensures x > 0 ==> e <= 0
  {
    if x > 0 && e >= 1 { MulLe(1, e, x); }
  }

  lemma {:induction false} PowIsPositive(b: nat, n: nat)
    requires b > 0
    ensures Pow(b, n) > 0
  {
    if n > 0 {
      PowIsPositive(b, n - 1);
      MulLe(1, Pow(b, n - 1), b);
    }
  }

  lemma {:induction false} NoiseIsKept(p: Phase, point: int, T: int, n: nat, later: nat)
    requires T >= 37 && p.period > 0 && InLock(p, point, T) && n <= later
    requires EnergyAfter(p, point, T, n) <= 288
    ensures EnergyAfter(p, point, T, later) <= 288
    decreases later
  {
    hide InLock, EnergyAfter;
    if n < later {
      NoiseIsKept(p, point, T, n, later - 1);
      EnergyAfterOneMore(p, point, T, later - 1);
    }
  }

  lemma NoiseBounds(d: int, q: int)
    requires Energy(d, q) <= 288
    ensures Abs(q) <= 8 && Abs(d) <= 18
  {
    EnergyExceedsPeriodError(d, q);
    SquareBound(q, 8);
    SquareIsNonNegative(5 * q - d);
    assert (5 * q - d) * (5 * q - d) + 4 * (d * d) == 5 * Energy(d, q);
    SquareBound(d, 18);
  }

  /** Once the errors have settled, gaps of `m` periods do no harm as long as `8 m` stays clear of
      two fifths of the period: at 60 Hz that is more than an hour. */
  lemma SettledGapKeepsLock(p: Phase, last: int, T: int, m: nat)
    requires T >= 37 && m >= 1 && p.period > 0 && EnergyAt(p, last + T, T) <= 288
    requires 25 * ((8 * m + 9) * (8 * m + 9) + 288) <= 4 * (T * T)
    ensures InLock(Track(p, last + m * T), last + m * T + T, T)
  {
    var d, q := Delta(p, last + T), T - p.period;
    NoiseBounds(d, q);
    GapEnergy(d, q, m);
    GapKeepsLock(p, last, T, m);
  }

  lemma GapEnergy(d: int, q: int, m: nat)
    requires m >= 1 && Energy(d, q) <= 288 && Abs(q) <= 8
    ensures Energy(d + (m - 1) * q, q) <= (8 * m + 9) * (8 * m + 9) + 288
  {
    var u, x := d - q, (m - 1) * q;
    SquareIsNonNegative(u);
    SquareIsNonNegative(q);
    SquareBound(u, 17);
    GapShift(q, m - 1);
    SquareUpTo(u + x, 8 * m + 9);
    ShiftedEnergy(d, q, x);
  }

  lemma ShiftedEnergy(d: int, q: int, x: int)
    ensures Energy(d + x, q) == (d - q + x) * (d - q + x) + 4 * (q * q)
  {
    assert d + x - q == d - q + x;
  }

  lemma GapShift(q: int, k: nat)
    requires Abs(q) <= 8
    ensures Abs(k * q) <= 8 * k
  {
    MulLe(q, 8, k);
    MulLe(-8, q, k);
    assert k * q == q * k;
  }

  lemma SquareUpTo(e: int, b: nat)
    requires Abs(e) <= b
    ensures e * e <= b * b
  {
    MulLe(Abs(e), b, Abs(e));
    MulLe(Abs(e), b, b);
    assert e * e == Abs(e) * Abs(e);
  }

  lemma SquareBound(a: int, b: nat)
    requires a * a < (b + 1) * (b + 1)
    ensures Abs(a) <= b
  {
    if Abs(a) > b {
      MulLe(b + 1, Abs(a), b + 1);
      MulLe(b + 1, Abs(a), Abs(a));
    }
  }

  // ------------------------------------------------------------------- exact arithmetic

  /** The same loop without rounding: every accepted point takes away exactly a fifth. */
  function ExactEnergy(d: real, q: real): real {
    (d - q) * (d - q) + 4.0 * (q * q)
  }

  lemma ExactEnergyStep(d: real, q: real)
    ensures ExactEnergy(d + q - 2.0 * (d / 5.0), q - d / 5.0) == 4.0 / 5.0 * ExactEnergy(d, q)
  {
    var t := d / 5.0;
    assert d == 5.0 * t;
    assert d + q - 2.0 * t - (q - t) == 4.0 * t;
  }

  /** The lock bound is the best possible: at every energy beyond it there is a phase, of positive
      period, whose point needs catching up. */
  lemma LockBoundIsTight(T: real, k: real)
    requires T > 0.0 && 25.0 * k > 2.0 * T
    ensures exists d: real, q: real :: ExactEnergy(d, q) == 25.0 * (k * k) && 2.0 * d > T - q > 0.0
  {
    if 10.0 * k > T {
      var d, q := 5.0 * k, 0.0;
      assert d - q == 5.0 * k;
      assert ExactEnergy(d, q) == 25.0 * (k * k);
    } else {
      var d, q := 5.5 * k, 1.5 * k;
      assert d - q == 4.0 * k;
      assert ExactEnergy(d, q) == 25.0 * (k * k);
    }
  }
}
