/**
  The Coulomb-style friction law that Stone#update applies after every
  physics step: the speed of a moving stone drops by BOARD_FRICTION and its
  angular speed by ROTATIONAL_FRICTION, never past zero.
 */
module Damping {
  import opened Constants

  /** A two-component vector, as the physics library's Vec2. */
  datatype Vec2 = Vec2(x: real, y: real)

  const ZERO := Vec2(0.0, 0.0)

  function Abs(x: real): real { if x < 0.0 then -x else x }

  function Sign(x: real): real { if x < 0.0 then -1.0 else if x > 0.0 then 1.0 else 0.0 }

  function Max(a: real, b: real): real { if a < b then b else a }

  function Scale(v: Vec2, k: real): Vec2 { Vec2(v.x * k, v.y * k) }

  /** The least integer not below `x`. */
  function Ceil(x: real): (n: int)
    ensures x <= n as real < x + 1.0
  {
    -((-x).Floor)
  }

  /**
    `len` is the Euclidean length of `v`.  The length is computed by the
    physics library (Vec2#length, a square root), so the model receives it
    as an input constrained by this predicate: a nonnegative root of the
    sum of squares, zero exactly for the zero vector.
   */
  predicate IsLength(len: real, v: Vec2)
  {
    len >= 0.0 && len * len == v.x * v.x + v.y * v.y && (len == 0.0 <==> v == ZERO)
  }

  /**
    What the damping law itself needs of the length: it is positive when
    both components are nonzero (the only case in which it divides by it).
   */
  predicate Divisible(len: real, v: Vec2)
  {
    v.x != 0.0 && v.y != 0.0 ==> len > 0.0
  }

  /** `norm` computes the Euclidean length of every vector. */
  ghost predicate IsNorm(norm: Vec2 -> real)
  {
    forall v :: IsLength(norm(v), v)
  }

  /** `norm` is positive on every vector with both components nonzero. */
  ghost predicate DivisibleNorm(norm: Vec2 -> real)
  {
    forall v :: Divisible(norm(v), v)
  }

  /** The Euclidean length is such a norm. */
  lemma NormIsDivisible(norm: Vec2 -> real)
    requires IsNorm(norm)
    ensures DivisibleNorm(norm)
  {
    forall v ensures Divisible(norm(v), v) {
      assert IsLength(norm(v), v);
    }
  }

  /**
    get_reduced_velocity: the component `v` of a velocity of length `len`
    carries the share BOARD_FRICTION * |v| / len of the friction; it loses
    that much magnitude, or becomes zero when the share is not smaller
    than |v|.  Its properties are ReducedVelocityLaw.
   */
  function ReducedVelocity(v: real, len: real): real
    requires v != 0.0 && len > 0.0
  {
    if Abs(v) <= BOARD_FRICTION * (Abs(v) / len) then 0.0
    else Abs(v) / v * (Abs(v) - BOARD_FRICTION * (Abs(v) / len))
  }

  /**
    The reduced component is zero exactly when the speed is at most
    BOARD_FRICTION; otherwise it keeps its sign and loses its share of the
    friction.  Either way it is `v` scaled by max(0, 1 - BOARD_FRICTION / len).
   */
  lemma ReducedVelocityLaw(v: real, len: real)
    requires v != 0.0 && len > 0.0
    ensures var r := ReducedVelocity(v, len);
      (r == 0.0 <==> Abs(v) <= BOARD_FRICTION * (Abs(v) / len)) &&
      (r == 0.0 <==> len <= BOARD_FRICTION) &&
      (r != 0.0 ==> Sign(r) == Sign(v) && Abs(r) < Abs(v)) &&
      (r != 0.0 ==> Abs(r) == Abs(v) - BOARD_FRICTION * (Abs(v) / len)) &&
      r == v * Max(0.0, 1.0 - BOARD_FRICTION / len)
  {
    ShareExceeds(Abs(v), len);
    ReducedFactor(v, len);
  }

  /**
    get_reduced_rotational_velocity: a nonzero angular velocity loses
    ROTATIONAL_FRICTION of its magnitude, or stops when it has no more.
   */
  function ReducedRotationalVelocity(w: real): (r: real)
    requires w != 0.0
    ensures r == 0.0 <==> Abs(w) <= ROTATIONAL_FRICTION
    ensures r != 0.0 ==> Sign(r) == Sign(w) && Abs(r) == Abs(w) - ROTATIONAL_FRICTION
  {
    if Abs(w) <= ROTATIONAL_FRICTION then 0.0
    else Abs(w) / w * (Abs(w) - ROTATIONAL_FRICTION)
  }

  /**
    The new linear velocity of Stone#update: both components are reduced
    when both are nonzero, and otherwise the whole velocity becomes zero.
   */
  function DampVelocity(v: Vec2, len: real): Vec2
    requires Divisible(len, v)
  {
    if v.x != 0.0 && v.y != 0.0 then
      Vec2(ReducedVelocity(v.x, len), ReducedVelocity(v.y, len))
    else
      ZERO
  }

  /** The new angular velocity of Stone#update. */
  function DampAngular(w: real): real
  {
    if w != 0.0 then ReducedRotationalVelocity(w) else 0.0
  }

  /** The length of DampVelocity(v, len), as DampedSpeed proves. */
  function NextSpeed(v: Vec2, len: real): real
  {
    if v.x != 0.0 && v.y != 0.0 then Max(0.0, len - BOARD_FRICTION) else 0.0
  }

  /**
    The linear velocity after `n` ticks of damping, carrying on the next
    speed NextSpeed as the length; IterateIsSettle shows that this is what
    re-measuring the Euclidean length on every tick gives.
   */
  function Settle(v: Vec2, len: real, n: nat): Vec2
    requires Divisible(len, v)
    decreases n
  {
    if n == 0 then v
    else
      DampKeepsSigns(v, len);
      Settle(DampVelocity(v, len), NextSpeed(v, len), n - 1)
  }

  /** The angular velocity after `n` ticks of damping. */
  function Spin(w: real, n: nat): real
    decreases n
  {
    if n == 0 then w else Spin(DampAngular(w), n - 1)
  }

  /** The number of ticks after which a velocity of length `len` is zero. */
  function TicksToRest(v: Vec2, len: real): nat
    requires Divisible(len, v)
  {
    if v == ZERO then 0
    else if v.x == 0.0 || v.y == 0.0 then 1
    else Ceil(len / BOARD_FRICTION)
  }

  /** The number of ticks after which an angular velocity is zero. */
  function TicksToStopSpinning(w: real): nat
  {
    Ceil(Abs(w) / ROTATIONAL_FRICTION)
  }

  // ---------------------------------------------------------------------
  // The linear law

  /** A velocity with a zero component stops in one tick, whatever the other. */
  lemma DampSnapsOnAxis(v: Vec2, len: real)
    requires Divisible(len, v) && (v.x == 0.0 || v.y == 0.0)
    ensures DampVelocity(v, len) == ZERO
  {
  }

  /**
    Otherwise both components are scaled by the same factor
    max(0, 1 - BOARD_FRICTION / len): the direction is kept.
   */
  lemma DampScalesVelocity(v: Vec2, len: real)
    requires v.x != 0.0 && v.y != 0.0 && len > 0.0
    ensures DampVelocity(v, len) == Scale(v, Max(0.0, 1.0 - BOARD_FRICTION / len))
  {
  }

  /** The speed after one tick is NextSpeed: BOARD_FRICTION less, or zero. */
  lemma DampedSpeed(v: Vec2, len: real)
    requires IsLength(len, v)
    ensures IsLength(NextSpeed(v, len), DampVelocity(v, len))
  {
    if v.x != 0.0 && v.y != 0.0 {
      if len > BOARD_FRICTION {
        DampScalesVelocity(v, len);
        SpeedStep(v, len);
      } else {
        DampKeepsSigns(v, len);
      }
    }
  }

  /** While the speed exceeds BOARD_FRICTION, no component changes sign or vanishes. */
  lemma DampKeepsSigns(v: Vec2, len: real)
    requires Divisible(len, v)
    ensures Divisible(NextSpeed(v, len), DampVelocity(v, len))
    ensures v.x != 0.0 && v.y != 0.0 && len > BOARD_FRICTION ==>
      Sign(DampVelocity(v, len).x) == Sign(v.x) && Sign(DampVelocity(v, len).y) == Sign(v.y)
    ensures len <= BOARD_FRICTION ==> DampVelocity(v, len) == ZERO
  {
  }

  /** Damping never reverses a component of the velocity. */
  lemma DampNeverReverses(v: Vec2, len: real)
    requires Divisible(len, v)
    ensures DampVelocity(v, len).x == 0.0 || Sign(DampVelocity(v, len).x) == Sign(v.x)
    ensures DampVelocity(v, len).y == 0.0 || Sign(DampVelocity(v, len).y) == Sign(v.y)
  {
    DampKeepsSigns(v, len);
  }

  /** Damping never reverses or speeds up the spin. */
  lemma DampAngularSlows(w: real)
    ensures DampAngular(w) == 0.0 || Sign(DampAngular(w)) == Sign(w)
    ensures Abs(DampAngular(w)) <= Abs(w)
  {
  }

  lemma SettleAtRest(n: nat)
    ensures Settle(ZERO, 0.0, n) == ZERO
  {
    if n > 0 {
      SettleAtRest(n - 1);
    }
  }

  /**
    The share of a velocity of length `len` that is left after `t` ticks
    when the speed drops by BOARD_FRICTION per tick.
   */
  function Remaining(len: real, t: real): real
    requires len > 0.0
  {
    Max(0.0, 1.0 - t * BOARD_FRICTION / len)
  }

  /**
    After `n` ticks a velocity with both components nonzero is the
    starting velocity scaled by max(0, 1 - n * BOARD_FRICTION / len): the
    stone slows down along a straight line and stops, never turning back.
   */
  lemma {:induction false} SettleScales(v: Vec2, len: real, n: nat)
    requires v.x != 0.0 && v.y != 0.0 && len > 0.0
    ensures Settle(v, len, n) == Scale(v, Remaining(len, n as real))
    decreases n
  {
    if n == 0 {
      assert Scale(v, 1.0) == v;
    } else if len <= BOARD_FRICTION {
      SettleStopped(v, len, n);
      RemainingAfterStop(len, n as real);
      assert Scale(v, 0.0) == ZERO;
    } else {
      SettleMoving(v, len, n);
      SettleScales(Scale(v, 1.0 - BOARD_FRICTION / len), len - BOARD_FRICTION, n - 1);
      ComposeTicks(v, len, n);
    }
  }

  /** One tick of scaling followed by n - 1 more is n ticks of it. */
  lemma ComposeTicks(v: Vec2, len: real, n: nat)
    requires len > BOARD_FRICTION && n > 0
    ensures Scale(Scale(v, 1.0 - BOARD_FRICTION / len), Remaining(len - BOARD_FRICTION, (n - 1) as real))
      == Scale(v, Remaining(len, n as real))
  {
    var k, l, m := 1.0 - BOARD_FRICTION / len, len - BOARD_FRICTION, (n - 1) as real;
    ScaleTwice(v, k, Remaining(l, m));
    RemainingStep(len, l, m);
    assert m + 1.0 == n as real;
  }

  /** A stone no faster than BOARD_FRICTION stops on the next tick for good. */
  lemma SettleStopped(v: Vec2, len: real, n: nat)
    requires v.x != 0.0 && v.y != 0.0 && 0.0 < len <= BOARD_FRICTION && n > 0
    ensures Settle(v, len, n) == ZERO
  {
    DampKeepsSigns(v, len);
    SettleAtRest(n - 1);
  }

  /** A faster stone is scaled by 1 - BOARD_FRICTION / len and keeps moving. */
  lemma SettleMoving(v: Vec2, len: real, n: nat)
    requires v.x != 0.0 && v.y != 0.0 && len > BOARD_FRICTION && n > 0
    ensures var u := Scale(v, 1.0 - BOARD_FRICTION / len);
      u.x != 0.0 && u.y != 0.0 && Settle(v, len, n) == Settle(u, len - BOARD_FRICTION, n - 1)
  {
    DampKeepsSigns(v, len);
    DampScalesVelocity(v, len);
  }

  /**
    A moving stone comes to rest exactly after TicksToRest ticks, and not
    before; until then each component keeps its sign.  With both components
    nonzero that is ceil(len / BOARD_FRICTION) ticks.
   */
  lemma SettlesToRest(v: Vec2, len: real)
    requires Divisible(len, v)
    ensures Settle(v, len, TicksToRest(v, len)) == ZERO
    ensures forall k: nat :: k < TicksToRest(v, len) ==> Settle(v, len, k) != ZERO
    ensures forall k: nat :: k < TicksToRest(v, len) ==>
      Sign(Settle(v, len, k).x) == Sign(v.x) && Sign(Settle(v, len, k).y) == Sign(v.y)
  {
    var n := TicksToRest(v, len);
    if v.x != 0.0 && v.y != 0.0 {
      SettleScales(v, len, n);
      RemainingBounds(len, n as real);
      forall k: nat | k < n
        ensures Settle(v, len, k) != ZERO
        ensures Sign(Settle(v, len, k).x) == Sign(v.x) && Sign(Settle(v, len, k).y) == Sign(v.y)
      {
        SettleScales(v, len, k);
        RemainingBounds(len, k as real);
        SignOfScaled(v.x, Remaining(len, k as real));
        SignOfScaled(v.y, Remaining(len, k as real));
      }
    } else if v != ZERO {
      assert Settle(v, len, 1) == Settle(ZERO, 0.0, 0);
    }
  }

  /**
    The linear velocity after `n` runs of Stone#update, each of which
    measures the length of the current velocity afresh with `norm`.
   */
  function Iterate(v: Vec2, norm: Vec2 -> real, n: nat): Vec2
    requires DivisibleNorm(norm)
    decreases n
  {
    if n == 0 then v else Iterate(DampVelocity(v, norm(v)), norm, n - 1)
  }

  /** A vector has only one Euclidean length. */
  lemma LengthUnique(a: real, b: real, u: Vec2)
    requires IsLength(a, u) && IsLength(b, u)
    ensures a == b
  {
  }

  /**
    With the Euclidean length, re-measuring the velocity on every tick
    gives exactly Settle: the length Settle carries on is the one the
    physics library would measure.
   */
  lemma {:induction false} IterateIsSettle(v: Vec2, norm: Vec2 -> real, n: nat)
    requires IsNorm(norm)
    ensures (NormIsDivisible(norm); Iterate(v, norm, n) == Settle(v, norm(v), n))
    decreases n
  {
    NormIsDivisible(norm);
    if n > 0 {
      var u := DampVelocity(v, norm(v));
      DampedSpeed(v, norm(v));
      LengthUnique(norm(u), NextSpeed(v, norm(v)), u);
      IterateIsSettle(u, norm, n - 1);
    }
  }

  /**
    Stone#update run over and over stops a stone: with the Euclidean
    length the velocity is exactly zero after TicksToRest ticks and not
    before, each component keeping its sign until then.
   */
  lemma IterateToRest(v: Vec2, norm: Vec2 -> real)
    requires IsNorm(norm)
    ensures (NormIsDivisible(norm); Iterate(v, norm, TicksToRest(v, norm(v))) == ZERO)
    ensures (NormIsDivisible(norm); forall k: nat :: k < TicksToRest(v, norm(v)) ==>
      Iterate(v, norm, k) != ZERO && Sign(Iterate(v, norm, k).x) == Sign(v.x) && Sign(Iterate(v, norm, k).y) == Sign(v.y))
  {
    NormIsDivisible(norm);
    SettlesToRest(v, norm(v));
    IterateIsSettle(v, norm, TicksToRest(v, norm(v)));
    forall k: nat | k < TicksToRest(v, norm(v))
      ensures Iterate(v, norm, k) == Settle(v, norm(v), k)
    {
      IterateIsSettle(v, norm, k);
    }
  }

  // ---------------------------------------------------------------------
  // The angular law

  lemma SpinAtRest(n: nat)
    ensures Spin(0.0, n) == 0.0
  {
    if n > 0 {
      SpinAtRest(n - 1);
    }
  }

  /**
    After `n` ticks the angular velocity has magnitude
    |w| - n * ROTATIONAL_FRICTION and the sign of `w`, or is exactly zero
    once that magnitude would not be positive: it never changes sign.
   */
  lemma {:induction false} SpinClosedForm(w: real, n: nat)
    ensures Abs(w) - n as real * ROTATIONAL_FRICTION > 0.0 ==>
      Sign(Spin(w, n)) == Sign(w) && Abs(Spin(w, n)) == Abs(w) - n as real * ROTATIONAL_FRICTION
    ensures Abs(w) - n as real * ROTATIONAL_FRICTION <= 0.0 ==> Spin(w, n) == 0.0
    decreases n
  {
    if n > 0 {
      if w == 0.0 || Abs(w) <= ROTATIONAL_FRICTION {
        SpinAtRest(n - 1);
      } else {
        SpinClosedForm(DampAngular(w), n - 1);
      }
    }
  }

  /** A spinning stone stops exactly after ceil(|w| / ROTATIONAL_FRICTION) ticks. */
  lemma SpinsToRest(w: real)
    ensures Spin(w, TicksToStopSpinning(w)) == 0.0
    ensures forall k: nat :: k < TicksToStopSpinning(w) ==> Spin(w, k) != 0.0 && Sign(Spin(w, k)) == Sign(w)
  {
    var n := TicksToStopSpinning(w);
    SpinClosedForm(w, n);
    forall k: nat | k < n
      ensures Spin(w, k) != 0.0 && Sign(Spin(w, k)) == Sign(w)
    {
      SpinClosedForm(w, k);
    }
  }

  // ---------------------------------------------------------------------
  // Facts of real arithmetic, each kept apart so that the solver sees one
  // nonlinear step at a time.

  lemma RemainingAfterStop(len: real, t: real)
    requires 0.0 < len <= BOARD_FRICTION && t >= 1.0
    ensures Remaining(len, t) == 0.0
  {
    assert t * BOARD_FRICTION >= len;
    RatioAtLeastOne(t * BOARD_FRICTION, len);
  }

  lemma RatioAtLeastOne(a: real, b: real)
    requires a >= b > 0.0
    ensures a / b >= 1.0
  {
    assert (a / b) * b == a;
  }

  lemma RatioBelowOne(a: real, b: real)
    requires 0.0 <= a < b
    ensures a / b < 1.0
  {
    assert (a / b) * b == a;
  }

  /** Remaining vanishes exactly from ceil(len / BOARD_FRICTION) ticks on. */
  lemma RemainingBounds(len: real, t: real)
    requires len > 0.0 && t >= 0.0
    ensures t >= len / BOARD_FRICTION ==> Remaining(len, t) == 0.0
    ensures t < len / BOARD_FRICTION ==> Remaining(len, t) > 0.0
  {
    if t >= len / BOARD_FRICTION {
      RatioAtLeastOne(t * BOARD_FRICTION, len);
    } else {
      RatioBelowOne(t * BOARD_FRICTION, len);
    }
  }

  lemma ScaleTwice(v: Vec2, a: real, b: real)
    ensures Scale(Scale(v, a), b) == Scale(v, a * b)
  {
    assert (v.x * a) * b == v.x * (a * b);
    assert (v.y * a) * b == v.y * (a * b);
  }

  lemma SignOfScaled(a: real, c: real)
    requires c > 0.0
    ensures Sign(a * c) == Sign(a)
  {
    if a > 0.0 {
      assert a * c > 0.0;
    } else if a < 0.0 {
      assert a * c < 0.0;
    }
  }

  /** One tick of slowing composed with `m` more is `m + 1` ticks of it. */
  lemma RemainingStep(len: real, l: real, m: real)
    requires len > BOARD_FRICTION && l == len - BOARD_FRICTION && m >= 0.0
    ensures (1.0 - BOARD_FRICTION / len) * Remaining(l, m) == Remaining(len, m + 1.0)
  {
    var k := 1.0 - BOARD_FRICTION / len;
    assert k * len == l;
    assert k > 0.0;
    var x := 1.0 - m * BOARD_FRICTION / l;
    assert x * l == l - m * BOARD_FRICTION;
    KeepShare(k, len, l, x, m);
    if x <= 0.0 {
      assert k * x <= 0.0;
    }
  }

  lemma KeepShare(k: real, len: real, l: real, x: real, m: real)
    requires len > 0.0 && l == len - BOARD_FRICTION && l > 0.0
    requires k * len == l && x * l == l - m * BOARD_FRICTION
    ensures k * x == 1.0 - (m + 1.0) * BOARD_FRICTION / len
  {
    assert (k * x) * len == x * l;
    var y := 1.0 - (m + 1.0) * BOARD_FRICTION / len;
    assert y * len == len - (m + 1.0) * BOARD_FRICTION;
    assert x * l == len - (m + 1.0) * BOARD_FRICTION;
    Cancel(k * x, y, len);
  }

  lemma Cancel(a: real, b: real, c: real)
    requires c > 0.0 && a * c == b * c
    ensures a == b
  {
  }

  /** |v| <= BOARD_FRICTION * (|v| / len) exactly when len <= BOARD_FRICTION. */
  lemma ShareExceeds(a: real, len: real)
    requires a > 0.0 && len > 0.0
    ensures a <= BOARD_FRICTION * (a / len) <==> len <= BOARD_FRICTION
  {
    var q := a / len;
    assert q * len == a;
    assert q > 0.0;
    if len <= BOARD_FRICTION {
      assert q * len <= q * BOARD_FRICTION;
    } else {
      assert q * len > q * BOARD_FRICTION;
    }
  }

  lemma ReducedFactor(v: real, len: real)
    requires v != 0.0 && len > 0.0
    ensures Abs(v) / v * (Abs(v) - BOARD_FRICTION * (Abs(v) / len)) == v * (1.0 - BOARD_FRICTION / len)
  {
    if v > 0.0 {
      assert Abs(v) / v == 1.0;
      assert v - BOARD_FRICTION * (v / len) == v * (1.0 - BOARD_FRICTION / len);
    } else {
      assert Abs(v) / v == -1.0;
      assert -v - BOARD_FRICTION * (-v / len) == -(v * (1.0 - BOARD_FRICTION / len));
    }
  }

  /** Scaling a velocity by 1 - BOARD_FRICTION / len takes BOARD_FRICTION off its length. */
  lemma SpeedStep(v: Vec2, len: real)
    requires IsLength(len, v) && v.x != 0.0 && v.y != 0.0 && len > BOARD_FRICTION
    ensures IsLength(NextSpeed(v, len), Scale(v, Max(0.0, 1.0 - BOARD_FRICTION / len)))
  {
    var k := 1.0 - BOARD_FRICTION / len;
    RatioBelowOne(BOARD_FRICTION, len);
    assert k * len == len - BOARD_FRICTION;
    ScaledSquares(v.x, v.y, k, len * len);
    SquareOfProduct(k, len);
    SignOfScaled(v.x, k);
  }

  lemma ScaledSquares(x: real, y: real, k: real, s: real)
    requires x * x + y * y == s
    ensures (x * k) * (x * k) + (y * k) * (y * k) == (k * k) * s
  {
    assert (x * k) * (x * k) == (k * k) * (x * x);
    assert (y * k) * (y * k) == (k * k) * (y * y);
  }

  lemma SquareOfProduct(k: real, l: real)
    ensures (k * l) * (k * l) == (k * k) * (l * l)
  {
  }
}
