/**
  A stone: its rigid body as the game reads and writes it (position of
  the sprite's top-left corner, velocity, angular velocity), how it is
  drawn at the start, its per-tick damping (Stone#update), and the tests
  the window applies to it (at rest, hit by the pointer, off the board).
 */
module Stones {
  import opened Constants
  import opened Damping

  /** The part of the physics body the game uses. */
  datatype Body = Body(p: Vec2, v: Vec2, w: real)

  /** A value of rand(HEIGHT): an integer from 0 to HEIGHT - 1. */
  type Roll = r: int | 0 <= r < HEIGHT

  /** The four random numbers Stone#initialize draws, in order. */
  datatype Draw = Draw(px: Roll, py: Roll, vx: Roll, vy: Roll)

  const RADIUS: real := STONE_DIAMETER as real / 2.0

  /**
    The body a new stone starts with: a position with both coordinates in
    0 .. HEIGHT - 1, a velocity with both components in
    -HEIGHT/2 .. HEIGHT/2 - 1, and no spin.
   */
  function Spawn(d: Draw): (b: Body)
    ensures b.w == 0.0
    ensures 0.0 <= b.p.x <= (HEIGHT - 1) as real && 0.0 <= b.p.y <= (HEIGHT - 1) as real
    ensures -(HEIGHT / 2) as real <= b.v.x <= (HEIGHT / 2 - 1) as real
    ensures -(HEIGHT / 2) as real <= b.v.y <= (HEIGHT / 2 - 1) as real
    ensures b.p.x.Floor as real == b.p.x && b.p.y.Floor as real == b.p.y
  {
    Body(Vec2(d.px as real, d.py as real), Vec2((d.vx - HEIGHT / 2) as real, (d.vy - HEIGHT / 2) as real), 0.0)
  }

  /** The centre of the stone's sprite. */
  function Centre(b: Body): Vec2
  {
    Vec2(b.p.x + RADIUS, b.p.y + RADIUS)
  }

  /**
    The removal test of Player#update: the centre lies beyond 0 or beyond
    HEIGHT on either axis (HEIGHT on the x axis too).
   */
  predicate Escaped(b: Body)
  {
    Centre(b).x > HEIGHT as real || Centre(b).x < 0.0 ||
    Centre(b).y > HEIGHT as real || Centre(b).y < 0.0
  }

  /** The test of the window's can_throw loop: no linear or angular motion. */
  predicate AtRest(b: Body)
  {
    b.w == 0.0 && b.v.x == 0.0 && b.v.y == 0.0
  }

  /** The pointer lies strictly inside the stone's square sprite. */
  predicate Hit(b: Body, mx: real, my: real)
  {
    b.p.x < mx && b.p.x + STONE_DIAMETER as real > mx &&
    b.p.y < my && b.p.y + STONE_DIAMETER as real > my
  }

  /** The body after one Stone#update, given the length of its velocity. */
  function Tick(b: Body, len: real): Body
    requires Divisible(len, b.v)
  {
    b.(v := DampVelocity(b.v, len), w := DampAngular(b.w))
  }

  /**
    The throw of the window's button_up: the velocity becomes FINGER_POWER
    times the offset from the stone's centre to the pointer, so that the
    pointer lies one FINGER_POWER-th of the new velocity away from the
    centre; position and spin are kept.
   */
  function Flick(b: Body, mx: real, my: real): (r: Body)
    ensures r.p == b.p && r.w == b.w
    ensures Centre(b).x + r.v.x / FINGER_POWER as real == mx
    ensures Centre(b).y + r.v.y / FINGER_POWER as real == my
  {
    b.(v := Vec2((mx - (b.p.x + RADIUS)) * FINGER_POWER as real, (my - (b.p.y + RADIUS)) * FINGER_POWER as real))
  }

  /**
    A new stone counts as off the board, before it has moved, exactly when
    one of its drawn coordinates exceeds HEIGHT - STONE_DIAMETER / 2.
   */
  lemma SpawnEscaped(d: Draw)
    ensures Escaped(Spawn(d)) <==> d.px > HEIGHT - STONE_DIAMETER / 2 || d.py > HEIGHT - STONE_DIAMETER / 2
  {
  }

  /** A body at rest stays as it is under damping. */
  lemma TickAtRest(b: Body, len: real)
    requires AtRest(b)
    ensures Tick(b, len) == b
  {
  }

  /**
    Damping never moves a stone and never speeds it up: the new speed is
    NextSpeed, at most the old one.
   */
  lemma TickSlows(b: Body, len: real)
    requires IsLength(len, b.v)
    ensures Tick(b, len).p == b.p
    ensures IsLength(NextSpeed(b.v, len), Tick(b, len).v) && NextSpeed(b.v, len) <= len
  {
    DampedSpeed(b.v, len);
  }

  /**
    Damping never reverses a stone: each velocity component and the spin
    keep their sign or become zero, and the spin does not grow.
   */
  lemma TickNeverReverses(b: Body, len: real)
    requires Divisible(len, b.v)
    ensures var t := Tick(b, len);
      (t.v.x == 0.0 || Sign(t.v.x) == Sign(b.v.x)) && (t.v.y == 0.0 || Sign(t.v.y) == Sign(b.v.y)) &&
      (t.w == 0.0 || Sign(t.w) == Sign(b.w)) && Abs(t.w) <= Abs(b.w)
  {
    DampNeverReverses(b.v, len);
    DampAngularSlows(b.w);
  }

  /**
    A damped stone is at rest exactly when its linear motion snaps to zero
    (a zero component, or a speed of at most BOARD_FRICTION) and its spin
    is at most ROTATIONAL_FRICTION.
   */
  lemma TickRestsIff(b: Body, len: real)
    requires IsLength(len, b.v)
    ensures AtRest(Tick(b, len)) <==>
      (b.v.x == 0.0 || b.v.y == 0.0 || len <= BOARD_FRICTION) && Abs(b.w) <= ROTATIONAL_FRICTION
  {
    if b.v.x != 0.0 && b.v.y != 0.0 {
      DampKeepsSigns(b.v, len);
    }
  }

  /** A Ruby Stone: the sprite colour and the body, which updates move in place. */
  class Stone {
    const color: string
    var body: Body

    /** Stone#initialize with the random numbers `d`. */
    constructor (color: string, d: Draw)
      ensures this.color == color && body == Spawn(d)
    {
      this.color := color;
      body := Spawn(d);
    }

    /**
      Stone#update: damp the velocity by its length, as the physics library
      computes it with `norm`, and damp the spin.
     */
    method Update(norm: Vec2 -> real)
      requires DivisibleNorm(norm)
      modifies this
      ensures body == Tick(old(body), norm(old(body).v))
    {
      var len := norm(body.v);
      assert Divisible(len, body.v);
      var newVelX, newVelY := 0.0, 0.0;
      if body.v.x != 0.0 && body.v.y != 0.0 {
        newVelX := ReducedVelocity(body.v.x, len);
        newVelY := ReducedVelocity(body.v.y, len);
      }
      body := body.(v := Vec2(newVelX, newVelY));
      var newRotationalV := 0.0;
      if body.w != 0.0 {
        newRotationalV := ReducedRotationalVelocity(body.w);
      }
      body := body.(w := newRotationalV);
    }
  }
}
