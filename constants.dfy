/** The game's tunable constants (alggago.rb, lines 6-15). */
module Constants {
  const WIDTH := 1000
  const HEIGHT := 700
  /** Physics step length in seconds; consumed only by the physics backend. */
  const TICK: real := 1.0 / 60.0
  const NUM_STONES := 10
  const PLAYER_COLOR: seq<string> := ["black", "white"]
  const STONE_DIAMETER := 50
  /** Shape coefficients handed to the physics backend. */
  const RESTITUTION: real := 0.9
  const STONE_FRICTION: real := 0.5
  /** Speed lost by every moving stone on every tick. */
  const BOARD_FRICTION: real := 1.5
  /** Angular speed lost by every spinning stone on every tick. */
  const ROTATIONAL_FRICTION: real := 0.04
  /** Multiplier from pointer displacement to launch velocity. */
  const FINGER_POWER := 3
}
