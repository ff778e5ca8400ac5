# Alggago rules, modelled and proved in Dafny

Alggago is a two-player flicking game played on a Gosu window, with a Chipmunk physics space underneath. Each player owns `NUM_STONES` stones of their colour. A player flicks one of their own stones with the mouse, and stones that leave the board are removed.

This project models the game rules that `alggago.rb` adds on top of the physics engine:

- **Damping.** After every physics step, each stone the walk of `Player#update` visits (all but the stone after a deleted one) has its linear velocity lose `BOARD_FRICTION` of its speed when both components are nonzero; a velocity with a zero component stops at once. The angular velocity loses `ROTATIONAL_FRICTION`. Neither goes past zero (`Stone#update`, `get_reduced_velocity`, `get_reduced_rotational_velocity`).
- **Removal.** Each player's stone array is walked; every stone the walk reaches is damped, and deleted when its centre has then left the board. The stone after a deleted one is passed over for that tick (`Player#update`).
- **Turns.** Presses and releases drive a small turn and throw state machine (`Alggago#initialize`, `button_down`, `button_up`, `update`).

Files and modules:

- `constants.dfy` (`Constants`): the constants of lines 6-15.
- `damping.dfy` (`Damping`): the damping law as functions over `real`, with lemmas.
  - Effect of one tick: sign kept, magnitude reduced, speed drops by exactly `BOARD_FRICTION` when both components are nonzero; a velocity with a zero component stops at once.
  - Closed forms after `n` ticks.
  - The velocity reaches exactly zero after `ceil(len / BOARD_FRICTION)` ticks when both components are nonzero; a velocity with a zero component stops at once. The spin reaches exactly zero after `ceil(|w| / ROTATIONAL_FRICTION)` ticks.
  - `Iterate` re-measures the length on every tick, as `Stone#update` does; with the Euclidean length it equals the closed-form walk `Settle` (`IterateIsSettle`), so the convergence facts hold for repeated `Stone#update`s (`IterateToRest`).
- `stone.dfy` (`Stones`): the part of a body the game reads (`p`, `v`, `w`). Also the start state drawn from four `rand(HEIGHT)` values, the at-rest, hit and off-board tests, and the throw.
  - `class Stone` holds the body, and its `Update` overwrites it in place as `Stone#update` does.
- `sweep.dfy` (`Sweeping`): `Player#update`'s walk over the array, on values.
  - `Sweep` is the index walk as Ruby runs it: after a deletion, the index moves on past the element that slid into its place.
  - `Reference` is the same walk, told element by element.
  - `Compact` is the intended update. Lemmas prove what each of them keeps.
- `player.dfy` (`Players`): `class Player`, with its `stones` sequence of `Stone` objects.
  - `Update` is the loop of `Player#update`. It damps each visited stone in place and deletes it with `Array#delete`, and it is proved to leave exactly `Sweep` of the old array.
  - `UpdateAsIntended` is the corrected loop (see Findings).
- `game.dfy` (`Game`): `class Alggago`, with the two players, the turn holder and the selected stone. It has the constructor, `CanThrow` (the `can_throw` loop), `ButtonDown`, `ButtonUp` and `Update`.

Modelling decisions:

- **The speed is an input.** The speed `@body.v.length` is computed by the physics library as a square root, so the model receives it as an input rather than computing it.
  - `norm: Vec2 -> real` stands for `Vec2#length`.
  - The methods and the damping functions need only `DivisibleNorm(norm)`: the length is positive whenever both components are nonzero, which is the only case in which the code divides by it.
  - So `Stone.Update`, `Player.Update` and `Alggago.Update` are proved for any such length function.
  - Facts that depend on the length being Euclidean assume `IsLength(len, v)`; `NormIsDivisible` shows that the Euclidean length qualifies. These facts are that the new speed is exactly `max(0, len - BOARD_FRICTION)` when both components are nonzero, while a velocity with a zero component stops at once (`DampedSpeed`, `TickSlows`); the at-rest characterisation `TickRestsIff`; and that re-measuring the length on every tick gives `Settle` (`IterateIsSettle`, `IterateToRest`).
- **A velocity on an axis stops at once.** A velocity on an axis such as `(10, 0)` stops on the first tick, not after `ceil(10/1.5) = 7`, because line 147 reduces the velocity only when both components are nonzero and otherwise sets it to `(0, 0)` (`DampSnapsOnAxis`). The count of `ceil(len / BOARD_FRICTION)` ticks holds for velocities with both components nonzero (`SettlesToRest`).
- **The skip is reproduced.** The deletion inside `@stones.each` skips the stone that follows a deleted one for that tick; it is neither damped nor tested. `Player.Update` keeps this behaviour.
- **The removal test uses `HEIGHT` on both axes.** The x coordinate of the centre is compared against `HEIGHT`, not `WIDTH`, as at line 121. The model does the same (`Escaped`).

## Model

| member | source | states |
|---|---|---|
| Damping.ReducedVelocityLaw | alggago.rb:170-177 | For a nonzero component `v` of a velocity of positive length `len`, the result is 0 iff `abs(v) <= BOARD_FRICTION*abs(v)/len`, which is iff `len <= BOARD_FRICTION`. Otherwise it has the sign of `v` and magnitude `abs(v) - BOARD_FRICTION*abs(v)/len`, strictly less than abs(v). In all cases it equals `v * max(0, 1 - BOARD_FRICTION/len)`. |
| Damping.ReducedRotationalVelocity | alggago.rb:179-185 | For nonzero `w`, the result is 0 iff `abs(w) <= ROTATIONAL_FRICTION`. Otherwise it keeps the sign of `w` and has magnitude `abs(w) - ROTATIONAL_FRICTION`. |
| Damping.DampSnapsOnAxis | alggago.rb:146-151 | A velocity with a zero component becomes exactly (0, 0), whatever the other component is. |
| Damping.DampScalesVelocity | alggago.rb:146-151 | With both components nonzero, the new velocity is the old one scaled by `max(0, 1 - BOARD_FRICTION/len)`, so the direction is kept. |
| Damping.DampedSpeed | alggago.rb:146-151 | When `len` is the Euclidean length, the new velocity has Euclidean length `max(0, len - BOARD_FRICTION)` (0 on an axis): the speed drops by exactly `BOARD_FRICTION`. |
| Damping.DampKeepsSigns | alggago.rb:146-151 | The new length is again positive wherever it must be divided by. While `len > BOARD_FRICTION`, neither component changes sign; at `len <= BOARD_FRICTION` the velocity becomes (0, 0). |
| Damping.DampNeverReverses | alggago.rb:146-151 | Each new component is zero or has the sign of the old one. |
| Damping.DampAngularSlows | alggago.rb:154-156 | The new angular velocity is zero or has the old sign, and its magnitude is not larger. |
| Damping.SettleScales | alggago.rb:144-151 | After `n` ticks, a velocity with both components nonzero is the start velocity scaled by `max(0, 1 - n*BOARD_FRICTION/len)`. |
| Damping.SettlesToRest | alggago.rb:144-151 | The velocity is exactly (0, 0) after `TicksToRest` ticks and nonzero before. That is `ceil(len/BOARD_FRICTION)` ticks with both components nonzero, 1 on an axis, 0 at rest. Up to then each component keeps its sign. |
| Damping.IterateIsSettle | alggago.rb:144-151 | Running the velocity damping `n` times, re-measuring the Euclidean length each time as lines 148-149 do, gives exactly `Settle`. |
| Damping.IterateToRest | alggago.rb:144-151 | Repeated damping with the length re-measured each tick leaves the velocity exactly (0, 0) after `TicksToRest` ticks, and nonzero with each component's sign kept before. |
| Damping.SpinClosedForm | alggago.rb:154-156 | After `n` ticks the angular velocity has the sign of `w` and magnitude `abs(w) - n*ROTATIONAL_FRICTION` while that is positive, and is exactly 0 afterwards. |
| Damping.SpinsToRest | alggago.rb:154-156 | The angular velocity is exactly 0 after `ceil(abs(w)/ROTATIONAL_FRICTION)` ticks, and nonzero with an unchanged sign before that. |
| Damping.NormIsDivisible | alggago.rb:147-149 | The Euclidean length is positive wherever `get_reduced_velocity` divides by it. |
| Stones.Spawn | alggago.rb:133-134 | A new body sits at integer coordinates in 0..HEIGHT-1, moves with components in -HEIGHT/2..HEIGHT/2-1, and does not spin. |
| Stones.SpawnEscaped | alggago.rb:121-124 | A new stone counts as off the board exactly when one of its drawn coordinates exceeds `HEIGHT - STONE_DIAMETER/2`. |
| Stones.Stone.constructor | alggago.rb:131-142 | A new stone has the given colour and the body `Spawn` makes from its four random numbers. |
| Stones.Stone.Update | alggago.rb:144-157 | Overwrites the body with one tick of damping, `Tick` of the old body and its length. |
| Stones.TickAtRest | alggago.rb:144-157 | A body at rest is left unchanged. |
| Stones.TickSlows | alggago.rb:144-157 | A tick keeps the position and never speeds a body up: with the Euclidean length, the new speed is `NextSpeed`, at most the old. |
| Stones.TickNeverReverses | alggago.rb:144-157 | Each velocity component and the spin keep their sign or become zero, and abs(w) does not grow. |
| Stones.TickRestsIff | alggago.rb:144-157 | A body is at rest after a tick iff it had a zero velocity component or speed at most `BOARD_FRICTION`, and spin at most `ROTATIONAL_FRICTION`. |
| Stones.Flick | alggago.rb:78-81 | The throw keeps position and spin and sets the velocity so that the pointer is one `FINGER_POWER`-th of it away from the stone's centre. |
| Sweeping.SweepIsReference | alggago.rb:119-124 | After any walked prefix, the index walk equals the element-by-element walk, in which the element after a deletion is passed over. |
| Sweeping.SweepAll | alggago.rb:118-126 | `Player#update` as written equals `Reference` on the whole array. |
| Sweeping.ReferenceMembers | alggago.rb:119-124 | The walk never grows the array. Every survivor is either the damped, on-board copy of an input stone, or an input stone left untouched whose predecessor would be off the board once damped (so the walk may have passed over it), or the first stone when the walk starts by skipping. Either way the stone and its position are those of the input. |
| Sweeping.SweepSurvivors | alggago.rb:118-126 | Same as ReferenceMembers, for `Player#update` as written: the length never increases, positions are untouched, and only damped on-board stones or untouched stones whose predecessor would be off the board once damped survive. |
| Sweeping.ReferenceDistinct | alggago.rb:119-124 | The walk never duplicates a stone and keeps only stones it was given. |
| Sweeping.SweepDistinct | alggago.rb:118-126 | Same as ReferenceDistinct, for `Player#update` as written. |
| Sweeping.ReferenceOrder | alggago.rb:119-124 | The surviving stones are a subsequence of the input, in their original order. |
| Sweeping.SweepOrder | alggago.rb:118-126 | Same as ReferenceOrder, for `Player#update` as written. |
| Sweeping.Compact | alggago.rb:118-126 | The intended update is no longer than its input and keeps only stones that are on the board. |
| Sweeping.CompactMembers | alggago.rb:118-126 | An entry survives the intended update iff it is the damped copy of an input stone and is on the board. |
| Sweeping.CompactOrder | alggago.rb:118-126 | The intended update keeps its survivors in their original order. |
| Sweeping.SweepAgreesWhenNoneLeave | alggago.rb:118-126 | When no damped stone is off the board, the update as written and the intended update agree. |
| Sweeping.SweepSkipsSuccessor | alggago.rb:119-124 | Take two adjacent stones at rest, both off the board. The update as written keeps the second; the intended update removes both. |
| Players.Delete | alggago.rb:121 | `Array#delete` keeps exactly the elements different from `x`, and is strictly shorter when `x` occurs. |
| Players.DeleteOnce | alggago.rb:121 | Deleting an element that occurs once removes exactly its position. |
| Players.DeleteAbsent | alggago.rb:121 | Deleting an absent element changes nothing. |
| Players.Player.constructor | alggago.rb:107-112 | A new player has the colour and `num` fresh stones of that colour, the j-th drawn with the j-th random numbers. |
| Players.Player.Update | alggago.rb:118-126 | The stones left, with their bodies, are exactly `Sweep` of the old array. No stone is added, the stones stay distinct and of the player's colour, and every deleted stone was damped and is off the board. |
| Players.Player.Visit | alggago.rb:120-124 | The block for index `i`: the stone is damped in place; if it is then off the board it is deleted, closing the gap, otherwise the array is unchanged. |
| Players.Player.UpdateAsIntended | alggago.rb:118-126 | Corrected update: the stones left are exactly `Compact` of the old array. |
| Game.LastHit | alggago.rb:66-69 | The index of the last body the pointer strictly hits, or None exactly when it hits none. |
| Game.Alggago.Next | alggago.rb:82-86 | The player who moves next is the other one of the two. |
| Game.Alggago.constructor | alggago.rb:24-42 | There are two distinct players, "black" then "white", each with `NUM_STONES` fresh stones drawn in order. Black moves first and nothing is selected. |
| Game.Alggago.CanThrow | alggago.rb:59-62 | `can_throw` is true iff every stone of both players has `w`, `v.x` and `v.y` zero. |
| Game.Alggago.ButtonDown | alggago.rb:58-72 | Unless every stone is at rest and the button is the left one, nothing changes. Otherwise the selection becomes the turn holder's last stone under the pointer, or stays as it was when there is none. |
| Game.Alggago.Select | alggago.rb:66-69 | The selection loop leaves as selection the turn holder's stone given by `LastHit` on its bodies, or the earlier selection when the pointer hits none. |
| Game.Alggago.ButtonUp | alggago.rb:74-90 | Left release with a selection: the stone gets the `Flick` velocity and the turn passes to the other player. Left release always clears the selection, and without a selection the turn is kept. Any other button changes nothing: the selection, the turn and the selected stone's body are kept. The two-player invariant is kept. |
| Game.Alggago.Update | alggago.rb:44-47 | After the physics step, each player's stones become `Sweep` of what they were; turn and selection are kept. Every stone a player's update removed was damped from the body it had before the tick and is off the board, for each player. |
| Game.Alggago.UpdatePlayer | alggago.rb:46 | One `player.update` of the loop: that player's stones become `Sweep` of what they were, every stone it removed was damped from its old body and is off the board, and the other player's stones and bodies are unchanged. |
| Game.TurnAlternates | alggago.rb:82-86 | Passing the turn never keeps it, and passing it twice gives it back. |

## Left out

- The Gosu window and the event pump: `draw`, images, `ZOrder`, the `Board` singleton, the caption, `needs_cursor?` and `window.show`. These are rendering only. The mouse position is a parameter of the handlers.
- Gosu's button ids are reduced to the left mouse button and any other button.
- The Chipmunk space: body registration, `@space.step(TICK)`, collisions, and the restitution and friction coefficients of the shapes. `Alggago.Update` starts after the step, from whatever state the step left. Stones deleted by `Player#update` are not removed from the space in the source either; the model has no space to remove them from.
- The body's mass, moment, shape and angle `a` are left out, because the rules never read them.
- `rand(HEIGHT)` is left out, because randomness cannot be modelled. Its four values per stone are the `Draw` inputs of the constructors.
- Floating point: the model computes over exact `real`, so IEEE rounding is not modelled.
- `Vec2#length` is not computed, because it needs square roots. It is an input: `norm`, or `len` constrained by `IsLength`.
- Stones.Stone.Update: proved for any length function that is positive on vectors with both components nonzero (`DivisibleNorm`), not only for the Euclidean `Vec2#length`, because only that property is needed for this update.
- Players.Player.Update: proved under `DivisibleNorm` rather than the Euclidean `Vec2#length`, for the same reason.
- Game.Alggago.Update: proved under `DivisibleNorm` rather than the Euclidean `Vec2#length`, for the same reason.
- ai_template.rb, ai_black.rb and ai_white.rb are not part of this model. They are XML-RPC agent servers and a port probe, which is network plumbing.

## Findings

| source | as written | input that shows it | evidently intended | confidence | as-written member | corrected member |
|---|---|---|---|---|---|---|
| alggago.rb:119-124 | `@stones.delete stone` inside `@stones.each`. Each deletion shifts the rest of the array left, and `each` then steps past the stone that moved into the deleted one's place. That stone is neither damped nor tested for that tick. | Two adjacent stones at rest, both at x = 800 (centre 825 > HEIGHT): after the update the second one is still in the array. | Damp every stone, then remove exactly those that are off the board. | not executed | Sweeping.SweepSkipsSuccessor | Players.Player.UpdateAsIntended |

`Player.Update` and `Alggago.Update` keep the behaviour as written, since that is what the game does. The as-written and intended walks agree whenever no stone leaves the board (`SweepAgreesWhenNoneLeave`). On the intended side:

- `Compact` is the intended result on values.
- `CompactMembers` and `CompactOrder` prove what it keeps.
- `Player.UpdateAsIntended` is the corrected loop, and it is proved to compute `Compact`.

