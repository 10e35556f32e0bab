/** Game constants. The values shown in the repository are fixed here; the
    scroll-speed and spawn constants whose values are not part of this model
    are carried by a `Tuning` record, constrained only as the game needs. */
module Constants {

  const GROUND_Y_COORD: real := -10.0
  const JUMP_VELOCITY: real := 700.0
  const DINO_GRAVITY: real := -2500.0
  const CACTUS_SPEED: real := 450.0

  /** `SCREEN = (640.0, 480.0)`, width and height. */
  const SCREEN_W: real := 640.0
  const SCREEN_H: real := 480.0

  /** Capacity of a composite collider (body plus head). */
  const NUM_OF_COLLIDERS: nat := 2

  /** Scroll-speed increase per second of game time. */
  const SCROLL_RAMP: real := 5.5

  /** Multiplier of the uniform [0, 1) draw added to the spawn delay. */
  const SPAWN_JITTER: real := 1.3

  datatype Tuning = Tuning(
    startScrollSpeed: real,
    maxScrollSpeed: real,
    pteroSpeed: real,
    cactusMinDelay: real)

  predicate ValidTuning(t: Tuning) {
    0.0 < t.startScrollSpeed < t.maxScrollSpeed
  }
}
