/** The keyboard-driven game flags of `src/input.rs` and the per-frame input
    handler that turns a pending jump into a dinosaur jump or a restart. */
module Input {
  import opened Wrappers
  import opened Components
  import Ecs
  import DinoRules

  datatype InputState = InputState(jump: bool, pause: bool, gameActive: bool, restart: bool)

  /** `InputState::new`: an active, unpaused game with nothing pending. */
  function NewInput(): (s: InputState)
    ensures s.gameActive && !s.jump && !s.pause && !s.restart
  {
    InputState(false, false, true, false)
  }

  /** `jump_start`: ignored while paused. */
  function JumpStart(s: InputState): (r: InputState)
    ensures s.pause ==> r == s
    ensures !s.pause ==> r == s.(jump := true)
  {
    if s.pause then s else s.(jump := true)
  }

  /** `jump_end`. */
  function JumpEnd(s: InputState): (r: InputState)
    ensures !r.jump && r.(jump := s.jump) == s
  {
    s.(jump := false)
  }

  /** `toggle_pause`: ignored once the game is over. */
  function TogglePause(s: InputState): (r: InputState)
    ensures !s.gameActive ==> r == s
    ensures s.gameActive ==> r.pause != s.pause && r.(pause := s.pause) == s
  {
    if !s.gameActive then s else s.(pause := !s.pause)
  }

  /** `game_over`. */
  function GameOver(s: InputState): (r: InputState)
    ensures !r.gameActive && r.(gameActive := s.gameActive) == s
  {
    s.(gameActive := false)
  }

  /** `set_restart`. */
  function SetRestart(s: InputState): (r: InputState)
    ensures r.restart && r.(restart := s.restart) == s
  {
    s.(restart := true)
  }

  /** The state-changing calls, as events. */
  datatype Event = JumpStartEv | JumpEndEv | TogglePauseEv | GameOverEv | SetRestartEv

  function Apply(s: InputState, ev: Event): InputState {
    match ev
    case JumpStartEv => JumpStart(s)
    case JumpEndEv => JumpEnd(s)
    case TogglePauseEv => TogglePause(s)
    case GameOverEv => GameOver(s)
    case SetRestartEv => SetRestart(s)
  }

  function ApplyAll(s: InputState, evs: seq<Event>): InputState
    decreases |evs|
  {
    if |evs| == 0 then s else ApplyAll(Apply(s, evs[0]), evs[1..])
  }

  /** Game over is final, and the pause flag is frozen from then on. */
  lemma {:induction false} GameOverIsFinal(s: InputState, evs: seq<Event>)
    requires !s.gameActive
    ensures !ApplyAll(s, evs).gameActive
    ensures ApplyAll(s, evs).pause == s.pause
    decreases |evs|
  {
    if |evs| > 0 {
      GameOverIsFinal(Apply(s, evs[0]), evs[1..]);
    }
  }

  /** A restart request is never withdrawn. */
  lemma {:induction false} RestartIsSticky(s: InputState, evs: seq<Event>)
    requires s.restart
    ensures ApplyAll(s, evs).restart
    decreases |evs|
  {
    if |evs| > 0 {
      RestartIsSticky(Apply(s, evs[0]), evs[1..]);
    }
  }

  /** While paused, no sequence of jump presses and releases can arm a jump. */
  lemma {:induction false} PausedJumpStaysOff(s: InputState, evs: seq<Event>)
    requires s.pause && !s.jump
    requires forall i :: 0 <= i < |evs| ==> evs[i] == JumpStartEv || evs[i] == JumpEndEv
    ensures !ApplyAll(s, evs).jump && ApplyAll(s, evs).pause
    decreases |evs|
  {
    if |evs| > 0 {
      PausedJumpStaysOff(Apply(s, evs[0]), evs[1..]);
    }
  }

  /** `player_handle_input`. In a running game a pending jump makes the
      entity's controller jump (panicking without a controller) and is then
      consumed; after game over a pending jump requests a restart and stays
      pending. Without a pending jump nothing happens. */
  function PlayerHandleInput(w: World, e: nat, input: InputState): (r: Result<(World, InputState)>)
    requires Live(w, e)
    ensures !input.jump ==> r == Ok((w, input))
    ensures !input.gameActive ==> r == Ok((w, if input.jump then SetRestart(input) else input))
    ensures input.gameActive && input.jump ==>
      (r.Ok? <==> GetController(w, e).Some? && DinoRules.ControllerJump(GetController(w, e).value, w).Ok?)
    ensures input.gameActive && input.jump && r.Ok? ==>
      r.value == (DinoRules.ControllerJump(GetController(w, e).value, w).value.0, JumpEnd(input))
  {
    if input.gameActive then
      if input.jump then
        var c :- Unwrap(GetController(w, e));
        var (w1, _) :- DinoRules.ControllerJump(c, w);
        Ok((w1, JumpEnd(input)))
      else Ok((w, input))
    else if input.jump then Ok((w, SetRestart(input)))
    else Ok((w, input))
  }
}
