/** Sprite-frame timing and the edge-triggered animation state machine of
    `src/components/animation.rs`. Asset lookups are the total tables of
    `Components.Assets`. */
module Anim {
  import opened Wrappers
  import opened Components
  import Ecs
  import opened Arith


  /** `Animation::new`: frame 0, due at once, one frame every 1/fps seconds. */
  function NewAnimation(assets: Assets, tag: AssetTag, fps: nat): (a: Animation)
    requires fps > 0
    ensures a.assetTag == tag && a.fps == fps && a.len == assets.animLength(tag)
    ensures a.currentFrame == 0 && a.nextFrameUpd == 0.0
    ensures a.frameTime * (fps as real) == 1.0
  {
    Animation(tag, fps, assets.animLength(tag), 0, 1.0 / (fps as real), 0.0)
  }

  /** `update_frame`: nothing before the due time; otherwise exactly one
      frame forward (cyclically) and the next change one frame time after
      `time`, however late the call is. A zero-length animation panics. */
  function UpdateFrame(a: Animation, time: real): (r: Result<Animation>)
    ensures r.Panic? <==> time >= a.nextFrameUpd && a.len == 0
    ensures time < a.nextFrameUpd ==> r == Ok(a)
    ensures time >= a.nextFrameUpd && r.Ok? ==>
      r.value == a.(currentFrame := (a.currentFrame + 1) % a.len, nextFrameUpd := time + a.frameTime)
    ensures r.Ok? && a.currentFrame < a.len ==> r.value.currentFrame < r.value.len
  {
    if time < a.nextFrameUpd then Ok(a)
    else if a.len == 0 then Panic(RemainderByZero)
    else Ok(a.(currentFrame := (a.currentFrame + 1) % a.len, nextFrameUpd := time + a.frameTime))
  }

  /** Frame updates at the given times, one after another. */
  function Play(a: Animation, ts: seq<real>): Result<Animation>
    decreases |ts|
  {
    if |ts| == 0 then Ok(a)
    else
      var a1 :- UpdateFrame(a, ts[0]);
      Play(a1, ts[1..])
  }

  /** Times at which every update is due: the first at or after the pending
      due time, each later one at least one frame time after the previous. */
  predicate AllDue(a: Animation, ts: seq<real>) {
    (|ts| > 0 ==> ts[0] >= a.nextFrameUpd) &&
    forall i :: 0 <= i < |ts| - 1 ==> ts[i + 1] >= ts[i] + a.frameTime
  }

  /** After a due update at `ts[0]`, the remaining times are all due. */
  lemma AllDueTail(a: Animation, a1: Animation, ts: seq<real>)
    requires |ts| > 0 && AllDue(a, ts)
    requires a1.frameTime == a.frameTime && a1.nextFrameUpd == ts[0] + a.frameTime
    ensures AllDue(a1, ts[1..])
  {
    forall i | 0 <= i < |ts[1..]| - 1
      ensures ts[1..][i + 1] >= ts[1..][i] + a1.frameTime
    {
      assert ts[1..][i + 1] == ts[i + 2] && ts[1..][i] == ts[i + 1];
    }
    if |ts| > 1 {
      assert ts[1..][0] == ts[1];
    }
  }

  /** When every update is due, n updates advance the frame by exactly n
      modulo the length. */
  lemma {:induction false} PlayAdvancesOnePerDueUpdate(a: Animation, ts: seq<real>)
    requires a.currentFrame < a.len
    requires AllDue(a, ts)
    ensures Play(a, ts).Ok?
    ensures Play(a, ts).value.currentFrame == (a.currentFrame + |ts|) % a.len
    decreases |ts|
  {
    if |ts| == 0 {
      ModUnique(a.currentFrame, 0, a.currentFrame, a.len);
    } else {
      var a1 := PlayDueStep(a, ts);
      PlayAdvancesOnePerDueUpdate(a1, ts[1..]);
      AdvanceMod(a.currentFrame, |ts|, a.len);
    }
  }

  /** The first of a run of due updates moves one frame on and leaves the
      rest of the run due. */
  lemma PlayDueStep(a: Animation, ts: seq<real>) returns (a1: Animation)
    requires a.currentFrame < a.len && |ts| > 0 && AllDue(a, ts)
    ensures a1.len == a.len && a1.currentFrame == (a.currentFrame + 1) % a.len
    ensures AllDue(a1, ts[1..]) && Play(a, ts) == Play(a1, ts[1..])
  {
    var c1 := (a.currentFrame + 1) % a.len;
    a1 := a.(currentFrame := c1, nextFrameUpd := ts[0] + a.frameTime);
    assert UpdateFrame(a, ts[0]) == Ok(a1);
    AllDueTail(a, a1, ts);
  }

  /** One step then n - 1 more is n steps around the cycle. */
  lemma AdvanceMod(c: nat, n: nat, len: nat)
    requires len > 0 && n >= 1
    ensures ((c + 1) % len + (n - 1)) % len == (c + n) % len
  {
    ModOfSum(c + 1, n - 1, len);
    assert c + 1 + (n - 1) == c + n;
  }

  /** `Update for Animation`: read, advance, write back; panics without one. */
  function AnimationUpdate(w: World, e: nat, time: real): (r: Result<World>)
    requires Live(w, e)
    ensures r.Ok? ==> Ecs.Valid(r.value) && r.value.entitiesCount == w.entitiesCount
    ensures r.Ok? <==> GetAnimation(w, e).Some? && UpdateFrame(GetAnimation(w, e).value, time).Ok?
    ensures r.Ok? ==> GetAnimation(r.value, e) == Some(UpdateFrame(GetAnimation(w, e).value, time).value)
    ensures r.Ok? ==> forall k, e': nat :: e' < w.entitiesCount && (k != AnimationKind || e' != e) ==>
      Slot(r.value, k, e') == Slot(w, k, e')
  {
    var a :- Unwrap(GetAnimation(w, e));
    var a1 :- UpdateFrame(a, time);
    Ok(SetAnimation(w, e, a1))
  }

  /** The animation the machine shows in `state`, built fresh at frame 0. */
  function StateAnimation(assets: Assets, machineTag: AssetTag, state: DinoState): (a: Animation)
    requires ValidAssets(assets)
    ensures a.assetTag == assets.stateMachineAnim(machineTag, state)
    ensures a.currentFrame == 0 && a.nextFrameUpd == 0.0 && a.len > 0
  {
    var tag := assets.stateMachineAnim(machineTag, state);
    NewAnimation(assets, tag, assets.animFps(tag))
  }

  /** `AnimStateMachine::new`: starts in `start` showing that state's animation. */
  function NewMachine(assets: Assets, tag: AssetTag, start: DinoState): (m: AnimStateMachine)
    requires ValidAssets(assets)
    ensures m.assetTag == tag && m.currentState == start
    ensures m.currentAnimTag == assets.stateMachineAnim(tag, start)
    ensures m.currentAnim == StateAnimation(assets, tag, start)
  {
    var animTag := assets.stateMachineAnim(tag, start);
    AnimStateMachine(tag, start, animTag, NewAnimation(assets, animTag, assets.animFps(animTag)))
  }

  /** `update_state`: inert without a state component or while the state is
      unchanged; on a change it records the new state and replaces the
      entity's `Animation` (if it has that table) by the new state's fresh
      animation. The machine's own `current_anim_tag`/`current_anim` stay. */
  function UpdateState(m: AnimStateMachine, w: World, assets: Assets, e: nat): (r: (AnimStateMachine, World))
    requires Live(w, e) && ValidAssets(assets)
    ensures GetState(w, e).None? || GetState(w, e).value == m.currentState ==> r == (m, w)
    ensures GetState(w, e).Some? ==> r.0 == m.(currentState := GetState(w, e).value)
    ensures Ecs.Valid(r.1) && r.1.entitiesCount == w.entitiesCount && r.1.tables.Keys == w.tables.Keys
    ensures GetState(w, e).Some? && GetState(w, e).value != m.currentState && AnimationKind in w.tables ==>
      GetAnimation(r.1, e) == Some(StateAnimation(assets, m.assetTag, GetState(w, e).value))
    ensures forall k, e': nat :: e' < w.entitiesCount && (k != AnimationKind || e' != e) ==> Slot(r.1, k, e') == Slot(w, k, e')
  {
    match GetState(w, e)
    case None => (m, w)
    case Some(s) =>
      if m.currentState == s then (m, w)
      else (m.(currentState := s), SetAnimation(w, e, StateAnimation(assets, m.assetTag, s)))
  }

  /** `Update for AnimStateMachine`: read the machine (panic without one),
      run `update_state`, write the machine back. */
  function MachineUpdate(w: World, assets: Assets, e: nat): (r: Result<World>)
    requires Live(w, e) && ValidAssets(assets)
    ensures r.Ok? <==> GetMachine(w, e).Some?
    ensures r.Ok? ==> Ecs.Valid(r.value) && r.value.entitiesCount == w.entitiesCount
    ensures r.Ok? && GetState(w, e).Some? ==> GetMachine(r.value, e).Some? && GetMachine(r.value, e).value.currentState == GetState(w, e).value
    ensures r.Ok? ==>
      (GetMachine(r.value, e) ==
       Some(if GetState(w, e).Some? then GetMachine(w, e).value.(currentState := GetState(w, e).value) else GetMachine(w, e).value))
    ensures r.Ok? && (GetState(w, e).None? || GetState(w, e).value == GetMachine(w, e).value.currentState) ==> r.value == w
    ensures r.Ok? && GetState(w, e).Some? && GetState(w, e).value != GetMachine(w, e).value.currentState && AnimationKind in w.tables ==>
      GetAnimation(r.value, e) == Some(StateAnimation(assets, GetMachine(w, e).value.assetTag, GetState(w, e).value))
    ensures r.Ok? ==> forall k, e': nat :: e' < w.entitiesCount && ((k != MachineKind && k != AnimationKind) || e' != e) ==>
      Slot(r.value, k, e') == Slot(w, k, e')
  {
    var m :- Unwrap(GetMachine(w, e));
    var (m1, w1) := UpdateState(m, w, assets, e);
    Ecs.SetSameValue(w, MachineKind, e, MachineC(m));
    Ok(SetMachine(w1, e, m1))
  }

  /** The swap is edge-triggered: a second tick in the same state changes nothing. */
  lemma MachineSwapsOnce(w: World, assets: Assets, e: nat)
    requires Live(w, e) && ValidAssets(assets)
    requires GetMachine(w, e).Some?
    ensures MachineUpdate(w, assets, e).Ok?
    ensures var w1 := MachineUpdate(w, assets, e).value;
      Live(w1, e) && MachineUpdate(w1, assets, e) == Ok(w1)
  {
    var m := GetMachine(w, e).value;
    var (m1, w1) := UpdateState(m, w, assets, e);
    var w2 := SetMachine(w1, e, m1);
    assert GetMachine(w2, e) == Some(m1);
    assert Slot(w2, StateKind, e) == Slot(w, StateKind, e);
    assert UpdateState(m1, w2, assets, e) == (m1, w2);
    Ecs.SetSameValue(w2, MachineKind, e, MachineC(m1));
  }
}
