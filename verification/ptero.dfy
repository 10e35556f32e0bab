/** The pterodactyl's re-positioning rule of `src/components/ptero.rs`: once
    per exit past the left screen edge it is moved to one of three flying
    heights chosen by a random draw. */
module PteroRules {
  import opened Wrappers
  import opened Vectors
  import opened Constants
  import opened Bounds
  import opened Components
  import Ecs
  import Collision

  /** `Ptero::new`: armed for the next exit. */
  function NewPtero(): (p: Ptero)
    ensures p.needsUpdate
  {
    Ptero(true)
  }

  /** Flying height for a random draw `r` (a `u32`): one of three lanes. */
  function PteroHeight(r: nat): (y: real)
    ensures y == 25.0 || y == 65.0 || y == 105.0
    ensures r % 3 == 0 <==> y == 25.0
    ensures r % 3 == 1 <==> y == 65.0
  {
    GROUND_Y_COORD + ((r % 3) as real) * 40.0 + 35.0
  }

  /** Fully past the left screen edge. */
  predicate OffScreen(w: World, e: nat)
    requires Live(w, e) && GetCollider(w, e).Some? && GetMovable(w, e).Some?
  {
    Collision.RightEdge(w, e) <= -SCREEN_W / 2.0
  }

  /** `Update for Ptero`. Collider, position and `Ptero` are unwrapped (any
      one missing panics). While any part is on screen the flag is re-armed;
      off screen an armed pterodactyl gets the lane height for `r` and is
      disarmed; off screen and disarmed nothing happens. */
  function PteroUpdate(w: World, e: nat, r: nat): (res: Result<World>)
    requires Live(w, e)
    ensures res.Ok? <==> GetCollider(w, e).Some? && GetMovable(w, e).Some? && GetPtero(w, e).Some?
    ensures res.Ok? ==> Ecs.Valid(res.value) && res.value.entitiesCount == w.entitiesCount
    ensures res.Ok? && !OffScreen(w, e) ==>
      GetPtero(res.value, e) == Some(Ptero(true)) &&
      forall k, e': nat :: e' < w.entitiesCount && (k != PteroKind || e' != e) ==> Slot(res.value, k, e') == Slot(w, k, e')
    ensures res.Ok? && OffScreen(w, e) && !GetPtero(w, e).value.needsUpdate ==> res.value == w
    ensures res.Ok? && OffScreen(w, e) && GetPtero(w, e).value.needsUpdate ==>
      var m := GetMovable(w, e).value;
      GetPtero(res.value, e) == Some(Ptero(false)) &&
      GetMovable(res.value, e) == Some(m.(pos := Vec2(m.pos.x, PteroHeight(r)))) &&
      forall k, e': nat :: e' < w.entitiesCount && k != PteroKind && (k != MovableKind || e' != e) ==>
        Slot(res.value, k, e') == Slot(w, k, e')
  {
    var c :- Unwrap(GetCollider(w, e));
    var right :- Collision.ColliderGetBound(c, w, e, Right);
    var p :- Unwrap(GetPtero(w, e));
    if right.x > -SCREEN_W / 2.0 then
      if !p.needsUpdate then Ok(SetPtero(w, e, p.(needsUpdate := true))) else Ok(w)
    else if !p.needsUpdate then Ok(w)
    else
      // get_bound above already read the position, so the Movable is present
      var m := GetMovable(w, e).value;
      var w1 := SetPtero(w, e, p.(needsUpdate := false));
      Ok(SetMovable(w1, e, m.(pos := Vec2(m.pos.x, PteroHeight(r)))))
  }

  /** Re-positioning happens once per exit: a second update while still off
      screen does nothing, whatever the second draw. */
  lemma RepositionOncePerExit(w: World, e: nat, r1: nat, r2: nat)
    requires Live(w, e) && PteroUpdate(w, e, r1).Ok? && OffScreen(w, e)
    ensures var w1 := PteroUpdate(w, e, r1).value;
      Live(w1, e) && PteroUpdate(w1, e, r2) == Ok(w1)
  {
    var w1 := PteroUpdate(w, e, r1).value;
    assert GetCollider(w1, e) == GetCollider(w, e) by {
      assert Slot(w1, ColliderKind, e) == Slot(w, ColliderKind, e);
    }
    assert GetMovable(w1, e).value.pos.x == GetMovable(w, e).value.pos.x;
    assert OffScreen(w1, e);
  }
}
