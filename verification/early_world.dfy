/** The component types of the earlier snapshot under `src/ecs/` (the
    offset box of `src/ecs/collision.rs`, the `Movable` of
    `src/ecs/movable.rs`) and of `src/dino.rs`, stored in the same
    entity-component store as the current game. */
module EarlyWorld {
  import opened Wrappers
  import opened Vectors
  import Ecs

  /** An offset box. `src/ecs/movable.rs` reads a `ground_check` flag from
      it that the struct in `src/ecs/collision.rs` does not declare; the
      flag is modelled as a third field. */
  datatype BoxCollider = BoxCollider(halfSize: Vec2, offset: Vec2, groundCheck: bool)

  /** The `Movable` of this snapshot has no ground-check flag of its own. */
  datatype Movable = Movable(pos: Vec2, velocity: Vec2, gravity: Vec2, onGround: bool)

  datatype DinoState = Run | Jump | Dead

  datatype DinoController = DinoController(entityId: nat)

  datatype Kind = MovableKind | BoxKind | StateKind

  datatype Component =
    | MovableC(movable: Movable)
    | BoxC(box: BoxCollider)
    | StateC(state: DinoState)

  type World = Ecs.Store<Kind, Component>

  predicate Live(w: World, e: nat) {
    Ecs.Valid(w) && e < w.entitiesCount
  }

  function Slot(w: World, k: Kind, e: nat): Option<Component>
    requires Live(w, e)
  {
    Ecs.GetComponent(w, k, e)
  }

  function GetMovable(w: World, e: nat): Option<Movable>
    requires Live(w, e)
  {
    match Slot(w, MovableKind, e)
    case Some(MovableC(m)) => Some(m)
    case _ => None
  }

  function SetMovable(w: World, e: nat, m: Movable): World
    requires Live(w, e)
  {
    Ecs.SetComponent(w, MovableKind, e, MovableC(m))
  }

  function GetBox(w: World, e: nat): Option<BoxCollider>
    requires Live(w, e)
  {
    match Slot(w, BoxKind, e)
    case Some(BoxC(b)) => Some(b)
    case _ => None
  }

  function GetState(w: World, e: nat): Option<DinoState>
    requires Live(w, e)
  {
    match Slot(w, StateKind, e)
    case Some(StateC(s)) => Some(s)
    case _ => None
  }

  function SetState(w: World, e: nat, s: DinoState): World
    requires Live(w, e)
  {
    Ecs.SetComponent(w, StateKind, e, StateC(s))
  }
}
