/** The component types of the current game (the files under `src/components`) and the
    game world: the entity store instantiated with a closed set of kinds.
    Each typed accessor reads or writes the table of one kind, which is what
    a Rust `get_component::<T>` / `set_component::<T>` call selects by type. */
module Components {
  import opened Wrappers
  import opened Vectors
  import Ecs

  /** Asset tags are opaque to the game logic. */
  type AssetTag = nat

  /** One axis-aligned box: half-extent and offset from the entity position. */
  datatype BoxCollider = BoxCollider(halfSize: Vec2, offset: Vec2)

  /** A composite collider: a fixed number of optional boxes. */
  datatype Collider = Collider(col: seq<Option<BoxCollider>>)

  datatype Movable = Movable(pos: Vec2, velocity: Vec2, gravity: Vec2, onGround: bool, groundCheck: bool)

  datatype EndlessScroll = EndlessScroll(width: real)

  datatype Animation = Animation(
    assetTag: AssetTag,
    fps: nat,
    len: nat,
    currentFrame: nat,
    frameTime: real,
    nextFrameUpd: real)

  datatype DinoState = Run | Jump | Dead

  /** `AnimStateMachine<DinoState>`, the only instantiation the game uses. */
  datatype AnimStateMachine = AnimStateMachine(
    assetTag: AssetTag,
    currentState: DinoState,
    currentAnimTag: AssetTag,
    currentAnim: Animation)

  datatype DinoController = DinoController(entityId: nat, jumpSoundTag: AssetTag)

  datatype Ptero = Ptero(needsUpdate: bool)

  /** The asset layer as seen by the game logic: three total lookup tables. */
  datatype Assets = Assets(
    animLength: AssetTag -> nat,
    animFps: AssetTag -> nat,
    stateMachineAnim: (AssetTag, DinoState) -> AssetTag)

  /** Every animation has at least one frame and a positive frame rate. */
  ghost predicate ValidAssets(a: Assets) {
    forall t: AssetTag :: a.animLength(t) > 0 && a.animFps(t) > 0
  }

  datatype Kind =
    | MovableKind | ColliderKind | ScrollKind | AnimationKind
    | MachineKind | StateKind | ControllerKind | PteroKind

  datatype Component =
    | MovableC(movable: Movable)
    | ColliderC(collider: Collider)
    | ScrollC(scroll: EndlessScroll)
    | AnimationC(animation: Animation)
    | MachineC(machine: AnimStateMachine)
    | StateC(state: DinoState)
    | ControllerC(controller: DinoController)
    | PteroC(ptero: Ptero)

  type World = Ecs.Store<Kind, Component>

  /** `e` is an id the store has issued. */
  predicate Live(w: World, e: nat) {
    Ecs.Valid(w) && e < w.entitiesCount
  }

  /** The slot of kind `k` for entity `e`. */
  function Slot(w: World, k: Kind, e: nat): Option<Component>
    requires Live(w, e)
  {
    Ecs.GetComponent(w, k, e)
  }

  function GetMovable(w: World, e: nat): Option<Movable>
    requires Live(w, e)
  {
    match Slot(w, MovableKind, e)
    case Some(MovableC(m)) => Some(m)
    case _ => None
  }

  function SetMovable(w: World, e: nat, m: Movable): World
    requires Live(w, e)
  {
    Ecs.SetComponent(w, MovableKind, e, MovableC(m))
  }

  function GetCollider(w: World, e: nat): Option<Collider>
    requires Live(w, e)
  {
    match Slot(w, ColliderKind, e)
    case Some(ColliderC(c)) => Some(c)
    case _ => None
  }

  function GetScroll(w: World, e: nat): Option<EndlessScroll>
    requires Live(w, e)
  {
    match Slot(w, ScrollKind, e)
    case Some(ScrollC(s)) => Some(s)
    case _ => None
  }

  function GetAnimation(w: World, e: nat): Option<Animation>
    requires Live(w, e)
  {
    match Slot(w, AnimationKind, e)
    case Some(AnimationC(a)) => Some(a)
    case _ => None
  }

  function SetAnimation(w: World, e: nat, a: Animation): World
    requires Live(w, e)
  {
    Ecs.SetComponent(w, AnimationKind, e, AnimationC(a))
  }

  function GetMachine(w: World, e: nat): Option<AnimStateMachine>
    requires Live(w, e)
  {
    match Slot(w, MachineKind, e)
    case Some(MachineC(m)) => Some(m)
    case _ => None
  }

  function SetMachine(w: World, e: nat, m: AnimStateMachine): World
    requires Live(w, e)
  {
    Ecs.SetComponent(w, MachineKind, e, MachineC(m))
  }

  function GetState(w: World, e: nat): Option<DinoState>
    requires Live(w, e)
  {
    match Slot(w, StateKind, e)
    case Some(StateC(s)) => Some(s)
    case _ => None
  }

  function SetState(w: World, e: nat, s: DinoState): World
    requires Live(w, e)
  {
    Ecs.SetComponent(w, StateKind, e, StateC(s))
  }

  function GetController(w: World, e: nat): Option<DinoController>
    requires Live(w, e)
  {
    match Slot(w, ControllerKind, e)
    case Some(ControllerC(c)) => Some(c)
    case _ => None
  }

  function GetPtero(w: World, e: nat): Option<Ptero>
    requires Live(w, e)
  {
    match Slot(w, PteroKind, e)
    case Some(PteroC(p)) => Some(p)
    case _ => None
  }

  function SetPtero(w: World, e: nat, p: Ptero): World
    requires Live(w, e)
  {
    Ecs.SetComponent(w, PteroKind, e, PteroC(p))
  }

  /** `Collider::get_pos`: the entity's `Movable` position; panics without one. */
  function GetPos(w: World, e: nat): (r: Result<Vec2>)
    requires Live(w, e)
    ensures r.Ok? <==> GetMovable(w, e).Some?
    ensures r.Ok? ==> r.value == GetMovable(w, e).value.pos
  {
    var m :- Unwrap(GetMovable(w, e));
    Ok(m.pos)
  }
}
