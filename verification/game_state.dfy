/** The shared state record of the scene (the module-level `gameState`
    object and the engine flags it drives) and its well-formedness invariant. */
module GameModel {
  import opened Wrappers

  /** Handle of an interactable sprite; the scene has a single one, the cat. */
  type EntityId = nat

  /** The cat sprite: the only non-player entity the scene creates. */
  const Cat: EntityId := 0

  /** Speed magnitude the player moves at on its active axis. */
  const Speed: int := 150

  /** The one completion policy the dialogue handler acts on. */
  const DestroyTag: string := "destroy"

  /** Key state sampled by one frame: arrow keys, W/A/S/D and Enter. */
  datatype Keys = Keys(
    arrowDown: bool, arrowUp: bool, arrowLeft: bool, arrowRight: bool,
    keyS: bool, keyW: bool, keyA: bool, keyD: bool,
    enter: bool)

  /** The player sprite: velocity, mirroring, current animation key and
      whether that animation is frozen. */
  datatype Player = Player(vx: int, vy: int, flipX: bool, anim: string, animPaused: bool)

  /** `gameState.collidingData`: the touch signal and who was last touched. */
  datatype CollidingData = CollidingData(
    isColliding: bool,
    collidingWith: Option<EntityId>,
    dialogueName: Option<string>)

  datatype Message = Message(author: string, text: string)

  /** One dialogue catalog entry. `onCompletion` is kept as the game code's bare
      string tag; only `DestroyTag` has an effect. */
  datatype DialogueEntry = DialogueEntry(
    name: string,
    playerCanTrigger: bool,
    onCompletion: string,
    messages: seq<Message>)

  /** The state captured by one registered `pointerup` handler: which catalog
      entry it walks, its `currentIndex`, and the (author, text) pair its
      dialogue box shows (`None` once `resumeGame` destroyed the box). */
  datatype Session = Session(entry: nat, currentIndex: nat, shown: Option<Message>)

  /** Everything one frame or one pointer-up can read or change.
      `handlers` lists the registered pointer-up handlers in registration
      order; none is ever removed. */
  datatype GameState = GameState(
    active: bool,
    colliding: CollidingData,
    player: Player,
    allAnimsPaused: bool,
    physicsPaused: bool,
    tweensPaused: set<EntityId>,
    npcAnimsPaused: set<EntityId>,
    catalog: seq<DialogueEntry>,
    handlers: seq<Session>)

  /** The fault `enterDialogue` raises when no catalog entry has the name. */
  datatype Fault = DialogueNotFound(name: string)

  /** Every catalog entry has at least one message. */
  predicate WellFormedCatalog(c: seq<DialogueEntry>) {
    forall k :: 0 <= k < |c| ==> |c[k].messages| > 0
  }

  /** A handler refers to an existing entry that was triggerable when it was
      opened, its index is in range, its box shows the current message, and
      the box is gone only after the destroy completion ran at the last
      message. */
  predicate HandlerValid(c: seq<DialogueEntry>, h: Session) {
    && h.entry < |c|
    && h.currentIndex < |c[h.entry].messages|
    && c[h.entry].playerCanTrigger
    && (h.shown.Some? ==> h.shown.value == c[h.entry].messages[h.currentIndex])
    && (h.shown.None? ==>
          h.currentIndex == |c[h.entry].messages| - 1 && c[h.entry].onCompletion == DestroyTag)
  }

  /** The invariant every reachable state keeps. */
  predicate Valid(g: GameState) {
    && WellFormedCatalog(g.catalog)
    && (g.colliding.isColliding ==>
          g.colliding.collidingWith.Some? && g.colliding.dialogueName.Some?)
    && forall i :: 0 <= i < |g.handlers| ==> HandlerValid(g.catalog, g.handlers[i])
  }

  /** Some registered handler still has its dialogue box on screen. */
  predicate BoxOnScreen(g: GameState) {
    exists i :: 0 <= i < |g.handlers| && g.handlers[i].shown.Some?
  }

  /** The state `create()` leaves behind: control active, nothing touched,
      nothing paused, no handler registered. */
  function Init(catalog: seq<DialogueEntry>): (g: GameState)
    requires WellFormedCatalog(catalog)
    ensures Valid(g) && g.catalog == catalog
    ensures g.active && !g.colliding.isColliding && g.colliding.collidingWith.None?
    ensures !BoxOnScreen(g) && !g.physicsPaused && !g.allAnimsPaused
    ensures Cat !in g.tweensPaused && Cat !in g.npcAnimsPaused
  {
    GameState(
      true,
      CollidingData(false, None, None),
      Player(0, 0, false, "", false),
      false, false, {}, {},
      catalog,
      [])
  }

  function Abs(x: int): nat {
    if x < 0 then -x else x
  }
}
