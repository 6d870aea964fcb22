/** The scene's per-frame logic: the player/cat overlap callback and
    `update()` (movement, touch handling, resume, frame-end reset), plus the
    event stream that interleaves frames with pointer-ups. */
module Scene {
  import opened Wrappers
  import opened GameModel
  import opened Movement
  import opened DialogueBox

  /** The overlap callback the physics engine calls while the player's body
      overlaps the entity `who`, whose dialogue is `name`. */
  function OnOverlap(g: GameState, who: EntityId, name: string): (r: GameState)
    requires Valid(g)
    ensures Valid(r)
    ensures r.colliding.isColliding
    ensures r.colliding.collidingWith == Some(who) && r.colliding.dialogueName == Some(name)
    ensures r.(colliding := g.colliding) == g
  {
    g.(colliding := CollidingData(true, Some(who), Some(name)))
  }

  /** The branch on lines 187-190: resume the last-touched entity. */
  predicate Resumes(g: GameState) {
    !g.colliding.isColliding && g.colliding.collidingWith.Some? && g.active
  }

  /** The touch half of `update()`, run after `Move`. */
  function HandleTouch(g: GameState, keys: Keys): (r: Result<GameState, Fault>)
    requires Valid(g)
    ensures r.Success? ==> Valid(r.value)
  {
    var cd := g.colliding;
    if cd.isColliding then
      var who := cd.collidingWith.value;
      var entered :=
        if keys.enter then EnterDialogue(g, cd.dialogueName.value) else Success(g);
      match entered
      case Failure(e) => Failure(e)
      case Success(g') =>
        Success(g'.(tweensPaused := g'.tweensPaused + {who},
                    npcAnimsPaused := g'.npcAnimsPaused + {who}))
    else if cd.collidingWith.Some? && g.active then
      var who := cd.collidingWith.value;
      Success(g.(tweensPaused := g.tweensPaused - {who},
                 npcAnimsPaused := g.npcAnimsPaused - {who}))
    else
      Success(g)
  }

  /** `update()`: one frame. A catalog miss aborts the frame with the fault. */
  function Update(g: GameState, keys: Keys): (r: Result<GameState, Fault>)
    requires Valid(g)
    ensures r.Success? ==> Valid(r.value)
    // frame-end reset: the touch flag is always cleared, the rest kept
    ensures r.Success? ==>
      && !r.value.colliding.isColliding
      && r.value.colliding.collidingWith == g.colliding.collidingWith
      && r.value.colliding.dialogueName == g.colliding.dialogueName
    ensures r.Success? ==> r.value.player == Move(g, keys).player
    // the only fault: Enter pressed while touching an entity the catalog does not know
    ensures r.Failure? <==>
      && g.colliding.isColliding && keys.enter
      && forall j :: 0 <= j < |g.catalog| ==> g.catalog[j].name != g.colliding.dialogueName.value
    ensures r.Failure? ==> r.error == DialogueNotFound(g.colliding.dialogueName.value)
  {
    var moved := Move(g, keys);
    match HandleTouch(moved, keys)
    case Failure(e) => Failure(e)
    case Success(g') =>
      Success(g'.(colliding := g'.colliding.(isColliding := false)))
  }

  /** Touching pauses the touched entity's tween and animation, whether or
      not Enter is down. */
  lemma TouchPausesEntity(g: GameState, keys: Keys)
    requires Valid(g) && g.colliding.isColliding && Update(g, keys).Success?
    ensures g.colliding.collidingWith.value in Update(g, keys).value.tweensPaused
    ensures g.colliding.collidingWith.value in Update(g, keys).value.npcAnimsPaused
  {
  }

  /** `enterDialogue` runs only when touching with Enter down: otherwise no
      handler is added and control is what it was. */
  lemma EnterOnlyOnTouchWithEnter(g: GameState, keys: Keys)
    requires Valid(g) && !(g.colliding.isColliding && keys.enter)
    ensures Update(g, keys).Success?
    ensures Update(g, keys).value.handlers == g.handlers
    ensures Update(g, keys).value.active == g.active
  {
  }

  /** A frame only ever appends a handler, and takes control away only by
      opening a new box on its first message. */
  lemma FrameOnlyAppendsHandlers(g: GameState, keys: Keys)
    requires Valid(g)
    ensures Update(g, keys).Success? ==>
      var r := Update(g, keys).value;
      && |g.handlers| <= |r.handlers| <= |g.handlers| + 1
      && r.handlers[..|g.handlers|] == g.handlers
    ensures Update(g, keys).Success? ==>
      var r := Update(g, keys).value;
      g.active && !r.active ==>
        && |r.handlers| == |g.handlers| + 1
        && r.handlers[|g.handlers|].currentIndex == 0
        && r.handlers[|g.handlers|].shown.Some?
  {
  }

  /** In any state, touching with Enter down on a name whose first catalog
      entry is triggerable opens a session: control goes away and one
      handler is appended at message 0 behind all existing ones. This holds
      whatever `active` was, so a dialogue can be reopened once closed. */
  lemma TouchWithEnterOpens(g: GameState, keys: Keys, k: nat)
    requires Valid(g) && g.colliding.isColliding && keys.enter
    requires IsFirstMatch(g.catalog, g.colliding.dialogueName.value, k)
    requires g.catalog[k].playerCanTrigger
    ensures var r := Update(g, keys);
      && r.Success? && !r.value.active
      && |r.value.handlers| == |g.handlers| + 1
      && r.value.handlers[..|g.handlers|] == g.handlers
      && r.value.handlers[|g.handlers|] == Session(k, 0, Some(g.catalog[k].messages[0]))
  {
  }

  /** The last-touched entity is resumed exactly when it is no longer
      touched and control is active; in every other case nothing is
      resumed. */
  lemma ResumeOnlyWhenLeftAndActive(g: GameState, keys: Keys)
    requires Valid(g) && Update(g, keys).Success?
    ensures Resumes(g) ==>
      && g.colliding.collidingWith.value !in Update(g, keys).value.tweensPaused
      && g.colliding.collidingWith.value !in Update(g, keys).value.npcAnimsPaused
    ensures !Resumes(g) ==>
      && Update(g, keys).value.tweensPaused >= g.tweensPaused
      && Update(g, keys).value.npcAnimsPaused >= g.npcAnimsPaused
  {
  }

  /** What the physics engine reports for a frame: the body the player overlaps. */
  datatype Touch = Touch(who: EntityId, dialogueName: string)

  /** The two kinds of event the scene receives, serialised by the host. */
  datatype Event =
    | Frame(overlap: Option<Touch>, keys: Keys)
    | PointerUp

  /** One event: a frame runs the overlap callback (if any) then `update()`;
      a pointer-up runs every registered handler. */
  function Step(g: GameState, e: Event): (r: Result<GameState, Fault>)
    requires Valid(g)
    ensures r.Success? ==> Valid(r.value) && r.value.catalog == g.catalog
    ensures e.PointerUp? ==> r == Success(Advance(g))
    ensures r.Success? ==> |g.handlers| <= |r.value.handlers| <= |g.handlers| + 1
  {
    match e
    case PointerUp => Success(Advance(g))
    case Frame(overlap, keys) =>
      var touched :=
        if overlap.Some? then OnOverlap(g, overlap.value.who, overlap.value.dialogueName) else g;
      FrameOnlyAppendsHandlers(touched, keys);
      Update(touched, keys)
  }

  /** A whole run: events in order, stopping at the first fault. */
  function Run(g: GameState, es: seq<Event>): (r: Result<GameState, Fault>)
    requires Valid(g)
    // every reachable state is well formed and the catalog is never altered
    ensures r.Success? ==> Valid(r.value) && r.value.catalog == g.catalog
    // at most one handler per event, and never one fewer
    ensures r.Success? ==> |g.handlers| <= |r.value.handlers| <= |g.handlers| + |es|
    decreases |es|
  {
    if es == [] then Success(g)
    else
      match Step(g, es[0])
      case Failure(e) => Failure(e)
      case Success(g') => Run(g', es[1..])
  }
}
