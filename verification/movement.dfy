/** The movement half of `update()`: directional priority, velocity,
    mirroring and the inactive (dialogue open) branch. */
module Movement {
  import opened GameModel

  datatype Direction = Down | Up | Left | Right

  /** Idle or moving in one direction; recomputed from scratch every frame. */
  datatype Motion = Idle | Moving(dir: Direction)

  /** Priority of a direction: lower wins. */
  function Rank(d: Direction): nat {
    match d
    case Down => 0
    case Up => 1
    case Left => 2
    case Right => 3
  }

  /** A direction is held when its arrow key or its letter key is down. */
  predicate Held(keys: Keys, d: Direction) {
    match d
    case Down => keys.arrowDown || keys.keyS
    case Up => keys.arrowUp || keys.keyW
    case Left => keys.arrowLeft || keys.keyA
    case Right => keys.arrowRight || keys.keyD
  }

  /** Reference definition of the choice: idle exactly when nothing is held,
      otherwise the held direction that outranks every other held one. */
  predicate FollowsPriority(keys: Keys, m: Motion) {
    match m
    case Idle => forall d: Direction :: !Held(keys, d)
    case Moving(d) => Held(keys, d) && forall e: Direction :: Rank(e) < Rank(d) ==> !Held(keys, e)
  }

  /** The if/else-if chain on the key flags. */
  function Select(keys: Keys): (m: Motion)
    ensures FollowsPriority(keys, m)
  {
    if keys.arrowDown || keys.keyS then Moving(Down)
    else if keys.arrowUp || keys.keyW then Moving(Up)
    else if keys.arrowLeft || keys.keyA then Moving(Left)
    else if keys.arrowRight || keys.keyD then Moving(Right)
    else Idle
  }

  /** The priority rule admits exactly one motion: whatever follows it is
      what `Select` picks. */
  lemma PriorityIsUnique(keys: Keys, m: Motion)
    ensures FollowsPriority(keys, m) <==> m == Select(keys)
  {
  }

  function AnimFor(d: Direction): string {
    match d
    case Down => "walk-down"
    case Up => "walk-up"
    case Left => "walk-right-left"
    case Right => "walk-right-left"
  }

  /** One frame of the movement controller. */
  function Move(g: GameState, keys: Keys): (r: GameState)
    // only the player and the engine-wide pause flags can change
    ensures r.active == g.active && r.colliding == g.colliding
    ensures r.catalog == g.catalog && r.handlers == g.handlers
    ensures r.npcAnimsPaused == g.npcAnimsPaused
    // dialogue open: stand still, freeze everything, touch nothing else of the player
    ensures !g.active ==>
      && r.player.vx == 0 && r.player.vy == 0
      && r.player.flipX == g.player.flipX && r.player.anim == g.player.anim
      && r.player.animPaused == g.player.animPaused
      && r.allAnimsPaused && r.physicsPaused
      && r.tweensPaused == g.tweensPaused + {Cat}
    // control active: the engine-wide flags are left alone
    ensures g.active ==>
      && r.allAnimsPaused == g.allAnimsPaused && r.physicsPaused == g.physicsPaused
      && r.tweensPaused == g.tweensPaused
    // nothing held: stand still and freeze the current animation frame
    ensures g.active && Select(keys).Idle? ==>
      && r.player.vx == 0 && r.player.vy == 0 && r.player.animPaused
      && r.player.anim == g.player.anim && r.player.flipX == g.player.flipX
    // a direction chosen: one axis at full speed, the other at rest
    ensures g.active && Select(keys).Moving? ==>
      var d := Select(keys).dir;
      && (r.player.vx == 0 || r.player.vy == 0)
      && Abs(r.player.vx) + Abs(r.player.vy) == Speed
      && (r.player.vy > 0 <==> d == Down) && (r.player.vy < 0 <==> d == Up)
      && (r.player.vx < 0 <==> d == Left) && (r.player.vx > 0 <==> d == Right)
      && (r.player.flipX <==> d == Right)
      && r.player.anim == AnimFor(d) && !r.player.animPaused
  {
    if g.active then
      var p := g.player;
      var p' :=
        if keys.arrowDown || keys.keyS then
          p.(vx := 0, vy := Speed, anim := "walk-down", animPaused := false, flipX := false)
        else if keys.arrowUp || keys.keyW then
          p.(vx := 0, vy := -Speed, anim := "walk-up", animPaused := false, flipX := false)
        else if keys.arrowLeft || keys.keyA then
          p.(vy := 0, vx := -Speed, anim := "walk-right-left", animPaused := false, flipX := false)
        else if keys.arrowRight || keys.keyD then
          p.(vy := 0, vx := Speed, anim := "walk-right-left", animPaused := false, flipX := true)
        else
          p.(vy := 0, vx := 0, animPaused := true);
      g.(player := p')
    else
      g.(player := g.player.(vy := 0, vx := 0),
         allAnimsPaused := true,
         physicsPaused := true,
         tweensPaused := g.tweensPaused + {Cat})
  }

  /** With control active, the mirror flag is set exactly in the
      moving-right state and cleared by every other moving state. */
  lemma FlipOnlyWhenMovingRight(g: GameState, keys: Keys)
    requires g.active && Select(keys).Moving?
    ensures Move(g, keys).player.flipX <==> Select(keys) == Moving(Right)
  {
  }

  /** While a dialogue is open the player stands still whatever is pressed. */
  lemma InactiveIgnoresInput(g: GameState, k1: Keys, k2: Keys)
    requires !g.active
    ensures Move(g, k1) == Move(g, k2)
    ensures Move(g, k1).player.vx == 0 && Move(g, k1).player.vy == 0
  {
  }
}
