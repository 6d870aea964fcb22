/** `enterDialogue` and the `pointerup` handlers it registers: catalog
    lookup, the trigger gate, opening a session, advancing it one message per
    pointer-up and the `"destroy"` completion (`resumeGame`). */
module DialogueBox {
  import opened Wrappers
  import opened GameModel
  import Movement

  /** `k` is the first catalog position whose entry carries `name`. */
  predicate IsFirstMatch(c: seq<DialogueEntry>, name: string, k: nat) {
    k < |c| && c[k].name == name && forall j :: 0 <= j < k ==> c[j].name != name
  }

  /** `Array.prototype.find` on the catalog, scanning from `from`. */
  function FindFrom(c: seq<DialogueEntry>, name: string, from: nat): (k: Option<nat>)
    requires from <= |c|
    ensures k.Some? ==> from <= k.value < |c| && c[k.value].name == name
    ensures k.Some? ==> forall j :: from <= j < k.value ==> c[j].name != name
    ensures k.None? ==> forall j :: from <= j < |c| ==> c[j].name != name
    decreases |c| - from
  {
    if from == |c| then None
    else if c[from].name == name then Some(from)
    else FindFrom(c, name, from + 1)
  }

  /** Catalog lookup by name: the first match, or nothing. */
  function Find(c: seq<DialogueEntry>, name: string): (k: Option<nat>)
    ensures k.Some? ==> IsFirstMatch(c, name, k.value)
    ensures k.None? <==> forall j :: 0 <= j < |c| ==> c[j].name != name
  {
    FindFrom(c, name, 0)
  }

  /** `enterDialogue(scene, gameState, name)`. A lookup miss is the fault
      the game code raises when it reads a property of `undefined`; a
      non-triggerable entry leaves everything as it was; otherwise control
      is taken away and one more handler is registered, at message 0. */
  function EnterDialogue(g: GameState, name: string): (r: Result<GameState, Fault>)
    requires Valid(g)
    ensures r.Failure? <==> forall j :: 0 <= j < |g.catalog| ==> g.catalog[j].name != name
    ensures r.Failure? ==> r.error == DialogueNotFound(name)
    ensures r.Success? ==> Valid(r.value)
    ensures r.Success? ==>
      var k := Find(g.catalog, name).value;
      if !g.catalog[k].playerCanTrigger then r.value == g
      else
        && !r.value.active
        && |r.value.handlers| == |g.handlers| + 1
        && r.value.handlers[..|g.handlers|] == g.handlers
        && r.value.handlers[|g.handlers|] == Session(k, 0, Some(g.catalog[k].messages[0]))
        && r.value.(active := g.active, handlers := g.handlers) == g
  {
    match Find(g.catalog, name)
    case None => Failure(DialogueNotFound(name))
    case Some(k) =>
      var entry := g.catalog[k];
      if entry.playerCanTrigger then
        Success(g.(active := false,
                   handlers := g.handlers + [Session(k, 0, Some(entry.messages[0]))]))
      else
        Success(g)
  }

  /** The handler sits on its entry's last message under the `"destroy"`
      policy, so the next pointer-up runs `resumeGame`. */
  predicate Completes(c: seq<DialogueEntry>, h: Session) {
    && h.entry < |c|
    && h.currentIndex >= |c[h.entry].messages| - 1
    && c[h.entry].onCompletion == DestroyTag
  }

  /** What one pointer-up does to a handler's own closure state. */
  function Stepped(c: seq<DialogueEntry>, h: Session): (r: Session)
    requires HandlerValid(c, h)
    ensures HandlerValid(c, r) && r.entry == h.entry
    // the index never decreases and moves by one exactly when not at the end
    ensures h.currentIndex <= r.currentIndex
    ensures r.currentIndex == h.currentIndex + 1 <==> h.currentIndex < |c[h.entry].messages| - 1
    ensures r.currentIndex != h.currentIndex ==> r.shown == Some(c[h.entry].messages[r.currentIndex])
    // the box is taken down exactly by the destroy completion
    ensures r.shown.None? <==> Completes(c, h)
  {
    var msgs := c[h.entry].messages;
    if h.currentIndex < |msgs| - 1 then
      h.(currentIndex := h.currentIndex + 1, shown := Some(msgs[h.currentIndex + 1]))
    else if c[h.entry].onCompletion == DestroyTag then
      h.(shown := None)
    else
      h
  }

  /** `resumeGame()` of handler `i`: destroy its box, resume every
      animation, the physics and the cat's tween, and give control back. */
  function ResumeGame(g: GameState, i: nat): (r: GameState)
    requires i < |g.handlers|
    ensures |r.handlers| == |g.handlers|
    ensures r.active && !r.allAnimsPaused && !r.physicsPaused
    // only the cat's tween is resumed; sprite-level animation pauses stay
    ensures r.tweensPaused == g.tweensPaused - {Cat}
    ensures r.npcAnimsPaused == g.npcAnimsPaused
    ensures r.handlers[i].shown.None? && r.handlers[i].entry == g.handlers[i].entry
    ensures r.handlers[i].currentIndex == g.handlers[i].currentIndex
    ensures forall j :: 0 <= j < |g.handlers| && j != i ==> r.handlers[j] == g.handlers[j]
    ensures r.catalog == g.catalog && r.colliding == g.colliding && r.player == g.player
  {
    g.(handlers := g.handlers[i := g.handlers[i].(shown := None)],
       allAnimsPaused := false,
       physicsPaused := false,
       tweensPaused := g.tweensPaused - {Cat},
       active := true)
  }

  /** `resumeGame` undoes what the inactive branch of a frame paused: the
      engine-wide animation and physics pauses and the cat's tween. */
  lemma ResumeUndoesInactivePause(g: GameState, keys: Keys, i: nat)
    requires !g.active && i < |g.handlers|
    ensures var paused := Movement.Move(g, keys);
      var r := ResumeGame(paused, i);
      && paused.physicsPaused && paused.allAnimsPaused && Cat in paused.tweensPaused
      && r.active && !r.physicsPaused && !r.allAnimsPaused
      && r.tweensPaused == g.tweensPaused - {Cat}
  {
  }

  /** Handler `i` reacts to one pointer-up. */
  function Fire(g: GameState, i: nat): (r: GameState)
    requires Valid(g) && i < |g.handlers|
    ensures Valid(r) && |r.handlers| == |g.handlers|
    // the completion's `playerCanTrigger = true` rewrites a value already true
    ensures r.catalog == g.catalog
    ensures r.colliding == g.colliding && r.player == g.player
    ensures r.npcAnimsPaused == g.npcAnimsPaused
    ensures r.handlers[i] == Stepped(g.catalog, g.handlers[i])
    ensures forall j :: 0 <= j < |g.handlers| && j != i ==> r.handlers[j] == g.handlers[j]
    ensures r.active == (g.active || Completes(g.catalog, g.handlers[i]))
    ensures r.allAnimsPaused == (g.allAnimsPaused && !Completes(g.catalog, g.handlers[i]))
    ensures r.physicsPaused == (g.physicsPaused && !Completes(g.catalog, g.handlers[i]))
    ensures r.tweensPaused ==
      if Completes(g.catalog, g.handlers[i]) then g.tweensPaused - {Cat} else g.tweensPaused
  {
    var h := g.handlers[i];
    var entry := g.catalog[h.entry];
    if h.currentIndex < |entry.messages| - 1 then
      g.(handlers := g.handlers[i := h.(currentIndex := h.currentIndex + 1,
                                        shown := Some(entry.messages[h.currentIndex + 1]))])
    else if entry.onCompletion == DestroyTag then
      var resumed := ResumeGame(g, i);
      resumed.(catalog := resumed.catalog[h.entry := entry.(playerCanTrigger := true)])
    else
      g
  }

  /** At the last message, a completion tag other than `"destroy"` makes
      the pointer-up do nothing at all. */
  lemma OtherPolicyDoesNothing(g: GameState, i: nat)
    requires Valid(g) && i < |g.handlers|
    requires g.handlers[i].currentIndex == |g.catalog[g.handlers[i].entry].messages| - 1
    requires g.catalog[g.handlers[i].entry].onCompletion != DestroyTag
    ensures Fire(g, i) == g
  {
  }

  /** Some handler from position `from` on is about to complete. */
  predicate AnyCompletes(c: seq<DialogueEntry>, hs: seq<Session>, from: nat) {
    exists j :: from <= j < |hs| && Completes(c, hs[j])
  }

  /** Firing handler `from` leaves the later handlers and the catalog alone,
      so "some handler from `from` on completes" splits into this handler
      and the rest. */
  lemma AnyCompletesAfterFire(g: GameState, from: nat)
    requires Valid(g) && from < |g.handlers|
    ensures AnyCompletes(g.catalog, g.handlers, from) <==>
      Completes(g.catalog, g.handlers[from]) ||
      AnyCompletes(Fire(g, from).catalog, Fire(g, from).handlers, from + 1)
  {
  }

  /** The event emitter calls the handlers from `from` on, in registration order. */
  function RunHandlers(g: GameState, from: nat): (r: GameState)
    requires Valid(g) && from <= |g.handlers|
    ensures Valid(r) && |r.handlers| == |g.handlers|
    ensures r.catalog == g.catalog
    ensures r.colliding == g.colliding && r.player == g.player
    ensures r.npcAnimsPaused == g.npcAnimsPaused
    ensures forall j :: 0 <= j < from ==> r.handlers[j] == g.handlers[j]
    ensures forall j :: from <= j < |g.handlers| ==> r.handlers[j] == Stepped(g.catalog, g.handlers[j])
    ensures r.active == (g.active || AnyCompletes(g.catalog, g.handlers, from))
    ensures r.allAnimsPaused == (g.allAnimsPaused && !AnyCompletes(g.catalog, g.handlers, from))
    ensures r.physicsPaused == (g.physicsPaused && !AnyCompletes(g.catalog, g.handlers, from))
    ensures r.tweensPaused ==
      if AnyCompletes(g.catalog, g.handlers, from) then g.tweensPaused - {Cat} else g.tweensPaused
    decreases |g.handlers| - from
  {
    if from == |g.handlers| then g
    else
      var g' := Fire(g, from);
      AnyCompletesAfterFire(g, from);
      RunHandlers(g', from + 1)
  }

  /** Every handler's own step, side by side. */
  function StepAll(c: seq<DialogueEntry>, hs: seq<Session>): (r: seq<Session>)
    requires forall j :: 0 <= j < |hs| ==> HandlerValid(c, hs[j])
    ensures |r| == |hs|
    ensures forall j :: 0 <= j < |hs| ==> r[j] == Stepped(c, hs[j]) && HandlerValid(c, r[j])
  {
    seq(|hs|, j requires 0 <= j < |hs| => Stepped(c, hs[j]))
  }

  /** One `pointerup` event, stated as its net effect: every registered
      handler steps once, and control returns with all pauses lifted
      exactly when some handler runs the destroy completion.
      `AdvanceIsSequentialRun` shows this is what calling the handlers one
      after another in registration order does. */
  function Advance(g: GameState): (r: GameState)
    requires Valid(g)
    ensures Valid(r)
  {
    var done := AnyCompletes(g.catalog, g.handlers, 0);
    g.(handlers := StepAll(g.catalog, g.handlers),
       active := g.active || done,
       allAnimsPaused := g.allAnimsPaused && !done,
       physicsPaused := g.physicsPaused && !done,
       tweensPaused := if done then g.tweensPaused - {Cat} else g.tweensPaused)
  }

  /** The net effect above is exactly the emitter calling every handler
      once, in registration order, each seeing the state the previous one
      left (including the completion's write to `playerCanTrigger`). */
  lemma AdvanceIsSequentialRun(g: GameState)
    requires Valid(g)
    ensures Advance(g) == RunHandlers(g, 0)
  {
  }
}
