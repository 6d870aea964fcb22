/** Properties of whole dialogue sessions: sequences of pointer-ups, the
    open-to-close lifecycle, and the two behaviours the game code exhibits
    because it neither checks `active` before entering a dialogue nor ever
    removes a `pointerup` handler. */
module Sessions {
  import opened Wrappers
  import opened GameModel
  import opened DialogueBox
  import opened Scene

  /** `n` pointer-ups in a row. */
  function PointerUps(g: GameState, n: nat): (r: GameState)
    requires Valid(g)
    ensures Valid(r) && r.catalog == g.catalog && |r.handlers| == |g.handlers|
    ensures r.colliding == g.colliding && r.player == g.player
  {
    if n == 0 then g else Advance(PointerUps(g, n - 1))
  }

  /** No handler's index ever goes backwards or past its entry's last
      message, however many pointer-ups arrive. */
  lemma {:induction false} IndexMonotoneAndBounded(g: GameState, n: nat, j: nat)
    requires Valid(g) && j < |g.handlers|
    ensures PointerUps(g, n).handlers[j].entry == g.handlers[j].entry
    ensures g.handlers[j].currentIndex <= PointerUps(g, n).handlers[j].currentIndex
    ensures PointerUps(g, n).handlers[j].currentIndex < |g.catalog[g.handlers[j].entry].messages|
  {
    if n > 0 {
      IndexMonotoneAndBounded(g, n - 1, j);
      var prev := PointerUps(g, n - 1);
      var next := Advance(prev);
      assert PointerUps(g, n) == next;
      assert next.handlers[j] == Stepped(prev.catalog, prev.handlers[j]);
    }
  }

  /** The single open session of entry `k`, `i` messages in, box up. */
  predicate OnlySessionAt(g: GameState, k: nat, i: nat) {
    && k < |g.catalog| && i < |g.catalog[k].messages|
    && g.handlers == [Session(k, i, Some(g.catalog[k].messages[i]))]
  }

  /** A pointer-up before the last message moves the lone session on by one
      message and changes nothing else. */
  lemma OnePointerUpAdvances(g: GameState, k: nat, i: nat)
    requires Valid(g) && OnlySessionAt(g, k, i) && i < |g.catalog[k].messages| - 1
    ensures OnlySessionAt(Advance(g), k, i + 1)
    ensures Advance(g) == g.(handlers := Advance(g).handlers)
  {
    var r := Advance(g);
    assert !Completes(g.catalog, g.handlers[0]);
    assert !AnyCompletes(g.catalog, g.handlers, 0);
    assert r.handlers[0] == Stepped(g.catalog, g.handlers[0]);
  }

  /** Before the last message is acknowledged the session stays open and
      control stays with the dialogue. */
  lemma {:induction false} StillOpenBeforeLast(g: GameState, k: nat, n: nat)
    requires Valid(g) && OnlySessionAt(g, k, 0) && !g.active
    requires n < |g.catalog[k].messages|
    ensures OnlySessionAt(PointerUps(g, n), k, n) && !PointerUps(g, n).active
    ensures PointerUps(g, n) == g.(handlers := PointerUps(g, n).handlers)
  {
    if n > 0 {
      StillOpenBeforeLast(g, k, n - 1);
      OnePointerUpAdvances(PointerUps(g, n - 1), k, n - 1);
    }
  }

  /** The pointer-up on a handler's last message runs the destroy
      completion, whatever other handlers are registered: its box goes,
      control returns, every pause it lifts is lifted and the entry stays
      triggerable. */
  lemma LastPointerUpCloses(g: GameState, j: nat)
    requires Valid(g) && j < |g.handlers|
    requires g.handlers[j].currentIndex == |g.catalog[g.handlers[j].entry].messages| - 1
    requires g.catalog[g.handlers[j].entry].onCompletion == DestroyTag
    ensures var r := Advance(g);
      && r.active && r.handlers[j].shown.None?
      && r.handlers[j].currentIndex == g.handlers[j].currentIndex
      && !r.physicsPaused && !r.allAnimsPaused && Cat !in r.tweensPaused
      && r.catalog[g.handlers[j].entry].playerCanTrigger
  {
    assert Completes(g.catalog, g.handlers[j]);
  }

  /** If handler `j` of entry `k` is on the entry's last message after `n`
      pointer-ups, the next one closes it. */
  lemma NextPointerUpCloses(g: GameState, j: nat, k: nat, n: nat)
    requires Valid(g) && j < |g.handlers| && k < |g.catalog|
    requires n + 1 == |g.catalog[k].messages| && g.catalog[k].onCompletion == DestroyTag
    requires PointerUps(g, n).handlers[j] == Session(k, n, Some(g.catalog[k].messages[n]))
    ensures var done := PointerUps(g, |g.catalog[k].messages|);
      && done.active && done.handlers[j].shown.None?
      && !done.physicsPaused && !done.allAnimsPaused && Cat !in done.tweensPaused
      && done.catalog[k].playerCanTrigger
  {
    var last := PointerUps(g, n);
    assert PointerUps(g, n + 1) == Advance(last);
    LastPointerUpCloses(last, j);
  }

  /** Handler `j` opened on entry `k` shows message `n` after `n`
      pointer-ups, for every `n` before the entry's last, whatever other
      handlers are registered. */
  lemma {:induction false} HandlerAtMessage(g: GameState, j: nat, k: nat, n: nat)
    requires Valid(g) && j < |g.handlers| && k < |g.catalog|
    requires g.handlers[j] == Session(k, 0, Some(g.catalog[k].messages[0]))
    requires n < |g.catalog[k].messages|
    ensures PointerUps(g, n).handlers[j] == Session(k, n, Some(g.catalog[k].messages[n]))
  {
    if n > 0 {
      HandlerAtMessage(g, j, k, n - 1);
      var prev := PointerUps(g, n - 1);
      assert PointerUps(g, n).handlers[j] == Stepped(prev.catalog, prev.handlers[j]);
    }
  }

  /** For a lone session, every pointer-up before the N-th leaves the box
      up and control away. `AwayWhileNoneDue` states the same for any set of
      handlers none of which is due; a handler that is due gives control
      back earlier (`StaleHandlerEndsPauseEarly`). */
  lemma OpenBeforeNthPointerUp(g: GameState, k: nat)
    requires Valid(g) && OnlySessionAt(g, k, 0) && !g.active
    ensures forall n :: 0 <= n < |g.catalog[k].messages| ==>
      !PointerUps(g, n).active && PointerUps(g, n).handlers[0].shown.Some?
  {
    forall n | 0 <= n < |g.catalog[k].messages|
      ensures !PointerUps(g, n).active && PointerUps(g, n).handlers[0].shown.Some?
    {
      StillOpenBeforeLast(g, k, n);
    }
  }

  /** Every registered handler is more than `n` messages from the end of
      its entry, so none of the next `n` pointer-ups reaches a completion. */
  predicate NoneDueWithin(g: GameState, n: nat) {
    forall i :: 0 <= i < |g.handlers| ==>
      g.handlers[i].entry < |g.catalog| &&
      g.handlers[i].currentIndex + n < |g.catalog[g.handlers[i].entry].messages|
  }

  /** A pointer-up with no handler due moves every handler on by one
      message, box up, and changes nothing else. */
  lemma NoneDueAdvances(g: GameState)
    requires Valid(g) && NoneDueWithin(g, 1)
    ensures !AnyCompletes(g.catalog, g.handlers, 0)
    ensures Advance(g) == g.(handlers := Advance(g).handlers)
    ensures forall i :: 0 <= i < |g.handlers| ==>
      var h := g.handlers[i];
      Advance(g).handlers[i] ==
        Session(h.entry, h.currentIndex + 1, Some(g.catalog[h.entry].messages[h.currentIndex + 1]))
  {
    forall j | 0 <= j < |g.handlers|
      ensures !Completes(g.catalog, g.handlers[j])
    {
    }
  }

  /** With control away and no handler due within `n` pointer-ups, control
      is still away after them, and every handler has moved on exactly `n`
      messages with its box up, however many handlers are registered. */
  lemma {:induction false} AwayWhileNoneDue(g: GameState, n: nat)
    requires Valid(g) && !g.active && NoneDueWithin(g, n)
    ensures !PointerUps(g, n).active
    ensures forall i :: 0 <= i < |g.handlers| ==>
      && PointerUps(g, n).handlers[i].entry == g.handlers[i].entry
      && PointerUps(g, n).handlers[i].currentIndex == g.handlers[i].currentIndex + n
    ensures n > 0 ==> forall i :: 0 <= i < |g.handlers| ==>
      PointerUps(g, n).handlers[i].shown
        == Some(g.catalog[g.handlers[i].entry].messages[g.handlers[i].currentIndex + n])
  {
    if n > 0 {
      AwayWhileNoneDue(g, n - 1);
      var prev := PointerUps(g, n - 1);
      assert NoneDueWithin(prev, 1);
      NoneDueAdvances(prev);
      assert PointerUps(g, n) == Advance(prev);
    }
  }

  /** Before the N-th pointer-up a session over N messages is still on
      screen, on message n after n pointer-ups, in any state and whatever
      other handlers are registered. */
  lemma BoxUpBeforeNthPointerUp(g: GameState, j: nat, k: nat)
    requires Valid(g) && j < |g.handlers| && k < |g.catalog|
    requires g.handlers[j] == Session(k, 0, Some(g.catalog[k].messages[0]))
    ensures forall n :: 0 <= n < |g.catalog[k].messages| ==>
      PointerUps(g, n).handlers[j] == Session(k, n, Some(g.catalog[k].messages[n]))
  {
    forall n | 0 <= n < |g.catalog[k].messages|
      ensures PointerUps(g, n).handlers[j] == Session(k, n, Some(g.catalog[k].messages[n]))
    {
      HandlerAtMessage(g, j, k, n);
    }
  }

  /** A session over N messages under the `"destroy"` policy closes on the
      N-th pointer-up (and not before, by `BoxUpBeforeNthPointerUp`), in any
      state and whatever other handlers are registered: its box goes, the
      game resumes and the entry stays triggerable. That control also stays
      away until then needs no other handler to complete;
      `OpenBeforeNthPointerUp` shows it for a lone session. */
  lemma SessionClosesOnNthPointerUp(g: GameState, j: nat, k: nat)
    requires Valid(g) && j < |g.handlers| && k < |g.catalog|
    requires g.handlers[j] == Session(k, 0, Some(g.catalog[k].messages[0]))
    requires g.catalog[k].onCompletion == DestroyTag
    ensures var done := PointerUps(g, |g.catalog[k].messages|);
      && done.active && done.handlers[j].shown.None?
      && !done.physicsPaused && !done.allAnimsPaused && Cat !in done.tweensPaused
      && done.catalog[k].playerCanTrigger
  {
    var m := |g.catalog[k].messages| - 1;
    HandlerAtMessage(g, j, k, m);
    NextPointerUpCloses(g, j, k, m);
  }

  /** The first dialogue of a run: from the scene's initial state, a frame
      in which the player touches the cat and holds Enter opens a session on
      the first message of the catalog entry named `name`. */
  lemma OpenFromRest(catalog: seq<DialogueEntry>, name: string, keys: Keys, k: nat)
    requires WellFormedCatalog(catalog) && keys.enter
    requires IsFirstMatch(catalog, name, k) && catalog[k].playerCanTrigger
    ensures var r := Step(Init(catalog), Frame(Some(Touch(Cat, name)), keys));
      && r.Success? && OnlySessionAt(r.value, k, 0) && !r.value.active
      && Cat in r.value.tweensPaused && Cat in r.value.npcAnimsPaused
      && !r.value.colliding.isColliding && r.value.colliding.collidingWith == Some(Cat)
  {
  }

  /** `update()` calls `enterDialogue` without looking at `active`: a frame
      that still reports the touch while a dialogue is open, with Enter held,
      registers a second handler and opens a second box on message 0. */
  lemma EnterIgnoresActive(g: GameState, keys: Keys, k: nat)
    requires Valid(g) && !g.active && g.colliding.isColliding && keys.enter
    requires IsFirstMatch(g.catalog, g.colliding.dialogueName.value, k)
    requires g.catalog[k].playerCanTrigger
    ensures var r := Update(g, keys);
      && r.Success? && !r.value.active
      && |r.value.handlers| == |g.handlers| + 1
      && r.value.handlers[|g.handlers|] == Session(k, 0, Some(g.catalog[k].messages[0]))
  {
  }

  /** The handler is never unregistered: once it has run the destroy
      completion it stays at the last message, and every later pointer-up
      runs `resumeGame` again, whatever else is going on. */
  lemma {:induction false} LeftoverHandlerResumesEveryPointerUp(g: GameState, j: nat, n: nat)
    requires Valid(g) && j < |g.handlers| && Completes(g.catalog, g.handlers[j]) && n >= 1
    ensures var r := PointerUps(g, n);
      && Completes(r.catalog, r.handlers[j]) && r.handlers[j].shown.None?
      && r.active && !r.physicsPaused && !r.allAnimsPaused && Cat !in r.tweensPaused
  {
    var prev := PointerUps(g, n - 1);
    if n > 1 {
      LeftoverHandlerResumesEveryPointerUp(g, j, n - 1);
    }
    assert Completes(prev.catalog, prev.handlers[j]);
    assert AnyCompletes(prev.catalog, prev.handlers, 0);
  }

  /** Consequence of the leftover handler: when a second dialogue is opened
      after a first one finished, the very first pointer-up hands control
      back to the player and resumes physics while the new box is still up
      and only on its second message. */
  lemma StaleHandlerEndsPauseEarly(g: GameState, k: nat)
    requires Valid(g) && !g.active && |g.handlers| == 2
    requires Completes(g.catalog, g.handlers[0])
    requires k < |g.catalog| && |g.catalog[k].messages| >= 2
    requires g.handlers[1] == Session(k, 0, Some(g.catalog[k].messages[0]))
    ensures var r := Advance(g);
      && r.active && !r.physicsPaused
      && r.handlers[1] == Session(k, 1, Some(g.catalog[k].messages[1]))
      && BoxOnScreen(r)
  {
    assert AnyCompletes(g.catalog, g.handlers, 0);
    assert Advance(g).handlers[1] == Stepped(g.catalog, g.handlers[1]);
  }

  /** Control is only ever taken away together with a dialogue box on screen. */
  predicate PauseHasBox(g: GameState) {
    !g.active ==> BoxOnScreen(g)
  }

  /** A pointer-up keeps `PauseHasBox`: control stays away only if no
      handler completed, and then every box that was up stays up. */
  lemma AdvanceKeepsPauseHasBox(g: GameState)
    requires Valid(g) && PauseHasBox(g)
    ensures PauseHasBox(Advance(g))
  {
  }

  /** A frame keeps `PauseHasBox`: it either opens a new box while taking
      control, or keeps every box and the control flag as they were. */
  lemma UpdateKeepsPauseHasBox(g: GameState, keys: Keys)
    requires Valid(g) && PauseHasBox(g)
    ensures Update(g, keys).Success? ==> PauseHasBox(Update(g, keys).value)
  {
  }

  /** One event of either kind keeps `PauseHasBox`; the converse is not kept
      (see `StaleHandlerEndsPauseEarly`). */
  lemma StepKeepsPauseHasBox(g: GameState, e: Event)
    requires Valid(g) && PauseHasBox(g)
    ensures Step(g, e).Success? ==> PauseHasBox(Step(g, e).value)
  {
  }

  /** `PauseHasBox` holds in every state a run reaches from a state that has it. */
  lemma {:induction false} RunKeepsPauseHasBox(g: GameState, es: seq<Event>)
    requires Valid(g) && PauseHasBox(g)
    ensures Run(g, es).Success? ==> PauseHasBox(Run(g, es).value)
    decreases |es|
  {
    if es != [] {
      StepKeepsPauseHasBox(g, es[0]);
      var s := Step(g, es[0]);
      if s.Success? {
        RunKeepsPauseHasBox(s.value, es[1..]);
      }
    }
  }
}
