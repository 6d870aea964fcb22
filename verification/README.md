# Interaction and dialogue state machine of a top-down Phaser game

This project models the decision logic of a small Phaser 3 tile-world game:
the scene's `update()` frame (directional movement, touching the cat,
entering a dialogue, pausing and resuming the cat) and the dialogue box
(`enterDialogue`, its `pointerup` handler and `resumeGame`). Everything is a
pure function over one immutable `GameState` record; the engine's
rendering, physics and tweens are reduced to the flags the code sets.

Modules, one per concern:

- `Wrappers` (`wrappers.dfy`): `Option` for `null`, `Result` for a thrown fault.
- `GameModel` (`game_state.dfy`): the `gameState` record with its
  `collidingData`, the player sprite, the engine-wide pause flags
  (all animations, physics), per-entity pause sets for tweens and sprite
  animations, the dialogue catalog, and the list of registered
  `pointerup` handlers; the invariant `Valid` and the initial state `Init`.
- `Movement` (`movement.dfy`): the `active` branch with its priority
  chain down > up > left > right, velocity ±150, mirroring, the idle
  freeze, and the inactive branch that stops the player and pauses
  animations, physics and the cat's tween.
- `DialogueBox` (`dialogue_box.dfy`): catalog lookup (first match),
  the `playerCanTrigger` gate, opening a session at message 0, one
  pointer-up per message, and the `"destroy"` completion. A pointer-up is
  both the emitter's sequential loop over the handlers (`RunHandlers`) and
  its net effect (`Advance`), and the two are proved equal.
- `Scene` (`scene.dfy`): the overlap callback, `update()` as one function
  `Update`, and `Run` over a stream of frame and pointer-up events.
- `Sessions` (`sessions.dfy`): properties of sequences of pointer-ups and
  of whole runs, including the two quirks of the code.
- `Scenario` (`scenario.dfy`): the `cat_one` interaction on a concrete catalog.

Design points that follow the code:

- Each `enterDialogue` registers one more `pointerup` handler and none is
  ever removed, so the state holds `handlers: seq<Session>` and a pointer-up
  runs every handler in registration order. A handler that completed stays
  at its last message and re-runs `resumeGame` on every later pointer-up
  (`Sessions.LeftoverHandlerResumesEveryPointerUp`). When a second dialogue
  is opened later, that leftover handler gives control back on the first
  pointer-up while the new box is still on its second message
  (`Sessions.StaleHandlerEndsPauseEarly`). So "control is away" implies "a
  box is on screen" (`Sessions.RunKeepsPauseHasBox`), but the converse does
  not hold.
- `update()` calls `enterDialogue` without looking at `active`
  (`Sessions.EnterIgnoresActive`). Touching with Enter down, on a name
  whose first catalog entry is triggerable, opens a session from any state
  in which a touch is reported, including right after a dialogue closed
  (`Scene.TouchWithEnterOpens`; see "Left out" on when the game reports
  touches).
- `update()` clears the touch flag as its last statement
  (js/SceneMain.js line 192).
- A catalog miss makes the code read a property of `undefined` and throw;
  the model returns `Failure(DialogueNotFound(name))` from `EnterDialogue`,
  and `Update` aborts the frame with it.
- The completion writes `playerCanTrigger = true` into the shared catalog
  entry. Only a triggerable entry can have a handler, so this write never
  changes anything: `Run` proves the catalog is the same in every reached
  state.
- `onCompletion` stays a string compared with `"destroy"`, as in the code;
  any other tag makes the last pointer-up do nothing.
- The physics engine decides when the overlap callback fires; a frame
  event carries that decision as an optional `Touch(who, dialogueName)`.
  The scene registers the callback for the cat with the name `"cat_one"`.
- The dialogue catalog file is not part of this model. The catalog is a
  parameter held in the state, and every entry is required to have at least
  one message, since the code reads `messages[0]` unguarded.

## Model

| member | source | states |
|---|---|---|
| GameModel.Init | js/SceneMain.js:3-10 | The initial state is well formed, control is active, nothing is touched, nothing is paused and no box is up. |
| Movement.Select | js/SceneMain.js:147-171 | The chosen motion follows the priority rule: idle exactly when no direction is held, otherwise a held direction that no other held direction outranks; a direction counts as held when its arrow key or its W/A/S/D key is down. |
| Movement.PriorityIsUnique | js/SceneMain.js:148-167 | The priority rule admits exactly one motion, the one the if/else-if chain picks. |
| Movement.Move | js/SceneMain.js:147-179 | When active and moving, the active axis gets ±150 with the sign of the direction and the other axis 0, mirroring is on exactly when moving right, and the walk animation plays; when active and idle, velocity is (0,0) and the animation is paused on its current key; when inactive, velocity is (0,0) whatever the input and all animations, physics and the cat's tween are paused; nothing outside the player and these flags changes. |
| Movement.FlipOnlyWhenMovingRight | js/SceneMain.js:152-167 | Among moving states, flipX is true only for moving right. |
| Movement.InactiveIgnoresInput | js/SceneMain.js:173-179 | With control inactive, the frame's movement result does not depend on the keys and the player stands still. |
| DialogueBox.FindFrom | js/components/dialogue/dialogueBox.js:8 | The scan returns the first position at or after the start whose entry has the name, or nothing when none has it. |
| DialogueBox.Find | js/components/dialogue/dialogueBox.js:8 | Lookup returns the first catalog entry with the name, and nothing exactly when no entry has it. |
| DialogueBox.EnterDialogue | js/components/dialogue/dialogueBox.js:5-53 | Faults with DialogueNotFound exactly when no entry has the name; a non-triggerable entry leaves the state unchanged; otherwise control goes inactive and one new handler is appended at index 0 showing the first message's author and text, with nothing else changed. |
| DialogueBox.Stepped | js/components/dialogue/dialogueBox.js:54-64 | A pointer-up moves a handler's index up by exactly one when it is before the last message and shows that message; the index never decreases or leaves range; the box is taken down exactly by the destroy completion. |
| DialogueBox.ResumeGame | js/components/dialogue/dialogueBox.js:40-48 | Afterwards control is active, engine-wide animations and physics run, the cat's tween is resumed and no other entity's; sprite-level animation pauses, the catalog, the player, the touch record and every other handler are unchanged, and this handler keeps its entry and index with its box gone. |
| DialogueBox.ResumeUndoesInactivePause | js/components/dialogue/dialogueBox.js:44-47 | After a frame with control away has paused animations, physics and the cat's tween, resumeGame gives control back and lifts exactly those pauses. |
| DialogueBox.OtherPolicyDoesNothing | js/components/dialogue/dialogueBox.js:58-64 | A pointer-up on the last message of an entry whose completion tag is not "destroy" leaves the whole state unchanged. |
| DialogueBox.Fire | js/components/dialogue/dialogueBox.js:53-65 | One handler reacts: only its own entry in the list changes; control returns and the pauses lift exactly when it completes under destroy; the catalog, player and touch record are untouched and the state stays well formed. |
| DialogueBox.RunHandlers | js/components/dialogue/dialogueBox.js:53-65 | Running the handlers from a position on steps each of them once and leaves earlier ones alone; control returns and the pauses lift exactly when one of them completes under destroy. |
| DialogueBox.AnyCompletesAfterFire | js/components/dialogue/dialogueBox.js:53-65 | After one handler fires, "some handler from here on completes" splits into this handler completing or one of the later, untouched handlers completing. |
| DialogueBox.Advance | js/components/dialogue/dialogueBox.js:53-65 | A pointer-up keeps the state well formed: every handler still refers to a triggerable entry, its index stays within the entry's messages and its box shows its current message or is gone only after the destroy completion. |
| DialogueBox.AdvanceIsSequentialRun | js/components/dialogue/dialogueBox.js:53-65 | The net effect of a pointer-up (every handler stepped once; control returned and physics, animations and the cat's tween resumed exactly when some handler runs the destroy completion; catalog unchanged) equals the emitter calling each registered handler in registration order on the state the previous one left. |
| Scene.OnOverlap | js/SceneMain.js:135-139 | The overlap callback sets the touch flag, the touched entity and its dialogue name, changes nothing else and keeps the state well formed. |
| Scene.HandleTouch | js/SceneMain.js:181-190 | The touch branch of a frame keeps the state well formed. |
| Scene.Update | js/SceneMain.js:145-193 | After a frame the touch flag is false while the touched entity and name are kept; the player is what the movement branch set; the frame faults with DialogueNotFound exactly when touching with Enter down and no catalog entry has the touched entity's dialogue name. |
| Scene.TouchWithEnterOpens | js/SceneMain.js:181-183 | In any state, touching with Enter down on a name whose first catalog entry is triggerable succeeds, takes control away and appends one handler at message 0 showing the first message, keeping every existing handler; this holds whether or not control was active. |
| Scene.TouchPausesEntity | js/SceneMain.js:181-186 | While touching, the touched entity's tween and animation are paused after the frame, with or without Enter. |
| Scene.EnterOnlyOnTouchWithEnter | js/SceneMain.js:181-184 | Unless touching with Enter down, a frame succeeds, adds no handler and leaves control as it was. |
| Scene.FrameOnlyAppendsHandlers | js/SceneMain.js:181-184 | A frame keeps every existing handler, adds at most one, and takes control away only by adding a handler at message 0 with its box up. |
| Scene.ResumeOnlyWhenLeftAndActive | js/SceneMain.js:187-190 | The last-touched entity's tween and animation run after the frame when it is not touched, was touched before and control is active; in every other case no entity is resumed. |
| Scene.Step | js/SceneMain.js:135-193 | A frame or pointer-up keeps the state well formed and the catalog unchanged, adds at most one handler and removes none; a pointer-up is exactly Advance. |
| Scene.Run | js/SceneMain.js:135-193 | Over any stream of events every reached state is well formed (each handler's index within its entry's messages) and the catalog is never altered; each event adds at most one handler and none is removed. |
| Sessions.PointerUps | js/components/dialogue/dialogueBox.js:53-65 | Any number of pointer-ups keeps the state well formed and the catalog, player, touch record and handler count unchanged. |
| Sessions.IndexMonotoneAndBounded | js/components/dialogue/dialogueBox.js:51-57 | Across any number of pointer-ups a handler keeps its entry and its index never decreases and stays below the entry's message count. |
| Sessions.OnePointerUpAdvances | js/components/dialogue/dialogueBox.js:54-57 | With one session before its last message, a pointer-up moves it to the next message, shown on screen, and changes nothing else. |
| Sessions.StillOpenBeforeLast | js/components/dialogue/dialogueBox.js:51-57 | After n pointer-ups on a freshly opened single session, with n below the message count, the session is at message n with the box up and control still away. |
| Sessions.LastPointerUpCloses | js/components/dialogue/dialogueBox.js:58-64 | In any well-formed state, whatever other handlers are registered, the pointer-up on handler j's last message under destroy takes that handler's box down, keeps its index, makes control active, resumes animations, physics and the cat's tween, and leaves the entry triggerable. |
| Sessions.HandlerAtMessage | js/components/dialogue/dialogueBox.js:51-57 | In any well-formed state, whatever other handlers are registered, a handler j freshly opened on entry k is on message n with that message on screen after n pointer-ups, for every n below the entry's message count. |
| Sessions.BoxUpBeforeNthPointerUp | js/components/dialogue/dialogueBox.js:51-57 | For every n below N, handler j of an N-message session still shows message n after n pointer-ups, in any well-formed state and whatever other handlers are registered. |
| Sessions.NextPointerUpCloses | js/components/dialogue/dialogueBox.js:58-64 | If handler j of entry k is on the entry's last message after n pointer-ups, the next pointer-up closes it under destroy: box gone, control active, pauses lifted, entry triggerable. |
| Sessions.NoneDueAdvances | js/components/dialogue/dialogueBox.js:53-57 | When no registered handler is on its entry's last message, a pointer-up runs no completion, moves every handler on by one message with that message on screen, and changes nothing else. |
| Sessions.AwayWhileNoneDue | js/components/dialogue/dialogueBox.js:51-64 | With control away and every handler more than n messages from its entry's end, control is still away after n pointer-ups and every handler has moved on exactly n messages with its box up, however many handlers are registered. |
| Sessions.OpenBeforeNthPointerUp | js/components/dialogue/dialogueBox.js:51-57 | For a session that is the only registered handler, every pointer-up before the N-th leaves its box up with control away (the lone-handler instance of `Sessions.AwayWhileNoneDue`). |
| Sessions.SessionClosesOnNthPointerUp | js/components/dialogue/dialogueBox.js:51-64 | In any well-formed state, whatever other handlers are registered, a handler j opened on an N-message destroy entry completes on the N-th pointer-up: control active, its box gone, pauses lifted, entry triggerable. |
| Sessions.OpenFromRest | js/SceneMain.js:135-192 | From the initial state, a frame touching the cat with Enter down opens a single session on the first matching entry's first message, takes control away, pauses the cat and clears the touch flag. |
| Sessions.EnterIgnoresActive | js/SceneMain.js:181-183 | With a dialogue already open, a frame that reports the touch with Enter down still enters the dialogue and registers a second handler at message 0. |
| Sessions.LeftoverHandlerResumesEveryPointerUp | js/components/dialogue/dialogueBox.js:53-63 | A handler that reached its destroy completion stays registered and makes every later pointer-up give control back and lift all pauses. |
| Sessions.StaleHandlerEndsPauseEarly | js/components/dialogue/dialogueBox.js:40-60 | With a leftover completed handler and a newly opened multi-message session, the first pointer-up gives control back while the new box is still up on its second message. |
| Sessions.AdvanceKeepsPauseHasBox | js/components/dialogue/dialogueBox.js:40-62 | A pointer-up keeps the rule that control is away only while some box is on screen. |
| Sessions.UpdateKeepsPauseHasBox | js/SceneMain.js:181-192 | A frame keeps the rule that control is away only while some box is on screen. |
| Sessions.StepKeepsPauseHasBox | js/components/dialogue/dialogueBox.js:12-47 | Any single event keeps the rule that control is away only while some box is on screen. |
| Sessions.RunKeepsPauseHasBox | js/components/dialogue/dialogueBox.js:12-47 | Every state of a run keeps the rule that control is away only while some box is on screen. |
| Scenario.CatDialogueScenario | js/components/dialogue/dialogueBox.js:8-64 | With the two-message cat_one entry, touching the cat with Enter shows ("Cat","Meow"), one pointer-up shows ("Cat","Meow again"), the second closes the box, returns control and leaves the entry triggerable. |
| Scenario.HeldEnterScenario | js/SceneMain.js:135-192 | With Enter held for two frames while touching the cat, the second frame opens a second box on the same entry; the first pointer-up moves both to ("Cat","Meow again") with control still away. |
| Scenario.LockedCatScenario | js/components/dialogue/dialogueBox.js:11 | With playerCanTrigger false, touching the cat with Enter opens nothing and control stays active. |
| Scenario.MissingDialogueScenario | js/components/dialogue/dialogueBox.js:8-11 | A name missing from the catalog aborts the frame with DialogueNotFound. |

## Left out

- Asset loading, tilemap layers, collision-by-property, depths and the camera in `preload`/`create`: declarative engine setup with no decisions.
- Overlap geometry and physics integration: whether bodies overlap is decided by the physics engine and enters as an input of each frame.
- Tween motion (target x, duration, yoyo and the cat's flip callbacks): timing- and float-driven engine behaviour; only a paused/running flag per entity is kept.
- Box and text coordinates, scale and depth: rendering layout; only the (author, text) pair each box shows is kept.
- Engine animation semantics: `anims.play(key, true)` is modelled as "this key is current and running", and a sprite-level pause as a flag; the engine's handling of replaying a paused key is not modelled.
- index.js: game configuration and bootstrap only.
- The contents of the dialogue catalog file: the catalog is a parameter.
- Scene.Update: on a catalog miss the code has already applied the movement half of the frame when it throws; the model discards the whole frame and reports only the fault.
- Pausing physics does not stop overlap reports: `physics.pause()` (js/SceneMain.js line 177) halts the world step that runs the overlap callback (lines 135-139), but the model never reads `physicsPaused` and lets any frame carry a touch. The model therefore reaches every state the game reaches and more, so the invariants proved for it hold for the game; a touch while control is away (`Sessions.EnterIgnoresActive`, `Scene.TouchWithEnterOpens` from a paused state) arises in the game only in a frame whose world step ran before `update()` paused physics, such as the frame right after a dialogue opened.
- GameModel.Init: every catalog entry is required to have at least one message; the code would throw on `messages[0]` of an empty entry after already setting `active` to false, and that partial effect is not modelled.
