/** The scene's one interaction, worked end to end on a concrete catalog:
    touch the cat with Enter held, then two pointer-ups. */
module Scenario {
  import opened Wrappers
  import opened GameModel
  import opened DialogueBox
  import opened Scene
  import opened Sessions

  const Meow: Message := Message("Cat", "Meow")
  const MeowAgain: Message := Message("Cat", "Meow again")

  function CatCatalog(canTrigger: bool): seq<DialogueEntry> {
    [DialogueEntry("cat_one", canTrigger, DestroyTag, [Meow, MeowAgain])]
  }

  /** Enter held, no direction. */
  const EnterOnly: Keys := Keys(false, false, false, false, false, false, false, false, true)

  /** Touching the cat with Enter opens the box on "Meow"; the first
      pointer-up shows "Meow again"; the second closes the box and gives
      control back with the entry still triggerable. */
  lemma CatDialogueScenario()
    ensures var g0 := Init(CatCatalog(true));
      var s1 := Step(g0, Frame(Some(Touch(Cat, "cat_one")), EnterOnly));
      && s1.Success? && !s1.value.active
      && s1.value.handlers == [Session(0, 0, Some(Meow))]
      && var s2 := Advance(s1.value);
      && !s2.active && s2.handlers == [Session(0, 1, Some(MeowAgain))]
      && var s3 := Advance(s2);
      && s3.active && !s3.physicsPaused && s3.handlers[0].shown.None?
      && s3.catalog[0].playerCanTrigger
  {
    var g0 := Init(CatCatalog(true));
    assert IsFirstMatch(g0.catalog, "cat_one", 0);
    OpenFromRest(CatCatalog(true), "cat_one", EnterOnly, 0);
    var s1 := Step(g0, Frame(Some(Touch(Cat, "cat_one")), EnterOnly)).value;
    OnePointerUpAdvances(s1, 0, 0);
    var s2 := Advance(s1);
    LastPointerUpCloses(s2, 0);
  }

  /** Enter held for two frames while touching the cat: the frame after the
      first box opened reports the touch again and opens a second box on the
      same entry. The first pointer-up moves both on to "Meow again" with
      control still away. */
  lemma HeldEnterScenario()
    ensures var g0 := Init(CatCatalog(true));
      var s1 := Step(g0, Frame(Some(Touch(Cat, "cat_one")), EnterOnly));
      && s1.Success?
      && var s2 := Step(s1.value, Frame(Some(Touch(Cat, "cat_one")), EnterOnly));
      && s2.Success? && !s2.value.active
      && s2.value.handlers == [Session(0, 0, Some(Meow)), Session(0, 0, Some(Meow))]
      && var s3 := PointerUps(s2.value, 1);
      && !s3.active && s3.handlers == [Session(0, 1, Some(MeowAgain)), Session(0, 1, Some(MeowAgain))]
  {
    var g0 := Init(CatCatalog(true));
    assert IsFirstMatch(g0.catalog, "cat_one", 0);
    OpenFromRest(CatCatalog(true), "cat_one", EnterOnly, 0);
    var s1 := Step(g0, Frame(Some(Touch(Cat, "cat_one")), EnterOnly)).value;
    var s2 := Step(s1, Frame(Some(Touch(Cat, "cat_one")), EnterOnly)).value;
    assert s2.handlers == [Session(0, 0, Some(Meow)), Session(0, 0, Some(Meow))];
    AwayWhileNoneDue(s2, 1);
  }

  /** With `playerCanTrigger` false the same frame opens nothing: control
      stays with the player and no handler is registered. */
  lemma LockedCatScenario()
    ensures var g0 := Init(CatCatalog(false));
      var s1 := Step(g0, Frame(Some(Touch(Cat, "cat_one")), EnterOnly));
      && s1.Success? && s1.value.active && s1.value.handlers == []
  {
    var g0 := Init(CatCatalog(false));
    assert IsFirstMatch(g0.catalog, "cat_one", 0);
  }

  /** Touching an entity whose dialogue name is missing from the catalog with
      Enter held aborts the frame with `DialogueNotFound`. */
  lemma MissingDialogueScenario()
    ensures var g0 := Init(CatCatalog(true));
      Step(g0, Frame(Some(Touch(Cat, "dog_one")), EnterOnly)) == Failure(DialogueNotFound("dog_one"))
  {
  }
}
