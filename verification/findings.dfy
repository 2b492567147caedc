/** Concrete sessions: the crash on Enter after choosing a category that has
    no records, a complete mention insertion, the splice anchoring on a
    different trigger than the detector, and the release of Escape showing
    the dropdown it has just hidden. */
module Findings {
  import opened Wrappers
  import opened Strings
  import opened Seqs
  import opened Editor
  import opened Mentions
  import opened Autocomplete

  /** One category, `x`, with an empty record list. */
  const EmptyCategory := Config(["x"], map["x" := []])

  /** A lone trigger with the caret after it. */
  const LoneTrigger := Surface([Text("@")], InText(0, 1))

  /** Release a key (the dropdown offers `x`), then Enter twice: the first
      chooses `x`, the second finds the open list empty. */
  const EnterTwice := [KeyUp(OtherKey), KeyDown(Enter), KeyDown(Enter)]

  /** The state after the key release: `x` offered and highlighted. */
  const Offered := Widget(LoneTrigger, true, None, false, 0, Categories(["x"]))

  /** The state after choosing `x`: the dropdown open on its empty list. */
  const Chosen := Widget(LoneTrigger, true, Some("x"), true, 0, Registros([]))

  lemma ReleaseOffersCategory()
    ensures HandleKeyUp(EmptyCategory, Init(LoneTrigger), OtherKey) == Success(Offered)
  {
    assert DetectQuery(LoneTrigger.doc, LoneTrigger.caret) == Some("");
    assert TypeMatches("", "x") by { IncludesEmpty(ToLower("x")); }
    assert FilterTypes(["x"], "") == ["x"];
  }

  /** Choosing a category right after a lone trigger leaves the text as it was. */
  lemma SpliceLoneTrigger()
    ensures FindTriggerNode(LoneTrigger.doc, LoneTrigger.caret) == Some(0)
    ensures SpliceTipo(LoneTrigger.doc, 0) == LoneTrigger
  {
    var sp := TriggerSplit("", "", false, "");
    assert Reassemble(sp) == "@";
    SplitUnique("@", sp);
    var r := SpliceTipo(LoneTrigger.doc, 0);
    assert |r.doc| == 1 && r.doc[0] == Text("@");
    assert r.doc == LoneTrigger.doc;
  }

  lemma ChooseX()
    ensures Confirm(EmptyCategory, Offered, 0) == Success(Chosen)
  {
    SpliceLoneTrigger();
    assert SelectTipo(EmptyCategory, Offered, "x") == Chosen;
  }

  lemma ChoosingEmptyCategoryOpensEmptyList()
    ensures Step(EmptyCategory, Offered, KeyDown(Enter), false) == Success(Chosen)
    ensures Step(EmptyCategory, Offered, KeyDown(Enter), true) == Success(Chosen)
  {
    assert Offered.open && Offered.selectedIndex == 0 && Offered.currentOptions.Length() == 1;
    assert HandleKeyDown(EmptyCategory, Offered, Enter) == Confirm(EmptyCategory, Offered, 0);
    assert HandleKeyDownGuarded(EmptyCategory, Offered, Enter) == Confirm(EmptyCategory, Offered, 0);
    ChooseX();
  }

  /** Enter on the open, empty list: item 0 is missing. */
  lemma EnterOnEmptyList()
    ensures Step(EmptyCategory, Chosen, KeyDown(Enter), false) == Failure(MissingItem)
    ensures Step(EmptyCategory, Chosen, KeyDown(Enter), true) == Success(Chosen)
  {
    assert Chosen.currentOptions.Length() == 0;
  }

  lemma LastEnter(guarded: bool)
    ensures Run(EmptyCategory, Chosen, [KeyDown(Enter)], guarded)
         == if guarded then Success(Chosen) else Failure(MissingItem)
  {
    EnterOnEmptyList();
    assert [KeyDown(Enter)][1..] == [];
  }

  lemma BothEnters(guarded: bool)
    ensures Run(EmptyCategory, Offered, [KeyDown(Enter), KeyDown(Enter)], guarded)
         == if guarded then Success(Chosen) else Failure(MissingItem)
  {
    ChoosingEmptyCategoryOpensEmptyList();
    LastEnter(guarded);
    assert [KeyDown(Enter), KeyDown(Enter)][1..] == [KeyDown(Enter)];
  }

  /** As written, the second Enter throws: item 0 of the empty list is
      clicked. The guarded version ignores it. */
  lemma EnterOnEmptyCategoryThrows()
    ensures Run(EmptyCategory, Init(LoneTrigger), EnterTwice, false) == Failure(MissingItem)
    ensures Run(EmptyCategory, Init(LoneTrigger), EnterTwice, true) == Success(Chosen)
  {
    ReleaseOffersCategory();
    BothEnters(false);
    BothEnters(true);
    assert EnterTwice[1..] == [KeyDown(Enter), KeyDown(Enter)];
  }

  // ---------------------------------------------------------------------
  // A complete mention
  // ---------------------------------------------------------------------

  const Red := Record(Some("Red"), None)
  const Green := Record(Some("Green"), None)
  const Seven := Record(None, Some("Seven"))

  const Palette := Config(["colors", "numbers"], map["colors" := [Red, Green], "numbers" := [Seven]])

  /** "hi @col" with the caret at its end. */
  const Typed := Surface([Text("hi @col")], InText(0, 7))

  /** Release a key, Enter on `colors`, ArrowDown to `Green`, Enter. */
  const PickGreen := [KeyUp(OtherKey), KeyDown(Enter), KeyDown(ArrowDown), KeyDown(Enter)]

  const OfferedColors := Widget(Typed, true, None, false, 0, Categories(["colors"]))

  /** After `selectTipo`: the query is gone and the caret follows the trigger. */
  const Searching := Widget(Surface([Text("hi @")], InText(0, 4)), true, Some("colors"), true, 0, Registros([Red, Green]))

  /** The final text: the token for `Green` between "hi " and a space. */
  const Mentioned := Surface([Text("hi "), Mention("colors", "Colors:Green"), Text(" ")], Boundary(3))

  lemma DetectCol()
    ensures DetectQuery(Typed.doc, Typed.caret) == Some("col")
  {
    assert Typed.doc[0].s == "hi @col";
    assert "hi @col"[..7] == "hi @col";
    assert TextBeforeCaret(Typed.doc, Typed.caret) == Some("hi @col");
    assert "hi @col"[4..] == "col";
    LastIndexOfUnique("hi @col", Trigger, 3);
    assert ToLower("col") == "col";
  }

  lemma ColMatchesColorsOnly()
    ensures TypeMatches("col", "colors") && !TypeMatches("col", "numbers")
  {
    ColMatchesColors();
    ColMissesNumbers();
  }

  lemma ColMatchesColors()
    ensures TypeMatches("col", "colors")
  {
    assert ToLower("colors") == "colors";
    assert "colors"[..3] == "col";
    assert IsPrefix("col", "colors");
  }

  lemma ColMissesNumbers()
    ensures !TypeMatches("col", "numbers")
  {
    assert ToLower("numbers") == "numbers";
    assert 'c' !in "numbers";
    IncludesNeedsFirst("numbers", "col");
  }

  lemma ColQueryOffersColors()
    ensures HandleKeyUp(Palette, Init(Typed), OtherKey) == Success(OfferedColors)
  {
    DetectCol();
    FilterCol();
    assert KeyUpQuery(Init(Typed), OtherKey) == Some("col");
  }

  lemma FilterCol()
    ensures FilterTypes(Palette.types, "col") == ["colors"]
  {
    ColMatchesColorsOnly();
    var s := Palette.types;
    var p := t => TypeMatches("col", t);
    assert s[1..] == ["numbers"] && s[1..][1..] == [];
    assert Filter(s[1..][1..], p) == [];
    assert Filter(s[1..], p) == [];
    assert Filter(s, p) == ["colors"];
  }

  lemma ChooseColorsSplices()
    ensures FindTriggerNode(Typed.doc, Typed.caret) == Some(0)
    ensures SpliceTipo(Typed.doc, 0) == Searching.surface
  {
    assert Typed.doc[0].s == "hi @col";
    var sp := TriggerSplit("hi ", "col", false, "");
    assert Tail(sp) == [];
    assert Reassemble(sp) == "hi @col";
    SplitUnique("hi @col", sp);
    assert sp.before + [Trigger] == "hi @";
    var r := SpliceTipo(Typed.doc, 0);
    assert |r.doc| == 1 && r.doc[0] == Text("hi @");
    assert r.doc == [Text("hi @")];
  }

  lemma ChooseGreenSplices()
    ensures FindTriggerNode(Searching.surface.doc, Searching.surface.caret) == Some(0)
    ensures SpliceRegistro(Searching.surface.doc, 0, MentionFor("colors", Green)) == Mentioned
  {
    assert Searching.surface.doc[0].s == "hi @";
    var sp := TriggerSplit("hi ", "", false, "");
    assert Tail(sp) == [];
    assert Reassemble(sp) == "hi @";
    SplitUnique("hi @", sp);
    LabelOfGreen();
    var token := MentionFor("colors", Green);
    assert token == Mention("colors", "Colors:Green");
    var r := SpliceRegistro(Searching.surface.doc, 0, token);
    assert |r.doc| == 3 && r.doc[0] == Text("hi ") && r.doc[1] == token && r.doc[2] == Text(" ");
    assert r.doc == Mentioned.doc;
  }

  lemma LabelOfGreen()
    ensures ToLower("colors") == "colors"
    ensures MentionLabel("colors", Green) == "Colors:Green"
  {
    assert ToLower("colors") == "colors";
    var c := Capitalise("colors");
    assert c == "Colors";
    assert Interpolate(DisplayName(Green)) == "Green";
  }

  const Down := Searching.(selectedIndex := 1)

  const Final := Widget(Mentioned, false, None, false, 1, Registros([Red, Green]))

  lemma PickGreenStep1(guarded: bool)
    ensures Step(Palette, Init(Typed), KeyUp(OtherKey), guarded) == Success(OfferedColors)
  {
    ColQueryOffersColors();
  }

  lemma ChooseColors()
    ensures Confirm(Palette, OfferedColors, 0) == Success(Searching)
  {
    ChooseColorsSplices();
    assert SelectTipo(Palette, OfferedColors, "colors") == Searching;
  }

  lemma PickGreenStep2(guarded: bool)
    ensures Step(Palette, OfferedColors, KeyDown(Enter), guarded) == Success(Searching)
  {
    ChooseColors();
  }

  lemma PickGreenStep3(guarded: bool)
    ensures Step(Palette, Searching, KeyDown(ArrowDown), guarded) == Success(Down)
  {
    assert NavigateOptions(0, 2, 1) == 1;
  }

  lemma GreenRegistro()
    ensures SelectRegistro(Down, Green) == Final
  {
    ChooseGreenSplices();
    assert Down.surface == Searching.surface && Down.tipoSelecionado == Some("colors");
  }

  lemma ChooseGreen()
    ensures Confirm(Palette, Down, 1) == Success(Final)
  {
    assert Down.currentOptions == Registros([Red, Green]) && Down.tipoSelecionado.Some?;
    assert Confirm(Palette, Down, 1) == Success(SelectRegistro(Down, Green));
    GreenRegistro();
  }

  lemma PickGreenStep4(guarded: bool)
    ensures Step(Palette, Down, KeyDown(Enter), guarded) == Success(Final)
  {
    assert Down.open && Down.selectedIndex == 1 && Down.currentOptions.Length() == 2;
    assert HandleKeyDown(Palette, Down, Enter) == Confirm(Palette, Down, 1);
    assert HandleKeyDownGuarded(Palette, Down, Enter) == Confirm(Palette, Down, 1);
    ChooseGreen();
  }

  lemma MentionedTokens()
    ensures Tokens(Mentioned.doc) == [Mention("colors", "Colors:Green")]
  {
    var d := Mentioned.doc;
    assert d[1..] == [Mention("colors", "Colors:Green"), Text(" ")];
    assert d[1..][1..] == [Text(" ")] && d[1..][1..][1..] == [];
  }

  /** The whole session inserts one token, `Colors:Green` of category
      `colors`, and ends idle; both versions of the keydown handler agree. */
  lemma PickGreenInsertsMention(guarded: bool)
    ensures Run(Palette, Init(Typed), PickGreen, guarded) == Success(Final)
    ensures Idle(Final) && Tokens(Final.surface.doc) == [Mention("colors", "Colors:Green")]
  {
    PickGreenStep1(guarded);
    PickGreenAfterRelease(guarded);
    assert PickGreen[1..] == [KeyDown(Enter), KeyDown(ArrowDown), KeyDown(Enter)];
    MentionedTokens();
  }

  lemma PickGreenAfterRelease(guarded: bool)
    ensures Run(Palette, OfferedColors, [KeyDown(Enter), KeyDown(ArrowDown), KeyDown(Enter)], guarded)
         == Success(Final)
  {
    PickGreenStep2(guarded);
    PickGreenAfterChoice(guarded);
    assert [KeyDown(Enter), KeyDown(ArrowDown), KeyDown(Enter)][1..] == [KeyDown(ArrowDown), KeyDown(Enter)];
  }

  lemma PickGreenAfterChoice(guarded: bool)
    ensures Run(Palette, Searching, [KeyDown(ArrowDown), KeyDown(Enter)], guarded) == Success(Final)
  {
    PickGreenStep3(guarded);
    PickGreenLast(guarded);
    assert [KeyDown(ArrowDown), KeyDown(Enter)][1..] == [KeyDown(Enter)];
  }

  lemma PickGreenLast(guarded: bool)
    ensures Run(Palette, Down, [KeyDown(Enter)], guarded) == Success(Final)
  {
    PickGreenStep4(guarded);
    assert [KeyDown(Enter)][1..] == [];
  }

  // ---------------------------------------------------------------------
  // The splice's anchor
  // ---------------------------------------------------------------------

  /** "@ a@b" with the caret right after the first trigger. */
  const TwoTriggers := Surface([Text("@ a@b")], InText(0, 1))

  /** The detector's query is the empty text after the first trigger, but
      the splice cuts at the last trigger of the whole node, deleting "b"
      and leaving the caret at offset 4. */
  lemma SpliceIgnoresDetectedTrigger()
    ensures DetectQuery(TwoTriggers.doc, TwoTriggers.caret) == Some("")
    ensures FindTriggerNode(TwoTriggers.doc, TwoTriggers.caret) == Some(0)
    ensures SpliceTipo(TwoTriggers.doc, 0) == Surface([Text("@ a@")], InText(0, 4))
  {
    assert TwoTriggers.doc[0].s == "@ a@b";
    assert "@ a@b"[..1] == "@";
    assert TextBeforeCaret(TwoTriggers.doc, TwoTriggers.caret) == Some("@");
    LastIndexOfUnique("@", Trigger, 0);
    assert "@"[1..] == [];
    var sp := TriggerSplit("@ a", "b", false, "");
    assert Tail(sp) == [];
    assert Reassemble(sp) == "@ a@b";
    SplitUnique("@ a@b", sp);
    assert sp.before + [Trigger] == "@ a@";
    var r := SpliceTipo(TwoTriggers.doc, 0);
    assert |r.doc| == 1 && r.doc[0] == Text("@ a@");
    assert r.doc == [Text("@ a@")];
  }

  // ---------------------------------------------------------------------
  // The release of Escape
  // ---------------------------------------------------------------------

  /** The categories offered for "hi @col", hidden by Escape. */
  const Dismissed := OfferedColors.(open := false)

  lemma EscapeHides(guarded: bool)
    ensures Step(Palette, OfferedColors, KeyDown(Escape), guarded) == Success(Dismissed)
  {
  }

  /** As written, the release finds the dropdown hidden, skips the early
      return and detects "col" again. */
  lemma EscapeReleaseShows()
    ensures Step(Palette, Dismissed, KeyUp(Escape), false) == Success(OfferedColors)
  {
    DetectCol();
    FilterCol();
    assert KeyUpQuery(Dismissed, Escape) == Some("col");
  }

  lemma EscapeReleaseLast(guarded: bool)
    ensures Run(Palette, Dismissed, [KeyUp(Escape)], guarded)
         == if guarded then Success(Dismissed) else Success(OfferedColors)
  {
    if !guarded {
      EscapeReleaseShows();
    }
    assert [KeyUp(Escape)][1..] == [];
  }

  /** Pressing and releasing Escape on the offered categories of "hi @col":
      as written the list is displayed again; with the release ignored it
      stays hidden. */
  lemma EscapeReleaseReopens()
    ensures Run(Palette, OfferedColors, [KeyDown(Escape), KeyUp(Escape)], false) == Success(OfferedColors)
    ensures Run(Palette, OfferedColors, [KeyDown(Escape), KeyUp(Escape)], true) == Success(Dismissed)
  {
    assert [KeyDown(Escape), KeyUp(Escape)][1..] == [KeyUp(Escape)];
    EscapeHides(false);
    EscapeReleaseLast(false);
    EscapeHides(true);
    EscapeReleaseLast(true);
  }
}
