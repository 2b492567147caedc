/** The widget's state machine: `handleKeyUp`, `handleKeyDown`,
    `navigateOptions`, a click or mouse-over on an option, `selectTipo`,
    `selectRegistro` and `hideAutocomplete`, over the editor model. */
module Autocomplete {
  import opened Wrappers
  import opened Strings
  import opened Seqs
  import opened Editor
  import opened Mentions

  /** The constructor's options: the category names and the records of each. */
  datatype Config = Config(types: seq<string>, data: map<string, seq<Record>>)

  /** Every category offered in the dropdown has its records. */
  predicate WellFormed(cfg: Config) {
    forall t :: t in cfg.types ==> t in cfg.data
  }

  /** `currentOptions`, tagged with the click handler its items were
      rendered with: `showAutocomplete` (categories) or
      `showAutocompleteRegistros` (records). */
  datatype Listing = Categories(names: seq<string>) | Registros(records: seq<Record>)
  {
    function Length(): nat {
      match this
      case Categories(names) => |names|
      case Registros(records) => |records|
    }
  }

  datatype Key = ArrowDown | ArrowUp | Enter | Escape | OtherKey

  /** Why a step throws: an item index with no item behind it, a category
      missing from `data`, or no selected category. */
  datatype Fault = MissingItem | UnknownCategory | NoCategory

  /** The editor and the widget's fields; `open` is the dropdown's
      `display === 'block'`. */
  datatype Widget = Widget(
    surface: Surface,
    open: bool,
    tipoSelecionado: Option<string>,
    buscandoRegistro: bool,
    selectedIndex: int,
    currentOptions: Listing)

  /** The state the constructor leaves. */
  function Init(surface: Surface): Widget {
    Widget(surface, false, None, false, -1, Categories([]))
  }

  /** `hideAutocomplete`: only the dropdown's display changes; the category
      session, the highlight and the options are kept. */
  function HideAutocomplete(w: Widget): (r: Widget)
    ensures !r.open
    ensures r.surface == w.surface && r.selectedIndex == w.selectedIndex && r.currentOptions == w.currentOptions
    ensures r.tipoSelecionado == w.tipoSelecionado && r.buscandoRegistro == w.buscandoRegistro
  {
    w.(open := false)
  }

  /** No category session is under way. */
  predicate Idle(w: Widget) {
    !w.open && !w.buscandoRegistro && w.tipoSelecionado.None?
  }

  // ---------------------------------------------------------------------
  // handleKeyUp
  // ---------------------------------------------------------------------

  /** The keys `handleKeyUp` ignores while the dropdown is open. */
  predicate IsNavigationKey(key: Key) {
    key == ArrowDown || key == ArrowUp || key == Enter || key == Escape
  }

  /** The categories offered for a query. */
  function FilterTypes(types: seq<string>, q: string): (r: seq<string>)
    ensures forall t :: t in r <==> t in types && TypeMatches(q, t)
    ensures forall t :: multiset(r)[t] == if TypeMatches(q, t) then multiset(types)[t] else 0
    ensures Subsequence(r, types)
  {
    Filter(types, t => TypeMatches(q, t))
  }

  /** The records offered for a query. */
  function FilterRecords(records: seq<Record>, q: string): (r: seq<Record>)
    ensures forall x :: x in r <==> x in records && RecordMatches(q, x)
    ensures forall x :: multiset(r)[x] == if RecordMatches(q, x) then multiset(records)[x] else 0
    ensures Subsequence(r, records)
  {
    Filter(records, x => RecordMatches(q, x))
  }

  /** Typing more after the trigger only narrows the categories offered. */
  lemma FilterTypesNarrows(types: seq<string>, q: string, more: string)
    ensures forall t :: t in FilterTypes(types, q + more) ==> t in FilterTypes(types, q)
  {
    forall t | t in FilterTypes(types, q + more)
      ensures t in FilterTypes(types, q)
    {
      IncludesExtend(ToLower(t), q, more);
    }
  }

  /** Typing more after the trigger only narrows the records offered. */
  lemma FilterRecordsNarrows(records: seq<Record>, q: string, more: string)
    ensures forall x :: x in FilterRecords(records, q + more) ==> x in FilterRecords(records, q)
  {
    forall x | x in FilterRecords(records, q + more)
      ensures x in FilterRecords(records, q)
    {
      if x.nome.Some? && Includes(ToLower(x.nome.value), q + more) {
        IncludesExtend(ToLower(x.nome.value), q, more);
      } else {
        IncludesExtend(ToLower(x.descricao.value), q, more);
      }
    }
  }

  /** The empty query, right after typing the trigger, offers every category. */
  lemma EmptyQueryOffersAll(types: seq<string>)
    ensures FilterTypes(types, []) == types
  {
    forall t | t in types ensures TypeMatches([], t) {
      IncludesEmpty(ToLower(t));
    }
    AllPass(types, t => TypeMatches([], t));
  }

  /** The query `handleKeyUp` acts on: none when it returns early or finds no
      trigger before the caret. */
  function KeyUpQuery(w: Widget, key: Key): Option<string> {
    if w.open && IsNavigationKey(key) then None else DetectQuery(w.surface.doc, w.surface.caret)
  }

  /** `handleKeyUp`: re-detects the query and re-filters the options. */
  function HandleKeyUp(cfg: Config, w: Widget, key: Key): (r: Result<Widget, Fault>)
    ensures w.open && IsNavigationKey(key) ==> r == Success(w)
    ensures (!(w.open && IsNavigationKey(key)) && TextBeforeCaret(w.surface.doc, w.surface.caret).None?)
      ==> r == Success(w)
    ensures (!(w.open && IsNavigationKey(key)) && TextBeforeCaret(w.surface.doc, w.surface.caret).Some?
             && KeyUpQuery(w, key).None?)
      ==> r == Success(w.(open := false))
    ensures r.Failure? <==> (KeyUpQuery(w, key).Some? && w.buscandoRegistro
                             && !(w.tipoSelecionado.Some? && w.tipoSelecionado.value in cfg.data))
    ensures r.Success? ==> && r.value.surface == w.surface
                           && r.value.tipoSelecionado == w.tipoSelecionado
                           && r.value.buscandoRegistro == w.buscandoRegistro
    ensures r.Success? && KeyUpQuery(w, key).Some? ==>
      && (r.value.open <==> r.value.currentOptions.Length() > 0)
      && (r.value.open ==> r.value.selectedIndex == 0)
      && (!r.value.open ==> r.value.selectedIndex == w.selectedIndex)
    ensures KeyUpQuery(w, key).Some? && !w.buscandoRegistro ==>
      r.Success? && r.value.currentOptions == Categories(FilterTypes(cfg.types, KeyUpQuery(w, key).value))
    ensures (KeyUpQuery(w, key).Some? && w.buscandoRegistro && w.tipoSelecionado.Some?
             && w.tipoSelecionado.value in cfg.data)
      ==> && r.Success?
          && r.value.currentOptions
             == Registros(FilterRecords(cfg.data[w.tipoSelecionado.value], KeyUpQuery(w, key).value))
  {
    if w.open && IsNavigationKey(key) then Success(w)
    else if TextBeforeCaret(w.surface.doc, w.surface.caret).None? then Success(w)
    else match DetectQuery(w.surface.doc, w.surface.caret)
      case None => Success(HideAutocomplete(w))
      case Some(q) =>
        if !w.buscandoRegistro then
          var names := FilterTypes(cfg.types, q);
          var w' := w.(currentOptions := Categories(names));
          if |names| > 0 then Success(w'.(selectedIndex := 0, open := true)) else Success(HideAutocomplete(w'))
        else if w.tipoSelecionado.None? then Failure(NoCategory)
        else if w.tipoSelecionado.value !in cfg.data then Failure(UnknownCategory)
        else
          var records := FilterRecords(cfg.data[w.tipoSelecionado.value], q);
          var w' := w.(currentOptions := Registros(records));
          if |records| > 0 then Success(w'.(selectedIndex := 0, open := true)) else Success(HideAutocomplete(w'))
  }

  // ---------------------------------------------------------------------
  // navigateOptions
  // ---------------------------------------------------------------------

  /** The highlight after one step in `direction` over `n` items: circular,
      and a no-op on an empty list. The source reads item `selected` before
      moving, so it needs `selected` to be -1 or an item. */
  function NavigateOptions(selected: int, n: nat, direction: int): (r: int)
    requires direction == 1 || direction == -1
    requires n > 0 ==> -1 <= selected < n
    ensures n == 0 ==> r == selected
    ensures n > 0 ==> 0 <= r < n
    ensures n > 0 && 0 <= selected ==> r == (selected + direction) % n
    ensures n > 0 && selected == -1 ==> r == if direction == 1 then 0 else n - 1
  {
    if n == 0 then selected
    else
      var i := selected + direction;
      var i' := if i >= n then 0 else i;
      if i' < 0 then n - 1 else i'
  }

  /** One step down, then one step up, returns to the same item. */
  lemma NavigateDownUp(selected: int, n: nat)
    requires 0 <= selected < n
    ensures NavigateOptions(NavigateOptions(selected, n, 1), n, -1) == selected
  {
    if selected == n - 1 {
      assert NavigateOptions(selected, n, 1) == 0;
    } else {
      assert NavigateOptions(selected, n, 1) == selected + 1;
    }
  }

  /** One step up, then one step down, returns to the same item. */
  lemma NavigateUpDown(selected: int, n: nat)
    requires 0 <= selected < n
    ensures NavigateOptions(NavigateOptions(selected, n, -1), n, 1) == selected
  {
    if selected == 0 {
      assert NavigateOptions(selected, n, -1) == n - 1;
    } else {
      assert NavigateOptions(selected, n, -1) == selected - 1;
    }
  }

  /** An arrow key on the open dropdown; throws when the highlighted index
      has no item behind it. */
  function Navigate(w: Widget, direction: int): (r: Result<Widget, Fault>)
    requires direction == 1 || direction == -1
    ensures var n := w.currentOptions.Length();
      && (r.Failure? <==> n > 0 && !(-1 <= w.selectedIndex < n))
      && (r.Success? ==> r.value == w.(selectedIndex := r.value.selectedIndex))
      && (r.Success? && n > 0 ==> 0 <= r.value.selectedIndex < n)
      && (r.Success? && n > 0 && 0 <= w.selectedIndex ==> r.value.selectedIndex == (w.selectedIndex + direction) % n)
      && (r.Success? && n > 0 && w.selectedIndex == -1 ==>
            r.value.selectedIndex == if direction == 1 then 0 else n - 1)
      && (n == 0 ==> r == Success(w))
  {
    var n := w.currentOptions.Length();
    if n > 0 && !(-1 <= w.selectedIndex < n) then Failure(MissingItem)
    else Success(w.(selectedIndex := NavigateOptions(w.selectedIndex, n, direction)))
  }

  // ---------------------------------------------------------------------
  // selectTipo, selectRegistro and the click on an item
  // ---------------------------------------------------------------------

  /** The token `selectRegistro` creates: its class suffix is the category in
      lower case, and its visible text is the label, which starts with the
      same category up to case. */
  function MentionFor(tipo: string, rec: Record): (r: Node)
    ensures r.Mention? && Tokens([r]) == [r]
    ensures TextContent([r]) == MentionLabel(tipo, rec)
    ensures ToLower(r.category) == r.category && r.category == ToLower(r.caption[..|tipo|])
  {
    ToLowerIdempotent(tipo);
    Mention(ToLower(tipo), MentionLabel(tipo, rec))
  }

  /** `selectTipo`: starts the record search for `tipo`, cutting the query out
      of the anchor text when the backward scan finds one. */
  function SelectTipo(cfg: Config, w: Widget, tipo: string): (r: Widget)
    requires tipo in cfg.data
    ensures r.tipoSelecionado == Some(tipo) && r.buscandoRegistro
    ensures r.open && r.selectedIndex == 0 && r.currentOptions == Registros(cfg.data[tipo])
    ensures var k := FindTriggerNode(w.surface.doc, w.surface.caret);
      && (k.None? ==> r.surface == w.surface)
      && (k.Some? ==> r.surface == SpliceTipo(w.surface.doc, k.value))
  {
    var surface := match FindTriggerNode(w.surface.doc, w.surface.caret)
      case None => w.surface
      case Some(k) => SpliceTipo(w.surface.doc, k);
    Widget(surface, true, Some(tipo), true, 0, Registros(cfg.data[tipo]))
  }

  /** `selectRegistro`: inserts the token for `rec` in place of the trigger
      and query, and ends the session. */
  function SelectRegistro(w: Widget, rec: Record): (r: Widget)
    requires w.tipoSelecionado.Some?
    ensures Idle(r)
    ensures r.selectedIndex == w.selectedIndex && r.currentOptions == w.currentOptions
    ensures var k := FindTriggerNode(w.surface.doc, w.surface.caret);
      && (k.None? ==> r.surface == w.surface)
      && (k.Some? ==> r.surface == SpliceRegistro(w.surface.doc, k.value, MentionFor(w.tipoSelecionado.value, rec)))
  {
    var token := MentionFor(w.tipoSelecionado.value, rec);
    var surface := match FindTriggerNode(w.surface.doc, w.surface.caret)
      case None => w.surface
      case Some(k) => SpliceRegistro(w.surface.doc, k, token);
    Widget(surface, false, None, false, w.selectedIndex, w.currentOptions)
  }

  /** Choosing a category changes no token; what it does to the text is
      `SpliceTipoText`. */
  lemma SelectTipoKeepsTokens(cfg: Config, w: Widget, tipo: string)
    requires tipo in cfg.data
    ensures Tokens(SelectTipo(cfg, w, tipo).surface.doc) == Tokens(w.surface.doc)
  {
    match FindTriggerNode(w.surface.doc, w.surface.caret)
    case None =>
    case Some(k) => SpliceTipoTokens(w.surface.doc, k);
  }

  /** Choosing a record adds exactly one token, the one for that record and
      the selected category, where the trigger was; other tokens keep their
      order around it. */
  lemma SelectRegistroAddsToken(w: Widget, rec: Record)
    requires w.tipoSelecionado.Some?
    requires FindTriggerNode(w.surface.doc, w.surface.caret).Some?
    ensures var k := FindTriggerNode(w.surface.doc, w.surface.caret).value;
      var doc := w.surface.doc;
      var token := MentionFor(w.tipoSelecionado.value, rec);
      && Tokens(doc) == Tokens(doc[..k]) + Tokens(doc[k + 1..])
      && Tokens(SelectRegistro(w, rec).surface.doc) == Tokens(doc[..k]) + ([token] + Tokens(doc[k + 1..]))
      && |Tokens(SelectRegistro(w, rec).surface.doc)| == |Tokens(doc)| + 1
  {
    var doc := w.surface.doc;
    var k := FindTriggerNode(doc, w.surface.caret).value;
    var token := MentionFor(w.tipoSelecionado.value, rec);
    assert SelectRegistro(w, rec).surface.doc == SpliceRegistro(doc, k, token).doc;
    SpliceRegistroTokens(doc, k, token);
  }

  /** Choosing a record with no anchor to splice at (the caret is not in a
      text run holding a trigger) still ends the session, text untouched. */
  lemma SelectRegistroWithoutAnchor(w: Widget, rec: Record)
    requires w.tipoSelecionado.Some?
    requires FindTriggerNode(w.surface.doc, w.surface.caret).None?
    ensures Tokens(SelectRegistro(w, rec).surface.doc) == Tokens(w.surface.doc)
    ensures SelectRegistro(w, rec).surface == w.surface && Idle(SelectRegistro(w, rec))
  {
  }

  /** The click handler of item `i`, as bound when the list was rendered. */
  function Confirm(cfg: Config, w: Widget, i: int): (r: Result<Widget, Fault>)
    ensures r.Success? ==> 0 <= i < w.currentOptions.Length()
    ensures !(0 <= i < w.currentOptions.Length()) ==> r == Failure(MissingItem)
    ensures r.Success? && w.currentOptions.Categories? ==>
      && 0 <= i < |w.currentOptions.names| && w.currentOptions.names[i] in cfg.data
      && r.value == SelectTipo(cfg, w, w.currentOptions.names[i])
    ensures r.Success? && w.currentOptions.Registros? ==>
      && 0 <= i < |w.currentOptions.records| && w.tipoSelecionado.Some?
      && r.value == SelectRegistro(w, w.currentOptions.records[i])
    ensures r.Success? && w.currentOptions.Categories? ==>
      r.value.buscandoRegistro && r.value.tipoSelecionado == Some(w.currentOptions.names[i])
    ensures r.Success? && w.currentOptions.Registros? ==> Idle(r.value)
    ensures 0 <= i < w.currentOptions.Length() ==>
      (r.Failure? <==> ((w.currentOptions.Categories? && w.currentOptions.names[i] !in cfg.data)
                        || (w.currentOptions.Registros? && w.tipoSelecionado.None?)))
  {
    if !(0 <= i < w.currentOptions.Length()) then Failure(MissingItem)
    else match w.currentOptions
      case Categories(names) =>
        if names[i] in cfg.data then Success(SelectTipo(cfg, w, names[i])) else Failure(UnknownCategory)
      case Registros(records) =>
        if w.tipoSelecionado.Some? then Success(SelectRegistro(w, records[i])) else Failure(NoCategory)
  }

  /** Inserting one element adds exactly that element to the multiset. */
  lemma InsertOne(pre: seq<Node>, t: Node, post: seq<Node>)
    ensures multiset(pre + ([t] + post)) == multiset(pre + post) + multiset{t}
  {
  }

  /** A successful click on a record, with an anchor to splice at, adds
      exactly one token, the one for that record and the selected category:
      the tokens after are those before plus that one. */
  lemma ConfirmRecordAddsToken(cfg: Config, w: Widget, i: int)
    requires Confirm(cfg, w, i).Success? && w.currentOptions.Registros?
    requires FindTriggerNode(w.surface.doc, w.surface.caret).Some?
    ensures 0 <= i < |w.currentOptions.records| && w.tipoSelecionado.Some?
    ensures var after := Tokens(Confirm(cfg, w, i).value.surface.doc);
      && |after| == |Tokens(w.surface.doc)| + 1
      && MentionFor(w.tipoSelecionado.value, w.currentOptions.records[i]) in after
    ensures multiset(Tokens(Confirm(cfg, w, i).value.surface.doc))
         == multiset(Tokens(w.surface.doc)) + multiset{MentionFor(w.tipoSelecionado.value, w.currentOptions.records[i])}
  {
    var rec := w.currentOptions.records[i];
    var doc := w.surface.doc;
    var k := FindTriggerNode(doc, w.surface.caret).value;
    SelectRegistroAddsToken(w, rec);
    InsertOne(Tokens(doc[..k]), MentionFor(w.tipoSelecionado.value, rec), Tokens(doc[k + 1..]));
  }

  /** The mouse-over handler of item `i`: the highlight moves onto that item
      and nothing else changes. */
  function MouseOver(w: Widget, i: int): (r: Widget)
    requires 0 <= i < w.currentOptions.Length()
    ensures 0 <= r.selectedIndex < r.currentOptions.Length() && r.selectedIndex == i
    ensures r.surface == w.surface && r.open == w.open && r.currentOptions == w.currentOptions
    ensures r.tipoSelecionado == w.tipoSelecionado && r.buscandoRegistro == w.buscandoRegistro
  {
    w.(selectedIndex := i)
  }

  // ---------------------------------------------------------------------
  // handleKeyDown
  // ---------------------------------------------------------------------

  /** `handleKeyDown` as written: Enter clicks item `selectedIndex` whenever
      that index is not -1. */
  function HandleKeyDown(cfg: Config, w: Widget, key: Key): (r: Result<Widget, Fault>)
    ensures !w.open ==> r == Success(w)
    ensures w.open && key == Escape ==> r == Success(w.(open := false))
    ensures w.open && key == OtherKey ==> r == Success(w)
    ensures w.open && key == Enter && w.selectedIndex == -1 ==> r == Success(w)
    ensures w.open && key == Enter && w.selectedIndex != -1 ==> r == Confirm(cfg, w, w.selectedIndex)
    ensures w.open && key == ArrowDown ==> r == Navigate(w, 1)
    ensures w.open && key == ArrowUp ==> r == Navigate(w, -1)
  {
    if !w.open then Success(w)
    else match key
      case ArrowDown => Navigate(w, 1)
      case ArrowUp => Navigate(w, -1)
      case Enter => if w.selectedIndex != -1 then Confirm(cfg, w, w.selectedIndex) else Success(w)
      case Escape => Success(HideAutocomplete(w))
      case OtherKey => Success(w)
  }

  /** `handleKeyDown` with Enter guarded by an item actually being
      highlighted; otherwise identical. */
  function HandleKeyDownGuarded(cfg: Config, w: Widget, key: Key): (r: Result<Widget, Fault>)
    ensures w.open && key == Enter && !(0 <= w.selectedIndex < w.currentOptions.Length()) ==> r == Success(w)
    ensures key != Enter || !w.open ==> r == HandleKeyDown(cfg, w, key)
    ensures w.open && key == Enter && 0 <= w.selectedIndex < w.currentOptions.Length() ==>
      r == HandleKeyDown(cfg, w, key)
  {
    if w.open && key == Enter then
      if 0 <= w.selectedIndex < w.currentOptions.Length() then Confirm(cfg, w, w.selectedIndex) else Success(w)
    else HandleKeyDown(cfg, w, key)
  }

  /** `handleKeyUp` with the release of Escape always ignored. As written,
      the early return skips Escape only while the dropdown is displayed, but
      Escape's own press has just hidden it, so its release would detect the
      query again and reopen the list; otherwise identical. */
  function HandleKeyUpGuarded(cfg: Config, w: Widget, key: Key): (r: Result<Widget, Fault>)
    ensures key == Escape ==> r == Success(w)
    ensures key != Escape ==> r == HandleKeyUp(cfg, w, key)
  {
    if key == Escape then Success(w) else HandleKeyUp(cfg, w, key)
  }

  /** As written, once Escape's press has hidden the dropdown its release is
      handled like any other key: when the caret still follows a trigger
      whose query matches something, the list is shown again. */
  lemma EscapeReleaseRedetects(cfg: Config, w: Widget)
    requires Consistent(cfg, w) && w.open
    ensures HandleKeyDown(cfg, w, Escape) == Success(HideAutocomplete(w))
    ensures HandleKeyUp(cfg, HideAutocomplete(w), Escape) == HandleKeyUp(cfg, HideAutocomplete(w), OtherKey)
    ensures var r := HandleKeyUp(cfg, HideAutocomplete(w), Escape);
      DetectQuery(w.surface.doc, w.surface.caret).Some? ==>
        r.Success? && (r.value.open <==> r.value.currentOptions.Length() > 0)
  {
  }

  /** With both handlers guarded, pressing and releasing Escape on the open
      dropdown hides it, and it stays hidden with everything else kept. */
  lemma EscapeKeepsClosed(cfg: Config, w: Widget)
    requires w.open
    ensures HandleKeyDownGuarded(cfg, w, Escape) == Success(HideAutocomplete(w))
    ensures HandleKeyUpGuarded(cfg, HideAutocomplete(w), Escape) == Success(HideAutocomplete(w))
  {
  }

  /** Where the source does not throw, the guarded version does the same. */
  lemma GuardedAgreesWithAsWritten(cfg: Config, w: Widget, key: Key)
    requires HandleKeyDown(cfg, w, key).Success?
    ensures HandleKeyDownGuarded(cfg, w, key) == HandleKeyDown(cfg, w, key)
  {
  }

  // ---------------------------------------------------------------------
  // The session invariant
  // ---------------------------------------------------------------------

  /** What holds of every state the widget can reach: a record search has a
      known category; an open list is of the kind the search phase renders;
      offered categories come from `types`; an open non-empty list has its
      highlight on an item. */
  ghost predicate Consistent(cfg: Config, w: Widget) {
    && (w.buscandoRegistro <==> w.tipoSelecionado.Some?)
    && (w.tipoSelecionado.Some? ==> w.tipoSelecionado.value in cfg.data)
    && (w.open ==> (w.currentOptions.Registros? <==> w.buscandoRegistro))
    && (w.currentOptions.Categories? ==> forall t :: t in w.currentOptions.names ==> t in cfg.types)
    && (w.open && w.currentOptions.Length() > 0 ==> 0 <= w.selectedIndex < w.currentOptions.Length())
  }

  /** The events the widget reacts to; `Edit` is the browser changing the
      content or moving the caret. */
  datatype Event = KeyUp(key: Key) | KeyDown(key: Key) | Click(item: int) | Hover(item: int) | Edit(surface: Surface)

  /** One event. Clicks and mouse-overs only reach items of the open list,
      and a click leaves the editor's caret where it was. `guarded` selects
      the corrected handlers `HandleKeyUpGuarded` and `HandleKeyDownGuarded`. */
  function Step(cfg: Config, w: Widget, e: Event, guarded: bool): Result<Widget, Fault> {
    match e
    case KeyUp(key) => if guarded then HandleKeyUpGuarded(cfg, w, key) else HandleKeyUp(cfg, w, key)
    case KeyDown(key) => if guarded then HandleKeyDownGuarded(cfg, w, key) else HandleKeyDown(cfg, w, key)
    case Click(i) => if w.open && 0 <= i < w.currentOptions.Length() then Confirm(cfg, w, i) else Success(w)
    case Hover(i) => if w.open && 0 <= i < w.currentOptions.Length() then Success(MouseOver(w, i)) else Success(w)
    case Edit(s) => Success(w.(surface := s))
  }

  /** A sequence of events; the first fault ends it. */
  function Run(cfg: Config, w: Widget, events: seq<Event>, guarded: bool): Result<Widget, Fault>
    decreases |events|
  {
    if events == [] then Success(w)
    else match Step(cfg, w, events[0], guarded)
      case Failure(f) => Failure(f)
      case Success(w') => Run(cfg, w', events[1..], guarded)
  }

  lemma InitConsistent(cfg: Config, s: Surface)
    ensures Consistent(cfg, Init(s)) && Idle(Init(s))
  {
  }

  /** `handleKeyUp` never throws from a consistent state and keeps it. */
  lemma KeyUpKeepsConsistent(cfg: Config, w: Widget, key: Key)
    requires Consistent(cfg, w)
    ensures HandleKeyUp(cfg, w, key).Success? && Consistent(cfg, HandleKeyUp(cfg, w, key).value)
    ensures HandleKeyUpGuarded(cfg, w, key).Success? && Consistent(cfg, HandleKeyUpGuarded(cfg, w, key).value)
  {
  }

  /** Clicking an item of the open list of a consistent state succeeds and
      keeps it. */
  lemma ConfirmKeepsConsistent(cfg: Config, w: Widget, i: int)
    requires WellFormed(cfg) && Consistent(cfg, w)
    requires w.open && 0 <= i < w.currentOptions.Length()
    ensures Confirm(cfg, w, i).Success? && Consistent(cfg, Confirm(cfg, w, i).value)
  {
  }

  /** The guarded `handleKeyDown` never throws from a consistent state and
      keeps it. */
  lemma KeyDownKeepsConsistent(cfg: Config, w: Widget, key: Key)
    requires WellFormed(cfg) && Consistent(cfg, w)
    ensures HandleKeyDownGuarded(cfg, w, key).Success?
    ensures Consistent(cfg, HandleKeyDownGuarded(cfg, w, key).value)
  {
    if w.open && key == Enter && 0 <= w.selectedIndex < w.currentOptions.Length() {
      ConfirmKeepsConsistent(cfg, w, w.selectedIndex);
    }
  }

  /** Every event of the guarded widget succeeds and keeps the invariant. */
  lemma StepKeepsConsistent(cfg: Config, w: Widget, e: Event)
    requires WellFormed(cfg) && Consistent(cfg, w)
    ensures Step(cfg, w, e, true).Success? && Consistent(cfg, Step(cfg, w, e, true).value)
  {
    match e
    case KeyUp(key) => KeyUpKeepsConsistent(cfg, w, key);
    case KeyDown(key) => KeyDownKeepsConsistent(cfg, w, key);
    case Click(i) =>
      if w.open && 0 <= i < w.currentOptions.Length() {
        ConfirmKeepsConsistent(cfg, w, i);
      }
    case Hover(i) =>
    case Edit(s) =>
  }

  /** No run of the guarded widget from a consistent state throws, and every
      state it passes through is consistent. */
  lemma {:induction false} RunKeepsConsistent(cfg: Config, w: Widget, events: seq<Event>)
    requires WellFormed(cfg) && Consistent(cfg, w)
    ensures Run(cfg, w, events, true).Success? && Consistent(cfg, Run(cfg, w, events, true).value)
    decreases |events|
  {
    if events != [] {
      StepKeepsConsistent(cfg, w, events[0]);
      RunKeepsConsistent(cfg, Step(cfg, w, events[0], true).value, events[1..]);
    }
  }

  /** From a consistent state, the widget as written throws only on Enter
      with the dropdown open and empty. */
  lemma AsWrittenFaultsOnlyOnEmptyList(cfg: Config, w: Widget, key: Key)
    requires WellFormed(cfg) && Consistent(cfg, w)
    requires HandleKeyDown(cfg, w, key).Failure?
    ensures key == Enter && w.open && w.currentOptions.Length() == 0 && w.selectedIndex != -1
  {
  }
}
