/** The editing session of the main window with the widgets stripped away:
    which snippet is open, the four editor fields, the dirty flag and the
    window title that mirrors it, and the favourites filter. Every slot of the
    window becomes a pure transition on the session and the table; the answer
    the user gives to a dialog is a parameter. */
module Editor {
  import opened Wrappers
  import opened Text
  import opened Snippets
  import Store

  /** The entries of the language combo box, in order. */
  const Languages: seq<string> := ["python", "javascript", "sql", "html", "css", "bash", "text"]

  const BaseTitle: string := "CodeSnap - Snippet Manager"

  datatype Session = Session(
    currentId: Option<int>,
    title: string,
    language: string,
    tags: string,
    code: string,
    isDirty: bool,
    favoritesOnly: bool,
    windowTitle: string)

  /** The session together with the table it reads and writes. */
  datatype App = App(session: Session, table: Store.Table)

  /** The window as its constructor leaves it. */
  const InitialSession: Session := Session(None, "", "python", "", "", false, false, BaseTitle)

  /** The constructor's session is well formed and has nothing open, so every
      transition that keeps `WellFormed` keeps it from the start. */
  lemma InitialSessionWellFormed()
    ensures WellFormed(InitialSession)
    ensures !HasCurrent(InitialSession) && !InitialSession.isDirty && !InitialSession.favoritesOnly
  {
  }

  /** The window title carries exactly one trailing '*' while there are
      unsaved changes, and the language is one the combo box offers. */
  predicate WellFormed(s: Session) {
    && s.windowTitle == BaseTitle + (if s.isDirty then "*" else "")
    && s.language in Languages
  }

  /** Python's truthiness of `current_snippet_id` (ids start at 1, so this is
      "an id is set"). */
  predicate HasCurrent(s: Session) {
    s.currentId.Some? && s.currentId.value != 0
  }

  // ---------------------------------------------------------------------
  // The dirty flag

  /** `set_dirty`: records the flag and adds or strips one trailing '*' on the
      window title. */
  function SetDirty(s: Session, dirty: bool): (r: Session)
    ensures r.isDirty == dirty
    ensures r.(isDirty := s.isDirty, windowTitle := s.windowTitle) == s
    ensures dirty ==> EndsWithStar(r.windowTitle)
    ensures dirty ==> r.windowTitle == s.windowTitle || r.windowTitle == s.windowTitle + "*"
    ensures !dirty ==> r.windowTitle == s.windowTitle || r.windowTitle + "*" == s.windowTitle
    ensures !dirty && !EndsWithStar(s.windowTitle) ==> r.windowTitle == s.windowTitle
    ensures dirty && EndsWithStar(s.windowTitle) ==> r.windowTitle == s.windowTitle
    ensures !dirty && EndsWithStar(s.windowTitle) ==> r.windowTitle + "*" == s.windowTitle
    ensures dirty && !EndsWithStar(s.windowTitle) ==> r.windowTitle == s.windowTitle + "*"
    ensures WellFormed(s) ==> WellFormed(r)
  {
    var w := s.windowTitle;
    var w' := if dirty && !EndsWithStar(w) then w + "*"
              else if !dirty && EndsWithStar(w) then w[..|w| - 1]
              else w;
    assert !dirty && EndsWithStar(w) ==> w' + "*" == w;
    s.(isDirty := dirty, windowTitle := w')
  }

  lemma SetDirtyIdempotent(s: Session, dirty: bool)
    requires WellFormed(s)
    ensures SetDirty(SetDirty(s, dirty), dirty) == SetDirty(s, dirty)
  {
  }

  /** Marking dirty and then clean gives back a title that had no '*'. */
  lemma SetDirtyRoundTrip(s: Session)
    requires !EndsWithStar(s.windowTitle)
    ensures SetDirty(SetDirty(s, true), false).windowTitle == s.windowTitle
  {
    var w := s.windowTitle;
    assert (w + "*")[..|w|] == w;
  }

  /** In a well-formed session a closing `set_dirty(False)` erases whatever
      `set_dirty` calls came before it; so the change signals that the widget
      updates inside loading and resetting emit do not affect the outcome. */
  lemma CleanOverrides(s: Session, dirty: bool)
    requires WellFormed(s)
    ensures SetDirty(SetDirty(s, dirty), false) == SetDirty(s, false)
  {
    assert (BaseTitle + "*")[..|BaseTitle|] == BaseTitle;
  }

  // ---------------------------------------------------------------------
  // Editing the fields

  datatype Field = TitleField | LanguageField | TagsField | CodeField

  function FieldValue(s: Session, f: Field): string {
    match f
    case TitleField => s.title
    case LanguageField => s.language
    case TagsField => s.tags
    case CodeField => s.code
  }

  function WithField(s: Session, f: Field, text: string): Session {
    match f
    case TitleField => s.(title := text)
    case LanguageField => s.(language := text)
    case TagsField => s.(tags := text)
    case CodeField => s.(code := text)
  }

  lemma WithFieldSets(s: Session, f: Field, text: string)
    ensures FieldValue(WithField(s, f, text), f) == text
    ensures forall g :: g != f ==> FieldValue(WithField(s, f, text), g) == FieldValue(s, g)
    ensures WithField(s, f, text).(title := s.title, language := s.language, tags := s.tags, code := s.code) == s
    ensures f != LanguageField ==> WithField(s, f, text).language == s.language
  {
  }

  /** The user changes one field, as the window wires it: the title and tags
      line edits and the language combo box pass their new text to
      `set_dirty`, whose flag becomes that text's truthiness; the code editor's
      signal has no argument, so `set_dirty` gets its default `True`. Qt emits
      the signals only when the text actually changes. */
  function EditAsWritten(s: Session, f: Field, text: string): (r: Session)
    ensures FieldValue(r, f) == text
    ensures forall g :: g != f ==> FieldValue(r, g) == FieldValue(s, g)
    ensures r.currentId == s.currentId && r.favoritesOnly == s.favoritesOnly
    ensures text == FieldValue(s, f) ==> r == s
    ensures text != FieldValue(s, f) ==> (r.isDirty <==> f == CodeField || text != "")
    ensures WellFormed(s) && (f == LanguageField ==> text in Languages) ==> WellFormed(r)
  {
    WithFieldSets(s, f, text);
    if text == FieldValue(s, f) then s
    else SetDirty(WithField(s, f, text), f == CodeField || text != "")
  }

  /** The evidently intended wiring: every change to a field marks the session dirty. */
  function Edit(s: Session, f: Field, text: string): (r: Session)
    ensures FieldValue(r, f) == text
    ensures forall g :: g != f ==> FieldValue(r, g) == FieldValue(s, g)
    ensures r.currentId == s.currentId && r.favoritesOnly == s.favoritesOnly
    ensures text == FieldValue(s, f) ==> r == s
    ensures text != FieldValue(s, f) ==> r.isDirty
    ensures WellFormed(s) && (f == LanguageField ==> text in Languages) ==> WellFormed(r)
  {
    WithFieldSets(s, f, text);
    if text == FieldValue(s, f) then s else SetDirty(WithField(s, f, text), true)
  }

  // ---------------------------------------------------------------------
  // Saving and the unsaved-changes guard

  datatype SaveOutcome = MissingTitle | Updated(id: int) | Added(id: int)

  datatype Saved = Saved(outcome: SaveOutcome, app: App)

  /** `save_snippet` up to the list refresh: rejects a blank title, otherwise
      writes the stripped title and tags (language and code as they are) with
      an update when an id is open and an insert when not, and marks the
      session clean. The insert's new id is not adopted. */
  function SaveSnippet(a: App): (r: Saved)
    ensures r.outcome == MissingTitle <==> IsBlank(a.session.title)
    ensures r.outcome == MissingTitle ==> r.app == a
    ensures r.outcome != MissingTitle ==> r.app.session == SetDirty(a.session, false)
    ensures r.outcome.Updated? ==>
      var id := r.outcome.id;
      var t := a.table;
      && HasCurrent(a.session) && a.session.currentId == Some(id)
      && r.app.table.lastId == t.lastId
      && (Store.GetSnippetById(t, id).Some? ==>
            Store.GetSnippetById(r.app.table, id)
            == Some(Store.GetSnippetById(t, id).value.(title := Strip(a.session.title), language := a.session.language,
                                                       tags := Strip(a.session.tags), code := a.session.code)))
      && (Store.GetSnippetById(t, id).None? ==> r.app.table == t)
      && forall k :: k != id ==> Store.GetSnippetById(r.app.table, k) == Store.GetSnippetById(t, k)
    ensures r.outcome.Added? ==>
      var id := r.outcome.id;
      var t := a.table;
      && !HasCurrent(a.session)
      && id == t.lastId + 1 == r.app.table.lastId
      && Store.GetSnippetById(t, id).None?
      && Store.GetSnippetById(r.app.table, id)
         == Some(Snippet(id, Strip(a.session.title), a.session.language, Strip(a.session.tags), a.session.code, 0))
      && forall k :: k != id ==> Store.GetSnippetById(r.app.table, k) == Store.GetSnippetById(t, k)
    ensures WellFormed(a.session) ==> WellFormed(r.app.session)
  {
    var s := a.session;
    var title := Strip(s.title);
    if title == [] then Saved(MissingTitle, a)
    else
      var tags := Strip(s.tags);
      if HasCurrent(s) then
        var id := s.currentId.value;
        Saved(Updated(id), App(SetDirty(s, false), Store.UpdateSnippet(a.table, id, title, s.language, tags, s.code)))
      else
        var t := Store.AddSnippet(a.table, title, s.language, tags, s.code);
        Saved(Added(t.lastId), App(SetDirty(s, false), t))
  }

  /** The three buttons of the unsaved-changes dialog. */
  datatype Choice = SaveChoice | DiscardChoice | CancelChoice

  datatype Guarded = Guarded(proceed: bool, app: App)

  /** `check_for_unsaved_changes`: a clean session proceeds without asking;
      a dirty one asks, and Save (which runs the save) and Discard proceed
      while Cancel stops. */
  function CheckForUnsavedChanges(a: App, choice: Choice): (g: Guarded)
    ensures g.proceed <==> !a.session.isDirty || choice != CancelChoice
    ensures !g.proceed ==> g.app == a
    ensures !a.session.isDirty || choice == DiscardChoice ==> g.app == a
    ensures a.session.isDirty && choice == SaveChoice ==> g.app == SaveSnippet(a).app
    ensures WellFormed(a.session) ==> WellFormed(g.app.session)
  {
    if !a.session.isDirty then Guarded(true, a)
    else
      match choice
      case SaveChoice => Guarded(true, SaveSnippet(a).app)
      case DiscardChoice => Guarded(true, a)
      case CancelChoice => Guarded(false, a)
  }

  /** Choosing Save lets the navigation go ahead even when the save was
      refused for a blank title: nothing is written and the session is still
      dirty, yet the guard reports proceed. */
  lemma GuardProceedsAfterRefusedSave(a: App)
    requires a.session.isDirty && IsBlank(a.session.title)
    ensures CheckForUnsavedChanges(a, SaveChoice) == Guarded(true, a)
  {
  }

  // ---------------------------------------------------------------------
  // Navigation

  /** The part of `new_snippet` after its guard: no open id, empty fields,
      the first language, clean. */
  function ResetEditor(s: Session): (r: Session)
    ensures r.currentId == None && !HasCurrent(r)
    ensures r.title == "" && r.tags == "" && r.code == ""
    ensures r.language == Languages[0]
    ensures !r.isDirty
    ensures r.favoritesOnly == s.favoritesOnly
    ensures WellFormed(s) ==> WellFormed(r)
  {
    SetDirty(s.(currentId := None, title := "", language := Languages[0], tags := "", code := ""), false)
  }

  /** `new_snippet(check_save)`: unless the guard stops it, the editor is
      reset; only a Save answer to the guard writes to the table. */
  function NewSnippet(a: App, checkSave: bool, choice: Choice): (r: App)
    ensures checkSave && a.session.isDirty && choice == CancelChoice ==> r == a
    ensures !(checkSave && a.session.isDirty && choice == CancelChoice) ==>
      && r.session.currentId == None
      && r.session.title == "" && r.session.tags == "" && r.session.code == ""
      && r.session.language == Languages[0]
      && !r.session.isDirty
      && r.session.favoritesOnly == a.session.favoritesOnly
    ensures !checkSave || !a.session.isDirty || choice != SaveChoice ==> r.table == a.table
    ensures WellFormed(a.session) ==> WellFormed(r.session)
  {
    if checkSave then
      var g := CheckForUnsavedChanges(a, choice);
      if !g.proceed then a else App(ResetEditor(g.app.session), g.app.table)
    else
      App(ResetEditor(a.session), a.table)
  }

  /** `load_snippet(current_item, previous_item)`, with the selected item
      given by the id it carries: unless the guard stops it, a missing item
      resets the editor, and a present one becomes the open id and, when its
      row exists, fills the editor from the row and marks the session clean.
      The combo box ignores a language it does not offer. */
  function LoadSnippet(a: App, selected: Option<int>, choice: Choice): (r: App)
    ensures a.session.isDirty && choice == CancelChoice ==> r == a
    ensures var g := CheckForUnsavedChanges(a, choice);
      g.proceed ==>
        && r.table == g.app.table
        && (selected.None? ==> r.session == ResetEditor(g.app.session))
        && (selected.Some? ==> r.session.currentId == selected && r.session.favoritesOnly == a.session.favoritesOnly)
        && (selected.Some? && Store.GetSnippetById(g.app.table, selected.value).None? ==>
              r.session == g.app.session.(currentId := selected))
        && (selected.Some? && Store.GetSnippetById(g.app.table, selected.value).Some? ==>
              var row := Store.GetSnippetById(g.app.table, selected.value).value;
              && r.session.title == row.title
              && r.session.tags == row.tags
              && r.session.code == row.code
              && (row.language in Languages ==> r.session.language == row.language)
              && (row.language !in Languages ==> r.session.language == g.app.session.language)
              && !r.session.isDirty)
    ensures WellFormed(a.session) ==> WellFormed(r.session)
  {
    var g := CheckForUnsavedChanges(a, choice);
    if !g.proceed then a
    else if selected.None? then App(ResetEditor(g.app.session), g.app.table)
    else
      var s := g.app.session.(currentId := selected);
      match Store.GetSnippetById(g.app.table, selected.value)
      case None => App(s, g.app.table)
      case Some(row) =>
        var language := if row.language in Languages then row.language else s.language;
        App(SetDirty(s.(title := row.title, language := language, tags := row.tags, code := row.code), false), g.app.table)
  }

  /** Answering Save to the guard while the title is blank loses the edits:
      nothing is stored, and the editor is refilled from the selected row. */
  lemma RefusedSaveThenLoadDropsEdits(a: App, id: int)
    requires a.session.isDirty && IsBlank(a.session.title)
    requires Store.GetSnippetById(a.table, id).Some?
    ensures var r := LoadSnippet(a, Some(id), SaveChoice);
            && r.table == a.table
            && r.session.code == Store.GetSnippetById(a.table, id).value.code
            && !r.session.isDirty
  {
  }

  /** Because an insert's id is never adopted, saving a new snippet twice
      inserts two rows with the same content. */
  lemma SaveNewTwiceInsertsTwice(a: App)
    requires !HasCurrent(a.session) && !IsBlank(a.session.title)
    ensures var first := SaveSnippet(a);
            var second := SaveSnippet(first.app);
            var s := a.session;
            var row := Snippet(0, Strip(s.title), s.language, Strip(s.tags), s.code, 0);
            && first.outcome == Added(a.table.lastId + 1)
            && second.outcome == Added(a.table.lastId + 2)
            && Store.GetSnippetById(second.app.table, a.table.lastId + 1) == Some(row.(id := a.table.lastId + 1))
            && Store.GetSnippetById(second.app.table, a.table.lastId + 2) == Some(row.(id := a.table.lastId + 2))
            && second.app.session.currentId == s.currentId
  {
    var s := a.session;
    var first := SaveSnippet(a);
    assert first.outcome.Added?;
    var s1 := first.app.session;
    assert s1 == SetDirty(s, false);
    assert s1.title == s.title && s1.tags == s.tags && s1.code == s.code && s1.language == s.language;
    assert !HasCurrent(s1);
    var second := SaveSnippet(first.app);
    assert second.outcome.Added?;
    assert second.outcome.id == first.app.table.lastId + 1;
    assert first.app.table.lastId == a.table.lastId + 1;
  }

  /** The evidently intended save: the same writes as `SaveSnippet`, but an
      insert adopts the new row's id, so that the next save updates that row. */
  function SaveSnippetAdopting(a: App): (r: Saved)
    ensures r.outcome == SaveSnippet(a).outcome
    ensures r.app.table == SaveSnippet(a).app.table
    ensures r.outcome.Added? ==> r.app.session == SetDirty(a.session, false).(currentId := Some(r.outcome.id))
    ensures !r.outcome.Added? ==> r == SaveSnippet(a)
    ensures WellFormed(a.session) ==> WellFormed(r.app.session)
  {
    var r := SaveSnippet(a);
    if r.outcome.Added? then Saved(r.outcome, App(r.app.session.(currentId := Some(r.outcome.id)), r.app.table))
    else r
  }

  /** With the id adopted, saving a new snippet twice inserts one row and then
      updates it. */
  lemma SaveAdoptingTwiceInsertsOnce(a: App)
    requires !HasCurrent(a.session) && !IsBlank(a.session.title)
    ensures var first := SaveSnippetAdopting(a);
            var second := SaveSnippetAdopting(first.app);
            var s := a.session;
            var id := a.table.lastId + 1;
            && first.outcome == Added(id)
            && second.outcome == Updated(id)
            && second.app.table.lastId == id
            && Store.GetSnippetById(second.app.table, id)
               == Some(Snippet(id, Strip(s.title), s.language, Strip(s.tags), s.code, 0))
            && second.app.session.currentId == Some(id)
  {
    var s := a.session;
    var id := a.table.lastId + 1;
    var first := SaveSnippetAdopting(a);
    assert first.outcome == Added(id);
    var s1 := first.app.session;
    assert s1.title == s.title && s1.tags == s.tags && s1.code == s.code && s1.language == s.language;
    assert HasCurrent(s1) && s1.currentId == Some(id);
    var second := SaveSnippetAdopting(first.app);
    assert second.outcome == Updated(id);
  }

  // ---------------------------------------------------------------------
  // Actions on the open snippet

  /** `delete_snippet`: without an open id nothing happens; when the user
      confirms, the row is deleted and the editor reset without asking about
      unsaved changes. */
  function DeleteSnippet(a: App, confirmed: bool): (r: App)
    ensures !HasCurrent(a.session) || !confirmed ==> r == a
    ensures HasCurrent(a.session) && confirmed ==>
      var id := a.session.currentId.value;
      && Store.GetSnippetById(r.table, id).None?
      && (forall k :: k != id ==> Store.GetSnippetById(r.table, k) == Store.GetSnippetById(a.table, k))
      && r.session == ResetEditor(a.session)
    ensures r.table.lastId == a.table.lastId
    ensures WellFormed(a.session) ==> WellFormed(r.session)
  {
    if !HasCurrent(a.session) || !confirmed then a
    else App(ResetEditor(a.session), Store.DeleteSnippet(a.table, a.session.currentId.value))
  }

  /** `toggle_favorite`: without an open id nothing happens; otherwise the
      row's flag is flipped through the store, and the editor fields and dirty
      flag are left alone. A missing row makes the store raise. */
  function ToggleFavorite(a: App): (r: Result<App, Store.StoreError>)
    ensures !HasCurrent(a.session) ==> r == Ok(a)
    ensures HasCurrent(a.session) ==> (r.Err? <==> Store.GetSnippetById(a.table, a.session.currentId.value).None?)
    ensures r.Ok? ==> r.value.session == a.session
    ensures r.Ok? ==> r.value.table.lastId == a.table.lastId
    ensures r.Ok? && HasCurrent(a.session) ==>
      var id := a.session.currentId.value;
      var row := Store.GetSnippetById(a.table, id).value;
      && Store.GetSnippetById(r.value.table, id) == Some(row.(isFavorite := 1 - row.isFavorite))
      && forall k :: k != id ==> Store.GetSnippetById(r.value.table, k) == Store.GetSnippetById(a.table, k)
  {
    if !HasCurrent(a.session) then Ok(a)
    else
      match Store.ToggleFavoriteStatus(a.table, a.session.currentId.value)
      case Err(e) => Err(e)
      case Ok(toggled) => Ok(App(a.session, toggled.table))
  }

  /** `filter_favorites`: the filter follows the star button's checked state. */
  function FilterFavorites(a: App, checked: bool): (r: App)
    ensures r.session.favoritesOnly == checked
    ensures r.session.(favoritesOnly := a.session.favoritesOnly) == a.session
    ensures r.table == a.table
    ensures WellFormed(a.session) ==> WellFormed(r.session)
  {
    App(a.session.(favoritesOnly := checked), a.table)
  }

  // ---------------------------------------------------------------------
  // How the editing wiring misbehaves, and the intended alternative

  /** As written, clearing the title or the tags makes the session clean, even after other unsaved edits; the guard then lets the
      user navigate away without asking. */
  lemma ClearingFieldSkipsGuard(s: Session, t: Store.Table, f: Field)
    requires (f == TitleField || f == TagsField) && FieldValue(s, f) != ""
    ensures var r := EditAsWritten(s, f, "");
            && !r.isDirty
            && CheckForUnsavedChanges(App(r, t), CancelChoice) == Guarded(true, App(r, t))
  {
  }

  /** With every change marking the session dirty, a changed field always
      makes the guard ask, and Cancel keeps the edit. */
  lemma EditMakesGuardAsk(s: Session, t: Store.Table, f: Field, text: string)
    requires FieldValue(s, f) != text
    ensures var r := Edit(s, f, text);
            CheckForUnsavedChanges(App(r, t), CancelChoice) == Guarded(false, App(r, t))
  {
  }

  /** As wired, the New button's `clicked(bool checked)` hands `False` to
      `check_save`. So New on a dirty session resets the editor without asking,
      whatever the user would have answered, and the unsaved code is lost. */
  lemma NewButtonSkipsGuard(a: App, choice: Choice)
    requires a.session.isDirty && a.session.code != ""
    ensures NewSnippet(a, false, choice) == NewSnippet(a, false, CancelChoice)
    ensures var r := NewSnippet(a, false, choice);
            && r.table == a.table
            && !r.session.isDirty
            && r.session.code == ""
            && r != a
  {
  }

  /** With `check_save` left at its default of True, New on a dirty session
      asks first: Cancel keeps everything, and only Save writes. */
  lemma NewWithGuardKeepsEdits(a: App)
    requires a.session.isDirty
    ensures NewSnippet(a, true, CancelChoice) == a
    ensures NewSnippet(a, true, DiscardChoice).table == a.table
    ensures NewSnippet(a, true, SaveChoice).table == SaveSnippet(a).app.table
  {
  }
}
