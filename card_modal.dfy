/**
 * The card edit dialog (src/components/CardModal.tsx): the form starts
 * from the card, and saving turns the form back into a card, storing
 * cleared optional fields as absent.
 */
module CardModal {
  import opened Options
  import opened Text
  import opened Kanban

  /** The dialog's form fields; an absent description or due date is shown as "". */
  datatype Form = Form(title: string, description: string, dueDate: string, priority: Priority)

  /** The form as the dialog opens on `card`. */
  function InitialForm(card: Card): (f: Form)
    ensures f.title == card.title && f.priority == card.priority
    ensures card.description.Some? && card.description.value != [] ==> f.description == card.description.value
    ensures card.description.None? || card.description == Some([]) ==> f.description == []
    ensures card.dueDate.Some? && card.dueDate.value != [] ==> f.dueDate == card.dueDate.value
    ensures card.dueDate.None? || card.dueDate == Some([]) ==> f.dueDate == []
  {
    Form(card.title, card.description.GetOr(""), card.dueDate.GetOr(""), card.priority)
  }

  /**
   * `handleSave`: the card passed to `onUpdate`. It keeps the card's id
   * and creation time; the title is the trimmed edit, or the old title
   * when that is empty; the description is trimmed and absent when
   * empty; the due date is absent when empty and otherwise kept as
   * entered; the priority is the one selected.
   */
  function Save(f: Form, card: Card): (r: Card)
    ensures r.id == card.id && r.createdAt == card.createdAt
    ensures r.priority == f.priority
    ensures !AllWhitespace(f.title) ==> r.title == Trim(f.title) && r.title != [] && Trimmed(r.title)
    ensures AllWhitespace(f.title) ==> r.title == card.title
    ensures r.description.None? <==> AllWhitespace(f.description)
    ensures r.description.Some? ==> r.description.value == Trim(f.description) && r.description.value != []
    ensures r.dueDate.None? <==> f.dueDate == []
    ensures r.dueDate.Some? ==> r.dueDate.value == f.dueDate
  {
    BlankIffAllWhitespace(f.title);
    BlankIffAllWhitespace(f.description);
    var title := Trim(f.title);
    var description := Trim(f.description);
    card.(
      title := if title != [] then title else card.title,
      description := if description != [] then Some(description) else None,
      dueDate := if f.dueDate != [] then Some(f.dueDate) else None,
      priority := f.priority)
  }

  /**
   * A card the dialog leaves as it is: its title is trimmed (or blank,
   * in which case an empty edit falls back to it), its description is
   * absent or trimmed and non-empty, and its due date is absent or
   * non-empty.
   */
  predicate Normalised(card: Card) {
    && (Trimmed(card.title) || AllWhitespace(card.title))
    && (card.description.None? || (card.description.value != [] && Trimmed(card.description.value)))
    && (card.dueDate.None? || card.dueDate.value != [])
  }

  /** Opening the dialog and saving without edits leaves a card as it is exactly when it is normalised. */
  lemma SaveUntouchedIff(card: Card)
    ensures Save(InitialForm(card), card) == card <==> Normalised(card)
  {
    var r := Save(InitialForm(card), card);
    SaveUntouchedTitle(card);
    SaveUntouchedDescription(card);
    assert r == card <==> r.title == card.title && r.description == card.description && r.dueDate == card.dueDate;
  }

  lemma SaveUntouchedTitle(card: Card)
    ensures Save(InitialForm(card), card).title == card.title <==> Trimmed(card.title) || AllWhitespace(card.title)
  {
    BlankIffAllWhitespace(card.title);
    if Trimmed(card.title) { TrimOfTrimmed(card.title); }
  }

  lemma SaveUntouchedDescription(card: Card)
    ensures Save(InitialForm(card), card).description == card.description
            <==> card.description.None? || (card.description.value != [] && Trimmed(card.description.value))
  {
    if card.description.Some? {
      BlankIffAllWhitespace(card.description.value);
      if Trimmed(card.description.value) { TrimOfTrimmed(card.description.value); }
    }
  }

  /** A trimmed title stays trimmed through any save, so cards made by `AddCard` keep trimmed titles. */
  lemma SaveKeepsTrimmed(f: Form, card: Card)
    requires Trimmed(card.title)
    ensures Trimmed(Save(f, card).title)
  {
  }

  /** Every saved card is normalised, provided the card it started from had a normalised title. */
  lemma SaveNormalises(f: Form, card: Card)
    requires Trimmed(card.title) || AllWhitespace(card.title)
    ensures Normalised(Save(f, card))
  {
  }

  /** Re-saving a saved card without edits changes nothing. */
  lemma SaveIdempotent(f: Form, card: Card)
    requires Trimmed(card.title) || AllWhitespace(card.title)
    ensures var saved := Save(f, card); Save(InitialForm(saved), saved) == saved
  {
    SaveNormalises(f, card);
    SaveUntouchedIff(Save(f, card));
  }
}
