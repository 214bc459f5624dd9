/**
 * The per-user conversation state of the add-recipe dialogue, as the chat
 * framework's FSM storage keeps it: the current state (or none) and the data
 * dictionary filled in by `update_data`.
 */
module Dialogue {
  import opened Common

  /**
   * The four states of the dialogue: `select_category`/`waiting_for_category`,
   * `enter_title`/`waiting_for_title`, `enter_ingredients`/`waiting_for_ingredients`,
   * `enter_instructions`/`waiting_for_instructions`.
   */
  datatype Step = SelectCategory | EnterTitle | EnterIngredients | EnterInstructions

  /** The keys of the FSM data dictionary; `None` for a key not set. */
  datatype Draft = Draft(
    categoryId: Option<int>,
    categoryName: Option<string>,
    title: Option<string>,
    ingredients: Option<string>)

  /** The FSM context of one user: no state means no dialogue is running. */
  datatype Session = Session(step: Option<Step>, draft: Draft)

  /** What `state.clear()` leaves, and what a user who never spoke has. */
  const Idle := Session(None, Draft(None, None, None, None))

  /** The storage is keyed by user; a user without an entry is idle. */
  function SessionOf(sessions: map<int, Session>, user: int): Session
  {
    if user in sessions then sessions[user] else Idle
  }

  /**
   * The dialogue invariant: every state has the data its earlier steps collected,
   * so the final step always finds title, category and ingredients.
   */
  predicate WellFormed(s: Session) {
    && (s.step.Some? && s.step.value != SelectCategory ==> s.draft.categoryId.Some? && s.draft.categoryName.Some?)
    && (s.step == Some(EnterIngredients) || s.step == Some(EnterInstructions) ==> s.draft.title.Some?)
    && (s.step == Some(EnterInstructions) ==> s.draft.ingredients.Some?)
  }

  /** `set_state(select_category)`: the data dictionary is left as it was. */
  function Started(s: Session): (r: Session)
    ensures WellFormed(r) && r.step == Some(SelectCategory) && r.draft == s.draft
  {
    Session(Some(SelectCategory), s.draft)
  }

  /** `update_data(category_id=..., category_name=...)` then `set_state(enter_title)`. */
  function WithCategory(s: Session, id: int, name: string): (r: Session)
    ensures WellFormed(r) && r.step == Some(EnterTitle)
    ensures r.draft.categoryId == Some(id) && r.draft.categoryName == Some(name)
  {
    Session(Some(EnterTitle), s.draft.(categoryId := Some(id), categoryName := Some(name)))
  }

  /** `update_data(title=...)` then `set_state(enter_ingredients)`. */
  function WithTitle(s: Session, title: string): (r: Session)
    requires WellFormed(s) && s.step == Some(EnterTitle)
    ensures WellFormed(r) && r.step == Some(EnterIngredients)
    ensures r.draft.title == Some(title) && r.draft.categoryId == s.draft.categoryId
  {
    Session(Some(EnterIngredients), s.draft.(title := Some(title)))
  }

  /** `update_data(ingredients=...)` then `set_state(enter_instructions)`. */
  function WithIngredients(s: Session, ingredients: string): (r: Session)
    requires WellFormed(s) && s.step == Some(EnterIngredients)
    ensures WellFormed(r) && r.step == Some(EnterInstructions)
    ensures r.draft.ingredients == Some(ingredients)
    ensures r.draft.title == s.draft.title && r.draft.categoryId == s.draft.categoryId
  {
    Session(Some(EnterInstructions), s.draft.(ingredients := Some(ingredients)))
  }
}
