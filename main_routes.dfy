/**
 * Which handler of `main.py` an update reaches. The dispatcher tries the
 * handlers of one kind of update in the order they are registered and runs the
 * first whose filters all pass; a handler without a state filter passes in
 * every state.
 */
module MainRoutes {
  import opened Common
  import Text
  import opened Dialogue

  // The captions of the reply keyboards, which arrive back as message text.
  const AllRecipesText: string := "🍽 Все рецепты"
  const CategoriesText: string := "🗂 Категории"
  const RandomText: string := "🎲 Случайный рецепт"
  const AddText: string := "➕ Добавить рецепт"
  const SearchText: string := "🔍 Поиск"
  const HomeText: string := "🏠 На главную"
  const CancelText: string := "❌ Отмена"

  /** The message handlers, in registration order. */
  datatype MessageRoute =
    | CmdStart
    | GoToMainMenu
    | ShowCategories
    | ShowAllRecipes
    | RandomRecipe
    | StartAddingRecipe
    | CancelAdding
    | EnterNewCategory
    | EnterRecipeTitle
    | EnterRecipeIngredients
    | EnterRecipeInstructions
    | StartSearch
    | SearchRecipes
    | NoMessageHandler

  /** The callback-query handlers, in registration order. */
  datatype CallbackRoute =
    | ShowRecipesInCategory
    | NewRandomRecipe
    | RecipesPagination
    | RateRecipe
    | SelectExistingCategory
    | NoCallbackHandler

  /** The `Command("start", "help")` filter. */
  predicate IsCommand(text: string) {
    Text.IsCommand(text, "start") || Text.IsCommand(text, "help")
  }

  /** The handler a text message reaches, given the sender's current state. */
  function DispatchMessage(step: Option<Step>, text: string): (r: MessageRoute)
    ensures MenuRoute(text).Some? ==> r == MenuRoute(text).value
    ensures IsStepRoute(r) <==> MenuRoute(text).None? && step.Some?
    ensures IsStepRoute(r) ==> r == StepRoute(step.value)
    ensures r == SearchRecipes ==> step.None? && text != "" && text != SearchText
  {
    var menu := MenuRoute(text);
    if menu.Some? then menu.value
    else if step.Some? then StepRoute(step.value)
    else IdleRoute(text)
  }

  /** The handlers registered after the dialogue steps: the search caption, then any other text. */
  function IdleRoute(text: string): (r: MessageRoute)
    ensures !IsStepRoute(r)
    ensures r == SearchRecipes <==> text != "" && text != SearchText && text != CancelText
  {
    if text == SearchText then StartSearch
    else if text != "" && text != CancelText then SearchRecipes
    else NoMessageHandler
  }

  /**
   * The state-less message handlers registered before the dialogue steps:
   * `/start` or `/help`, then the six menu and exit captions.
   */
  function MenuRoute(text: string): (r: Option<MessageRoute>)
    ensures r.Some? <==> IsCommand(text) || IsMenuCaption(text)
    ensures r == Some(CmdStart) <==> IsCommand(text)
    ensures r.Some? ==> !IsStepRoute(r.value) && r.value != SearchRecipes
  {
    if IsCommand(text) then Some(CmdStart) else CaptionRoute(text)
  }

  /** The handlers of the six menu and exit captions, in registration order. */
  function CaptionRoute(text: string): (r: Option<MessageRoute>)
    ensures r.Some? <==> IsMenuCaption(text)
    ensures r.Some? ==> r.value != CmdStart && r.value != SearchRecipes && !IsStepRoute(r.value)
  {
    if text == HomeText then Some(GoToMainMenu)
    else if text == CategoriesText then Some(ShowCategories)
    else if text == AllRecipesText then Some(ShowAllRecipes)
    else if text == RandomText then Some(RandomRecipe)
    else if text == AddText then Some(StartAddingRecipe)
    else if text == CancelText then Some(CancelAdding)
    else None
  }

  /** The six menu and exit captions, each of which has its own handler. */
  predicate IsMenuCaption(text: string) {
    text == HomeText || text == CategoriesText || text == AllRecipesText ||
    text == RandomText || text == AddText || text == CancelText
  }

  /** The handler a button press reaches, given the presser's current state. */
  function DispatchCallback(step: Option<Step>, data: string): (r: CallbackRoute)
    ensures r != SelectExistingCategory
    ensures r == ShowRecipesInCategory <==> Text.StartsWith(data, "cat_")
  {
    if Text.StartsWith(data, "cat_") then ShowRecipesInCategory
    else if data == "random_recipe" then NewRandomRecipe
    else if Text.StartsWith(data, "rec_") || Text.StartsWith(data, "prev_") || Text.StartsWith(data, "next_") then RecipesPagination
    else if Text.StartsWith(data, "like_") || Text.StartsWith(data, "dislike_") then RateRecipe
    else if step == Some(SelectCategory) && Text.StartsWith(data, "cat_") then SelectExistingCategory
    else NoCallbackHandler
  }

  /** The handlers of the four dialogue steps. */
  predicate IsStepRoute(r: MessageRoute) {
    r == EnterNewCategory || r == EnterRecipeTitle || r == EnterRecipeIngredients || r == EnterRecipeInstructions
  }

  lemma NotStartOrHelp(text: string)
    requires |text| > 0 && text[0] != '/' && !Text.IsSpace(text[0])
    ensures !IsCommand(text)
  {
    Text.NotCommand(text, "start");
    Text.NotCommand(text, "help");
  }

  /**
   * "❌ Отмена" and "🏠 На главную" reach `cancel_adding` and `go_to_main_menu`
   * in every state, the four dialogue states included.
   */
  lemma ExitsAlwaysReachable(step: Option<Step>)
    ensures DispatchMessage(step, CancelText) == CancelAdding
    ensures DispatchMessage(step, HomeText) == GoToMainMenu
  {
    NotStartOrHelp(CancelText);
    NotStartOrHelp(HomeText);
  }

  /**
   * A step handler only ever sees text other than "❌ Отмена", so the cancel
   * check each step handler starts with never fires.
   */
  lemma StepCancelChecksAreDead(step: Option<Step>, text: string)
    requires IsStepRoute(DispatchMessage(step, text))
    ensures text != CancelText && text != HomeText
    ensures step.Some?
  {
    if text == CancelText || text == HomeText {
      ExitsAlwaysReachable(step);
    }
  }

  /** The handler of one dialogue step. */
  function StepRoute(s: Step): (r: MessageRoute)
    ensures IsStepRoute(r)
  {
    match s
    case SelectCategory => EnterNewCategory
    case EnterTitle => EnterRecipeTitle
    case EnterIngredients => EnterRecipeIngredients
    case EnterInstructions => EnterRecipeInstructions
  }

  /** A step handler is reached only in its own state. */
  lemma StepRouteState(step: Option<Step>, text: string)
    requires IsStepRoute(DispatchMessage(step, text))
    ensures step.Some? && DispatchMessage(step, text) == StepRoute(step.value)
  {
  }

  /**
   * A step handler runs exactly for the current dialogue step, unless the text
   * is a command or one of the six menu and exit captions: those reach their
   * own handlers and the step keeps waiting.
   */
  lemma StepHandlerFor(s: Step, text: string)
    ensures DispatchMessage(Some(s), text) ==
      if IsCommand(text) || IsMenuCaption(text)
      then DispatchMessage(None, text)
      else StepRoute(s)
  {

  }

  /**
   * "🔍 Поиск" is registered after the step handlers: in a dialogue it is taken
   * as the category name, the title, the ingredients or the instructions.
   */
  lemma SearchCaptionConsumedByDialogue(s: Step)
    ensures IsStepRoute(DispatchMessage(Some(s), SearchText))
    ensures DispatchMessage(None, SearchText) == StartSearch
  {
    NotStartOrHelp(SearchText);
  }

  /**
   * Outside a dialogue, any other non-empty text that is no command and no menu
   * caption is a search query.
   */
  lemma IdleTextSearches(text: string)
    requires text != "" && !IsCommand(text)
    requires !IsMenuCaption(text) && text != SearchText
    ensures DispatchMessage(None, text) == SearchRecipes
  {
  }

  /**
   * `select_existing_category` is unreachable: every `cat_` press is taken first
   * by the state-less `show_recipes_in_category`, in the category step too.
   */
  lemma ExistingCategoryShadowed(step: Option<Step>, data: string)
    ensures DispatchCallback(step, data) != SelectExistingCategory
    ensures Text.StartsWith(data, "cat_") ==> DispatchCallback(step, data) == ShowRecipesInCategory
  {
  }

  /** No handler is registered for the "main" data of the inline home buttons. */
  lemma InlineHomeUnhandled(step: Option<Step>)
    ensures DispatchCallback(step, "main") == NoCallbackHandler
  {
    var m := "main";
    assert m[0] == 'm' && m[3] == 'n';
    Text.FirstCharDiffers(m, "cat_");
    Text.FirstCharDiffers(m, "random_recipe");
    Text.FirstCharDiffers(m, "rec_");
    Text.FirstCharDiffers(m, "prev_");
    Text.FirstCharDiffers(m, "next_");
    Text.FirstCharDiffers(m, "like_");
    Text.FirstCharDiffers(m, "dislike_");
  }

  /** The "new random" button reaches `new_random_recipe_callback`. */
  lemma RandomDataRoutes(step: Option<Step>)
    ensures DispatchCallback(step, "random_recipe") == NewRandomRecipe
  {
    Text.FirstCharDiffers("random_recipe", "cat_");
  }

  /** The data of the rating buttons reaches `rate_recipe` whatever follows the prefix. */
  lemma RatingDataRoutes(step: Option<Step>, word: string, rest: string)
    requires word == "like" || word == "dislike"
    ensures DispatchCallback(step, word + "_" + rest) == RateRecipe
  {
    var data := word + "_" + rest;
    Text.StartsWithConcat(word + "_", rest);
    assert data[0] == word[0];
    Text.FirstCharDiffers(data, "cat_");
    Text.FirstCharDiffers(data, "random_recipe");
    Text.FirstCharDiffers(data, "rec_");
    Text.FirstCharDiffers(data, "prev_");
    Text.FirstCharDiffers(data, "next_");
  }

  /** Callback routing does not depend on the dialogue state. */
  lemma CallbacksIgnoreState(step: Option<Step>, data: string)
    ensures DispatchCallback(step, data) == DispatchCallback(None, data)
  {
  }
}
