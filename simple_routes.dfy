/**
 * Which handler of `bot.py` an update reaches. As in `main.py`, the handlers
 * of one kind of update are tried in registration order and the first whose
 * filters all pass runs; a handler without a state filter passes in every
 * state. `bot.py` registers its state-filtered handlers before the menu
 * captions, and has no cancel path.
 */
module SimpleRoutes {
  import opened Common
  import Text
  import opened Dialogue

  // The captions of the main reply keyboard.
  const CategoriesText: string := "Категории 🗂"
  const AllRecipesText: string := "Все рецепты 📋"
  const AddText: string := "Добавить рецепт ➕"

  /** The data of the button under a filtered listing. */
  const BackData: string := "back_to_categories"

  /** The message handlers, in registration order. */
  datatype MessageRoute =
    | CmdStart
    | AddRecipeStart
    | ProcessNewCategory
    | ProcessTitle
    | ProcessIngredients
    | ProcessInstructions
    | ShowCategories
    | ShowAllRecipes
    | NoMessageHandler

  /** The callback-query handlers, in registration order. */
  datatype CallbackRoute =
    | ProcessCategory
    | ShowRecipesByCategory
    | BackToCategories
    | ShowRecipe
    | NoCallbackHandler

  /** The handler a text message reaches, given the sender's current state. */
  function DispatchMessage(step: Option<Step>, text: string): (r: MessageRoute)
    ensures r == CmdStart <==> Text.IsCommand(text, "start")
    ensures r in {ProcessNewCategory, ProcessTitle, ProcessIngredients, ProcessInstructions} ==>
      step.Some? && r == StepRoute(step.value)
  {
    if Text.IsCommand(text, "start") then CmdStart
    else if text == AddText then AddRecipeStart
    else if step == Some(SelectCategory) then ProcessNewCategory
    else if step == Some(EnterTitle) then ProcessTitle
    else if step == Some(EnterIngredients) then ProcessIngredients
    else if step == Some(EnterInstructions) then ProcessInstructions
    else if text == CategoriesText then ShowCategories
    else if text == AllRecipesText then ShowAllRecipes
    else NoMessageHandler
  }

  /** The handler a button press reaches, given the presser's current state. */
  function DispatchCallback(step: Option<Step>, data: string): (r: CallbackRoute)
    ensures r == ProcessCategory <==> step == Some(SelectCategory) && Text.StartsWith(data, "category_")
    ensures r == ProcessCategory || r == ShowRecipesByCategory <==> Text.StartsWith(data, "category_")
  {
    if step == Some(SelectCategory) && Text.StartsWith(data, "category_") then ProcessCategory
    else if Text.StartsWith(data, "category_") then ShowRecipesByCategory
    else if data == BackData then BackToCategories
    else if Text.StartsWith(data, "recipe_") then ShowRecipe
    else NoCallbackHandler
  }

  /** The handler of one dialogue step. */
  function StepRoute(s: Step): (r: MessageRoute)
    ensures r in {ProcessNewCategory, ProcessTitle, ProcessIngredients, ProcessInstructions}
  {
    match s
    case SelectCategory => ProcessNewCategory
    case EnterTitle => ProcessTitle
    case EnterIngredients => ProcessIngredients
    case EnterInstructions => ProcessInstructions
  }

  /**
   * In a dialogue every text but `/start` and "Добавить рецепт ➕" is taken as
   * the answer to the current step.
   */
  lemma CreationConsumesText(s: Step, text: string)
    requires !Text.IsCommand(text, "start") && text != AddText
    ensures DispatchMessage(Some(s), text) == StepRoute(s)
  {
  }

  /** A step handler is reached only in its own state. */
  lemma StepRouteState(step: Option<Step>, text: string)
    requires DispatchMessage(step, text) in {ProcessNewCategory, ProcessTitle, ProcessIngredients, ProcessInstructions}
    ensures step.Some? && DispatchMessage(step, text) == StepRoute(step.value)
  {
  }

  /**
   * "Категории 🗂" and "Все рецепты 📋" are registered after the step handlers:
   * in a dialogue they become the category name, the title, the ingredients or
   * the instructions.
   */
  lemma MenuCaptionsConsumed(s: Step)
    ensures DispatchMessage(Some(s), CategoriesText) == StepRoute(s)
    ensures DispatchMessage(Some(s), AllRecipesText) == StepRoute(s)
  {
    Text.NotCommand(CategoriesText, "start");
    Text.NotCommand(AllRecipesText, "start");
    Text.FirstCharDiffers(CategoriesText, AddText);
    Text.FirstCharDiffers(AllRecipesText, AddText);
    CreationConsumesText(s, CategoriesText);
    CreationConsumesText(s, AllRecipesText);
  }

  /** Outside a dialogue a text that is no command and no "Добавить рецепт ➕" reaches a menu handler or none. */
  lemma IdleText(text: string)
    requires !Text.IsCommand(text, "start") && text != AddText
    ensures DispatchMessage(None, text) ==
      if text == CategoriesText then ShowCategories
      else if text == AllRecipesText then ShowAllRecipes
      else NoMessageHandler
  {
  }

  /** Outside a dialogue "Категории 🗂" opens the category list. */
  lemma CategoriesCaptionIdle()
    ensures DispatchMessage(None, CategoriesText) == ShowCategories
  {
    Text.NotCommand(CategoriesText, "start");
    Text.FirstCharDiffers(CategoriesText, AddText);
    IdleText(CategoriesText);
  }

  /** Outside a dialogue "Все рецепты 📋" opens the full listing. */
  lemma AllRecipesCaptionIdle()
    ensures DispatchMessage(None, AllRecipesText) == ShowAllRecipes
  {
    Text.NotCommand(AllRecipesText, "start");
    Text.FirstCharDiffers(AllRecipesText, AddText);
    Text.FirstCharDiffers(AllRecipesText, CategoriesText);
    IdleText(AllRecipesText);
  }

  /** "Добавить рецепт ➕" restarts the dialogue from any state. */
  lemma AddAlwaysReachable(step: Option<Step>)
    ensures DispatchMessage(step, AddText) == AddRecipeStart
  {
    Text.NotCommand(AddText, "start");
  }

  /**
   * A `category_` press records the category in the category step and lists
   * the category's recipes in every other state, other dialogue steps included.
   */
  lemma CategoryPressRoutes(step: Option<Step>, rest: string)
    ensures DispatchCallback(step, "category_" + rest) ==
      if step == Some(SelectCategory) then ProcessCategory else ShowRecipesByCategory
  {
    Text.StartsWithConcat("category_", rest);
  }

  /** The back button reaches `back_to_categories` in every state. */
  lemma BackRoutes(step: Option<Step>)
    ensures DispatchCallback(step, BackData) == BackToCategories
  {
    Text.FirstCharDiffers(BackData, "category_");
  }

  /** A `recipe_` press reaches `show_recipe` in every state. */
  lemma RecipePressRoutes(step: Option<Step>, rest: string)
    ensures DispatchCallback(step, "recipe_" + rest) == ShowRecipe
  {
    var data := "recipe_" + rest;
    Text.StartsWithConcat("recipe_", rest);
    assert data[0] == 'r';
    Text.FirstCharDiffers(data, "category_");
    Text.FirstCharDiffers(data, BackData);
  }
}
