/**
 * The recipe bot of `bot.py`: users, categories and recipes without votes, the
 * four-step add-recipe dialogue without a cancel path, a one-per-row category
 * keyboard and complete, unpaginated recipe listings. Each handler is one
 * atomic step on the store.
 */
module SimpleBot {
  import opened Common
  import Text
  import opened Listing
  import opened Keyboards
  import Catalog
  import opened Dialogue
  import SimpleRoutes

  /** A `recipes` row of this schema: no counters; `author` is the `user_id` column. */
  datatype Recipe = Recipe(
    title: string,
    categoryId: int,
    ingredients: string,
    instructions: string,
    author: int)

  /** What a handler sends back; message texts are not modelled. */
  datatype Reply =
    | Menu                                              // a text with the main menu keyboard
    | Prompt                                            // the next question of the dialogue
    | CategoryList(kb: Keyboard)                        // `make_categories_keyboard()`
    | RecipeList(category: Option<string>, kb: Keyboard) // `make_recipes_keyboard(...)`, under the category name if filtered
    | Card(id: int)                                     // the recipe card
    | NotFound                                          // "recipe not found"
    | Silent                                            // nothing is sent
    | Failure                                           // the handler raises before it answers

  /** `SELECT name FROM categories WHERE id = ?` finds a row. */
  predicate HasCategory(t: Catalog.CategoryTable, id: int) {
    Catalog.NameById(t.rows, id).Some?
  }

  /** The category a draft names, if any, exists. */
  predicate DraftKnown(t: Catalog.CategoryTable, d: Draft) {
    d.categoryId.Some? ==> HasCategory(t, d.categoryId.value)
  }

  /**
   * The store invariant: a well-formed category table, dense recipe ids, every
   * recipe in an existing category, every dialogue well formed and naming an
   * existing category.
   */
  predicate Stored(t: Catalog.CategoryTable, recipes: map<int, Recipe>, next: nat, sessions: map<int, Session>) {
    && Catalog.WellFormed(t)
    && Dense(recipes, next)
    && (forall id :: id in recipes ==> HasCategory(t, recipes[id].categoryId))
    && (forall u :: u in sessions ==> Dialogue.WellFormed(sessions[u]) && DraftKnown(t, sessions[u].draft))
  }

  // ---------------------------------------------------------- category list

  function CategoryButton(c: Row): Button
  {
    Button(c.text, "category_" + Text.IntToString(c.id))
  }

  /** `make_categories_keyboard`: one category per row. */
  function CategoriesKeyboard(cats: seq<Row>): Keyboard
  {
    seq(|cats|, i requires 0 <= i < |cats| => [CategoryButton(cats[i])])
  }

  /** The button of a stored category picks that category back. */
  lemma CategoryButtonPicks(t: Catalog.CategoryTable, r: Row)
    requires Catalog.WellFormed(t) && Catalog.Category(r.id, r.text) in t.rows
    ensures Catalog.PickedCategory(t, CategoryButton(r).token) == Some(Catalog.Category(r.id, r.text))
  {
    assert CategoryButton(r).token == "category" + "_" + Text.IntToString(r.id);
    Catalog.PickedToken(t, "category", Catalog.Category(r.id, r.text));
  }

  /**
   * The category keyboard has one row per category, in name order, and each
   * button's data picks back the category it is captioned with.
   */
  lemma CategoriesKeyboardSpec(t: Catalog.CategoryTable)
    requires Catalog.WellFormed(t)
    ensures var rows := Catalog.CategoryRows(t);
      var kb := CategoriesKeyboard(rows);
      && |kb| == |t.rows|
      && (forall i :: 0 <= i < |kb| ==>
            && kb[i] == [CategoryButton(rows[i])] && kb[i][0].caption == rows[i].text
            && Catalog.PickedCategory(t, kb[i][0].token) == Some(Catalog.Category(rows[i].id, rows[i].text)))
      && (forall i, j :: 0 <= i < j < |kb| ==> Text.Less(kb[i][0].caption, kb[j][0].caption))
  {
    var rows := Catalog.CategoryRows(t);
    var kb: Keyboard := CategoriesKeyboard(rows);
    Catalog.CategoryRowsSpec(t);
    forall i | 0 <= i < |kb|
      ensures Catalog.PickedCategory(t, kb[i][0].token) == Some(Catalog.Category(rows[i].id, rows[i].text))
    {
      assert rows[i] in rows;
      CategoryButtonPicks(t, rows[i]);
    }
  }

  /** Every stored category is offered on the category keyboard. */
  lemma CategoriesKeyboardComplete(t: Catalog.CategoryTable)
    requires Catalog.WellFormed(t)
    ensures forall c :: c in t.rows ==> Offers(CategoriesKeyboard(Catalog.CategoryRows(t)), CategoryButton(Row(c.id, c.name)))
  {
    var rows := Catalog.CategoryRows(t);
    var kb: Keyboard := CategoriesKeyboard(rows);
    Catalog.CategoryRowsSpec(t);
    forall c | c in t.rows ensures Offers(kb, CategoryButton(Row(c.id, c.name))) {
      assert Row(c.id, c.name) in rows;
      var i :| 0 <= i < |rows| && rows[i] == Row(c.id, c.name);
      assert CategoryButton(Row(c.id, c.name)) in kb[i];
    }
  }

  // ---------------------------------------------------------- recipe lists

  function RecipeButton(r: Row): Button
  {
    Button(r.text, "recipe_" + Text.IntToString(r.id))
  }

  const BackButton := Button("⬅️ Назад к категориям", SimpleRoutes.BackData)

  /** `make_recipes_keyboard`: one recipe per row, then the back button when filtered. */
  function RecipesKeyboard(rows: seq<Row>, filter: Option<int>): Keyboard
  {
    seq(|rows|, i requires 0 <= i < |rows| => [RecipeButton(rows[i])])
      + (if Truthy(filter) then [[BackButton]] else [])
  }

  /** A recipe button carries its recipe's id and is never the back button. */
  lemma RecipeButtonDecodes(r: Row, step: Option<Step>)
    ensures Text.TokenId(RecipeButton(r).token) == Some(r.id)
    ensures SimpleRoutes.DispatchCallback(step, RecipeButton(r).token) == SimpleRoutes.ShowRecipe
    ensures RecipeButton(r) != BackButton
  {
    var rest := Text.IntToString(r.id);
    assert RecipeButton(r).token == "recipe" + "_" + rest;
    Text.TokenIdRoundTrip("recipe", r.id);
    SimpleRoutes.RecipePressRoutes(step, rest);
    Text.FirstCharDiffers(RecipeButton(r).token, SimpleRoutes.BackData);
  }

  /**
   * The recipe keyboard lists the given rows in order, one per row, each
   * leading to its recipe's card; the back button is there exactly when the
   * listing is filtered.
   */
  lemma RecipesKeyboardSpec(rows: seq<Row>, filter: Option<int>, step: Option<Step>)
    ensures var kb := RecipesKeyboard(rows, filter);
      && |kb| == |rows| + (if Truthy(filter) then 1 else 0)
      && (forall i :: 0 <= i < |rows| ==>
            && |kb[i]| == 1 && kb[i][0].caption == rows[i].text
            && Text.TokenId(kb[i][0].token) == Some(rows[i].id)
            && SimpleRoutes.DispatchCallback(step, kb[i][0].token) == SimpleRoutes.ShowRecipe)
      && (Offers(kb, BackButton) <==> Truthy(filter))
  {
    var kb: Keyboard := RecipesKeyboard(rows, filter);
    forall i | 0 <= i < |rows|
      ensures Text.TokenId(kb[i][0].token) == Some(rows[i].id)
      ensures SimpleRoutes.DispatchCallback(step, kb[i][0].token) == SimpleRoutes.ShowRecipe
    {
      RecipeButtonDecodes(rows[i], step);
    }
    if Truthy(filter) {
      assert BackButton in kb[|rows|];
    } else {
      forall i | 0 <= i < |kb| ensures BackButton !in kb[i] {
        RecipeButtonDecodes(rows[i], step);
      }
    }
  }

  /** The part of each recipe row the listing queries read. */
  function Entries(recipes: map<int, Recipe>): map<int, Entry>
  {
    map id | id in recipes :: Entry(recipes[id].title, recipes[id].categoryId)
  }

  /** `SELECT id, title FROM recipes [WHERE category_id = ?] ORDER BY title`, no limit. */
  function RecipeRows(recipes: map<int, Recipe>, next: nat, filter: Option<int>): seq<Row>
  {
    Query(Entries(recipes), filter, next)
  }

  /** A recipe the listing with this filter includes, as its row. */
  predicate Listed(recipes: map<int, Recipe>, filter: Option<int>, r: Row) {
    r.id in recipes && r.text == recipes[r.id].title
    && (Truthy(filter) ==> recipes[r.id].categoryId == filter.value)
  }

  /**
   * The listing is complete: it holds every stored recipe of the filtered
   * category (of every category when the filter is falsy), each once, in title
   * order, and nothing else.
   */
  lemma ListingSpec(recipes: map<int, Recipe>, next: nat, filter: Option<int>)
    requires Dense(recipes, next)
    ensures Ordered(RecipeRows(recipes, next, filter))
    ensures forall r :: r in RecipeRows(recipes, next, filter) <==> Listed(recipes, filter, r)
  {
    QueryExact(Entries(recipes), filter, next);
  }

  // ------------------------------------------------------------ recipe card

  /**
   * `show_recipe`: the card query joins the category and the author, so it
   * finds the recipe only when both exist.
   */
  predicate Shown(recipes: map<int, Recipe>, t: Catalog.CategoryTable, users: map<int, Catalog.User>, id: int) {
    id in recipes && HasCategory(t, recipes[id].categoryId) && recipes[id].author in users
  }

  /**
   * In a consistent store a recipe's card is found exactly when its author has
   * registered.
   */
  lemma CardNeedsRegisteredAuthor(t: Catalog.CategoryTable, recipes: map<int, Recipe>, next: nat,
                                  sessions: map<int, Session>, users: map<int, Catalog.User>, id: int)
    requires Stored(t, recipes, next, sessions)
    ensures Shown(recipes, t, users, id) <==> 1 <= id < next && recipes[id].author in users
  {
  }

  // ----------------------------------------------------------------- drafts

  /** The row `process_instructions` inserts: the draft, the text, the sender. */
  function Committed(d: Draft, instructions: string, author: int): Recipe
    requires d.title.Some? && d.categoryId.Some? && d.ingredients.Some?
  {
    Recipe(d.title.value, d.categoryId.value, d.ingredients.value, instructions, author)
  }

  /** The store invariant survives the category table growing at its end. */
  lemma StoredAfterGrowth(t: Catalog.CategoryTable, t2: Catalog.CategoryTable, recipes: map<int, Recipe>, next: nat,
                          sessions: map<int, Session>)
    requires Stored(t, recipes, next, sessions) && Catalog.WellFormed(t2)
    requires |t.rows| <= |t2.rows| && t2.rows[..|t.rows|] == t.rows
    ensures Stored(t2, recipes, next, sessions)
  {
    forall id | HasCategory(t, id) ensures HasCategory(t2, id) {
      var i :| 0 <= i < |t.rows| && t.rows[i].id == id;
      assert t2.rows[i] == t.rows[i];
    }
  }

  /** Recording a found-or-created category in one user's draft keeps the store invariant. */
  lemma StoredAfterRecord(t: Catalog.CategoryTable, recipes: map<int, Recipe>, next: nat,
                          sessions: map<int, Session>, user: int, name: string)
    requires Stored(t, recipes, next, sessions)
    ensures var found := Catalog.FindOrCreate(t, name);
      Stored(found.0, recipes, next, sessions[user := WithCategory(SessionOf(sessions, user), found.1, name)])
  {
    var found := Catalog.FindOrCreate(t, name);
    Catalog.FindOrCreateSpec(t, name);
    StoredAfterGrowth(t, found.0, recipes, next, sessions);
    assert HasCategory(found.0, found.1);
    StoredAfterSession(found.0, recipes, next, sessions, user, WithCategory(SessionOf(sessions, user), found.1, name));
  }

  /** Storing a recipe in an existing category under the next id, and ending a dialogue, keeps the store invariant. */
  lemma StoredAfterCommit(t: Catalog.CategoryTable, recipes: map<int, Recipe>, next: nat,
                          sessions: map<int, Session>, user: int, r: Recipe)
    requires Stored(t, recipes, next, sessions) && HasCategory(t, r.categoryId)
    ensures Stored(t, recipes[next := r], next + 1, sessions[user := Idle])
  {
    StoredAfterSession(t, recipes, next, sessions, user, Idle);
  }

  /** Setting one user's dialogue to a well-formed one naming a known category keeps the store invariant. */
  lemma StoredAfterSession(t: Catalog.CategoryTable, recipes: map<int, Recipe>, next: nat,
                           sessions: map<int, Session>, user: int, s: Session)
    requires Stored(t, recipes, next, sessions)
    requires Dialogue.WellFormed(s) && DraftKnown(t, s.draft)
    ensures Stored(t, recipes, next, sessions[user := s])
  {
  }

  // -------------------------------------------------------------------- bot

  class RecipeBot {
    var users: map<int, Catalog.User>
    var categories: Catalog.CategoryTable
    var recipes: map<int, Recipe>
    var nextRecipeId: nat
    var sessions: map<int, Session>

    ghost predicate Valid()
      reads this
    {
      Stored(categories, recipes, nextRecipeId, sessions)
    }

    /** A fresh database: `init_db` creates the three tables and fills none. */
    constructor()
      ensures Valid()
      ensures users == map[] && recipes == map[] && sessions == map[]
      ensures categories == Catalog.EmptyCategories && nextRecipeId == 1
    {
      users := map[];
      categories := Catalog.EmptyCategories;
      recipes := map[];
      nextRecipeId := 1;
      sessions := map[];
    }

    /** `cmd_start`: register the sender; the dialogue state is left as it is. */
    method CmdStart(user: int, username: Option<string>, fullName: string) returns (reply: Reply)
      requires Valid()
      modifies this
      ensures Valid() && reply == Menu
      ensures users == Catalog.Register(old(users), user, username, fullName)
      ensures categories == old(categories) && recipes == old(recipes) && nextRecipeId == old(nextRecipeId)
      ensures sessions == old(sessions)
    {
      users := Catalog.Register(users, user, username, fullName);
      reply := Menu;
    }

    /** `make_categories_keyboard` over the current table. */
    method CategoriesView() returns (kb: Keyboard)
      requires Valid()
      ensures kb == CategoriesKeyboard(Catalog.CategoryRows(categories))
      ensures |kb| == |categories.rows|
      ensures forall c :: c in categories.rows ==> Offers(kb, CategoryButton(Row(c.id, c.name)))
    {
      CategoriesKeyboardSpec(categories);
      CategoriesKeyboardComplete(categories);
      kb := CategoriesKeyboard(Catalog.CategoryRows(categories));
    }

    /** `make_recipes_keyboard(category_id)` over the current table. */
    method RecipesView(filter: Option<int>) returns (kb: Keyboard)
      requires Valid()
      ensures kb == RecipesKeyboard(RecipeRows(recipes, nextRecipeId, filter), filter)
      ensures forall r :: r in RecipeRows(recipes, nextRecipeId, filter) <==> Listed(recipes, filter, r)
      ensures Offers(kb, BackButton) <==> Truthy(filter)
    {
      ListingSpec(recipes, nextRecipeId, filter);
      RecipesKeyboardSpec(RecipeRows(recipes, nextRecipeId, filter), filter, None);
      kb := RecipesKeyboard(RecipeRows(recipes, nextRecipeId, filter), filter);
    }

    /** `add_recipe_start`: show the categories and wait for one; the data dictionary is kept. */
    method AddRecipeStart(user: int) returns (reply: Reply)
      requires Valid()
      modifies this
      ensures Valid()
      ensures reply == CategoryList(CategoriesKeyboard(Catalog.CategoryRows(categories)))
      ensures sessions == old(sessions)[user := Started(old(SessionOf(sessions, user)))]
      ensures users == old(users) && categories == old(categories) && recipes == old(recipes)
      ensures nextRecipeId == old(nextRecipeId)
    {
      var kb := CategoriesView();
      var s := Started(SessionOf(sessions, user));
      StoredAfterSession(categories, recipes, nextRecipeId, sessions, user, s);
      sessions := sessions[user := s];
      reply := CategoryList(kb);
    }

    /**
     * `process_category`: a `category_<id>` press records the category and asks
     * for the title; an id `int()` rejects or no category has raises.
     */
    method ProcessCategory(user: int, data: string) returns (reply: Reply)
      requires Valid() && SessionOf(sessions, user).step == Some(SelectCategory)
      modifies this
      ensures Valid()
      ensures Catalog.PickedCategory(old(categories), data).None? ==> reply == Failure && sessions == old(sessions)
      ensures Catalog.PickedCategory(old(categories), data).Some? ==>
        var c := Catalog.PickedCategory(old(categories), data).value;
        reply == Prompt && sessions == old(sessions)[user := WithCategory(old(SessionOf(sessions, user)), c.id, c.name)]
      ensures users == old(users) && categories == old(categories) && recipes == old(recipes)
      ensures nextRecipeId == old(nextRecipeId)
    {
      var picked := Catalog.PickedCategory(categories, data);
      if picked.None? {
        reply := Failure;
        return;
      }
      var c := picked.value;
      var s := WithCategory(SessionOf(sessions, user), c.id, c.name);
      assert HasCategory(categories, c.id);
      StoredAfterSession(categories, recipes, nextRecipeId, sessions, user, s);
      sessions := sessions[user := s];
      reply := Prompt;
    }

    /**
     * `process_new_category`: the stripped text is found or created as a
     * category, recorded in the draft, and the title is asked for.
     */
    method ProcessNewCategory(user: int, text: string) returns (reply: Reply)
      requires Valid() && SessionOf(sessions, user).step == Some(SelectCategory)
      modifies this
      ensures Valid() && reply == Prompt
      ensures var name := Text.Strip(text);
        var found := Catalog.FindOrCreate(old(categories), name);
        && categories == found.0
        && sessions == old(sessions)[user := WithCategory(old(SessionOf(sessions, user)), found.1, name)]
      ensures users == old(users) && recipes == old(recipes) && nextRecipeId == old(nextRecipeId)
    {
      RecordCategory(user, Text.Strip(text));
      reply := Prompt;
    }

    /** The body of `process_new_category`: `INSERT OR IGNORE`, then `SELECT id`, then the draft. */
    method RecordCategory(user: int, name: string)
      requires Valid()
      modifies this
      ensures Valid()
      ensures var found := Catalog.FindOrCreate(old(categories), name);
        && categories == found.0
        && sessions == old(sessions)[user := WithCategory(old(SessionOf(sessions, user)), found.1, name)]
      ensures users == old(users) && recipes == old(recipes) && nextRecipeId == old(nextRecipeId)
    {
      StoredAfterRecord(categories, recipes, nextRecipeId, sessions, user, name);
      var found := Catalog.FindOrCreate(categories, name);
      sessions := sessions[user := WithCategory(SessionOf(sessions, user), found.1, name)];
      categories := found.0;
    }

    /** `process_title`: the text becomes the title; ingredients are asked for. */
    method ProcessTitle(user: int, text: string) returns (reply: Reply)
      requires Valid() && SessionOf(sessions, user).step == Some(EnterTitle)
      modifies this
      ensures Valid() && reply == Prompt
      ensures sessions == old(sessions)[user := WithTitle(old(SessionOf(sessions, user)), text)]
      ensures users == old(users) && categories == old(categories) && recipes == old(recipes)
      ensures nextRecipeId == old(nextRecipeId)
    {
      var s := WithTitle(SessionOf(sessions, user), text);
      StoredAfterSession(categories, recipes, nextRecipeId, sessions, user, s);
      sessions := sessions[user := s];
      reply := Prompt;
    }

    /** `process_ingredients`: the text becomes the ingredients; instructions are asked for. */
    method ProcessIngredients(user: int, text: string) returns (reply: Reply)
      requires Valid() && SessionOf(sessions, user).step == Some(EnterIngredients)
      modifies this
      ensures Valid() && reply == Prompt
      ensures sessions == old(sessions)[user := WithIngredients(old(SessionOf(sessions, user)), text)]
      ensures users == old(users) && categories == old(categories) && recipes == old(recipes)
      ensures nextRecipeId == old(nextRecipeId)
    {
      var s := WithIngredients(SessionOf(sessions, user), text);
      StoredAfterSession(categories, recipes, nextRecipeId, sessions, user, s);
      sessions := sessions[user := s];
      reply := Prompt;
    }

    /**
     * `process_instructions`: the one place a recipe is written. The draft and
     * the text become a new row under the next id, and the dialogue ends.
     */
    method ProcessInstructions(user: int, text: string) returns (reply: Reply)
      requires Valid() && SessionOf(sessions, user).step == Some(EnterInstructions)
      modifies this
      ensures Valid() && reply == Menu
      ensures recipes == old(recipes)[old(nextRecipeId) := Committed(old(SessionOf(sessions, user)).draft, text, user)]
      ensures nextRecipeId == old(nextRecipeId) + 1
      ensures sessions == old(sessions)[user := Idle]
      ensures users == old(users) && categories == old(categories)
    {
      var r := Committed(SessionOf(sessions, user).draft, text, user);
      assert Stored(categories, recipes[nextRecipeId := r], nextRecipeId + 1, sessions[user := Idle]) by {
        StoredAfterCommit(categories, recipes, nextRecipeId, sessions, user, r);
      }
      recipes := recipes[nextRecipeId := r];
      nextRecipeId := nextRecipeId + 1;
      sessions := sessions[user := Idle];
      reply := Menu;
    }

    /** `show_recipes_by_category`: the picked category's complete listing, with the back button. */
    method ShowRecipesByCategory(data: string) returns (reply: Reply)
      requires Valid()
      ensures Catalog.PickedCategory(categories, data).None? ==> reply == Failure
      ensures Catalog.PickedCategory(categories, data).Some? ==>
        var c := Catalog.PickedCategory(categories, data).value;
        && reply == RecipeList(Some(c.name), RecipesKeyboard(RecipeRows(recipes, nextRecipeId, Some(c.id)), Some(c.id)))
        && Offers(reply.kb, BackButton)
    {
      var picked := Catalog.PickedCategory(categories, data);
      if picked.None? {
        reply := Failure;
        return;
      }
      var c := picked.value;
      assert 1 <= c.id by {
        var i :| 0 <= i < |categories.rows| && categories.rows[i] == c;
      }
      var kb := RecipesView(Some(c.id));
      reply := RecipeList(Some(c.name), kb);
    }

    /** `show_recipe`: the card of the recipe the press names, or "not found". */
    method ShowRecipe(data: string) returns (reply: Reply)
      requires Valid()
      ensures Text.TokenId(data).None? ==> reply == Failure
      ensures Text.TokenId(data).Some? ==>
        var id := Text.TokenId(data).value;
        reply == if Shown(recipes, categories, users, id) then Card(id) else NotFound
    {
      var id := Text.TokenId(data);
      if id.None? {
        reply := Failure;
      } else if Shown(recipes, categories, users, id.value) {
        reply := Card(id.value);
      } else {
        reply := NotFound;
      }
    }

    /**
     * One text message from `user`. Only the instructions step writes a recipe,
     * only the category step writes a category, only `/start` writes a user; no
     * message touches another user's dialogue.
     */
    method HandleMessage(user: int, username: Option<string>, fullName: string, text: string)
      returns (reply: Reply)
      requires Valid()
      modifies this
      ensures Valid()
      ensures forall u :: u != user ==> SessionOf(sessions, u) == SessionOf(old(sessions), u)
      ensures var route := SimpleRoutes.DispatchMessage(old(SessionOf(sessions, user)).step, text);
        && (route == SimpleRoutes.ProcessInstructions ==>
              recipes == old(recipes)[old(nextRecipeId) := Committed(old(SessionOf(sessions, user)).draft, text, user)])
        && (route != SimpleRoutes.ProcessInstructions ==> recipes == old(recipes) && nextRecipeId == old(nextRecipeId))
        && (route != SimpleRoutes.ProcessNewCategory ==> categories == old(categories))
        && (route != SimpleRoutes.CmdStart ==> users == old(users))
      ensures var s0 := old(SessionOf(sessions, user));
        var route := SimpleRoutes.DispatchMessage(s0.step, text);
        && (route == SimpleRoutes.ProcessNewCategory ==>
              var name := Text.Strip(text);
              var found := Catalog.FindOrCreate(old(categories), name);
              reply == Prompt && categories == found.0 && sessions == old(sessions)[user := WithCategory(s0, found.1, name)])
        && (route == SimpleRoutes.ProcessTitle ==> reply == Prompt && sessions == old(sessions)[user := WithTitle(s0, text)])
        && (route == SimpleRoutes.ProcessIngredients ==>
              reply == Prompt && sessions == old(sessions)[user := WithIngredients(s0, text)])
        && (route == SimpleRoutes.ProcessInstructions ==>
              reply == Menu && sessions == old(sessions)[user := Idle] && nextRecipeId == old(nextRecipeId) + 1)
      ensures var route := SimpleRoutes.DispatchMessage(old(SessionOf(sessions, user)).step, text);
        && (route == SimpleRoutes.CmdStart ==>
              reply == Menu && users == Catalog.Register(old(users), user, username, fullName) && sessions == old(sessions))
        && (route == SimpleRoutes.AddRecipeStart ==>
              && reply == CategoryList(CategoriesKeyboard(Catalog.CategoryRows(categories)))
              && sessions == old(sessions)[user := Started(old(SessionOf(sessions, user)))])
        && (route in {SimpleRoutes.ShowCategories, SimpleRoutes.ShowAllRecipes, SimpleRoutes.NoMessageHandler} ==>
              sessions == old(sessions))
        && (route == SimpleRoutes.ShowCategories ==> reply == CategoryList(CategoriesKeyboard(Catalog.CategoryRows(categories))))
        && (route == SimpleRoutes.ShowAllRecipes ==>
              reply == RecipeList(None, RecipesKeyboard(RecipeRows(recipes, nextRecipeId, None), None)))
        && (route == SimpleRoutes.NoMessageHandler ==> reply == Silent)
    {
      var step := SessionOf(sessions, user).step;
      var route := SimpleRoutes.DispatchMessage(step, text);
      if route in {SimpleRoutes.ProcessNewCategory, SimpleRoutes.ProcessTitle,
                   SimpleRoutes.ProcessIngredients, SimpleRoutes.ProcessInstructions} {
        SimpleRoutes.StepRouteState(step, text);
        reply := HandleStep(user, text);
      } else {
        reply := HandleMenu(user, username, fullName, route);
      }
    }

    /** A message that reaches the handler of the sender's dialogue step. */
    method HandleStep(user: int, text: string) returns (reply: Reply)
      requires Valid() && SessionOf(sessions, user).step.Some?
      modifies this
      ensures Valid() && users == old(users)
      ensures forall u :: u != user ==> SessionOf(sessions, u) == SessionOf(old(sessions), u)
      ensures var route := SimpleRoutes.StepRoute(old(SessionOf(sessions, user)).step.value);
        && (route == SimpleRoutes.ProcessInstructions ==>
              recipes == old(recipes)[old(nextRecipeId) := Committed(old(SessionOf(sessions, user)).draft, text, user)])
        && (route != SimpleRoutes.ProcessInstructions ==> recipes == old(recipes) && nextRecipeId == old(nextRecipeId))
        && (route != SimpleRoutes.ProcessNewCategory ==> categories == old(categories))
      ensures var s0 := old(SessionOf(sessions, user));
        var route := SimpleRoutes.StepRoute(s0.step.value);
        && (route == SimpleRoutes.ProcessNewCategory ==>
              var name := Text.Strip(text);
              var found := Catalog.FindOrCreate(old(categories), name);
              reply == Prompt && categories == found.0 && sessions == old(sessions)[user := WithCategory(s0, found.1, name)])
        && (route == SimpleRoutes.ProcessTitle ==> reply == Prompt && sessions == old(sessions)[user := WithTitle(s0, text)])
        && (route == SimpleRoutes.ProcessIngredients ==>
              reply == Prompt && sessions == old(sessions)[user := WithIngredients(s0, text)])
        && (route == SimpleRoutes.ProcessInstructions ==>
              reply == Menu && sessions == old(sessions)[user := Idle] && nextRecipeId == old(nextRecipeId) + 1)
    {
      match SessionOf(sessions, user).step.value
      case SelectCategory => reply := ProcessNewCategory(user, text);
      case EnterTitle => reply := ProcessTitle(user, text);
      case EnterIngredients => reply := ProcessIngredients(user, text);
      case EnterInstructions => reply := ProcessInstructions(user, text);
    }

    /** A message that reaches `/start`, the add button or a menu caption: none of them writes a recipe. */
    method HandleMenu(user: int, username: Option<string>, fullName: string, route: SimpleRoutes.MessageRoute)
      returns (reply: Reply)
      requires Valid()
      requires route !in {SimpleRoutes.ProcessNewCategory, SimpleRoutes.ProcessTitle,
                          SimpleRoutes.ProcessIngredients, SimpleRoutes.ProcessInstructions}
      modifies this
      ensures Valid()
      ensures recipes == old(recipes) && nextRecipeId == old(nextRecipeId) && categories == old(categories)
      ensures forall u :: u != user ==> SessionOf(sessions, u) == SessionOf(old(sessions), u)
      ensures route != SimpleRoutes.CmdStart ==> users == old(users)
      ensures
        && (route == SimpleRoutes.CmdStart ==>
              reply == Menu && users == Catalog.Register(old(users), user, username, fullName) && sessions == old(sessions))
        && (route == SimpleRoutes.AddRecipeStart ==>
              && reply == CategoryList(CategoriesKeyboard(Catalog.CategoryRows(categories)))
              && sessions == old(sessions)[user := Started(old(SessionOf(sessions, user)))])
        && (route in {SimpleRoutes.ShowCategories, SimpleRoutes.ShowAllRecipes, SimpleRoutes.NoMessageHandler} ==>
              sessions == old(sessions))
        && (route == SimpleRoutes.ShowCategories ==> reply == CategoryList(CategoriesKeyboard(Catalog.CategoryRows(categories))))
        && (route == SimpleRoutes.ShowAllRecipes ==>
              reply == RecipeList(None, RecipesKeyboard(RecipeRows(recipes, nextRecipeId, None), None)))
        && (route == SimpleRoutes.NoMessageHandler ==> reply == Silent)
    {
      match route
      case CmdStart => reply := CmdStart(user, username, fullName);
      case AddRecipeStart => reply := AddRecipeStart(user);
      case ShowCategories =>
        var kb := CategoriesView();
        reply := CategoryList(kb);
      case ShowAllRecipes =>
        var kb := RecipesView(None);
        reply := RecipeList(None, kb);
      case NoMessageHandler => reply := Silent;
    }

    /**
     * One button press from `user`. No press writes to a table; only a category
     * press in the category step changes the dialogue.
     */
    method HandleCallback(user: int, data: string) returns (reply: Reply)
      requires Valid()
      modifies this
      ensures Valid()
      ensures users == old(users) && categories == old(categories) && recipes == old(recipes)
      ensures nextRecipeId == old(nextRecipeId)
      ensures SimpleRoutes.DispatchCallback(old(SessionOf(sessions, user)).step, data) != SimpleRoutes.ProcessCategory ==>
        sessions == old(sessions)
      ensures forall u :: u != user ==> SessionOf(sessions, u) == SessionOf(old(sessions), u)
      ensures var route := SimpleRoutes.DispatchCallback(old(SessionOf(sessions, user)).step, data);
        && (route == SimpleRoutes.ProcessCategory ==>
              && (Catalog.PickedCategory(categories, data).None? ==> reply == Failure && sessions == old(sessions))
              && (Catalog.PickedCategory(categories, data).Some? ==>
                    var c := Catalog.PickedCategory(categories, data).value;
                    reply == Prompt
                    && sessions == old(sessions)[user := WithCategory(old(SessionOf(sessions, user)), c.id, c.name)]))
        && (route == SimpleRoutes.ShowRecipesByCategory ==>
              && (Catalog.PickedCategory(categories, data).None? ==> reply == Failure)
              && (Catalog.PickedCategory(categories, data).Some? ==>
                    var c := Catalog.PickedCategory(categories, data).value;
                    reply == RecipeList(Some(c.name), RecipesKeyboard(RecipeRows(recipes, nextRecipeId, Some(c.id)), Some(c.id)))))
        && (route == SimpleRoutes.BackToCategories ==> reply == CategoryList(CategoriesKeyboard(Catalog.CategoryRows(categories))))
        && (route == SimpleRoutes.ShowRecipe ==>
              && (Text.TokenId(data).None? ==> reply == Failure)
              && (Text.TokenId(data).Some? ==>
                    var id := Text.TokenId(data).value;
                    reply == if Shown(recipes, categories, users, id) then Card(id) else NotFound))
        && (route == SimpleRoutes.NoCallbackHandler ==> reply == Silent)
    {
      var step := SessionOf(sessions, user).step;
      var route := SimpleRoutes.DispatchCallback(step, data);
      match route
      case ProcessCategory => reply := ProcessCategory(user, data);
      case ShowRecipesByCategory => reply := ShowRecipesByCategory(data);
      case BackToCategories =>
        var kb := CategoriesView();
        reply := CategoryList(kb);
      case ShowRecipe => reply := ShowRecipe(data);
      case NoCallbackHandler => reply := Silent;
    }
  }
}
