/**
 * The recipe bot of `main.py`: a store of users, categories, recipes and
 * ratings, a per-user add-recipe dialogue, paginated listings, a random pick,
 * title search and the like/dislike toggle. Each handler is one atomic step on
 * the store.
 */
module MainBot {
  import opened Common
  import Text
  import opened Listing
  import opened Keyboards
  import Catalog
  import Ratings
  import opened Dialogue
  import Paging
  import MainRoutes

  /** A `recipes` row; `author` is the `user_id` column. */
  datatype Recipe = Recipe(
    title: string,
    categoryId: int,
    ingredients: string,
    instructions: string,
    author: int,
    likes: int,
    dislikes: int)

  /** What a handler sends back; message texts are not modelled. */
  datatype Reply =
    | Menu                                              // a text with the main menu keyboard
    | Prompt                                            // the next question of the dialogue
    | CategoryList(kb: Keyboard)                        // `categories_keyboard()`
    | RecipeList(category: Option<string>, kb: Keyboard) // `recipes_keyboard(...)`, under the category name if filtered
    | Card(id: int)                                     // the recipe card with its rating keyboard
    | Rated(outcome: Ratings.Outcome, shown: bool)      // the rating notice, then the card if the join finds it
    | SearchList(kb: Keyboard)                          // one button per search hit
    | Silent                                            // nothing is sent
    | Failure                                           // the handler raises before it answers

  /** At most this many search hits are listed. */
  const SearchLimit: nat := 20

  function TallyOf(r: Recipe): Ratings.Tally
  {
    Ratings.Tally(r.likes, r.dislikes)
  }

  /** `SELECT name FROM categories WHERE id = ?` finds a row. */
  predicate HasCategory(t: Catalog.CategoryTable, id: int) {
    Catalog.NameById(t.rows, id).Some?
  }

  /** The category a draft names, if any, exists. */
  predicate DraftKnown(t: Catalog.CategoryTable, d: Draft) {
    d.categoryId.Some? ==> HasCategory(t, d.categoryId.value)
  }

  /**
   * The store invariant: a well-formed category table, dense recipe ids, every
   * recipe in an existing category, every dialogue well formed and naming an
   * existing category.
   */
  predicate Stored(t: Catalog.CategoryTable, recipes: map<int, Recipe>, next: nat, sessions: map<int, Session>) {
    && Catalog.WellFormed(t)
    && Dense(recipes, next)
    && (forall id :: id in recipes ==> HasCategory(t, recipes[id].categoryId))
    && (forall u :: u in sessions ==> Dialogue.WellFormed(sessions[u]) && DraftKnown(t, sessions[u].draft))
  }

  /**
   * The counters invariant: every rating is a like or a dislike, every rating
   * row belongs to a stored recipe, and each recipe's counters count its rows.
   */
  predicate Counted(recipes: map<int, Recipe>, ratings: Ratings.Table) {
    && Ratings.OnlyVotes(ratings)
    && (forall k :: k in ratings ==> k.1 in recipes)
    && (forall id :: id in recipes ==> Ratings.Agrees(ratings, id, TallyOf(recipes[id])))
  }

  // --------------------------------------------------------------- listings

  /** The part of each recipe row the listing queries read. */
  function Entries(recipes: map<int, Recipe>): map<int, Entry>
  {
    map id | id in recipes :: Entry(recipes[id].title, recipes[id].categoryId)
  }

  /**
   * The rows of `recipes_keyboard(category_id, page)`: the title-ordered
   * listing, filtered when the filter is truthy, `LIMIT 5 OFFSET page * 5`.
   */
  function PageItems(recipes: map<int, Recipe>, next: nat, filter: Option<int>, page: int): seq<Row>
  {
    Paging.PageOf(Query(Entries(recipes), filter, next), page, Paging.PerPage)
  }

  /** A recipe the listing with this filter includes, as its row. */
  predicate Listed(recipes: map<int, Recipe>, filter: Option<int>, r: Row) {
    r.id in recipes && r.text == recipes[r.id].title
    && (Truthy(filter) ==> recipes[r.id].categoryId == filter.value)
  }

  /** The full listing is ordered and holds exactly the listed recipes. */
  lemma FullListing(recipes: map<int, Recipe>, next: nat, filter: Option<int>)
    requires Dense(recipes, next)
    ensures Ordered(Query(Entries(recipes), filter, next))
    ensures forall r :: r in Query(Entries(recipes), filter, next) <==> Listed(recipes, filter, r)
  {
    QueryExact(Entries(recipes), filter, next);
  }

  /**
   * A page lists at most five recipes, in title order, each one stored, titled
   * as stored and of the filtered category; it is the slice of the full
   * listing from `page * 5` on.
   */
  lemma PageItemsSpec(recipes: map<int, Recipe>, next: nat, filter: Option<int>, page: nat)
    requires Dense(recipes, next)
    ensures var full := Query(Entries(recipes), filter, next);
      var items := PageItems(recipes, next, filter, page);
      && |items| <= Paging.PerPage
      && Ordered(items)
      && (forall i :: 0 <= i < |items| ==> items[i] == full[page * Paging.PerPage + i])
      && (forall r :: r in items ==> Listed(recipes, filter, r))
  {
    var full := Query(Entries(recipes), filter, next);
    var items := PageItems(recipes, next, filter, page);
    assert items == Paging.PageOf(full, page, Paging.PerPage);
    FullListing(recipes, next, filter);
    Paging.PageIsSlice(full, page, Paging.PerPage);
    Paging.PageOrdered(full, page, Paging.PerPage);
    assert forall r :: r in items ==> r in full;
  }

  /** Two filters with the same truthiness and value select the same rows. */
  lemma {:induction false} ScanSameSelection(entries: map<int, Entry>, f: Option<int>, g: Option<int>, n: nat)
    requires forall e :: Selected(e, f) == Selected(e, g)
    ensures Scan(entries, f, n) == Scan(entries, g, n)
    decreases n
  {
    if n > 0 {
      ScanSameSelection(entries, f, g, n - 1);
    }
  }

  /**
   * Reading the filter back from a navigation token lists the same recipes: a
   * falsy filter and no filter both list every recipe.
   */
  lemma NormalKeepsListing(recipes: map<int, Recipe>, next: nat, filter: Option<int>, page: int)
    ensures PageItems(recipes, next, Paging.Normal(filter), page) == PageItems(recipes, next, filter, page)
  {
    ScanSameSelection(Entries(recipes), Paging.Normal(filter), filter, next);
  }

  /** What `recipes_keyboard` promises about the keyboard of one page. */
  predicate ShowsPage(kb: Keyboard, recipes: map<int, Recipe>, next: nat, filter: Option<int>, page: int) {
    var items := PageItems(recipes, next, filter, page);
    && |kb| > |items|
    && (forall i :: 0 <= i < |items| ==> kb[i] == [Paging.RecipeButton(items[i])])
    && kb[|kb| - 1] == [Paging.HomeButton]
    && (Offers(kb, Paging.PrevButton(page, filter)) <==> page > 0)
    && (Offers(kb, Paging.NextButton(page, filter)) <==> |items| == Paging.PerPage)
  }

  /**
   * The arrows of a page lead to the neighbouring pages of the same listing:
   * "next" to page `page + 1`, "prev" (offered only above page 0) to
   * `page - 1 >= 0`.
   */
  lemma ArrowsStayInListing(kb: Keyboard, recipes: map<int, Recipe>, next: nat, filter: Option<int>, page: int)
    requires ShowsPage(kb, recipes, next, filter, page)
    ensures Offers(kb, Paging.NextButton(page, filter)) ==>
      var nav := Paging.DecodeNav(Paging.NextButton(page, filter).token);
      nav == Some(Paging.Nav(page + 1, Paging.Normal(filter)))
      && PageItems(recipes, next, nav.value.filter, page + 1) == PageItems(recipes, next, filter, page + 1)
    ensures Offers(kb, Paging.PrevButton(page, filter)) ==>
      var nav := Paging.DecodeNav(Paging.PrevButton(page, filter).token);
      nav == Some(Paging.Nav(page - 1, Paging.Normal(filter))) && page - 1 >= 0
      && PageItems(recipes, next, nav.value.filter, page - 1) == PageItems(recipes, next, filter, page - 1)
  {
    Paging.NavRoundTrip(page, filter);
    NormalKeepsListing(recipes, next, filter, page + 1);
    NormalKeepsListing(recipes, next, filter, page - 1);
  }

  // -------------------------------------------------------- category buttons

  /** Every button of the categories keyboard names its own category. */
  lemma CategoryButtonRoundTrip(t: Catalog.CategoryTable, c: Catalog.Category)
    requires Catalog.WellFormed(t) && c in t.rows
    ensures Catalog.PickedCategory(t, Paging.CategoryButton(Row(c.id, c.name)).token) == Some(c)
  {
    assert Paging.CategoryButton(Row(c.id, c.name)).token == "cat" + "_" + Text.IntToString(c.id);
    Catalog.PickedToken(t, "cat", c);
  }

  // ------------------------------------------------------------ recipe card

  /**
   * `send_recipe_with_rating`: the card query joins the category and the
   * author, so it finds the recipe only when both exist.
   */
  predicate Shown(recipes: map<int, Recipe>, t: Catalog.CategoryTable, users: map<int, Catalog.User>, id: int) {
    id in recipes && HasCategory(t, recipes[id].categoryId) && recipes[id].author in users
  }

  function CardReply(recipes: map<int, Recipe>, t: Catalog.CategoryTable, users: map<int, Catalog.User>, id: int): (r: Reply)
    ensures r == Card(id) || r == Silent
    ensures r == Card(id) <==> id in recipes && HasCategory(t, recipes[id].categoryId) && recipes[id].author in users
  {
    if Shown(recipes, t, users, id) then Card(id) else Silent
  }

  /**
   * In a consistent store a recipe's card is sent exactly when its author has
   * registered: recipes by users who never sent `/start` are never shown.
   */
  lemma CardNeedsRegisteredAuthor(t: Catalog.CategoryTable, recipes: map<int, Recipe>, next: nat,
                                  sessions: map<int, Session>, users: map<int, Catalog.User>, id: int)
    requires Stored(t, recipes, next, sessions) && id in recipes
    ensures CardReply(recipes, t, users, id) == Card(id) <==> recipes[id].author in users
    ensures CardReply(recipes, t, users, id) == Silent <==> recipes[id].author !in users
  {
  }

  /** The data of a rating button: `f"{word}_{recipe_id}"`. */
  function VoteToken(word: string, id: int): string
  {
    word + "_" + Text.IntToString(id)
  }

  /** The like/dislike/random/home keyboard under a recipe card. */
  function RatingKeyboard(id: int): Keyboard
  {
    [ [Button("👍 Нравится", VoteToken("like", id)), Button("👎 Не нравится", VoteToken("dislike", id))],
      [Button("🎲 Новый случайный", "random_recipe")],
      [Paging.HomeButton] ]
  }

  /**
   * The recipe and vote a `like_<id>`/`dislike_<id>` press carries:
   * `action, recipe_id = data.split("_")` then `int(recipe_id)`. `None` where
   * that raises.
   */
  function DecodeVote(data: string): (r: Option<(int, int)>)
    ensures r.Some? ==> r.value.1 == 1 || r.value.1 == -1
  {
    var parts := Text.Split(data, '_');
    if |parts| != 2 then None
    else match Text.ParseInt(parts[1])
      case None => None
      case Some(id) => Some((id, Ratings.VoteOf(parts[0])))
  }

  /** A `like_<id>` or `dislike_<id>` token decodes to that recipe and vote. */
  lemma VoteTokenDecodes(word: string, id: int)
    requires word == "like" || word == "dislike"
    ensures DecodeVote(word + "_" + Text.IntToString(id)) == Some((id, Ratings.VoteOf(word)))
  {
    var token := word + "_" + Text.IntToString(id);
    assert '_' !in word;
    Text.TokenParts(word, id);
    var parts := Text.Split(token, '_');
    assert |parts| == 2 && parts[0] == word && parts[1] == Text.IntToString(id);
    Text.IntToStringRoundTrip(id);
  }

  /**
   * The rating buttons under a card reach `rate_recipe` with that recipe and a
   * like or a dislike.
   */
  lemma RatingButtonsRoute(id: int, step: Option<Step>)
    ensures var row := RatingKeyboard(id)[0];
      && MainRoutes.DispatchCallback(step, row[0].token) == MainRoutes.RateRecipe
      && DecodeVote(row[0].token) == Some((id, 1))
      && MainRoutes.DispatchCallback(step, row[1].token) == MainRoutes.RateRecipe
      && DecodeVote(row[1].token) == Some((id, -1))
  {
    VoteButtonRoutes("like", id, step);
    VoteButtonRoutes("dislike", id, step);
  }

  lemma VoteButtonRoutes(word: string, id: int, step: Option<Step>)
    requires word == "like" || word == "dislike"
    ensures MainRoutes.DispatchCallback(step, VoteToken(word, id)) == MainRoutes.RateRecipe
    ensures DecodeVote(VoteToken(word, id)) == Some((id, Ratings.VoteOf(word)))
  {
    MainRoutes.RatingDataRoutes(step, word, Text.IntToString(id));
    VoteTokenDecodes(word, id);
  }

  /**
   * A `rec_<id>` button, on a listing page or among the search hits, reaches
   * `handle_recipes_pagination` in every state, down its `rec_` branch.
   */
  lemma RecipeTokenRoutes(r: Row, step: Option<Step>)
    ensures MainRoutes.DispatchCallback(step, Paging.RecipeButton(r).token) == MainRoutes.RecipesPagination
    ensures Text.StartsWith(Paging.RecipeButton(r).token, "rec_")
  {
    var data := Paging.RecipeButton(r).token;
    Text.StartsWithConcat("rec_", Text.IntToString(r.id));
    assert data[0] == 'r' && data[1] == 'e';
    Text.FirstCharDiffers(data, "cat_");
    assert data != "random_recipe" by {
      assert "random_recipe"[1] == 'a';
    }
  }

  /** The `rec_` branch reads back the id the button was built with. */
  lemma RecipeTokenNames(r: Row)
    ensures Text.Split(Paging.RecipeButton(r).token, '_') == ["rec", Text.IntToString(r.id)]
    ensures Text.ParseInt(Text.Split(Paging.RecipeButton(r).token, '_')[1]) == Some(r.id)
  {
    assert Paging.RecipeButton(r).token == "rec" + "_" + Text.IntToString(r.id);
    Text.TokenParts("rec", r.id);
    Text.IntToStringRoundTrip(r.id);
  }

  /** Under a card, "new random" reaches the random handler and the home button no handler at all. */
  lemma CardNavigationRoutes(id: int, step: Option<Step>)
    ensures MainRoutes.DispatchCallback(step, RatingKeyboard(id)[1][0].token) == MainRoutes.NewRandomRecipe
    ensures MainRoutes.DispatchCallback(step, RatingKeyboard(id)[2][0].token) == MainRoutes.NoCallbackHandler
  {
    MainRoutes.RandomDataRoutes(step);
    MainRoutes.InlineHomeUnhandled(step);
  }

  /**
   * The recipes table after one press: the rated recipe's counters move as
   * `rate_recipe`'s UPDATE statements say; for an id with no recipe the UPDATE
   * changes no row.
   */
  function Recount(recipes: map<int, Recipe>, id: int, prev: Option<int>, vote: int): map<int, Recipe>
  {
    if id in recipes then
      var t := Ratings.NextTally(TallyOf(recipes[id]), prev, vote);
      recipes[id := recipes[id].(likes := t.likes, dislikes := t.dislikes)]
    else recipes
  }

  /**
   * A press on a stored recipe keeps every counter equal to the rows it counts,
   * keeps one row per (user, recipe) and changes no other recipe.
   */
  lemma RateKeepsCounted(recipes: map<int, Recipe>, ratings: Ratings.Table, user: int, id: int, vote: int)
    requires Counted(recipes, ratings) && id in recipes && (vote == 1 || vote == -1)
    ensures var recipes' := Recount(recipes, id, Ratings.Lookup(ratings, user, id), vote);
      && Counted(recipes', Ratings.Rate(ratings, user, id, vote))
      && recipes'.Keys == recipes.Keys
      && (forall other :: other in recipes && other != id ==> recipes'[other] == recipes[other])
  {
    var prev := Ratings.Lookup(ratings, user, id);
    var after := Ratings.Rate(ratings, user, id, vote);
    var recipes' := Recount(recipes, id, prev, vote);
    Ratings.RateKeepsAgreement(ratings, user, id, vote, TallyOf(recipes[id]));
    forall other | other in recipes' ensures Ratings.Agrees(after, other, TallyOf(recipes'[other])) {
      if other != id {
        Ratings.RateOtherRecipe(ratings, user, id, vote, other, 1);
        Ratings.RateOtherRecipe(ratings, user, id, vote, other, -1);
      }
    }
  }

  /**
   * The orphan case: a press carrying an id no recipe has still writes a rating
   * row, so a recipe stored later under that id starts with counters 0/0 that
   * do not count that row.
   */
  lemma OrphanVoteMiscounts(recipes: map<int, Recipe>, ratings: Ratings.Table, user: int, id: int, vote: int, r: Recipe)
    requires Counted(recipes, ratings) && id !in recipes && (vote == 1 || vote == -1)
    requires r.likes == 0 && r.dislikes == 0
    ensures Recount(recipes, id, Ratings.Lookup(ratings, user, id), vote) == recipes
    ensures !Counted(recipes[id := r], Ratings.Rate(ratings, user, id, vote))
  {
    var after := Ratings.Rate(ratings, user, id, vote);
    assert (user, id) !in ratings;
    assert (user, id) in Ratings.Rows(after, id, vote);
    assert Ratings.Count(after, id, vote) > 0;
  }

  /** A recipe inserted under a fresh id with counters 0/0 is counted correctly. */
  lemma CommitKeepsCounted(recipes: map<int, Recipe>, ratings: Ratings.Table, next: nat, r: Recipe)
    requires Counted(recipes, ratings) && Dense(recipes, next)
    requires r.likes == 0 && r.dislikes == 0
    ensures Counted(recipes[next := r], ratings)
  {
    assert Ratings.Rows(ratings, next, 1) == {};
    assert Ratings.Rows(ratings, next, -1) == {};
  }

  // ------------------------------------------------------------ random pick

  /** The integers `lo .. hi - 1`. */
  function Range(lo: int, hi: int): (r: set<int>)
    ensures forall i :: i in r <==> lo <= i < hi
    ensures lo <= hi ==> |r| == hi - lo
    decreases hi - lo
  {
    if lo >= hi then {} else Range(lo, hi - 1) + {hi - 1}
  }

  lemma DenseSize(recipes: map<int, Recipe>, next: nat)
    requires Dense(recipes, next)
    ensures |recipes| == next - 1
  {
    assert recipes.Keys == Range(1, next);
  }

  /**
   * `send_random_recipe` with `roll` the value `randint(1, count)` drew: the
   * roll is used as a recipe id.
   */
  function RandomPick(recipes: map<int, Recipe>, t: Catalog.CategoryTable, users: map<int, Catalog.User>, roll: int): (r: Reply)
    requires |recipes| > 0 ==> 1 <= roll <= |recipes|
    ensures r == Menu <==> |recipes| == 0
    ensures |recipes| > 0 ==> r == Card(roll) || r == Silent
  {
    if |recipes| == 0 then Menu else CardReply(recipes, t, users, roll)
  }

  /**
   * With no recipes the menu comes back; otherwise, because ids are dense, the
   * roll always names a stored recipe, every recipe has a roll that names it,
   * and its card is sent exactly when its author has registered.
   */
  lemma RandomPickSpec(t: Catalog.CategoryTable, recipes: map<int, Recipe>, next: nat, sessions: map<int, Session>,
                       users: map<int, Catalog.User>, roll: int)
    requires Stored(t, recipes, next, sessions)
    requires |recipes| > 0 ==> 1 <= roll <= |recipes|
    ensures RandomPick(recipes, t, users, roll) == Menu <==> |recipes| == 0
    ensures |recipes| > 0 ==>
      (roll in recipes && (RandomPick(recipes, t, users, roll) == Card(roll) <==> recipes[roll].author in users))
    ensures forall id :: id in recipes ==> 1 <= id <= |recipes|
  {
    DenseSize(recipes, next);
  }

  // ----------------------------------------------------------------- search

  /** The recipes `search_recipes` matches: title LIKE `%query%`, joined with an existing category. */
  function SearchEntries(recipes: map<int, Recipe>, t: Catalog.CategoryTable, query: string): map<int, Entry>
  {
    map id | id in recipes && HasCategory(t, recipes[id].categoryId) && Text.Like("%" + query + "%", recipes[id].title)
      :: Entry(recipes[id].title, recipes[id].categoryId)
  }

  /** The hits: title order, at most twenty. */
  function SearchHits(recipes: map<int, Recipe>, t: Catalog.CategoryTable, query: string, next: nat): seq<Row>
  {
    Window(Query(SearchEntries(recipes, t, query), None, next), 0, SearchLimit)
  }

  /**
   * Search lists the first twenty matches of the title-ordered listing: at most
   * twenty recipes in title order, each stored, in an existing category and
   * matching the pattern; when fewer than twenty come back, every match is
   * among them. A query without `%` or `_` matches exactly
   * the titles that contain it, up to ASCII case.
   */
  lemma SearchSpec(recipes: map<int, Recipe>, t: Catalog.CategoryTable, query: string, next: nat)
    requires Dense(recipes, next)
    ensures var full := Query(SearchEntries(recipes, t, query), None, next);
      var hits := SearchHits(recipes, t, query, next);
      hits == full[..if |full| < SearchLimit then |full| else SearchLimit]
    ensures var hits := SearchHits(recipes, t, query, next);
      && |hits| <= SearchLimit
      && Ordered(hits)
      && (forall r :: r in hits ==>
            r.id in recipes && r.text == recipes[r.id].title && HasCategory(t, recipes[r.id].categoryId)
            && Text.Like("%" + query + "%", r.text))
      && (|hits| < SearchLimit ==> forall id ::
            (id in recipes && HasCategory(t, recipes[id].categoryId) && Text.Like("%" + query + "%", recipes[id].title))
            ==> Row(id, recipes[id].title) in hits)
      && (Text.NoWildcards(query) ==> forall r :: r in hits ==> exists i :: Text.OccursAt(query, r.text, i))
  {
    var entries := SearchEntries(recipes, t, query);
    var full := Query(entries, None, next);
    QueryExact(entries, None, next);
    WindowFromStart(full, SearchLimit);
    var hits := SearchHits(recipes, t, query, next);
    forall r | r in hits ensures r in full {
      var i :| 0 <= i < |hits| && hits[i] == r;
    }
    forall i, j | 0 <= i < j < |hits| ensures Before(hits[i], hits[j]) {
      assert hits[i] == full[i] && hits[j] == full[j];
    }
    if |hits| < SearchLimit {
      assert hits == full;
    }
    if Text.NoWildcards(query) {
      forall r | r in hits ensures exists i :: Text.OccursAt(query, r.text, i) {
        Text.LikeIsSubstring(query, r.text);
      }
    }
  }

  /** Every hit has a stored recipe in an existing category, so its button can be labelled. */
  lemma SearchHitsLabelled(recipes: map<int, Recipe>, t: Catalog.CategoryTable, query: string, next: nat)
    requires Dense(recipes, next)
    ensures forall r :: r in SearchHits(recipes, t, query, next) ==> r.id in recipes && HasCategory(t, recipes[r.id].categoryId)
  {
    SearchSpec(recipes, t, query, next);
  }

  /** `f"{title} ({category})"` with the hit's `rec_<id>` token. */
  function SearchButton(recipes: map<int, Recipe>, t: Catalog.CategoryTable, r: Row): Button
    requires r.id in recipes && HasCategory(t, recipes[r.id].categoryId)
  {
    Button(r.text + " (" + Catalog.NameById(t.rows, recipes[r.id].categoryId).value + ")", "rec_" + Text.IntToString(r.id))
  }

  /** The reply of `search_recipes`: the hits as buttons, or the menu when there are none. */
  function SearchReply(recipes: map<int, Recipe>, t: Catalog.CategoryTable, query: string, next: nat): (r: Reply)
    requires Dense(recipes, next)
    ensures r == Menu <==> |SearchHits(recipes, t, query, next)| == 0
    ensures r.SearchList? ==>
      var hits := SearchHits(recipes, t, query, next);
      && |r.kb| == |hits|
      && forall i :: 0 <= i < |hits| ==> |r.kb[i]| == 1 && r.kb[i][0].token == Paging.RecipeButton(hits[i]).token
  {
    var hits := SearchHits(recipes, t, query, next);
    SearchHitsLabelled(recipes, t, query, next);
    if |hits| == 0 then Menu
    else
      var kb := seq(|hits|, i requires 0 <= i < |hits| => [SearchButton(recipes, t, hits[i])]);
      assert forall i :: 0 <= i < |hits| ==> kb[i] == [SearchButton(recipes, t, hits[i])];
      SearchList(kb)
  }

  // ------------------------------------------------------------------ drafts

  /** The row `enter_recipe_instructions` inserts: the draft, the instructions, the author, no votes. */
  function Committed(d: Draft, instructions: string, author: int): Recipe
    requires d.title.Some? && d.categoryId.Some? && d.ingredients.Some?
  {
    Recipe(d.title.value, d.categoryId.value, d.ingredients.value, instructions, author, 0, 0)
  }

  /** The store invariant survives the category table growing at its end. */
  lemma StoredAfterGrowth(t: Catalog.CategoryTable, t2: Catalog.CategoryTable, recipes: map<int, Recipe>, next: nat,
                          sessions: map<int, Session>)
    requires Stored(t, recipes, next, sessions) && Catalog.WellFormed(t2)
    requires |t.rows| <= |t2.rows| && t2.rows[..|t.rows|] == t.rows
    ensures Stored(t2, recipes, next, sessions)
    ensures forall id :: HasCategory(t, id) ==> HasCategory(t2, id)
  {
    forall id | HasCategory(t, id) ensures HasCategory(t2, id) {
      var i :| 0 <= i < |t.rows| && t.rows[i].id == id;
      assert t2.rows[i] == t.rows[i];
    }
  }

  /** Recording a found-or-created category in one user's draft keeps the store invariant. */
  lemma StoredAfterRecord(t: Catalog.CategoryTable, recipes: map<int, Recipe>, next: nat,
                          sessions: map<int, Session>, user: int, name: string)
    requires Stored(t, recipes, next, sessions)
    ensures var found := Catalog.FindOrCreate(t, name);
      Stored(found.0, recipes, next, sessions[user := WithCategory(SessionOf(sessions, user), found.1, name)])
  {
    var found := Catalog.FindOrCreate(t, name);
    Catalog.FindOrCreateSpec(t, name);
    StoredAfterGrowth(t, found.0, recipes, next, sessions);
    assert HasCategory(found.0, found.1);
    StoredAfterSession(found.0, recipes, next, sessions, user, WithCategory(SessionOf(sessions, user), found.1, name));
  }

  /** Storing a recipe in an existing category under the next id, and ending a dialogue, keeps the store invariant. */
  lemma StoredAfterCommit(t: Catalog.CategoryTable, recipes: map<int, Recipe>, next: nat,
                          sessions: map<int, Session>, user: int, r: Recipe)
    requires Stored(t, recipes, next, sessions) && HasCategory(t, r.categoryId)
    ensures Stored(t, recipes[next := r], next + 1, sessions[user := Idle])
  {
    StoredAfterSession(t, recipes, next, sessions, user, Idle);
  }

  /** Setting one user's dialogue to a well-formed one naming a known category keeps the store invariant. */
  lemma StoredAfterSession(t: Catalog.CategoryTable, recipes: map<int, Recipe>, next: nat,
                           sessions: map<int, Session>, user: int, s: Session)
    requires Stored(t, recipes, next, sessions)
    requires Dialogue.WellFormed(s) && DraftKnown(t, s.draft)
    ensures Stored(t, recipes, next, sessions[user := s])
  {
  }

  /** Moving one recipe's counters keeps the store invariant: ids and categories stay. */
  lemma RecountKeepsStored(t: Catalog.CategoryTable, recipes: map<int, Recipe>, next: nat,
                           sessions: map<int, Session>, id: int, prev: Option<int>, vote: int)
    requires Stored(t, recipes, next, sessions)
    ensures Stored(t, Recount(recipes, id, prev, vote), next, sessions)
    ensures Recount(recipes, id, prev, vote).Keys == recipes.Keys
  {
  }

  // -------------------------------------------------------------------- bot

  class RecipeBot {
    var users: map<int, Catalog.User>
    var categories: Catalog.CategoryTable
    var recipes: map<int, Recipe>
    var nextRecipeId: nat
    var ratings: Ratings.Table
    var sessions: map<int, Session>

    ghost predicate Valid()
      reads this
    {
      Stored(categories, recipes, nextRecipeId, sessions)
    }

    ghost predicate Balanced()
      reads this
    {
      Counted(recipes, ratings)
    }

    /** A fresh database, set up by `init_db`. */
    constructor()
      ensures Valid() && Balanced()
      ensures users == map[] && recipes == map[] && ratings == map[] && sessions == map[]
      ensures nextRecipeId == 1 && categories == Catalog.Seed(Catalog.EmptyCategories)
    {
      users := map[];
      categories := Catalog.EmptyCategories;
      recipes := map[];
      nextRecipeId := 1;
      ratings := map[];
      sessions := map[];
      new;
      InitDb();
    }

    /** `init_db`: the basic categories go in, one by one, only into an empty table. */
    method InitDb()
      requires Valid()
      modifies this
      ensures Valid()
      ensures categories == Catalog.Seed(old(categories))
      ensures users == old(users) && recipes == old(recipes) && nextRecipeId == old(nextRecipeId)
      ensures ratings == old(ratings) && sessions == old(sessions)
    {
      if |categories.rows| == 0 {
        for i := 0 to |Catalog.SeedNames|
          invariant categories == Catalog.InsertAll(old(categories), Catalog.SeedNames[..i])
          invariant users == old(users) && recipes == old(recipes) && nextRecipeId == old(nextRecipeId)
          invariant ratings == old(ratings) && sessions == old(sessions)
        {
          assert Catalog.SeedNames[..i + 1][..i] == Catalog.SeedNames[..i];
          categories := Catalog.Append(categories, Catalog.SeedNames[i]);
        }
        assert Catalog.SeedNames[..|Catalog.SeedNames|] == Catalog.SeedNames;
      }
      Catalog.SeedSpec(old(categories));
      Catalog.InsertAllRows(old(categories), Catalog.SeedNames);
      StoredAfterGrowth(old(categories), categories, recipes, nextRecipeId, sessions);
    }

    /** `cmd_start`: register the sender; the dialogue state is left as it is. */
    method CmdStart(user: int, username: Option<string>, fullName: string) returns (reply: Reply)
      requires Valid()
      modifies this
      ensures Valid() && reply == Menu
      ensures users == Catalog.Register(old(users), user, username, fullName)
      ensures categories == old(categories) && recipes == old(recipes) && nextRecipeId == old(nextRecipeId)
      ensures ratings == old(ratings) && sessions == old(sessions)
    {
      users := Catalog.Register(users, user, username, fullName);
      reply := Menu;
    }

    /** `go_to_main_menu`: the dialogue is dropped, draft and all. */
    method GoToMainMenu(user: int) returns (reply: Reply)
      requires Valid()
      modifies this
      ensures Valid() && reply == Menu
      ensures sessions == old(sessions)[user := Idle]
      ensures users == old(users) && categories == old(categories) && recipes == old(recipes)
      ensures nextRecipeId == old(nextRecipeId) && ratings == old(ratings)
    {
      sessions := sessions[user := Idle];
      reply := Menu;
    }

    /** `cancel_adding`: the same as going home, nothing is written. */
    method CancelAdding(user: int) returns (reply: Reply)
      requires Valid()
      modifies this
      ensures Valid() && reply == Menu
      ensures sessions == old(sessions)[user := Idle]
      ensures users == old(users) && categories == old(categories) && recipes == old(recipes)
      ensures nextRecipeId == old(nextRecipeId) && ratings == old(ratings)
    {
      sessions := sessions[user := Idle];
      reply := Menu;
    }

    /** `categories_keyboard`: the categories in name order, two buttons per row. */
    method CategoriesView() returns (kb: Keyboard)
      requires Valid()
      ensures Flatten(kb) == Paging.CategoryButtons(Catalog.CategoryRows(categories))
      ensures |Flatten(kb)| == |categories.rows|
      ensures forall i :: 0 <= i < |kb| ==> |kb[i]| == 2 || (|kb[i]| == 1 && i == |kb| - 1)
    {
      Catalog.CategoryRowsSpec(categories);
      kb := Paging.CategoriesKeyboard(Catalog.CategoryRows(categories));
    }

    /** `recipes_keyboard(category_id, page)`. */
    method RecipesView(filter: Option<int>, page: int) returns (kb: Keyboard)
      ensures ShowsPage(kb, recipes, nextRecipeId, filter, page)
    {
      kb := Paging.RecipesKeyboard(PageItems(recipes, nextRecipeId, filter, page), filter, page, Paging.PerPage);
    }

    /** `start_adding_recipe`: show the categories and wait for one; the data dictionary is kept. */
    method StartAddingRecipe(user: int) returns (reply: Reply)
      requires Valid()
      modifies this
      ensures Valid()
      ensures reply.CategoryList? && Flatten(reply.kb) == Paging.CategoryButtons(Catalog.CategoryRows(categories))
      ensures sessions == old(sessions)[user := Started(old(SessionOf(sessions, user)))]
      ensures users == old(users) && categories == old(categories) && recipes == old(recipes)
      ensures nextRecipeId == old(nextRecipeId) && ratings == old(ratings)
    {
      var kb := CategoriesView();
      sessions := sessions[user := Started(SessionOf(sessions, user))];
      reply := CategoryList(kb);
    }

    /**
     * `select_existing_category`: a `cat_<id>` press records the category and
     * asks for the title. The dispatcher never reaches it (see
     * `MainRoutes.ExistingCategoryShadowed`).
     */
    method SelectExistingCategory(user: int, data: string) returns (reply: Reply)
      requires Valid() && SessionOf(sessions, user).step == Some(SelectCategory)
      modifies this
      ensures Valid()
      ensures Catalog.PickedCategory(old(categories), data).None? ==> reply == Failure && sessions == old(sessions)
      ensures Catalog.PickedCategory(old(categories), data).Some? ==>
        var c := Catalog.PickedCategory(old(categories), data).value;
        reply == Prompt && sessions == old(sessions)[user := WithCategory(old(SessionOf(sessions, user)), c.id, c.name)]
      ensures users == old(users) && categories == old(categories) && recipes == old(recipes)
      ensures nextRecipeId == old(nextRecipeId) && ratings == old(ratings)
    {
      var picked := Catalog.PickedCategory(categories, data);
      if picked.None? {
        reply := Failure;
        return;
      }
      var c := picked.value;
      assert HasCategory(categories, c.id);
      sessions := sessions[user := WithCategory(SessionOf(sessions, user), c.id, c.name)];
      reply := Prompt;
    }

    /**
     * `enter_new_category`: the stripped text is found or created as a category,
     * recorded in the draft, and the title is asked for.
     */
    method EnterNewCategory(user: int, text: string) returns (reply: Reply)
      requires Valid() && SessionOf(sessions, user).step == Some(SelectCategory)
      modifies this
      ensures Valid()
      ensures text == MainRoutes.CancelText ==>
        reply == Menu && sessions == old(sessions)[user := Idle] && categories == old(categories)
      ensures text != MainRoutes.CancelText ==>
        var name := Text.Strip(text);
        var found := Catalog.FindOrCreate(old(categories), name);
        && reply == Prompt && categories == found.0
        && sessions == old(sessions)[user := WithCategory(old(SessionOf(sessions, user)), found.1, name)]
      ensures users == old(users) && recipes == old(recipes)
      ensures nextRecipeId == old(nextRecipeId) && ratings == old(ratings)
    {
      if text == MainRoutes.CancelText {
        reply := CancelAdding(user);
        return;
      }
      RecordCategory(user, Text.Strip(text));
      reply := Prompt;
    }

    /** The body of `enter_new_category` past its cancel check: `INSERT OR IGNORE`, then `SELECT id`. */
    method RecordCategory(user: int, name: string)
      requires Valid()
      modifies this
      ensures Valid()
      ensures var found := Catalog.FindOrCreate(old(categories), name);
        && categories == found.0
        && sessions == old(sessions)[user := WithCategory(old(SessionOf(sessions, user)), found.1, name)]
      ensures users == old(users) && recipes == old(recipes)
      ensures nextRecipeId == old(nextRecipeId) && ratings == old(ratings)
    {
      StoredAfterRecord(categories, recipes, nextRecipeId, sessions, user, name);
      var found := Catalog.FindOrCreate(categories, name);
      sessions := sessions[user := WithCategory(SessionOf(sessions, user), found.1, name)];
      categories := found.0;
    }

    /** `enter_recipe_title`: the text becomes the title; ingredients are asked for. */
    method EnterRecipeTitle(user: int, text: string) returns (reply: Reply)
      requires Valid() && SessionOf(sessions, user).step == Some(EnterTitle)
      modifies this
      ensures Valid()
      ensures text == MainRoutes.CancelText ==> reply == Menu && sessions == old(sessions)[user := Idle]
      ensures text != MainRoutes.CancelText ==>
        reply == Prompt && sessions == old(sessions)[user := WithTitle(old(SessionOf(sessions, user)), text)]
      ensures users == old(users) && categories == old(categories) && recipes == old(recipes)
      ensures nextRecipeId == old(nextRecipeId) && ratings == old(ratings)
    {
      if text == MainRoutes.CancelText {
        reply := CancelAdding(user);
        return;
      }
      sessions := sessions[user := WithTitle(SessionOf(sessions, user), text)];
      reply := Prompt;
    }

    /** `enter_recipe_ingredients`: the text becomes the ingredients; instructions are asked for. */
    method EnterRecipeIngredients(user: int, text: string) returns (reply: Reply)
      requires Valid() && SessionOf(sessions, user).step == Some(EnterIngredients)
      modifies this
      ensures Valid()
      ensures text == MainRoutes.CancelText ==> reply == Menu && sessions == old(sessions)[user := Idle]
      ensures text != MainRoutes.CancelText ==>
        reply == Prompt && sessions == old(sessions)[user := WithIngredients(old(SessionOf(sessions, user)), text)]
      ensures users == old(users) && categories == old(categories) && recipes == old(recipes)
      ensures nextRecipeId == old(nextRecipeId) && ratings == old(ratings)
    {
      if text == MainRoutes.CancelText {
        reply := CancelAdding(user);
        return;
      }
      sessions := sessions[user := WithIngredients(SessionOf(sessions, user), text)];
      reply := Prompt;
    }

    /**
     * `enter_recipe_instructions`: the one place a recipe is written. The draft
     * and the text become a new row under the next id, with no votes, and the
     * dialogue ends.
     */
    method EnterRecipeInstructions(user: int, text: string) returns (reply: Reply)
      requires Valid() && SessionOf(sessions, user).step == Some(EnterInstructions)
      modifies this
      ensures Valid() && (old(Balanced()) ==> Balanced())
      ensures reply == Menu && sessions == old(sessions)[user := Idle]
      ensures text == MainRoutes.CancelText ==> recipes == old(recipes) && nextRecipeId == old(nextRecipeId)
      ensures text != MainRoutes.CancelText ==>
        && recipes == old(recipes)[old(nextRecipeId) := Committed(old(SessionOf(sessions, user)).draft, text, user)]
        && nextRecipeId == old(nextRecipeId) + 1
      ensures users == old(users) && categories == old(categories) && ratings == old(ratings)
    {
      if text == MainRoutes.CancelText {
        reply := CancelAdding(user);
        return;
      }
      CommitRecipe(user, text);
      reply := Menu;
    }

    /** The body of `enter_recipe_instructions` past its cancel check: `INSERT INTO recipes`, then `state.clear()`. */
    method CommitRecipe(user: int, text: string)
      requires Valid() && SessionOf(sessions, user).step == Some(EnterInstructions)
      modifies this
      ensures Valid() && (old(Balanced()) ==> Balanced())
      ensures recipes == old(recipes)[old(nextRecipeId) := Committed(old(SessionOf(sessions, user)).draft, text, user)]
      ensures nextRecipeId == old(nextRecipeId) + 1 && sessions == old(sessions)[user := Idle]
      ensures users == old(users) && categories == old(categories) && ratings == old(ratings)
    {
      var r := Committed(SessionOf(sessions, user).draft, text, user);
      if Balanced() {
        assert Counted(recipes[nextRecipeId := r], ratings) by {
          CommitKeepsCounted(recipes, ratings, nextRecipeId, r);
        }
      }
      assert Stored(categories, recipes[nextRecipeId := r], nextRecipeId + 1, sessions[user := Idle]) by {
        StoredAfterCommit(categories, recipes, nextRecipeId, sessions, user, r);
      }
      recipes := recipes[nextRecipeId := r];
      nextRecipeId := nextRecipeId + 1;
      sessions := sessions[user := Idle];
    }

    /**
     * `rate_recipe`: decode the press, then insert, delete or update the
     * presser's row and move the recipe's counters to match.
     */
    method RateRecipe(user: int, data: string) returns (reply: Reply)
      requires Valid()
      modifies this
      ensures Valid()
      ensures DecodeVote(data).None? ==> reply == Failure && recipes == old(recipes) && ratings == old(ratings)
      ensures DecodeVote(data).Some? ==>
        var id, vote := DecodeVote(data).value.0, DecodeVote(data).value.1;
        var prev := Ratings.Lookup(old(ratings), user, id);
        && ratings == Ratings.Rate(old(ratings), user, id, vote)
        && recipes == Recount(old(recipes), id, prev, vote)
        && reply == Rated(Ratings.OutcomeOf(prev, vote), Shown(recipes, categories, users, id))
      ensures old(Balanced()) && DecodeVote(data).Some? && DecodeVote(data).value.0 in old(recipes) ==> Balanced()
      ensures users == old(users) && categories == old(categories) && nextRecipeId == old(nextRecipeId)
      ensures sessions == old(sessions)
    {
      var decoded := DecodeVote(data);
      if decoded.None? {
        reply := Failure;
        return;
      }
      reply := ApplyVote(user, decoded.value.0, decoded.value.1);
    }

    /** The body of `rate_recipe` past decoding: the rating row and the recipe's counters change together. */
    method ApplyVote(user: int, id: int, vote: int) returns (reply: Reply)
      requires Valid() && (vote == 1 || vote == -1)
      modifies this
      ensures Valid()
      ensures var prev := Ratings.Lookup(old(ratings), user, id);
        && ratings == Ratings.Rate(old(ratings), user, id, vote)
        && recipes == Recount(old(recipes), id, prev, vote)
        && reply == Rated(Ratings.OutcomeOf(prev, vote), Shown(recipes, categories, users, id))
      ensures old(Balanced()) && id in old(recipes) ==> Balanced()
      ensures users == old(users) && categories == old(categories) && nextRecipeId == old(nextRecipeId)
      ensures sessions == old(sessions)
    {
      var prev := Ratings.Lookup(ratings, user, id);
      if Balanced() && id in recipes {
        assert Counted(Recount(recipes, id, prev, vote), Ratings.Rate(ratings, user, id, vote)) by {
          RateKeepsCounted(recipes, ratings, user, id, vote);
        }
      }
      assert Stored(categories, Recount(recipes, id, prev, vote), nextRecipeId, sessions) by {
        RecountKeepsStored(categories, recipes, nextRecipeId, sessions, id, prev, vote);
      }
      ratings := Ratings.Rate(ratings, user, id, vote);
      recipes := Recount(recipes, id, prev, vote);
      reply := Rated(Ratings.OutcomeOf(prev, vote), Shown(recipes, categories, users, id));
    }

    /** `show_recipes_in_category`: the first page of one category's recipes. */
    method ShowRecipesInCategory(data: string) returns (reply: Reply)
      requires Valid()
      ensures Catalog.PickedCategory(categories, data).None? ==> reply == Failure
      ensures Catalog.PickedCategory(categories, data).Some? ==>
        var c := Catalog.PickedCategory(categories, data).value;
        reply.RecipeList? && reply.category == Some(c.name)
        && ShowsPage(reply.kb, recipes, nextRecipeId, Some(c.id), 0)
    {
      var picked := Catalog.PickedCategory(categories, data);
      if picked.None? {
        reply := Failure;
        return;
      }
      var kb := RecipesView(Some(picked.value.id), 0);
      reply := RecipeList(Some(picked.value.name), kb);
    }

    /**
     * `handle_recipes_pagination`: a `rec_<id>` press sends that card; a
     * navigation press shows the page its token names, under the category name
     * when the filter is truthy.
     */
    method RecipesPagination(data: string) returns (reply: Reply)
      requires Valid()
      ensures Text.StartsWith(data, "rec_") ==>
        var parts := Text.Split(data, '_');
        reply == if |parts| < 2 || Text.ParseInt(parts[1]).None? then Failure
                 else CardReply(recipes, categories, users, Text.ParseInt(parts[1]).value)
      ensures !Text.StartsWith(data, "rec_") && Paging.DecodeNav(data).None? ==> reply == Failure
      ensures !Text.StartsWith(data, "rec_") && Paging.DecodeNav(data).Some? ==>
        var nav := Paging.DecodeNav(data).value;
        var name := if Truthy(nav.filter) then Catalog.NameById(categories.rows, nav.filter.value) else None;
        if Truthy(nav.filter) && name.None? then reply == Failure
        else (reply.RecipeList?
          && reply.category == (if Truthy(nav.filter) then Some(name.value) else None)
          && ShowsPage(reply.kb, recipes, nextRecipeId, Paging.Normal(nav.filter), nav.page))
    {
      if Text.StartsWith(data, "rec_") {
        var parts := Text.Split(data, '_');
        if |parts| < 2 || Text.ParseInt(parts[1]).None? {
          reply := Failure;
        } else {
          reply := CardReply(recipes, categories, users, Text.ParseInt(parts[1]).value);
        }
        return;
      }
      var decoded := Paging.DecodeNav(data);
      if decoded.None? {
        reply := Failure;
        return;
      }
      var nav := decoded.value;
      if Truthy(nav.filter) {
        var name := Catalog.NameById(categories.rows, nav.filter.value);
        if name.None? {
          reply := Failure;
          return;
        }
        var kb := RecipesView(nav.filter, nav.page);
        reply := RecipeList(Some(name.value), kb);
      } else {
        var kb := RecipesView(None, nav.page);
        reply := RecipeList(None, kb);
      }
    }

    /**
     * One text message from `user`: the dispatcher picks the handler, which runs
     * as one step. Only the instructions step writes a recipe, only the category
     * step writes a category, only `/start` writes a user; no message touches a
     * rating or another user's dialogue.
     */
    method HandleMessage(user: int, username: Option<string>, fullName: string, text: string, roll: int)
      returns (reply: Reply)
      requires Valid()
      requires |recipes| > 0 ==> 1 <= roll <= |recipes|
      modifies this
      ensures Valid() && (old(Balanced()) ==> Balanced())
      ensures ratings == old(ratings)
      ensures forall u :: u != user ==> SessionOf(sessions, u) == SessionOf(old(sessions), u)
      ensures var route := MainRoutes.DispatchMessage(old(SessionOf(sessions, user)).step, text);
        && (route == MainRoutes.EnterRecipeInstructions ==>
              recipes == old(recipes)[old(nextRecipeId) := Committed(old(SessionOf(sessions, user)).draft, text, user)])
        && (route != MainRoutes.EnterRecipeInstructions ==> recipes == old(recipes) && nextRecipeId == old(nextRecipeId))
        && (route != MainRoutes.EnterNewCategory ==> categories == old(categories))
        && (route != MainRoutes.CmdStart ==> users == old(users))
      ensures var s0 := old(SessionOf(sessions, user));
        var route := MainRoutes.DispatchMessage(s0.step, text);
        && (route == MainRoutes.EnterNewCategory ==>
              var name := Text.Strip(text);
              var found := Catalog.FindOrCreate(old(categories), name);
              reply == Prompt && categories == found.0 && sessions == old(sessions)[user := WithCategory(s0, found.1, name)])
        && (route == MainRoutes.EnterRecipeTitle ==> reply == Prompt && sessions == old(sessions)[user := WithTitle(s0, text)])
        && (route == MainRoutes.EnterRecipeIngredients ==>
              reply == Prompt && sessions == old(sessions)[user := WithIngredients(s0, text)])
        && (route == MainRoutes.EnterRecipeInstructions ==>
              reply == Menu && sessions == old(sessions)[user := Idle] && nextRecipeId == old(nextRecipeId) + 1)
      ensures var s0 := old(SessionOf(sessions, user));
        var route := MainRoutes.DispatchMessage(s0.step, text);
        && (route == MainRoutes.CmdStart ==>
              reply == Menu && users == Catalog.Register(old(users), user, username, fullName) && sessions == old(sessions))
        && (route == MainRoutes.GoToMainMenu || route == MainRoutes.CancelAdding ==>
              reply == Menu && sessions == old(sessions)[user := Idle])
        && (route == MainRoutes.StartAddingRecipe ==>
              && reply.CategoryList? && Flatten(reply.kb) == Paging.CategoryButtons(Catalog.CategoryRows(categories))
              && sessions == old(sessions)[user := Started(s0)])
        && (route in {MainRoutes.ShowCategories, MainRoutes.ShowAllRecipes, MainRoutes.RandomRecipe,
                      MainRoutes.StartSearch, MainRoutes.SearchRecipes, MainRoutes.NoMessageHandler} ==>
              sessions == old(sessions))
        && (route == MainRoutes.ShowCategories ==>
              reply.CategoryList? && Flatten(reply.kb) == Paging.CategoryButtons(Catalog.CategoryRows(categories)))
        && (route == MainRoutes.ShowAllRecipes ==>
              reply.RecipeList? && reply.category == None && ShowsPage(reply.kb, recipes, nextRecipeId, None, 0))
        && (route == MainRoutes.RandomRecipe ==> reply == RandomPick(recipes, categories, users, roll))
        && (route == MainRoutes.StartSearch ==> reply == Prompt)
        && (route == MainRoutes.SearchRecipes ==> reply == SearchReply(recipes, categories, text, nextRecipeId))
        && (route == MainRoutes.NoMessageHandler ==> reply == Silent)
    {
      var step := SessionOf(sessions, user).step;
      var route := MainRoutes.DispatchMessage(step, text);
      if MainRoutes.IsStepRoute(route) {
        MainRoutes.StepCancelChecksAreDead(step, text);
        MainRoutes.StepRouteState(step, text);
        reply := HandleStep(user, text);
      } else {
        reply := HandleMenu(user, username, fullName, text, roll, route);
      }
    }

    /** A message that reaches the handler of the sender's dialogue step. */
    method HandleStep(user: int, text: string) returns (reply: Reply)
      requires Valid() && SessionOf(sessions, user).step.Some? && text != MainRoutes.CancelText
      modifies this
      ensures Valid() && (old(Balanced()) ==> Balanced())
      ensures ratings == old(ratings) && users == old(users)
      ensures forall u :: u != user ==> SessionOf(sessions, u) == SessionOf(old(sessions), u)
      ensures var route := MainRoutes.StepRoute(old(SessionOf(sessions, user)).step.value);
        && (route == MainRoutes.EnterRecipeInstructions ==>
              recipes == old(recipes)[old(nextRecipeId) := Committed(old(SessionOf(sessions, user)).draft, text, user)])
        && (route != MainRoutes.EnterRecipeInstructions ==> recipes == old(recipes) && nextRecipeId == old(nextRecipeId))
        && (route != MainRoutes.EnterNewCategory ==> categories == old(categories))
      ensures var s0 := old(SessionOf(sessions, user));
        var route := MainRoutes.StepRoute(s0.step.value);
        && (route == MainRoutes.EnterNewCategory ==>
              var name := Text.Strip(text);
              var found := Catalog.FindOrCreate(old(categories), name);
              reply == Prompt && categories == found.0 && sessions == old(sessions)[user := WithCategory(s0, found.1, name)])
        && (route == MainRoutes.EnterRecipeTitle ==> reply == Prompt && sessions == old(sessions)[user := WithTitle(s0, text)])
        && (route == MainRoutes.EnterRecipeIngredients ==>
              reply == Prompt && sessions == old(sessions)[user := WithIngredients(s0, text)])
        && (route == MainRoutes.EnterRecipeInstructions ==>
              reply == Menu && sessions == old(sessions)[user := Idle] && nextRecipeId == old(nextRecipeId) + 1)
    {
      match SessionOf(sessions, user).step.value
      case SelectCategory => reply := EnterNewCategory(user, text);
      case EnterTitle => reply := EnterRecipeTitle(user, text);
      case EnterIngredients => reply := EnterRecipeIngredients(user, text);
      case EnterInstructions => reply := EnterRecipeInstructions(user, text);
    }

    /** A message that reaches a menu, command or search handler: none of them writes a recipe. */
    method HandleMenu(user: int, username: Option<string>, fullName: string, text: string, roll: int,
                      route: MainRoutes.MessageRoute) returns (reply: Reply)
      requires Valid() && !MainRoutes.IsStepRoute(route)
      requires |recipes| > 0 ==> 1 <= roll <= |recipes|
      modifies this
      ensures Valid() && (old(Balanced()) ==> Balanced())
      ensures ratings == old(ratings) && recipes == old(recipes) && nextRecipeId == old(nextRecipeId)
      ensures categories == old(categories)
      ensures forall u :: u != user ==> SessionOf(sessions, u) == SessionOf(old(sessions), u)
      ensures route != MainRoutes.CmdStart ==> users == old(users)
      ensures route == MainRoutes.CmdStart ==>
        reply == Menu && users == Catalog.Register(old(users), user, username, fullName) && sessions == old(sessions)
      ensures route == MainRoutes.GoToMainMenu || route == MainRoutes.CancelAdding ==>
        reply == Menu && sessions == old(sessions)[user := Idle]
      ensures route == MainRoutes.StartAddingRecipe ==>
        && reply.CategoryList? && Flatten(reply.kb) == Paging.CategoryButtons(Catalog.CategoryRows(categories))
        && sessions == old(sessions)[user := Started(old(SessionOf(sessions, user)))]
      ensures route !in {MainRoutes.CmdStart, MainRoutes.GoToMainMenu, MainRoutes.CancelAdding, MainRoutes.StartAddingRecipe} ==>
        sessions == old(sessions)
      ensures route == MainRoutes.ShowCategories ==>
        reply.CategoryList? && Flatten(reply.kb) == Paging.CategoryButtons(Catalog.CategoryRows(categories))
      ensures route == MainRoutes.ShowAllRecipes ==>
        reply.RecipeList? && reply.category == None && ShowsPage(reply.kb, recipes, nextRecipeId, None, 0)
      ensures route == MainRoutes.RandomRecipe ==> reply == RandomPick(recipes, categories, users, roll)
      ensures route == MainRoutes.StartSearch ==> reply == Prompt
      ensures route == MainRoutes.SearchRecipes ==> reply == SearchReply(recipes, categories, text, nextRecipeId)
      ensures route == MainRoutes.NoMessageHandler ==> reply == Silent
    {
      match route
      case CmdStart => reply := CmdStart(user, username, fullName);
      case GoToMainMenu => reply := GoToMainMenu(user);
      case ShowCategories =>
        var kb := CategoriesView();
        reply := CategoryList(kb);
      case ShowAllRecipes =>
        var kb := RecipesView(None, 0);
        reply := RecipeList(None, kb);
      case RandomRecipe => reply := RandomPick(recipes, categories, users, roll);
      case StartAddingRecipe => reply := StartAddingRecipe(user);
      case CancelAdding => reply := CancelAdding(user);
      case StartSearch => reply := Prompt;
      case SearchRecipes => reply := SearchReply(recipes, categories, text, nextRecipeId);
      case NoMessageHandler => reply := Silent;
    }

    /**
     * One button press from `user`. No press changes a dialogue: the handler
     * that would record an existing category is shadowed. Only a rating press
     * writes, and it keeps the counters right when its recipe exists.
     */
    method HandleCallback(user: int, data: string, roll: int) returns (reply: Reply)
      requires Valid()
      requires |recipes| > 0 ==> 1 <= roll <= |recipes|
      modifies this
      ensures Valid()
      ensures sessions == old(sessions) && users == old(users) && categories == old(categories)
      ensures nextRecipeId == old(nextRecipeId)
      ensures MainRoutes.DispatchCallback(old(SessionOf(sessions, user)).step, data) != MainRoutes.RateRecipe ==>
        recipes == old(recipes) && ratings == old(ratings)
      ensures old(Balanced()) && (DecodeVote(data).Some? ==> DecodeVote(data).value.0 in old(recipes)) ==> Balanced()
      ensures MainRoutes.DispatchCallback(old(SessionOf(sessions, user)).step, data) == MainRoutes.RateRecipe ==>
        && (DecodeVote(data).None? ==> reply == Failure && recipes == old(recipes) && ratings == old(ratings))
        && (DecodeVote(data).Some? ==>
              var id, vote := DecodeVote(data).value.0, DecodeVote(data).value.1;
              var prev := Ratings.Lookup(old(ratings), user, id);
              && ratings == Ratings.Rate(old(ratings), user, id, vote)
              && recipes == Recount(old(recipes), id, prev, vote)
              && reply == Rated(Ratings.OutcomeOf(prev, vote), Shown(recipes, categories, users, id)))
      ensures MainRoutes.DispatchCallback(old(SessionOf(sessions, user)).step, data) == MainRoutes.ShowRecipesInCategory ==>
        && (Catalog.PickedCategory(categories, data).None? ==> reply == Failure)
        && (Catalog.PickedCategory(categories, data).Some? ==>
              var c := Catalog.PickedCategory(categories, data).value;
              reply.RecipeList? && reply.category == Some(c.name)
              && ShowsPage(reply.kb, recipes, nextRecipeId, Some(c.id), 0))
      ensures MainRoutes.DispatchCallback(old(SessionOf(sessions, user)).step, data) == MainRoutes.NewRandomRecipe ==>
        reply == RandomPick(recipes, categories, users, roll)
      ensures MainRoutes.DispatchCallback(old(SessionOf(sessions, user)).step, data) == MainRoutes.RecipesPagination ==>
        && (Text.StartsWith(data, "rec_") ==>
              var parts := Text.Split(data, '_');
              reply == if |parts| < 2 || Text.ParseInt(parts[1]).None? then Failure
                       else CardReply(recipes, categories, users, Text.ParseInt(parts[1]).value))
        && (!Text.StartsWith(data, "rec_") && Paging.DecodeNav(data).None? ==> reply == Failure)
        && (!Text.StartsWith(data, "rec_") && Paging.DecodeNav(data).Some? ==>
              var nav := Paging.DecodeNav(data).value;
              var name := if Truthy(nav.filter) then Catalog.NameById(categories.rows, nav.filter.value) else None;
              if Truthy(nav.filter) && name.None? then reply == Failure
              else (reply.RecipeList?
                && reply.category == (if Truthy(nav.filter) then Some(name.value) else None)
                && ShowsPage(reply.kb, recipes, nextRecipeId, Paging.Normal(nav.filter), nav.page)))
      ensures MainRoutes.DispatchCallback(old(SessionOf(sessions, user)).step, data) == MainRoutes.NoCallbackHandler ==>
        reply == Silent
    {
      var step := SessionOf(sessions, user).step;
      var route := MainRoutes.DispatchCallback(step, data);
      match route
      case ShowRecipesInCategory => reply := ShowRecipesInCategory(data);
      case NewRandomRecipe => reply := RandomPick(recipes, categories, users, roll);
      case RecipesPagination => reply := RecipesPagination(data);
      case RateRecipe => reply := RateRecipe(user, data);
      case SelectExistingCategory => assert false;
      case NoCallbackHandler => reply := Silent;
    }
  }
}
