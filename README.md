# Recipe bots: a verified model

This project models two Telegram recipe bots that share one idea: a small
SQLite store of users, categories and recipes, and a chat front end built from
reply-keyboard captions, inline buttons whose callback data encode ids, and a
per-user add-recipe dialogue kept in the chat framework's FSM storage.

- `main.py`, the rated bot, has these features:
  - a main menu (all recipes, categories, random recipe, add recipe, search);
  - listings paginated five per page, with `prev_`/`next_` navigation tokens;
  - a random pick;
  - title search with `LIKE`;
  - a like/dislike toggle that keeps `likes`/`dislikes` counters in the recipe
    row in step with a `ratings` table keyed by (user, recipe).
- `bot.py` is the simple bot. It has categories and complete, unpaginated
  listings, a recipe card and the same four-step dialogue. It has no ratings,
  no search and no cancel path.

Each handler is a method of a `RecipeBot` class. The class's fields are the
tables, held as maps and sequences, and the map of dialogue sessions. A
handler runs as one atomic step: its `ensures` state the whole new store and
the reply. The dispatcher of each bot is modelled as a pure function from
(current dialogue step, message text or callback data) to the handler that
runs. It follows aiogram's rules: handlers are tried in registration order,
the first match wins, and a handler without a state filter matches in every
state. `HandleMessage`/`HandleCallback` combine the dispatcher with the
handlers.

The store invariant `Stored` says:

- category ids ascend from 1 and names are unique;
- recipe ids are dense, `1 .. next-1`;
- every recipe names an existing category;
- every dialogue is well formed and names an existing category.

Every handler preserves it. In `main.py` the counter invariant `Counted` says
that every rating is ±1, belongs to a stored recipe, and each recipe's
counters equal its rating rows. It is preserved by every step except a vote on
an id that has no recipe (see `OrphanVoteMiscounts`).

Modules:

- `Common`: `Option`, and Python truthiness of an optional id.
- `Text`: `str.strip`, `str(int)`/`int()` (proved round trip), `split('_')`,
  `startswith`, SQLite's binary string order, `LIKE` patterns, the
  `<word>_<id>` tokens, command detection.
- `Listing`: `ORDER BY title` with ties broken by id, `WHERE category_id`,
  `LIMIT/OFFSET`, and dense AUTOINCREMENT ids.
- `Catalog`: the `users` and `categories` tables. Users are registered with
  `INSERT OR IGNORE`; categories are found or created, seeded, listed and
  picked by token.
- `Ratings`: the like/dislike toggle.
- `Paging`: the keyboards of `main.py` and its navigation tokens.
- `Keyboards`: buttons and keyboards.
- `Dialogue`: the FSM session and data dictionary.
- `MainRoutes` and `MainBot`: `main.py`.
- `SimpleRoutes` and `SimpleBot`: `bot.py`.

Where the code departs from its evident design, the model follows the code:

- **"Next" on a full page.** The "next" button is offered exactly when a
  page is full, so a listing whose length is a multiple of five ends on an
  empty page.
- **Random pick.** The random pick draws `randint(1, count)` and uses it as a
  recipe id.
- **No input validation.** Typed names, titles and texts are not validated;
  empty strings are accepted after `strip`.
- **Shadowed category handler.** In `main.py`, `select_existing_category` can
  never run, because the state-less `cat_` handler is registered first. A
  category press during the dialogue opens that category's listing instead.
- **Inline home button.** The inline "🏠 На главную" buttons carry data
  `main`, and no handler is registered for that data.
- **Menu captions inside a dialogue.** In `main.py` the "🔍 Поиск" caption is
  registered after the step handlers, so inside a dialogue it becomes the
  answer to the current step. In `bot.py` the same happens to "Категории 🗂"
  and "Все рецепты 📋", and `bot.py` offers no way to leave a dialogue except
  finishing it or restarting it with "Добавить рецепт ➕".
- **Votes on unknown ids.** Rating a recipe id that does not exist still writes
  a rating row, because SQLite does not enforce foreign keys by default.

## Model

| member | source | states |
|---|---|---|
| Text.Strip | main.py:510 | `strip` returns the slice of the input left after dropping whitespace at both ends: it starts and ends with a non-space, and every dropped character is whitespace |
| Text.StripKeeps | main.py:510 | a string with no whitespace at either end is left unchanged by `strip` |
| Text.StripIdempotent | bot.py:171 | stripping a stripped name changes nothing, so a category name typed twice with different padding finds the same row |
| Text.IntToStringRoundTrip | main.py:396-397 | `int(str(n)) == n` for every integer, so ids put into callback data by f-strings come back unchanged |
| Text.DigitsRoundTrip | main.py:369 | reading the decimal digits of a natural number back gives the number |
| Text.SplitThenJoin | main.py:368 | joining the pieces of `split('_')` with `_` gives back the original string |
| Text.JoinThenSplit | main.py:368 | splitting a `_`-join of `_`-free pieces gives back exactly those pieces |
| Text.TokenParts | main.py:396 | a `<word>_<id>` token with a `_`-free word splits into exactly `[word, str(id)]` |
| Text.TokenIdRoundTrip | bot.py:285 | `int(data.split('_')[1])` on a `<word>_<id>` token is the id |
| Text.ParseUnsigned | main.py:369 | `int()` of a run of ASCII digits is the number they spell |
| Text.ParseNegative | main.py:369-370 | `int()` of a minus sign and a run of ASCII digits is the negated number |
| Text.LikeLiteral | main.py:606-612 | a pattern that begins with a wildcard-free part `q` matches a text exactly when the text begins with `q` up to ASCII case and the rest of the pattern matches the rest of the text |
| Text.LikePercent | main.py:606-612 | `%` followed by a pattern matches exactly when the pattern matches some suffix |
| Text.LikeIsSubstring | main.py:606-615 | the search pattern `%q%` with a wildcard-free query matches exactly the titles containing `q`, up to ASCII case |
| Text.LessTransitive | main.py:171 | SQLite's binary string order is transitive (with `LessIrreflexive` and `LessTotal`, a strict total order) |
| Listing.BeforeTotal | main.py:193 | the listing order (title, then id) relates every two different rows |
| Listing.SortOrdered | main.py:193 | sorting rows that are all different yields them in strictly increasing listing order, and sorting keeps every row exactly once |
| Listing.OrderedUnique | main.py:193 | two ordered sequences holding the same rows are equal, so `ORDER BY` determines the listing |
| Listing.Scan | main.py:189-201 | a table scan yields exactly the rows whose category passes a truthy filter (every row when the filter is falsy), in id order |
| Listing.QueryExact | bot.py:93-106 | the listing query is ordered and holds exactly the selected recipes, each once |
| Listing.Window | main.py:195-201 | `LIMIT n OFFSET k` returns at most `n` rows, taken in order from position `k` on (from 0 when `k` is negative, none past the end), and all of the remaining rows when fewer than `n` are left |
| Listing.WindowFromStart | main.py:612 | `LIMIT n` without an offset gives the first `n` rows, or all of them when there are fewer |
| Listing.WindowIsSlice | main.py:195-201 | `LIMIT n OFFSET k` gives the slice starting at `k`, of length `min(n, len - k)` |
| Listing.WindowOrdered | main.py:195-201 | a window of an ordered listing is ordered and contains only listing rows |
| Catalog.IdByName | main.py:518-519 | `SELECT id ... WHERE name = ?` finds a row exactly when one has that name, and returns that row's id |
| Catalog.NameById | main.py:328-330 | `SELECT name ... WHERE id = ?` finds a row exactly when one has that id, and returns that row's name |
| Catalog.FindOrCreate | main.py:510-519 | the returned id is that of a row holding the name; the table only ever grows by at most one appended row |
| Catalog.FindOrCreateSpec | main.py:510-519 | find-or-create keeps the table well formed; it adds a row exactly when the name is new, and the new row gets a fresh id above all others; it returns the id of the row with that name; earlier rows are untouched |
| Catalog.FindOrCreateTwice | bot.py:171-181 | typing the same category name again returns the same id and leaves the table unchanged |
| Catalog.Seed | main.py:84-96 | a table with rows is returned unchanged; an empty one gets the six basic names, in order, with consecutive ids from the counter |
| Catalog.SeedNamesDistinct | main.py:87-90 | the six basic category names are pairwise different |
| Catalog.SeedSpec | main.py:84-96 | on an empty table the seed inserts exactly the six basic categories, in order, with consecutive ids from the counter, and keeps the table well formed; a table with rows is left unchanged, so restarting changes nothing |
| Catalog.InsertAllRows | main.py:91-94 | `executemany` of plain INSERTs appends one row per name with consecutive ids and keeps the earlier rows |
| Catalog.Register | main.py:286-290 | the user ids after `INSERT OR IGNORE` are the old ones plus the sender; stored users keep their rows; a new sender gets the given username and full name |
| Catalog.RegisterKeepsFirst | main.py:286-290 | `INSERT OR IGNORE` stores a user on first contact only; later contacts keep the first username and name; other users are untouched |
| Catalog.CategoryRowsSpec | main.py:171-172 | the category listing holds every category exactly once, in strictly increasing name order |
| Catalog.PickedCategory | main.py:328-330 | a pressed token names a category only if that category is stored |
| Catalog.PickedToken | bot.py:154-156 | the `<word>_<id>` token of a stored category picks exactly that category |
| Ratings.VoteOf | main.py:402 | the vote is 1 exactly for the action `like`, and -1 otherwise |
| Ratings.NextRow | main.py:410-443 | after a press the (user, recipe) row is deleted exactly when it held the same vote; otherwise it holds the new vote |
| Ratings.Rate | main.py:410-451 | after a press the (user, recipe) row is what the toggle gives (deleted, changed or inserted) and every other rating row is unchanged |
| Ratings.NextTally | main.py:410-451 | for votes of ±1 the counters follow the row: `likes` loses one when a like row goes and gains one when a like row appears, and `dislikes` likewise |
| Ratings.RateKeepsAgreement | main.py:410-451 | if a recipe's counters matched its rating rows before a press, the counters written match the rows written, and every rating stays ±1 |
| Ratings.RateOtherRecipe | main.py:410-451 | a press changes no count of any other recipe |
| Ratings.ChangeKeepsTotal | main.py:427-441 | switching between like and dislike keeps the recipe's total vote count |
| Ratings.PressTwice | main.py:410-451 | pressing a button twice restores the row and counters, unless the row held the opposite vote, in which case it ends deleted |
| Ratings.FirstLike | main.py:443-451 | the first like inserts the row and raises likes from 0 to 1 |
| Ratings.ToggleAfterFirstLike | main.py:410-441 | after a first like, liking again restores 0/0 with no row; disliking instead leaves one dislike row and counters 0/1 |
| Dialogue.Started | main.py:465-473 | starting the dialogue enters the category step and keeps the data dictionary |
| Dialogue.WithCategory | main.py:521-527 | recording a category sets its id and name and moves to the title step |
| Dialogue.WithTitle | main.py:530-542 | recording the title keeps the category and moves to the ingredients step |
| Dialogue.WithIngredients | main.py:545-557 | recording the ingredients keeps title and category and moves to the instructions step |
| Paging.CategoryButtons | main.py:176-177 | one `cat_<id>` button per category, in listing order |
| Paging.CategoriesKeyboard | main.py:169-184 | the categories keyboard holds exactly the category buttons in order, two per row, with only the last row possibly holding one |
| Paging.RecipesKeyboard | main.py:203-231 | one button per recipe on the page, in order; then the navigation row, which is exactly `[prev]` when `page > 0`, then `[next]` when the page is full (absent when neither); the home button comes last |
| Paging.NavButtonsDiffer | main.py:207-226 | the two arrows, the recipe buttons and the home button are all different buttons |
| Paging.NavRoundTrip | main.py:368-375 | decoding a `prev_`/`next_` token gives the neighbouring page and the same filter, a falsy filter being read back as none |
| Paging.DecodeNav | main.py:368-375 | data that does not split into exactly three `_`-pieces do not decode, where Python's unpacking raises; a decoded token had a page `int()` accepts |
| Paging.PrevStaysNonNegative | main.py:209-216 | "prev" is only offered above page 0, so it never leads to a negative page |
| Paging.PageIsSlice | main.py:188-201 | a page holds at most five rows: those from `page * 5` on; it is non-empty when rows remain |
| Paging.PageOrdered | main.py:188-201 | a page of an ordered listing is ordered and contains only listing rows |
| Paging.NextOfferedIff | main.py:217-224 | "next" is offered exactly when `(page + 1) * 5` rows exist |
| Paging.ExactMultipleBoundary | main.py:217-224 | with exactly `k` full pages, page `k-1` still offers "next", which leads to an empty page offering none |
| Paging.LastPage | main.py:188-224 | pages below `len / 5` are full; page `len / 5` holds the remaining `len % 5` rows |
| Paging.WalkShowsAll | main.py:361-383 | following "next" from a page shows every remaining row of the listing once, in order, and stops |
| MainRoutes.ExitsAlwaysReachable | main.py:306-313 | "❌ Отмена" and "🏠 На главную" reach their handlers in every state |
| MainRoutes.StepCancelChecksAreDead | main.py:506-508 | a step handler never receives "❌ Отмена", so its own cancel check never fires |
| MainRoutes.StepRouteState | main.py:503-561 | a step handler runs only when the sender is in that handler's step |
| MainRoutes.StepHandlerFor | main.py:503-561 | in a dialogue a text reaches the step handler unless it is a command or one of the six menu and exit captions |
| MainRoutes.SearchCaptionConsumedByDialogue | main.py:592-593 | "🔍 Поиск" starts a search when idle but is taken as the step's answer inside a dialogue |
| MainRoutes.IdleTextSearches | main.py:604-605 | when idle, any other non-empty text that is no command and no caption is searched for |
| MainRoutes.ExistingCategoryShadowed | main.py:486-487 | no press reaches `select_existing_category`; every `cat_` press goes to `show_recipes_in_category` |
| MainRoutes.InlineHomeUnhandled | main.py:226 | the `main` data of the inline home button reaches no handler |
| MainRoutes.RatingDataRoutes | main.py:393 | `like_...` and `dislike_...` data reach `rate_recipe` in every state |
| MainRoutes.CallbacksIgnoreState | main.py:325-394 | callback routing does not depend on the dialogue state |
| MainRoutes.DispatchMessage | main.py:279-605 | a command or one of the six menu and exit captions reaches its own handler in every state; otherwise a step handler runs exactly when a dialogue is open, and it is the one of the current step; a search happens only when idle, for non-empty text other than "🔍 Поиск" |
| MainRoutes.MenuRoute | main.py:279-483 | the state-less handlers registered before the steps take exactly the commands and the six captions; `/start`/`/help` take exactly the commands; none of them is a step handler or the search |
| MainRoutes.CaptionRoute | main.py:306-483 | each of the six menu and exit captions, and nothing else, has a state-less handler that is neither a command, a step nor the search |
| MainRoutes.IdleRoute | main.py:592-605 | after the steps, a text is searched for exactly when it is non-empty, not "🔍 Поиск" and not "❌ Отмена"; no step handler is reached |
| MainRoutes.DispatchCallback | main.py:325-487 | no press reaches `select_existing_category`; a press reaches `show_recipes_in_category` exactly when its data start with `cat_` |
| MainBot.FullListing | main.py:187-201 | the full listing is ordered and holds exactly the stored recipes of the filtered category |
| MainBot.PageItemsSpec | main.py:187-206 | a page lists at most five stored recipes, in title order, of the filtered category; it is the slice of the full listing from `page * 5` |
| MainBot.NormalKeepsListing | main.py:370 | reading a filter back from a token lists the same recipes |
| MainBot.ArrowsStayInListing | main.py:368-383 | a page's arrows lead to the neighbouring pages of the same listing, and "prev" never to a negative page |
| MainBot.CategoryButtonRoundTrip | main.py:176-177 | every category button picks back its own category |
| MainBot.CardNeedsRegisteredAuthor | main.py:236-243 | in a consistent store a card is sent exactly when the recipe's author has registered |
| MainBot.CardReply | main.py:234-261 | the card is sent exactly when the id has a recipe in an existing category whose author registered; otherwise nothing is sent |
| MainBot.DecodeVote | main.py:396-402 | a decoded press carries a vote of ±1 |
| MainBot.VoteTokenDecodes | main.py:123-150 | the data of a rating button decodes to its recipe and vote |
| MainBot.RatingButtonsRoute | main.py:123-150 | both rating buttons under a card reach `rate_recipe` with that recipe and a like or a dislike |
| MainBot.CardNavigationRoutes | main.py:123-150 | under a card "new random" reaches its handler and home reaches none |
| MainBot.RateKeepsCounted | main.py:410-451 | a press on a stored recipe keeps every counter equal to its rows, and changes no other recipe |
| MainBot.OrphanVoteMiscounts | main.py:443-451 | a press on a missing id writes an orphan row, which a recipe stored later under that id miscounts |
| MainBot.CommitKeepsCounted | main.py:570-581 | a new recipe under a fresh id with 0/0 counters is counted correctly |
| MainBot.DenseSize | main.py:266-267 | with dense ids, `COUNT(*)` equals `next - 1` |
| MainBot.RandomPickSpec | main.py:264-276 | with no recipes the menu comes back; otherwise the roll always names a stored recipe, every stored recipe has a roll, and its card is sent exactly when its author registered |
| MainBot.RandomPick | main.py:264-276 | the menu comes back exactly when there are no recipes; otherwise the card of the rolled id is sent or nothing |
| MainBot.SearchSpec | main.py:604-633 | the hits are exactly the first twenty matches in title order (all of them when fewer); each is a stored recipe in an existing category whose title matches; a wildcard-free query matches the titles containing it |
| MainBot.SearchHitsLabelled | main.py:606-613 | every hit has a stored recipe in an existing category, so the `JOIN` finds its label |
| MainBot.SearchReply | main.py:604-633 | the menu comes back exactly when nothing matches; otherwise one single-button row per hit, in order, each carrying the hit's `rec_<id>` token |
| MainBot.RecipeTokenRoutes | main.py:361-366 | a `rec_<id>` button reaches `handle_recipes_pagination` in every state, down its `rec_` branch |
| MainBot.RecipeTokenNames | main.py:364-365 | the `rec_` branch splits the token into `rec` and the id, and reads back the id the button was built with |
| MainBot.StoredAfterGrowth | main.py:510-519 | the store invariant survives the category table growing |
| MainBot.StoredAfterRecord | main.py:510-527 | recording a found-or-created category in one user's draft keeps the store invariant |
| MainBot.StoredAfterCommit | main.py:570-589 | storing a recipe in an existing category under the next id and ending the dialogue keeps the store invariant |
| MainBot.RecipeBot.constructor | main.py:34-97 | a fresh database has no users, recipes, ratings or dialogues, the next id 1 and the seeded categories; both invariants hold |
| MainBot.RecipeBot.InitDb | main.py:84-96 | `init_db` seeds the categories and keeps the store invariant |
| MainBot.RecipeBot.CmdStart | main.py:279-303 | `/start` registers the sender and changes nothing else |
| MainBot.RecipeBot.GoToMainMenu | main.py:306-313 | going home drops the dialogue and its draft |
| MainBot.RecipeBot.CancelAdding | main.py:476-483 | cancelling drops the dialogue and writes nothing |
| MainBot.RecipeBot.CategoriesView | main.py:316-322 | the categories view lists every category once, in name order, two per row |
| MainBot.RecipeBot.RecipesView | main.py:339-345 | the recipes view shows the requested page with the navigation the page calls for |
| MainBot.RecipeBot.StartAddingRecipe | main.py:465-473 | starting the dialogue shows the categories, enters the category step and keeps the draft |
| MainBot.RecipeBot.SelectExistingCategory | main.py:486-500 | a valid `cat_` press records the category and asks for the title; an invalid one fails with nothing changed |
| MainBot.RecipeBot.EnterNewCategory | main.py:503-527 | the stripped text is found or created as a category and recorded in the draft |
| MainBot.RecipeBot.RecordCategory | main.py:510-527 | the category table becomes the find-or-create result for the name, and the sender's draft records its id and name and moves to the title step; nothing else changes |
| MainBot.RecipeBot.EnterRecipeTitle | main.py:530-542 | the text becomes the draft's title |
| MainBot.RecipeBot.EnterRecipeIngredients | main.py:545-557 | the text becomes the draft's ingredients |
| MainBot.RecipeBot.EnterRecipeInstructions | main.py:560-589 | the draft and the text become a new recipe under the next id with counters 0/0; the dialogue ends; the store and counter invariants hold |
| MainBot.RecipeBot.CommitRecipe | main.py:566-589 | the draft and the text are stored under the next id, the id counter advances, the dialogue ends; users, categories and ratings are unchanged; both invariants hold |
| MainBot.RecipeBot.RateRecipe | main.py:393-462 | an undecodable press fails and writes nothing; a decoded press updates the rating row and the counters together; the counter invariant holds when the recipe exists |
| MainBot.RecipeBot.ApplyVote | main.py:402-458 | the rating table becomes the toggle result, the recipe's counters move with it, the reply names the outcome and the redrawn card; the counter invariant holds when the recipe exists; nothing else changes |
| MainBot.RecipeBot.ShowRecipesInCategory | main.py:325-336 | a `cat_` press shows the first page of that category under its name, or fails when no category has that id |
| MainBot.RecipeBot.RecipesPagination | main.py:361-390 | a `rec_` press sends that card; a navigation press shows the page its token names, or fails where Python raises |
| MainBot.RecipeBot.HandleMessage | main.py:279-633 | for each handler the dispatcher picks, the reply and the new tables and dialogues that handler produces (registration, dialogue steps, exits, listings, random pick, search); only the instructions step writes a recipe, only the category step a category, only `/start` a user; no other user's dialogue changes |
| MainBot.RecipeBot.HandleStep | main.py:503-589 | per dialogue step: the category step finds or creates the stripped name and records it, the title and ingredients steps record the text, the instructions step stores the recipe and ends the dialogue |
| MainBot.RecipeBot.HandleMenu | main.py:279-483 | per state-less handler: `/start` registers the sender, the exits end the dialogue, "add" opens the category step with the category buttons, the listings, random pick, search prompt and search give their replies; none of them writes a recipe or a category |
| MainBot.RecipeBot.HandleCallback | main.py:325-462 | for each handler the dispatcher picks: a rating press fails when undecodable and otherwise updates the row and counters together; a `cat_` press lists that category or fails; "new random" gives a random pick; `rec_`/navigation presses give the card or page; other data get no answer; no press changes a dialogue, a user or a category |
| SimpleRoutes.CreationConsumesText | bot.py:169-214 | in a dialogue every text except `/start` and the add caption reaches the current step's handler |
| SimpleRoutes.StepRouteState | bot.py:169-214 | a step handler runs only when the sender is in that handler's step |
| SimpleRoutes.MenuCaptionsConsumed | bot.py:241-251 | in a dialogue "Категории 🗂" and "Все рецепты 📋" are taken as the step's answer |
| SimpleRoutes.IdleText | bot.py:241-251 | when idle, a text that is no command and not the add caption reaches a menu handler or none |
| SimpleRoutes.CategoriesCaptionIdle | bot.py:241-246 | when idle, "Категории 🗂" opens the categories |
| SimpleRoutes.AllRecipesCaptionIdle | bot.py:250-255 | when idle, "Все рецепты 📋" opens the full listing |
| SimpleRoutes.AddAlwaysReachable | bot.py:141-148 | "Добавить рецепт ➕" restarts the dialogue from any state |
| SimpleRoutes.CategoryPressRoutes | bot.py:152-153 | a `category_` press records the category in the category step and lists its recipes in every other state |
| SimpleRoutes.BackRoutes | bot.py:273-274 | the back button reaches its handler in every state |
| SimpleRoutes.RecipePressRoutes | bot.py:283-284 | a `recipe_` press reaches `show_recipe` in every state |
| SimpleRoutes.DispatchMessage | bot.py:121-251 | `/start` wins exactly for the start command; a step handler runs only when a dialogue is open, and it is the one of the current step |
| SimpleRoutes.DispatchCallback | bot.py:152-284 | `process_category` runs exactly for a `category_` press in the category step; `category_` presses, and only they, reach it or `show_recipes_by_category` |
| SimpleBot.CategoriesKeyboardSpec | bot.py:83-90 | one row per category, in name order, each button captioned with its category and picking that category back |
| SimpleBot.CategoriesKeyboardComplete | bot.py:83-90 | every stored category is offered |
| SimpleBot.RecipeButtonDecodes | bot.py:109-112 | a recipe button carries its recipe's id, reaches `show_recipe`, and is never the back button |
| SimpleBot.RecipesKeyboardSpec | bot.py:93-117 | one row per listed recipe, in order, each leading to its card; the back button is there exactly when filtered |
| SimpleBot.ListingSpec | bot.py:93-106 | the listing holds every stored recipe of the filtered category once, in title order, and nothing else |
| SimpleBot.CardNeedsRegisteredAuthor | bot.py:287-295 | a card is found exactly for a stored id whose author has registered |
| SimpleBot.StoredAfterRecord | bot.py:171-189 | recording a found-or-created category in one user's draft keeps the store invariant |
| SimpleBot.StoredAfterCommit | bot.py:213-237 | storing a recipe in an existing category under the next id and ending the dialogue keeps the store invariant |
| SimpleBot.RecipeBot.constructor | bot.py:32-60 | the tables start empty, with no categories seeded |
| SimpleBot.RecipeBot.CmdStart | bot.py:121-137 | `/start` registers the sender and changes nothing else |
| SimpleBot.RecipeBot.CategoriesView | bot.py:241-246 | the categories view offers every category, one per row |
| SimpleBot.RecipeBot.RecipesView | bot.py:250-255 | the recipes view lists exactly the matching recipes, with the back button exactly when filtered |
| SimpleBot.RecipeBot.AddRecipeStart | bot.py:141-148 | starting the dialogue shows the categories and enters the category step |
| SimpleBot.RecipeBot.ProcessCategory | bot.py:152-165 | a valid press records the category and asks for the title; an invalid one fails with nothing changed |
| SimpleBot.RecipeBot.ProcessNewCategory | bot.py:169-189 | the stripped text is found or created as a category and recorded |
| SimpleBot.RecipeBot.RecordCategory | bot.py:171-189 | the category table becomes the find-or-create result for the name, and the sender's draft records its id and name and moves to the title step; nothing else changes |
| SimpleBot.RecipeBot.ProcessTitle | bot.py:193-199 | the text becomes the draft's title |
| SimpleBot.RecipeBot.ProcessIngredients | bot.py:203-209 | the text becomes the draft's ingredients |
| SimpleBot.RecipeBot.ProcessInstructions | bot.py:213-237 | the draft and the text become a new recipe under the next id, and the dialogue ends |
| SimpleBot.RecipeBot.ShowRecipesByCategory | bot.py:259-269 | a `category_` press lists the category's recipes under its name with the back button, or fails |
| SimpleBot.RecipeBot.ShowRecipe | bot.py:283-309 | the press's id gives the card when the join finds the recipe, "not found" otherwise, and a failure when `int()` raises |
| SimpleBot.RecipeBot.HandleMessage | bot.py:121-255 | for each handler the dispatcher picks, the reply and the new tables and dialogues that handler produces; only the instructions step writes a recipe, only the category step a category, only `/start` a user; other users' dialogues are untouched |
| SimpleBot.RecipeBot.HandleStep | bot.py:169-237 | per dialogue step: the category step finds or creates the stripped name and records it, the title and ingredients steps record the text, the instructions step stores the recipe and ends the dialogue |
| SimpleBot.RecipeBot.HandleMenu | bot.py:121-255 | per state-less handler: `/start` registers the sender, "add" opens the category step with the category keyboard, the two listings give their keyboards; none of them writes a recipe or a category |
| SimpleBot.RecipeBot.HandleCallback | bot.py:152-309 | for each handler the dispatcher picks: a category press in the category step records the category or fails, elsewhere lists its recipes; back shows the categories; a recipe press gives the card, "not found" or a failure; other data get no answer; no press writes a table |

## Left out

- Transport. Sending, editing and deleting messages, `callback.answer`, message
  texts, HTML formatting of the card and reply-keyboard layout are not
  modelled. Replies are reduced to what they show: the menu, a prompt, a
  listing, a card, or nothing.
- Non-text messages. A message without text never matches the text filters;
  the model takes every message as text.
- Command parsing. `Command` also accepts `/start@botname`; the model
  recognises only the plain `/start` and `/help` as first word.
- Integer parsing. Like Python's `int()`, the model's `ParseInt` strips
  surrounding whitespace and accepts an optional `+` or `-` followed by
  decimal digits. It differs in two ways: it rejects underscores between
  digits and non-ASCII digits, which `int()` accepts. No token the bots build
  contains either.
- The randomness of `random.randint`. The roll is a parameter constrained to
  `1 .. count`; its distribution is not modelled.
- SQLite `LIKE`. Case folding is modelled for ASCII letters only, which is
  what SQLite does without ICU.
- Foreign keys. SQLite does not enforce them by default, and the model does
  not either. This is what makes orphan votes possible.
- Timestamps (`created_at`), logging, the bot token and the polling loop are
  not modelled.
- Concurrency. Updates from different users are taken one at a time; each
  handler is one atomic step.
- Exceptions. An exception a handler raises before answering is the `Failure`
  reply with nothing written. The `except` branch of `rate_recipe` (main.py
  lines 460-462) catches database errors the model cannot produce. The model
  records such a failure as `Failure`.
- `start_search` (main.py lines 592-601) only sends a prompt. It sets no state,
  so the model's reply is `Prompt` with no change of store.
- `main_menu_keyboard`, `home_keyboard`, `cancel_keyboard` and
  `make_main_keyboard` build reply keyboards whose captions are the constants
  of `MainRoutes` and `SimpleRoutes`. Their layout is not modelled.
