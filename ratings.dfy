/**
 * The like/dislike toggle of `rate_recipe`: the `ratings` table keyed by
 * (user_id, recipe_id) and the `likes`/`dislikes` counters kept in the recipe row.
 */
module Ratings {
  import opened Common

  /** The `ratings` table: its PRIMARY KEY (user_id, recipe_id) makes it a map. */
  type Table = map<(int, int), int>

  /** The `likes` and `dislikes` columns of one recipe row. */
  datatype Tally = Tally(likes: int, dislikes: int)

  /** The answer shown after a press: "Спасибо за оценку!", "Оценка удалена", "Оценка изменена". */
  datatype Outcome = Thanked | Removed | Changed

  /** `rating = 1 if action == "like" else -1`. */
  function VoteOf(action: string): (v: int)
    ensures v == 1 || v == -1
    ensures v == 1 <==> action == "like"
  {
    if action == "like" then 1 else -1
  }

  /** `SELECT rating FROM ratings WHERE user_id = ? AND recipe_id = ?`. */
  function Lookup(ratings: Table, user: int, recipe: int): Option<int>
  {
    if (user, recipe) in ratings then Some(ratings[(user, recipe)]) else None
  }

  /**
   * The rating row after a press: a new row holds the vote, the same vote again
   * deletes the row, the other vote replaces it.
   */
  function NextRow(prev: Option<int>, vote: int): (r: Option<int>)
    ensures r.None? <==> prev == Some(vote)
    ensures r.Some? ==> r.value == vote
  {
    match prev
    case None => Some(vote)
    case Some(before) => if before == vote then None else Some(vote)
  }

  function OutcomeOf(prev: Option<int>, vote: int): Outcome
  {
    match prev
    case None => Thanked
    case Some(before) => if before == vote then Removed else Changed
  }

  /** `UPDATE recipes SET f = f + delta`, with `f` being "likes" if `rating == 1` else "dislikes". */
  function Bump(t: Tally, rating: int, delta: int): Tally
  {
    if rating == 1 then t.(likes := t.likes + delta) else t.(dislikes := t.dislikes + delta)
  }

  /** The counter updates `rate_recipe` issues for each of its three cases. */
  function NextTally(t: Tally, prev: Option<int>, vote: int): (r: Tally)
    ensures (vote == 1 || vote == -1) && (prev.Some? ==> prev.value == 1 || prev.value == -1) ==>
      && r.likes == t.likes - (if prev == Some(1) then 1 else 0) + (if NextRow(prev, vote) == Some(1) then 1 else 0)
      && r.dislikes == t.dislikes - (if prev == Some(-1) then 1 else 0) + (if NextRow(prev, vote) == Some(-1) then 1 else 0)
  {
    match prev
    case None => Bump(t, vote, 1)
    case Some(before) => if before == vote then Bump(t, vote, -1) else Bump(Bump(t, before, -1), vote, 1)
  }

  /** The `ratings` table after the INSERT, DELETE or UPDATE of one press. */
  function Rate(ratings: Table, user: int, recipe: int, vote: int): (r: Table)
    ensures Lookup(r, user, recipe) == NextRow(Lookup(ratings, user, recipe), vote)
    ensures r - {(user, recipe)} == ratings - {(user, recipe)}
  {
    match NextRow(Lookup(ratings, user, recipe), vote)
    case None => ratings - {(user, recipe)}
    case Some(v) => ratings[(user, recipe) := v]
  }

  /** The rows of `recipe` whose rating is `value`. */
  function Rows(ratings: Table, recipe: int, value: int): set<(int, int)>
  {
    set k | k in ratings && k.1 == recipe && ratings[k] == value
  }

  /** `SELECT COUNT(*) FROM ratings WHERE recipe_id = ? AND rating = ?`. */
  function Count(ratings: Table, recipe: int, value: int): nat
  {
    |Rows(ratings, recipe, value)|
  }

  /** The denormalised counters of `recipe` agree with its rating rows. */
  predicate Agrees(ratings: Table, recipe: int, t: Tally) {
    t.likes == Count(ratings, recipe, 1) && t.dislikes == Count(ratings, recipe, -1)
  }

  /** Every stored rating is a like or a dislike. */
  predicate OnlyVotes(ratings: Table) {
    forall k :: k in ratings ==> ratings[k] == 1 || ratings[k] == -1
  }

  lemma RowsAfterUpdate(ratings: Table, key: (int, int), v: int, recipe: int, value: int)
    ensures Rows(ratings[key := v], recipe, value)
         == (Rows(ratings, recipe, value) - {key}) + (if key.1 == recipe && v == value then {key} else {})
  {
  }

  lemma RowsAfterRemove(ratings: Table, key: (int, int), recipe: int, value: int)
    ensures Rows(ratings - {key}, recipe, value) == Rows(ratings, recipe, value) - {key}
  {
  }

  /** A press changes no count of any other recipe. */
  lemma RateOtherRecipe(ratings: Table, user: int, recipe: int, vote: int, other: int, value: int)
    requires other != recipe
    ensures Count(Rate(ratings, user, recipe, vote), other, value) == Count(ratings, other, value)
  {
    var key := (user, recipe);
    match NextRow(Lookup(ratings, user, recipe), vote)
    case None =>
      RowsAfterRemove(ratings, key, other, value);
      assert key !in Rows(ratings, other, value);
    case Some(v) =>
      RowsAfterUpdate(ratings, key, v, other, value);
      assert key !in Rows(ratings, other, value);
  }

  /** Writing one row moves each count by the row it replaces and the row it writes. */
  lemma CountAfterUpdate(ratings: Table, key: (int, int), v: int, recipe: int, value: int)
    ensures Count(ratings[key := v], recipe, value)
         == Count(ratings, recipe, value)
            - (if key in Rows(ratings, recipe, value) then 1 else 0)
            + (if key.1 == recipe && v == value then 1 else 0)
  {
    var rows := Rows(ratings, recipe, value);
    RowsAfterUpdate(ratings, key, v, recipe, value);
    if key in rows {
      assert |rows - {key}| == |rows| - 1;
    } else {
      assert rows - {key} == rows;
    }
  }

  lemma AgreesAfterInsert(ratings: Table, key: (int, int), vote: int, t: Tally)
    requires key !in ratings && (vote == 1 || vote == -1) && Agrees(ratings, key.1, t)
    ensures Agrees(ratings[key := vote], key.1, Bump(t, vote, 1))
  {
    var recipe := key.1;
    assert key !in Rows(ratings, recipe, 1) && key !in Rows(ratings, recipe, -1);
    CountAfterUpdate(ratings, key, vote, recipe, 1);
    CountAfterUpdate(ratings, key, vote, recipe, -1);
  }

  lemma AgreesAfterDelete(ratings: Table, key: (int, int), vote: int, t: Tally)
    requires key in ratings && ratings[key] == vote && (vote == 1 || vote == -1)
    requires Agrees(ratings, key.1, t)
    ensures Agrees(ratings - {key}, key.1, Bump(t, vote, -1))
  {
    var recipe := key.1;
    RowsAfterRemove(ratings, key, recipe, vote);
    RowsAfterRemove(ratings, key, recipe, -vote);
    assert key in Rows(ratings, recipe, vote);
    assert Rows(ratings - {key}, recipe, -vote) == Rows(ratings, recipe, -vote);
  }

  lemma AgreesAfterChange(ratings: Table, key: (int, int), vote: int, t: Tally)
    requires key in ratings && ratings[key] == -vote && (vote == 1 || vote == -1)
    requires Agrees(ratings, key.1, t)
    ensures Agrees(ratings[key := vote], key.1, Bump(Bump(t, -vote, -1), vote, 1))
  {
    var recipe := key.1;
    assert key in Rows(ratings, recipe, -vote) && key !in Rows(ratings, recipe, vote);
    CountAfterUpdate(ratings, key, vote, recipe, 1);
    CountAfterUpdate(ratings, key, vote, recipe, -1);
  }

  /**
   * The invariant of `rate_recipe`: if the counters of `recipe` agreed with its
   * rating rows before a press, the counters it writes agree with the rows it
   * writes, and every stored rating is still a like or a dislike.
   */
  lemma RateKeepsAgreement(ratings: Table, user: int, recipe: int, vote: int, t: Tally)
    requires OnlyVotes(ratings) && (vote == 1 || vote == -1)
    requires Agrees(ratings, recipe, t)
    ensures OnlyVotes(Rate(ratings, user, recipe, vote))
    ensures Agrees(Rate(ratings, user, recipe, vote), recipe, NextTally(t, Lookup(ratings, user, recipe), vote))
  {
    var key := (user, recipe);
    if key !in ratings {
      AgreesAfterInsert(ratings, key, vote, t);
    } else if ratings[key] == vote {
      AgreesAfterDelete(ratings, key, vote, t);
    } else {
      AgreesAfterChange(ratings, key, vote, t);
    }
  }

  /**
   * Switching between like and dislike moves one unit from one counter to the
   * other: the total number of votes on the recipe stays the same.
   */
  lemma ChangeKeepsTotal(t: Tally, before: int, vote: int)
    requires (before == 1 && vote == -1) || (before == -1 && vote == 1)
    ensures var n := NextTally(t, Some(before), vote);
      n.likes + n.dislikes == t.likes + t.dislikes
      && n.likes == t.likes + vote && n.dislikes == t.dislikes - vote
  {
  }

  /**
   * Pressing the same button twice is undone when the user had no rating or
   * already had that rating; after the opposite rating, two presses delete it.
   */
  lemma PressTwice(ratings: Table, user: int, recipe: int, vote: int, t: Tally)
    requires vote == 1 || vote == -1
    ensures var prev := Lookup(ratings, user, recipe);
      var once := Rate(ratings, user, recipe, vote);
      var twice := Rate(once, user, recipe, vote);
      var t2 := NextTally(NextTally(t, prev, vote), Lookup(once, user, recipe), vote);
      && (prev == None || prev == Some(vote) ==> twice == ratings && t2 == t)
      && (prev.Some? && prev != Some(vote) ==> twice == ratings - {(user, recipe)})
  {
    var key := (user, recipe);
    var prev := Lookup(ratings, user, recipe);
    var once := Rate(ratings, user, recipe, vote);
    if prev == None {
      assert Lookup(once, user, recipe) == Some(vote);
      assert once - {key} == ratings;
    } else if prev == Some(vote) {
      assert Lookup(once, user, recipe) == None;
      assert once[key := vote] == ratings;
    } else {
      assert Lookup(once, user, recipe) == Some(vote);
    }
  }

  /** The first like on a recipe nobody has rated inserts the row and counts it. */
  lemma FirstLike(ratings: Table, user: int, recipe: int)
    requires (user, recipe) !in ratings
    ensures Rate(ratings, user, recipe, 1) == ratings[(user, recipe) := 1]
    ensures NextTally(Tally(0, 0), Lookup(ratings, user, recipe), 1) == Tally(1, 0)
  {
  }

  /**
   * The toggle cycle after that first like: liking again deletes the row and
   * brings the counters back to 0/0; disliking instead leaves one dislike row
   * and counters 0/1.
   */
  lemma ToggleAfterFirstLike(ratings: Table, user: int, recipe: int)
    requires (user, recipe) !in ratings
    ensures var once := ratings[(user, recipe) := 1];
      && Rate(once, user, recipe, 1) == ratings
      && NextTally(Tally(1, 0), Lookup(once, user, recipe), 1) == Tally(0, 0)
      && Rate(once, user, recipe, -1) == ratings[(user, recipe) := -1]
      && NextTally(Tally(1, 0), Lookup(once, user, recipe), -1) == Tally(0, 1)
  {
    var key := (user, recipe);
    var once := ratings[key := 1];
    assert Lookup(once, user, recipe) == Some(1);
    assert once - {key} == ratings;
    assert once[key := -1] == ratings[key := -1];
  }
}
