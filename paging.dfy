/**
 * The listing keyboards of the rated bot: the categories keyboard laid out two
 * buttons per row, and the paginated recipes keyboard with its `prev_`/`next_`
 * navigation tokens and the decoding of those tokens.
 */
module Paging {
  import opened Common
  import Text
  import opened Listing
  import opened Keyboards

  /** The default of `per_page`. */
  const PerPage: nat := 5

  const PrevCaption: string := "⬅️ Назад"
  const NextCaption: string := "Вперед ➡️"
  const HomeCaption: string := "🏠 На главную"
  const HomeButton: Button := Button(HomeCaption, "main")

  function CategoryButton(c: Row): Button
  {
    Button(c.text, "cat_" + Text.IntToString(c.id))
  }

  /** The buttons `categories_keyboard` makes, one per category, in order. */
  function CategoryButtons(cats: seq<Row>): (bs: seq<Button>)
    ensures |bs| == |cats|
    ensures forall i :: 0 <= i < |cats| ==> bs[i] == CategoryButton(cats[i])
    decreases |cats|
  {
    if |cats| == 0 then [] else CategoryButtons(cats[..|cats| - 1]) + [CategoryButton(cats[|cats| - 1])]
  }

  function RecipeButton(r: Row): Button
  {
    Button(r.text, "rec_" + Text.IntToString(r.id))
  }

  /** `category_id or 0`. */
  function OrZero(filter: Option<int>): int
  {
    if Truthy(filter) then filter.value else 0
  }

  /** `f"{action}_{page}_{category_id or 0}"`. */
  function NavToken(action: string, page: int, filter: Option<int>): string
  {
    Text.Join([action, Text.IntToString(page), Text.IntToString(OrZero(filter))], '_')
  }

  function PrevButton(page: int, filter: Option<int>): Button
  {
    Button(PrevCaption, NavToken("prev", page, filter))
  }

  function NextButton(page: int, filter: Option<int>): Button
  {
    Button(NextCaption, NavToken("next", page, filter))
  }

  /** The rows of one page: `LIMIT per_page OFFSET page * per_page` over the ordered listing. */
  function PageOf(list: seq<Row>, page: int, perPage: nat): seq<Row>
  {
    Window(list, page * perPage, perPage)
  }

  // ------------------------------------------------------------- keyboards

  /**
   * `categories_keyboard`: the category buttons in listing order, two per row,
   * the last row holding the odd one out.
   */
  method CategoriesKeyboard(cats: seq<Row>) returns (kb: Keyboard)
    ensures Flatten(kb) == CategoryButtons(cats)
    ensures forall i :: 0 <= i < |kb| ==> |kb[i]| == 2 || (|kb[i]| == 1 && i == |kb| - 1)
  {
    kb := [];
    var row: seq<Button> := [];
    for n := 0 to |cats|
      invariant |row| == n % 2
      invariant Flatten(kb) + row == CategoryButtons(cats[..n])
      invariant Pairs(kb)
    {
      PushButton(kb, row, cats, n);
      row := row + [CategoryButton(cats[n])];
      if (n + 1) % 2 == 0 {
        kb := kb + [row];
        row := [];
      }
    }
    assert cats[..|cats|] == cats;
    if |row| > 0 {
      assert |row| == 1;
      FlattenAppend(kb, row);
      LastRowShape(kb, row);
      kb := kb + [row];
    }
  }

  /** One pass of the loop in `CategoriesKeyboard`: the button joins the row, and a full row joins the keyboard. */
  lemma PushButton(kb: Keyboard, row: seq<Button>, cats: seq<Row>, n: nat)
    requires n < |cats| && |row| == n % 2 && Pairs(kb)
    requires Flatten(kb) + row == CategoryButtons(cats[..n])
    ensures var row' := row + [CategoryButton(cats[n])];
      if (n + 1) % 2 == 0 then
        Flatten(kb + [row']) + [] == CategoryButtons(cats[..n + 1]) && Pairs(kb + [row'])
      else
        |row'| == (n + 1) % 2 && Flatten(kb) + row' == CategoryButtons(cats[..n + 1])
  {
    var row' := row + [CategoryButton(cats[n])];
    CategoryButtonsStep(cats, n);
    NextParity(n);
    assert Flatten(kb) + row' == CategoryButtons(cats[..n + 1]);
    if (n + 1) % 2 == 0 {
      FlattenAppend(kb, row');
      PairsAppend(kb, row');
    }
  }

  lemma LastRowShape(kb: Keyboard, row: seq<Button>)
    requires Pairs(kb) && |row| == 1
    ensures var kb' := kb + [row];
      forall i :: 0 <= i < |kb'| ==> |kb'[i]| == 2 || (|kb'[i]| == 1 && i == |kb'| - 1)
  {
  }

  /** Every row of the keyboard holds two buttons. */
  predicate Pairs(kb: Keyboard)
  {
    forall i :: 0 <= i < |kb| ==> |kb[i]| == 2
  }

  lemma PairsAppend(kb: Keyboard, row: seq<Button>)
    requires Pairs(kb) && |row| == 2
    ensures Pairs(kb + [row])
  {
  }

  lemma CategoryButtonsStep(cats: seq<Row>, n: nat)
    requires n < |cats|
    ensures CategoryButtons(cats[..n + 1]) == CategoryButtons(cats[..n]) + [CategoryButton(cats[n])]
  {
    assert cats[..n + 1][..n] == cats[..n];
  }

  lemma NextParity(n: nat)
    ensures n % 2 == 0 ==> (n + 1) % 2 == 1
    ensures n % 2 == 1 ==> (n + 1) % 2 == 0
    ensures n % 2 == 0 || n % 2 == 1
  {
  }

  lemma FlattenAppend(kb: Keyboard, row: seq<Button>)
    ensures Flatten(kb + [row]) == Flatten(kb) + row
  {
    assert (kb + [row])[..|kb|] == kb;
  }

  /**
   * `recipes_keyboard` for the rows of one page: a button per recipe, then a
   * navigation row offering "prev" exactly when `page > 0` and "next" exactly
   * when the page is full, then the home button.
   */
  method RecipesKeyboard(items: seq<Row>, filter: Option<int>, page: int, perPage: nat) returns (kb: Keyboard)
    ensures |kb| == |items| + (if page > 0 || |items| == perPage then 2 else 1)
    ensures forall i :: 0 <= i < |items| ==> kb[i] == [RecipeButton(items[i])]
    ensures kb[|kb| - 1] == [HomeButton]
    ensures Offers(kb, PrevButton(page, filter)) <==> page > 0
    ensures Offers(kb, NextButton(page, filter)) <==> |items| == perPage
    ensures page > 0 || |items| == perPage ==>
      kb[|items|] == (if page > 0 then [PrevButton(page, filter)] else [])
                     + (if |items| == perPage then [NextButton(page, filter)] else [])
  {
    kb := [];
    for n := 0 to |items|
      invariant |kb| == n
      invariant forall i :: 0 <= i < n ==> kb[i] == [RecipeButton(items[i])]
    {
      kb := kb + [[RecipeButton(items[n])]];
    }
    var nav: seq<Button> := [];
    if page > 0 {
      nav := nav + [PrevButton(page, filter)];
    }
    if |items| == perPage {
      nav := nav + [NextButton(page, filter)];
    }
    if |nav| > 0 {
      kb := kb + [nav];
    }
    kb := kb + [[HomeButton]];
    NavButtonsDiffer(items, page, filter);
    assert page > 0 ==> PrevButton(page, filter) in kb[|items|];
    assert |items| == perPage ==> NextButton(page, filter) in kb[|items|];
  }

  /** No recipe button, no home button, and not the other arrow equals a navigation button. */
  lemma NavButtonsDiffer(items: seq<Row>, page: int, filter: Option<int>)
    ensures forall i :: 0 <= i < |items| ==>
      RecipeButton(items[i]) != PrevButton(page, filter) && RecipeButton(items[i]) != NextButton(page, filter)
    ensures HomeButton != PrevButton(page, filter) && HomeButton != NextButton(page, filter)
    ensures PrevButton(page, filter) != NextButton(page, filter)
  {
    var p := NavToken("prev", page, filter);
    var q := NavToken("next", page, filter);
    assert p == "prev" + ['_'] + Text.Join([Text.IntToString(page), Text.IntToString(OrZero(filter))], '_');
    assert q == "next" + ['_'] + Text.Join([Text.IntToString(page), Text.IntToString(OrZero(filter))], '_');
    assert p[0] == 'p' && q[0] == 'n';
    forall i | 0 <= i < |items|
      ensures RecipeButton(items[i]).token[0] == 'r'
    {
    }
  }

  // ------------------------------------------------------------ navigation

  /** Where a navigation token leads: the page to show and the category filter. */
  datatype Nav = Nav(page: int, filter: Option<int>)

  /**
   * The `prev_`/`next_` branch of `handle_recipes_pagination`: split on `_`,
   * parse page and category (`"0"` meaning none), step the page. `None` where
   * Python raises (not three pieces, or a piece `int()` rejects).
   */
  function DecodeNav(data: string): (r: Option<Nav>)
    ensures |Text.Split(data, '_')| != 3 ==> r.None?
    ensures r.Some? ==> Text.ParseInt(Text.Split(data, '_')[1]).Some?
  {
    DecodeParts(Text.Split(data, '_'))
  }

  /** `action, page, category_id = parts` and the rest of the decoding. */
  function DecodeParts(parts: seq<string>): Option<Nav>
  {
    if |parts| != 3 then None
    else
      var page := Text.ParseInt(parts[1]);
      var filter := DecodeFilter(parts[2]);
      if page.None? || filter.None? then None
      else Some(Nav(Stepped(parts[0], page.value), filter.value))
  }

  /** `int(category_id) if category_id != "0" else None`; the outer `None` is a failed `int()`. */
  function DecodeFilter(piece: string): Option<Option<int>>
  {
    if piece == "0" then Some(None)
    else
      match Text.ParseInt(piece)
      case None => None
      case Some(v) => Some(Some(v))
  }

  /** `page - 1` for "prev", `page + 1` for "next", the page itself for any other action. */
  function Stepped(action: string, page: int): int
  {
    if action == "prev" then page - 1 else if action == "next" then page + 1 else page
  }

  /** The filter as it comes back from a token: a falsy one is read back as `None`. */
  function Normal(filter: Option<int>): Option<int>
  {
    if Truthy(filter) then filter else None
  }

  lemma NonZeroString(n: int)
    requires n != 0
    ensures Text.IntToString(n) != "0"
  {
    if n > 0 {
      assert Text.NatToString(n)[0] != '0' || n == 0;
    } else {
      assert Text.IntToString(n)[0] == '-';
    }
  }

  lemma DecodeNavToken(action: string, page: int, filter: Option<int>)
    requires action == "prev" || action == "next"
    ensures DecodeNav(NavToken(action, page, filter))
         == Some(Nav(if action == "prev" then page - 1 else page + 1, Normal(filter)))
  {
    var a := Text.IntToString(page);
    var b := Text.IntToString(OrZero(filter));
    Text.JoinThenSplit([action, a, b], '_');
    Text.IntToStringRoundTrip(page);
    if Truthy(filter) {
      NonZeroString(filter.value);
      Text.IntToStringRoundTrip(filter.value);
    }
    DecodeThree(action, a, b, page, filter);
  }

  lemma DecodeThree(action: string, a: string, b: string, page: int, filter: Option<int>)
    requires action == "prev" || action == "next"
    requires Text.ParseInt(a) == Some(page)
    requires Truthy(filter) ==> b != "0" && Text.ParseInt(b) == Some(filter.value)
    requires !Truthy(filter) ==> b == "0"
    ensures DecodeParts([action, a, b])
         == Some(Nav(if action == "prev" then page - 1 else page + 1, Normal(filter)))
  {
    var parts := [action, a, b];
    assert |parts| == 3 && parts[0] == action && parts[1] == a && parts[2] == b;
    assert DecodeFilter(b) == Some(Normal(filter));
    assert Stepped(action, page) == if action == "prev" then page - 1 else page + 1;
  }

  /**
   * Decoding a token the keyboard built gives the neighbouring page and the
   * same filter (a falsy filter as `None`).
   */
  lemma NavRoundTrip(page: int, filter: Option<int>)
    ensures DecodeNav(NavToken("prev", page, filter)) == Some(Nav(page - 1, Normal(filter)))
    ensures DecodeNav(NavToken("next", page, filter)) == Some(Nav(page + 1, Normal(filter)))
  {
    DecodeNavToken("prev", page, filter);
    DecodeNavToken("next", page, filter);
  }

  /**
   * Because "prev" is only offered on a page above 0, the page it leads to is
   * never negative.
   */
  lemma PrevStaysNonNegative(items: seq<Row>, kb: Keyboard, page: int, filter: Option<int>)
    requires Offers(kb, PrevButton(page, filter)) <==> page > 0
    requires Offers(kb, PrevButton(page, filter))
    ensures DecodeNav(PrevButton(page, filter).token).Some?
    ensures DecodeNav(PrevButton(page, filter).token).value.page >= 0
  {
    NavRoundTrip(page, filter);
  }

  // ----------------------------------------------------------------- pages

  /** A page never holds more than `per_page` rows, and holds the rows from `page * per_page` on. */
  lemma PageIsSlice(list: seq<Row>, page: nat, perPage: nat)
    ensures |PageOf(list, page, perPage)| <= perPage
    ensures forall i :: 0 <= i < |PageOf(list, page, perPage)| ==>
      PageOf(list, page, perPage)[i] == list[page * perPage + i]
    ensures page * perPage < |list| && perPage > 0 ==> |PageOf(list, page, perPage)| > 0
  {
    WindowIsSlice(list, page * perPage, perPage);
  }

  /** A page of an ordered listing is ordered, and every row on it is in the listing. */
  lemma PageOrdered(list: seq<Row>, page: nat, perPage: nat)
    requires Ordered(list)
    ensures Ordered(PageOf(list, page, perPage))
    ensures forall r :: r in PageOf(list, page, perPage) ==> r in list
  {
    WindowOrdered(list, page * perPage, perPage);
  }

  /**
   * "next" is offered on page `page` exactly when the page is full, that is when
   * `(page + 1) * per_page <= |list|`, including when nothing follows.
   */
  /** A full window followed by the rest is everything from the offset on; a short one is all of it. */
  lemma WindowCut(list: seq<Row>, lo: nat, n: nat)
    requires lo <= |list|
    ensures lo + n <= |list| ==> list[lo..] == Window(list, lo, n) + list[lo + n..]
    ensures lo + n > |list| ==> Window(list, lo, n) == list[lo..]
  {
    WindowIsSlice(list, lo, n);
    if lo + n <= |list| {
      assert Window(list, lo, n) == list[lo..lo + n];
      assert list[lo..] == list[lo..lo + n] + list[lo + n..];
    }
  }

  lemma NextOfferedIff(list: seq<Row>, page: nat, perPage: nat)
    ensures |PageOf(list, page, perPage)| == perPage <==> (page + 1) * perPage <= |list|
  {
    WindowIsSlice(list, page * perPage, perPage);
    assert (page + 1) * perPage == page * perPage + perPage;
  }

  /**
   * The exact-multiple boundary: when the list holds exactly `k` full pages, the
   * last full page still offers "next", and the page it leads to is empty and
   * offers no "next".
   */
  lemma ExactMultipleBoundary(list: seq<Row>, k: nat, perPage: nat)
    requires perPage > 0 && k >= 1 && |list| == k * perPage
    ensures |PageOf(list, k - 1, perPage)| == perPage
    ensures PageOf(list, k, perPage) == []
    ensures |PageOf(list, k, perPage)| != perPage
  {
    NextOfferedIff(list, k - 1, perPage);
    WindowIsSlice(list, k * perPage, perPage);
  }

  /**
   * Pages `0 .. |list| / per_page - 1` are full, and page `|list| / per_page`
   * is the first that offers no "next": it holds the remaining `|list| % per_page`
   * rows, none when the length is an exact multiple.
   */
  lemma LastPage(list: seq<Row>, perPage: nat)
    requires perPage > 0
    ensures forall p :: 0 <= p < |list| / perPage ==> |PageOf(list, p, perPage)| == perPage
    ensures |PageOf(list, |list| / perPage, perPage)| == |list| % perPage
  {
    var q := |list| / perPage;
    var r := |list| % perPage;
    var lo := q * perPage;
    assert lo + r == |list| && 0 <= r < perPage;
    forall p | 0 <= p < q ensures |PageOf(list, p, perPage)| == perPage {
      NextOfferedIff(list, p, perPage);
      MulMonotone(p + 1, q, perPage);
    }
    assert |PageOf(list, q, perPage)| == r by {
      WindowIsSlice(list, lo, perPage);
    }
  }

  lemma MulMonotone(a: nat, b: nat, c: nat)
    requires a <= b
    ensures a * c <= b * c
  {
  }

  /**
   * The rows a user sees by starting on page `page` and pressing "next" for as
   * long as it is offered.
   */
  function Walk(list: seq<Row>, page: nat, perPage: nat): seq<Row>
    requires perPage > 0
    decreases |list| - page * perPage
  {
    var items := PageOf(list, page, perPage);
    if |items| == perPage then
      NextOfferedIff(list, page, perPage);
      assert (page + 1) * perPage == page * perPage + perPage;
      items + Walk(list, page + 1, perPage)
    else
      items
  }

  /**
   * Following "next" from page 0 shows every row of the listing exactly once,
   * in order, and stops.
   */
  lemma {:induction false} WalkShowsAll(list: seq<Row>, page: nat, perPage: nat)
    requires perPage > 0 && page * perPage <= |list|
    ensures Walk(list, page, perPage) == list[page * perPage..]
    decreases |list| - page * perPage
  {
    var lo := page * perPage;
    var items := PageOf(list, page, perPage);
    assert (page + 1) * perPage == lo + perPage;
    NextOfferedIff(list, page, perPage);
    WindowCut(list, lo, perPage);
    if |items| == perPage {
      WalkShowsAll(list, page + 1, perPage);
    }
  }
}
