/**
 * The recipe and category listings: `SELECT id, title ... ORDER BY title` and
 * `LIMIT ? OFFSET ?`. SQL leaves the order of equal titles open; this model
 * breaks ties by id ascending, so every listing is one definite sequence.
 */
module Listing {
  import opened Common
  import Text

  /** One result row of `SELECT id, title` (or `SELECT id, name`). */
  datatype Row = Row(id: int, text: string)

  /** The part of a recipe row a listing query looks at. */
  datatype Entry = Entry(title: string, categoryId: int)

  /** `ORDER BY text`, ties broken by id. */
  predicate Before(a: Row, b: Row) {
    Text.Less(a.text, b.text) || (a.text == b.text && a.id < b.id)
  }

  lemma BeforeIrreflexive(a: Row)
    ensures !Before(a, a)
  {
    Text.LessIrreflexive(a.text);
  }

  lemma BeforeTransitive(a: Row, b: Row, c: Row)
    requires Before(a, b) && Before(b, c)
    ensures Before(a, c)
  {
    if Text.Less(a.text, b.text) && Text.Less(b.text, c.text) {
      Text.LessTransitive(a.text, b.text, c.text);
    }
  }

  lemma BeforeTotal(a: Row, b: Row)
    requires a != b
    ensures Before(a, b) || Before(b, a)
  {
    if a.text != b.text {
      Text.LessTotal(a.text, b.text);
    }
  }

  /** Strictly increasing in the listing order. */
  predicate Ordered(s: seq<Row>) {
    forall i, j :: 0 <= i < j < |s| ==> Before(s[i], s[j])
  }

  predicate Distinct(s: seq<Row>) {
    forall i, j :: 0 <= i < j < |s| ==> s[i] != s[j]
  }

  function Insert(x: Row, s: seq<Row>): (r: seq<Row>)
    ensures multiset(r) == multiset(s) + multiset{x}
    decreases |s|
  {
    if |s| == 0 || Before(x, s[0]) then [x] + s
    else
      assert s == [s[0]] + s[1..];
      [s[0]] + Insert(x, s[1..])
  }

  lemma {:induction false} InsertOrdered(x: Row, s: seq<Row>)
    requires Ordered(s) && x !in s
    ensures Ordered(Insert(x, s))
    decreases |s|
  {
    if |s| > 0 {
      if Before(x, s[0]) {
        forall j | 1 <= j < |s| ensures Before(x, s[j]) {
          BeforeTransitive(x, s[0], s[j]);
        }
      } else {
        BeforeTotal(x, s[0]);
        InsertOrdered(x, s[1..]);
        var r := Insert(x, s[1..]);
        forall j | 0 <= j < |r| ensures Before(s[0], r[j]) {
          assert r[j] in multiset(r);
          assert r[j] in s[1..] || r[j] == x;
        }
      }
    }
  }

  /** Insertion sort into the listing order; it keeps every row exactly once. */
  function Sort(s: seq<Row>): (r: seq<Row>)
    ensures multiset(r) == multiset(s)
    decreases |s|
  {
    if |s| == 0 then []
    else
      assert s == [s[0]] + s[1..];
      Insert(s[0], Sort(s[1..]))
  }

  /** Sorting rows that are all different yields them in the listing order. */
  lemma {:induction false} SortOrdered(s: seq<Row>)
    requires Distinct(s)
    ensures Ordered(Sort(s))
    decreases |s|
  {
    if |s| > 0 {
      SortOrdered(s[1..]);
      assert s[0] !in s[1..];
      assert s[0] !in multiset(Sort(s[1..]));
      InsertOrdered(s[0], Sort(s[1..]));
    }
  }

  lemma SameHead(a: seq<Row>, b: seq<Row>)
    requires Ordered(a) && Ordered(b) && multiset(a) == multiset(b) && |a| > 0 && |b| > 0
    ensures a[0] == b[0]
  {
    if a[0] != b[0] {
      assert a[0] in multiset(b) && b[0] in multiset(a);
      var i :| 0 <= i < |b| && b[i] == a[0];
      var j :| 0 <= j < |a| && a[j] == b[0];
      BeforeTransitive(a[0], b[0], a[0]);
      BeforeIrreflexive(a[0]);
    }
  }

  /**
   * `ORDER BY` determines its result: two ordered sequences holding the same rows
   * are equal, so the listing does not depend on how it was sorted.
   */
  lemma {:induction false} OrderedUnique(a: seq<Row>, b: seq<Row>)
    requires Ordered(a) && Ordered(b) && multiset(a) == multiset(b)
    ensures a == b
    decreases |a|
  {
    assert |a| == |multiset(a)| && |b| == |multiset(b)|;
    if |a| > 0 {
      SameHead(a, b);
      assert a == [a[0]] + a[1..] && b == [b[0]] + b[1..];
      calc {
        multiset(a[1..]);
        multiset(a) - multiset{a[0]};
        multiset(b) - multiset{b[0]};
        multiset(b[1..]);
      }
      OrderedUnique(a[1..], b[1..]);
    }
  }

  /** `WHERE category_id = ?`, applied only when the filter is truthy. */
  predicate Selected(e: Entry, filter: Option<int>) {
    !Truthy(filter) || e.categoryId == filter.value
  }

  /**
   * A table scan over ids `0 .. n-1`: the selected rows, in id order, each with
   * its title.
   */
  function Scan(entries: map<int, Entry>, filter: Option<int>, n: nat): (rows: seq<Row>)
    ensures forall r :: r in rows <==>
      0 <= r.id < n && r.id in entries && Selected(entries[r.id], filter) && r.text == entries[r.id].title
    ensures forall i, j :: 0 <= i < j < |rows| ==> rows[i].id < rows[j].id
    decreases n
  {
    if n == 0 then []
    else
      var id := n - 1;
      Scan(entries, filter, id)
        + (if id in entries && Selected(entries[id], filter) then [Row(id, entries[id].title)] else [])
  }

  /**
   * `SELECT id, title FROM recipes [WHERE category_id = ?] ORDER BY title` over a
   * table whose ids lie below `n`.
   */
  function Query(entries: map<int, Entry>, filter: Option<int>, n: nat): seq<Row>
  {
    Sort(Scan(entries, filter, n))
  }

  /**
   * The query result is ordered and holds exactly the selected recipes, each once;
   * by OrderedUnique it is the only sequence that does.
   */
  lemma QueryExact(entries: map<int, Entry>, filter: Option<int>, n: nat)
    ensures Ordered(Query(entries, filter, n))
    ensures forall r :: r in Query(entries, filter, n) <==>
      0 <= r.id < n && r.id in entries && Selected(entries[r.id], filter) && r.text == entries[r.id].title
  {
    var rows := Scan(entries, filter, n);
    SortOrdered(rows);
    forall r ensures r in Query(entries, filter, n) <==> r in rows {
      assert r in multiset(Query(entries, filter, n)) <==> r in multiset(rows);
    }
  }

  /**
   * `LIMIT limit OFFSET offset`: the rows from position `offset` on, at most
   * `limit` of them; SQLite reads a negative offset as zero.
   */
  function Window<T>(s: seq<T>, offset: int, limit: nat): (w: seq<T>)
    ensures |w| <= limit
    ensures var lo := if offset < 0 then 0 else if offset > |s| then |s| else offset;
      w <= s[lo..] && (|w| == limit || w == s[lo..])
  {
    var lo := if offset < 0 then 0 else if offset > |s| then |s| else offset;
    var hi := if lo + limit > |s| then |s| else lo + limit;
    s[lo..hi]
  }

  /** Without an offset the window is the first `limit` rows. */
  lemma WindowFromStart<T>(s: seq<T>, limit: nat)
    ensures Window(s, 0, limit) == s[..if |s| < limit then |s| else limit]
  {
  }

  /** The window is the slice of `s` that starts at the offset, never longer than the limit. */
  lemma WindowIsSlice<T>(s: seq<T>, offset: nat, limit: nat)
    ensures var w := Window(s, offset, limit);
      && |w| <= limit
      && |w| == (if offset >= |s| then 0 else if |s| - offset < limit then |s| - offset else limit)
      && forall i :: 0 <= i < |w| ==> w[i] == s[offset + i]
  {
  }

  /** A window of an ordered listing is ordered, and every row in it is in the listing. */
  lemma WindowOrdered(s: seq<Row>, offset: nat, limit: nat)
    requires Ordered(s)
    ensures Ordered(Window(s, offset, limit))
    ensures forall r :: r in Window(s, offset, limit) ==> r in s
  {
    var w := Window(s, offset, limit);
    WindowIsSlice(s, offset, limit);
    forall r | r in w ensures r in s {
      var i :| 0 <= i < |w| && w[i] == r;
      assert r == s[offset + i];
    }
    forall i, j | 0 <= i < j < |w| ensures Before(w[i], w[j]) {
      assert w[i] == s[offset + i] && w[j] == s[offset + j];
    }
  }

  /**
   * The ids AUTOINCREMENT has handed out are `1 .. next - 1`; no handler deletes
   * a row, so every one of them is still there.
   */
  predicate Dense<V>(rows: map<int, V>, next: nat) {
    && next >= 1
    && (forall id :: id in rows ==> 1 <= id < next)
    && (forall id :: 1 <= id < next ==> id in rows)
  }
}
