/**
 * The `users` and `categories` tables both bots keep: user registration by
 * `INSERT OR IGNORE`, category find-or-create by `INSERT OR IGNORE` then
 * `SELECT`, and the seeding of the six basic categories.
 */
module Catalog {
  import opened Common
  import Text
  import opened Listing

  /** A `users` row: `username` may be absent on the chat platform. */
  datatype User = User(username: Option<string>, fullName: string)

  /** A `categories` row. */
  datatype Category = Category(id: int, name: string)

  /**
   * The `categories` table in id order, and the AUTOINCREMENT counter: the id the
   * next inserted row receives.
   */
  datatype CategoryTable = CategoryTable(rows: seq<Category>, next: int)

  const EmptyCategories := CategoryTable([], 1)

  /**
   * What the schema guarantees: ids come from the counter, ascend from 1, and
   * `name` is UNIQUE.
   */
  predicate WellFormed(t: CategoryTable) {
    && t.next >= 1
    && (forall i :: 0 <= i < |t.rows| ==> 1 <= t.rows[i].id < t.next)
    && (forall i, j :: 0 <= i < j < |t.rows| ==> t.rows[i].id < t.rows[j].id)
    && (forall i, j :: 0 <= i < j < |t.rows| ==> t.rows[i].name != t.rows[j].name)
  }

  predicate HasName(rows: seq<Category>, name: string) {
    exists i :: 0 <= i < |rows| && rows[i].name == name
  }

  /** `SELECT id FROM categories WHERE name = ?`. */
  function IdByName(rows: seq<Category>, name: string): (r: Option<int>)
    ensures r.Some? <==> HasName(rows, name)
    ensures r.Some? ==> Category(r.value, name) in rows
  {
    if |rows| == 0 then None
    else if rows[0].name == name then Some(rows[0].id)
    else
      var r := IdByName(rows[1..], name);
      assert HasName(rows, name) ==> HasName(rows[1..], name) by {
        if HasName(rows, name) {
          var i :| 0 <= i < |rows| && rows[i].name == name;
          assert rows[1..][i - 1].name == name;
        }
      }
      assert r.Some? ==> HasName(rows, name) by {
        if r.Some? {
          var i :| 0 <= i < |rows| - 1 && rows[1..][i].name == name;
          assert rows[i + 1].name == name;
        }
      }
      r
  }

  /** `SELECT name FROM categories WHERE id = ?`. */
  function NameById(rows: seq<Category>, id: int): (r: Option<string>)
    ensures r.Some? <==> exists i :: 0 <= i < |rows| && rows[i].id == id
    ensures r.Some? ==> Category(id, r.value) in rows
  {
    if |rows| == 0 then None
    else if rows[0].id == id then Some(rows[0].name)
    else
      var r := NameById(rows[1..], id);
      assert (exists i :: 0 <= i < |rows| && rows[i].id == id) ==> r.Some? by {
        if exists i :: 0 <= i < |rows| && rows[i].id == id {
          var i :| 0 <= i < |rows| && rows[i].id == id;
          assert rows[1..][i - 1].id == id;
        }
      }
      r
  }

  /** A plain `INSERT INTO categories (name)`: a new row with the next id. */
  function Append(t: CategoryTable, name: string): CategoryTable
  {
    CategoryTable(t.rows + [Category(t.next, name)], t.next + 1)
  }

  /** `INSERT OR IGNORE INTO categories (name) VALUES (?)`: the UNIQUE name makes a duplicate a no-op. */
  function InsertOrIgnore(t: CategoryTable, name: string): CategoryTable
  {
    if HasName(t.rows, name) then t else Append(t, name)
  }

  /**
   * The insert then `SELECT id ... WHERE name = ?` that both bots run for a typed
   * category name: the table afterwards and the id the select returns.
   */
  function FindOrCreate(t: CategoryTable, name: string): (r: (CategoryTable, int))
    ensures Category(r.1, name) in r.0.rows
    ensures |t.rows| <= |r.0.rows| <= |t.rows| + 1 && r.0.rows[..|t.rows|] == t.rows
  {
    var t' := InsertOrIgnore(t, name);
    assert t'.rows[|t'.rows| - 1].name == name ==> HasName(t'.rows, name);
    (t', IdByName(t'.rows, name).value)
  }

  lemma IdByNameUnique(rows: seq<Category>, name: string, id: int)
    requires forall i, j :: 0 <= i < j < |rows| ==> rows[i].name != rows[j].name
    requires Category(id, name) in rows
    ensures IdByName(rows, name) == Some(id)
    decreases |rows|
  {
    if rows[0].name != name {
      assert Category(id, name) in rows[1..];
      IdByNameUnique(rows[1..], name, id);
    }
  }

  /** In a table with ascending ids, looking a row up by its id finds its name. */
  lemma NameByIdUnique(rows: seq<Category>, c: Category)
    requires forall i, j :: 0 <= i < j < |rows| ==> rows[i].id < rows[j].id
    requires c in rows
    ensures NameById(rows, c.id) == Some(c.name)
    decreases |rows|
  {
    if rows[0] != c {
      assert c in rows[1..];
      NameByIdUnique(rows[1..], c);
    }
  }

  /**
   * Find-or-create keeps the table well formed, returns the id of the row named
   * `name`, and adds a row exactly when none had that name; the new row gets a
   * fresh id above every existing one, and earlier rows are untouched.
   */
  lemma FindOrCreateSpec(t: CategoryTable, name: string)
    requires WellFormed(t)
    ensures var (t', id) := FindOrCreate(t, name);
      && WellFormed(t')
      && Category(id, name) in t'.rows
      && (HasName(t.rows, name) ==> t' == t)
      && (!HasName(t.rows, name) ==>
            t'.rows == t.rows + [Category(t.next, name)] && t'.next == t.next + 1 && id == t.next)
  {
    var (t', id) := FindOrCreate(t, name);
    if !HasName(t.rows, name) {
      assert forall i :: 0 <= i < |t.rows| ==> t'.rows[i] == t.rows[i];
      IdByNameUnique(t'.rows, name, t.next);
    }
  }

  /**
   * Find-or-create is idempotent: a second call with the same name returns the
   * same id and leaves the table as the first call left it.
   */
  lemma FindOrCreateTwice(t: CategoryTable, name: string)
    requires WellFormed(t)
    ensures var (t1, id1) := FindOrCreate(t, name);
      FindOrCreate(t1, name) == (t1, id1) && |t1.rows| <= |t.rows| + 1
  {
    FindOrCreateSpec(t, name);
    var (t1, id1) := FindOrCreate(t, name);
    FindOrCreateSpec(t1, name);
  }

  /** `executemany("INSERT INTO categories (name) VALUES (?)", names)`. */
  function InsertAll(t: CategoryTable, names: seq<string>): CategoryTable
    decreases |names|
  {
    if |names| == 0 then t else Append(InsertAll(t, names[..|names| - 1]), names[|names| - 1])
  }

  /** The six basic categories, in insertion order. */
  const SeedNames: seq<string> := ["Завтраки", "Обеды", "Ужины", "Десерты", "Выпечка", "Напитки"]

  /** `init_db`: the basic categories are inserted only when the table is empty. */
  function Seed(t: CategoryTable): (r: CategoryTable)
    ensures |t.rows| > 0 ==> r == t
    ensures |t.rows| == 0 ==>
      && |r.rows| == |SeedNames| && r.next == t.next + |SeedNames|
      && forall k :: 0 <= k < |SeedNames| ==> r.rows[k] == Category(t.next + k, SeedNames[k])
  {
    InsertAllRows(t, SeedNames);
    if |t.rows| == 0 then InsertAll(t, SeedNames) else t
  }

  lemma {:induction false} InsertAllRows(t: CategoryTable, names: seq<string>)
    ensures var r := InsertAll(t, names);
      && r.next == t.next + |names|
      && |r.rows| == |t.rows| + |names|
      && r.rows[..|t.rows|] == t.rows
      && forall k :: 0 <= k < |names| ==> r.rows[|t.rows| + k] == Category(t.next + k, names[k])
    decreases |names|
  {
    if |names| > 0 {
      InsertAllRows(t, names[..|names| - 1]);
    }
  }

  /**
   * Seeding an empty table creates exactly the six basic categories, with
   * consecutive ids, and keeps the table well formed; a table that has rows is
   * left alone, so running `init_db` again (every restart) changes nothing.
   */
  lemma SeedSpec(t: CategoryTable)
    requires WellFormed(t)
    ensures var s := Seed(t);
      && WellFormed(s)
      && (|t.rows| == 0 ==> |s.rows| == 6 && forall k :: 0 <= k < 6 ==> s.rows[k] == Category(t.next + k, SeedNames[k]))
      && (|t.rows| > 0 ==> s == t)
      && Seed(s) == s
  {
    if |t.rows| == 0 {
      var s := Seed(t);
      assert |s.rows| == 6 && s.next == t.next + 6;
      assert forall i, j :: 0 <= i < j < |s.rows| ==> s.rows[i].name != s.rows[j].name by {
        SeedNamesDistinct();
      }
    }
  }

  /** The six basic category names differ pairwise (already in their first letter). */
  lemma SeedNamesDistinct()
    ensures forall i, j :: 0 <= i < j < |SeedNames| ==> SeedNames[i] != SeedNames[j]
  {
    assert SeedNames[0][0] == 'З' && SeedNames[1][0] == 'О' && SeedNames[2][0] == 'У';
    assert SeedNames[3][0] == 'Д' && SeedNames[4][0] == 'В' && SeedNames[5][0] == 'Н';
    forall i, j | 0 <= i < j < |SeedNames| ensures SeedNames[i] != SeedNames[j] {
      assert SeedNames[i][0] != SeedNames[j][0];
    }
  }

  /** `INSERT OR IGNORE INTO users (user_id, username, full_name)`. */
  function Register(users: map<int, User>, id: int, username: Option<string>, fullName: string): (r: map<int, User>)
    ensures r.Keys == users.Keys + {id}
    ensures forall u :: u in users ==> r[u] == users[u]
    ensures id !in users ==> r[id] == User(username, fullName)
  {
    if id in users then users else users[id := User(username, fullName)]
  }

  /**
   * The first contact stores the user; later contacts keep the stored username
   * and full name even when they changed, and no other user's row is touched.
   */
  lemma RegisterKeepsFirst(users: map<int, User>, id: int, a: Option<string>, b: string, c: Option<string>, d: string)
    ensures var r := Register(users, id, a, b);
      && r.Keys == users.Keys + {id}
      && r[id] == (if id in users then users[id] else User(a, b))
      && (forall other :: other in users && other != id ==> r[other] == users[other])
      && Register(r, id, c, d) == r
  {
  }

  /** `SELECT id, name FROM categories ORDER BY name`. */
  function CategoryRows(t: CategoryTable): seq<Row>
  {
    Sort(seq(|t.rows|, i requires 0 <= i < |t.rows| => Row(t.rows[i].id, t.rows[i].name)))
  }

  /**
   * The category listing holds every category once, in strictly increasing name
   * order: names are unique, so the order needs no tie-break.
   */
  lemma CategoryRowsSpec(t: CategoryTable)
    requires WellFormed(t)
    ensures var rows := CategoryRows(t);
      && |rows| == |t.rows|
      && (forall r :: r in rows <==> Category(r.id, r.text) in t.rows)
      && (forall i, j :: 0 <= i < j < |rows| ==> Text.Less(rows[i].text, rows[j].text))
  {
    var raw := seq(|t.rows|, i requires 0 <= i < |t.rows| => Row(t.rows[i].id, t.rows[i].name));
    assert Distinct(raw) by {
      forall i, j | 0 <= i < j < |raw| ensures raw[i] != raw[j] {
        assert raw[i].id < raw[j].id;
      }
    }
    SortOrdered(raw);
    var rows := CategoryRows(t);
    assert |rows| == |multiset(rows)| == |multiset(raw)| == |raw|;
    forall r ensures r in rows <==> Category(r.id, r.text) in t.rows {
      assert r in rows <==> r in multiset(raw);
      if Category(r.id, r.text) in t.rows {
        var i :| 0 <= i < |t.rows| && t.rows[i] == Category(r.id, r.text);
        assert raw[i] == r;
      }
    }
    forall i, j | 0 <= i < j < |rows| ensures Text.Less(rows[i].text, rows[j].text) {
      assert Before(rows[i], rows[j]);
      assert rows[i] in rows && rows[j] in rows;
      var a :| 0 <= a < |t.rows| && t.rows[a] == Category(rows[i].id, rows[i].text);
      var b :| 0 <= b < |t.rows| && t.rows[b] == Category(rows[j].id, rows[j].text);
      if rows[i].text == rows[j].text {
        assert a == b;
        BeforeIrreflexive(rows[i]);
      }
    }
  }

  /**
   * The category a `<word>_<id>` press names: `int(data.split("_")[1])`, then
   * `SELECT name FROM categories WHERE id = ?`. `None` where the handler raises:
   * no id in the token, or no category with that id.
   */
  function PickedCategory(t: CategoryTable, data: string): (r: Option<Category>)
    ensures r.Some? ==> r.value in t.rows
  {
    match Text.TokenId(data)
    case None => None
    case Some(id) =>
      match NameById(t.rows, id)
      case None => None
      case Some(name) => Some(Category(id, name))
  }

  /** A `<word>_<id>` token of a stored category picks that category. */
  lemma PickedToken(t: CategoryTable, word: string, c: Category)
    requires WellFormed(t) && c in t.rows && '_' !in word
    ensures PickedCategory(t, word + "_" + Text.IntToString(c.id)) == Some(c)
  {
    Text.TokenIdRoundTrip(word, c.id);
    NameByIdUnique(t.rows, c);
  }

}
