/**
 * The catalog store of database.py: one `items` table whose primary key is
 * `id`. Rows are kept in a sequence in insertion order; an INSERT appends a row,
 * an UPDATE rewrites a row in place. Nothing makes names unique.
 */
module Catalog {
  import opened Base
  import opened Text
  import opened Feed

  /** One row of `items`; `imageUrl` None stands for SQL NULL. */
  datatype Item = Item(id: int, name: string, tier: int, recipe: string, imageUrl: Option<string>)

  /** The primary-key constraint on `id`. */
  predicate IdsDistinct(rows: seq<Item>) {
    forall i, j | 0 <= i < j < |rows| :: rows[i].id != rows[j].id
  }

  predicate HasId(rows: seq<Item>, id: int) {
    exists i | 0 <= i < |rows| :: rows[i].id == id
  }

  /** `SELECT id FROM items WHERE id = ?`: the position of the row with that id. */
  function IndexOfId(rows: seq<Item>, id: int): (r: Option<nat>)
    ensures r.None? <==> !HasId(rows, id)
    ensures r.Some? ==> r.value < |rows| && rows[r.value].id == id
    ensures r.Some? ==> forall j | 0 <= j < r.value :: rows[j].id != id
    decreases |rows|
  {
    if rows == [] then None
    else
      match IndexOfId(rows[..|rows| - 1], id)
      case Some(k) => Some(k)
      case None => if rows[|rows| - 1].id == id then Some(|rows| - 1) else None
  }

  /**
   * The effect of `save_item`: UPDATE the row with that id, else INSERT a
   * new one. The saved row is in the result and at most one row is added.
   */
  function Upsert(rows: seq<Item>, x: Item): (r: seq<Item>)
    ensures x in r
    ensures |rows| <= |r| <= |rows| + 1
  {
    match IndexOfId(rows, x.id)
    case Some(k) =>
      assert rows[k := x][k] == x;
      rows[k := x]
    case None => rows + [x]
  }

  /**
   * After an upsert exactly one row has the id, and it holds the given
   * values; the primary key still holds.
   */
  lemma UpsertStoresRecord(rows: seq<Item>, x: Item)
    requires IdsDistinct(rows)
    ensures IdsDistinct(Upsert(rows, x))
    ensures forall i | 0 <= i < |Upsert(rows, x)| :: Upsert(rows, x)[i].id == x.id ==> Upsert(rows, x)[i] == x
  {
  }

  /** An upsert adds one row when the id was absent and none when it was present. */
  lemma UpsertSize(rows: seq<Item>, x: Item)
    ensures |Upsert(rows, x)| == if HasId(rows, x.id) then |rows| else |rows| + 1
  {
  }

  /** Rows with another id keep their position and values; no other row appears. */
  lemma UpsertKeepsOthers(rows: seq<Item>, x: Item)
    ensures forall i | 0 <= i < |rows| && rows[i].id != x.id :: Upsert(rows, x)[i] == rows[i]
    ensures forall y | y in rows && y.id != x.id :: y in Upsert(rows, x)
    ensures forall y | y in Upsert(rows, x) :: y == x || y in rows
  {
  }

  predicate NameMatches(x: Item, query: string) {
    Lower(x.name) == Lower(query)
  }

  /**
   * `WHERE LOWER(name) = LOWER(?)` with `fetchone()`: the first row in
   * table order whose lowered name equals the lowered query.
   */
  function FindByName(rows: seq<Item>, query: string): (r: Option<nat>)
    ensures r.None? <==> forall i | 0 <= i < |rows| :: !NameMatches(rows[i], query)
    ensures r.Some? ==> r.value < |rows| && NameMatches(rows[r.value], query)
    ensures r.Some? ==> forall j | 0 <= j < r.value :: !NameMatches(rows[j], query)
    decreases |rows|
  {
    if rows == [] then None
    else
      match FindByName(rows[..|rows| - 1], query)
      case Some(k) => Some(k)
      case None => if NameMatches(rows[|rows| - 1], query) then Some(|rows| - 1) else None
  }

  /** Queries that agree after lower-casing find the same row: "Dirt", "dirt" and "DIRT" alike. */
  lemma FindByNameIgnoresCase(rows: seq<Item>, a: string, b: string)
    requires Lower(a) == Lower(b)
    ensures FindByName(rows, a) == FindByName(rows, b)
  {
  }

  /**
   * Names are not unique: two rows with distinct ids may share a lowered
   * name, the primary key still holds, and a lookup returns the first.
   */
  lemma SharedNamesAreAllowed()
    ensures var rows := Upsert(Upsert([], Item(1, "Dirt", 1, "", None)), Item(2, "DIRT", 2, "", None));
      && |rows| == 2 && IdsDistinct(rows)
      && Lower(rows[0].name) == Lower(rows[1].name)
      && FindByName(rows, "dirt") == Some(0)
  {
    var rows := Upsert(Upsert([], Item(1, "Dirt", 1, "", None)), Item(2, "DIRT", 2, "", None));
    assert rows == [Item(1, "Dirt", 1, "", None), Item(2, "DIRT", 2, "", None)];
    assert Lower("Dirt") == "dirt" && Lower("DIRT") == "dirt";
    assert NameMatches(rows[0], "dirt");
  }

  /** The value `get_recipe` returns: the first matching row's recipe, or None. */
  function RecipeOf(rows: seq<Item>, query: string): (r: Option<string>)
    ensures r.Some? <==> FindByName(rows, query).Some?
    ensures r.Some? ==> r.value == rows[FindByName(rows, query).value].recipe
  {
    match FindByName(rows, query)
    case Some(i) => Some(rows[i].recipe)
    case None => None
  }

  /** `SELECT id, name FROM items` in table order. */
  function Pairs(rows: seq<Item>): (r: seq<(int, string)>)
    ensures |r| == |rows|
    ensures forall i | 0 <= i < |rows| :: r[i] == (rows[i].id, rows[i].name)
  {
    seq(|rows|, i requires 0 <= i < |rows| => (rows[i].id, rows[i].name))
  }

  /** The WHERE clause of `search_items`. */
  predicate LikeKeyword(name: string, keyword: string) {
    Like(Lower(name), Lower("%" + keyword + "%"))
  }

  /** The rows `search_items` keeps: those whose name is LIKE the keyword pattern, in table order. */
  function MatchingPairs(items: seq<(int, string)>, keyword: string): (r: seq<(int, string)>)
    ensures forall p :: p in r <==> p in items && LikeKeyword(p.1, keyword)
    ensures IsSubseq(r, items)
    ensures forall p :: multiset(r)[p] == if LikeKeyword(p.1, keyword) then multiset(items)[p] else 0
    decreases |items|
  {
    if items == [] then []
    else
      assert items == [items[0]] + items[1..];
      assert multiset(items) == multiset{items[0]} + multiset(items[1..]);
      var rest := MatchingPairs(items[1..], keyword);
      if LikeKeyword(items[0].1, keyword) then
        assert ([items[0]] + rest)[1..] == rest;
        assert multiset([items[0]] + rest) == multiset{items[0]} + multiset(rest);
        [items[0]] + rest
      else rest
  }

  /**
   * For a keyword without `%` or `_`, `search_items` returns exactly the
   * (id, name) pairs whose lowered name contains the lowered keyword.
   */
  lemma SearchIsSubstringSearch(items: seq<(int, string)>, keyword: string)
    requires NoWildcards(keyword)
    ensures forall p :: p in MatchingPairs(items, keyword) <==> p in items && Contains(Lower(p.1), Lower(keyword))
  {
    forall p: (int, string) {
      SqlLikeIsCaseInsensitiveSubstring(p.1, keyword);
    }
  }

  /** The row `load_all_items` in database.py inserts for a descriptor. */
  function Loaded(d: Descriptor): Item
    requires HasKeys(d)
  {
    Item(d.id.value, d.name.value, d.tier.GetOr(0), d.recipe.GetOr(""), Some(d.imageUrl.GetOr("")))
  }

  /**
   * The table `load_all_items` commits: one row per descriptor, in order,
   * or None when a KeyError or a duplicate primary key aborts the transaction.
   */
  function Snapshot(ds: seq<Descriptor>): (r: Option<seq<Item>>)
    ensures r.Some? <==> (forall i | 0 <= i < |ds| :: HasKeys(ds[i])) && KeyedIdsDistinct(ds)
    ensures r.Some? ==> |r.value| == |ds| && IdsDistinct(r.value)
    ensures r.Some? ==> forall i | 0 <= i < |ds| :: HasKeys(ds[i]) && r.value[i] == Loaded(ds[i])
    decreases |ds|
  {
    if ds == [] then Some([])
    else
      var d := ds[|ds| - 1];
      match Snapshot(ds[..|ds| - 1])
      case None => None
      case Some(t) =>
        if !HasKeys(d) || HasId(t, d.id.value) then None else Some(t + [Loaded(d)])
  }

  /** The `items` table behind one connection to `items.db`. */
  class Store {
    var rows: seq<Item>

    ghost predicate Valid()
      reads this
    {
      IdsDistinct(rows)
    }

    /** `init_db` on a fresh database: the table exists and is empty. */
    constructor ()
      ensures Valid() && rows == []
    {
      rows := [];
    }

    /** `save_item`: upsert by id. An omitted `imageUrl` is None, which clears a stored URL. */
    method SaveItem(id: int, name: string, tier: int, recipe: string, imageUrl: Option<string> := None)
      requires Valid()
      modifies this
      ensures Valid()
      ensures rows == Upsert(old(rows), Item(id, name, tier, recipe, imageUrl))
    {
      var row := Item(id, name, tier, recipe, imageUrl);
      UpsertStoresRecord(rows, row);
      var existing := IndexOfId(rows, id);
      if existing.Some? {
        rows := rows[existing.value := row];
      } else {
        rows := rows + [row];
      }
    }

    /** `get_recipe`: the recipe of the first row whose name matches ignoring case. */
    method GetRecipe(itemName: string) returns (r: Option<string>)
      ensures r.None? <==> forall i | 0 <= i < |rows| :: Lower(rows[i].name) != Lower(itemName)
      ensures r.Some? ==> exists i | 0 <= i < |rows| :: NameMatches(rows[i], itemName) && r.value == rows[i].recipe
      ensures r == RecipeOf(rows, itemName)
    {
      r := RecipeOf(rows, itemName);
    }

    /** `get_item_details`: the whole first row whose name matches ignoring case. */
    method GetItemDetails(itemName: string) returns (r: Option<Item>)
      ensures r.None? <==> forall i | 0 <= i < |rows| :: Lower(rows[i].name) != Lower(itemName)
      ensures r.Some? ==> exists i | 0 <= i < |rows| ::
                            && r.value == rows[i] && NameMatches(rows[i], itemName)
                            && forall j | 0 <= j < i :: !NameMatches(rows[j], itemName)
    {
      var k := FindByName(rows, itemName);
      r := if k.Some? then Some(rows[k.value]) else None;
    }

    /**
     * `get_item_image_url`: the first matching row's URL. A missing item and
     * a NULL URL both give None.
     */
    method GetItemImageUrl(itemName: string) returns (r: Option<string>)
      ensures FindByName(rows, itemName).None? ==> r.None?
      ensures FindByName(rows, itemName).Some? ==> r == rows[FindByName(rows, itemName).value].imageUrl
    {
      var k := FindByName(rows, itemName);
      r := if k.Some? then rows[k.value].imageUrl else None;
    }

    /** `get_all_items`: every (id, name) pair in table order. */
    method GetAllItems() returns (r: seq<(int, string)>)
      ensures |r| == |rows|
      ensures forall i | 0 <= i < |rows| :: r[i] == (rows[i].id, rows[i].name)
    {
      r := Pairs(rows);
    }

    /** `search_items`: the (id, name) pairs whose lowered name is LIKE `%keyword%`, in table order. */
    method SearchItems(keyword: string) returns (r: seq<(int, string)>)
      ensures forall p :: p in r <==> p in Pairs(rows) && LikeKeyword(p.1, keyword)
      ensures IsSubseq(r, Pairs(rows))
    {
      r := MatchingPairs(Pairs(rows), keyword);
    }

    /**
     * `load_all_items` of database.py: in one transaction, DELETE every row
     * and INSERT one per descriptor (tier 0, recipe '' and image_url '' by
     * default). A missing key or a repeated id raises before the commit, so
     * the table is left as it was. Returns the count it reports, or None.
     */
    method LoadAllItems(feed: Option<seq<Descriptor>>) returns (loaded: Option<nat>)
      requires Valid()
      modifies this
      ensures Valid()
      ensures feed.Some? && Snapshot(feed.value).Some? ==>
        rows == Snapshot(feed.value).value && loaded == Some(|feed.value|)
      ensures feed.None? || Snapshot(feed.value).None? ==> rows == old(rows) && loaded.None?
    {
      if feed.None? {
        return None;
      }
      var items := feed.value;
      var pending: seq<Item> := [];
      var i := 0;
      while i < |items|
        invariant 0 <= i <= |items|
        invariant Snapshot(items[..i]) == Some(pending)
      {
        var item := items[i];
        assert items[..i + 1] == items[..i] + [item];
        if item.id.None? || item.name.None? {
          assert !HasKeys(items[..i + 1][i]);
          return None;
        }
        if exists k | 0 <= k < |pending| :: pending[k].id == item.id.value {
          assert Snapshot(items[..i + 1]).None?;
          assert !KeyedIdsDistinct(items[..i + 1]);
          return None;
        }
        pending := pending + [Loaded(item)];
        i := i + 1;
      }
      assert items[..i] == items;
      rows := pending;
      loaded := Some(|items|);
    }
  }
}
