/**
 * update_database.py: the image-URL backfill. It maps each lowered feed
 * name to its `image_url`, then walks the rows stored before the walk and
 * re-saves every row whose lowered name maps to a truthy URL, using the
 * fields of the first feed entry with that name.
 */
module UpdateDatabase {
  import opened Base
  import opened Text
  import opened Feed
  import opened Catalog
  import ItemsParser

  /** How the backfill ends: the feed could not be read, a KeyError escaped, or it finished. */
  datatype Outcome = FeedUnreadable | KeyMissing | Updated(count: nat)

  /** Every feed entry has a `name`, so building the mapping raises no KeyError. */
  predicate AllNamed(ds: seq<Descriptor>) {
    forall i | 0 <= i < |ds| :: ds[i].name.Some?
  }

  /** Python truthiness of an optional string: present and non-empty. */
  predicate Truthy(url: Option<string>) {
    url.Some? && url.value != ""
  }

  function Key(d: Descriptor): string
    requires d.name.Some?
  {
    Lower(d.name.value)
  }

  /** No later feed entry has the same lowered name as entry `i`. */
  predicate IsLastNamed(ds: seq<Descriptor>, i: int)
    requires AllNamed(ds) && 0 <= i < |ds|
  {
    forall j | i < j < |ds| :: Key(ds[j]) != Key(ds[i])
  }

  /**
   * `{item['name'].lower(): item.get('image_url') for item in items_data}`:
   * one key per lowered feed name; later entries overwrite earlier ones, so
   * the URL kept is that of the last entry with the name.
   */
  function ImageMapping(ds: seq<Descriptor>): (m: map<string, Option<string>>)
    requires AllNamed(ds)
    ensures forall k :: k in m <==> exists i | 0 <= i < |ds| :: Key(ds[i]) == k
    decreases |ds|
  {
    if ds == [] then map[]
    else
      var pre, d := ds[..|ds| - 1], ds[|ds| - 1];
      assert forall i | 0 <= i < |pre| :: pre[i] == ds[i];
      ImageMapping(pre)[Key(d) := d.imageUrl]
  }

  /** The URL mapped for a name is that of the last feed entry with the name. */
  lemma {:induction false} MappingKeepsLastUrl(ds: seq<Descriptor>, i: nat)
    requires AllNamed(ds) && i < |ds| && IsLastNamed(ds, i)
    ensures Key(ds[i]) in ImageMapping(ds) && ImageMapping(ds)[Key(ds[i])] == ds[i].imageUrl
    decreases |ds|
  {
    var pre, d := ds[..|ds| - 1], ds[|ds| - 1];
    if i < |ds| - 1 {
      assert Key(ds[i]) != Key(d);
      assert forall j | 0 <= j < |pre| :: pre[j] == ds[j];
      assert IsLastNamed(pre, i);
      MappingKeepsLastUrl(pre, i);
    }
  }

  /** `image_mapping.get(key)`. */
  function MappedUrl(m: map<string, Option<string>>, key: string): Option<string> {
    if key in m then m[key] else None
  }

  /** The inner search with `break`: the first feed entry whose lowered name is `key`. */
  function FirstNamed(ds: seq<Descriptor>, key: string): (r: Option<nat>)
    requires AllNamed(ds)
    ensures r.None? <==> forall i | 0 <= i < |ds| :: Key(ds[i]) != key
    ensures r.Some? ==> r.value < |ds| && Key(ds[r.value]) == key
    ensures r.Some? ==> forall j | 0 <= j < r.value :: Key(ds[j]) != key
    decreases |ds|
  {
    if ds == [] then None
    else
      var pre := ds[..|ds| - 1];
      assert forall i | 0 <= i < |pre| :: pre[i] == ds[i];
      match FirstNamed(pre, key)
      case Some(k) => Some(k)
      case None => if Key(ds[|ds| - 1]) == key then Some(|ds| - 1) else None
  }

  /** The row re-saved from feed entry `d` with the mapped URL (tier 0 and the no-recipe text by default). */
  function Resaved(d: Descriptor, url: Option<string>): Item
    requires HasKeys(d)
  {
    Item(d.id.value, d.name.value, d.tier.GetOr(0), d.recipe.GetOr(ItemsParser.NoRecipe), url)
  }

  /** The table, `updated_count`, and whether a KeyError has escaped. */
  datatype Progress = Progress(rows: seq<Item>, count: nat, failed: bool)

  /**
   * One pass of the outer loop for the stored pair `(item_id, item_name)`.
   * The stored id is not used: the save goes to the feed entry's id.
   */
  function Step(p: Progress, stored: (int, string), ds: seq<Descriptor>, m: map<string, Option<string>>): (r: Progress)
    requires AllNamed(ds)
    ensures p.failed ==> r == p
    ensures r.failed ==> r.rows == p.rows && r.count == p.count
    ensures r.rows != p.rows ==> r.count == p.count + 1 && Truthy(MappedUrl(m, Lower(stored.1)))
    ensures p.count <= r.count <= p.count + 1
  {
    if p.failed then p
    else
      var url := MappedUrl(m, Lower(stored.1));
      if !Truthy(url) then p
      else
        match FirstNamed(ds, Lower(stored.1))
        case None => p
        case Some(j) =>
          if ds[j].id.None? then p.(failed := true)
          else Progress(Upsert(p.rows, Resaved(ds[j], url)), p.count + 1, false)
  }

  /** The outer loop over the stored pairs, in order. */
  function Reconcile(p: Progress, stored: seq<(int, string)>, ds: seq<Descriptor>, m: map<string, Option<string>>): (r: Progress)
    requires AllNamed(ds)
    ensures p.failed ==> r == p
    ensures p.count <= r.count
    decreases |stored|
  {
    if stored == [] then p
    else Step(Reconcile(p, stored[..|stored| - 1], ds, m), stored[|stored| - 1], ds, m)
  }

  /** How many stored pairs have a lowered name that maps to a truthy URL. */
  function TruthyCount(stored: seq<(int, string)>, m: map<string, Option<string>>): nat
    decreases |stored|
  {
    if stored == [] then 0
    else TruthyCount(stored[..|stored| - 1], m) + if Truthy(MappedUrl(m, Lower(stored[|stored| - 1].1))) then 1 else 0
  }

  /** Once a KeyError escapes, the rest of the stored pairs change nothing. */
  lemma {:induction false} FailureEndsTheWalk(p: Progress, stored: seq<(int, string)>, n: nat, ds: seq<Descriptor>, m: map<string, Option<string>>)
    requires AllNamed(ds) && n <= |stored|
    requires Reconcile(p, stored[..n], ds, m).failed
    ensures Reconcile(p, stored, ds, m) == Reconcile(p, stored[..n], ds, m)
    decreases |stored|
  {
    if |stored| > n {
      var pre := stored[..|stored| - 1];
      assert pre[..n] == stored[..n];
      FailureEndsTheWalk(p, pre, n, ds, m);
    } else {
      assert stored[..n] == stored;
    }
  }

  /** Each stored pair causes at most one save, so `updated_count` is at most the number of stored rows. */
  lemma {:induction false} CountAtMostStored(p: Progress, stored: seq<(int, string)>, ds: seq<Descriptor>, m: map<string, Option<string>>)
    requires AllNamed(ds)
    ensures Reconcile(p, stored, ds, m).count <= p.count + |stored|
    decreases |stored|
  {
    if stored != [] {
      CountAtMostStored(p, stored[..|stored| - 1], ds, m);
    }
  }

  /**
   * A walk that finishes re-saves exactly the stored rows whose lowered name
   * maps to a truthy URL, one save each.
   */
  lemma {:induction false} CountIsTruthyRows(p: Progress, stored: seq<(int, string)>, ds: seq<Descriptor>)
    requires AllNamed(ds) && !p.failed
    requires !Reconcile(p, stored, ds, ImageMapping(ds)).failed
    ensures Reconcile(p, stored, ds, ImageMapping(ds)).count == p.count + TruthyCount(stored, ImageMapping(ds))
    decreases |stored|
  {
    if stored != [] {
      var m := ImageMapping(ds);
      var pre, s := stored[..|stored| - 1], stored[|stored| - 1];
      var q := Reconcile(p, pre, ds, m);
      assert !q.failed;
      CountIsTruthyRows(p, pre, ds);
      var url := MappedUrl(m, Lower(s.1));
      if Truthy(url) {
        assert Lower(s.1) in m;
        assert FirstNamed(ds, Lower(s.1)).Some?;
      }
    }
  }

  /**
   * A stored row whose name maps to a truthy URL is re-saved with the id,
   * name, tier and recipe of the FIRST feed entry with that lowered name
   * and the URL of the LAST one.
   */
  lemma ResaveTakesFirstEntryAndLastUrl(p: Progress, stored: (int, string), ds: seq<Descriptor>, first: nat, last: nat)
    requires AllNamed(ds) && !p.failed
    requires first < |ds| && Key(ds[first]) == Lower(stored.1) && HasKeys(ds[first])
    requires forall j | 0 <= j < first :: Key(ds[j]) != Lower(stored.1)
    requires last < |ds| && Key(ds[last]) == Lower(stored.1) && IsLastNamed(ds, last)
    requires Truthy(ds[last].imageUrl)
    ensures Step(p, stored, ds, ImageMapping(ds))
         == Progress(Upsert(p.rows, Resaved(ds[first], ds[last].imageUrl)), p.count + 1, false)
  {
    var key := Lower(stored.1);
    MappingKeepsLastUrl(ds, last);
    assert MappedUrl(ImageMapping(ds), key) == ds[last].imageUrl;
    FirstNamedIsFirst(ds, key, first);
    StepResaves(p, stored, ds, ImageMapping(ds), first);
  }

  /** An entry with the key and none before it is what the inner search finds. */
  lemma FirstNamedIsFirst(ds: seq<Descriptor>, key: string, first: nat)
    requires AllNamed(ds) && first < |ds| && Key(ds[first]) == key
    requires forall j | 0 <= j < first :: Key(ds[j]) != key
    ensures FirstNamed(ds, key) == Some(first)
  {
    assert !(forall i | 0 <= i < |ds| :: Key(ds[i]) != key) by {
      assert Key(ds[first]) == key;
    }
  }

  /** A stored row whose name maps to a truthy URL, found with an id, is re-saved and counted. */
  lemma StepResaves(p: Progress, stored: (int, string), ds: seq<Descriptor>, m: map<string, Option<string>>, j: nat)
    requires AllNamed(ds) && !p.failed
    requires Truthy(MappedUrl(m, Lower(stored.1)))
    requires FirstNamed(ds, Lower(stored.1)) == Some(j) && ds[j].id.Some?
    ensures Step(p, stored, ds, m) == Progress(Upsert(p.rows, Resaved(ds[j], MappedUrl(m, Lower(stored.1)))), p.count + 1, false)
  {
  }

  /**
   * When the feed entry chosen for a stored name carries an id that no row
   * has, the backfill appends a new row: the stored row is kept as it was
   * and the table gains a second row with that name.
   */
  lemma DifferentFeedIdAddsRow(p: Progress, stored: (int, string), ds: seq<Descriptor>, j: nat)
    requires AllNamed(ds) && !p.failed
    requires Truthy(MappedUrl(ImageMapping(ds), Lower(stored.1)))
    requires FirstNamed(ds, Lower(stored.1)) == Some(j) && ds[j].id.Some?
    requires !HasId(p.rows, ds[j].id.value)
    ensures var q := Step(p, stored, ds, ImageMapping(ds));
            && q.rows == p.rows + [Resaved(ds[j], MappedUrl(ImageMapping(ds), Lower(stored.1)))]
            && q.count == p.count + 1 && !q.failed
  {
    StepResaves(p, stored, ds, ImageMapping(ds), j);
  }

  /**
   * When the feed entry chosen for a stored name carries the id of some
   * row, that row is overwritten, whatever item it held.
   */
  lemma FeedIdOverwritesItsRow(p: Progress, stored: (int, string), ds: seq<Descriptor>, j: nat, k: nat)
    requires AllNamed(ds) && !p.failed && IdsDistinct(p.rows)
    requires Truthy(MappedUrl(ImageMapping(ds), Lower(stored.1)))
    requires FirstNamed(ds, Lower(stored.1)) == Some(j) && ds[j].id.Some?
    requires k < |p.rows| && p.rows[k].id == ds[j].id.value
    ensures var q := Step(p, stored, ds, ImageMapping(ds));
            && q.rows == p.rows[k := Resaved(ds[j], MappedUrl(ImageMapping(ds), Lower(stored.1)))]
            && q.count == p.count + 1 && !q.failed
  {
    StepResaves(p, stored, ds, ImageMapping(ds), j);
    assert IndexOfId(p.rows, ds[j].id.value) == Some(k);
  }

  /**
   * The backfill can destroy an unrelated item: "Dirt" (id 5) maps to a
   * feed entry with id 7, which is the stored "Rock", so re-saving it
   * replaces "Rock" and adds no row; afterwards no row is named "Rock".
   */
  lemma BackfillCanReplaceAnotherItem()
    ensures var rows := [Item(5, "Dirt", 1, "Cave", None), Item(7, "Rock", 2, "Stone", None)];
            var ds := [Descriptor(Some(7), Some("DIRT"), None, None, Some("d.png")), Descriptor(Some(8), Some("Rock"), None, None, None)];
            var q := Reconcile(Progress(rows, 0, false), Pairs(rows), ds, ImageMapping(ds));
            && q == Progress([Item(5, "Dirt", 1, "Cave", None), Item(7, "DIRT", 0, ItemsParser.NoRecipe, Some("d.png"))], 1, false)
            && forall y | y in q.rows :: y.name != "Rock"
  {
    var rows := [Item(5, "Dirt", 1, "Cave", None), Item(7, "Rock", 2, "Stone", None)];
    var ds := [Descriptor(Some(7), Some("DIRT"), None, None, Some("d.png")), Descriptor(Some(8), Some("Rock"), None, None, None)];
    assert Lower("Dirt") == "dirt" && Lower("DIRT") == "dirt" && Lower("Rock") == "rock";
    var m := ImageMapping(ds);
    assert m == map["dirt" := Some("d.png"), "rock" := None] by {
      assert ds[..1][..0] == [] && ds[..1] == [ds[0]];
    }
    var pairs := Pairs(rows);
    assert pairs == [(5, "Dirt"), (7, "Rock")];
    assert pairs[..1][..0] == [] && pairs[..1] == [(5, "Dirt")];
    assert FirstNamed(ds, "dirt") == Some(0) by {
      FirstNamedIsFirst(ds, "dirt", 0);
    }
    var p1 := Reconcile(Progress(rows, 0, false), pairs[..1], ds, m);
    assert Reconcile(Progress(rows, 0, false), pairs[..1][..0], ds, m) == Progress(rows, 0, false);
    assert p1 == Step(Progress(rows, 0, false), (5, "Dirt"), ds, m);
    FeedIdOverwritesItsRow(Progress(rows, 0, false), (5, "Dirt"), ds, 0, 1);
    assert p1 == Progress([Item(5, "Dirt", 1, "Cave", None), Item(7, "DIRT", 0, ItemsParser.NoRecipe, Some("d.png"))], 1, false);
    assert !Truthy(MappedUrl(m, Lower("Rock")));
  }

  /**
   * The body of the outer loop for one stored pair: when its lowered name
   * maps to a truthy URL, search the feed for the first entry with that
   * name (the inner loop with `break`) and re-save it. `failed` reports the
   * KeyError raised by a missing `id`, before anything is saved.
   */
  method ResaveStored(store: Store, itemsData: seq<Descriptor>, imageMapping: map<string, Option<string>>,
                      stored: (int, string), updatedCount: nat)
    returns (newCount: nat, failed: bool)
    requires store.Valid() && AllNamed(itemsData)
    modifies store
    ensures store.Valid()
    ensures Step(Progress(old(store.rows), updatedCount, false), stored, itemsData, imageMapping)
         == Progress(store.rows, newCount, failed)
  {
    newCount, failed := updatedCount, false;
    var itemName := stored.1;
    var imageUrl := MappedUrl(imageMapping, Lower(itemName));
    if Truthy(imageUrl) {
      var k := 0;
      while k < |itemsData|
        invariant 0 <= k <= |itemsData|
        invariant forall j | 0 <= j < k :: Key(itemsData[j]) != Lower(itemName)
        invariant store.rows == old(store.rows)
      {
        var itemData := itemsData[k];
        if Lower(itemData.name.value) == Lower(itemName) {
          assert FirstNamed(itemsData, Lower(itemName)) == Some(k);
          if itemData.id.None? {
            return newCount, true;
          }
          store.SaveItem(itemData.id.value, itemData.name.value, itemData.tier.GetOr(0),
                         itemData.recipe.GetOr(ItemsParser.NoRecipe), imageUrl);
          newCount := newCount + 1;
          return;
        }
        k := k + 1;
      }
    }
  }

  /**
   * `update_existing_database`: read the feed, build the mapping, then walk
   * the rows stored before the walk. A missing `name` anywhere raises at the
   * mapping, before any save; a missing `id` on the chosen feed entry raises
   * mid-walk, after the earlier saves were committed.
   */
  method UpdateExistingDatabase(store: Store, feed: Option<seq<Descriptor>>) returns (outcome: Outcome)
    requires store.Valid()
    modifies store
    ensures store.Valid()
    ensures feed.None? ==> outcome == FeedUnreadable && store.rows == old(store.rows)
    ensures feed.Some? && !AllNamed(feed.value) ==> outcome == KeyMissing && store.rows == old(store.rows)
    ensures feed.Some? && AllNamed(feed.value) ==>
      var p := Reconcile(Progress(old(store.rows), 0, false), Pairs(old(store.rows)), feed.value, ImageMapping(feed.value));
      store.rows == p.rows && outcome == (if p.failed then KeyMissing else Updated(p.count))
  {
    if feed.None? {
      return FeedUnreadable;
    }
    var itemsData := feed.value;
    if exists i | 0 <= i < |itemsData| :: itemsData[i].name.None? {
      return KeyMissing;
    }
    var imageMapping := ImageMapping(itemsData);
    ghost var start := Progress(store.rows, 0, false);
    var existingItems := store.GetAllItems();
    assert existingItems == Pairs(start.rows);
    var updatedCount := 0;
    var n := 0;
    while n < |existingItems|
      invariant 0 <= n <= |existingItems|
      invariant store.Valid()
      invariant Reconcile(start, existingItems[..n], itemsData, imageMapping) == Progress(store.rows, updatedCount, false)
    {
      assert existingItems[..n + 1][..n] == existingItems[..n];
      var failed;
      updatedCount, failed := ResaveStored(store, itemsData, imageMapping, existingItems[n], updatedCount);
      if failed {
        FailureEndsTheWalk(start, existingItems, n + 1, itemsData, imageMapping);
        return KeyMissing;
      }
      n := n + 1;
    }
    assert existingItems[..n] == existingItems;
    outcome := Updated(updatedCount);
  }
}
