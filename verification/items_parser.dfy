/**
 * items_parser.py: the sync that reads the feed, upserts every well-formed
 * descriptor and reports the ones whose name the catalog did not know
 * before the sync began; and the bulk loader with its success count.
 */
module ItemsParser {
  import opened Base
  import opened Text
  import opened Feed
  import opened Catalog

  /** The recipe stored and reported when a descriptor has none. */
  const NoRecipe: string := "Tidak ada recipe"

  /** One entry of the list of new items handed to the notifier. */
  datatype NewItem = NewItem(id: int, name: string, tier: int, recipe: string)

  /** The row `save_item(item_id, name, tier, recipe)` writes: image_url is left at its default None. */
  function Stored(d: Descriptor): Item
    requires HasKeys(d)
  {
    Item(d.id.value, d.name.value, d.tier.GetOr(0), d.recipe.GetOr(NoRecipe), None)
  }

  function Reported(d: Descriptor): NewItem
    requires HasKeys(d)
  {
    NewItem(d.id.value, d.name.value, d.tier.GetOr(0), d.recipe.GetOr(NoRecipe))
  }

  /**
   * One pass of the loop on the table: a descriptor without `id` or `name`
   * is skipped; otherwise its row is stored, adding at most one row.
   */
  function SaveDescriptor(rows: seq<Item>, d: Descriptor): (r: seq<Item>)
    ensures !HasKeys(d) ==> r == rows
    ensures HasKeys(d) ==> Stored(d) in r && |rows| <= |r| <= |rows| + 1
  {
    if HasKeys(d) then Upsert(rows, Stored(d)) else rows
  }

  /**
   * The table after the loop has handled `ds` in order: at most one row is
   * added per descriptor that has both keys.
   */
  function Ingest(rows: seq<Item>, ds: seq<Descriptor>): (r: seq<Item>)
    ensures |rows| <= |r| <= |rows| + KeyedCount(ds)
    decreases |ds|
  {
    if ds == [] then rows else SaveDescriptor(Ingest(rows, ds[..|ds| - 1]), ds[|ds| - 1])
  }

  /** The lowered names read once, before the loop. */
  function KnownNames(items: seq<(int, string)>): set<string> {
    set p | p in items :: Lower(p.1)
  }

  predicate IsNew(known: set<string>, d: Descriptor) {
    HasKeys(d) && Lower(d.name.value) !in known
  }

  /**
   * The list the sync returns: every well-formed descriptor whose lowered
   * name is not in `known`, in feed order. `known` never grows, so a new
   * name repeated in the feed is reported each time.
   */
  function NewlySeen(known: set<string>, ds: seq<Descriptor>): (r: seq<NewItem>)
    ensures |r| <= |ds|
    ensures forall x :: x in r <==> exists i | 0 <= i < |ds| :: IsNew(known, ds[i]) && x == Reported(ds[i])
    decreases |ds|
  {
    if ds == [] then []
    else
      var prev := NewlySeen(known, ds[..|ds| - 1]);
      var d := ds[|ds| - 1];
      assert forall i | 0 <= i < |ds| - 1 :: ds[..|ds| - 1][i] == ds[i];
      if IsNew(known, d) then prev + [Reported(d)] else prev
  }

  /** Every well-formed descriptor, reported in feed order. */
  function AllReported(ds: seq<Descriptor>): seq<NewItem>
    decreases |ds|
  {
    if ds == [] then []
    else
      var d := ds[|ds| - 1];
      AllReported(ds[..|ds| - 1]) + if HasKeys(d) then [Reported(d)] else []
  }

  /** How many descriptors carry both `id` and `name`. */
  function KeyedCount(ds: seq<Descriptor>): nat
    decreases |ds|
  {
    if ds == [] then 0 else KeyedCount(ds[..|ds| - 1]) + if HasKeys(ds[|ds| - 1]) then 1 else 0
  }

  /** Some well-formed descriptor carries `id`. */
  predicate FedId(ds: seq<Descriptor>, id: int) {
    exists i | 0 <= i < |ds| :: HasKeys(ds[i]) && ds[i].id.value == id
  }

  /**
   * The sync writes nothing but the rows of well-formed descriptors: every
   * row afterwards was there before or is `Stored` of a descriptor with
   * both `id` and `name`, so a descriptor lacking either is never saved.
   */
  lemma {:induction false} IngestWritesOnlyKeyed(rows: seq<Item>, ds: seq<Descriptor>)
    ensures forall y | y in Ingest(rows, ds) :: y in rows || exists i | 0 <= i < |ds| :: HasKeys(ds[i]) && y == Stored(ds[i])
    decreases |ds|
  {
    if ds != [] {
      var pre, d := ds[..|ds| - 1], ds[|ds| - 1];
      IngestWritesOnlyKeyed(rows, pre);
      if HasKeys(d) {
        UpsertKeepsOthers(Ingest(rows, pre), Stored(d));
      }
      forall y | y in Ingest(rows, ds)
        ensures y in rows || exists i | 0 <= i < |ds| :: HasKeys(ds[i]) && y == Stored(ds[i])
      {
        if y !in Ingest(rows, pre) {
          assert HasKeys(ds[|ds| - 1]) && y == Stored(ds[|ds| - 1]);
        } else if y !in rows {
          var i :| 0 <= i < |pre| && HasKeys(pre[i]) && y == Stored(pre[i]);
          assert pre[i] == ds[i];
        }
      }
    }
  }

  /**
   * When several well-formed descriptors share an id, the last one wins:
   * its row is stored and it is the only row with that id.
   */
  lemma {:induction false} IngestLastWriteWins(rows: seq<Item>, ds: seq<Descriptor>, i: nat)
    requires IdsDistinct(rows) && i < |ds| && HasKeys(ds[i])
    requires forall j | i < j < |ds| && HasKeys(ds[j]) :: ds[j].id.value != ds[i].id.value
    ensures Stored(ds[i]) in Ingest(rows, ds)
    ensures forall y | y in Ingest(rows, ds) && y.id == ds[i].id.value :: y == Stored(ds[i])
    decreases |ds|
  {
    var pre, d := ds[..|ds| - 1], ds[|ds| - 1];
    var before := Ingest(rows, pre);
    IngestKeepsIdsDistinct(rows, pre);
    if i == |ds| - 1 {
      UpsertStoresRecord(before, Stored(d));
      forall y | y in Ingest(rows, ds) && y.id == d.id.value
        ensures y == Stored(d)
      {
        var k :| 0 <= k < |Ingest(rows, ds)| && Ingest(rows, ds)[k] == y;
      }
    } else {
      assert pre[i] == ds[i];
      assert forall j | i < j < |pre| :: pre[j] == ds[j];
      IngestLastWriteWins(rows, pre, i);
      if HasKeys(d) {
        assert d.id.value != ds[i].id.value by { assert ds[|ds| - 1] == d; }
        UpsertKeepsOthers(before, Stored(d));
      }
    }
  }

  /** The reference filter: the reports whose lowered name is not in `known`, in order. */
  function DropKnown(known: set<string>, xs: seq<NewItem>): (r: seq<NewItem>)
    ensures |r| <= |xs|
    decreases |xs|
  {
    if xs == [] then []
    else
      var x := xs[|xs| - 1];
      DropKnown(known, xs[..|xs| - 1]) + if Lower(x.name) !in known then [x] else []
  }

  /**
   * The sync's result is the filter of all well-formed descriptors' reports
   * by the known names: each new descriptor appears once per occurrence,
   * in feed order.
   */
  lemma {:induction false} NewlySeenIsFilter(known: set<string>, ds: seq<Descriptor>)
    ensures NewlySeen(known, ds) == DropKnown(known, AllReported(ds))
    decreases |ds|
  {
    if ds != [] {
      var pre, d := ds[..|ds| - 1], ds[|ds| - 1];
      NewlySeenIsFilter(known, pre);
      if HasKeys(d) {
        var a := AllReported(pre) + [Reported(d)];
        assert AllReported(ds) == a;
        assert a[..|a| - 1] == AllReported(pre);
      } else {
        assert AllReported(ds) == AllReported(pre);
      }
    }
  }

  /** The result keeps feed order: it is a subsequence of the well-formed descriptors. */
  lemma {:induction false} NewlySeenKeepsOrder(known: set<string>, ds: seq<Descriptor>)
    ensures IsSubseq(NewlySeen(known, ds), AllReported(ds))
    decreases |ds|
  {
    if ds != [] {
      var pre, d := ds[..|ds| - 1], ds[|ds| - 1];
      NewlySeenKeepsOrder(known, pre);
      if IsNew(known, d) {
        SubseqAppendBoth(NewlySeen(known, pre), AllReported(pre), Reported(d));
      } else if HasKeys(d) {
        SubseqAppendRight(NewlySeen(known, pre), AllReported(pre), Reported(d));
      } else {
        assert NewlySeen(known, ds) == NewlySeen(known, pre);
        assert AllReported(pre) + [] == AllReported(pre);
      }
    }
  }

  /** Against an empty catalog every well-formed descriptor is new. */
  lemma {:induction false} FirstSyncReportsAll(ds: seq<Descriptor>)
    ensures NewlySeen({}, ds) == AllReported(ds)
    decreases |ds|
  {
    if ds != [] {
      FirstSyncReportsAll(ds[..|ds| - 1]);
    }
  }

  lemma {:induction false} IngestKeepsIdsDistinct(rows: seq<Item>, ds: seq<Descriptor>)
    requires IdsDistinct(rows)
    ensures IdsDistinct(Ingest(rows, ds))
    decreases |ds|
  {
    if ds != [] {
      var pre, d := ds[..|ds| - 1], ds[|ds| - 1];
      IngestKeepsIdsDistinct(rows, pre);
      if HasKeys(d) {
        UpsertStoresRecord(Ingest(rows, pre), Stored(d));
      }
    }
  }

  /** A row whose id no well-formed descriptor carries survives the sync unchanged. */
  lemma {:induction false} IngestKeepsUnfedRows(rows: seq<Item>, ds: seq<Descriptor>)
    ensures forall y | y in rows && !FedId(ds, y.id) :: y in Ingest(rows, ds)
    decreases |ds|
  {
    if ds != [] {
      var pre, d := ds[..|ds| - 1], ds[|ds| - 1];
      IngestKeepsUnfedRows(rows, pre);
      assert forall i | 0 <= i < |pre| :: pre[i] == ds[i];
      forall y | y in rows && !FedId(ds, y.id)
        ensures y in Ingest(rows, ds)
      {
        assert !FedId(pre, y.id);
        if HasKeys(d) {
          assert d.id.value != y.id by { assert ds[|ds| - 1] == d; }
          UpsertKeepsOthers(Ingest(rows, pre), Stored(d));
        }
      }
    }
  }

  /**
   * When the feed's ids are pairwise distinct, every well-formed descriptor
   * ends up stored exactly as the sync wrote it.
   */
  lemma {:induction false} IngestStoresEach(rows: seq<Item>, ds: seq<Descriptor>)
    requires IdsDistinct(rows) && KeyedIdsDistinct(ds)
    ensures forall i | 0 <= i < |ds| && HasKeys(ds[i]) :: Stored(ds[i]) in Ingest(rows, ds)
    decreases |ds|
  {
    if ds != [] {
      var pre, d := ds[..|ds| - 1], ds[|ds| - 1];
      assert forall i | 0 <= i < |pre| :: pre[i] == ds[i];
      IngestStoresEach(rows, pre);
      IngestKeepsIdsDistinct(rows, pre);
      if HasKeys(d) {
        UpsertStoresRecord(Ingest(rows, pre), Stored(d));
        UpsertKeepsOthers(Ingest(rows, pre), Stored(d));
      }
    }
  }

  /**
   * The sync calls `save_item` without an image URL, so every row it
   * writes has its image_url reset to NULL.
   */
  lemma {:induction false} IngestClearsImageUrls(rows: seq<Item>, ds: seq<Descriptor>)
    requires IdsDistinct(rows)
    ensures forall y | y in Ingest(rows, ds) && FedId(ds, y.id) :: y.imageUrl.None?
    decreases |ds|
  {
    if ds != [] {
      var pre, d := ds[..|ds| - 1], ds[|ds| - 1];
      IngestClearsImageUrls(rows, pre);
      IngestKeepsIdsDistinct(rows, pre);
      var before := Ingest(rows, pre);
      forall y | y in Ingest(rows, ds) && FedId(ds, y.id)
        ensures y.imageUrl.None?
      {
        var i :| 0 <= i < |ds| && HasKeys(ds[i]) && ds[i].id.value == y.id;
        if HasKeys(d) {
          UpsertStoresRecord(before, Stored(d));
          UpsertKeepsOthers(before, Stored(d));
          if y != Stored(d) {
            assert y in before && y.id != d.id.value;
            assert i < |pre| && pre[i] == ds[i];
          }
        } else {
          assert i < |pre| && pre[i] == ds[i];
        }
      }
    }
  }

  /**
   * Running the sync again on the same feed reports nothing, provided the
   * feed's ids are pairwise distinct (otherwise a later descriptor can
   * overwrite an earlier one's row and its name is new again).
   */
  lemma SecondSyncReportsNothing(rows: seq<Item>, ds: seq<Descriptor>)
    requires IdsDistinct(rows) && KeyedIdsDistinct(ds)
    ensures NewlySeen(KnownNames(Pairs(Ingest(rows, ds))), ds) == []
  {
    var after := Ingest(rows, ds);
    var known := KnownNames(Pairs(after));
    IngestStoresEach(rows, ds);
    forall i | 0 <= i < |ds| && HasKeys(ds[i])
      ensures Lower(ds[i].name.value) in known
    {
      var k :| 0 <= k < |after| && after[k] == Stored(ds[i]);
      assert Pairs(after)[k] == (ds[i].id.value, ds[i].name.value);
    }
    NothingNewWhenAllKnown(known, ds);
  }

  lemma {:induction false} NothingNewWhenAllKnown(known: set<string>, ds: seq<Descriptor>)
    requires forall i | 0 <= i < |ds| && HasKeys(ds[i]) :: Lower(ds[i].name.value) in known
    ensures NewlySeen(known, ds) == []
    decreases |ds|
  {
    if ds != [] {
      assert forall i | 0 <= i < |ds| - 1 :: ds[..|ds| - 1][i] == ds[i];
      NothingNewWhenAllKnown(known, ds[..|ds| - 1]);
    }
  }

  /** Two feed entries with the same new name (ignoring case) are both reported. */
  lemma RepeatedNewNameReportedTwice()
    ensures var d1 := Descriptor(Some(1), Some("Dirt Seed"), Some(1), None, None);
            var d2 := Descriptor(Some(2), Some("DIRT SEED"), None, Some("Dirt"), None);
            NewlySeen({"rock seed"}, [d1, d2]) == [NewItem(1, "Dirt Seed", 1, NoRecipe), NewItem(2, "DIRT SEED", 0, "Dirt")]
  {
    var d1 := Descriptor(Some(1), Some("Dirt Seed"), Some(1), None, None);
    var d2 := Descriptor(Some(2), Some("DIRT SEED"), None, Some("Dirt"), None);
    assert Lower("Dirt Seed") == "dirt seed" && Lower("DIRT SEED") == "dirt seed";
    assert [d1, d2][..1] == [d1] && [d1][..0] == [];
  }

  /** At least one save happened exactly when some descriptor carries both keys. */
  lemma {:induction false} KeyedCountPositive(ds: seq<Descriptor>)
    ensures KeyedCount(ds) > 0 <==> exists i | 0 <= i < |ds| :: HasKeys(ds[i])
    decreases |ds|
  {
    if ds != [] {
      var pre := ds[..|ds| - 1];
      KeyedCountPositive(pre);
      assert forall i | 0 <= i < |pre| :: pre[i] == ds[i];
    }
  }

  /**
   * The input on which the loader's False is wrong: one entry with `id` and
   * `name` is saved (one completed save), yet `LoadAllItems` returns False.
   */
  lemma OneEntrySavedYetReportedFailed()
    ensures var d := Descriptor(Some(1), Some("Dirt Seed"), Some(1), Some("Dirt"), None);
            && KeyedCount([d]) == 1
            && Ingest([], [d]) == [Item(1, "Dirt Seed", 1, "Dirt", None)]
  {
    var d := Descriptor(Some(1), Some("Dirt Seed"), Some(1), Some("Dirt"), None);
    assert [d][..0] == [];
  }

  /**
   * `fetch_and_parse_items`: with no readable feed return [] and touch
   * nothing; otherwise read the known names once, upsert each well-formed
   * descriptor in order and collect the ones whose name was not known.
   */
  method FetchAndParseItems(store: Store, feed: Option<seq<Descriptor>>) returns (newItems: seq<NewItem>)
    requires store.Valid()
    modifies store
    ensures store.Valid()
    ensures feed.None? ==> newItems == [] && store.rows == old(store.rows)
    ensures feed.Some? ==> store.rows == Ingest(old(store.rows), feed.value)
    ensures feed.Some? ==> newItems == NewlySeen(KnownNames(Pairs(old(store.rows))), feed.value)
  {
    if feed.None? {
      return [];
    }
    var data := feed.value;
    ghost var start := store.rows;
    var all := store.GetAllItems();
    assert all == Pairs(start);
    var existingItems := set p | p in all :: Lower(p.1);
    newItems := [];
    var i := 0;
    while i < |data|
      invariant 0 <= i <= |data|
      invariant store.Valid()
      invariant store.rows == Ingest(start, data[..i])
      invariant newItems == NewlySeen(existingItems, data[..i])
    {
      var item := data[i];
      assert data[..i + 1][..i] == data[..i] && data[..i + 1][i] == item;
      if item.id.Some? && item.name.Some? {
        var tier := item.tier.GetOr(0);
        var recipe := item.recipe.GetOr(NoRecipe);
        store.SaveItem(item.id.value, item.name.value, tier, recipe);
        if Lower(item.name.value) !in existingItems {
          newItems := newItems + [NewItem(item.id.value, item.name.value, tier, recipe)];
        }
      }
      i := i + 1;
    }
    assert data[..i] == data;
  }

  /**
   * `load_all_items` of items_parser.py as written: it upserts every
   * well-formed descriptor, but `save_item` returns None, so the success
   * count stays 0 and the result is False even when every save happened.
   */
  method LoadAllItems(store: Store, feed: Option<seq<Descriptor>>) returns (ok: bool)
    requires store.Valid()
    modifies store
    ensures store.Valid()
    ensures feed.None? ==> store.rows == old(store.rows)
    ensures feed.Some? ==> store.rows == Ingest(old(store.rows), feed.value)
    ensures !ok
  {
    if feed.None? {
      return false;
    }
    var data := feed.value;
    ghost var start := store.rows;
    var successCount := 0;
    var i := 0;
    while i < |data|
      invariant 0 <= i <= |data|
      invariant store.Valid()
      invariant store.rows == Ingest(start, data[..i])
    {
      var item := data[i];
      assert data[..i + 1][..i] == data[..i] && data[..i + 1][i] == item;
      if item.id.Some? && item.name.Some? {
        // `if save_item(...)` tests None, which is falsy: no increment.
        store.SaveItem(item.id.value, item.name.value, item.tier.GetOr(0), item.recipe.GetOr(NoRecipe));
      }
      i := i + 1;
    }
    assert data[..i] == data;
    ok := successCount > 0;
  }

  /**
   * `load_all_items` as evidently intended: each completed save counts, so
   * the result is True exactly when some descriptor was saved.
   */
  method LoadAllItemsCounted(store: Store, feed: Option<seq<Descriptor>>) returns (successCount: nat, ok: bool)
    requires store.Valid()
    modifies store
    ensures store.Valid()
    ensures feed.None? ==> store.rows == old(store.rows) && successCount == 0 && !ok
    ensures feed.Some? ==> store.rows == Ingest(old(store.rows), feed.value)
    ensures feed.Some? ==> successCount == KeyedCount(feed.value)
    ensures ok <==> feed.Some? && exists i | 0 <= i < |feed.value| :: HasKeys(feed.value[i])
  {
    if feed.None? {
      return 0, false;
    }
    var data := feed.value;
    ghost var start := store.rows;
    successCount := 0;
    var i := 0;
    while i < |data|
      invariant 0 <= i <= |data|
      invariant store.Valid()
      invariant store.rows == Ingest(start, data[..i])
      invariant successCount == KeyedCount(data[..i])
    {
      var item := data[i];
      assert data[..i + 1][..i] == data[..i] && data[..i + 1][i] == item;
      if item.id.Some? && item.name.Some? {
        store.SaveItem(item.id.value, item.name.value, item.tier.GetOr(0), item.recipe.GetOr(NoRecipe));
        successCount := successCount + 1;
      }
      i := i + 1;
    }
    assert data[..i] == data;
    KeyedCountPositive(data);
    ok := successCount > 0;
  }
}
