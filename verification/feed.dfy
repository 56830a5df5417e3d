/** The item feed (`items.json`): a list of item objects, each a JSON map. */
module Feed {
  import opened Base

  /**
   * One object of the feed. A field is None when its key is absent, so
   * `item["id"]` on it raises KeyError and `item.get("tier", 0)` yields 0.
   */
  datatype Descriptor = Descriptor(
    id: Option<int>,
    name: Option<string>,
    tier: Option<int>,
    recipe: Option<string>,
    imageUrl: Option<string>)

  /** Both required keys are present, so `item["id"]` and `item["name"]` succeed. */
  predicate HasKeys(d: Descriptor) {
    d.id.Some? && d.name.Some?
  }

  /** No two descriptors that carry both keys share an id. */
  predicate KeyedIdsDistinct(ds: seq<Descriptor>) {
    forall i, j | 0 <= i < j < |ds| && HasKeys(ds[i]) && HasKeys(ds[j]) :: ds[i].id != ds[j].id
  }
}
