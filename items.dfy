/** The inventory records that the location re-indexer works on. */
module Items {

  /** An optional value: a JavaScript property that may be absent. */
  datatype Option<+T> = None | Some(value: T)

  /**
   * One entry of the character's inventory item list (`_id`, `_tpl`, `parentId`,
   * `slotId`, `location`). An absent `parentId` is `None`. A `location` that
   * passes the numeric test is `Some` of its integer value; `None` stands for
   * every `location` that fails it, whether absent or a non-numeric value.
   */
  datatype Item = Item(
    id: string,
    tpl: string,
    parentId: Option<string>,
    slotId: Option<string>,
    location: Option<int>)

  /** The numeric-location test that selects an item for re-indexing. */
  predicate Located(item: Item)
  {
    item.location.Some?
  }
}
