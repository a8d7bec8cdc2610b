/** What the bags hold. */
module BagItems {
  type Key = int

  /** A value handle: `id` is its identity, `key` what a bag files it under. */
  datatype Item = Item(id: int, key: Key)
}
