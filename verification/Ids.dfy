/** Identifiers: opaque machine words. */
module Ids {
  const TWO_64: nat := 0x1_0000_0000_0000_0000

  /** A machine word. Transactions and resources are opaque words. */
  type U64 = x: int | 0 <= x < TWO_64

  type TxnId = U64
  type ResourceId = U64
}
