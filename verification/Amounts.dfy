/** Amounts of money, in atoms. */
module Amounts {
  const COIN := 100_000_000
  const GENESIS_PREMINE := 2_000_000 * COIN
}
