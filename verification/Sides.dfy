/** The two sides of the market. */
module Sides {
  datatype Parity = Buy | Sell
}
