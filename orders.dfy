/** The value types of the book: identifiers, quantities, prices, timestamps and the order record. */
module Orders {
  /** All four are unsigned 64-bit integers in the source; here they are naturals, so none is ever negative. */
  type OrderId = nat
  type Quantity = nat
  /** A limit price in integer ticks; the book keys its price levels on it. */
  type Price = nat
  type Timestamp = nat

  datatype Side = Buy | Sell
  datatype OrderType = Limit | Market

  /**
   * An order as the book stores it. `quantity` is the remaining quantity. The book never
   * compares `timestamp`: time priority inside a level is queue position alone. The datatype
   * constructor stores its seven arguments unchanged, as the source's constructor does.
   */
  datatype Order = Order(
    id: OrderId,
    side: Side,
    kind: OrderType,
    quantity: Quantity,
    price: Price,
    timestamp: Timestamp,
    symbol: string)

  /** The side a market order of side `s` trades against. */
  function Opposite(s: Side): (r: Side)
    ensures r != s
  {
    if s == Buy then Sell else Buy
  }
}
