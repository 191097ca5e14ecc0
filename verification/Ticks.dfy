/** The trade record that crosses the ring. */
module Ticks {

  import Bytes

  type int64 = x: int | -0x8000_0000_0000_0000 <= x < 0x8000_0000_0000_0000
  type uint32 = x: int | 0 <= x < 0x1_0000_0000

  datatype Side = Unknown | Buy | Sell

  /** `symbol` stands for the eight null-padded bytes of the ticker. */
  datatype Tick = Tick(symbol: seq<Bytes.byte>, ts: int64, wireTs: int64, price: real, size: uint32, side: Side)

  /** Auction prints carry no side and zero-sized prints carry no volume: neither counts. */
  predicate Counted(t: Tick) {
    t.size != 0 && t.side != Unknown
  }

  function BuyVolume(t: Tick): int {
    if t.side == Buy then t.size else 0
  }

  function SellVolume(t: Tick): int {
    if t.side == Sell then t.size else 0
  }

  function Volume(t: Tick): int {
    t.size
  }

  function Signed(t: Tick): int {
    if t.side == Buy then t.size else if t.side == Sell then 0 - t.size else 0
  }

  /** A tick counts exactly when something was bought or sold, and it then carries its size once. */
  lemma CountedIsVolume(t: Tick)
    ensures Counted(t) <==> BuyVolume(t) + SellVolume(t) > 0
    ensures Counted(t) <==> t.size > 0 && (t.side == Buy || t.side == Sell)
    ensures Counted(t) ==> BuyVolume(t) + SellVolume(t) == t.size
    ensures BuyVolume(t) - SellVolume(t) == Signed(t)
  {
  }
}
