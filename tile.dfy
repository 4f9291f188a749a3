/**
  The classification of one board cell (board_plugin/src/resources/tile.rs):
  a bomb, a bomb neighbour carrying a `u8` count, or empty; with the
  `is_bomb` test and the console rendering enabled by the `debug` feature:
  one to three characters (its colours are not part of this model).
 */
module Tile {
  import Decimal

  /** Rust's `u8`. */
  type U8 = n: nat | n <= 0xFF

  /** The count a `BombNeighbor` carries is any `u8`; nothing here limits it to 1..8. */
  datatype Tile = Bomb | BombNeighbor(count: U8) | Empty

  /** `Tile::is_bomb`. */
  predicate IsBomb(t: Tile) {
    t.Bomb?
  }

  /** `is_bomb` holds of `Bomb` and of nothing else. */
  lemma IsBombExactly(t: Tile)
    ensures IsBomb(Bomb)
    ensures IsBomb(t) <==> t == Bomb
    ensures forall n: U8 :: !IsBomb(BombNeighbor(n))
    ensures !IsBomb(Empty)
  {
  }

  /** The derived equality is structural: the variants differ, and counts compare by value. */
  lemma TileEquality(a: U8, b: U8)
    ensures Bomb != Empty && Bomb != BombNeighbor(a) && Empty != BombNeighbor(a)
    ensures BombNeighbor(a) == BombNeighbor(b) <==> a == b
  {
  }

  /**
    `Tile::console_output` without the colours: "*" for a bomb, " " for an
    empty cell, and for a neighbour its count, with explicit arms for 1, 2
    and 3 and `to_string` for every other count.
   */
  function ConsoleOutput(t: Tile): (s: string)
    ensures 1 <= |s| <= 3
  {
    match t
    case Bomb => "*"
    case BombNeighbor(v) =>
      if v == 1 then "1"
      else if v == 2 then "2"
      else if v == 3 then "3"
      else
        Decimal.ShowLength(v, 3);
        Decimal.Show(v)
    case Empty => " "
  }

  /** The explicit arms agree with the fallback: a neighbour renders as the decimal form of its count. */
  lemma ConsoleOutputIsDecimal(v: U8)
    ensures ConsoleOutput(BombNeighbor(v)) == Decimal.Show(v)
  {
  }

  /** A neighbour's rendering is all digits, and a single symbol exactly when its count is below 10. */
  lemma NeighborOutputDigits(v: U8)
    ensures Decimal.Canonical(ConsoleOutput(BombNeighbor(v)))
    ensures |ConsoleOutput(BombNeighbor(v))| == 1 <==> v < 10
  {
  }

  /** The rendering tells tiles apart: different tiles never print alike. */
  lemma ConsoleOutputInjective(a: Tile, b: Tile)
    ensures ConsoleOutput(a) == ConsoleOutput(b) <==> a == b
  {
    if a.BombNeighbor? {
      NeighborOutputDigits(a.count);
    }
    if b.BombNeighbor? {
      NeighborOutputDigits(b.count);
    }
    if a.BombNeighbor? && b.BombNeighbor? {
      ConsoleOutputIsDecimal(a.count);
      ConsoleOutputIsDecimal(b.count);
      Decimal.ShowInjective(a.count, b.count);
    }
  }

  /** The console shows "*" exactly for the tiles `is_bomb` accepts. */
  lemma ConsoleOutputShowsBombs(t: Tile)
    ensures ConsoleOutput(t) == "*" <==> IsBomb(t)
  {
  }
}
