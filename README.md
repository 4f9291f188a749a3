# Minesweeper board values in Dafny

This project models the two value types at the bottom of the minesweeper
board plugin, and proves their laws:

- `Coordinates` (board_plugin/src/components/coordinates.rs). This is a grid
  index made of two `u16` fields, `x` and `y`. It has component-wise
  addition, component-wise saturating subtraction, the derived lexicographic
  order, structural equality, the derived default `(0, 0)`, and the display
  form `"(x, y)"`.
- `Tile` (board_plugin/src/resources/tile.rs). This classifies one cell as
  `Bomb`, `BombNeighbor(u8)` or `Empty`. It has the `is_bomb` test and a
  console rendering of one to three characters, which exists only when the
  Cargo feature `debug` is enabled.

Both are pure, so the model uses datatypes, functions and lemmas:

- `coordinates.dfy`: module `Coordinates`.
- `tile.dfy`: module `Tile`.
- `decimal.dfy`: module `Decimal`. It models Rust's decimal formatting of
  unsigned integers, which both `Display` for coordinates and
  `console_output` use. `Show` renders a number and `Value` reads digits
  back; they are proved inverse on canonical digit strings.

`u16` and `u8` are subset types of `nat` (`0..65535` and `0..255`).

Two facts about the code shape the model:

- Addition is plain `u16 +`, not saturating. It panics on overflow in a
  debug build and wraps in a release build
  (board_plugin/src/components/coordinates.rs:24-25). `Coordinates.Add`
  therefore requires that neither axis overflows, and
  `Coordinates.WrappingAdd` models the release build.
- `BombNeighbor(u8)` accepts any `u8`, and nothing in the code limits the
  count to 1..8 (board_plugin/src/resources/tile.rs:10). The model adds no
  such invariant.

The data types:

- `Coordinates.Coordinates` is the struct `Coordinates`
  (board_plugin/src/components/coordinates.rs:14-17), with both fields of
  type `Coordinates.U16`.
- `Tile.Tile` is the enum `Tile` (board_plugin/src/resources/tile.rs:6-13),
  with the `BombNeighbor` payload of type `Tile.U8`.

`Coordinates.ParseDisplay` (with `ParsePair` and `ParseU16`) is not in the
source. It is a reference inverse of `Display`, used to prove that distinct
coordinates never display alike. `Coordinates.Rank` is not in the source
either: it is an independent numeric reference for the derived order.

## Model

| member | source | states |
|---|---|---|
| `Coordinates.Add` | board_plugin/src/components/coordinates.rs:22-27 | Requires that no axis overflows `u16` (the debug-build panic). Subtracting either operand from the sum gives back the other, and the sum is never below the left operand in the derived order. |
| `Coordinates.WrappingAdd` | board_plugin/src/components/coordinates.rs:24-25 | Release-build `+`: each axis is the exact sum, or the exact sum minus 2^16. |
| `Coordinates.WrappingAddAgrees` | board_plugin/src/components/coordinates.rs:24-25 | Without overflow the wrapping sum equals `Add`. On an overflowing axis the wrapped result is smaller than the left operand. |
| `Coordinates.AddCommutative` | board_plugin/src/components/coordinates.rs:22-27 | Addition is commutative, and needs no more than the same no-overflow condition either way round. |
| `Coordinates.AddIdentity` | board_plugin/src/components/coordinates.rs:22-27 | The default `(0, 0)` is a left and right identity of addition and never overflows. |
| `Coordinates.AddPerAxis` | board_plugin/src/components/coordinates.rs:24-25 | Each axis of the sum is the exact integer sum of that axis. |
| `Coordinates.SaturatingSub` | board_plugin/src/components/coordinates.rs:35-36 | `u16::saturating_sub`: the result is at most `a`, reaches at least `a` when `b` is added back, and is either zero or the exact difference. |
| `Coordinates.SaturatingSubUnique` | board_plugin/src/components/coordinates.rs:35-36 | Those three facts determine the saturating difference uniquely. |
| `Coordinates.SaturatingSubAdjoint` | board_plugin/src/components/coordinates.rs:35-36 | `a - b <= c` holds exactly when `a <= c + b`: saturating subtraction is the adjoint of addition. |
| `Coordinates.Sub` | board_plugin/src/components/coordinates.rs:33-38 | Total, with no precondition. It never grows either axis, so the result is always a valid pair of `u16`. |
| `Coordinates.SubPerAxis` | board_plugin/src/components/coordinates.rs:33-38 | Each axis of the difference is `a - b` when `a >= b` and `0` otherwise. |
| `Coordinates.SubAxesIndependent` | board_plugin/src/components/coordinates.rs:34-37 | The `x` of a difference depends only on the two `x` values, and the `y` only on the two `y` values. |
| `Coordinates.SubSelf` | board_plugin/src/components/coordinates.rs:35-36 | `a - a` is the default `(0, 0)`. |
| `Coordinates.SubDefault` | board_plugin/src/components/coordinates.rs:33-38 | Subtracting the default changes nothing, and subtracting anything from the default gives the default. |
| `Coordinates.SubThenAdd` | board_plugin/src/components/coordinates.rs:22-38 | `(a - b) + b` never overflows. Each of its axes is the larger of the `a` and `b` values on that axis. |
| `Coordinates.AddThenSub` | board_plugin/src/components/coordinates.rs:22-38 | The round trip: `(a + b) - b == a` whenever `a + b` does not overflow. |
| `Coordinates.Default` | board_plugin/src/components/coordinates.rs:13 | The derived `Default`, `(0, 0)`, is below or equal to every coordinate in the derived order. |
| `Coordinates.Compare` | board_plugin/src/components/coordinates.rs:13-17 | The derived `Ord::cmp`. It has no contract of its own; `CompareIsRankOrder`, `CompareEqual` and `CompareAntisymmetric` specify it. |
| `Coordinates.LessEq` | board_plugin/src/components/coordinates.rs:13-17 | The derived `<=` holds exactly when the left rank is at most the right rank. `LessEqTotalOrder` proves it a total order. |
| `Coordinates.Rank` | board_plugin/src/components/coordinates.rs:13-17 | The rank `x * 2^16 + y` of a coordinate is below `2^32`. |
| `Coordinates.RankDecomposes` | board_plugin/src/components/coordinates.rs:14-16 | Both fields can be read back from the rank, so the rank is injective. |
| `Coordinates.CompareIsRankOrder` | board_plugin/src/components/coordinates.rs:13-17 | The derived `cmp`, which compares `x` first and `y` on a tie, orders coordinates exactly as their ranks are ordered. |
| `Coordinates.CompareEqual` | board_plugin/src/components/coordinates.rs:13-17 | `cmp` says `Equal` exactly when the coordinates are equal, and equality is field by field. |
| `Coordinates.CompareAntisymmetric` | board_plugin/src/components/coordinates.rs:13 | Swapping the operands of `cmp` reverses its answer. |
| `Coordinates.LessEqTotalOrder` | board_plugin/src/components/coordinates.rs:13-17 | The derived `<=` is reflexive, antisymmetric, transitive and total. |
| `Coordinates.DefaultIsLeast` | board_plugin/src/components/coordinates.rs:13 | The derived default `(0, 0)` is the least coordinate in the derived order. |
| `Coordinates.Display` | board_plugin/src/components/coordinates.rs:41-45 | The display form is at least six characters long, opens with `(` and closes with `)`. |
| `Coordinates.ParseU16` | board_plugin/src/components/coordinates.rs:43 | Whatever it reads back as a `u16` renders in decimal as the text it was read from. |
| `Coordinates.ParseDisplayRoundTrip` | board_plugin/src/components/coordinates.rs:41-45 | Reading back `"(" + dec(x) + ", " + dec(y) + ")"` gives exactly the displayed coordinate. |
| `Coordinates.DisplayInjective` | board_plugin/src/components/coordinates.rs:41-45 | Two coordinates display alike exactly when they are equal. |
| `Decimal.Show` | board_plugin/src/components/coordinates.rs:43 | The decimal rendering of an integer is non-empty and all digits, with no leading zero. It is one digit exactly below 10, and starts with `0` only for zero. |
| `Decimal.ValueOfShow` | board_plugin/src/components/coordinates.rs:43 | Reading a rendering back gives the number rendered. |
| `Decimal.ShowOfValue` | board_plugin/src/resources/tile.rs:31 | Rendering the value of a canonical digit string gives that string back. |
| `Decimal.ShowInjective` | board_plugin/src/resources/tile.rs:31 | Two numbers render alike exactly when they are equal. |
| `Decimal.ShowLength` | board_plugin/src/resources/tile.rs:31 | A rendering has at most `k` digits (for `k >= 1`) exactly when the number is below `10^k`. |
| `Tile.IsBomb` | board_plugin/src/resources/tile.rs:17-19 | `Tile::is_bomb`. It has no contract of its own; `IsBombExactly` and `ConsoleOutputShowsBombs` specify it. |
| `Tile.IsBombExactly` | board_plugin/src/resources/tile.rs:17-19 | `is_bomb` holds of `Bomb`, fails for every `BombNeighbor(n)` with `n` in `0..255` and for `Empty`, and holds of nothing but `Bomb`. |
| `Tile.TileEquality` | board_plugin/src/resources/tile.rs:5-13 | The three variants are pairwise distinct, and `BombNeighbor(a) == BombNeighbor(b)` exactly when `a == b`. |
| `Tile.ConsoleOutput` | board_plugin/src/resources/tile.rs:21-36 | Every tile renders as one to three characters. |
| `Tile.ConsoleOutputIsDecimal` | board_plugin/src/resources/tile.rs:27-32 | For every count `v`, the explicit arms for 1, 2 and 3 agree with the `to_string` fallback: a neighbour renders as the decimal form of its count. |
| `Tile.NeighborOutputDigits` | board_plugin/src/resources/tile.rs:27-32 | A neighbour renders as canonical decimal digits. The rendering is a single symbol exactly when the count is below 10. |
| `Tile.ConsoleOutputInjective` | board_plugin/src/resources/tile.rs:25-34 | Two tiles render alike exactly when they are equal. In particular a neighbour's digits never match `*` or a space. |
| `Tile.ConsoleOutputShowsBombs` | board_plugin/src/resources/tile.rs:17-34 | The console prints `*` exactly for the tiles `is_bomb` accepts. |

## Left out

- Colours in `console_output` (the `colored` crate's `bright_red`, `cyan`, `green`, `yellow`, `red`, `normal`): foreign terminal styling. Only the characters are modelled.
- `console_output` exists only when the Cargo feature `debug` is enabled. The model treats it as always present.
- `Display::fmt` writes into a formatter and returns `std::fmt::Result`. The model returns the string itself and leaves out a failure of the formatter's sink.
- Coordinates.Add: the release build's silent wrap-around is not the behaviour of `Add`, which requires no overflow. It is modelled separately as `Coordinates.WrappingAdd`.
- Derived `Debug`, `Clone`, `Copy`, `Hash`, `Reflect`, `InspectorOptions` and `Component`: library machinery with no behaviour of this code's own. Copy semantics are implicit in Dafny's value types.
- The derived `PartialOrd` methods other than `cmp` (`lt`, `le`, `gt`, `ge`, `partial_cmp`) follow from `cmp`. Only `<=` is modelled, as `LessEq`.
- `TileMap` (board generation, bomb placement, neighbour counting), the reveal and flag state, flood fill and win/loss: `tile_map.rs` is not part of this model. The only visible code calls `TileMap::empty` and `set_bombs` without showing them.
- board_plugin/src/lib.rs: ECS plugin glue. Its tile size and board position are floating-point window arithmetic, `spawn_tiles` is empty, and the covered-tile map and safe start are created but never used.
- src/main.rs: application, window and camera setup only.
- board_plugin/src/components/bomb_neighbor.rs: a data component with one `u8` field and no behaviour. The count it carries appears as `Tile.BombNeighbor`'s payload.
- board_plugin/src/components/uncover.rs: a marker struct with no behaviour.
