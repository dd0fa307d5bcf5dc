/** The protocol constants and the external collaborators of the Peach
    proof-of-work. The values of the tile size, `MAP` and `JUMP` come from a header
    that is not part of this model, so they are abstract constants that keep
    only the side conditions the C code relies on. SHA-256, the IEEE-754
    single-precision step and the trailer layout are given as an `Env` of
    uninterpreted functions. */
module Protocol {
  import opened Bytes

  /** Rows per tile: the tile is filled `HASHLEN` bytes at a time. The C
      cursors `i`, `j` and `k` of `generate_tile` are `int`s that run up to
      `TILE`, so the tile must stay below 2^31 bytes; the bound keeps one
      row to spare. */
  type RowCount = n: nat | 0 < n && 32 * n + 32 <= 0x8000_0000 witness 1

  const ROWS: RowCount

  /** Tile size in bytes. */
  const TILE: nat := HASHLEN * ROWS

  /** Number of tiles in the working set. `index * TILE` is computed in 32-bit
      arithmetic by the C code, so the whole map must fit below 2^32 for the
      tile offsets not to wrap (which also bounds `MAP` by 2^27, tiles being
      at least 32 bytes). */
  type MapCount = n: nat | 0 < n <= 0x800_0000 && n * TILE <= 0x1_0000_0000 witness 1

  const MAP: MapCount

  /** Number of chained hops per attempt. */
  const JUMP: nat

  /** The block trailer fields the core touches: the previous block hash
      (tile seed), the 32-byte nonce, and every other field, kept opaque. */
  datatype Trailer = Trailer(phash: Digest, nonce: Digest, fields: seq<byte>)

  /** The external collaborators:
      - `sha256`: SHA-256 over a byte string;
      - `floatStep`: the single-precision part of one float slot — NaN
        replaced by `(float) index`, then `ldexpf(slot, exp)`;
      - `indexPad`: the four stack bytes that `next_index` hashes after its
        4-byte `current_index` argument (it passes a length of 8). The C
        code does not define them; they may differ from call to call, so
        they are given per index, fixed only within one `peach` call;
      - `trailerPrefix`: the first `BTSIZE - 4 - HASHLEN` bytes of the
        trailer's memory layout. */
  datatype Env = Env(
    sha256: seq<byte> -> Digest,
    floatStep: (Slot, int, u32) -> Slot,
    indexPad: u32 -> Slot,
    trailerPrefix: Trailer -> seq<byte>)

  /** Byte offset of tile `index` in the map: `index` whole tiles precede
      it. */
  function Offset(index: nat): nat
  {
    if index == 0 then 0 else Offset(index - 1) + TILE
  }

  /** The offset is the C code's `index * TILE`. */
  lemma {:induction false} OffsetIsProduct(index: nat)
    ensures Offset(index) == index * TILE
  {
    if index > 0 {
      OffsetIsProduct(index - 1);
      assert (index - 1) * TILE + TILE == index * TILE;
    }
  }

  /** Tiles in index order occupy disjoint windows, in order. */
  lemma {:induction false} OffsetOrdered(a: nat, b: nat)
    requires a < b
    ensures Offset(a) + TILE <= Offset(b)
    decreases b
  {
    if a + 1 < b {
      OffsetOrdered(a, b - 1);
    }
  }

  /** The window of every tile lies inside the map, and the whole map fits
      32-bit offsets. */
  lemma TileInMap(index: nat)
    requires index < MAP
    ensures Offset(index) + TILE <= Offset(MAP) == MAP * TILE <= 0x1_0000_0000
  {
    OffsetOrdered(index, MAP);
    OffsetIsProduct(MAP);
  }
}
