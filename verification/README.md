# Peach proof-of-work core, modelled in Dafny

Peach is the memory-hard proof-of-work of the Mochimo miner
(`src/algo/peach/peach.c`). A map of `MAP` tiles is derived from the
previous block hash. Each tile is `TILE` bytes, filled one 32-byte row at a
time. Each row gets a SHA-256 seed, then a pass of single-precision float
steps, then eight rounds of byte transforms picked by an opcode accumulator.
A later row is seeded from the hash of the row before it.

One attempt works like this:
1. Hash the first `BTSIZE - 4 - HASHLEN` bytes of the block trailer. In
   the trailer layout these run up to and including the nonce; the layout
   comes from a header that is not part of this model (`Env.trailerPrefix`).
2. Multiply the hash bytes together to pick a start tile.
3. Hop `JUMP` times. Each hop, `next_index` hashes the nonce, the current
   index and the current tile.
4. Hash the trailer hash followed by the last tile, and test its leading zero
   bits against the difficulty.

Tiles are generated lazily into a map that stays cached across the attempts
of one mining call.

The modules follow the parts of `peach.c`:

- `Bytes`: the C byte and word arithmetic, written out. It covers 32-bit
  wrap-around, XOR, little-endian word reads and the bytes of a `uint32_t`.
- `Protocol`: the abstract constants (`ROWS`, `TILE`, `MAP`, `JUMP`), the
  trailer, and the `Env` of external functions (SHA-256, the float step, the
  trailer layout). It also holds tile offsets in the map.
- `Eval`: `peach_eval` and `is_solution`.
- `RowOps`: the eight row transforms of `generate_tile` and their
  properties.
- `TileGen`: `generate_tile`. `Tile(seed, index)` is a reference definition
  of a tile. The method `GenerateTile` follows the C loops step by step,
  including the shared byte cursor `k`, and is proved to produce `Tile` and to
  write only its own window. The operands `i1..i4` have the type `Pos`
  (below 32), so every transform stays inside its 32-byte row by
  construction.
- `TileCache`: `get_tile` on a map with one cache flag per tile, and the
  invariant that every flagged tile holds its tile (`Coherent`).
- `IndexWalk`: `next_index`, the start index, and the walk of `JUMP` hops.
- `Peach`: the driver. `Validate` is mode 1. `Mine` is mode 0, trying the
  nonces of a given sequence on one shared cache.

The central results:
- `GenerateTile` computes `Tile` and changes nothing outside the tile's
  window.
- `GetTile` keeps the cache coherent.
- An attempt against any coherent cache gives the same verdict as the
  attempt against the tiles themselves (`Attempt`, `Outcome`). So
  validation on a fresh map and mining on a warm cache agree. The in-context
  self-check of a mined solution passes whenever its `next_index` hashes the
  same four stack bytes as the miner's (`Peach.Mine`).

## Model

| member | source | states |
|---|---|---|
| Eval.PeachEval | src/algo/peach/peach.c:29-52 | returns 0 or 1. It returns 0 exactly when the digest's leading zero bits, counted in a byte (so modulo 256), reach the difficulty. |
| Eval.ShiftCount | src/algo/peach/peach.c:38-44 | the inner shift loop adds the leading zeros of the first non-zero byte: 7 minus the bit position of its top set bit. |
| Eval.LeadingZeroBitsMeaning | src/algo/peach/peach.c:35-49 | the byte-then-bit count is the number of leading zeros of the digest read as a 256-bit big-endian number. |
| Eval.AllZeroDigestWraps | src/algo/peach/peach.c:33-47 | an all-zero digest counts 256 zero bits. The byte counter wraps that to 0, so it solves difficulty 0 only. |
| Eval.SolvedIffBelowTarget | src/algo/peach/peach.c:50-51 | for a non-zero digest, difficulty `d` is solved exactly when the digest is below `2^(256-d)`. |
| Eval.SolvedMonotone | src/algo/peach/peach.c:50-51 | a digest that solves `d` also solves every lower difficulty. |
| Eval.DifficultyBoundary | src/algo/peach/peach.c:50 | a digest with exactly `d` leading zero bits solves `d`. One with `d-1` does not. |
| Eval.IsSolution | src/algo/peach/peach.c:234-246 | true exactly when SHA-256 of the trailer hash followed by the tile solves the difficulty. |
| RowOps.FlipOuterBitsChangesOne | src/algo/peach/peach.c:167-172 | case 0 changes exactly one byte, the one at `i1` if `i1` is even and at `i2` otherwise, by XOR with 0x81. |
| RowOps.FlipOuterBitsInvolution | src/algo/peach/peach.c:167-172 | case 0 applied twice restores the row. |
| RowOps.SwapEndsSpec | src/algo/peach/peach.c:174-180 | case 1 exchanges bytes 0 and 31, keeps bytes 1..30, and permutes the row. |
| RowOps.SwapEndsInvolution | src/algo/peach/peach.c:174-180 | case 1 applied twice restores the row. |
| RowOps.XorPairSpec | src/algo/peach/peach.c:181-185 | case 2 changes only the byte at `i4`, into its XOR with the byte at `i3`. When `i3 == i4` that byte becomes 0. |
| RowOps.AddAlternatingUniform | src/algo/peach/peach.c:186-197 | as C parses `z & 1 == 0`, cases 3 and 4 add the same amount (1, or `t`) to every byte, modulo 256. |
| RowOps.AddAlternatingInverse | src/algo/peach/peach.c:186-197 | cases 3/4 are undone by the same transform with the opposite amount. |
| RowOps.ReplaceHSpec | src/algo/peach/peach.c:198-212 | after case 5 no byte at `i1..i4` is 104. Every 104 there became 72, and no other byte changed. |
| RowOps.ReplaceHIdempotent | src/algo/peach/peach.c:198-212 | case 5 applied twice equals case 5 applied once. |
| RowOps.OrderPairSpec | src/algo/peach/peach.c:213-221 | after case 6 the byte at `i1` is at most the byte at `i3`. The pair is kept or exchanged, everything else is kept, and the row is permuted. |
| RowOps.OrderPairIdempotent | src/algo/peach/peach.c:213-221 | case 6 applied twice equals case 6 applied once. |
| RowOps.XorChainPrefixXor | src/algo/peach/peach.c:222-226 | after the in-place chain of case 7, byte `z` is the XOR of the original bytes `0..z`. |
| TileGen.SelectSlot | src/algo/peach/peach.c:124-140 | every branch moves the cursor `k` on by exactly four and changes at most the slot's sign bit. With `k` at the slot, slot and exponent are those of `Prepare` (branch order and byte roles of the three cases). |
| TileGen.NegateInPlace | src/algo/peach/peach.c:128 | negating the float in place flips the top bit of the slot's last byte, which is the sign bit of a little-endian single, and nothing else. |
| TileGen.FloatSlot | src/algo/peach/peach.c:116-147 | one float slot changes only its own four bytes. With the cursor at the slot, it becomes `SlotStep` of its old bytes. |
| TileGen.FloatRowSlot | src/algo/peach/peach.c:114-151 | one float-loop iteration advances the row's float pass by one slot and the cursor by four. It XORs the slot's finished head byte into `op`. |
| TileGen.FloatRow | src/algo/peach/peach.c:114-151 | entered with `k == j == i`, the float loop leaves `k` at the row end. Only the row changes, it becomes its float pass, and `op` is the XOR of the finished slot heads. |
| TileGen.SeedNextRow | src/algo/peach/peach.c:153-159 | when a row follows, it receives SHA-256 of the current row followed by the index bytes. Only that next row changes: the bytes before it and after it are kept. |
| RowOps.RoundsLowBits | src/algo/peach/peach.c:162-166 | the rounds depend on the opcode accumulator `op` only through `op & 7`: accumulators that agree modulo 8 give the same row. |
| TileGen.OperandsOf | src/algo/peach/peach.c:106-109 | each operand `i1..i4` is below 32 and equals byte 0, 4, 8 or 12 of the seed digest modulo 32, because the word's higher bytes are multiples of 256. |
| TileGen.Round | src/algo/peach/peach.c:162-227 | one round adds the row byte at `4t` to `op` (mod 2^32) and applies transform `op & 7` to the row only. |
| TileGen.TransformRow | src/algo/peach/peach.c:161-228 | the eight rounds change only the row, which becomes `Rounds` of it. The next row is untouched. |
| TileGen.TileRow | src/algo/peach/peach.c:113-228 | one outer iteration finishes its row from the row's seed, seeds the next row, keeps the rows before and after those two, and moves the cursor to the row end. |
| TileGen.FillRows | src/algo/peach/peach.c:113-229 | the outer loop leaves the chain of finished rows, each seeded by the previous row's float pass, and the cursor ends at `TILE`. |
| TileGen.GenerateTile | src/algo/peach/peach.c:86-232 | the tile window at `index * TILE` becomes `Tile(seed, index)`, whatever the map held. No byte outside that window changes. |
| TileCache.Fresh | src/algo/peach/peach.c:268-283 | the initial map has `MAP * TILE` bytes and no tile flagged. |
| TileCache.FreshCoherent | src/algo/peach/peach.c:274-283 | a zeroed map with no flags is coherent for any tiles. |
| TileCache.Generate | src/algo/peach/peach.c:81 | generating tile `index` writes `tile(index)` into its window and keeps the bytes before and after it. |
| TileCache.GetTile | src/algo/peach/peach.c:73-84 | a flagged tile comes back with nothing changed. Otherwise the tile is generated into its window, only that window changes, and its flag is set. Coherence is kept, and the returned window holds the tile. |
| TileCache.OthersKept | src/algo/peach/peach.c:81-83 | rewriting one tile's window leaves every other tile's window unchanged. |
| Protocol.OffsetIsProduct | src/algo/peach/peach.c:77 | the tile offset is `index * TILE`. |
| Protocol.TileInMap | src/algo/peach/peach.c:97 | every tile window lies inside the map, and the map fits 32-bit offsets. |
| Bytes.U32Bytes | src/algo/peach/peach.c:102 | the four bytes of a `uint32_t` in memory read back, little-endian, as that number. |
| IndexWalk.IndexMessage | src/algo/peach/peach.c:60-63 | the hashed message is the nonce, then `current_index` as four little-endian bytes plus the four stack bytes after it (`Env.indexPad` of that index), then the tile. |
| IndexWalk.IndexOfDigest | src/algo/peach/peach.c:67-70 | the index drawn from a digest is below `MAP`. |
| IndexWalk.IndexOfDigestHead | src/algo/peach/peach.c:67-68 | only the first eight bytes of the digest decide the index. |
| IndexWalk.NextIndex | src/algo/peach/peach.c:54-71 | `next_index` returns an index below `MAP`. It is the 32-bit sum of the first two little-endian words of the digest of the message, modulo `MAP`. |
| IndexWalk.WalkStep | src/algo/peach/peach.c:318-322 | the walk of `n + 1` hops is one `next_index` hop after the walk of `n` hops. |
| IndexWalk.IterateCompose | src/algo/peach/peach.c:318-322 | `a` steps then `b` steps is `a + b` steps. |
| IndexWalk.WalkCompose | src/algo/peach/peach.c:318-322 | `a` hops then `b` hops is `a + b` hops. |
| IndexWalk.WalkCongruent | src/algo/peach/peach.c:318-322 | two walks over the same tiles reach the same index, and it lies below `MAP`. |
| IndexWalk.ProductZero | src/algo/peach/peach.c:307-312 | a zero byte anywhere makes the byte product zero. |
| IndexWalk.ProductStep | src/algo/peach/peach.c:311 | `sm *= bt_hash[i]` in 32-bit arithmetic keeps `sm` equal to the product of the bytes so far, modulo 2^32. |
| IndexWalk.StartOf | src/algo/peach/peach.c:307-314 | the start index is below `MAP`. |
| IndexWalk.StartOfZero | src/algo/peach/peach.c:307-314 | a trailer hash with a zero byte always starts at tile 0. |
| IndexWalk.StartIndex | src/algo/peach/peach.c:307-314 | the loop computes the 32-bit product of the hash bytes, modulo `MAP`. It yields 0 whenever a byte is 0. |
| Peach.VerdictByPrefix | src/algo/peach/peach.c:303-305 | two trailers with the same previous block hash, nonce and hashed prefix get the same verdict: the bytes `bt_hash` leaves out do not matter. |
| Peach.SolvedWithMonotone | src/algo/peach/peach.c:324 | an attempt that solves difficulty `d` solves every lower difficulty. |
| Peach.OutcomeIs | src/algo/peach/peach.c:316-324 | the verdict of an attempt does not depend on how the tiles of the seed are represented. |
| Peach.OutcomeOfTiles | src/algo/peach/peach.c:316-324 | the verdict on a trailer is the attempt over the tiles `Tile` derives from its previous block hash. |
| Peach.CachedWindow | src/algo/peach/peach.c:75-78 | a flagged tile of a coherent cache is found at `map + index * TILE`. |
| Peach.HopOnce | src/algo/peach/peach.c:320 | `next_index` on the cached current tile takes the walk one hop further. |
| Peach.Hops | src/algo/peach/peach.c:318-322 | after `JUMP` hops the index reached is the walk's, its tile is cached at its offset, and the cache stays coherent. |
| Peach.Attempt | src/algo/peach/peach.c:303-324 | one attempt against any coherent cache gives the verdict of the attempt on the true tiles, and the cache stays coherent. |
| Peach.Validate | src/algo/peach/peach.c:253-367 | mode 1 returns 0 exactly when the trailer solves the difficulty truncated to a byte, and 1 otherwise. |
| Peach.WithNonce | src/algo/peach/peach.c:296-300 | mining changes the trailer's nonce only. |
| Peach.Search | src/algo/peach/peach.c:287-352 | the mining loop on a shared cache rejects the first `tried` nonces. Then either the next nonce solves or there are none left. |
| Peach.SearchVerdict | src/algo/peach/peach.c:333-351 | nonces the loop rejected fail validation, and the nonce it accepted passes it. |
| Peach.Mine | src/algo/peach/peach.c:253-367 | mode 0 returns 0 with the trailer carrying the first solving nonce and the number of attempts, and writes that number modulo 2^32 to `*hps` (line 346), leaving `*hps` alone otherwise. Its self-check passes exactly when the trailer solves with the stack bytes that the recursive call hashes, so it passes when those are the miner's. It returns 1 after trying every nonce, when none solves. |

## Left out

- SHA-256 is the uninterpreted function `Env.sha256`. Its streaming
  interface (`sha256_init`/`update`/`final`) is modelled as one hash of the
  concatenated message.
- The single-precision step is the uninterpreted function `Env.floatStep`
  (slot, exponent, index). This covers `isnan`, replacing NaN by
  `(float) index`, and `ldexpf`, because IEEE-754 arithmetic is not
  modelled. The byte-level part around it is modelled: selector bits, cursor
  moves, the exponent `mapp[k] >> 4`, the exponent sign flip, and negation as
  a flip of the sign bit.
- `next_index` passes `&current_index` with a length of 8, so four bytes of
  the caller's stack after the argument are hashed too. Their value is not
  defined by the C code. They are `Env.indexPad`, one value per index that
  stays fixed within one `peach` call.
- Peach.Mine: the self-check is a recursive `peach` call in its own stack
  frame, so its `next_index` may hash other stack bytes (`checkPad`). The
  model states its verdict for those bytes. It promises `check == 0` only
  when they equal the miner's (`checkPad == env.indexPad`), not for any
  stack contents.
- The trailer's memory layout (`BTSIZE - 4 - HASHLEN` bytes hashed) is
  `Env.trailerPrefix`. Only `phash`, `nonce` and the opaque rest are modelled.
- `trigg_gen` (haiku nonce generation) and `trigg_expand2`: mining takes the
  nonces to try as a sequence. The haiku text output is not modelled.
- The `Running` flag (SIGTERM): exhausting the nonce sequence stands for the
  signal. One case is not modelled: a signal arriving after a solve, which
  makes the driver return 1 at line 364.
- `printf`, `plog`, `Trace`, `time`, the elapsed time and the count of cached
  tiles are output only.
- Peach.Mine: the attempt counter `h` is a `uint64_t` in the C code and an
  unbounded natural here; the two differ only after 2^64 attempts. The
  count written to `word32 *hps` is modelled with its truncation
  (`hps`, which is `h` modulo 2^32 on a solution and the caller's value
  otherwise).
- `malloc` failure and `free` are left out, because allocation is not
  modelled. That path is `goto out` before any attempt. When the map
  allocation fails it also frees the uninitialised `cache` pointer and reads
  `solved` before its declaration is reached (lines 269-285).
- The concrete values of `TILE`, `MAP`, `JUMP` and `MAP_LENGTH` come from a
  header that is not part of this model. `TILE`, `MAP` and `JUMP` are
  abstract constants with the bounds the code relies on:
  - `TILE` is a whole number of 32-byte rows;
  - `MAP * TILE` fits 32 bits, so `index * TILE` never wraps.

  `MAP_LENGTH`, the size of the allocated and zeroed map, is taken to be
  exactly `MAP * TILE` (`TileCache.Fresh`). The code needs it to be at least
  that (lines 97, 269 and 274).
- Modes other than 0 and 1 are not modelled.
- The `int` cursors `i`, `j`, `k` of `generate_tile` are unbounded naturals.
  They never exceed `TILE`, and `Protocol.RowCount` bounds `TILE + 32` by
  2^31, so they fit a C `int`.

## Notes on the code

- **`next_index`.** It sums only the digest's first two 32-bit words
  (lines 67-68), and it hashes 8 bytes from `&current_index`, a 4-byte
  variable (line 62).
- **Float pass.** Each 4-byte slot is one single-precision float (lines
  124-147). A selector bit pair from the cursor byte picks the branch. The
  exponent comes from a high nibble, and there is an exponent-sign bit and a
  negation bit. A NaN is replaced by the index, and `ldexpf` is applied.
- **Operator precedence.** `z & 1 == 0` parses as `z & (1 == 0)`, which is
  always 0 (lines 189 and 195). So cases 3 and 4 add the same amount to every
  byte rather than alternating (`RowOps.AddAlternatingUniform`).
- **Next-row seed.** The next row is seeded from the hash of the current row
  right after its float pass, before its eight transform rounds (lines
  153-159 run before line 162).
- **Full map.** Both modes allocate and cache the full map of `MAP` tiles.
- **Counter width.** The leading-zero counter of `peach_eval` is a `byte`, so
  an all-zero digest counts 0, not 256 (`Eval.AllZeroDigestWraps`). The
  32-bit difficulty is truncated to its low byte (line 261).
- **Self-check result.** In mining mode a failed self-check is only printed
  (lines 337-338), and the call still returns 0.
- **Cancellation.** Cancellation returns 1, the same code as "not solved".
