/** `generate_tile`: the deterministic derivation of one tile from the seed
    (the previous block hash) and the tile index. The tile is filled row by
    row; each 32-byte row gets a float pass over its eight 4-byte slots, seeds
    the next row through SHA-256, and then goes through eight byte-transform
    rounds.

    `Tile` is the reference definition, written row by row without a cursor;
    `GenerateTile` follows the C loops, with the read cursor `k`, in-place
    updates of the tile window of the map, and the opcode accumulator `op`,
    and is proved to produce `Tile`. */
module TileGen {
  import opened Bytes
  import opened Protocol
  import opened RowOps

  /** `i1..i4`: the first four little-endian words of the tile's seed digest,
      each reduced `% HASHLEN`. Since 32 divides 256, each operand is decided
      by the low byte of its word alone: bytes 0, 4, 8 and 12 of the seed. */
  function OperandsOf(d: Digest): (o: Operands)
    ensures o.i1 == d[0] % 32 && o.i2 == d[4] % 32 && o.i3 == d[8] % 32 && o.i4 == d[12] % 32
  {
    LE32Low(d[0..4]);
    LE32Low(d[4..8]);
    LE32Low(d[8..12]);
    LE32Low(d[12..16]);
    Operands(LE32(d[0..4]) % 32, LE32(d[4..8]) % 32, LE32(d[8..12]) % 32, LE32(d[12..16]) % 32)
  }

  /** `exp ^= 0x80000000` on an `int` exponent in `[0, 16)`: setting the top
      bit of the 32-bit two's-complement value makes it `exp - 2^31`. */
  function SignFlipped(e: int): int
    requires 0 <= e < 16
  {
    e - 0x8000_0000
  }

  /** The exponent `mapp[x] >> 4`, sign-flipped when `flip` holds. */
  function Exponent(b: byte, flip: bool): int
  {
    if flip then SignFlipped(b / 16) else b / 16
  }

  /** `*floatp = -(*floatp)` on a little-endian IEEE-754 single: the sign
      bit, the top bit of the slot's last byte, is flipped. */
  function Negate(slot: Slot): Slot
  {
    slot[3 := Xor8(slot[3], 0x80)]
  }

  /** What the selector branches of one float slot hand to the
      single-precision step: the slot, negated or not, and the exponent. The
      bytes are read in the order the slot's first byte selects:
      - odd first byte: exponent from byte 1, exponent sign from byte 2,
        negation from byte 3;
      - bit 1 of the first byte set: exponent from byte 1, negation from
        byte 2, exponent sign from byte 3;
      - otherwise: negation from byte 1, exponent from byte 2, exponent sign
        from byte 3. */
  datatype Prepared = Prepared(slot: Slot, exp: int)

  function Prepare(slot: Slot): Prepared
  {
    if slot[0] % 2 == 1 then
      Prepared(if slot[3] % 2 == 1 then Negate(slot) else slot,
               Exponent(slot[1], slot[2] % 2 == 1))
    else if (slot[0] / 2) % 2 == 1 then
      Prepared(if slot[2] % 2 == 1 then Negate(slot) else slot,
               Exponent(slot[1], slot[3] % 2 == 1))
    else
      Prepared(if slot[1] % 2 == 1 then Negate(slot) else slot,
               Exponent(slot[2], slot[3] % 2 == 1))
  }

  /** One float slot: prepare it, then finish the float with the external
      single-precision step. */
  function SlotStep(slot: Slot, index: u32, env: Env): Slot
  {
    var p := Prepare(slot);
    env.floatStep(p.slot, p.exp, index)
  }

  /** `s` with the bytes from `at` on overwritten by `x`. */
  function Splice(s: seq<byte>, at: nat, x: seq<byte>): (r: seq<byte>)
    requires at + |x| <= |s|
    ensures |r| == |s|
  {
    s[..at] + x + s[at + |x|..]
  }

  /** The float pass over slots `s..7` of a row. */
  function FloatSlots(row: Row, s: nat, index: u32, env: Env): Row
    requires s <= 8
    decreases 8 - s
  {
    if s == 8 then row
    else FloatSlots(Splice(row, 4 * s, SlotStep(row[4 * s..4 * s + 4], index, env)), s + 1, index, env)
  }

  /** The opcode seed `op` after the float pass has visited slots `0..s-1`:
      the XOR of their first bytes. */
  function OpSeed(row: Row, s: nat): u32
    requires s <= 8
  {
    if s == 0 then 0 else Xor32(OpSeed(row, s - 1), row[4 * (s - 1)])
  }

  /** The seed of the row after a row that started as `row`: the digest of
      `row` after its float pass (before its byte transforms), followed by
      the index. */
  function NextSeed(row: Row, index: u32, env: Env): Row
  {
    env.sha256(FloatSlots(row, 0, index, env) + U32Bytes(index))
  }

  /** The final bytes of a row that started as `row`: its float pass, then
      the eight rounds, seeded by the XOR of the finished slot heads. */
  function FinishRow(row: Row, o: Operands, index: u32, env: Env): Row
  {
    var f := FloatSlots(row, 0, index, env);
    Rounds(f, OpSeed(f, 8), 0, o)
  }

  function NextSeedFn(index: u32, env: Env): Row -> Row
  {
    row => NextSeed(row, index, env)
  }

  function FinishFn(o: Operands, index: u32, env: Env): Row -> Row
  {
    row => FinishRow(row, o, index, env)
  }

  /** The seed of row `r` in a chain of rows that starts at `first`, each
      row seeding the next through `next`. */
  function ChainSeed(first: Row, next: Row -> Row, r: nat): Row
  {
    if r == 0 then first else next(ChainSeed(first, next, r - 1))
  }

  /** The first `n` rows of that chain, each finished by `finish`,
      concatenated. */
  function ChainRows(first: Row, next: Row -> Row, finish: Row -> Row, n: nat): (t: seq<byte>)
    ensures |t| == 32 * n
  {
    if n == 0 then [] else ChainRows(first, next, finish, n - 1) + finish(ChainSeed(first, next, n - 1))
  }

  /** The seed of row 0: the digest of the seed followed by the index. */
  function FirstRow(seed: Digest, index: u32, env: Env): Row
  {
    env.sha256(seed + U32Bytes(index))
  }

  /** The tile for `index` under `seed`: a function of the two alone. */
  function Tile(seed: Digest, index: u32, env: Env): (t: seq<byte>)
    ensures |t| == TILE
  {
    var first := FirstRow(seed, index, env);
    ChainRows(first, NextSeedFn(index, env), FinishFn(OperandsOf(first), index, env), ROWS)
  }

  /** `next` seeds the row after `row` as `generate_tile` does. */
  ghost predicate NextIs(next: Row -> Row, row: Row, index: u32, env: Env)
  {
    next(row) == NextSeed(row, index, env)
  }

  /** `finish` finishes `row` as `generate_tile` does. */
  ghost predicate FinishIs(finish: Row -> Row, row: Row, o: Operands, index: u32, env: Env)
  {
    finish(row) == FinishRow(row, o, index, env)
  }

  lemma RowFnsAre(o: Operands, index: u32, env: Env)
    ensures forall x :: NextIs(NextSeedFn(index, env), x, index, env)
    ensures forall x :: FinishIs(FinishFn(o, index, env), x, o, index, env)
  {
  }

  lemma SpliceFacts(s: seq<byte>, at: nat, x: seq<byte>)
    requires at + |x| <= |s|
    ensures Splice(s, at, x)[..at] == s[..at]
    ensures Splice(s, at, x)[at + |x|..] == s[at + |x|..]
    ensures Splice(s, at, x)[at..at + |x|] == x
  {
  }

  /** Overwriting a slot inside a row of the tile is overwriting that slot
      of the row. */
  lemma SpliceInRow(s: seq<byte>, i: nat, j: nat, x: Slot)
    requires i <= j && j + 4 <= i + 32 <= |s|
    ensures Splice(s, j, x)[..i] == s[..i]
    ensures s[i..i + 32][j - i..j - i + 4] == s[j..j + 4]
    ensures Splice(s, j, x)[i..i + 32] == Splice(s[i..i + 32], j - i, x)
    ensures Splice(s, j, x)[i + 32..] == s[i + 32..]
  {
    var r := Splice(s, j, x);
    var row := Splice(s[i..i + 32], j - i, x);
    var inRow, direct := s[i..i + 32][j - i..j - i + 4], s[j..j + 4];
    assert forall n :: 0 <= n < 4 ==> inRow[n] == direct[n];
    forall n | 0 <= n < 32
      ensures r[i..i + 32][n] == row[n]
    {
      if n < j - i {
        assert r[i + n] == s[i + n];
      } else if n < j - i + 4 {
        assert r[i + n] == x[n - (j - i)];
      } else {
        assert r[i + n] == s[i + n];
      }
    }
  }

  lemma {:induction false} OpSeedPrefix(a: Row, b: Row, s: nat)
    requires s <= 8 && a[..4 * s] == b[..4 * s]
    ensures OpSeed(a, s) == OpSeed(b, s)
  {
    if s > 0 {
      assert a[..4 * (s - 1)] == a[..4 * s][..4 * (s - 1)];
      assert b[..4 * (s - 1)] == b[..4 * s][..4 * (s - 1)];
      assert a[4 * (s - 1)] == a[..4 * s][4 * (s - 1)];
      assert b[4 * (s - 1)] == b[..4 * s][4 * (s - 1)];
      OpSeedPrefix(a, b, s - 1);
    }
  }

  /** The selector branches of the float loop for the slot at `j`, reading
      the selector and operand bytes through the cursor `k` exactly as the C
      code does: the cursor moves on by four whichever branch is taken, at
      most the slot's sign bit changes, and when the cursor starts at `j` the
      slot and exponent are those `Prepare` describes. */
  method SelectSlot(mapp: seq<byte>, j: nat, k: nat) returns (m: seq<byte>, k': nat, exp: int)
    requires j + 4 <= |mapp| && k + 4 <= |mapp|
    ensures k' == k + 4
    ensures m == mapp || m == mapp[j + 3 := Xor8(mapp[j + 3], 0x80)]
    ensures k == j ==> m[j..j + 4] == Prepare(mapp[j..j + 4]).slot
    ensures k == j ==> exp == Prepare(mapp[j..j + 4]).exp
  {
    m := mapp;
    var c := k;
    ghost var orig := mapp[j..j + 4];
    ghost var negated := mapp[j + 3 := Xor8(mapp[j + 3], 0x80)];
    if m[c] % 2 == 1 {
      c := c + 1;
      exp := m[c] / 16;
      c := c + 1;
      exp := if m[c] % 2 == 1 then SignFlipped(exp) else exp;
      c := c + 1;
      m := if m[c] % 2 == 1 then m[j + 3 := Xor8(m[j + 3], 0x80)] else m;
      c := c + 1;
      assert k == j ==> orig[0] % 2 == 1;
      assert k == j ==> exp == Exponent(orig[1], orig[2] % 2 == 1);
      assert k == j ==> m == if orig[3] % 2 == 1 then negated else mapp;
    } else if (m[c] / 2) % 2 == 1 {
      c := c + 1;
      exp := m[c] / 16;
      c := c + 1;
      m := if m[c] % 2 == 1 then m[j + 3 := Xor8(m[j + 3], 0x80)] else m;
      c := c + 1;
      Xor8SignBitParity(mapp[j + 3]);
      assert k == j ==> m[c] % 2 == orig[3] % 2;
      exp := if m[c] % 2 == 1 then SignFlipped(exp) else exp;
      c := c + 1;
      assert k == j ==> orig[0] % 2 == 0 && (orig[0] / 2) % 2 == 1;
      assert k == j ==> exp == Exponent(orig[1], orig[3] % 2 == 1);
      assert k == j ==> m == if orig[2] % 2 == 1 then negated else mapp;
    } else {
      c := c + 1;
      m := if m[c] % 2 == 1 then m[j + 3 := Xor8(m[j + 3], 0x80)] else m;
      c := c + 1;
      exp := m[c] / 16;
      c := c + 1;
      Xor8SignBitParity(mapp[j + 3]);
      assert k == j ==> m[c] % 2 == orig[3] % 2;
      exp := if m[c] % 2 == 1 then SignFlipped(exp) else exp;
      c := c + 1;
      assert k == j ==> orig[0] % 2 == 0 && (orig[0] / 2) % 2 == 0;
      assert k == j ==> exp == Exponent(orig[2], orig[3] % 2 == 1);
      assert k == j ==> m == if orig[1] % 2 == 1 then negated else mapp;
    }
    NegateInPlace(mapp, j);
    k' := c;
  }

  /** The body of the float loop for the slot at `j`: the selector branches,
      then the single-precision step on the slot. Only the slot's four bytes
      change, and when the cursor starts at `j` the slot ends up as
      `SlotStep` of its old bytes. */
  method FloatSlot(mapp: seq<byte>, j: nat, k: nat, index: u32, env: Env)
    returns (mapp': seq<byte>, k': nat)
    requires j + 4 <= |mapp| && k + 4 <= |mapp|
    ensures k' == k + 4
    ensures |mapp'| == |mapp|
    ensures mapp'[..j] == mapp[..j] && mapp'[j + 4..] == mapp[j + 4..]
    ensures k == j ==> mapp' == Splice(mapp, j, SlotStep(mapp[j..j + 4], index, env))
  {
    var m, c, exp := SelectSlot(mapp, j, k);
    assert |m| == |mapp|;
    assert m[..j] == mapp[..j] && m[j + 4..] == mapp[j + 4..];
    var fin := env.floatStep(m[j..j + 4], exp, index);
    SpliceSlotChanged(mapp, m, j, fin);
    mapp' := Splice(m, j, fin);
    k' := c;
  }

  /** Negating the float in place flips the sign bit in the slot's last byte
      and nothing else. */
  lemma NegateInPlace(s: seq<byte>, j: nat)
    requires j + 4 <= |s|
    ensures s[j + 3 := Xor8(s[j + 3], 0x80)][j..j + 4] == Negate(s[j..j + 4])
  {
  }

  /** Overwriting a slot makes earlier changes inside it irrelevant. */
  lemma SpliceSlotChanged(s: seq<byte>, t: seq<byte>, j: nat, x: Slot)
    requires j + 4 <= |s| == |t|
    requires t[..j] == s[..j] && t[j + 4..] == s[j + 4..]
    ensures Splice(t, j, x) == Splice(s, j, x)
    ensures Splice(t, j, x)[..j] == s[..j] && Splice(t, j, x)[j + 4..] == s[j + 4..]
  {
  }

  /** The float loop of one row starting at `i`, entered with the cursor
      `k` at `i`: the cursor keeps pace with the slot offset `j` and leaves
      at the end of the row, every slot of the row gets its float step,
      nothing outside the row changes, and `op` ends as the XOR of the row's
      finished slot heads. */
  method FloatRow(mapp: seq<byte>, i: nat, k0: nat, index: u32, env: Env) returns (mapp': seq<byte>, op: u32, k: nat)
    requires i + 32 <= |mapp| && k0 == i
    ensures k == i + 32
    ensures |mapp'| == |mapp|
    ensures mapp'[..i] == mapp[..i] && mapp'[i + 32..] == mapp[i + 32..]
    ensures mapp'[i..i + 32] == FloatSlots(mapp[i..i + 32], 0, index, env)
    ensures op == OpSeed(mapp'[i..i + 32], 8)
  {
    mapp' := mapp;
    op := 0;
    var j := i;
    k := k0;
    ghost var s := 0;
    while j < i + 32
      invariant s <= 8 && j == i + 4 * s
      invariant k == j
      invariant |mapp'| == |mapp|
      invariant mapp'[..i] == mapp[..i] && mapp'[i + 32..] == mapp[i + 32..]
      invariant FloatSlots(mapp'[i..i + 32], s, index, env) == FloatSlots(mapp[i..i + 32], 0, index, env)
      invariant op == OpSeed(mapp'[i..i + 32], s)
      decreases 8 - s
    {
      var next, k2 := FloatRowSlot(mapp', i, s, k, index, env);
      mapp', k := next, k2;
      op := Xor32(op, mapp'[j]);
      j := j + 4;
      s := s + 1;
    }
  }

  /** One iteration of the float loop, on slot `s` of the row at `i` with
      the cursor at the slot: the row's float pass advances by one slot, the
      opcode seed by the slot's finished head byte, and the cursor by four. */
  method FloatRowSlot(m: seq<byte>, i: nat, ghost s: nat, k: nat, index: u32, env: Env)
    returns (next: seq<byte>, k': nat)
    requires s < 8 && i + 32 <= |m| && k == i + 4 * s
    ensures k' == k + 4
    ensures |next| == |m|
    ensures next[..i] == m[..i] && next[i + 32..] == m[i + 32..]
    ensures FloatSlots(next[i..i + 32], s + 1, index, env) == FloatSlots(m[i..i + 32], s, index, env)
    ensures OpSeed(next[i..i + 32], s + 1) == Xor32(OpSeed(m[i..i + 32], s), next[k])
  {
    next, k' := FloatSlot(m, k, k, index, env);
    FloatRowStep(m, next, i, s, index, env);
  }

  /** One iteration of the float loop seen from the row: the slot at `j`
      (slot `s` of the row at `i`) gets its float step, which advances the
      row's float pass by one slot and extends the opcode seed by the slot's
      finished head byte. */
  lemma FloatRowStep(m: seq<byte>, next: seq<byte>, i: nat, s: nat, index: u32, env: Env)
    requires s < 8 && i + 32 <= |m|
    requires next == Splice(m, i + 4 * s, SlotStep(m[i + 4 * s..i + 4 * s + 4], index, env))
    ensures next[..i] == m[..i] && next[i + 32..] == m[i + 32..]
    ensures FloatSlots(next[i..i + 32], s + 1, index, env) == FloatSlots(m[i..i + 32], s, index, env)
    ensures OpSeed(next[i..i + 32], s + 1) == Xor32(OpSeed(m[i..i + 32], s), next[i + 4 * s])
  {
    var j := i + 4 * s;
    var row: Row := m[i..i + 32];
    var row2: Row := next[i..i + 32];
    SpliceInRow(m, i, j, SlotStep(m[j..j + 4], index, env));
    assert row2 == Splice(row, 4 * s, SlotStep(row[4 * s..4 * s + 4], index, env));
    assert row2[..4 * s] == row[..4 * s];
    OpSeedPrefix(row, row2, s);
    assert row2[4 * s] == next[j];
  }

  /** The eight transform rounds of the row at `i`: the opcode accumulator
      picks each round's transform, and only the row changes. */
  method TransformRow(mapp: seq<byte>, i: nat, op0: u32, o: Operands) returns (mapp': seq<byte>)
    requires i + 32 <= |mapp|
    ensures |mapp'| == |mapp|
    ensures mapp'[..i] == mapp[..i] && mapp'[i + 32..] == mapp[i + 32..]
    ensures mapp'[i..i + 32] == Rounds(RowAt(mapp, i), op0, 0, o)
    ensures i + 64 <= |mapp| ==> mapp'[i + 32..i + 64] == mapp[i + 32..i + 64]
  {
    mapp' := mapp;
    var op := op0;
    var t := 0;
    while t < 8
      invariant 0 <= t <= 8
      invariant |mapp'| == |mapp|
      invariant mapp'[..i] == mapp[..i] && mapp'[i + 32..] == mapp[i + 32..]
      invariant Rounds(RowAt(mapp', i), op, t, o) == Rounds(RowAt(mapp, i), op0, 0, o)
    {
      mapp', op := Round(mapp', i, op, t, o);
      t := t + 1;
    }
    if i + 64 <= |mapp| {
      assert mapp'[i + 32..i + 64] == mapp'[i + 32..][..32];
      assert mapp[i + 32..i + 64] == mapp[i + 32..][..32];
    }
  }

  /** Round `t` of the row at `i`: `op += mapp[i + t * 4]`, then the
      transform `op & 7` on the row; nothing outside the row changes. */
  method Round(mapp: seq<byte>, i: nat, op: u32, t: nat, o: Operands) returns (mapp': seq<byte>, op': u32)
    requires t < 8 && i + 32 <= |mapp|
    ensures |mapp'| == |mapp|
    ensures mapp'[..i] == mapp[..i] && mapp'[i + 32..] == mapp[i + 32..]
    ensures op' == Add32(op, RowAt(mapp, i)[4 * t])
    ensures RowAt(mapp', i) == Transform(op' % 8, RowAt(mapp, i), t, o)
  {
    op' := Add32(op, mapp[i + 4 * t]);
    var changed := Transform(op' % 8, RowAt(mapp, i), t, o);
    SpliceFacts(mapp, i, changed);
    mapp' := Splice(mapp, i, changed);
  }

  /** The row at offset `i` of `s`. */
  function RowAt(s: seq<byte>, i: nat): Row
    requires i + 32 <= |s|
  {
    s[i..i + 32]
  }

  /** One pass of the outer loop of `generate_tile` on the row at `i`:
      the float loop, the hash that seeds the row after it (when there is
      one), and the eight rounds. The row comes out finished, the next row
      holds its seed, and the rows before are left alone. */
  method TileRow(mapp: seq<byte>, i: nat, k: nat, index: u32, env: Env, o: Operands,
                 ghost next: Row -> Row, ghost finish: Row -> Row)
    returns (mapp': seq<byte>, k': nat)
    requires i + 32 <= |mapp| && (i + 32 < |mapp| ==> i + 64 <= |mapp|) && k == i
    ensures k' == i + 32
    requires forall x :: NextIs(next, x, index, env)
    requires forall x :: FinishIs(finish, x, o, index, env)
    ensures |mapp'| == |mapp| && mapp'[..i] == mapp[..i]
    ensures mapp'[i..i + 32] == finish(RowAt(mapp, i))
    ensures i + 64 <= |mapp| ==> mapp'[i + 32..i + 64] == next(RowAt(mapp, i))
    ensures i + 64 <= |mapp| ==> mapp'[i + 64..] == mapp[i + 64..]
  {
    var floated, op;
    floated, op, k' := FloatRow(mapp, i, k, index, env);
    var seeded := SeedNextRow(floated, i, index, env);
    mapp' := TransformRow(seeded, i, op, o);
    ghost var row := RowAt(mapp, i);
    assert NextIs(next, row, index, env);
    assert FinishIs(finish, row, o, index, env);
    if i + 64 <= |mapp| {
      assert mapp'[i + 64..] == mapp'[i + 32..][32..] == seeded[i + 32..][32..] == seeded[i + 64..];
      assert floated[i + 64..] == floated[i + 32..][32..] == mapp[i + 32..][32..] == mapp[i + 64..];
    }
  }

  /** The tile window after the outer loop has finished rows `0..r-1`, which
      end at offset `i`: those rows hold their final bytes and row `r`, if
      there is one, holds its seed. */
  ghost predicate Filled(mapp: seq<byte>, i: nat, r: nat, first: Row, next: Row -> Row, finish: Row -> Row)
  {
    && |mapp| == TILE && i == 32 * r && r <= ROWS
    && mapp[..i] == ChainRows(first, next, finish, r)
    && (r < ROWS ==> RowAt(mapp, i) == ChainSeed(first, next, r))
  }

  /** Finishing row `r` from its seed, and seeding the row after it, moves
      the filled prefix on by one row. */
  lemma RowDone(mapp: seq<byte>, done: seq<byte>, i: nat, r: nat,
                first: Row, next: Row -> Row, finish: Row -> Row)
    requires i < TILE && Filled(mapp, i, r, first, next, finish)
    requires |done| == TILE && done[..i] == mapp[..i]
    requires done[i..i + 32] == finish(RowAt(mapp, i))
    requires i + 64 <= TILE ==> done[i + 32..i + 64] == next(RowAt(mapp, i))
    ensures Filled(done, i + 32, r + 1, first, next, finish)
  {
    TakeSplit(done, i, i + 32);
  }

  lemma TakeSplit(s: seq<byte>, i: nat, j: nat)
    requires i <= j <= |s|
    ensures s[..j] == s[..i] + s[i..j]
  {
  }

  /** `if (j < TILE)`: hash the row at `i`, followed by the index, into the
      row after it, when there is one; nothing else changes. */
  method SeedNextRow(mapp: seq<byte>, i: nat, index: u32, env: Env) returns (mapp': seq<byte>)
    requires i + 32 <= |mapp| && (i + 32 < |mapp| ==> i + 64 <= |mapp|)
    ensures |mapp'| == |mapp|
    ensures mapp'[..i] == mapp[..i] && mapp'[i..i + 32] == mapp[i..i + 32]
    ensures i + 64 <= |mapp| ==> mapp'[i + 32..i + 64] == env.sha256(mapp[i..i + 32] + U32Bytes(index))
    ensures i + 64 <= |mapp| ==> mapp'[i + 64..] == mapp[i + 64..]
  {
    mapp' := mapp;
    var j := i + 32;
    if j < |mapp| {
      var next := env.sha256(mapp[i..i + 32] + U32Bytes(index));
      SpliceFacts(mapp, j, next);
      mapp' := Splice(mapp, j, next);
      assert mapp'[..i] == mapp'[..j][..i];
      assert mapp'[i..i + 32] == mapp'[..j][i..i + 32];
    }
  }

  /** The outer loop of `generate_tile` over a tile window whose first row
      holds `first`, with `next` and `finish` doing what the loop body does
      to a row: every row comes out finished. */
  method FillRows(mapp0: seq<byte>, index: u32, env: Env, o: Operands,
                  ghost first: Row, ghost next: Row -> Row, ghost finish: Row -> Row)
    returns (mapp: seq<byte>, k: nat)
    requires |mapp0| == TILE && mapp0[..32] == first
    requires forall x :: NextIs(next, x, index, env)
    requires forall x :: FinishIs(finish, x, o, index, env)
    ensures mapp == ChainRows(first, next, finish, ROWS)
    ensures k == TILE
  {
    mapp := mapp0;
    var i := 0;
    k := 0;
    ghost var r := 0;
    assert RowAt(mapp, 0) == mapp[..32];
    while i < TILE
      invariant Filled(mapp, i, r, first, next, finish)
      invariant k == i
      decreases TILE - i
    {
      var done;
      done, k := TileRow(mapp, i, k, index, env, o, next, finish);
      RowDone(mapp, done, i, r, first, next, finish);
      mapp := done;
      i := i + 32;
      r := r + 1;
    }
    assert mapp == mapp[..TILE];
  }

  /** `generate_tile` as written, on the tile's window `tiles[index * TILE ..
      index * TILE + TILE)` of the map's bytes `tiles`: seed the first row,
      read `i1..i4`, then fill the rows. Every write stays in the tile's
      window, and the tile comes out as `Tile(seed, index)` whatever the map
      held before. */
  method GenerateTile(tiles: seq<byte>, index: u32, seed: Digest, env: Env)
    returns (tiles': seq<byte>, out: nat)
    requires |tiles| == MAP * TILE && index < MAP
    ensures out == Offset(index) && out + TILE <= |tiles|
    ensures |tiles'| == |tiles|
    ensures tiles'[..out] == tiles[..out] && tiles'[out + TILE..] == tiles[out + TILE..]
    ensures tiles'[out..out + TILE] == Tile(seed, index, env)
  {
    TileInMap(index);
    OffsetIsProduct(index);
    var base := index * TILE;
    var mapp := tiles[base..base + TILE];
    var first := env.sha256(seed + U32Bytes(index));
    SpliceFacts(mapp, 0, first);
    mapp := Splice(mapp, 0, first);
    var o := OperandsOf(mapp[..32]);
    RowFnsAre(o, index, env);
    var k;
    mapp, k := FillRows(mapp, index, env, o, first, NextSeedFn(index, env), FinishFn(o, index, env));
    tiles' := Splice(tiles, base, mapp);
    SpliceFacts(tiles, base, mapp);
    out := base;
  }
}
