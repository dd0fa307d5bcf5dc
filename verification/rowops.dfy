/** The eight byte transforms `generate_tile` applies to one 32-byte row,
    selected by `op & 7`, and the eight-round loop that applies them. Each
    transform is a function on the row alone, so none of them can touch a
    byte outside the row. */
module RowOps {
  import opened Bytes

  /** One 32-byte row of a tile. */
  type Row = s: seq<byte> | |s| == 32 witness seq(32, _ => 0)

  /** A byte position inside a row. */
  type Pos = x: nat | x < 32

  /** The operand positions `i1..i4` of a tile, each already reduced `% 32`. */
  datatype Operands = Operands(i1: Pos, i2: Pos, i3: Pos, i4: Pos)

  /** Case 0: XOR one byte with 0x81 (flipping its top and bottom bits) —
      the byte at `i1` when `i1` is even, otherwise the byte at `i2`. */
  function FlipOuterBits(row: Row, o: Operands): Row
  {
    var p := if o.i1 % 2 == 0 then o.i1 else o.i2;
    row[p := Xor8(row[p], 0x81)]
  }

  /** Case 1: exchange the first and the last byte of the row. */
  function SwapEnds(row: Row): Row
  {
    row[0 := row[31]][31 := row[0]]
  }

  /** Case 2: XOR the byte at `i3` into the byte at `i4`. */
  function XorPair(row: Row, o: Operands): Row
  {
    row[o.i4 := Xor8(row[o.i4], row[o.i3])]
  }

  /** The selector `(z & 1 == 0)` of cases 3 and 4 as C parses it: `==`
      binds tighter than `&`, so it is `z & (1 == 0)`, that is `z & 0`. */
  function ParsedEvenTest(z: Pos): bool
  {
    (z as bv8) & (if 1 == 0 then 1 else 0) != 0
  }

  /** Cases 3 and 4 as written: every byte gets `-amount` when the parsed
      selector holds and `+amount` otherwise, wrapping modulo 256. */
  function AddAlternating(row: Row, amount: int): Row
  {
    seq(32, z requires 0 <= z < 32 =>
      AddByte(row[z], if ParsedEvenTest(z) then -amount else amount))
  }

  /** Replace the byte at `p` by 72 ('H') when it is 104 ('h'). */
  function ReplaceAt(row: Row, p: Pos): Row
  {
    if row[p] == 104 then row[p := 72] else row
  }

  /** Case 5: replace 104 by 72 at `i1`, `i2`, `i3` and `i4`, in that order. */
  function ReplaceH(row: Row, o: Operands): Row
  {
    ReplaceAt(ReplaceAt(ReplaceAt(ReplaceAt(row, o.i1), o.i2), o.i3), o.i4)
  }

  /** Case 6: if the byte at `i1` exceeds the byte at `i3`, swap them. */
  function OrderPair(row: Row, o: Operands): Row
  {
    if row[o.i1] > row[o.i3] then row[o.i1 := row[o.i3]][o.i3 := row[o.i1]] else row
  }

  /** XOR of all bytes of `s` (0 for the empty string). */
  function XorFold(s: seq<byte>): byte
  {
    if |s| == 0 then 0 else Xor8(s[|s| - 1], XorFold(s[..|s| - 1]))
  }

  /** The in-place loop of case 7 from position `z` on:
      `row[z] ^= row[z - 1]` for `z` up to 31, each step reading the byte the
      previous step wrote. */
  function XorChainFrom(row: Row, z: nat): Row
    requires 1 <= z <= 32
    decreases 32 - z
  {
    if z == 32 then row else XorChainFrom(row[z := Xor8(row[z], row[z - 1])], z + 1)
  }

  /** Once positions below `z` hold the prefix XORs of `orig` and the rest
      still holds `orig`, finishing the loop yields all prefix XORs. */
  lemma {:induction false} XorChainFromMeaning(orig: Row, cur: Row, z: nat)
    requires 1 <= z <= 32
    requires forall m :: 0 <= m < z ==> cur[m] == XorFold(orig[..m + 1])
    requires forall m :: z <= m < 32 ==> cur[m] == orig[m]
    ensures forall m :: 0 <= m < 32 ==> XorChainFrom(cur, z)[m] == XorFold(orig[..m + 1])
    decreases 32 - z
  {
    if z < 32 {
      var next := cur[z := Xor8(cur[z], cur[z - 1])];
      assert orig[..z + 1][..z] == orig[..z];
      assert next[z] == XorFold(orig[..z + 1]);
      XorChainFromMeaning(orig, next, z + 1);
    }
  }

  /** Case 7 (default): the running XOR chain, `row[z] ^= row[z - 1]` for
      `z` from 1 to 31. */
  function XorChain(row: Row): Row
  {
    XorChainFrom(row, 1)
  }

  /** A round opcode, `op & 7`. */
  type Opcode = x: nat | x < 8

  /** The `switch (op & 7)` of round `t`. */
  function Transform(code: Opcode, row: Row, t: nat, o: Operands): Row
  {
    match code
    case 0 => FlipOuterBits(row, o)
    case 1 => SwapEnds(row)
    case 2 => XorPair(row, o)
    case 3 => AddAlternating(row, 1)
    case 4 => AddAlternating(row, t)
    case 5 => ReplaceH(row, o)
    case 6 => OrderPair(row, o)
    case _ => XorChain(row)
  }

  /** Rounds `t..7` of one row with the transform `step`: `op += row[t * 4]`,
      then `step` with opcode `op & 7`. */
  function RoundsBy(step: (Opcode, Row, nat) -> Row, row: Row, op: u32, t: nat): Row
    requires t <= 8
    decreases 8 - t
  {
    if t == 8 then row
    else
      var op' := Add32(op, row[4 * t]);
      RoundsBy(step, step(op' % 8, row, t), op', t + 1)
  }

  /** The `switch` of `generate_tile` as a function value. */
  function TransformFn(o: Operands): (Opcode, Row, nat) -> Row
  {
    (code, row, t) => Transform(code, row, t, o)
  }

  /** Rounds `t..7` of one row: `op += row[t * 4]`, then transform `op & 7`. */
  function Rounds(row: Row, op: u32, t: nat, o: Operands): Row
    requires t <= 8
  {
    RoundsBy(TransformFn(o), row, op, t)
  }

  /** `op += x` wraps modulo 2^32, a multiple of 8, so the low three bits of
      the sum depend only on the low three bits of `op`. */
  lemma Add32Low(op: u32, op': u32, x: byte)
    requires op % 8 == op' % 8
    ensures Add32(op, x) % 8 == Add32(op', x) % 8
  {
    Add32Mod8(op, x);
    Add32Mod8(op', x);
  }

  lemma Add32Mod8(op: u32, x: byte)
    ensures Add32(op, x) % 8 == (op % 8 + x) % 8
  {
    var r := op % 8;
    var q := op / 8;
    assert op == r + 8 * q;
    if op + x < 0x1_0000_0000 {
      assert Add32(op, x) == r + x + 8 * q;
    } else {
      assert Add32(op, x) == r + x + 8 * (q - 0x2000_0000);
    }
  }

  /** Only the low three bits of the opcode accumulator matter: accumulators
      that agree modulo 8 pick the same transforms in every round. */
  lemma RoundsLowBits(row: Row, op: u32, op': u32, t: nat, o: Operands)
    requires t <= 8 && op % 8 == op' % 8
    ensures Rounds(row, op, t, o) == Rounds(row, op', t, o)
  {
    RoundsByLowBits(TransformFn(o), row, op, op', t);
  }

  lemma {:induction false} RoundsByLowBits(step: (Opcode, Row, nat) -> Row, row: Row, op: u32, op': u32, t: nat)
    requires t <= 8 && op % 8 == op' % 8
    ensures RoundsBy(step, row, op, t) == RoundsBy(step, row, op', t)
    decreases 8 - t
  {
    if t < 8 {
      var a := Add32(op, row[4 * t]);
      var b := Add32(op', row[4 * t]);
      Add32Low(op, op', row[4 * t]);
      RoundsByLowBits(step, step(a % 8, row, t), a, b, t + 1);
    }
  }

  /** Case 0 changes exactly one byte, the one at `i1` when `i1` is even and
      at `i2` otherwise, by XOR with 0x81. */
  lemma FlipOuterBitsChangesOne(row: Row, o: Operands)
    ensures var p := if o.i1 % 2 == 0 then o.i1 else o.i2;
            && FlipOuterBits(row, o)[p] == Xor8(row[p], 0x81)
            && forall z :: 0 <= z < 32 ==> (FlipOuterBits(row, o)[z] != row[z] <==> z == p)
  {
    var p := if o.i1 % 2 == 0 then o.i1 else o.i2;
    Xor8Changes(row[p], 0x81);
  }

  /** Case 0 undoes itself. */
  lemma FlipOuterBitsInvolution(row: Row, o: Operands)
    ensures FlipOuterBits(FlipOuterBits(row, o), o) == row
  {
    var p := if o.i1 % 2 == 0 then o.i1 else o.i2;
    Xor8Twice(row[p], 0x81);
    assert FlipOuterBits(FlipOuterBits(row, o), o) == row[p := Xor8(Xor8(row[p], 0x81), 0x81)];
  }

  /** Case 1 exchanges the end bytes, keeps the middle, and permutes the row. */
  lemma SwapEndsSpec(row: Row)
    ensures SwapEnds(row)[0] == row[31] && SwapEnds(row)[31] == row[0]
    ensures forall z :: 0 < z < 31 ==> SwapEnds(row)[z] == row[z]
    ensures multiset(SwapEnds(row)) == multiset(row)
  {
  }

  /** Case 1 undoes itself. */
  lemma SwapEndsInvolution(row: Row)
    ensures SwapEnds(SwapEnds(row)) == row
  {
  }

  /** Case 2 changes only the byte at `i4`, into the XOR of the bytes at `i4`
      and `i3`; when the two positions coincide the byte becomes 0. */
  lemma XorPairSpec(row: Row, o: Operands)
    ensures forall z :: 0 <= z < 32 && z != o.i4 ==> XorPair(row, o)[z] == row[z]
    ensures XorPair(row, o)[o.i4] == Xor8(row[o.i4], row[o.i3])
    ensures o.i3 == o.i4 ==> XorPair(row, o)[o.i4] == 0
  {
    Xor8Self(row[o.i3]);
  }

  /** The parsed selector never holds, so cases 3 and 4 are uniform
      increments: every byte is raised by `amount`, wrapping modulo 256, and
      no byte is lowered. */
  lemma AddAlternatingUniform(row: Row, amount: int)
    ensures forall z :: 0 <= z < 32 ==> AddAlternating(row, amount)[z] == (row[z] + amount) % 256
  {
    forall z | 0 <= z < 32
      ensures AddAlternating(row, amount)[z] == (row[z] + amount) % 256
    {
      assert !ParsedEvenTest(z);
    }
  }

  /** Case 3 (and case 4 with `amount` = `t`) is undone by the same
      transform with the opposite amount. */
  lemma AddAlternatingInverse(row: Row, amount: int)
    ensures AddAlternating(AddAlternating(row, amount), -amount) == row
  {
    AddAlternatingUniform(row, amount);
    AddAlternatingUniform(AddAlternating(row, amount), -amount);
  }

  /** Case 5 leaves no 104 at `i1..i4`, and the only changes it makes are
      104 turning into 72 at those positions; every 104 there is replaced. */
  lemma ReplaceHSpec(row: Row, o: Operands)
    ensures var r := ReplaceH(row, o);
            && r[o.i1] != 104 && r[o.i2] != 104 && r[o.i3] != 104 && r[o.i4] != 104
            && (forall z :: 0 <= z < 32 && r[z] != row[z] ==>
                  && row[z] == 104 && r[z] == 72
                  && (z == o.i1 || z == o.i2 || z == o.i3 || z == o.i4))
            && (forall z :: (0 <= z < 32 && row[z] == 104 &&
                  (z == o.i1 || z == o.i2 || z == o.i3 || z == o.i4)) ==> r[z] == 72)
  {
  }

  /** Case 5 changes nothing the second time. */
  lemma ReplaceHIdempotent(row: Row, o: Operands)
    ensures ReplaceH(ReplaceH(row, o), o) == ReplaceH(row, o)
  {
  }

  /** Case 6 orders the pair at `i1`, `i3`, keeps every other byte, and
      permutes the row: the pair is either kept or exchanged. */
  lemma OrderPairSpec(row: Row, o: Operands)
    ensures var r := OrderPair(row, o);
            && r[o.i1] <= r[o.i3]
            && multiset(r) == multiset(row)
            && (forall z :: 0 <= z < 32 && z != o.i1 && z != o.i3 ==> r[z] == row[z])
            && ((r[o.i1] == row[o.i1] && r[o.i3] == row[o.i3])
                || (r[o.i1] == row[o.i3] && r[o.i3] == row[o.i1]))
  {
  }

  /** Case 6 changes nothing the second time. */
  lemma OrderPairIdempotent(row: Row, o: Operands)
    ensures OrderPair(OrderPair(row, o), o) == OrderPair(row, o)
  {
  }

  /** Case 7 keeps byte 0 and turns every byte `z` into the XOR of bytes
      `0..z` of the original row. */
  lemma XorChainPrefixXor(row: Row)
    ensures XorChain(row)[0] == row[0]
    ensures forall z :: 0 <= z < 32 ==> XorChain(row)[z] == XorFold(row[..z + 1])
  {
    assert row[..1] == [row[0]];
    assert XorFold(row[..1]) == Xor8(row[0], XorFold([]));
    Xor8Zero(row[0]);
    XorChainFromMeaning(row, row, 1);
  }
}
