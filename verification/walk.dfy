/** The tile indices of one attempt: the start index drawn from the trailer
    hash, and `next_index`, which hops from a tile to the next. */
module IndexWalk {
  import opened Bytes
  import opened Protocol

  /** The bytes `next_index` hashes: the nonce, then `current_index` passed
      with a length of 8 (its four little-endian bytes and the four bytes
      that follow it in memory), then the current tile. */
  function IndexMessage(cur: u32, tile: seq<byte>, nonce: Digest, env: Env): (m: seq<byte>)
    ensures |m| == 40 + |tile|
    ensures m[..32] == nonce && LE32(m[32..36]) == cur && m[36..40] == env.indexPad(cur) && m[40..] == tile
  {
    var m := nonce + U32Bytes(cur) + env.indexPad(cur) + tile;
    assert m[32..36] == U32Bytes(cur);
    m
  }

  /** The index a digest selects: its first two little-endian words summed
      in 32-bit arithmetic, then reduced `% MAP`. */
  function IndexOfDigest(h: Digest): (r: u32)
    ensures r < MAP
  {
    Add32(LE32(h[0..4]), LE32(h[4..8])) % MAP
  }

  /** Only the first eight bytes of the digest matter. */
  lemma IndexOfDigestHead(h1: Digest, h2: Digest)
    requires h1[..8] == h2[..8]
    ensures IndexOfDigest(h1) == IndexOfDigest(h2)
  {
    assert h1[0..4] == h1[..8][0..4] && h2[0..4] == h2[..8][0..4];
    assert h1[4..8] == h1[..8][4..8] && h2[4..8] == h2[..8][4..8];
  }

  /** `next_index`: hash the nonce, the index and the tile, and read the
      next index from the digest. */
  method NextIndex(cur: u32, tile: seq<byte>, nonce: Digest, env: Env) returns (index: u32)
    ensures index < MAP
    ensures index == IndexOfDigest(env.sha256(IndexMessage(cur, tile, nonce, env)))
  {
    var hash := env.sha256(nonce + U32Bytes(cur) + env.indexPad(cur) + tile);
    index := LE32(hash[0..4]);
    index := Add32(index, LE32(hash[4..8]));
    index := index % MAP;
  }

  /** One hop from `prev`: the index `next_index` computes from the tile of
      `prev`, as `tile` gives it. */
  function Hop(tile: nat -> seq<byte>, prev: u32, nonce: Digest, env: Env): (r: u32)
    ensures r < MAP
  {
    IndexOfDigest(env.sha256(IndexMessage(prev, tile(prev), nonce, env)))
  }

  /** `step` applied `n` times to `start`. */
  function Iterate(step: u32 -> u32, start: u32, n: nat): u32
  {
    if n == 0 then start else step(Iterate(step, start, n - 1))
  }

  /** Applying `step` `a` times and then `b` times is applying it `a + b`
      times. */
  lemma {:induction false} IterateCompose(step: u32 -> u32, start: u32, a: nat, b: nat)
    ensures Iterate(step, Iterate(step, start, a), b) == Iterate(step, start, a + b)
  {
    if b > 0 {
      IterateCompose(step, start, a, b - 1);
    }
  }

  /** `Hop` as a function value. */
  function HopFn(tile: nat -> seq<byte>, nonce: Digest, env: Env): u32 -> u32
  {
    prev => Hop(tile, prev, nonce, env)
  }

  /** `hop(prev)` is the hop from `prev`. */
  ghost predicate HopAt(hop: u32 -> u32, tile: nat -> seq<byte>, prev: u32, nonce: Digest, env: Env)
  {
    hop(prev) == Hop(tile, prev, nonce, env)
  }

  /** `hop` names the hops through `tile`, index by index. */
  ghost predicate HopsOf(hop: u32 -> u32, tile: nat -> seq<byte>, nonce: Digest, env: Env)
  {
    forall prev :: HopAt(hop, tile, prev, nonce, env)
  }

  lemma HopFnHops(tile: nat -> seq<byte>, nonce: Digest, env: Env)
    ensures HopsOf(HopFn(tile, nonce, env), tile, nonce, env)
  {
  }

  /** A name for the hops through `tile`. */
  ghost function HopName(tile: nat -> seq<byte>, nonce: Digest, env: Env): (hop: u32 -> u32)
    ensures HopsOf(hop, tile, nonce, env)
  {
    HopFnHops(tile, nonce, env);
    var hop :| HopsOf(hop, tile, nonce, env);
    hop
  }

  /** The index reached after `n` hops from `start`. The hops are taken
      through a name for `Hop`, so that the walk can be unrolled without
      unfolding `next_index` at every step. */
  ghost function Walk(tile: nat -> seq<byte>, start: u32, n: nat, nonce: Digest, env: Env): u32
  {
    Iterate(HopName(tile, nonce, env), start, n)
  }

  /** The walk grows one hop at a time. */
  lemma WalkStep(tile: nat -> seq<byte>, start: u32, n: nat, nonce: Digest, env: Env)
    ensures Walk(tile, start, n + 1, nonce, env) == Hop(tile, Walk(tile, start, n, nonce, env), nonce, env)
    ensures Walk(tile, start, 0, nonce, env) == start
  {
    var hop := HopName(tile, nonce, env);
    assert HopAt(hop, tile, Iterate(hop, start, n), nonce, env);
  }

  /** Hopping `a` times and then `b` times is hopping `a + b` times. */
  lemma WalkCompose(tile: nat -> seq<byte>, start: u32, a: nat, b: nat, nonce: Digest, env: Env)
    ensures Walk(tile, Walk(tile, start, a, nonce, env), b, nonce, env) == Walk(tile, start, a + b, nonce, env)
  {
    IterateCompose(HopName(tile, nonce, env), start, a, b);
  }

  /** `t1` and `t2` give the same tile for every index of the map. */
  ghost predicate SameTiles(t1: nat -> seq<byte>, t2: nat -> seq<byte>)
  {
    forall index :: 0 <= index < MAP ==> t1(index) == t2(index)
  }

  /** The walk stays inside the map and sees only the tiles of the map: two
      namings that agree there walk alike. */
  lemma {:induction false} WalkCongruent(t1: nat -> seq<byte>, t2: nat -> seq<byte>, start: u32, n: nat, nonce: Digest, env: Env)
    requires start < MAP && SameTiles(t1, t2)
    ensures Walk(t1, start, n, nonce, env) == Walk(t2, start, n, nonce, env) < MAP
  {
    if n > 0 {
      WalkCongruent(t1, t2, start, n - 1, nonce, env);
      var prev := Walk(t1, start, n - 1, nonce, env);
      WalkStep(t1, start, n - 1, nonce, env);
      WalkStep(t2, start, n - 1, nonce, env);
      assert t1(prev) == t2(prev);
    }
  }

  /** Product of all bytes of `s`, as a mathematical integer (1 for the
      empty string). */
  function Product(s: seq<byte>): nat
  {
    if |s| == 0 then 1 else Product(s[..|s| - 1]) * s[|s| - 1]
  }

  /** A zero byte anywhere makes the product zero. */
  lemma {:induction false} ProductZero(s: seq<byte>, z: nat)
    requires z < |s| && s[z] == 0
    ensures Product(s) == 0
  {
    if z < |s| - 1 {
      ProductZero(s[..|s| - 1], z);
    }
  }

  /** The start index as a function of the trailer hash: the product of
      its bytes, truncated to 32 bits, reduced `% MAP`. */
  function StartOf(h: Digest): (r: u32)
    ensures r < MAP
  {
    (Product(h) % 0x1_0000_0000) % MAP
  }

  /** The first byte alone is its own product. */
  lemma ProductFirst(s: seq<byte>)
    requires |s| > 0
    ensures Product(s[..1]) == s[0]
  {
    assert s[..1][..0] == [];
  }

  /** One step of the 32-bit product: multiplying the truncated product of
      `s[..i]` by `s[i]` in 32-bit arithmetic gives the truncated product of
      `s[..i + 1]`. */
  lemma ProductStep(s: seq<byte>, i: nat, sm: u32)
    requires i < |s| && sm == Product(s[..i]) % 0x1_0000_0000
    ensures Mul32(sm, s[i]) == Product(s[..i + 1]) % 0x1_0000_0000
  {
    assert s[..i + 1][..i] == s[..i];
    var p := Product(s[..i]);
    assert Product(s[..i + 1]) == p * s[i];
    MulMod32(p, s[i]);
  }

  /** Truncating before a multiplication does not change the truncated
      product. */
  lemma MulMod32(a: nat, b: nat)
    ensures ((a % 0x1_0000_0000) * b) % 0x1_0000_0000 == (a * b) % 0x1_0000_0000
  {
    var q, r := a / 0x1_0000_0000, a % 0x1_0000_0000;
    assert a * b == (q * b) * 0x1_0000_0000 + r * b by {
      assert a == q * 0x1_0000_0000 + r;
    }
    ShiftMod32(q * b, r * b);
  }

  lemma ShiftMod32(k: nat, x: nat)
    ensures (k * 0x1_0000_0000 + x) % 0x1_0000_0000 == x % 0x1_0000_0000
  {
  }

  /** The start-index loop of `peach`: `sm` starts as the first byte of the
      trailer hash, is multiplied by each further byte in 32-bit arithmetic,
      and is reduced `% MAP` at the end. The result is the true product of
      the bytes, truncated and reduced, so a single zero byte sends every
      such trailer to tile 0. */
  method StartIndex(btHash: Digest) returns (sm: u32)
    ensures sm == StartOf(btHash)
    ensures (exists z :: 0 <= z < 32 && btHash[z] == 0) ==> sm == 0
  {
    sm := 0;
    var i := 0;
    while i < HASHLEN
      invariant 0 <= i <= 32
      invariant i > 0 ==> sm == Product(btHash[..i]) % 0x1_0000_0000
    {
      if i == 0 {
        ProductFirst(btHash);
        sm := btHash[i];
      } else {
        ProductStep(btHash, i, sm);
        sm := Mul32(sm, btHash[i]);
      }
      i := i + 1;
    }
    assert btHash[..32] == btHash;
    sm := sm % MAP;
    if z :| 0 <= z < 32 && btHash[z] == 0 {
      StartOfZero(btHash, z);
    }
  }

  /** A zero byte in the trailer hash sends the attempt to tile 0. */
  lemma StartOfZero(h: Digest, z: nat)
    requires z < 32 && h[z] == 0
    ensures StartOf(h) == 0
  {
    ProductZero(h, z);
    ZeroReduces(Product(h));
  }

  lemma ZeroReduces(p: nat)
    requires p == 0
    ensures (p % 0x1_0000_0000) % MAP == 0
  {
  }
}
