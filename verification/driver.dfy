/** The `peach` driver. One attempt hashes the trailer, draws the start tile
    from that hash, hops `JUMP` times with `next_index`, and tests the last
    tile with `is_solution`. Mode 1 validates a trailer with one attempt on a
    fresh map; mode 0 mines, trying one nonce after another on a map whose
    tiles stay cached across attempts (every attempt shares the previous
    block hash, hence the tiles). */
module Peach {
  import opened Bytes
  import opened Protocol
  import opened Eval
  import opened TileCache
  import opened IndexWalk

  /** `bt_hash`: SHA-256 of the first `BTSIZE - 4 - HASHLEN` bytes of the
      trailer. Those bytes are `Env.trailerPrefix`; they carry the previous
      block hash and, by the trailer layout, end with the nonce. */
  function TrailerHash(bt: Trailer, env: Env): Digest
  {
    env.sha256(env.trailerPrefix(bt))
  }

  /** The index of the tile an attempt tests: `JUMP` hops from the start
      index of the trailer hash, through the tiles `tile` names. */
  ghost function LastIndex(tile: nat -> seq<byte>, bt: Trailer, env: Env): u32
  {
    Walk(tile, StartOf(TrailerHash(bt, env)), JUMP, bt.nonce, env)
  }

  /** An attempt on `bt` succeeds at 8-bit difficulty `diff`, the tiles being
      those `tile` names. */
  ghost predicate SolvedWith(tile: nat -> seq<byte>, bt: Trailer, diff: byte, env: Env)
  {
    Solved(env.sha256(TrailerHash(bt, env) + tile(LastIndex(tile, bt, env))), diff)
  }

  /** The verdict on `bt`: the attempt on the tiles of its previous block
      hash succeeds, however those tiles are named. */
  ghost predicate Outcome(bt: Trailer, diff: byte, env: Env)
  {
    forall tile :: Names(tile, bt.phash, env) ==> SolvedWith(tile, bt, diff, env)
  }

  /** Two namings of the tiles of one seed agree on every index of the map. */
  lemma NamesAgree(t1: nat -> seq<byte>, t2: nat -> seq<byte>, seed: Digest, env: Env)
    requires Names(t1, seed, env) && Names(t2, seed, env)
    ensures SameTiles(t1, t2)
  {
    forall index | 0 <= index < MAP
      ensures t1(index) == t2(index)
    {
      assert TileAt(t1, seed, index, env) && TileAt(t2, seed, index, env);
    }
  }

  /** The verdict does not depend on how the tiles are named. */
  lemma SolvedWithCongruent(t1: nat -> seq<byte>, t2: nat -> seq<byte>, bt: Trailer, diff: byte, env: Env)
    requires Names(t1, bt.phash, env) && Names(t2, bt.phash, env)
    ensures SolvedWith(t1, bt, diff, env) == SolvedWith(t2, bt, diff, env)
  {
    NamesAgree(t1, t2, bt.phash, env);
    WalkCongruent(t1, t2, StartOf(TrailerHash(bt, env)), JUMP, bt.nonce, env);
  }

  /** Any naming of the tiles decides the verdict. */
  lemma OutcomeIs(tile: nat -> seq<byte>, bt: Trailer, diff: byte, env: Env)
    requires Names(tile, bt.phash, env)
    ensures Outcome(bt, diff, env) <==> SolvedWith(tile, bt, diff, env)
  {
    forall t | Names(t, bt.phash, env)
      ensures SolvedWith(t, bt, diff, env) == SolvedWith(tile, bt, diff, env)
    {
      SolvedWithCongruent(t, tile, bt, diff, env);
    }
  }

  /** The verdict is that of the attempt on the tiles `Tile` derives. */
  lemma OutcomeOfTiles(bt: Trailer, diff: byte, env: Env)
    ensures Outcome(bt, diff, env) <==> SolvedWith(TileFn(bt.phash, env), bt, diff, env)
  {
    TileFnNames(bt.phash, env);
    OutcomeIs(TileFn(bt.phash, env), bt, diff, env);
  }

  /** Only the hashed prefix of the trailer, its previous block hash and its
      nonce decide the verdict: the trailer bytes left out of `bt_hash`
      change nothing. */
  lemma VerdictByPrefix(b1: Trailer, b2: Trailer, diff: byte, env: Env)
    requires b1.phash == b2.phash && b1.nonce == b2.nonce
    requires env.trailerPrefix(b1) == env.trailerPrefix(b2)
    ensures Outcome(b1, diff, env) <==> Outcome(b2, diff, env)
  {
    var tile := TileNames(b1.phash, env);
    OutcomeIs(tile, b1, diff, env);
    OutcomeIs(tile, b2, diff, env);
    assert TrailerHash(b1, env) == TrailerHash(b2, env);
  }

  /** Lowering the difficulty never turns a solved trailer into a failure. */
  lemma SolvedWithMonotone(tile: nat -> seq<byte>, bt: Trailer, d: byte, d': byte, env: Env)
    requires SolvedWith(tile, bt, d, env) && d' <= d
    ensures SolvedWith(tile, bt, d', env)
  {
    SolvedMonotone(env.sha256(TrailerHash(bt, env) + tile(LastIndex(tile, bt, env))), d, d');
  }

  /** The `JUMP` hops of one attempt, from a tile already in the cache: each
      hop reads the current tile, computes the next index and fetches that
      tile. The index reached is the walk's, its tile is in the cache, and
      the cache stays coherent. */
  method Hops(c: Cache, start: u32, nonce: Digest, seed: Digest, env: Env, ghost tile: nat -> seq<byte>)
    returns (c': Cache, sm: u32, out: nat)
    requires Coherent(c, tile) && Names(tile, seed, env)
    requires start < MAP && c.flags[start]
    ensures Coherent(c', tile) && sm < MAP && c'.flags[sm]
    ensures sm == Walk(tile, start, JUMP, nonce, env)
    ensures out == Offset(sm) && out + TILE <= |c'.tiles|
    ensures c'.tiles[out..out + TILE] == tile(sm)
  {
    c', sm := c, start;
    TileInMap(start);
    out := Offset(start);
    var j := 0;
    while j < JUMP
      invariant j <= JUMP
      invariant Coherent(c', tile) && sm < MAP && c'.flags[sm]
      invariant out == Offset(sm) && out + TILE <= |c'.tiles|
      invariant sm == Walk(tile, start, j, nonce, env)
    {
      var next := HopOnce(c', sm, out, nonce, env, tile, start, j);
      c', out := GetTile(c', next, seed, env, tile);
      sm := next;
      j := j + 1;
    }
    CachedWindow(c', sm, tile);
  }

  /** `next_index` on the current tile, read from the cache: the walk
      takes one more hop. */
  method HopOnce(c: Cache, sm: u32, out: nat, nonce: Digest, env: Env,
                 ghost tile: nat -> seq<byte>, ghost start: u32, ghost j: nat)
    returns (next: u32)
    requires Coherent(c, tile) && sm < MAP && c.flags[sm]
    requires out == Offset(sm) && out + TILE <= |c.tiles|
    requires sm == Walk(tile, start, j, nonce, env)
    ensures next < MAP && next == Walk(tile, start, j + 1, nonce, env)
  {
    CachedWindow(c, sm, tile);
    next := NextIndex(sm, c.tiles[out..out + TILE], nonce, env);
    WalkStep(tile, start, j, nonce, env);
  }

  /** A flagged tile of a coherent cache sits at its offset. */
  lemma CachedWindow(c: Cache, index: nat, tile: nat -> seq<byte>)
    requires Coherent(c, tile) && index < MAP && c.flags[index]
    ensures Offset(index) + TILE <= |c.tiles|
    ensures c.tiles[Offset(index)..Offset(index) + TILE] == tile(index)
  {
    TileInMap(index);
    assert Window(c.tiles, index) == tile(index);
  }

  /** One attempt on `bt` against a coherent cache. Whatever the cache
      holds, the verdict is that of the attempt on the tiles themselves, and
      the cache stays coherent. */
  method Attempt(c: Cache, bt: Trailer, diff: byte, env: Env, ghost tile: nat -> seq<byte>)
    returns (c': Cache, solved: bool)
    requires Coherent(c, tile) && Names(tile, bt.phash, env)
    ensures Coherent(c', tile)
    ensures solved == SolvedWith(tile, bt, diff, env)
  {
    var btHash := env.sha256(env.trailerPrefix(bt));
    var sm := StartIndex(btHash);
    var c1, _ := GetTile(c, sm, bt.phash, env, tile);
    var c2, last, out := Hops(c1, sm, bt.nonce, bt.phash, env, tile);
    solved := IsSolution(diff, c2.tiles[out..out + TILE], btHash, env);
    c' := c2;
  }

  /** Mode 1, validation: one attempt on a zeroed map with no tile cached.
      The 32-bit difficulty is truncated to its low byte. Returns 0 exactly
      when the trailer solves that difficulty, and 1 otherwise. */
  method Validate(bt: Trailer, difficulty: u32, env: Env) returns (r: int)
    ensures r == 0 || r == 1
    ensures r == 0 <==> Outcome(bt, difficulty % 256, env)
  {
    var diff: byte := difficulty % 256;
    ghost var tile := TileNames(bt.phash, env);
    FreshCoherent(tile);
    var _, solved := Attempt(Fresh(), bt, diff, env, tile);
    OutcomeIs(tile, bt, diff, env);
    r := if solved then 0 else 1;
  }

  /** The trailer `bt` carrying nonce `nonce`. */
  function WithNonce(bt: Trailer, nonce: Digest): (t: Trailer)
    ensures t.phash == bt.phash && t.fields == bt.fields && t.nonce == nonce
  {
    bt.(nonce := nonce)
  }

  /** Mode 0, mining: nonces are tried in the order given, each on the same
      map, until one solves. Running out of nonces stands for the stop
      signal, after which `peach` returns 1. On a solution it returns 0, the
      trailer carrying the first solving nonce, the number of attempts made,
      and the verdict of the in-context validation. That validation is a
      recursive `peach` call whose `next_index` may hash other stack bytes,
      `checkPad`; its verdict passes whenever those bytes are the miner's.
      The count is reported through `word32 *hps`: on a solution the caller's
      `hps0` is overwritten with `h` truncated to 32 bits, otherwise it is
      left as it was. */
  method Mine(bt: Trailer, difficulty: u32, nonces: seq<Digest>, env: Env, checkPad: u32 -> Slot, hps0: u32)
    returns (r: int, found: Trailer, h: nat, check: int, hps: u32)
    ensures r == 0 || r == 1
    ensures h <= |nonces|
    ensures h > 0 ==> found == WithNonce(bt, nonces[h - 1])
    ensures h == 0 ==> found == bt
    ensures r == 0 ==> h > 0 && Outcome(found, difficulty % 256, env)
    ensures r == 0 ==> (check == 0 <==> Outcome(found, difficulty % 256, env.(indexPad := checkPad)))
    ensures r == 0 && checkPad == env.indexPad ==> check == 0
    ensures forall k :: 0 <= k < h - 1 ==> !Outcome(WithNonce(bt, nonces[k]), difficulty % 256, env)
    ensures r == 1 ==> h == |nonces|
    ensures hps == if r == 0 then h % 0x1_0000_0000 else hps0
    ensures r == 1 ==> forall k :: 0 <= k < |nonces| ==> !Outcome(WithNonce(bt, nonces[k]), difficulty % 256, env)
  {
    var diff: byte := difficulty % 256;
    ghost var tile := TileNames(bt.phash, env);
    FreshCoherent(tile);
    var tried, solved := Search(Fresh(), bt, diff, nonces, env, tile);
    SearchVerdict(tile, bt, nonces, tried, solved, diff, env);
    if solved {
      found := WithNonce(bt, nonces[tried]);
      check := Validate(found, difficulty, env.(indexPad := checkPad));
      return 0, found, tried + 1, check, (tried + 1) % 0x1_0000_0000;
    }
    h := tried;
    found := if h > 0 then WithNonce(bt, nonces[h - 1]) else bt;
    return 1, found, h, 1, hps0;
  }

  /** The loop of mode 0 over the nonces, on a cache kept across attempts:
      `tried` nonces are rejected, and then either the next one solves or
      there is none left. */
  method Search(c0: Cache, bt: Trailer, diff: byte, nonces: seq<Digest>, env: Env, ghost tile: nat -> seq<byte>)
    returns (tried: nat, solved: bool)
    requires Coherent(c0, tile) && Names(tile, bt.phash, env)
    ensures tried <= |nonces|
    ensures forall k :: 0 <= k < tried ==> !SolvedWith(tile, WithNonce(bt, nonces[k]), diff, env)
    ensures solved ==> tried < |nonces| && SolvedWith(tile, WithNonce(bt, nonces[tried]), diff, env)
    ensures !solved ==> tried == |nonces|
  {
    var c := c0;
    tried := 0;
    while tried < |nonces|
      invariant tried <= |nonces| && Coherent(c, tile)
      invariant forall k :: 0 <= k < tried ==> !SolvedWith(tile, WithNonce(bt, nonces[k]), diff, env)
    {
      c, solved := Attempt(c, WithNonce(bt, nonces[tried]), diff, env, tile);
      if solved {
        return;
      }
      RejectOne(tile, bt, nonces, tried, diff, env);
      tried := tried + 1;
    }
    solved := false;
  }

  /** What the search found, as verdicts on the trailers: the nonces before
      `tried` fail, and the search succeeds exactly when some nonce solves,
      the one at `tried`. */
  lemma SearchVerdict(tile: nat -> seq<byte>, bt: Trailer, nonces: seq<Digest>, tried: nat, solved: bool, diff: byte, env: Env)
    requires Names(tile, bt.phash, env) && tried <= |nonces|
    requires forall k :: 0 <= k < tried ==> !SolvedWith(tile, WithNonce(bt, nonces[k]), diff, env)
    requires solved ==> tried < |nonces| && SolvedWith(tile, WithNonce(bt, nonces[tried]), diff, env)
    requires !solved ==> tried == |nonces|
    ensures forall k :: 0 <= k < tried ==> !Outcome(WithNonce(bt, nonces[k]), diff, env)
    ensures solved ==> Outcome(WithNonce(bt, nonces[tried]), diff, env)
  {
    NoneSolved(tile, bt, nonces, tried, diff, env);
    if solved {
      OutcomeIs(tile, WithNonce(bt, nonces[tried]), diff, env);
    }
  }

  /** Nonces rejected on one naming of the tiles are rejected outright. */
  lemma NoneSolved(tile: nat -> seq<byte>, bt: Trailer, nonces: seq<Digest>, n: nat, diff: byte, env: Env)
    requires n <= |nonces| && Names(tile, bt.phash, env)
    requires forall k :: 0 <= k < n ==> !SolvedWith(tile, WithNonce(bt, nonces[k]), diff, env)
    ensures forall k :: 0 <= k < n ==> !Outcome(WithNonce(bt, nonces[k]), diff, env)
  {
    forall k | 0 <= k < n
      ensures !Outcome(WithNonce(bt, nonces[k]), diff, env)
    {
      OutcomeIs(tile, WithNonce(bt, nonces[k]), diff, env);
    }
  }

  /** A nonce the attempt rejects extends the run of rejected nonces. */
  lemma RejectOne(tile: nat -> seq<byte>, bt: Trailer, nonces: seq<Digest>, h: nat, diff: byte, env: Env)
    requires h < |nonces|
    requires forall k :: 0 <= k < h ==> !SolvedWith(tile, WithNonce(bt, nonces[k]), diff, env)
    requires !SolvedWith(tile, WithNonce(bt, nonces[h]), diff, env)
    ensures forall k :: 0 <= k < h + 1 ==> !SolvedWith(tile, WithNonce(bt, nonces[k]), diff, env)
  {
  }
}
