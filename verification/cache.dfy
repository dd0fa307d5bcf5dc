/** `get_tile`: the tile map and its cache flags. Tiles are generated on
    first use into their window of the map and flagged; a flagged tile is
    served from the map as it stands.

    The members here take the tiles of the current seed as a ghost function
    `tile`, tied to `Tile` pointwise by `Names`: `tile(index)` stands for
    `Tile(seed, index)`, and only `Generate` looks behind that name. */
module TileCache {
  import opened Bytes
  import opened Protocol
  import opened TileGen

  /** The map of `MAP` tiles, `TILE` bytes each, and one flag per tile
      (`cache[index]` in the C code). */
  datatype Cache = Cache(tiles: seq<byte>, flags: seq<bool>)

  ghost predicate Wf(c: Cache)
  {
    |c.tiles| == MAP * TILE && |c.flags| == MAP
  }

  /** The window of tile `index` in the map's bytes. */
  function Window(tiles: seq<byte>, index: nat): seq<byte>
    requires |tiles| == MAP * TILE && index < MAP
  {
    TileInMap(index);
    tiles[Offset(index)..Offset(index) + TILE]
  }

  /** `tile(index)` is the tile `seed` derives for `index`. */
  ghost predicate TileAt(tile: nat -> seq<byte>, seed: Digest, index: nat, env: Env)
  {
    index < MAP ==> tile(index) == Tile(seed, index, env)
  }

  /** `tile` names the tiles of `seed`, index by index. */
  ghost predicate Names(tile: nat -> seq<byte>, seed: Digest, env: Env)
  {
    forall index :: TileAt(tile, seed, index, env)
  }

  /** The tile `seed` derives for `index`, for every index of the map. */
  function TileOrEmpty(seed: Digest, env: Env, index: nat): seq<byte>
  {
    if index < MAP then Tile(seed, index, env) else []
  }

  /** The tiles of `seed`, as a function value. */
  function TileFn(seed: Digest, env: Env): nat -> seq<byte>
  {
    index => TileOrEmpty(seed, env, index)
  }

  lemma TileFnNames(seed: Digest, env: Env)
    ensures Names(TileFn(seed, env), seed, env)
  {
  }

  /** A name for the tiles of `seed`, behind which `Tile` stays folded. */
  ghost function TileNames(seed: Digest, env: Env): (tile: nat -> seq<byte>)
    ensures Names(tile, seed, env)
  {
    assert Names(TileFn(seed, env), seed, env);
    var tile :| Names(tile, seed, env);
    tile
  }

  /** Every flagged tile holds its tile. */
  ghost predicate Coherent(c: Cache, tile: nat -> seq<byte>)
  {
    && Wf(c)
    && forall index :: 0 <= index < MAP && c.flags[index] ==> Window(c.tiles, index) == tile(index)
  }

  /** The state `peach` starts from: a zeroed map and no tile flagged. */
  function Fresh(): (c: Cache)
    ensures Wf(c) && forall index :: 0 <= index < MAP ==> !c.flags[index]
  {
    Cache(seq(MAP * TILE, _ => 0), seq(MAP, _ => false))
  }

  /** A fresh cache is coherent whatever the tiles. */
  lemma FreshCoherent(tile: nat -> seq<byte>)
    ensures Coherent(Fresh(), tile)
  {
  }

  /** `get_tile`: a flagged tile is returned as it stands and nothing
      changes; otherwise the tile is generated into its window, which is the
      only part of the map that changes, and flagged. Either way the tile's
      offset comes back, and a coherent cache stays coherent and serves the
      tile. */
  method GetTile(c: Cache, index: u32, seed: Digest, env: Env, ghost tile: nat -> seq<byte>)
    returns (c': Cache, out: nat)
    requires Wf(c) && index < MAP && Names(tile, seed, env)
    ensures Wf(c') && out == Offset(index) && out + TILE <= |c'.tiles|
    ensures c'.flags == c.flags[index := true]
    ensures c.flags[index] ==> c' == c
    ensures !c.flags[index] ==> Window(c'.tiles, index) == tile(index)
    ensures forall other :: 0 <= other < MAP && other != index ==> Window(c'.tiles, other) == Window(c.tiles, other)
    ensures Coherent(c, tile) ==> Coherent(c', tile)
    ensures Coherent(c, tile) ==> Window(c'.tiles, index) == tile(index)
  {
    TileInMap(index);
    if c.flags[index] {
      out := Offset(index);
      c' := c;
      assert c.flags[index := true] == c.flags;
    } else {
      var tiles', base := Generate(c.tiles, index, seed, env, tile);
      c' := Cache(tiles', c.flags[index := true]);
      out := base;
      OthersKept(c.tiles, tiles', index);
    }
  }

  /** `generate_tile` seen through the name `tile`. */
  method Generate(tiles: seq<byte>, index: u32, seed: Digest, env: Env, ghost tile: nat -> seq<byte>)
    returns (tiles': seq<byte>, out: nat)
    requires |tiles| == MAP * TILE && index < MAP && Names(tile, seed, env)
    ensures out == Offset(index) && out + TILE <= |tiles| == |tiles'|
    ensures tiles'[..out] == tiles[..out] && tiles'[out + TILE..] == tiles[out + TILE..]
    ensures tiles'[out..out + TILE] == tile(index)
  {
    tiles', out := GenerateTile(tiles, index, seed, env);
    assert TileAt(tile, seed, index, env);
  }

  /** Rewriting the window of tile `index` leaves every other window as it
      was. */
  lemma OthersKept(tiles: seq<byte>, tiles': seq<byte>, index: nat)
    requires |tiles| == |tiles'| == MAP * TILE && index < MAP
    requires Offset(index) + TILE <= |tiles|
    requires tiles'[..Offset(index)] == tiles[..Offset(index)]
    requires tiles'[Offset(index) + TILE..] == tiles[Offset(index) + TILE..]
    ensures forall other :: 0 <= other < MAP && other != index ==> Window(tiles', other) == Window(tiles, other)
  {
    forall other | 0 <= other < MAP && other != index
      ensures Window(tiles', other) == Window(tiles, other)
    {
      WindowOutside(tiles, tiles', index, other);
    }
  }

  lemma WindowOutside(tiles: seq<byte>, tiles': seq<byte>, index: nat, other: nat)
    requires |tiles| == |tiles'| == MAP * TILE && index < MAP && other < MAP && other != index
    requires Offset(index) + TILE <= |tiles|
    requires tiles'[..Offset(index)] == tiles[..Offset(index)]
    requires tiles'[Offset(index) + TILE..] == tiles[Offset(index) + TILE..]
    ensures Window(tiles', other) == Window(tiles, other)
  {
    TileInMap(other);
    if other < index {
      OffsetOrdered(other, index);
      SliceBefore(tiles, tiles', Offset(index), Offset(other), Offset(other) + TILE);
    } else {
      OffsetOrdered(index, other);
      SliceAfter(tiles, tiles', Offset(index) + TILE, Offset(other), Offset(other) + TILE);
    }
  }

  lemma SliceBefore(s: seq<byte>, t: seq<byte>, a: nat, lo: nat, hi: nat)
    requires lo <= hi <= a <= |s| == |t| && t[..a] == s[..a]
    ensures t[lo..hi] == s[lo..hi]
  {
    assert t[lo..hi] == t[..a][lo..hi];
    assert s[lo..hi] == s[..a][lo..hi];
  }

  lemma SliceAfter(s: seq<byte>, t: seq<byte>, b: nat, lo: nat, hi: nat)
    requires b <= lo <= hi <= |s| == |t| && t[b..] == s[b..]
    ensures t[lo..hi] == s[lo..hi]
  {
    forall n | 0 <= n < hi - lo
      ensures t[lo..hi][n] == s[lo..hi][n]
    {
      assert t[lo + n] == t[b..][lo + n - b];
    }
  }
}
