/** The exclusion-mask word count of a neighbor-list tile: `num_excl<tilesize>::val`,
    the length of `tile_excl_t<tilesize>::excl`. */
module NeighborList {
  import opened CInt

  /** Bits in one mask word (`unsigned int`). */
  const WordBits := 32

  /** The tile size the force field instantiates (`NeighborList<32>`). */
  const TileSize := 32

  /** `num_excl<tilesize>::val = (tilesize*tilesize - 1)/32 + 1`, with C++ division. */
  function NumExcl(tilesize: int): (words: int)
  {
    Div(tilesize * tilesize - 1, WordBits) + 1
  }

  /** `tile_excl_t<tilesize>`: one tile's exclusion mask. */
  datatype TileExcl = TileExcl(excl: seq<bv32>)

  /** A mask of the length `tile_excl_t<tilesize>` declares. */
  predicate IsTileExcl(tilesize: int, t: TileExcl)
  {
    |t.excl| == NumExcl(tilesize)
  }

  /** For a real tile the word count is the ceiling of `tilesize^2 / 32`: enough words for one
      bit per intra-tile pair, and not a word more. */
  lemma NumExclIsCeiling(tilesize: int)
    requires tilesize >= 1
    ensures NumExcl(tilesize) * WordBits >= tilesize * tilesize
    ensures (NumExcl(tilesize) - 1) * WordBits < tilesize * tilesize
  {
    var a := tilesize * tilesize - 1;
    assert a >= 0 by { MulAtLeast(tilesize, tilesize); }
    DivOfNonNegative(a, WordBits);
  }

  /** No smaller mask holds one bit per pair. */
  lemma NumExclIsLeast(tilesize: int, words: int)
    requires tilesize >= 1
    requires words * WordBits >= tilesize * tilesize
    ensures words >= NumExcl(tilesize)
  {
    NumExclIsCeiling(tilesize);
  }

  /** A zero-size tile still gets one word: C++ rounds `-1/32` toward zero. */
  lemma NumExclOfEmptyTile()
    ensures NumExcl(0) == 1
  {
  }

  /** The instantiated 32-by-32 tile uses 32 words. */
  lemma NumExclOfTileSize()
    ensures NumExcl(TileSize) == 32
  {
  }

  /** Pair `(i, j)` of a tile, bit `i*tilesize + j`, falls in a word of the mask. */
  lemma PairWordInRange(tilesize: int, t: TileExcl, i: int, j: int)
    requires IsTileExcl(tilesize, t)
    requires 0 <= i < tilesize && 0 <= j < tilesize
    ensures 0 <= (i * tilesize + j) / WordBits < |t.excl|
  {
    PairBitInTile(tilesize, i, j);
    NumExclIsCeiling(tilesize);
    QuotientBelow(i * tilesize + j, WordBits, NumExcl(tilesize));
  }

  /** The bits of a tile's pairs are numbered `0 .. tilesize*tilesize - 1`. */
  lemma PairBitInTile(tilesize: int, i: int, j: int)
    requires 0 <= i < tilesize && 0 <= j < tilesize
    ensures 0 <= i * tilesize + j < tilesize * tilesize
  {
    MulLeft(i, tilesize - 1, tilesize);
    MulLeft(0, i, tilesize);
    assert (tilesize - 1) * tilesize + tilesize == tilesize * tilesize;
  }
}
