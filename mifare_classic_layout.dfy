/**
 * MIFARE Classic sector geometry (mifare_classic_is_first_block,
 * mifare_classic_is_trailer_block). Sectors 0-31 hold 4 blocks each and start
 * at blocks 0, 4, ..., 124; sectors 32-39 hold 16 blocks each and start at
 * blocks 128, 144, ..., 240. The last block of each sector is its trailer.
 */
module MifareClassicLayout {
  import opened NfcTypes

  /** First block of the 16-block sectors. */
  const LargeSectorsStart: nat := 128
  const SmallSectorBlocks: nat := 4
  const LargeSectorBlocks: nat := 16
  const SmallSectorCount: nat := 32
  /** Sectors addressable with an 8-bit block number (MIFARE Classic 4K). */
  const SectorCount: nat := 40

  /** mifare_classic_is_first_block: true exactly for the block that opens its sector. */
  predicate IsFirstBlock(blockNum: byte)
    ensures IsFirstBlock(blockNum) <==> blockNum == SectorFirstBlock(SectorOf(blockNum))
  {
    if blockNum < 128 then blockNum % 4 == 0 else blockNum % 16 == 0
  }

  /**
   * mifare_classic_is_trailer_block: true exactly for the block that closes its sector.
   * `blockNum + 1` is computed in int, so 255 + 1 does not wrap.
   */
  predicate IsTrailerBlock(blockNum: byte)
    ensures IsTrailerBlock(blockNum) <==> blockNum == SectorTrailer(SectorOf(blockNum))
  {
    if blockNum < 128 then (blockNum + 1) % 4 == 0 else (blockNum + 1) % 16 == 0
  }

  /** The number of blocks in sector s. */
  function SectorBlocks(s: nat): nat {
    if s < SmallSectorCount then SmallSectorBlocks else LargeSectorBlocks
  }

  /** The first block of sector s. */
  function SectorFirstBlock(s: nat): nat {
    if s < SmallSectorCount then SmallSectorBlocks * s
    else LargeSectorsStart + LargeSectorBlocks * (s - SmallSectorCount)
  }

  /** The last block of sector s, the one holding its keys and access bits. */
  function SectorTrailer(s: nat): nat {
    SectorFirstBlock(s) + SectorBlocks(s) - 1
  }

  /** The sector a block belongs to: the sectors tile the 256 block numbers in order. */
  function SectorOf(blockNum: byte): (s: nat)
    ensures s < SectorCount
    ensures SectorFirstBlock(s) <= blockNum <= SectorTrailer(s)
  {
    if blockNum < LargeSectorsStart then blockNum / SmallSectorBlocks
    else SmallSectorCount + (blockNum - LargeSectorsStart) / LargeSectorBlocks
  }

  /** No two sectors share a block, so SectorOf names the only sector holding a block. */
  lemma SectorsAreDisjoint(blockNum: byte, s: nat)
    requires SectorFirstBlock(s) <= blockNum <= SectorTrailer(s)
    ensures s == SectorOf(blockNum)
  {
  }

  /** A block is a first block exactly when it opens its sector. */
  lemma IsFirstBlockIffSectorStart(blockNum: byte)
    ensures IsFirstBlock(blockNum) <==> blockNum == SectorFirstBlock(SectorOf(blockNum))
  {
  }

  /** A block is a trailer exactly when it closes its sector. */
  lemma IsTrailerBlockIffSectorEnd(blockNum: byte)
    ensures IsTrailerBlock(blockNum) <==> blockNum == SectorTrailer(SectorOf(blockNum))
  {
  }

  /** Every sector's first block and trailer are classified as such. */
  lemma SectorBoundariesClassified(s: nat)
    requires s < SectorCount
    ensures SectorFirstBlock(s) < 0x100 && IsFirstBlock(SectorFirstBlock(s))
    ensures SectorTrailer(s) < 0x100 && IsTrailerBlock(SectorTrailer(s))
  {
  }

  /** No block is both the first block and the trailer of a sector. */
  lemma FirstAndTrailerExclusive(blockNum: byte)
    ensures !(IsFirstBlock(blockNum) && IsTrailerBlock(blockNum))
  {
  }

  /** A trailer is followed by the next sector's first block, across the change of geometry at 128 too. */
  lemma TrailerPrecedesFirstBlock(blockNum: byte)
    requires blockNum < 255
    ensures IsTrailerBlock(blockNum) <==> IsFirstBlock(blockNum + 1)
  {
  }
}
