/**
 * The light catalog record that the catalog builder writes and the ROM
 * filter reads: `{game_id, game_title, supported_hashes: [{MD5, Name}]}`.
 */
module Catalog {

  /**
   * One accepted dump of a game. `md5` is the record's `MD5` field ("" when
   * the field is missing) and `name` its `Name` field ("" when missing).
   */
  datatype HashInfo = HashInfo(md5: string, name: string)

  /** One game of the light catalog; a missing `supported_hashes` is `[]`. */
  datatype LightGame = LightGame(gameId: int, gameTitle: string, hashes: seq<HashInfo>)
}
