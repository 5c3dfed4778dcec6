/**
 * The game domain model the storage backends fill in: one game with its id,
 * title, media type and part count. Ids and titles are kept as the bytes the
 * ul.cfg backend reads and writes (the Latin-1 bytes of the id, the UTF-8
 * bytes of the title).
 */
module Games {

  /** An unsigned 8-bit value (char, quint8). */
  newtype byte = x: int | 0 <= x < 256

  datatype MediaType = CD | DVD | Unknown

  /** Which storage backend a catalog comes from. */
  datatype GameInstallationType = Directory | UlConfig

  datatype Game = Game(id: seq<byte>, title: seq<byte>, media: MediaType, partCount: int)

  /** No byte of `s` is the C string terminator. */
  predicate NoNul(s: seq<byte>)
  {
    forall i :: 0 <= i < |s| ==> s[i] != 0
  }
}
