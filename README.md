# ul.cfg storage and art cache of OPL PC Tools, in Dafny

OPL PC Tools manages a PlayStation 2 game library for Open PS2 Loader. This
project models two parts of it.

**The ul.cfg storage backend** (`UlConfigGameStorage`). It keeps the catalog
in one binary file of packed 64-byte records. Each record holds:

- a 32-byte name field with the title;
- a 15-byte image field with the tag `ul.` and the game id;
- a parts byte;
- a media byte: `0x12` for CD, `0x14` for DVD;
- 15 pad bytes, where pad[4] is `0x08`.

The model covers:

- the record constructor;
- the decoding that `load` performs on each record;
- the linear scan `findRecordOffset`;
- the three `renameGame` overloads;
- the `renameGameInConfig` and `registerGame` stubs;
- `installationType`.

**The art manager's bookkeeping** (`GameArtManager`). The model covers:

- the table of kinds of art with their file-name suffixes and sizes;
- the mask of kinds whose images are cached;
- the per-game image cache;
- the file names `load` tries, in order, and the name `setArt` writes.

Modules:

| module | file | contents |
|---|---|---|
| `Wrappers` | `wrappers.dfy` | `Option` |
| `Games` | `games.dfy` | the byte type, the game record, media and installation types |
| `UlConfigRecord` | `ul_config_record.dfy` | the record layout, the encoder (function and in-place method), the decoder, round trips, the id-overrun finding |
| `UlConfigStorage` | `ul_config_storage.dfy` | reading a whole file, `findRecordOffset`, the catalog class with `load` and the rename operations |
| `GameArt` | `game_art.dfy` | art kinds, suffixes, file names, the cached-kind mask, the cache, and the `GameArtManager` class |

Things the model treats as parameters:

- The ul.cfg file is the sequence of bytes read from it.
- An image is a value of the class's type parameter `Pixmap`.
- Reading, scaling and saving images are functions passed to the methods:
  - `art(name)`: the image a file of the ART directory yields, if any;
  - `fit(image, properties)`: the whole compare-then-scale step of `load` and `setArt`. It gives the image at its kind's size. For an image that already has that size it stands for the source's choice not to scale, so it returns that image unchanged;
  - `saves(name)`: whether writing a file succeeds.

## Model

| member | source | states |
|---|---|---|
| `UlConfigRecord.FieldsArePacked` | src/OplPcTools/Core/UlConfigGameStorage.cpp:33-41 | The five fields of RawConfigRecord follow each other with no gap, and the record is 64 bytes long. |
| `UlConfigRecord.RecordLayout` | src/OplPcTools/Core/UlConfigGameStorage.cpp:43-54 | Every byte of an encoded record is zero except: the title bytes at the start of the name field; `ul.` and then the id bytes at the start of the image field; the parts byte; the media byte; and pad[4] == 0x08. |
| `UlConfigRecord.CopyBytes` | src/OplPcTools/Core/UlConfigGameStorage.cpp:48-50 | memcpy into the record buffer overwrites exactly the bytes from `at` to `at + \|src\|` with `src` and leaves every other byte as it was. |
| `UlConfigRecord.BuildRecord` | src/OplPcTools/Core/UlConfigGameStorage.cpp:43-54 | The constructor zeroes a 64-byte buffer, makes three copies and writes three bytes. The buffer then holds exactly the record whose layout RecordLayout states. |
| `UlConfigRecord.EncodeMediaCodes` | src/OplPcTools/Core/UlConfigGameStorage.cpp:51 | The media byte written is 0x14 exactly for DVD; CD and Unknown are both written as 0x12. |
| `UlConfigRecord.DecodeMediaCodes` | src/OplPcTools/Core/UlConfigGameStorage.cpp:115-126 | 0x12 reads as CD, 0x14 as DVD, every other byte as Unknown (each in both directions). |
| `UlConfigRecord.MediaRoundTrip` | src/OplPcTools/Core/UlConfigGameStorage.cpp:115-126 | Writing then reading a media type gives CD for Unknown. The type survives exactly when it is CD or DVD. |
| `UlConfigRecord.CStrLen` | src/OplPcTools/Core/UlConfigGameStorage.cpp:109-111 | strlen within a buffer: the result is at most the buffer length, no byte before it is NUL, and the byte at it (if any) is NUL. |
| `UlConfigRecord.TitleRoundTrip` | src/OplPcTools/Core/UlConfigGameStorage.cpp:110-113 | A NUL-free title of at most 32 bytes reads back unchanged. A shorter title is cut at the first NUL. A 32-byte title has a non-NUL last byte, so the whole field is read. |
| `UlConfigRecord.DecodeTitle` | src/OplPcTools/Core/UlConfigGameStorage.cpp:110-113 | The title read from a name field is a prefix of the field. When the field's last byte is NUL, it is NUL-free and followed by a NUL. Otherwise it is the whole 32-byte field. |
| `UlConfigRecord.DecodeId` | src/OplPcTools/Core/UlConfigGameStorage.cpp:108-109 | The id read from an image field (with the read bounded by the field) is NUL-free and is the bytes right after `ul.`. It ends at the first NUL or at the field's end. |
| `UlConfigRecord.DecodeRecord` | src/OplPcTools/Core/UlConfigGameStorage.cpp:107-126 | The game `load` creates from one complete record has: the id after `ul.` up to the first NUL inside the image field; the title chosen by the name field's last byte; CD or DVD exactly when the media byte is 0x12 or 0x14; and the raw parts byte (0..255) as part count. |
| `UlConfigRecord.DecodeIdAsWritten` | src/OplPcTools/Core/UlConfigGameStorage.cpp:108-109 | The id as the code reads it: NUL-free bytes from after `ul.` up to the first NUL of the record, which may lie past the image field. It is None exactly when a NUL falls inside `ul.`'s three bytes (the size_t subtraction wraps) or no NUL follows the image field's start. |
| `UlConfigRecord.IdRoundTrip` | src/OplPcTools/Core/UlConfigGameStorage.cpp:108-109 | With the decoder bounded by the image field, a NUL-free id that fits after `ul.` reads back unchanged, including one that fills the field. |
| `UlConfigRecord.RecordFields` | src/OplPcTools/Core/UlConfigGameStorage.cpp:43-54 | Reading the fields of an encoded record gives: the name field, the image field, the parts byte, the media byte and the pad bytes, as written. |
| `UlConfigRecord.RecordRoundTrip` | src/OplPcTools/Core/UlConfigGameStorage.cpp:102-127 | Encoding a game and decoding the record gives the same id and title (when NUL-free), CD for Unknown media, and the part count modulo 256. |
| `UlConfigRecord.RecordRoundTripExact` | src/OplPcTools/Core/UlConfigGameStorage.cpp:114-126 | Such a game reads back as itself exactly when its media is known and its part count is in 0..255. |
| `UlConfigRecord.AsWrittenAgreesWhenTerminated` | src/OplPcTools/Core/UlConfigGameStorage.cpp:108-109 | When the image field holds a NUL after the tag, the unbounded strlen of the code as written reads the same id as the bounded decoder. |
| `UlConfigRecord.ShortIdReadsBackAsWritten` | src/OplPcTools/Core/UlConfigGameStorage.cpp:108-109 | When `ul.` plus a NUL-free id is shorter than the image field, the code as written reads the id back unchanged: the overrun happens only at full width. |
| `UlConfigRecord.FullWidthIdOverrunsAsWritten` | src/OplPcTools/Core/UlConfigGameStorage.cpp:108-109 | When `ul.` plus the id fills the image field, the code as written reads the id followed by the parts byte and the media byte. |
| `UlConfigRecord.FullWidthIdExample` | src/OplPcTools/Core/UlConfigGameStorage.cpp:108-109 | Take the one-part DVD with id "SLUS_2000.01". The code as written reads its id with 0x01 and 0x14 appended; the bounded decoder reads it back exactly. |
| `UlConfigStorage.DecodeAllLength` | src/OplPcTools/Core/UlConfigGameStorage.cpp:102-106 | `load` creates one game per complete 64-byte record: \|games\| == \|file\| / 64. |
| `UlConfigStorage.DecodeAllAt` | src/OplPcTools/Core/UlConfigGameStorage.cpp:102-127 | The k-th game is the one decoded from the bytes k*64 .. k*64+64, so games keep file order. |
| `UlConfigStorage.TrailingChunkIgnored` | src/OplPcTools/Core/UlConfigGameStorage.cpp:104-106 | A trailing chunk shorter than a record adds no game. An empty file gives an empty catalog. |
| `UlConfigStorage.LoadEncodedFile` | src/OplPcTools/Core/UlConfigGameStorage.cpp:94-127 | Take a file written record by record from NUL-free games. Loading it gives those games back in order, each as it survives one record. |
| `UlConfigStorage.StrNEqualWithoutNul` | src/OplPcTools/Core/UlConfigGameStorage.cpp:67 | When the first n bytes of the key hold no NUL, strncmp(key, image, n) == 0 exactly when the first n bytes agree. |
| `UlConfigStorage.ImageMatchesIsPrefixTest` | src/OplPcTools/Core/UlConfigGameStorage.cpp:58-67 | The record test of findRecordOffset holds exactly when the image field starts with `ul.` + id. It is a prefix test, not an equality. |
| `UlConfigStorage.FindRecordOffset` | src/OplPcTools/Core/UlConfigGameStorage.cpp:56-76 | The scan returns k*64 for the first complete record k that matches, or ~0 (2^64-1) when none matches before a short read. |
| `UlConfigStorage.FirstMatchingRecordFound` | src/OplPcTools/Core/UlConfigGameStorage.cpp:61-73 | If record k matches and no earlier record does, the match found is record k. |
| `UlConfigStorage.NoMatchingRecordNotFound` | src/OplPcTools/Core/UlConfigGameStorage.cpp:61-75 | If no complete record matches, nothing is found (offset ~0). |
| `UlConfigStorage.FoundRecordIsFirstMatch` | src/OplPcTools/Core/UlConfigGameStorage.cpp:61-73 | A record that is found is complete and matches, and no earlier record matches. |
| `UlConfigStorage.EncodedImageMatches` | src/OplPcTools/Core/UlConfigGameStorage.cpp:58-67 | Take the record of a game with a NUL-free id. It matches the key of a NUL-free id exactly when that id is a prefix of the game's id. |
| `UlConfigStorage.FindEncodedGame` | src/OplPcTools/Core/UlConfigGameStorage.cpp:56-76 | Take a file written from games. Looking up the k-th game's id returns offset k*64, unless that id is a prefix of an earlier game's id. |
| `UlConfigStorage.IndexOf` | src/OplPcTools/Core/UlConfigGameStorage.cpp:134 | Lookup by id gives the first position holding that id, and none when no game has it. |
| `UlConfigStorage.RenamedChangesOnlyTitle` | src/OplPcTools/Core/UlConfigGameStorage.cpp:144-152 | Renaming game i sets its title and changes nothing else. Every id stays where it was, so lookup by id is unchanged. |
| `UlConfigStorage.UlConfigGameStorage.constructor` | src/OplPcTools/Core/UlConfigGameStorage.cpp:80-83 | A new backend has an empty catalog. |
| `UlConfigStorage.UlConfigGameStorage.InstallationType` | src/OplPcTools/Core/UlConfigGameStorage.cpp:89-92 | The backend reports the UlConfig installation type. |
| `UlConfigStorage.UlConfigGameStorage.Load` | src/OplPcTools/Core/UlConfigGameStorage.cpp:94-129 | The loop clears the catalog, then appends one decoded game per record until a short read. The catalog ends up equal to the decoding of the whole file. |
| `UlConfigStorage.UlConfigGameStorage.RenameGameInConfig` | src/OplPcTools/Core/UlConfigGameStorage.cpp:154-158 | The stub reports success and changes nothing. |
| `UlConfigStorage.UlConfigGameStorage.RenameGame` | src/OplPcTools/Core/UlConfigGameStorage.cpp:144-152 | Renaming a game reports success. The game gets the new title and every other game is unchanged. |
| `UlConfigStorage.UlConfigGameStorage.RenameGameById` | src/OplPcTools/Core/UlConfigGameStorage.cpp:131-136 | Returns true exactly when some game has the id; then the first such game is renamed. Otherwise the catalog is unchanged. |
| `UlConfigStorage.UlConfigGameStorage.RenameGameAt` | src/OplPcTools/Core/UlConfigGameStorage.cpp:138-142 | Renaming by a valid index renames the game at that index and reports success. |
| `UlConfigStorage.UlConfigGameStorage.RegisterGame` | src/OplPcTools/Core/UlConfigGameStorage.cpp:160-164 | The stub reports success and changes nothing. |
| `GameArt.Properties` | src/OplPcTools/GameArtManager.cpp:46-80 | The table of the eight kinds: _ICO 64x64, _COV 140x200, _COV2 242x344, _LAB 18x240, _SCR 250x188, _SCR2 250x188, _BG 640x480, _LGO 300x125. Every suffix is '_' and then capitals or digits, so it holds no dot, and every size is non-empty. |
| `GameArt.Candidates` | src/OplPcTools/GameArtManager.cpp:114-118 | `load` tries four names for a game and a kind, in this order: id + suffix + ".png", ".jpeg", ".jpg", ".bmp". |
| `GameArt.SuffixesDistinct` | src/OplPcTools/GameArtManager.cpp:46-80 | The eight kinds have eight different suffixes, and no suffix contains a dot. |
| `GameArt.ArtFileNamesDistinct` | src/OplPcTools/GameArtManager.cpp:114-118 | Take one game. Two candidate names are the same file only for the same kind and the same extension, even for "_COV" against "_COV2". |
| `GameArt.AddTypeCachesIt` | src/OplPcTools/GameArtManager.cpp:82-85 | After adding a kind, it is cached, and every other kind is cached exactly as before. |
| `GameArt.AddTypeIdempotent` | src/OplPcTools/GameArtManager.cpp:82-85 | Adding a kind twice is the same as adding it once. |
| `GameArt.RemoveUncachedType` | src/OplPcTools/GameArtManager.cpp:87-90 | Removing a kind that is not cached leaves the mask unchanged. |
| `GameArt.ToggleCachedType` | src/OplPcTools/GameArtManager.cpp:89-91 | On a cached kind, the XOR clears exactly that kind. On a kind that is not cached it would set it, which is why the test comes first. |
| `GameArt.RemoveTypeUncaches` | src/OplPcTools/GameArtManager.cpp:87-94 | After removal the kind is not cached, and every other kind is cached exactly as before. |
| `GameArt.LookupAfterStore` | src/OplPcTools/GameArtManager.cpp:140-152 | After storing p for (id, t), that entry yields p and every other (game, kind) entry is unchanged. The game gets a cache if it had none. |
| `GameArt.LookupAfterWithoutType` | src/OplPcTools/GameArtManager.cpp:96-104 | After clearing kind t, no game has an image of kind t. Images of other kinds stay, and so do the per-game caches. |
| `GameArt.LookupAfterWithoutGameType` | src/OplPcTools/GameArtManager.cpp:154-158 | Deleting (id, t) forgets that one entry and nothing else. |
| `GameArt.LookupAfterRemoveGame` | src/OplPcTools/GameArtManager.cpp:172-174 | Clearing a game's arts forgets its whole cache and nothing of other games. |
| `GameArt.FirstArtIsFirstUsable` | src/OplPcTools/GameArtManager.cpp:114-128 | The search returns the image of the first name that yields one; names after it are not consulted. |
| `GameArt.FirstArtNone` | src/OplPcTools/GameArtManager.cpp:114-129 | The search finds nothing exactly when no name yields an image. |
| `GameArt.GameArtManager.constructor` | src/OplPcTools/GameArtManager.cpp:31-38 | A new manager caches no kind and holds no images. |
| `GameArt.GameArtManager.FindInCache` | src/OplPcTools/GameArtManager.cpp:132-138 | Nothing for a game without a cache. Otherwise the stored image of that kind, if there is one. |
| `GameArt.GameArtManager.AddCacheType` | src/OplPcTools/GameArtManager.cpp:82-85 | The mask gains the kind, and the cache is untouched. |
| `GameArt.GameArtManager.RemoveCacheType` | src/OplPcTools/GameArtManager.cpp:87-94 | The mask loses the kind. The cache loses every image of that kind only when the kind was cached and clearing was asked for; otherwise it is unchanged. |
| `GameArt.GameArtManager.ClearCache` | src/OplPcTools/GameArtManager.cpp:96-104 | The loop over the per-game caches erases every entry of kind t and keeps everything else. |
| `GameArt.GameArtManager.CacheArt` | src/OplPcTools/GameArtManager.cpp:140-152 | Afterwards findInCache(id, t) yields the image, and every other (game, kind) lookup is unchanged, whether or not the game already had a cache. |
| `GameArt.GameArtManager.Load` | src/OplPcTools/GameArtManager.cpp:106-130 | When the kind is cached and an image is stored, returns it and leaves the cache as is. Otherwise: nothing when the ART directory is missing; else the first candidate file's image, fitted to the kind's size. That image is cached only when the kind is cached. |
| `GameArt.GameArtManager.DeleteArt` | src/OplPcTools/GameArtManager.cpp:154-158 | The game's image of kind t is forgotten, and nothing else in the cache changes. |
| `GameArt.GameArtManager.ClearArts` | src/OplPcTools/GameArtManager.cpp:172-174 | The game's whole cache is dropped, and nothing else in the cache changes. |
| `GameArt.GameArtManager.SetArt` | src/OplPcTools/GameArtManager.cpp:180-198 | A source that is not an image gives a null result and no change. A failed save reports the file name id + suffix + ".png", relative to the ART directory, and leaves the cache as is. Otherwise the fitted image is saved under that name and cached when the kind is cached. |

## Left out

- The sizes `g_max_game_name_length` and `g_max_game_id_length` are defined in a header that is not part of this model.
  - They are taken as 32 and 15, the widths of the 64-byte ul.cfg record of Open PS2 Loader.
  - All proofs use them only through the named constants and the record size.
- File I/O is left out: opening ul.cfg, `QFile::read`, `QDir` existence checks, `mkpath` and the removal of art files.
  - The ul.cfg file is the byte sequence read from it.
  - The ART directory is the `art` and `saves` functions.
  - `dirExists` stands for the existence check in `load`.
- Image decoding, scaling and saving are left out (Qt's image library). So is the `artChanged` signal. The model treats images as opaque values and scaling as the `fit` parameter.
- Text encoding is left out (`toUtf8`, `toLatin1`, `fromUtf8`, `fromLatin1`). Titles and ids of the ul.cfg backend are byte sequences; art ids are strings.
- The catalog's base classes (`clear`, `createGame`, `findNonConstGame`, `gameAt`) are not part of this model.
  - The catalog is an ordered sequence of games that `load` appends to.
  - Lookup by id is taken to find the first game with that id.
- `UlConfigStorage.FindRecordOffset`:
  - It takes the whole file from its start. The source reads from the file's current position and never rewinds.
  - The optional `_result` copy is left out. The source's `memcpy(_result, &record, ...)` copies 64 bytes starting at the local pointer variable `record`, not at the record that pointer points to.
  - Its `requires` keeps the key within the 32 bytes from the image field to the end of the record, so the bounded strncmp never reads past the record buffer.
- `UlConfigStorage.UlConfigGameStorage.Load` does not model the missing return value of the source's `bool load`.
- `UlConfigStorage.UlConfigGameStorage.Load` uses the decoder bounded by the image field, not the overrunning `strlen` (see Findings).
- `UlConfigStorage.UlConfigGameStorage.RenameGameAt` requires a valid index: the source dereferences `gameAt(index)` without a bounds check.
- `UlConfigStorage.UlConfigGameStorage.RenameGameInConfig` and `RegisterGame` are modelled as the stubs they are. No rewrite of ul.cfg and no append of a record is invented.
- `UlConfigRecord.BuildRecord` requires the title and `ul.` + id to fit their fields. The source's memcpy calls do not check this and overflow otherwise.
- The 64-bit width of `size_t` matters in two places:
  - the "not found" offset `~0` of `findRecordOffset`, which is 2^64 - 1;
  - the wrap-around of `strlen(image) - 3` in `load` when fewer than three bytes precede the first NUL. `DecodeIdAsWritten` gives `None` for it, and for a buffer with no NUL, rather than a byte count.
- `GameArt.GameArtManager.RemoveCacheType`, `AddCacheType`: `m_cached_types` is an integer of flags in the source. The model uses the set of kinds whose flags are set.
  - `&` becomes membership, `|=` union and `^=` toggling one kind.
  - This assumes each GameArtType is a distinct single flag. The enum's values are in a header that is not part of this model.
- `GameArt.GameArtManager.DeleteArt` does not follow the source for a game that has no cache.
  - In the source, `m_cache[id]` inserts an empty `Maybe` entry for that game. The model leaves the cache without an entry.
  - Afterwards `m_cache.contains(id)` is true in the source. So a later `cacheArt` for that game (from `load`, `setArt` or another `cacheArt`) goes to its first branch and dereferences the empty `Maybe`.
  - A later `clearCache` (through `removeCacheType(t, true)`) calls `find` through the empty `Maybe` as well.
  - The model's `CacheArt` builds a new per-game cache in that case, and its `ClearCache` has no entry for that game to visit. The source's behaviour there depends on `Maybe`'s dereference operators, whose header is not part of this model.
- `GameArt.GameArtManager.FindInCache` takes the mapped type of the per-game cache (`GameCache`, declared in a header that is not part of this model) to be `Maybe<QPixmap>`.
  - So a kind the game's cache has no entry for reads as nothing, and `load` goes on to the disk.
  - If the mapped type were a plain `QPixmap`, `operator[]` would return a null pixmap instead. `load` would then return that null pixmap for a cached kind without reading the disk.
- `GameArt.GameArtManager.SetArt` reports a failed save as a `SaveFailed` result carrying the file name relative to the ART directory. The source throws an IOException whose message holds the absolute path `dir.absoluteFilePath(id + suffix + ".png")`; the directory path is not modelled.
- `GameArt.GameArtManager.Load` merges "no such file" and "file is not an image" into one case, since both mean "try the next extension".
- The property table `m_art_props` is the constant function `Properties`; the heap-allocated records and their deletion are left out.
- `DirectoryGameStorage.h` and `MainWindow.h` are not part of this model: declarations and UI code only.

## Findings

| source | as written | input that shows it | evidently intended | confidence | as-written member | corrected member |
|---|---|---|---|---|---|---|
| src/OplPcTools/Core/UlConfigGameStorage.cpp:108-109 | The id is read as `strlen(image) - 3` bytes from image[3]. strlen is not bounded by the 15-byte image field. | Write a one-part DVD whose id is "SLUS_2000.01" (12 bytes, so `ul.` + id fills the image field), then load it. strlen runs through the parts byte 0x01 and the media byte 0x14 and stops at pad[0]. The id reads back as "SLUS_2000.01" followed by 0x01 0x14. | The id is the bytes after `ul.` up to the first NUL or the end of the image field, so every id the encoder accepts reads back unchanged. | not executed | `UlConfigRecord.FullWidthIdExample` | `UlConfigRecord.IdRoundTrip` |
