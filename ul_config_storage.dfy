/**
 * The ul.cfg storage backend (Core/UlConfigGameStorage.cpp): reading the
 * catalog from the packed records of the file, finding the record of an id,
 * and the catalog operations rename and register.
 *
 * The file is the byte sequence read from it; the catalog is the ordered
 * sequence of games the backend holds.
 */
module UlConfigStorage {
  import opened Games
  import opened Wrappers
  import opened UlConfigRecord

  /** `~0` as a 64-bit size_t: the offset findRecordOffset gives for "no such record". */
  const NotFound: nat := 0xFFFF_FFFF_FFFF_FFFF

  function Shift(o: Option<nat>, d: nat): Option<nat>
  {
    if o.Some? then Some(o.value + d) else None
  }

  /** The k-th complete record of a file (the one at byte offset k * RecordSize). */
  function RecordAt(file: seq<byte>, k: nat): seq<byte>
    requires (k + 1) * RecordSize <= |file|
  {
    file[k * RecordSize..(k + 1) * RecordSize]
  }

  // ---------------------------------------------------------------------------
  // Reading the catalog

  /** The games `load` creates from a file: one per complete record, in file order. */
  function DecodeAll(file: seq<byte>): seq<Game>
    decreases |file|
  {
    if |file| < RecordSize then []
    else [DecodeRecord(file[..RecordSize])] + DecodeAll(file[RecordSize..])
  }

  /** Reading from a complete record on: that record's game, then the rest. */
  lemma DecodeAllStep(file: seq<byte>, offset: nat)
    requires offset + RecordSize <= |file|
    ensures DecodeAll(file[offset..])
            == [DecodeRecord(file[offset..offset + RecordSize])] + DecodeAll(file[offset + RecordSize..])
  {
    var rest := file[offset..];
    assert rest[..RecordSize] == file[offset..offset + RecordSize];
    assert rest[RecordSize..] == file[offset + RecordSize..];
  }

  lemma AppendOne<T>(a: seq<T>, x: T, b: seq<T>)
    ensures (a + [x]) + b == a + ([x] + b)
  {
  }

  /** There is one game per complete record. */
  lemma {:induction false} DecodeAllLength(file: seq<byte>)
    ensures |DecodeAll(file)| == |file| / RecordSize
    decreases |file|
  {
    if |file| >= RecordSize {
      DecodeAllLength(file[RecordSize..]);
    }
  }

  /** The k-th game is the one decoded from the k-th record. */
  lemma {:induction false} DecodeAllAt(file: seq<byte>, k: nat)
    requires (k + 1) * RecordSize <= |file|
    ensures k < |DecodeAll(file)| && DecodeAll(file)[k] == DecodeRecord(RecordAt(file, k))
    decreases k
  {
    var rest := file[RecordSize..];
    assert DecodeAll(file) == [DecodeRecord(file[..RecordSize])] + DecodeAll(rest);
    if k == 0 {
      assert RecordAt(file, 0) == file[..RecordSize];
    } else {
      var i := k - 1;
      DecodeAllAt(rest, i);
      RecordAtRest(file, i);
    }
  }

  /** Record i of the file after its first record is record i + 1 of the file. */
  lemma RecordAtRest(file: seq<byte>, i: nat)
    requires (i + 2) * RecordSize <= |file|
    ensures (i + 1) * RecordSize <= |file[RecordSize..]|
    ensures RecordAt(file[RecordSize..], i) == RecordAt(file, i + 1)
  {
  }

  /** A trailing chunk shorter than one record adds no game; an empty file gives no game. */
  lemma {:induction false} TrailingChunkIgnored(file: seq<byte>, tail: seq<byte>)
    requires |file| % RecordSize == 0 && |tail| < RecordSize
    ensures DecodeAll(file + tail) == DecodeAll(file)
    ensures DecodeAll([]) == []
    decreases |file|
  {
    if |file| > 0 {
      assert (file + tail)[..RecordSize] == file[..RecordSize];
      assert (file + tail)[RecordSize..] == file[RecordSize..] + tail;
      TrailingChunkIgnored(file[RecordSize..], tail);
    } else {
      assert file + tail == tail;
    }
  }

  /** A file written record by record from a list of games. */
  function EncodeAll(gs: seq<Game>): (file: seq<byte>)
    requires forall i :: 0 <= i < |gs| ==> Fits(gs[i])
  {
    if gs == [] then [] else Record(gs[0]) + EncodeAll(gs[1..])
  }

  /** What survives a write and a read: CD for Unknown media, the part count modulo 256. */
  function Normalized(g: Game): Game
  {
    Game(g.id, g.title, if g.media == Unknown then CD else g.media, g.partCount % 256)
  }

  lemma {:induction false} EncodeAllLength(gs: seq<Game>)
    requires forall i :: 0 <= i < |gs| ==> Fits(gs[i])
    ensures |EncodeAll(gs)| == |gs| * RecordSize
  {
    if gs != [] {
      EncodeAllLength(gs[1..]);
    }
  }

  /** The k-th record of the written file is the record of the k-th game. */
  lemma {:induction false} EncodeAllAt(gs: seq<Game>, k: nat)
    requires forall i :: 0 <= i < |gs| ==> Fits(gs[i])
    requires k < |gs|
    ensures |EncodeAll(gs)| == |gs| * RecordSize
    ensures RecordAt(EncodeAll(gs), k) == Record(gs[k])
    decreases k
  {
    EncodeAllLength(gs);
    var file := EncodeAll(gs);
    if k == 0 {
      assert file[..RecordSize] == Record(gs[0]);
    } else {
      EncodeAllAt(gs[1..], k - 1);
      assert file[RecordSize..] == EncodeAll(gs[1..]);
      RecordAtRest(file, k - 1);
    }
  }

  /**
   * Loading a file written from games whose ids and titles hold no NUL gives
   * those games back in order, each as it survives one record.
   */
  lemma LoadEncodedFile(gs: seq<Game>)
    requires forall i :: 0 <= i < |gs| ==> Fits(gs[i]) && NoNul(gs[i].id) && NoNul(gs[i].title)
    ensures |DecodeAll(EncodeAll(gs))| == |gs|
    ensures forall i :: 0 <= i < |gs| ==> DecodeAll(EncodeAll(gs))[i] == Normalized(gs[i])
  {
    var file := EncodeAll(gs);
    EncodeAllLength(gs);
    DecodeAllLength(file);
    forall i | 0 <= i < |gs|
      ensures DecodeAll(file)[i] == Normalized(gs[i])
    {
      DecodeAllAt(file, i);
      EncodeAllAt(gs, i);
      RecordRoundTrip(gs[i]);
    }
  }

  // ---------------------------------------------------------------------------
  // Finding the record of an id

  /**
   * strncmp(a, b, n) == 0: the first n bytes agree, or they agree up to and
   * including a NUL.
   */
  function StrNEqual(a: seq<byte>, b: seq<byte>, n: nat): bool
    requires n <= |a| && n <= |b|
  {
    n == 0 || (a[0] == b[0] && (a[0] == 0 || StrNEqual(a[1..], b[1..], n - 1)))
  }

  /** Without a NUL among the first n bytes of `a`, strncmp is equality of the first n bytes. */
  lemma {:induction false} StrNEqualWithoutNul(a: seq<byte>, b: seq<byte>, n: nat)
    requires n <= |a| && n <= |b| && NoNul(a[..n])
    ensures StrNEqual(a, b, n) <==> a[..n] == b[..n]
  {
    if n > 0 {
      assert a[0] == a[..n][0];
      assert a[1..][..n - 1] == a[..n][1..];
      StrNEqualWithoutNul(a[1..], b[1..], n - 1);
      assert a[..n] == [a[0]] + a[1..][..n - 1];
      assert b[..n] == [b[0]] + b[1..][..n - 1];
    }
  }

  /**
   * The test findRecordOffset applies to one record: strncmp of the key
   * ("ul." + id) against the record's bytes from the image field on, bounded
   * by the key's length. The key is at most as long as those bytes.
   */
  predicate ImageMatches(rec: seq<byte>, key: seq<byte>)
    requires |rec| == RecordSize && |key| <= RecordSize - ImageOffset
  {
    StrNEqual(key, rec[ImageOffset..], |key|)
  }

  /** The image field starts with "ul." + id: a prefix test, not an equality. */
  lemma ImageMatchesIsPrefixTest(rec: seq<byte>, id: seq<byte>)
    requires |rec| == RecordSize && |ImagePrefix| + |id| <= RecordSize - ImageOffset && NoNul(id)
    ensures ImageMatches(rec, ImagePrefix + id)
            <==> rec[ImageOffset..ImageOffset + |ImagePrefix| + |id|] == ImagePrefix + id
  {
    var key := ImagePrefix + id;
    assert key[..|key|] == key;
    assert NoNul(key) by {
      forall i | 0 <= i < |key| ensures key[i] != 0 {
        if i >= |ImagePrefix| {
          assert key[i] == id[i - |ImagePrefix|];
        }
      }
    }
    StrNEqualWithoutNul(key, rec[ImageOffset..], |key|);
    assert rec[ImageOffset..][..|key|] == rec[ImageOffset..ImageOffset + |key|];
  }

  /** The index of the first complete record that matches, if any. */
  function MatchIndex(file: seq<byte>, key: seq<byte>): Option<nat>
    requires |key| <= RecordSize - ImageOffset
    decreases |file|
  {
    if |file| < RecordSize then None
    else if ImageMatches(file[..RecordSize], key) then Some(0)
    else Shift(MatchIndex(file[RecordSize..], key), 1)
  }

  /** The offset findRecordOffset gives: k * RecordSize for a match in record k, ~0 for none. */
  function OffsetOf(m: Option<nat>): nat
  {
    if m.Some? then m.value * RecordSize else NotFound
  }

  /**
   * findRecordOffset: read record after record from the start of `file` and
   * give the offset of the first one whose image field matches "ul." + id;
   * a short read ends the scan with ~0.
   */
  method FindRecordOffset(file: seq<byte>, id: seq<byte>) returns (offset: nat)
    requires |ImagePrefix| + |id| <= RecordSize - ImageOffset
    ensures offset == OffsetOf(MatchIndex(file, ImagePrefix + id))
  {
    var key := ImagePrefix + id;
    var pos := 0;
    ghost var n: nat := 0;
    while true
      invariant pos == n * RecordSize && pos <= |file|
      invariant MatchIndex(file, key) == Shift(MatchIndex(file[pos..], key), n)
      decreases |file| - pos
    {
      if pos + RecordSize > |file| {
        break;
      }
      var record := file[pos..pos + RecordSize];
      assert file[pos..][..RecordSize] == record;
      if ImageMatches(record, key) {
        return pos;
      }
      assert file[pos..][RecordSize..] == file[pos + RecordSize..];
      pos, n := pos + RecordSize, n + 1;
    }
    return NotFound;
  }

  /** If record k is the first that matches, record k is found. */
  lemma {:induction false} FirstMatchingRecordFound(file: seq<byte>, key: seq<byte>, k: nat)
    requires |key| <= RecordSize - ImageOffset
    requires (k + 1) * RecordSize <= |file|
    requires ImageMatches(RecordAt(file, k), key)
    requires forall j :: 0 <= j < k ==> !ImageMatches(RecordAt(file, j), key)
    ensures MatchIndex(file, key) == Some(k)
    decreases k
  {
    assert RecordAt(file, 0) == file[..RecordSize];
    if k > 0 {
      var rest := file[RecordSize..];
      forall j | 0 <= j < k - 1
        ensures !ImageMatches(RecordAt(rest, j), key)
      {
        RecordAtRest(file, j);
      }
      RecordAtRest(file, k - 1);
      FirstMatchingRecordFound(rest, key, k - 1);
    }
  }

  /** If no complete record matches, nothing is found. */
  lemma {:induction false} NoMatchingRecordNotFound(file: seq<byte>, key: seq<byte>)
    requires |key| <= RecordSize - ImageOffset
    requires forall j :: 0 <= j && (j + 1) * RecordSize <= |file| ==> !ImageMatches(RecordAt(file, j), key)
    ensures MatchIndex(file, key) == None
    decreases |file|
  {
    if |file| >= RecordSize {
      assert RecordAt(file, 0) == file[..RecordSize];
      var rest := file[RecordSize..];
      forall j | 0 <= j && (j + 1) * RecordSize <= |rest|
        ensures !ImageMatches(RecordAt(rest, j), key)
      {
        RecordAtRest(file, j);
      }
      NoMatchingRecordNotFound(rest, key);
    }
  }

  /** A record that is found is complete and matches, and no earlier record matches. */
  lemma {:induction false} FoundRecordIsFirstMatch(file: seq<byte>, key: seq<byte>)
    requires |key| <= RecordSize - ImageOffset
    requires MatchIndex(file, key).Some?
    ensures var k := MatchIndex(file, key).value;
            && (k + 1) * RecordSize <= |file|
            && ImageMatches(RecordAt(file, k), key)
            && forall j :: 0 <= j < k ==> !ImageMatches(RecordAt(file, j), key)
    decreases |file|
  {
    assert RecordAt(file, 0) == file[..RecordSize];
    if !ImageMatches(file[..RecordSize], key) {
      var rest := file[RecordSize..];
      FoundRecordIsFirstMatch(rest, key);
      var k' := MatchIndex(rest, key).value;
      RecordAtRest(file, k');
      forall j | 0 < j < k' + 1
        ensures !ImageMatches(RecordAt(file, j), key)
      {
        RecordAtRest(file, j - 1);
      }
    }
  }

  /**
   * Against the record of a game, the key of a NUL-free id that fits an
   * image field matches exactly when the id is a prefix of the game's id.
   */
  lemma EncodedImageMatches(g: Game, id: seq<byte>)
    requires Fits(g) && NoNul(g.id) && NoNul(id) && |ImagePrefix| + |id| <= ImageWidth
    ensures ImageMatches(Record(g), ImagePrefix + id) <==> id <= g.id
  {
    var rec := Record(g);
    var key := ImagePrefix + id;
    ImageMatchesIsPrefixTest(rec, id);
    RecordFields(g);
    var image := Field(ImagePrefix + g.id, ImageWidth);
    assert rec[ImageOffset..ImageOffset + |key|] == image[..|key|];
    if |id| > |g.id| {
      // the tagged id runs into the zero fill of the field, where `id` has no NUL
      var p := |ImagePrefix| + |g.id|;
      assert image[..|key|][p] == 0;
      assert key[p] == id[|g.id|] != 0;
      assert image[..|key|] != key;
    } else {
      assert image[..|key|] == ImagePrefix + g.id[..|id|];
      assert (ImagePrefix + g.id[..|id|])[|ImagePrefix|..] == g.id[..|id|];
      assert key[|ImagePrefix|..] == id;
    }
  }

  /** The k-th record of a file written from games matches the key of `id` as the k-th game's record does. */
  lemma EncodedRecordMatches(gs: seq<Game>, k: nat, id: seq<byte>)
    requires forall i :: 0 <= i < |gs| ==> Fits(gs[i]) && NoNul(gs[i].id)
    requires k < |gs| && NoNul(id) && |ImagePrefix| + |id| <= ImageWidth
    ensures (k + 1) * RecordSize <= |EncodeAll(gs)|
    ensures ImageMatches(RecordAt(EncodeAll(gs), k), ImagePrefix + id) <==> id <= gs[k].id
  {
    EncodeAllAt(gs, k);
    EncodedImageMatches(gs[k], id);
  }

  /**
   * In a file written from games, the k-th record matches the k-th game's id
   * and, when that id is a prefix of no earlier id, no earlier record does.
   */
  lemma EncodedKeyFirstMatch(gs: seq<Game>, k: nat)
    requires forall i :: 0 <= i < |gs| ==> Fits(gs[i]) && NoNul(gs[i].id)
    requires k < |gs|
    requires forall j :: 0 <= j < k ==> !(gs[k].id <= gs[j].id)
    ensures (k + 1) * RecordSize <= |EncodeAll(gs)|
    ensures ImageMatches(RecordAt(EncodeAll(gs), k), ImagePrefix + gs[k].id)
    ensures forall j :: 0 <= j < k ==> !ImageMatches(RecordAt(EncodeAll(gs), j), ImagePrefix + gs[k].id)
  {
    EncodedRecordMatches(gs, k, gs[k].id);
    forall j | 0 <= j < k
      ensures !ImageMatches(RecordAt(EncodeAll(gs), j), ImagePrefix + gs[k].id)
    {
      EncodedRecordMatches(gs, j, gs[k].id);
    }
  }

  /**
   * In a file written from games, looking up the k-th game's id finds the
   * k-th record, provided that id is not a prefix of an earlier game's id.
   */
  lemma FindEncodedGame(gs: seq<Game>, k: nat)
    requires forall i :: 0 <= i < |gs| ==> Fits(gs[i]) && NoNul(gs[i].id)
    requires k < |gs|
    requires forall j :: 0 <= j < k ==> !(gs[k].id <= gs[j].id)
    ensures MatchIndex(EncodeAll(gs), ImagePrefix + gs[k].id) == Some(k)
    ensures OffsetOf(MatchIndex(EncodeAll(gs), ImagePrefix + gs[k].id)) == k * RecordSize
  {
    EncodedKeyFirstMatch(gs, k);
    FirstMatchingRecordFound(EncodeAll(gs), ImagePrefix + gs[k].id, k);
  }

  // ---------------------------------------------------------------------------
  // The catalog

  /** The position of the first game with the given id (the collection's lookup by id). */
  function IndexOf(games: seq<Game>, id: seq<byte>): (r: Option<nat>)
    ensures r.Some? ==> r.value < |games| && games[r.value].id == id
    ensures r.Some? ==> forall j :: 0 <= j < r.value ==> games[j].id != id
    ensures r.None? ==> forall j :: 0 <= j < |games| ==> games[j].id != id
  {
    if |games| == 0 then None
    else if games[0].id == id then Some(0)
    else Shift(IndexOf(games[1..], id), 1)
  }

  /** The catalog with the title of game i replaced. */
  function Renamed(games: seq<Game>, i: nat, title: seq<byte>): seq<Game>
    requires i < |games|
  {
    games[i := games[i].(title := title)]
  }

  /** Lookup by id depends only on the ids, position by position. */
  lemma {:induction false} IndexOfSameIds(a: seq<Game>, b: seq<Game>, id: seq<byte>)
    requires |a| == |b| && forall j :: 0 <= j < |a| ==> a[j].id == b[j].id
    ensures IndexOf(a, id) == IndexOf(b, id)
  {
    if |a| > 0 {
      IndexOfSameIds(a[1..], b[1..], id);
    }
  }

  /**
   * Renaming game i gives it the new title and changes nothing else: every
   * id stays where it was, so lookup by id still finds the same position.
   */
  lemma RenamedChangesOnlyTitle(games: seq<Game>, i: nat, title: seq<byte>, id: seq<byte>)
    requires i < |games|
    ensures |Renamed(games, i, title)| == |games|
    ensures Renamed(games, i, title)[i].title == title
    ensures forall j :: 0 <= j < |games| ==> Renamed(games, i, title)[j].id == games[j].id
    ensures forall j :: 0 <= j < |games| && j != i ==> Renamed(games, i, title)[j] == games[j]
    ensures IndexOf(Renamed(games, i, title), id) == IndexOf(games, id)
  {
    IndexOfSameIds(Renamed(games, i, title), games, id);
  }

  class UlConfigGameStorage {
    /** The catalog: the games of the backend, in the order they were created. */
    var games: seq<Game>

    constructor()
      ensures games == []
    {
      games := [];
    }

    function InstallationType(): (t: GameInstallationType)
      ensures t == UlConfig
    {
      UlConfig
    }

    /**
     * load: clear the catalog, then read the file record by record and
     * create one game per complete record; a short read ends the loop.
     */
    method Load(file: seq<byte>)
      modifies this
      ensures games == DecodeAll(file)
    {
      games := [];
      var offset := 0;
      assert file[offset..] == file;
      while true
        invariant offset <= |file|
        invariant games + DecodeAll(file[offset..]) == DecodeAll(file)
        decreases |file| - offset
      {
        if offset + RecordSize > |file| {
          assert DecodeAll(file[offset..]) == [];
          assert games + [] == games;
          break;
        }
        var record := file[offset..offset + RecordSize];
        DecodeAllStep(file, offset);
        AppendOne(games, DecodeRecord(record), DecodeAll(file[offset + RecordSize..]));
        games := games + [DecodeRecord(record)];
        offset := offset + RecordSize;
      }
    }

    /** renameGameInConfig: a stub that writes nothing and reports success. */
    method RenameGameInConfig(id: seq<byte>, title: seq<byte>) returns (ok: bool)
      ensures ok
    {
      ok := true;
    }

    /** renameGame(Game &, title): the title changes once the file reports success. */
    method RenameGame(index: nat, title: seq<byte>) returns (ok: bool)
      requires index < |games|
      modifies this
      ensures ok && games == Renamed(old(games), index, title)
    {
      var written := RenameGameInConfig(games[index].id, title);
      if written {
        games := Renamed(games, index, title);
        ok := true;
      } else {
        ok := false;
      }
    }

    /**
     * renameGame(id, title): false and no change when no game has the id,
     * otherwise the first game with that id gets the new title.
     */
    method RenameGameById(id: seq<byte>, title: seq<byte>) returns (ok: bool)
      modifies this
      ensures ok <==> exists i :: 0 <= i < |old(games)| && old(games)[i].id == id
      ensures ok ==> games == Renamed(old(games), IndexOf(old(games), id).value, title)
      ensures !ok ==> games == old(games)
    {
      var index := IndexOf(games, id);
      if index.None? {
        return false;
      }
      ok := RenameGame(index.value, title);
    }

    /** renameGame(index, title): the source does not check the index, so callers must. */
    method RenameGameAt(index: int, title: seq<byte>) returns (ok: bool)
      requires 0 <= index < |games|
      modifies this
      ensures ok && games == Renamed(old(games), index, title)
    {
      ok := RenameGame(index, title);
    }

    /** registerGame: a stub that neither writes the file nor changes the catalog. */
    method RegisterGame(g: Game) returns (ok: bool)
      ensures ok
    {
      ok := true;
    }
  }
}
