/**
 * One record of the ul.cfg file (Core/UlConfigGameStorage.cpp): its fixed
 * layout, the record RawConfigRecord(game) builds, and the game that `load`
 * reads back from a record.
 *
 *   offset  0: name[NameWidth]    title bytes, left-aligned, zero-filled
 *   offset 32: image[ImageWidth]  "ul." then the id bytes, zero-filled
 *   offset 47: parts              part count
 *   offset 48: media              0x12 (CD) or 0x14 (DVD)
 *   offset 49: pad[15]            zero, except pad[4] == 0x08
 */
module UlConfigRecord {
  import opened Games
  import opened Wrappers

  /** Width of the name field (g_max_game_name_length). */
  const NameWidth: nat := 32
  /** Width of the image field (g_max_game_id_length). */
  const ImageWidth: nat := 15
  const PadWidth: nat := 15

  /** Field offsets; the fields are packed back to back (see FieldsArePacked). */
  const NameOffset: nat := 0
  const ImageOffset: nat := 32
  const PartsOffset: nat := 47
  const MediaOffset: nat := 48
  const PadOffset: nat := 49
  /** sizeof(RawConfigRecord); records are packed back to back. */
  const RecordSize: nat := 64

  /** MT_CD and MT_DVD. */
  const MediaCdCode: byte := 0x12
  const MediaDvdCode: byte := 0x14

  /** "ul.", the tag written in front of the id in the image field. */
  const ImagePrefix: seq<byte> := [0x75, 0x6C, 0x2E]

  /** pad[4] is set to 0x08 so that the record looks like the ones USBA writes. */
  const PadMarkerIndex: nat := 4
  const PadMarker: byte := 0x08

  /** Each field starts where the previous one ends, and the pad field ends the record. */
  lemma FieldsArePacked()
    ensures ImageOffset == NameOffset + NameWidth
    ensures PartsOffset == ImageOffset + ImageWidth
    ensures MediaOffset == PartsOffset + 1
    ensures PadOffset == MediaOffset + 1
    ensures RecordSize == PadOffset + PadWidth
  {
  }

  function Zeros(n: nat): (z: seq<byte>)
    ensures |z| == n && forall i :: 0 <= i < n ==> z[i] == 0
  {
    seq(n, _ => 0)
  }

  /** `bytes` copied to the start of a zeroed field of width `w`. */
  function Field(bytes: seq<byte>, w: nat): seq<byte>
    requires |bytes| <= w
  {
    bytes + Zeros(w - |bytes|)
  }

  /**
   * The memcpy calls of the record constructor stay inside their fields only
   * when the title and the tagged id fit; the source does not check this.
   */
  predicate Fits(g: Game)
  {
    |g.title| <= NameWidth && |ImagePrefix| + |g.id| <= ImageWidth
  }

  /** Only DVD has its own code: CD and Unknown are both written as MT_CD. */
  function EncodeMedia(m: MediaType): byte
  {
    if m == DVD then MediaDvdCode else MediaCdCode
  }

  /** `quint8 parts = partCount` keeps the count modulo 256. */
  function PartsByte(n: int): byte
  {
    (n % 256) as byte
  }

  function PadBytes(): seq<byte>
  {
    Zeros(PadMarkerIndex) + [PadMarker] + Zeros(PadWidth - PadMarkerIndex - 1)
  }

  /** The bytes of RawConfigRecord(g), field after field. */
  function Record(g: Game): (r: seq<byte>)
    requires Fits(g)
    ensures |r| == RecordSize
  {
    Field(g.title, NameWidth) + Field(ImagePrefix + g.id, ImageWidth)
      + [PartsByte(g.partCount), EncodeMedia(g.media)] + PadBytes()
  }

  /** Byte `j` of an encoded record, described field by field. */
  function LayoutByte(g: Game, j: nat): byte
  {
    if NameOffset <= j < NameOffset + |g.title| then g.title[j - NameOffset]
    else if ImageOffset <= j < ImageOffset + |ImagePrefix| then ImagePrefix[j - ImageOffset]
    else if ImageOffset + |ImagePrefix| <= j < ImageOffset + |ImagePrefix| + |g.id| then
      g.id[j - ImageOffset - |ImagePrefix|]
    else if j == PartsOffset then PartsByte(g.partCount)
    else if j == MediaOffset then EncodeMedia(g.media)
    else if j == PadOffset + PadMarkerIndex then PadMarker
    else 0
  }

  /**
   * An encoded record is zero everywhere except the title bytes at the start
   * of the name field, "ul." and the id bytes at the start of the image field,
   * the parts byte, the media byte and pad[4].
   */
  lemma RecordLayout(g: Game)
    requires Fits(g)
    ensures forall j :: 0 <= j < RecordSize ==> Record(g)[j] == LayoutByte(g, j)
  {
    var r := Record(g);
    var name := Field(g.title, NameWidth);
    var image := Field(ImagePrefix + g.id, ImageWidth);
    assert r == name + image + [PartsByte(g.partCount), EncodeMedia(g.media)] + PadBytes();
    forall j | 0 <= j < RecordSize
      ensures r[j] == LayoutByte(g, j)
    {
      if j < ImageOffset {
        assert r[j] == name[j];
      } else if j < PartsOffset {
        assert r[j] == image[j - ImageOffset];
        assert (ImagePrefix + g.id)[..] == ImagePrefix + g.id;
      } else if j >= PadOffset {
        assert r[j] == PadBytes()[j - PadOffset];
      }
    }
  }

  /** memcpy(dst + at, src, |src|): only the bytes from `at` on are overwritten. */
  method CopyBytes(dst: array<byte>, at: nat, src: seq<byte>)
    requires at + |src| <= dst.Length
    modifies dst
    ensures forall j :: 0 <= j < dst.Length ==>
              dst[j] == (if at <= j < at + |src| then src[j - at] else old(dst[j]))
  {
    for k := 0 to |src|
      invariant forall j :: 0 <= j < dst.Length ==>
                  dst[j] == (if at <= j < at + k then src[j - at] else old(dst[j]))
    {
      dst[at + k] := src[k];
    }
  }

  /**
   * The RawConfigRecord constructor: zero the whole record, copy the tag and
   * the id into the image field and the title into the name field, then set
   * the media byte, the parts byte and pad[4].
   */
  method BuildRecord(g: Game) returns (bytes: seq<byte>)
    requires Fits(g)
    ensures bytes == Record(g)
  {
    var rec := new byte[RecordSize](_ => 0);
    CopyBytes(rec, ImageOffset, ImagePrefix);
    CopyBytes(rec, ImageOffset + |ImagePrefix|, g.id);
    CopyBytes(rec, NameOffset, g.title);
    rec[MediaOffset] := EncodeMedia(g.media);
    rec[PartsOffset] := PartsByte(g.partCount);
    rec[PadOffset + PadMarkerIndex] := PadMarker;
    RecordLayout(g);
    assert forall j :: 0 <= j < RecordSize ==> rec[j] == LayoutByte(g, j);
    bytes := rec[..];
  }

  /** strlen kept inside `s`: the index of the first NUL, or |s| when there is none. */
  function CStrLen(s: seq<byte>): (n: nat)
    ensures n <= |s|
    ensures forall i :: 0 <= i < n ==> s[i] != 0
    ensures n < |s| ==> s[n] == 0
  {
    if |s| == 0 || s[0] == 0 then 0 else 1 + CStrLen(s[1..])
  }

  /**
   * The title `load` reads from a name field: up to the first NUL when the
   * field's last byte is NUL, otherwise all NameWidth bytes.
   */
  function DecodeTitle(name: seq<byte>): (title: seq<byte>)
    requires |name| == NameWidth
    ensures |title| <= NameWidth && title == name[..|title|]
    ensures name[NameWidth - 1] == 0 ==> NoNul(title) && name[|title|] == 0
    ensures name[NameWidth - 1] != 0 ==> title == name
  {
    if name[NameWidth - 1] == 0 then name[..CStrLen(name)] else name
  }

  /** The id in an image field: the bytes after the tag, up to the first NUL or the field's end. */
  function DecodeId(image: seq<byte>): (id: seq<byte>)
    requires |image| == ImageWidth
    ensures |ImagePrefix| + |id| <= ImageWidth && NoNul(id)
    ensures id == image[|ImagePrefix|..|ImagePrefix| + |id|]
    ensures |ImagePrefix| + |id| < ImageWidth ==> image[|ImagePrefix| + |id|] == 0
  {
    var tail := image[|ImagePrefix|..];
    tail[..CStrLen(tail)]
  }

  /** The switch on the media byte. */
  function DecodeMedia(b: byte): MediaType
  {
    if b == MediaCdCode then CD else if b == MediaDvdCode then DVD else Unknown
  }

  /** The game `load` creates from one complete record. */
  function DecodeRecord(rec: seq<byte>): (g: Game)
    requires |rec| == RecordSize
    ensures |ImagePrefix| + |g.id| <= ImageWidth && NoNul(g.id)
    ensures g.id == rec[ImageOffset + |ImagePrefix|..ImageOffset + |ImagePrefix| + |g.id|]
    ensures |ImagePrefix| + |g.id| < ImageWidth ==> rec[ImageOffset + |ImagePrefix| + |g.id|] == 0
    ensures |g.title| <= NameWidth && g.title == rec[NameOffset..NameOffset + |g.title|]
    ensures rec[NameOffset + NameWidth - 1] == 0 ==> NoNul(g.title) && rec[NameOffset + |g.title|] == 0
    ensures rec[NameOffset + NameWidth - 1] != 0 ==> |g.title| == NameWidth
    ensures 0 <= g.partCount < 256 && g.partCount == rec[PartsOffset] as int
    ensures g.media == CD <==> rec[MediaOffset] == MediaCdCode
    ensures g.media == DVD <==> rec[MediaOffset] == MediaDvdCode
  {
    Game(DecodeId(rec[ImageOffset..ImageOffset + ImageWidth]),
         DecodeTitle(rec[NameOffset..NameOffset + NameWidth]),
         DecodeMedia(rec[MediaOffset]),
         rec[PartsOffset] as int)
  }

  /** The media byte written is 0x14 for DVD and 0x12 for CD and Unknown alike. */
  lemma EncodeMediaCodes(m: MediaType)
    ensures EncodeMedia(m) == MediaDvdCode <==> m == DVD
    ensures EncodeMedia(m) == MediaCdCode <==> m != DVD
  {
  }

  /** 0x12 reads as CD, 0x14 as DVD and every other byte as Unknown. */
  lemma DecodeMediaCodes(b: byte)
    ensures DecodeMedia(b) == CD <==> b == MediaCdCode
    ensures DecodeMedia(b) == DVD <==> b == MediaDvdCode
    ensures DecodeMedia(b) == Unknown <==> b != MediaCdCode && b != MediaDvdCode
  {
  }

  /** The media type survives a write and a read exactly when it is CD or DVD. */
  lemma MediaRoundTrip(m: MediaType)
    ensures DecodeMedia(EncodeMedia(m)) == (if m == Unknown then CD else m)
    ensures DecodeMedia(EncodeMedia(m)) == m <==> m != Unknown
  {
  }

  /** A NUL-free byte string followed by at least one zero has strlen equal to its length. */
  lemma {:induction false} CStrLenOfTerminated(s: seq<byte>, k: nat)
    requires NoNul(s) && k > 0
    ensures CStrLen(s + Zeros(k)) == |s|
  {
    var t := s + Zeros(k);
    assert t[|s|] == 0;
    assert forall i :: 0 <= i < |s| ==> t[i] == s[i];
  }

  lemma {:induction false} CStrLenOfNoNul(s: seq<byte>)
    requires NoNul(s)
    ensures CStrLen(s) == |s|
  {
  }

  /** A title without NUL bytes that fits the name field reads back unchanged. */
  lemma TitleRoundTrip(title: seq<byte>)
    requires |title| <= NameWidth && NoNul(title)
    ensures DecodeTitle(Field(title, NameWidth)) == title
  {
    var name := Field(title, NameWidth);
    if |title| < NameWidth {
      CStrLenOfTerminated(title, NameWidth - |title|);
      assert name[NameWidth - 1] == 0;
      assert name[..|title|] == title;
    } else {
      assert name == title;
    }
  }

  /**
   * An id without NUL bytes whose tagged form fits the image field reads
   * back unchanged (also when it fills the field: the read stops at the
   * field's end).
   */
  lemma IdRoundTrip(id: seq<byte>)
    requires |ImagePrefix| + |id| <= ImageWidth && NoNul(id)
    ensures DecodeId(Field(ImagePrefix + id, ImageWidth)) == id
  {
    var image := Field(ImagePrefix + id, ImageWidth);
    var tail := image[|ImagePrefix|..];
    assert tail == id + Zeros(ImageWidth - |ImagePrefix| - |id|);
    if |ImagePrefix| + |id| < ImageWidth {
      CStrLenOfTerminated(id, ImageWidth - |ImagePrefix| - |id|);
    } else {
      assert tail == id;
      CStrLenOfNoNul(id);
    }
    assert tail[..|id|] == id;
  }

  /** The name field, the image field, the parts byte and the media byte of an encoded record. */
  lemma RecordFields(g: Game)
    requires Fits(g)
    ensures Record(g)[NameOffset..NameOffset + NameWidth] == Field(g.title, NameWidth)
    ensures Record(g)[ImageOffset..ImageOffset + ImageWidth] == Field(ImagePrefix + g.id, ImageWidth)
    ensures Record(g)[PartsOffset] == PartsByte(g.partCount)
    ensures Record(g)[MediaOffset] == EncodeMedia(g.media)
    ensures Record(g)[PadOffset..] == PadBytes()
  {
    var name := Field(g.title, NameWidth);
    var image := Field(ImagePrefix + g.id, ImageWidth);
    var r := Record(g);
    assert r == name + image + [PartsByte(g.partCount), EncodeMedia(g.media)] + PadBytes();
    assert r[NameOffset..NameOffset + NameWidth] == name;
    assert r[ImageOffset..ImageOffset + ImageWidth] == image;
  }

  /**
   * Writing a game and reading the record back gives the same id and title
   * (when they hold no NUL), CD for Unknown media, and the part count modulo 256.
   */
  lemma RecordRoundTrip(g: Game)
    requires Fits(g) && NoNul(g.title) && NoNul(g.id)
    ensures DecodeRecord(Record(g))
            == Game(g.id, g.title, if g.media == Unknown then CD else g.media, g.partCount % 256)
  {
    RecordFields(g);
    TitleRoundTrip(g.title);
    IdRoundTrip(g.id);
    MediaRoundTrip(g.media);
  }

  /** Such a game reads back as itself exactly when its media is known and its part count is a byte. */
  lemma RecordRoundTripExact(g: Game)
    requires Fits(g) && NoNul(g.title) && NoNul(g.id)
    ensures DecodeRecord(Record(g)) == g <==> g.media != Unknown && 0 <= g.partCount < 256
  {
    RecordRoundTrip(g);
  }

  /**
   * The id as `load` reads it as written: `strlen(image) - 3` bytes from
   * image[3]. strlen does not stop at the end of the image field; it runs on
   * through parts, media and pad. None stands for the two cases the
   * expression has no meaning: fewer than three bytes before the first NUL
   * (the size_t subtraction wraps) and no NUL up to the end of the buffer.
   */
  function DecodeIdAsWritten(rec: seq<byte>): (r: Option<seq<byte>>)
    requires |rec| == RecordSize
    ensures r.Some? ==> NoNul(r.value) && ImageOffset + |ImagePrefix| + |r.value| < RecordSize
    ensures r.Some? ==> r.value == rec[ImageOffset + |ImagePrefix|..ImageOffset + |ImagePrefix| + |r.value|]
    ensures r.Some? ==> rec[ImageOffset + |ImagePrefix| + |r.value|] == 0
    ensures r.None? <==> NoNul(rec[ImageOffset..]) || exists i :: ImageOffset <= i < ImageOffset + |ImagePrefix| && rec[i] == 0
  {
    var fromImage := rec[ImageOffset..];
    var n := CStrLen(fromImage);
    if n < |ImagePrefix| || n == |fromImage| then None
    else Some(fromImage[|ImagePrefix|..n])
  }

  /** When the image field holds its own NUL after the tag, the code as written reads the same id. */
  lemma AsWrittenAgreesWhenTerminated(rec: seq<byte>)
    requires |rec| == RecordSize
    requires |ImagePrefix| <= CStrLen(rec[ImageOffset..ImageOffset + ImageWidth]) < ImageWidth
    ensures DecodeIdAsWritten(rec) == Some(DecodeId(rec[ImageOffset..ImageOffset + ImageWidth]))
  {
    var image := rec[ImageOffset..ImageOffset + ImageWidth];
    var fromImage := rec[ImageOffset..];
    var n := CStrLen(image);
    assert forall i :: 0 <= i < ImageWidth ==> fromImage[i] == image[i];
    assert fromImage[n] == 0;
    assert CStrLen(fromImage) == n;
    var tail := image[|ImagePrefix|..];
    var m := CStrLen(tail);
    assert forall i :: 0 <= i < |tail| ==> tail[i] == image[i + |ImagePrefix|];
    assert tail[n - |ImagePrefix|] == 0;
    assert m == n - |ImagePrefix|;
    assert fromImage[|ImagePrefix|..n] == tail[..m];
  }

  /**
   * An id shorter than the rest of the image field (3 + |id| < ImageWidth) is
   * followed by a NUL inside the field, so the code as written reads it back
   * unchanged.
   */
  lemma ShortIdReadsBackAsWritten(g: Game)
    requires Fits(g) && NoNul(g.id) && |ImagePrefix| + |g.id| < ImageWidth
    ensures DecodeIdAsWritten(Record(g)) == Some(g.id)
  {
    var r := Record(g);
    RecordFields(g);
    var image := r[ImageOffset..ImageOffset + ImageWidth];
    var n := |ImagePrefix| + |g.id|;
    assert image == ImagePrefix + g.id + Zeros(ImageWidth - n);
    assert image[n] == 0;
    forall i | 0 <= i < n
      ensures image[i] != 0
    {
      if i >= |ImagePrefix| {
        assert image[i] == g.id[i - |ImagePrefix|];
      }
    }
    assert CStrLen(image) == n;
    AsWrittenAgreesWhenTerminated(r);
    IdRoundTrip(g.id);
  }

  /**
   * An id that fills the image field (3 + |id| == ImageWidth) is read back by
   * the code as written with the parts byte and the media byte appended,
   * because pad[0] is the first NUL strlen meets.
   */
  lemma FullWidthIdOverrunsAsWritten(g: Game)
    requires Fits(g) && NoNul(g.id) && |ImagePrefix| + |g.id| == ImageWidth
    requires PartsByte(g.partCount) != 0
    ensures DecodeIdAsWritten(Record(g)) == Some(g.id + [PartsByte(g.partCount), EncodeMedia(g.media)])
  {
    var r := Record(g);
    RecordLayout(g);
    var fromImage := r[ImageOffset..];
    var expected := ImagePrefix + g.id + [PartsByte(g.partCount), EncodeMedia(g.media)];
    assert |expected| == ImageWidth + 2;
    forall i | 0 <= i < ImageWidth + 2
      ensures fromImage[i] == expected[i] && fromImage[i] != 0
    {
      assert fromImage[i] == LayoutByte(g, ImageOffset + i);
    }
    assert fromImage[ImageWidth + 2] == LayoutByte(g, PadOffset) == 0;
    var n := CStrLen(fromImage);
    assert n == ImageWidth + 2;
    assert fromImage[|ImagePrefix|..n] == g.id + [PartsByte(g.partCount), EncodeMedia(g.media)];
  }

  /** "SLUS_2000.01": twelve bytes, so "ul." plus the id fills the 15-byte image field. */
  const FullWidthId: seq<byte> := [0x53, 0x4C, 0x55, 0x53, 0x5F, 0x32, 0x30, 0x30, 0x30, 0x2E, 0x30, 0x31]

  const FullWidthGame: Game := Game(FullWidthId, [0x47], DVD, 1)

  /**
   * A one-part DVD with that id: the code as written reads its id back with
   * two extra bytes, 0x01 and 0x14, while the decoder bounded by the field
   * reads it back exactly.
   */
  lemma FullWidthIdExample()
    ensures Fits(FullWidthGame)
    ensures DecodeIdAsWritten(Record(FullWidthGame)) == Some(FullWidthId + [0x01, 0x14])
    ensures DecodeIdAsWritten(Record(FullWidthGame)) != Some(FullWidthId)
    ensures DecodeRecord(Record(FullWidthGame)).id == FullWidthId
  {
    var g := FullWidthGame;
    assert |g.id| == 12;
    assert NoNul(g.id);
    assert NoNul(g.title);
    assert PartsByte(1) == 0x01;
    FullWidthIdOverrunsAsWritten(g);
    RecordRoundTrip(g);
    assert FullWidthId + [0x01, 0x14] != FullWidthId;
  }
}
