/** The packed ctypes structures of the protocol as values, with their byte encodings.
    Every structure is declared with `_pack_ = 1`, so its fields follow each other with no
    padding: an encoding is exactly the concatenation of its fields. The envelope records
    (command block wrapper, command status wrapper) are little-endian; the controller's own
    records (Area, DisplayArea, SystemInfo, the INQUIRY response) are big-endian.
    Decoding models `Structure.from_buffer`: a buffer shorter than the structure is
    refused, a longer one is read through its first `size` bytes. */
module Structs {
  import opened Bytes
  import opened Errors

  // ---------------------------------------------------------------- Area (big-endian)

  const AREA_SIZE: nat := 20

  /** Where a rectangle of pixels goes in the controller's image buffer. */
  datatype Area = Area(address: u32, x: u32, y: u32, w: u32, h: u32)

  function AreaWords(a: Area): seq<u32> { [a.address, a.x, a.y, a.w, a.h] }

  function EncodeArea(a: Area): (r: seq<byte>)
    ensures |r| == AREA_SIZE
  {
    EncodeWordsBE(AreaWords(a))
  }

  function DecodeArea(buf: seq<byte>): (r: Result<Area>)
    ensures r.Ok? <==> |buf| >= AREA_SIZE
  {
    if |buf| < AREA_SIZE then Err(BufferTooShort)
    else
      var ws := DecodeWordsBE(buf[..AREA_SIZE]);
      Ok(Area(ws[0], ws[1], ws[2], ws[3], ws[4]))
  }

  /** address, x, y, w, h at offsets 0, 4, 8, 12, 16, each most significant byte first. */
  lemma AreaLayout(a: Area)
    ensures EncodeArea(a)[0..4] == BE32(a.address)
    ensures EncodeArea(a)[4..8] == BE32(a.x)
    ensures EncodeArea(a)[8..12] == BE32(a.y)
    ensures EncodeArea(a)[12..16] == BE32(a.w)
    ensures EncodeArea(a)[16..20] == BE32(a.h)
  {
    EncodeWordsBEAt(AreaWords(a), 0);
    EncodeWordsBEAt(AreaWords(a), 1);
    EncodeWordsBEAt(AreaWords(a), 2);
    EncodeWordsBEAt(AreaWords(a), 3);
    EncodeWordsBEAt(AreaWords(a), 4);
  }

  lemma AreaRoundTrip(a: Area)
    ensures DecodeArea(EncodeArea(a)) == Ok(a)
  {
    WordsBERoundTrip(AreaWords(a));
    assert EncodeArea(a)[..AREA_SIZE] == EncodeArea(a);
  }

  lemma AreaBytesRoundTrip(buf: seq<byte>)
    requires |buf| >= AREA_SIZE
    ensures EncodeArea(DecodeArea(buf).value) == buf[..AREA_SIZE]
  {
    var ws := DecodeWordsBE(buf[..AREA_SIZE]);
    assert AreaWords(DecodeArea(buf).value) == ws;
    BytesBERoundTrip(buf[..AREA_SIZE]);
  }

  // --------------------------------------------------------- DisplayArea (big-endian)

  const DISPLAY_AREA_SIZE: nat := 28

  /** A request to refresh a rectangle of the panel from the image buffer. */
  datatype DisplayArea =
    DisplayArea(address: u32, displayMode: u32, x: u32, y: u32, w: u32, h: u32, waitReady: u32)

  function DisplayAreaWords(d: DisplayArea): seq<u32>
  {
    [d.address, d.displayMode, d.x, d.y, d.w, d.h, d.waitReady]
  }

  function EncodeDisplayArea(d: DisplayArea): (r: seq<byte>)
    ensures |r| == DISPLAY_AREA_SIZE
  {
    EncodeWordsBE(DisplayAreaWords(d))
  }

  function DecodeDisplayArea(buf: seq<byte>): (r: Result<DisplayArea>)
    ensures r.Ok? <==> |buf| >= DISPLAY_AREA_SIZE
  {
    if |buf| < DISPLAY_AREA_SIZE then Err(BufferTooShort)
    else
      var ws := DecodeWordsBE(buf[..DISPLAY_AREA_SIZE]);
      Ok(DisplayArea(ws[0], ws[1], ws[2], ws[3], ws[4], ws[5], ws[6]))
  }

  /** The seven words in declaration order, four bytes each, most significant byte first. */
  lemma DisplayAreaLayout(d: DisplayArea)
    ensures EncodeDisplayArea(d)[0..4] == BE32(d.address)
    ensures EncodeDisplayArea(d)[4..8] == BE32(d.displayMode)
    ensures EncodeDisplayArea(d)[8..12] == BE32(d.x)
    ensures EncodeDisplayArea(d)[12..16] == BE32(d.y)
    ensures EncodeDisplayArea(d)[16..20] == BE32(d.w)
    ensures EncodeDisplayArea(d)[20..24] == BE32(d.h)
    ensures EncodeDisplayArea(d)[24..28] == BE32(d.waitReady)
  {
    var ws := DisplayAreaWords(d);
    EncodeWordsBEAt(ws, 0);
    EncodeWordsBEAt(ws, 1);
    EncodeWordsBEAt(ws, 2);
    EncodeWordsBEAt(ws, 3);
    EncodeWordsBEAt(ws, 4);
    EncodeWordsBEAt(ws, 5);
    EncodeWordsBEAt(ws, 6);
  }

  lemma DisplayAreaRoundTrip(d: DisplayArea)
    ensures DecodeDisplayArea(EncodeDisplayArea(d)) == Ok(d)
  {
    WordsBERoundTrip(DisplayAreaWords(d));
    assert EncodeDisplayArea(d)[..DISPLAY_AREA_SIZE] == EncodeDisplayArea(d);
  }

  lemma DisplayAreaBytesRoundTrip(buf: seq<byte>)
    requires |buf| >= DISPLAY_AREA_SIZE
    ensures EncodeDisplayArea(DecodeDisplayArea(buf).value) == buf[..DISPLAY_AREA_SIZE]
  {
    var ws := DecodeWordsBE(buf[..DISPLAY_AREA_SIZE]);
    assert DisplayAreaWords(DecodeDisplayArea(buf).value) == ws;
    BytesBERoundTrip(buf[..DISPLAY_AREA_SIZE]);
  }

  // ---------------------------------------------------------- SystemInfo (big-endian)

  const SYSTEM_INFO_SIZE: nat := 112

  /** The controller's self-description; `frameCount` and `reserved` are the fixed-length
      arrays `c_uint32 * 8` and `c_uint32 * 9`. */
  datatype SystemInfo = SystemInfo(
    standardCmdNo: u32, extendedCmdNo: u32, signature: u32, version: u32,
    width: u32, height: u32, updateBufBase: u32, imageBufBase: u32,
    temperatureNo: u32, mode: u32, frameCount: seq<u32>, numImgBuf: u32, reserved: seq<u32>)
  {
    predicate Valid() { |frameCount| == 8 && |reserved| == 9 }
  }

  function ScalarWords(s: SystemInfo): seq<u32>
  {
    [s.standardCmdNo, s.extendedCmdNo, s.signature, s.version, s.width, s.height,
     s.updateBufBase, s.imageBufBase, s.temperatureNo, s.mode]
  }

  function SystemInfoWords(s: SystemInfo): seq<u32>
  {
    ScalarWords(s) + s.frameCount + [s.numImgBuf] + s.reserved
  }

  function EncodeSystemInfo(s: SystemInfo): (r: seq<byte>)
    requires s.Valid()
    ensures |r| == SYSTEM_INFO_SIZE
  {
    EncodeWordsBE(SystemInfoWords(s))
  }

  function DecodeSystemInfo(buf: seq<byte>): (r: Result<SystemInfo>)
    ensures r.Ok? <==> |buf| >= SYSTEM_INFO_SIZE
    ensures r.Ok? ==> r.value.Valid()
  {
    if |buf| < SYSTEM_INFO_SIZE then Err(BufferTooShort)
    else
      var ws := DecodeWordsBE(buf[..SYSTEM_INFO_SIZE]);
      Ok(SystemInfo(ws[0], ws[1], ws[2], ws[3], ws[4], ws[5], ws[6], ws[7], ws[8], ws[9],
                    ws[10..18], ws[18], ws[19..28]))
  }

  /** Ten words from standard_cmd_no to mode at 0..39 (so image_buf_base at 28..31),
      frame_count at 40..71, num_img_buf at 72..75 and reserved at 76..111. */
  lemma SystemInfoLayout(s: SystemInfo)
    requires s.Valid()
    ensures EncodeSystemInfo(s)[0..40] == EncodeWordsBE(ScalarWords(s))
    ensures EncodeSystemInfo(s)[24..28] == BE32(s.updateBufBase)
    ensures EncodeSystemInfo(s)[28..32] == BE32(s.imageBufBase)
    ensures EncodeSystemInfo(s)[40..72] == EncodeWordsBE(s.frameCount)
    ensures EncodeSystemInfo(s)[72..76] == BE32(s.numImgBuf)
    ensures EncodeSystemInfo(s)[76..112] == EncodeWordsBE(s.reserved)
  {
    EncodeWordsBEAppend(ScalarWords(s), s.frameCount);
    EncodeWordsBEAppend(ScalarWords(s) + s.frameCount, [s.numImgBuf]);
    EncodeWordsBEAppend(ScalarWords(s) + s.frameCount + [s.numImgBuf], s.reserved);
    EncodeWordsBEAt(ScalarWords(s), 6);
    EncodeWordsBEAt(ScalarWords(s), 7);
    EncodeWordsBEAt([s.numImgBuf], 0);
  }

  lemma SystemInfoRoundTrip(s: SystemInfo)
    requires s.Valid()
    ensures DecodeSystemInfo(EncodeSystemInfo(s)) == Ok(s)
  {
    var ws := SystemInfoWords(s);
    WordsBERoundTrip(ws);
    assert EncodeSystemInfo(s)[..SYSTEM_INFO_SIZE] == EncodeSystemInfo(s);
    assert ws[10..18] == s.frameCount;
    assert ws[19..28] == s.reserved;
  }

  lemma SystemInfoBytesRoundTrip(buf: seq<byte>)
    requires |buf| >= SYSTEM_INFO_SIZE
    ensures EncodeSystemInfo(DecodeSystemInfo(buf).value) == buf[..SYSTEM_INFO_SIZE]
  {
    var ws := DecodeWordsBE(buf[..SYSTEM_INFO_SIZE]);
    assert ws == ws[..10] + ws[10..18] + [ws[18]] + ws[19..28];
    assert SystemInfoWords(DecodeSystemInfo(buf).value) == ws;
    BytesBERoundTrip(buf[..SYSTEM_INFO_SIZE]);
  }

  // ----------------------------------------------- CommandBlockWrapper (little-endian)

  const CBW_SIZE: nat := 31

  /** The Bulk-Only Transport request envelope (section 5.1 of the USB Mass Storage Class
      Bulk-Only Transport specification, revision 1.0). */
  datatype CommandBlockWrapper = CommandBlockWrapper(
    signature: seq<byte>, tag: u32, dataTransferLength: u32,
    flags: byte, lun: byte, blockLength: byte, blockData: seq<byte>)
  {
    predicate Valid() { |signature| == 4 && |blockData| == 16 }
  }

  function EncodeCbw(c: CommandBlockWrapper): (r: seq<byte>)
    requires c.Valid()
    ensures |r| == CBW_SIZE
  {
    c.signature + LE32(c.tag) + LE32(c.dataTransferLength) + [c.flags, c.lun, c.blockLength]
      + c.blockData
  }

  function DecodeCbw(buf: seq<byte>): (r: Result<CommandBlockWrapper>)
    ensures r.Ok? <==> |buf| >= CBW_SIZE
    ensures r.Ok? ==> r.value.Valid()
  {
    if |buf| < CBW_SIZE then Err(BufferTooShort)
    else
      Ok(CommandBlockWrapper(buf[0..4], FromLE32(buf[4..8]), FromLE32(buf[8..12]),
                             buf[12], buf[13], buf[14], buf[15..31]))
  }

  /** signature 0..3, tag 4..7, data_transfer_length 8..11 (least significant byte first),
      flags 12, lun 13, block_length 14, block_data 15..30. */
  lemma CbwLayout(c: CommandBlockWrapper)
    requires c.Valid()
    ensures EncodeCbw(c)[0..4] == c.signature
    ensures EncodeCbw(c)[4..8] == LE32(c.tag)
    ensures EncodeCbw(c)[8..12] == LE32(c.dataTransferLength)
    ensures EncodeCbw(c)[12] == c.flags && EncodeCbw(c)[13] == c.lun
    ensures EncodeCbw(c)[14] == c.blockLength
    ensures EncodeCbw(c)[15..31] == c.blockData
  {
  }

  lemma CbwRoundTrip(c: CommandBlockWrapper)
    requires c.Valid()
    ensures DecodeCbw(EncodeCbw(c)) == Ok(c)
  {
    CbwLayout(c);
    LE32RoundTrip(c.tag);
    LE32RoundTrip(c.dataTransferLength);
  }

  lemma CbwBytesRoundTrip(buf: seq<byte>)
    requires |buf| >= CBW_SIZE
    ensures EncodeCbw(DecodeCbw(buf).value) == buf[..CBW_SIZE]
  {
    FromLE32RoundTrip(buf[4..8]);
    FromLE32RoundTrip(buf[8..12]);
    assert buf[..CBW_SIZE] == buf[0..4] + buf[4..8] + buf[8..12] + [buf[12], buf[13], buf[14]]
      + buf[15..31];
  }

  // --------------------------------------------- CommandStatusWrapper (little-endian)

  const CSW_SIZE: nat := 13

  /** The Bulk-Only Transport status envelope (section 5.2 of the same specification). */
  datatype CommandStatusWrapper =
    CommandStatusWrapper(signature: seq<byte>, tag: u32, dataResidue: u32, status: byte)
  {
    predicate Valid() { |signature| == 4 }
  }

  function EncodeCsw(c: CommandStatusWrapper): (r: seq<byte>)
    requires c.Valid()
    ensures |r| == CSW_SIZE
  {
    c.signature + LE32(c.tag) + LE32(c.dataResidue) + [c.status]
  }

  function DecodeCsw(buf: seq<byte>): (r: Result<CommandStatusWrapper>)
    ensures r.Ok? <==> |buf| >= CSW_SIZE
    ensures r.Ok? ==> r.value.Valid()
  {
    if |buf| < CSW_SIZE then Err(BufferTooShort)
    else Ok(CommandStatusWrapper(buf[0..4], FromLE32(buf[4..8]), FromLE32(buf[8..12]), buf[12]))
  }

  /** signature 0..3, tag 4..7, data_residue 8..11, status 12. */
  lemma CswLayout(c: CommandStatusWrapper)
    requires c.Valid()
    ensures EncodeCsw(c)[0..4] == c.signature
    ensures EncodeCsw(c)[4..8] == LE32(c.tag)
    ensures EncodeCsw(c)[8..12] == LE32(c.dataResidue)
    ensures EncodeCsw(c)[12] == c.status
  {
  }

  lemma CswRoundTrip(c: CommandStatusWrapper)
    requires c.Valid()
    ensures DecodeCsw(EncodeCsw(c)) == Ok(c)
  {
    CswLayout(c);
    LE32RoundTrip(c.tag);
    LE32RoundTrip(c.dataResidue);
  }

  lemma CswBytesRoundTrip(buf: seq<byte>)
    requires |buf| >= CSW_SIZE
    ensures EncodeCsw(DecodeCsw(buf).value) == buf[..CSW_SIZE]
  {
    FromLE32RoundTrip(buf[4..8]);
    FromLE32RoundTrip(buf[8..12]);
    assert buf[..CSW_SIZE] == buf[0..4] + buf[4..8] + buf[8..12] + [buf[12]];
  }

  // ----------------------------------------------------- CommandInquiry (byte arrays)

  const INQUIRY_SIZE: nat := 40

  /** The 40-byte INQUIRY response, laid out as standard INQUIRY data (section 6.4.2 of
      SCSI Primary Commands - 3): vendor identification, product identification and
      product revision level are fixed-width byte fields. */
  datatype CommandInquiry = CommandInquiry(
    ignoreStart: seq<byte>, vendor: seq<byte>, product: seq<byte>, revision: seq<byte>,
    ignoreEnd: seq<byte>)
  {
    predicate Valid()
    {
      |ignoreStart| == 8 && |vendor| == 8 && |product| == 16 && |revision| == 4
      && |ignoreEnd| == 4
    }
  }

  function EncodeInquiry(c: CommandInquiry): (r: seq<byte>)
    requires c.Valid()
    ensures |r| == INQUIRY_SIZE
  {
    c.ignoreStart + c.vendor + c.product + c.revision + c.ignoreEnd
  }

  function DecodeInquiry(buf: seq<byte>): (r: Result<CommandInquiry>)
    ensures r.Ok? <==> |buf| >= INQUIRY_SIZE
    ensures r.Ok? ==> r.value.Valid()
  {
    if |buf| < INQUIRY_SIZE then Err(BufferTooShort)
    else Ok(CommandInquiry(buf[0..8], buf[8..16], buf[16..32], buf[32..36], buf[36..40]))
  }

  /** 8 ignored bytes, vendor 8..15, product 16..31, revision 32..35, 4 ignored bytes. */
  lemma InquiryLayout(c: CommandInquiry)
    requires c.Valid()
    ensures EncodeInquiry(c)[0..8] == c.ignoreStart
    ensures EncodeInquiry(c)[8..16] == c.vendor
    ensures EncodeInquiry(c)[16..32] == c.product
    ensures EncodeInquiry(c)[32..36] == c.revision
    ensures EncodeInquiry(c)[36..40] == c.ignoreEnd
  {
  }

  lemma InquiryRoundTrip(c: CommandInquiry)
    requires c.Valid()
    ensures DecodeInquiry(EncodeInquiry(c)) == Ok(c)
  {
    InquiryLayout(c);
  }

  lemma InquiryBytesRoundTrip(buf: seq<byte>)
    requires |buf| >= INQUIRY_SIZE
    ensures EncodeInquiry(DecodeInquiry(buf).value) == buf[..INQUIRY_SIZE]
  {
    assert buf[..INQUIRY_SIZE] == buf[0..8] + buf[8..16] + buf[16..32] + buf[32..36] + buf[36..40];
  }
}
