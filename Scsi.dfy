/** The controller's SCSI-level commands on top of the transport: INQUIRY, the
    system-information query, loading an area of the image buffer, displaying an area,
    and the region uploader that splits an image into loads which each fit in one bulk
    transfer and then refreshes the panel once. */
module Scsi {
  import opened Bytes
  import opened Errors
  import opened Structs
  import opened Consts
  import opened Usb

  // ------------------------------------------------------------------ display modes

  /** The waveform modes, numbered from 0 in declaration order. The ninth, `__Unknown`
      (code 8), is name-mangled to `_Mode__Unknown`; it is an enum member only up to Python 3.10,
      since from Python 3.11 on a private name in an Enum body is a plain attribute. */
  datatype Mode = Init | DU | GC16 | GL16 | GLR16 | GLD16 | DU4 | A2 | Unknown

  /** The modes in declaration order. */
  const Modes: seq<Mode> := [Init, DU, GC16, GL16, GLR16, GLD16, DU4, A2, Unknown]

  /** The integer value of a mode, as the `display_mode` word of a DisplayArea carries it. */
  function Code(m: Mode): (r: u32)
    ensures r < |Modes| && Modes[r] == m
  {
    match m
    case Init => 0
    case DU => 1
    case GC16 => 2
    case GL16 => 3
    case GLR16 => 4
    case GLD16 => 5
    case DU4 => 6
    case A2 => 7
    case Unknown => 8
  }

  /** `INIT = 0` and every later member is one more than the one before it. */
  lemma ModeNumbering()
    ensures forall i :: 0 <= i < |Modes| ==> Code(Modes[i]) == i
    ensures forall m, n :: Code(m) == Code(n) ==> m == n
  {
    forall m, n | Code(m) == Code(n)
      ensures m == n
    {
      assert Modes[Code(m)] == m && Modes[Code(n)] == n;
    }
  }

  // ------------------------------------------------------------------------ inquiry

  /** The identification strings of an INQUIRY response, kept as the raw bytes of their
      fixed-width fields (no trimming of the space padding); each field is UTF-8. */
  datatype Inquiry = Inquiry(vendor: seq<byte>, product: seq<byte>, revision: seq<byte>)

  predicate InRange(b: byte, lo: byte, hi: byte) { lo <= b <= hi }

  /** The length of the well-formed UTF-8 sequence at the front of `s` (Table 3-7 of the
      Unicode Standard: no overlong forms, no surrogates, nothing above U+10FFFF), or 0 when
      the front is ill-formed. */
  function ScalarLength(s: seq<byte>): (n: nat)
    requires s != []
    ensures n <= |s| && n <= 4
  {
    var b := s[0];
    if b <= 0x7f then 1
    else if 0xc2 <= b <= 0xdf then
      (if |s| >= 2 && InRange(s[1], 0x80, 0xbf) then 2 else 0)
    else if 0xe0 <= b <= 0xef then
      (if |s| >= 3 && InRange(s[1], if b == 0xe0 then 0xa0 else 0x80, if b == 0xed then 0x9f else 0xbf)
          && InRange(s[2], 0x80, 0xbf) then 3 else 0)
    else if 0xf0 <= b <= 0xf4 then
      (if |s| >= 4 && InRange(s[1], if b == 0xf0 then 0x90 else 0x80, if b == 0xf4 then 0x8f else 0xbf)
          && InRange(s[2], 0x80, 0xbf) && InRange(s[3], 0x80, 0xbf) then 4 else 0)
    else 0
  }

  /** `bytes.decode()` succeeds: the bytes are a sequence of well-formed UTF-8 sequences. */
  predicate Utf8(s: seq<byte>)
    decreases |s|
  {
    s == [] || (ScalarLength(s) > 0 && Utf8(s[ScalarLength(s)..]))
  }

  /** ASCII text, NUL padding included, decodes. */
  lemma {:induction false} AsciiIsUtf8(s: seq<byte>)
    requires forall i :: 0 <= i < |s| ==> s[i] <= 0x7f
    ensures Utf8(s)
    decreases |s|
  {
    if s != [] {
      AsciiIsUtf8(s[1..]);
    }
  }

  /** Joining two decodable texts gives a decodable text. */
  lemma {:induction false} Utf8Append(a: seq<byte>, b: seq<byte>)
    requires Utf8(a) && Utf8(b)
    ensures Utf8(a + b)
    decreases |a|
  {
    if a != [] {
      var n := ScalarLength(a);
      assert (a + b)[..n] == a[..n];
      assert ScalarLength(a + b) == n;
      assert (a + b)[n..] == a[n..] + b;
      Utf8Append(a[n..], b);
    } else {
      assert a + b == b;
    }
  }

  /** What Python decodes and what it rejects: "é" as C3 A9 decodes; a lone 0xff byte, the
      overlong C0 80 and the surrogate ED A0 80 raise. */
  lemma Utf8Examples()
    ensures Utf8([0xc3, 0xa9])
    ensures !Utf8([0xff]) && !Utf8([0xc0, 0x80]) && !Utf8([0xed, 0xa0, 0x80])
  {
    assert [0xc3, 0xa9][2..] == [];
  }

  /** The identification strings of a 40-byte INQUIRY response, each decoded as UTF-8. */
  function InquiryOf(buf: seq<byte>): (r: Result<Inquiry>)
    ensures |buf| < INQUIRY_SIZE ==> r == Err(BufferTooShort)
    ensures |buf| >= INQUIRY_SIZE ==>
              r == if Utf8(buf[8..16]) && Utf8(buf[16..32]) && Utf8(buf[32..36])
                   then Ok(Inquiry(buf[8..16], buf[16..32], buf[32..36]))
                   else Err(InvalidText)
  {
    match DecodeInquiry(buf)
    case Ok(c) =>
      if Utf8(c.vendor) && Utf8(c.product) && Utf8(c.revision)
      then Ok(Inquiry(c.vendor, c.product, c.revision))
      else Err(InvalidText)
    case Err(e) => Err(e)
  }

  // ---------------------------------------------------------------- upload planning

  /** `(MAX_TRANSFER - sizeof(Area)) // width`: the most rows of `width` pixels that fit
      in one bulk transfer together with the Area header. */
  function RowHeight(width: nat): nat
    requires width >= 1
  {
    (MAX_TRANSFER - AREA_SIZE) / width
  }

  /** `RowHeight(width)` rows fit in a transfer and one more row does not. */
  lemma RowHeightIsLargest(width: nat)
    requires width >= 1
    ensures AREA_SIZE + RowHeight(width) * width <= MAX_TRANSFER
    ensures AREA_SIZE + (RowHeight(width) + 1) * width > MAX_TRANSFER
  {
  }

  /** One load of the uploader: `rows` rows starting at row `row` of the image. */
  datatype Chunk = Chunk(row: nat, rows: nat)

  /** The loads of the uploader from row `row` on: each takes `rowHeight` rows, clamped to
      the rows that are left. */
  function Chunks(height: nat, rowHeight: nat, row: nat): seq<Chunk>
    requires row < height ==> rowHeight >= 1
    decreases height - row
  {
    if row >= height then []
    else
      var c := Chunk(row, Min(rowHeight, height - row));
      [c] + Chunks(height, rowHeight, row + c.rows)
  }

  /** The loads that `update_region` makes for a `width` by `height` image. */
  function Plan(width: nat, height: nat): seq<Chunk>
    requires width >= 1 && (height > 0 ==> RowHeight(width) >= 1)
  {
    Chunks(height, RowHeight(width), 0)
  }

  /** `cs` covers rows `from` up to `to` in order, each chunk starting where the one before
      it ended, with no chunk empty: a partition of [from, to) without gap or overlap. */
  ghost predicate Tiles(cs: seq<Chunk>, from: nat, to: nat)
    decreases |cs|
  {
    if cs == [] then from == to
    else cs[0].row == from && cs[0].rows >= 1 && Tiles(cs[1..], from + cs[0].rows, to)
  }

  lemma {:induction false} TilesOrdered(cs: seq<Chunk>, from: nat, to: nat)
    requires Tiles(cs, from, to)
    ensures from <= to
    decreases |cs|
  {
    if cs != [] {
      TilesOrdered(cs[1..], from + cs[0].rows, to);
    }
  }

  /** The loads partition the rows of the image. */
  lemma {:induction false} ChunksTile(height: nat, rowHeight: nat, row: nat)
    requires row <= height && rowHeight >= 1
    ensures Tiles(Chunks(height, rowHeight, row), row, height)
    decreases height - row
  {
    if row < height {
      var c := Chunk(row, Min(rowHeight, height - row));
      ChunksTile(height, rowHeight, row + c.rows);
      assert Chunks(height, rowHeight, row)[1..] == Chunks(height, rowHeight, row + c.rows);
    }
  }

  /** Load `j` starts `j` full loads down and takes `rowHeight` rows or what is left. */
  lemma {:induction false} ChunkAt(height: nat, rowHeight: nat, row: nat, j: nat)
    requires row <= height && rowHeight >= 1
    requires j < |Chunks(height, rowHeight, row)|
    ensures row + j * rowHeight < height
    ensures Chunks(height, rowHeight, row)[j]
            == Chunk(row + j * rowHeight, Min(rowHeight, height - (row + j * rowHeight)))
    decreases j
  {
    var c := Chunk(row, Min(rowHeight, height - row));
    var rest := Chunks(height, rowHeight, row + c.rows);
    if j > 0 {
      assert Chunks(height, rowHeight, row)[j] == rest[j - 1];
      assert rest != [];
      assert c.rows == rowHeight;
      ChunkAt(height, rowHeight, row + rowHeight, j - 1);
      assert row + rowHeight + (j - 1) * rowHeight == row + j * rowHeight;
    }
  }

  /** Every load but the last is full, the last one takes the rows that are left, and
      no load is empty. */
  lemma ChunksFull(height: nat, rowHeight: nat)
    requires rowHeight >= 1
    ensures forall j :: 0 <= j < |Chunks(height, rowHeight, 0)| ==>
              1 <= Chunks(height, rowHeight, 0)[j].rows <= rowHeight
    ensures forall j :: 0 <= j < |Chunks(height, rowHeight, 0)| - 1 ==>
              Chunks(height, rowHeight, 0)[j].rows == rowHeight
    ensures Chunks(height, rowHeight, 0) != [] ==>
              var last := Chunks(height, rowHeight, 0)[|Chunks(height, rowHeight, 0)| - 1];
              last.row + last.rows == height
  {
    var cs := Chunks(height, rowHeight, 0);
    forall j | 0 <= j < |cs|
      ensures 1 <= cs[j].rows <= rowHeight
    {
      ChunkAt(height, rowHeight, 0, j);
    }
    forall j | 0 <= j < |cs| - 1
      ensures cs[j].rows == rowHeight
    {
      ChunkAt(height, rowHeight, 0, j);
      ChunkAt(height, rowHeight, 0, j + 1);
      assert (j + 1) * rowHeight == j * rowHeight + rowHeight;
    }
    if cs != [] {
      ChunksTile(height, rowHeight, 0);
      TilesLast(cs, 0, height);
    }
  }

  lemma {:induction false} TilesLast(cs: seq<Chunk>, from: nat, to: nat)
    requires Tiles(cs, from, to) && cs != []
    ensures cs[|cs| - 1].row + cs[|cs| - 1].rows == to
    decreases |cs|
  {
    if |cs| > 1 {
      TilesLast(cs[1..], from + cs[0].rows, to);
    }
  }

  /** `n` loads of `rowHeight` rows are the fewest that cover the rows from `row` on. */
  lemma {:induction false} ChunkCountBounds(height: nat, rowHeight: nat, row: nat)
    requires row <= height && rowHeight >= 1
    ensures |Chunks(height, rowHeight, row)| * rowHeight >= height - row
    ensures |Chunks(height, rowHeight, row)| == 0 || (|Chunks(height, rowHeight, row)| - 1) * rowHeight < height - row
    decreases height - row
  {
    if row < height {
      var c := Chunk(row, Min(rowHeight, height - row));
      var n := |Chunks(height, rowHeight, row + c.rows)|;
      ChunkCountBounds(height, rowHeight, row + c.rows);
      assert |Chunks(height, rowHeight, row)| == n + 1;
      assert (n + 1) * rowHeight == n * rowHeight + rowHeight;
      if n > 0 {
        assert c.rows == rowHeight;
        assert n * rowHeight == (n - 1) * rowHeight + rowHeight;
      }
    }
  }

  /** The uploader makes ceil(height / rowHeight) loads. */
  lemma ChunkCount(height: nat, rowHeight: nat)
    requires rowHeight >= 1
    ensures |Chunks(height, rowHeight, 0)| == (height + rowHeight - 1) / rowHeight
  {
    var n := |Chunks(height, rowHeight, 0)|;
    ChunkCountBounds(height, rowHeight, 0);
    assert n * rowHeight == (n - 1) * rowHeight + rowHeight;
    DivUnique(height + rowHeight - 1, rowHeight, n);
  }

  lemma DivUnique(a: int, w: int, q: int)
    requires w >= 1 && q * w <= a < q * w + w
    ensures a / w == q
  {
    var d := a / w;
    if d > q {
      MulAdd(q, 1, w);
      MulLe(q + 1, d, w);
    } else if d < q {
      MulAdd(d, 1, w);
      MulLe(d + 1, q, w);
    }
  }

  lemma MulAdd(a: int, b: int, w: int)
    ensures (a + b) * w == a * w + w * b
  {
  }

  lemma MulLe(a: int, b: int, w: int)
    requires a <= b && w >= 0
    ensures a * w <= b * w
  {
    assert b * w - a * w == (b - a) * w;
  }

  /** The loads of an 800 by 600 image: 76 rows each, eight loads, the last one at row 532
      with 68 rows. */
  lemma Plan800x600()
    ensures RowHeight(800) == 76
    ensures |Plan(800, 600)| == 8
    ensures Plan(800, 600)[7] == Chunk(532, 68)
  {
    assert RowHeight(800) == 76;
    ChunkCount(600, 76);
    ChunkAt(600, 76, 0, 7);
  }

  // ------------------------------------------------------------------ load requests

  /** Python's `s[lo:hi]` for non-negative bounds: clamped to the sequence, empty when the
      bounds cross. */
  function PySlice(s: seq<byte>, lo: nat, hi: nat): (r: seq<byte>)
    ensures lo <= hi <= |s| ==> r == s[lo..hi]
    ensures |r| <= |s|
  {
    var end := Min(hi, |s|);
    if lo >= end then [] else s[lo..end]
  }

  /** The Area header of a load: the image buffer base, the caller's `x`, the image's
      `width`, and `y` advanced by the rows loaded before, each wrapped to a `c_uint32`. */
  function LoadArea(base: u32, x: int, y: int, width: nat, c: Chunk): Area
  {
    Area(base, Wrap32(x), Wrap32(y + c.row), Wrap32(width), Wrap32(c.rows))
  }

  /** `data[i : i + width * rows]` with `i` the first byte of the load's first row. */
  function LoadBody(data: seq<byte>, width: nat, c: Chunk): seq<byte>
  {
    PySlice(data, c.row * width, c.row * width + width * c.rows)
  }

  function LoadRequest(base: u32, x: int, y: int, width: nat, data: seq<byte>, c: Chunk): Request
  {
    Send(LD_IMAGE_AREA_CMD, EncodeArea(LoadArea(base, x, y, width, c)) + LoadBody(data, width, c))
  }

  function LoadRequests(base: u32, x: int, y: int, width: nat, data: seq<byte>, cs: seq<Chunk>)
    : (r: seq<Request>)
    ensures |r| == |cs|
  {
    if cs == [] then []
    else [LoadRequest(base, x, y, width, data, cs[0])] + LoadRequests(base, x, y, width, data, cs[1..])
  }

  lemma {:induction false} LoadRequestsAppend(base: u32, x: int, y: int, width: nat, data: seq<byte>,
                                              cs: seq<Chunk>, c: Chunk)
    ensures LoadRequests(base, x, y, width, data, cs + [c])
            == LoadRequests(base, x, y, width, data, cs) + [LoadRequest(base, x, y, width, data, c)]
    decreases |cs|
  {
    if cs != [] {
      assert (cs + [c])[1..] == cs[1..] + [c];
      LoadRequestsAppend(base, x, y, width, data, cs[1..], c);
    }
  }

  lemma {:induction false} LoadRequestsAt(base: u32, x: int, y: int, width: nat, data: seq<byte>,
                                          cs: seq<Chunk>, j: nat)
    requires j < |cs|
    ensures LoadRequests(base, x, y, width, data, cs)[j] == LoadRequest(base, x, y, width, data, cs[j])
    decreases j
  {
    if j > 0 {
      LoadRequestsAt(base, x, y, width, data, cs[1..], j - 1);
    }
  }

  /** The final refresh: the whole image, in mode `mode`, waiting until the panel is
      ready. */
  function DisplayRequest(base: u32, mode: Mode, x: int, y: int, width: nat, height: nat): Request
  {
    Send(DPY_AREA_CMD,
         EncodeDisplayArea(DisplayArea(base, Code(mode), Wrap32(x), Wrap32(y), Wrap32(width),
                                       Wrap32(height), 1)))
  }

  /** Everything `update_region` sends: one load per planned chunk, then one display. */
  function UploadRequests(base: u32, mode: Mode, x: int, y: int, width: nat, height: nat,
                          data: seq<byte>): seq<Request>
    requires width >= 1 && (height > 0 ==> RowHeight(width) >= 1)
  {
    LoadRequests(base, x, y, width, data, Plan(width, height))
      + [DisplayRequest(base, mode, x, y, width, height)]
  }

  /** The upload is the loads, in plan order, and exactly one display command, the last. */
  lemma UploadShape(base: u32, mode: Mode, x: int, y: int, width: nat, height: nat, data: seq<byte>)
    requires width >= 1 && (height > 0 ==> RowHeight(width) >= 1)
    ensures |UploadRequests(base, mode, x, y, width, height, data)| == |Plan(width, height)| + 1
    ensures forall j :: 0 <= j < |Plan(width, height)| ==>
              UploadRequests(base, mode, x, y, width, height, data)[j]
              == LoadRequest(base, x, y, width, data, Plan(width, height)[j])
    ensures UploadRequests(base, mode, x, y, width, height, data)[|Plan(width, height)|]
            == DisplayRequest(base, mode, x, y, width, height)
    ensures forall j :: 0 <= j < |Plan(width, height)| ==>
              UploadRequests(base, mode, x, y, width, height, data)[j].block != DPY_AREA_CMD
  {
    var cs := Plan(width, height);
    forall j | 0 <= j < |cs|
      ensures UploadRequests(base, mode, x, y, width, height, data)[j]
              == LoadRequest(base, x, y, width, data, cs[j])
    {
      LoadRequestsAt(base, x, y, width, data, cs, j);
    }
    VendorCommandsDistinct();
  }

  /** Every load, header included, fits in one bulk transfer, and its header decodes to
      the Area of its rows. */
  lemma LoadsFit(base: u32, x: int, y: int, width: nat, height: nat, data: seq<byte>, j: nat)
    requires width >= 1 && (height > 0 ==> RowHeight(width) >= 1) && |data| == width * height
    requires j < |Plan(width, height)|
    ensures |LoadRequest(base, x, y, width, data, Plan(width, height)[j]).bulk|
            == AREA_SIZE + width * Plan(width, height)[j].rows
    ensures |LoadRequest(base, x, y, width, data, Plan(width, height)[j]).bulk| <= MAX_TRANSFER
    ensures DecodeArea(LoadRequest(base, x, y, width, data, Plan(width, height)[j]).bulk)
            == Ok(LoadArea(base, x, y, width, Plan(width, height)[j]))
  {
    ChunkAt(height, RowHeight(width), 0, j);
    LoadFits(base, x, y, width, height, data, Plan(width, height)[j]);
  }

  lemma LoadFits(base: u32, x: int, y: int, width: nat, height: nat, data: seq<byte>, c: Chunk)
    requires width >= 1 && |data| == width * height
    requires c.row + c.rows <= height && c.rows <= RowHeight(width)
    ensures |LoadRequest(base, x, y, width, data, c).bulk| == AREA_SIZE + width * c.rows <= MAX_TRANSFER
    ensures DecodeArea(LoadRequest(base, x, y, width, data, c).bulk) == Ok(LoadArea(base, x, y, width, c))
  {
    LoadBodyRows(data, width, height, c);
    MulLe(c.rows, RowHeight(width), width);
    RowHeightIsLargest(width);
    LoadHeader(LoadArea(base, x, y, width, c), LoadBody(data, width, c));
  }

  lemma LoadHeader(a: Area, body: seq<byte>)
    ensures DecodeArea(EncodeArea(a) + body) == Ok(a)
  {
    AreaRoundTrip(a);
    assert EncodeArea(a)[..AREA_SIZE] == EncodeArea(a);
    assert (EncodeArea(a) + body)[..AREA_SIZE] == EncodeArea(a);
  }

  /** The bodies of the loads `cs`, one after the other. */
  function Bodies(data: seq<byte>, width: nat, cs: seq<Chunk>): seq<byte>
  {
    if cs == [] then [] else LoadBody(data, width, cs[0]) + Bodies(data, width, cs[1..])
  }

  /** The body of a load whose rows lie within the image is the bytes of those rows. */
  lemma LoadBodyRows(data: seq<byte>, width: nat, height: nat, c: Chunk)
    requires c.row + c.rows <= height && |data| == width * height
    ensures c.row * width + width * c.rows == (c.row + c.rows) * width <= |data|
    ensures LoadBody(data, width, c) == data[c.row * width..(c.row + c.rows) * width]
    ensures |LoadBody(data, width, c)| == width * c.rows
  {
    MulAdd(c.row, c.rows, width);
    MulLe(c.row + c.rows, height, width);
  }

  lemma SliceSplit(s: seq<byte>, a: nat, b: nat, c: nat)
    requires a <= b <= c <= |s|
    ensures s[a..b] + s[b..c] == s[a..c]
  {
  }

  lemma {:induction false} BodiesTile(data: seq<byte>, width: nat, height: nat, cs: seq<Chunk>,
                                      from: nat, to: nat)
    requires Tiles(cs, from, to) && to <= height && |data| == width * height
    ensures from * width <= to * width <= |data|
    ensures Bodies(data, width, cs) == data[from * width..to * width]
    decreases |cs|
  {
    TilesOrdered(cs, from, to);
    MulLe(from, to, width);
    MulLe(to, height, width);
    if cs != [] {
      var mid := from + cs[0].rows;
      TilesOrdered(cs[1..], mid, to);
      BodiesTile(data, width, height, cs[1..], mid, to);
      MulLe(from, mid, width);
      LoadBodyRows(data, width, height, cs[0]);
      SliceSplit(data, from * width, mid * width, to * width);
    }
  }

  /** The loads' bodies concatenate to the whole image. */
  lemma UploadCoversImage(width: nat, height: nat, data: seq<byte>)
    requires width >= 1 && (height > 0 ==> RowHeight(width) >= 1) && |data| == width * height
    ensures Bodies(data, width, Plan(width, height)) == data
  {
    if height > 0 {
      ChunksTile(height, RowHeight(width), 0);
      BodiesTile(data, width, height, Plan(width, height), 0, height);
    } else {
      assert data == [];
    }
  }

  // ------------------------------------------------------- helpers of the uploader loop

  lemma MulDivExact(row: nat, width: nat)
    requires width >= 1
    ensures (row * width) / width == row
  {
    DivUnique(row * width, width, row);
  }

  lemma MulLess(row: nat, height: nat, width: nat)
    requires width >= 1
    ensures row * width < height * width <==> row < height
  {
    if row < height {
      MulLe(row + 1, height, width);
      assert (row + 1) * width == row * width + width;
    } else {
      MulLe(height, row, width);
    }
  }

  lemma PlanAdvance(plan: seq<Chunk>, done: seq<Chunk>, height: nat, rowHeight: nat, row: nat)
    requires row < height && rowHeight >= 1
    requires plan == done + Chunks(height, rowHeight, row)
    ensures plan == (done + [Chunk(row, Min(rowHeight, height - row))])
                    + Chunks(height, rowHeight, row + Min(rowHeight, height - row))
  {
  }

  /** The uploader's loop state: `i` is the first byte of row `row`, `rowHeight` is still
      the full row height while rows are left, and `done` are the planned loads before
      row `row`. */
  ghost predicate Uploading(width: nat, height: nat, plan: seq<Chunk>, done: seq<Chunk>, row: nat,
                            i: int, rowHeight: nat)
  {
    && width >= 1 && (height > 0 ==> RowHeight(width) >= 1)
    && i == row * width && row <= height
    && (row < height ==> rowHeight == RowHeight(width))
    && plan == done + Chunks(height, RowHeight(width), row)
  }

  /** At the top of the uploader loop, `i // width` is the current row. */
  lemma UploadRow(width: nat, height: nat, plan: seq<Chunk>, done: seq<Chunk>, row: nat, i: int,
                  rowHeight: nat)
    requires Uploading(width, height, plan, done, row, i, rowHeight) && i < width * height
    ensures i / width == row < height
  {
    MulLess(row, height, width);
    MulDivExact(row, width);
  }

  /** One turn of the uploader loop: the row height clamped to the rows left is the next
      planned load, and the state after that load is again an uploader state, further down
      the image. */
  lemma UploadAdvance(width: nat, height: nat, plan: seq<Chunk>, done: seq<Chunk>, row: nat, i: int,
                      rowHeight: nat, rows: nat)
    requires Uploading(width, height, plan, done, row, i, rowHeight) && row < height
    requires rows == if row + rowHeight > height then height - row else rowHeight
    ensures rows == Min(RowHeight(width), height - row) && rows >= 1
    ensures i + width * rows >= 0 && i < i + rows * width
    ensures Uploading(width, height, plan, done + [Chunk(row, rows)], row + rows, i + rows * width, rows)
  {
    MulAdd(row, rows, width);
    MulLe(1, rows, width);
    PlanAdvance(plan, done, height, RowHeight(width), row);
  }

  /** The Area and the pixels the uploader loop sends from byte `i` on are those of the
      planned load at row `row`. */
  lemma UploadLoad(address: u32, x: int, y: int, width: nat, data: seq<byte>, row: nat, i: int,
                   rows: nat)
    requires width >= 1 && i == row * width && i / width == row
    ensures Area(address, Wrap32(x), Wrap32(y + i / width), Wrap32(width), Wrap32(rows))
            == LoadArea(address, x, y, width, Chunk(row, rows))
    ensures i >= 0 && i + width * rows >= 0
    ensures PySlice(data, i, i + width * rows) == LoadBody(data, width, Chunk(row, rows))
  {
    MulLe(0, rows, width);
  }

  /** The uploader loop has passed every row. */
  lemma UploadDone(width: nat, height: nat, plan: seq<Chunk>, done: seq<Chunk>, row: nat, i: int,
                   rowHeight: nat)
    requires Uploading(width, height, plan, done, row, i, rowHeight) && i >= width * height
    ensures row == height && done == plan
  {
    MulLess(row, height, width);
  }

  /** Appending one command record to the log appends its request to the log's suffix. */
  lemma LogAdvance(log: seq<CommandRecord>, k: nat, reqs: seq<Request>, rec: CommandRecord)
    requires k <= |log| && Requests(log[k..]) == reqs
    ensures Requests((log + [rec])[k..]) == reqs + [RequestOf(rec)]
  {
    assert (log + [rec])[k..] == log[k..] + [rec];
    RequestsAppend(log[k..], [rec]);
  }

  // --------------------------------------------------------------------- controller

  /** An `IT8951_SCSI` controller: its connection and the system information it fetched
      once, when it was created. */
  class Controller {
    const connection: Transport
    var systemInfo: Result<SystemInfo>

    ghost predicate Valid()
      reads this, connection
    {
      connection.Valid()
    }

    /** Creating the controller queries the system information and keeps it. */
    constructor (device: Transport)
      requires device.Valid()
      modifies device
      ensures connection == device && Valid()
      ensures var run := ReadCommandRun(device.dev, |old(device.trace)|,
                                        WrapperBytes(GET_SYS_CMD, SYSTEM_INFO_SIZE, In, old(device.tag)).value,
                                        SYSTEM_INFO_SIZE);
              && device.trace == old(device.trace) + run.events
              && systemInfo == (if run.result.Ok? then DecodeSystemInfo(run.result.value)
                                else Err(run.result.error))
      ensures device.commands == old(device.commands) + [ReadRecord(GET_SYS_CMD, SYSTEM_INFO_SIZE)]
      ensures device.tag == old(device.tag) + 1
    {
      var info := device.ReadCommand(GET_SYS_CMD, SYSTEM_INFO_SIZE, DecodeSystemInfo);
      connection := device;
      systemInfo := info;
    }

    /** `inquiry`: the identification strings of the device. */
    method Inquire() returns (r: Result<Inquiry>)
      requires Valid()
      modifies connection
      ensures Valid() && systemInfo == old(systemInfo)
      ensures var run := ReadCommandRun(connection.dev, |old(connection.trace)|,
                                        WrapperBytes(INQUIRY_CMD, INQUIRY_SIZE, In, old(connection.tag)).value,
                                        INQUIRY_SIZE);
              && connection.trace == old(connection.trace) + run.events
              && r == (if run.result.Ok? then InquiryOf(run.result.value) else Err(run.result.error))
      ensures r.Err? ==> r.error == TransportFault || r.error == InvalidText
      ensures connection.commands == old(connection.commands) + [ReadRecord(INQUIRY_CMD, INQUIRY_SIZE)]
      ensures connection.tag == old(connection.tag) + 1
    {
      var c :- connection.ReadCommand(INQUIRY_CMD, INQUIRY_SIZE, DecodeInquiry);
      if !(Utf8(c.vendor) && Utf8(c.product) && Utf8(c.revision)) {
        return Err(InvalidText);
      }
      r := Ok(Inquiry(c.vendor, c.product, c.revision));
    }

    /** `get_system_info`: a fresh query; the information kept at creation stays as it
        was. */
    method GetSystemInfo() returns (r: Result<SystemInfo>)
      requires Valid()
      modifies connection
      ensures Valid() && systemInfo == old(systemInfo)
      ensures var run := ReadCommandRun(connection.dev, |old(connection.trace)|,
                                        WrapperBytes(GET_SYS_CMD, SYSTEM_INFO_SIZE, In, old(connection.tag)).value,
                                        SYSTEM_INFO_SIZE);
              && connection.trace == old(connection.trace) + run.events
              && r == (if run.result.Ok? then DecodeSystemInfo(run.result.value) else Err(run.result.error))
      ensures r.Err? ==> r.error == TransportFault
      ensures connection.commands == old(connection.commands) + [ReadRecord(GET_SYS_CMD, SYSTEM_INFO_SIZE)]
      ensures connection.tag == old(connection.tag) + 1
    {
      r := connection.ReadCommand(GET_SYS_CMD, SYSTEM_INFO_SIZE, DecodeSystemInfo);
    }

    /** `ld_image_area`: the Area header then the pixels, as one command. */
    method LoadImageArea(area: Area, data: seq<byte>) returns (r: Result<Option<CommandStatusWrapper>>)
      requires Valid()
      modifies connection
      ensures Valid() && systemInfo == old(systemInfo)
      ensures var run := WriteCommandRun(connection.dev, |old(connection.trace)|,
                                         WrapperBytes(LD_IMAGE_AREA_CMD, AREA_SIZE + |data|, Out,
                                                      old(connection.tag)).value,
                                         EncodeArea(area) + data);
              && connection.trace == old(connection.trace) + run.events
              && r == Ok(run.status)
      ensures connection.commands == old(connection.commands)
                                     + [WriteRecord(LD_IMAGE_AREA_CMD, EncodeArea(area) + data, r.value)]
      ensures connection.tag == old(connection.tag) + 1
    {
      r := connection.WriteCommand(LD_IMAGE_AREA_CMD, EncodeArea(area), data);
    }

    /** `display_area`: the DisplayArea record and no further data, as one command. */
    method Display(d: DisplayArea) returns (r: Result<Option<CommandStatusWrapper>>)
      requires Valid()
      modifies connection
      ensures Valid() && systemInfo == old(systemInfo)
      ensures var run := WriteCommandRun(connection.dev, |old(connection.trace)|,
                                         WrapperBytes(DPY_AREA_CMD, DISPLAY_AREA_SIZE, Out,
                                                      old(connection.tag)).value,
                                         EncodeDisplayArea(d));
              && connection.trace == old(connection.trace) + run.events
              && r == Ok(run.status)
      ensures connection.commands == old(connection.commands)
                                     + [WriteRecord(DPY_AREA_CMD, EncodeDisplayArea(d), r.value)]
      ensures connection.tag == old(connection.tag) + 1
    {
      r := connection.WriteCommand(DPY_AREA_CMD, EncodeDisplayArea(d), []);
      assert EncodeDisplayArea(d) + [] == EncodeDisplayArea(d);
    }

    /** One turn of the `update_region` loop: the Area of `rows` rows from byte `i`, which
        is the first byte of row `row`, then their pixels, as one `ld_image_area` command. */
    method LoadRows(address: u32, x: int, y: int, width: nat, data: seq<byte>, i: nat, rows: nat,
                    ghost row: nat)
      returns (r: Result<Option<CommandStatusWrapper>>)
      requires Valid() && width >= 1 && i == row * width && i / width == row
      modifies connection
      ensures Valid() && systemInfo == old(systemInfo)
      ensures old(connection.trace) <= connection.trace
      ensures r.Ok?
      ensures connection.commands
              == old(connection.commands)
                 + [WriteRecord(LD_IMAGE_AREA_CMD, EncodeArea(LoadArea(address, x, y, width, Chunk(row, rows)))
                                                   + LoadBody(data, width, Chunk(row, rows)), r.value)]
      ensures connection.tag == old(connection.tag) + 1
    {
      UploadLoad(address, x, y, width, data, row, i, rows);
      var area := Area(address, Wrap32(x), Wrap32(y + i / width), Wrap32(width), Wrap32(rows));
      var body := PySlice(data, i, i + width * rows);
      r := LoadImageArea(area, body);
    }

    /** The loads of `update_region` for a `width` by `height` image: starting at byte 0,
        send the rows that fit in one transfer, clamped to the rows that are left, until
        every byte of the image was sent. */
    method LoadRegion(address: u32, data: seq<byte>, width: nat, height: nat, x: int, y: int)
      requires Valid() && width >= 1 && (height > 0 ==> RowHeight(width) >= 1)
      modifies connection
      ensures Valid() && systemInfo == old(systemInfo)
      ensures old(connection.trace) <= connection.trace
      ensures connection.tag == old(connection.tag) + |Plan(width, height)|
      ensures |connection.commands| == |old(connection.commands)| + |Plan(width, height)|
      ensures Requests(connection.commands[|old(connection.commands)|..])
              == LoadRequests(address, x, y, width, data, Plan(width, height))
    {
      var size := width * height;
      var i := 0;
      var rowHeight: nat := (MAX_TRANSFER - AREA_SIZE) / width;
      ghost var plan := Plan(width, height);
      ghost var row: nat := 0;
      ghost var done: seq<Chunk> := [];
      ghost var k := |connection.commands|;
      while i < size
        invariant Valid() && systemInfo == old(systemInfo)
        invariant Uploading(width, height, plan, done, row, i, rowHeight)
        invariant old(connection.trace) <= connection.trace
        invariant connection.tag == old(connection.tag) + |done|
        invariant |connection.commands| == k + |done|
        invariant Requests(connection.commands[k..]) == LoadRequests(address, x, y, width, data, done)
        decreases size - i
      {
        UploadRow(width, height, plan, done, row, i, rowHeight);
        ghost var fullHeight := rowHeight;
        if i / width + rowHeight > height {
          rowHeight := height - i / width;
        }
        ghost var c := Chunk(row, rowHeight);
        assert Uploading(width, height, plan, done + [c], row + rowHeight, i + rowHeight * width, rowHeight)
               && i < i + rowHeight * width by {
          UploadAdvance(width, height, plan, done, row, i, fullHeight, rowHeight);
        }
        ghost var log := connection.commands;
        var status := LoadRows(address, x, y, width, data, i, rowHeight, row);
        assert Requests(connection.commands[k..]) == LoadRequests(address, x, y, width, data, done + [c]) by {
          LogAdvance(log, k, LoadRequests(address, x, y, width, data, done),
                     WriteRecord(LD_IMAGE_AREA_CMD, EncodeArea(LoadArea(address, x, y, width, c))
                                 + LoadBody(data, width, c), status.value));
          LoadRequestsAppend(address, x, y, width, data, done, c);
        }
        done := done + [c];
        i := i + rowHeight * width;
        row := row + rowHeight;
      }
      UploadDone(width, height, plan, done, row, i, rowHeight);
    }

    /** `update_region` for a `width` by `height` image whose pixels are `data`, one byte
        each, row after row: the planned loads, then one display of the whole region, whose
        status is the result. A width of 0 fails on the row height's division. */
    method UpdateRegion(data: seq<byte>, width: nat, height: nat, x: int, y: int, mode: Mode)
      returns (r: Result<Option<CommandStatusWrapper>>)
      requires Valid() && systemInfo.Ok?
      requires width >= 1 && height > 0 ==> RowHeight(width) >= 1
      modifies connection
      ensures Valid() && systemInfo == old(systemInfo)
      ensures width == 0 ==> r == Err(DivisionByZero) && connection.trace == old(connection.trace)
                             && connection.commands == old(connection.commands)
                             && connection.tag == old(connection.tag)
      ensures width >= 1 ==> old(connection.trace) <= connection.trace
      ensures width >= 1 ==> connection.tag == old(connection.tag) + |Plan(width, height)| + 1
      ensures width >= 1 ==>
                && |connection.commands| == |old(connection.commands)| + |Plan(width, height)| + 1
                && Requests(connection.commands[|old(connection.commands)|..])
                   == UploadRequests(systemInfo.value.imageBufBase, mode, x, y, width, height, data)
      ensures width >= 1 ==> r.Ok? && connection.commands[|connection.commands| - 1].WriteRecord?
                             && r.value == connection.commands[|connection.commands| - 1].status
    {
      if width == 0 {
        return Err(DivisionByZero);
      }
      var address := systemInfo.value.imageBufBase;
      ghost var k := |connection.commands|;
      LoadRegion(address, data, width, height, x, y);
      ghost var log := connection.commands;
      var d := DisplayArea(address, Code(mode), Wrap32(x), Wrap32(y), Wrap32(width), Wrap32(height), 1);
      r := Display(d);
      LogAdvance(log, k, LoadRequests(address, x, y, width, data, Plan(width, height)),
                 WriteRecord(DPY_AREA_CMD, EncodeDisplayArea(d), r.value));
    }
  }
}
