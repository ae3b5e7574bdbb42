# IT8951 e-paper controller protocol, in Dafny

This project models the protocol layer of `py-it8951-usb`. That is the client side of the IT8951 e-paper controller's SCSI-like command set, carried over USB Mass Storage Bulk-Only Transport. It has four parts:

- **Bytes, Structs** (`it8951_structs.py`): the packed ctypes records and their exact byte layouts.
  - Area, DisplayArea, SystemInfo and the INQUIRY response are big-endian.
  - The Command Block Wrapper (CBW) and the Command Status Wrapper (CSW) are little-endian.
  - Each record has an encoder and a decoder, and both directions of the round trip are proved.
- **Consts** (`it8951_consts.py`): the transfer budget and the four 16-byte command templates.
- **Usb** (`it8951_usb.py`): the transport session, `Usb.Transport`.
  - It owns the tag counter that the source keeps as a module global.
  - It issues CBWs, splits writes and reads into packet-sized device calls, and sequences command / data / status.
  - It reads the status with its single clear-halt retry.
  - The raw pyusb device is a `Device` oracle. It answers each call as a function of the call's position in the session's `trace`, which stands for any device that accepts 1 to n bytes per write and, per read, raises or delivers 1 to n bytes (0 to n for `read_command`'s single buffer read).
  - Each method is proved to append exactly the events that a ghost function of the old state describes (`WriteRun`, `ReadLoop`, `StatusRetrieval`, `ReadCommandRun`, `WriteCommandRun`). The protocol's properties are lemmas about those functions.
  - A ghost command log, `commands`, records each command the session issued together with its bulk data.
- **Scsi** (`it8951_scsi.py`): the controller, `Scsi.Controller`.
  - It keeps the system information it queried once, at creation.
  - Its commands are INQUIRY, the system-information query, `ld_image_area` and `display_area`.
  - `update_region` cuts a row-major image into loads that each fit one 61440-byte transfer, clamps the last load, and ends with one display command.
  - The loads are specified by the plan `Plan(width, height)`. The plan is a partition of the rows, and its load count, row heights, bodies and headers are proved. The method is proved to issue exactly `UploadRequests(...)`: the plan's loads in order, then the display.

The model follows the code in four places where a reader might expect otherwise:
- inquiry strings are not trimmed;
- a short or zero-length answer to `read_command` is not a transport error: the zero-padded buffer is decoded (`Usb.ZeroLengthResponse`);
- the CSW signature and tag are not checked;
- a row height of 0 is not reported as a fault (the loop never ends instead, so it is a precondition here).

## Model

| member | source | states |
|---|---|---|
| Bytes.Wrap32 | it8951_usb/it8951_structs.py:19-20 | assigning an int to a `c_uint32` field keeps it when it is in range and otherwise leaves a value congruent to it modulo 2^32 |
| Bytes.BE32RoundTrip | it8951_usb/it8951_structs.py:5 | a big-endian 32-bit word decodes back to itself |
| Bytes.LE32RoundTrip | it8951_usb/it8951_structs.py:16 | a little-endian 32-bit word decodes back to itself |
| Bytes.WordsBERoundTrip | it8951_usb/it8951_structs.py:81-83 | a `c_uint32` array, packed big-endian, decodes back to the same words |
| Bytes.BytesBERoundTrip | it8951_usb/it8951_structs.py:81-83 | bytes whose count is a multiple of 4 re-encode to themselves after decoding as words |
| Structs.EncodeArea | it8951_usb/it8951_structs.py:5-13 | an Area is 20 bytes |
| Structs.DecodeArea | it8951_usb/it8951_structs.py:5-13 | decoding succeeds exactly when the buffer has at least 20 bytes |
| Structs.AreaLayout | it8951_usb/it8951_structs.py:5-13 | address, x, y, w, h are big-endian words at offsets 0, 4, 8, 12, 16 |
| Structs.AreaRoundTrip | it8951_usb/it8951_structs.py:5-13 | decoding an encoded Area gives the same fields |
| Structs.AreaBytesRoundTrip | it8951_usb/it8951_structs.py:5-13 | re-encoding a decoded buffer gives its first 20 bytes |
| Structs.EncodeDisplayArea | it8951_usb/it8951_structs.py:55-65 | a DisplayArea is 28 bytes |
| Structs.DecodeDisplayArea | it8951_usb/it8951_structs.py:55-65 | decoding succeeds exactly when the buffer has at least 28 bytes |
| Structs.DisplayAreaLayout | it8951_usb/it8951_structs.py:55-65 | address, display_mode, x, y, w, h, wait_ready are big-endian words at offsets 0 to 24 |
| Structs.DisplayAreaRoundTrip | it8951_usb/it8951_structs.py:55-65 | decoding an encoded DisplayArea gives the same fields |
| Structs.DisplayAreaBytesRoundTrip | it8951_usb/it8951_structs.py:55-65 | re-encoding a decoded buffer gives its first 28 bytes |
| Structs.EncodeSystemInfo | it8951_usb/it8951_structs.py:68-84 | a SystemInfo is 112 bytes |
| Structs.DecodeSystemInfo | it8951_usb/it8951_structs.py:68-84 | decoding succeeds exactly when the buffer has at least 112 bytes, and yields arrays of 8 and 9 words |
| Structs.SystemInfoLayout | it8951_usb/it8951_structs.py:68-84 | ten scalar words at 0-39, update_buf_base at 24 and image_buf_base at 28, frame_count at 40-71, num_img_buf at 72-75, reserved at 76-111 |
| Structs.SystemInfoRoundTrip | it8951_usb/it8951_structs.py:68-84 | decoding an encoded SystemInfo gives the same fields |
| Structs.SystemInfoBytesRoundTrip | it8951_usb/it8951_structs.py:68-84 | re-encoding a decoded buffer gives its first 112 bytes |
| Structs.EncodeCbw | it8951_usb/it8951_structs.py:16-25 | a CBW is 31 bytes |
| Structs.DecodeCbw | it8951_usb/it8951_structs.py:16-25 | decoding succeeds exactly when the buffer has at least 31 bytes |
| Structs.CbwLayout | it8951_usb/it8951_structs.py:16-25 | signature 0-3, little-endian tag 4-7 and transfer length 8-11, flags 12, lun 13, block length 14, block data 15-30 |
| Structs.CbwRoundTrip | it8951_usb/it8951_structs.py:16-25 | decoding an encoded CBW gives the same fields |
| Structs.CbwBytesRoundTrip | it8951_usb/it8951_structs.py:16-25 | re-encoding a decoded buffer gives its first 31 bytes |
| Structs.EncodeCsw | it8951_usb/it8951_structs.py:39-45 | a CSW is 13 bytes |
| Structs.DecodeCsw | it8951_usb/it8951_structs.py:39-45 | decoding succeeds exactly when the buffer has at least 13 bytes |
| Structs.CswLayout | it8951_usb/it8951_structs.py:39-45 | signature 0-3, little-endian tag 4-7 and data residue 8-11, status 12 |
| Structs.CswRoundTrip | it8951_usb/it8951_structs.py:39-45 | decoding an encoded CSW gives the same fields |
| Structs.CswBytesRoundTrip | it8951_usb/it8951_structs.py:39-45 | re-encoding a decoded buffer gives its first 13 bytes |
| Structs.EncodeInquiry | it8951_usb/it8951_structs.py:28-36 | an INQUIRY response is 40 bytes |
| Structs.DecodeInquiry | it8951_usb/it8951_structs.py:28-36 | decoding succeeds exactly when the buffer has at least 40 bytes |
| Structs.InquiryLayout | it8951_usb/it8951_structs.py:28-36 | 8 ignored bytes, vendor 8-15, product 16-31, revision 32-35, 4 ignored bytes |
| Structs.InquiryRoundTrip | it8951_usb/it8951_structs.py:28-36 | decoding an encoded response gives the same fields |
| Structs.InquiryBytesRoundTrip | it8951_usb/it8951_structs.py:28-36 | re-encoding a decoded buffer gives its first 40 bytes |
| Consts.MaxTransferValue | it8951_usb/it8951_consts.py:4 | the transfer budget is 61440 bytes |
| Consts.TemplatesFitBlockData | it8951_usb/it8951_consts.py:5-8 | each command template is exactly 16 bytes, the size of block_data |
| Consts.InquiryTemplate | it8951_usb/it8951_consts.py:5 | INQUIRY is opcode 0x12 followed by 15 zero bytes |
| Consts.GetSysTemplate | it8951_usb/it8951_consts.py:6 | the system-information query is 0xfe, sub-command 0x80 at byte 6, and bytes 2-5 spell "8951" |
| Consts.VendorTemplate | it8951_usb/it8951_consts.py:7-8 | a vendor template is 0xfe, then zeros except for the sub-command at byte 6 |
| Consts.VendorTemplates | it8951_usb/it8951_consts.py:7-8 | load-image-area and display-area are the vendor templates of 0xa2 and 0x94 |
| Consts.VendorCommandsDistinct | it8951_usb/it8951_consts.py:6-8 | the three vendor commands share byte 0 = 0xfe and are pairwise distinct at byte 6 (0x80, 0xa2, 0x94) |
| Usb.Flag | it8951_usb/it8951_usb.py:16-18 | the flags byte is 0x80 exactly for In and 0x00 exactly for Out |
| Usb.Accepts | it8951_usb/it8951_usb.py:82-83 | a device write accepts no bytes of an empty chunk and between 1 and all bytes of a non-empty one |
| Usb.Delivers | it8951_usb/it8951_usb.py:98-99 | a device read raises, or returns at most the bytes asked for and at least one when any were asked for |
| Usb.Fills | it8951_usb/it8951_usb.py:107-108 | a device read into an `n`-byte buffer raises, or returns at most `n` bytes, possibly none |
| Usb.CommandBlockWrapperFor | it8951_usb/it8951_usb.py:24-36 | the wrapper is built exactly when the command has at most 16 bytes, and it is then a well-formed CBW |
| Usb.WrapperBytes | it8951_usb/it8951_usb.py:24-36 | the bytes handed to `write` exist exactly for commands of at most 16 bytes and are 31 bytes long; a longer command fails with CommandTooLong |
| Usb.CommandBlockWrapperBytes | it8951_usb/it8951_usb.py:27-34 | the wire bytes: "USBC", the tag and transfer length (32-bit, little-endian), the direction flag, lun 0, block length 16, the command, then zero padding |
| Usb.CommandBlockWrapperTagDecodes | it8951_usb/it8951_usb.py:29 | for counter values below 2^32, decoding the wrapper gives it back, carrying that counter value as its tag |
| Usb.WriteRunChunks | it8951_usb/it8951_usb.py:78-87 | each device write offers at most one packet and is accepted at most in full; a non-empty payload is never offered an empty chunk; an empty payload makes exactly one empty write |
| Usb.WriteRunAllWrites | it8951_usb/it8951_usb.py:81-85 | a write makes only device writes, and at least one |
| Usb.WriteRunDelivers | it8951_usb/it8951_usb.py:81-86 | the prefixes the device accepted, in order, concatenate to the payload |
| Usb.ReadLoopExact | it8951_usb/it8951_usb.py:95-102 | a successful read returns exactly `size` bytes, which are everything the device delivered, in order |
| Usb.ReadLoopFailure | it8951_usb/it8951_usb.py:97-101 | a read fails exactly when its last device call raised, all earlier calls delivered, and a read of a positive size makes a call |
| Usb.ReadLoopRequests | it8951_usb/it8951_usb.py:97-99 | each device read asks for min(packet size, bytes still missing), which is between 1 and one packet |
| Usb.DecodeStatus | it8951_usb/it8951_usb.py:127-129 | the status is present exactly when at least 13 bytes were read |
| Usb.StatusClearsHaltOnce | it8951_usb/it8951_usb.py:120-126 | the halt is cleared once, right after the first read, if that read raised, and never otherwise |
| Usb.StatusAbsentIffBothReadsRaise | it8951_usb/it8951_usb.py:119-129 | the status is absent exactly when both reads raised; otherwise it is the CSW whose 13 bytes the successful read returned |
| Usb.FillBuffer | it8951_usb/it8951_usb.py:107-108 | the zeroed `size`-byte buffer starts with the delivered bytes and ends with zeros |
| Usb.ReadCommandShape | it8951_usb/it8951_usb.py:104-109 | `read_command` writes the wrapper, then makes exactly one `size`-byte read, which may deliver nothing, and no clear-halt; it fails exactly when that read raises, and otherwise decodes the full zero-padded buffer whose front is the delivered bytes |
| Usb.ZeroLengthResponse | it8951_usb/it8951_usb.py:107-109 | when the device answers the query with no bytes, `read_command` decodes the all-zero buffer of the struct's size |
| Usb.WriteCommandOrder | it8951_usb/it8951_usb.py:111-117 | `write_command` makes writes that carry the wrapper followed by `value + data`, then the status retrieval, whose status it returns |
| Usb.Requests | it8951_usb/it8951_usb.py:104-117 | the request log has one request per command record |
| Usb.RequestsAppend | it8951_usb/it8951_usb.py:104-117 | the requests of two runs of commands are the requests of the first, then those of the second |
| Usb.Transport.constructor | it8951_usb/it8951_usb.py:21 | the tag counter starts at 1, with an empty trace and no command issued |
| Usb.Transport.DeviceWrite | it8951_usb/it8951_usb.py:82-83 | one device write, recorded with the count the device accepted |
| Usb.Transport.DeviceRead | it8951_usb/it8951_usb.py:98-99 | one device read, recorded with what the device delivered or that it raised |
| Usb.Transport.DeviceReadInto | it8951_usb/it8951_usb.py:108 | one device read into a buffer, recorded with what the device delivered (possibly nothing) or that it raised |
| Usb.Transport.ClearInHalt | it8951_usb/it8951_usb.py:134-135 | one clear-halt call, recorded |
| Usb.Transport.GetCommandBlockWrapper | it8951_usb/it8951_usb.py:24-36 | the wrapper takes the counter's value, which advances by one only when the wrapper is built; the issued tags stay 1, 2, 3, ... |
| Usb.Transport.Write | it8951_usb/it8951_usb.py:74-87 | returns the payload's length and appends exactly the calls of `WriteRun` |
| Usb.Transport.Read | it8951_usb/it8951_usb.py:89-102 | appends exactly the calls of `ReadLoop` and returns its result |
| Usb.Transport.SendStatusBlockWrapper | it8951_usb/it8951_usb.py:119-129 | appends exactly the calls of `StatusRetrieval` and returns its status; it never fails |
| Usb.Transport.ReadCommand | it8951_usb/it8951_usb.py:104-109 | an over-long command fails with nothing sent; otherwise the trace grows by `ReadCommandRun` for an In wrapper of the struct's size, the result is the decoded buffer or the transport fault, the tag advances and the query is logged |
| Usb.Transport.WriteCommand | it8951_usb/it8951_usb.py:111-117 | an over-long command fails with nothing sent; otherwise the trace grows by `WriteCommandRun` for an Out wrapper of length `len(value) + len(data)`, the result is the retrieved status, the tag advances and the command is logged with `value + data` |
| Scsi.Code | it8951_usb/it8951_scsi.py:12-22 | a mode's code is its position among the modes |
| Scsi.ModeNumbering | it8951_usb/it8951_scsi.py:12-22 | INIT is 0, each mode is one more than the one before it, and distinct modes have distinct codes |
| Scsi.ScalarLength | it8951_usb/it8951_scsi.py:43-45 | the well-formed UTF-8 sequence at the front of the bytes has at most 4 bytes and lies within them |
| Scsi.AsciiIsUtf8 | it8951_usb/it8951_scsi.py:43-45 | ASCII bytes, NUL included, always decode |
| Scsi.Utf8Append | it8951_usb/it8951_scsi.py:43-45 | two decodable byte strings joined still decode |
| Scsi.Utf8Examples | it8951_usb/it8951_scsi.py:43-45 | C3 A9 decodes; a lone FF, the overlong C0 80 and the surrogate ED A0 80 do not |
| Scsi.InquiryOf | it8951_usb/it8951_scsi.py:40-46 | a short buffer fails; otherwise vendor, product and revision are bytes 8-15, 16-31 and 32-35, untrimmed, when all three are valid UTF-8, and the result is an InvalidText error when any is not |
| Scsi.RowHeightIsLargest | it8951_usb/it8951_scsi.py:74 | `row_height` rows plus the 20-byte Area fit in 61440 bytes, and one more row does not |
| Scsi.ChunksTile | it8951_usb/it8951_scsi.py:76-82 | the loads partition the image's rows in order, with no gap, no overlap and no empty load |
| Scsi.TilesOrdered | it8951_usb/it8951_scsi.py:76-82 | a partition of rows `from` to `to` has `from <= to` |
| Scsi.TilesLast | it8951_usb/it8951_scsi.py:76-82 | the last load of a partition ends at its last row |
| Scsi.ChunkAt | it8951_usb/it8951_scsi.py:76-82 | load j starts j full row heights down, inside the image, and takes `row_height` rows or what is left |
| Scsi.ChunksFull | it8951_usb/it8951_scsi.py:77-78 | every load takes 1 to `row_height` rows, all but the last take exactly `row_height`, and the last ends at the image's height |
| Scsi.ChunkCountBounds | it8951_usb/it8951_scsi.py:76-82 | the loads cover the rows left, and one load fewer would not |
| Scsi.ChunkCount | it8951_usb/it8951_scsi.py:76-82 | there are ceil(height / row_height) loads |
| Scsi.Plan800x600 | it8951_usb/it8951_scsi.py:74-82 | an 800 by 600 image gives 76-row loads, 8 of them, the last at row 532 with 68 rows |
| Scsi.PySlice | it8951_usb/it8951_scsi.py:81 | Python slicing: within bounds it is the ordinary subsequence, and it is never longer than the sequence |
| Scsi.LoadRequests | it8951_usb/it8951_scsi.py:80-81 | one load request per planned load |
| Scsi.LoadRequestsAppend | it8951_usb/it8951_scsi.py:76-82 | one more load appends its request |
| Scsi.LoadRequestsAt | it8951_usb/it8951_scsi.py:80-81 | request j is the load of planned chunk j |
| Scsi.UploadShape | it8951_usb/it8951_scsi.py:76-86 | the upload is the planned loads in order and then one display command, the only one with the display-area opcode |
| Scsi.LoadsFit | it8951_usb/it8951_scsi.py:74-81 | for an image of `width * height` bytes, every planned load's bulk data is the 20-byte header plus `width * rows` pixels, at most 61440 bytes, and its header decodes to the load's Area |
| Scsi.LoadFits | it8951_usb/it8951_scsi.py:80-81 | a load of at most `row_height` rows inside the image fits one transfer, and its header decodes to its Area |
| Scsi.LoadHeader | it8951_usb/it8951_scsi.py:54-59 | the Area header in front of any body decodes to that Area |
| Scsi.LoadBodyRows | it8951_usb/it8951_scsi.py:81 | a load's body is the bytes of its rows, `width * rows` of them |
| Scsi.BodiesTile | it8951_usb/it8951_scsi.py:80-82 | the bodies of a partition of rows `from` to `to` are the image bytes of those rows |
| Scsi.UploadCoversImage | it8951_usb/it8951_scsi.py:80-82 | the bodies of the planned loads concatenate to the whole image |
| Scsi.UploadRow | it8951_usb/it8951_scsi.py:77 | inside the loop, `i // width` is the current row and rows are left |
| Scsi.UploadAdvance | it8951_usb/it8951_scsi.py:77-82 | the clamped row height is the next planned load, at least 1 row, and the loop state after it is again consistent with the plan |
| Scsi.UploadLoad | it8951_usb/it8951_scsi.py:80-81 | the Area and the slice the loop sends from byte `i` are those of the planned load at row `i // width` |
| Scsi.UploadDone | it8951_usb/it8951_scsi.py:76 | when the loop ends every row was loaded and every planned load was sent |
| Scsi.LogAdvance | it8951_usb/it8951_scsi.py:80-86 | one more logged command appends its request to the log's suffix |
| Scsi.Controller.constructor | it8951_usb/it8951_scsi.py:33-35 | the controller keeps its connection and the result of one system-information query, decoded or its transport fault |
| Scsi.Controller.Inquire | it8951_usb/it8951_scsi.py:40-46 | one INQUIRY query of 40 bytes; the result is the identification strings of the response, the UTF-8 decoding error, or the transport fault; the cached system information is unchanged |
| Scsi.Controller.GetSystemInfo | it8951_usb/it8951_scsi.py:48-52 | a fresh 112-byte system-information query whose decoded result is returned, while the cached value stays as it was |
| Scsi.Controller.LoadImageArea | it8951_usb/it8951_scsi.py:54-59 | one load-image-area command whose bulk data is the 20-byte Area, then the pixels; its status is returned |
| Scsi.Controller.Display | it8951_usb/it8951_scsi.py:61-67 | one display-area command whose bulk data is the 28-byte DisplayArea alone; its status is returned |
| Scsi.Controller.LoadRows | it8951_usb/it8951_scsi.py:80-81 | the loop's load from byte `i` logs the request of the planned load at row `i // width` |
| Scsi.Controller.LoadRegion | it8951_usb/it8951_scsi.py:72-82 | the loop issues exactly the loads of the plan, in order, one tag each |
| Scsi.Controller.UpdateRegion | it8951_usb/it8951_scsi.py:69-86 | width 0 fails with nothing sent; otherwise the commands issued are exactly `UploadRequests`: the planned loads with the cached image buffer base, then the display of the whole region with wait_ready 1, whose status is the result |

## Left out

- USB setup in `IT8951_USB.__init__` (device lookup, kernel driver detach, configuration, endpoint search), `reset`, and pyusb itself: these are I/O. The device is the `Device` oracle, and endpoints are represented only by their packet sizes.
- The `ENDPOINT_IN` / `ENDPOINT_OUT` constants and `drop()`: they are unused or do nothing.
- Logging, `__repr__` and `_asdict`: they only format text.
- Image decoding (`image.getdata()`, `image.size`): `UpdateRegion` takes the pixel bytes and the width and height.
- Timeouts and the `encoding` argument of `write`: a timeout is passed through uninterpreted, and only byte payloads are modelled.
- ctypes memory sharing (`from_buffer` aliases its buffer): structures are values that are encoded to and decoded from byte sequences.
- Scsi.Controller.Inquire: a field that is not valid UTF-8 makes the source's `decode()` raise UnicodeDecodeError, modelled as `Err(InvalidText)`. For valid fields `Inquiry` keeps the raw bytes instead of the decoded `str`.
- Exceptions from device writes and from `clear_halt`: only device reads may raise. A write raising would propagate out of `write_command` unchanged.
- Zero-byte answers to a non-empty write or to a read inside `read`: the oracle never gives them (`Usb.Accepts`, `Usb.Delivers`). A device that always answers 0 makes the source's `write` and `read` loops run forever. A device that answers 0 only sometimes makes the source repeat the call with the same arguments, and the model has no such repeated calls in its traces. Such a call adds no bytes, so the payload and result properties would read the same, but the model does not prove this. The oracle also never delivers more than was asked for. The single buffer read of `read_command` may deliver 0 to `size` bytes (`Usb.Fills`), and a zero-length answer decodes the all-zero buffer.
- The CSW signature and tag echo are not checked, because the source does not check them either.
- Scsi.Controller.constructor: a failed system-information query is kept as an error value. In the source the constructor raises and no controller exists, so `UpdateRegion` requires the query to have succeeded.
- Scsi.Controller.UpdateRegion: images whose width exceeds 61420 (row height 0) are excluded by its precondition, because the source's loop then never ends.
- Scsi.Controller.UpdateRegion: it states its effect through the command log (block and bulk data of each command, in order) rather than as one trace function. Each command's device calls are stated by `LoadImageArea`, `Display` and `WriteCommand` themselves.
- Tag wrap-around: a tag counter at 2^32 or above is truncated to 32 bits in the wrapper, as ctypes does. Distinct tags are proved only below 2^32.
