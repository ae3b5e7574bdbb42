/** The protocol constants: the transfer budget and the four 16-byte command templates
    that become a command block wrapper's block_data verbatim. */
module Consts {
  import opened Bytes

  /** The largest single bulk transfer the controller accepts: 60 KiB. */
  const MAX_TRANSFER: nat := 60 * 1024

  /** Standard SCSI INQUIRY, opcode 0x12. */
  const INQUIRY_CMD: seq<byte> := [0x12, 0, 0, 0, 0, 0, 0, 0, 0, 0, 0, 0, 0, 0, 0, 0]

  /** Vendor command 0xfe carrying the ASCII signature "8951"; sub-command 0x80 reads the
      system information. */
  const GET_SYS_CMD: seq<byte> :=
    [0xfe, 0, 0x38, 0x39, 0x35, 0x31, 0x80, 0, 0x01, 0, 0x02, 0, 0, 0, 0, 0]

  /** Vendor sub-command 0xa2: load an area of the image buffer. */
  const LD_IMAGE_AREA_CMD: seq<byte> :=
    [0xfe, 0x00, 0x00, 0x00, 0x00, 0x00, 0xa2, 0, 0, 0, 0, 0, 0, 0, 0, 0]

  /** Vendor sub-command 0x94: display an area. */
  const DPY_AREA_CMD: seq<byte> :=
    [0xfe, 0x00, 0x00, 0x00, 0x00, 0x00, 0x94, 0, 0, 0, 0, 0, 0, 0, 0, 0]

  /** The vendor templates are 0xfe then zeros, except for the sub-command at byte 6. */
  function VendorTemplate(subCommand: byte): (r: seq<byte>)
    ensures |r| == 16 && r[0] == 0xfe && r[6] == subCommand
    ensures forall i :: 0 < i < 16 && i != 6 ==> r[i] == 0
  {
    [0xfe, 0, 0, 0, 0, 0, subCommand, 0, 0, 0, 0, 0, 0, 0, 0, 0]
  }

  lemma MaxTransferValue()
    ensures MAX_TRANSFER == 61440
  {
  }

  /** Every template fills the 16-byte block_data exactly. */
  lemma TemplatesFitBlockData()
    ensures |INQUIRY_CMD| == 16 && |GET_SYS_CMD| == 16
    ensures |LD_IMAGE_AREA_CMD| == 16 && |DPY_AREA_CMD| == 16
  {
  }

  lemma InquiryTemplate()
    ensures INQUIRY_CMD == [0x12] + Zeros(15)
  {
  }

  /** Bytes 2..5 of the system-information query spell "8951". */
  lemma GetSysTemplate()
    ensures GET_SYS_CMD[0] == 0xfe && GET_SYS_CMD[6] == 0x80
    ensures GET_SYS_CMD[2..6] == [0x38, 0x39, 0x35, 0x31]
    ensures forall i :: 2 <= i < 6 ==> GET_SYS_CMD[i] == "8951"[i - 2] as int
  {
  }

  lemma VendorTemplates()
    ensures LD_IMAGE_AREA_CMD == VendorTemplate(0xa2)
    ensures DPY_AREA_CMD == VendorTemplate(0x94)
  {
  }

  /** The three vendor commands share their opcode and differ at byte 6. */
  lemma VendorCommandsDistinct()
    ensures GET_SYS_CMD[0] == LD_IMAGE_AREA_CMD[0] == DPY_AREA_CMD[0] == 0xfe
    ensures GET_SYS_CMD[6] == 0x80 && LD_IMAGE_AREA_CMD[6] == 0xa2 && DPY_AREA_CMD[6] == 0x94
    ensures GET_SYS_CMD != LD_IMAGE_AREA_CMD && GET_SYS_CMD != DPY_AREA_CMD
    ensures LD_IMAGE_AREA_CMD != DPY_AREA_CMD
  {
    assert GET_SYS_CMD[6] != LD_IMAGE_AREA_CMD[6];
    assert GET_SYS_CMD[6] != DPY_AREA_CMD[6];
    assert LD_IMAGE_AREA_CMD[6] != DPY_AREA_CMD[6];
  }
}
