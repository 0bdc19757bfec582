/**
 * The EtherNet/IP encapsulation that ether_ip.c puts in front of every
 * request: the 24-byte encapsulation header (make_EncapsulationHeader) and
 * the SendRRData command data that carries one unconnected MR_Request
 * (EIP_make_SendRRData). Both are written at the start of the connection's
 * buffer, whose size is the buffer-size constant of the connection.
 */
module Encapsulation {
  import opened Bytes
  import opened Options

  const ENCAPSULATION_HEADER_SIZE: nat := 24
  /** The header plus interface handle, timeout and the two item headers of the common packet format. */
  const RR_DATA_SIZE: nat := ENCAPSULATION_HEADER_SIZE + 16
  const EC_SendRRData: uint16 := 0x006F
  /** The sender context the driver puts in every header: the characters of "Funstuff". */
  const SERVER_CONTEXT: seq<byte> := [0x46, 0x75, 0x6E, 0x73, 0x74, 0x75, 0x66, 0x66]
  /** Common packet format item type of an unconnected message. */
  const CPF_UnconnectedMessage: uint16 := 0xB2

  /** command, length, session, status 0, sender context, options. */
  function HeaderBytes(command: uint16, length: uint16, session: uint32, options: uint32): (r: seq<byte>)
    ensures |r| == ENCAPSULATION_HEADER_SIZE
  {
    LE(command, 2) + LE(length, 2) + LE(session, 4) + LE(0, 4) + SERVER_CONTEXT + LE(options, 4)
  }

  /**
   * make_EncapsulationHeader: refuses (null) when the header and the
   * `length` bytes announced to follow it do not fit the buffer; otherwise
   * writes the header at the buffer's start and returns the position after it.
   */
  method MakeEncapsulationHeader(buf: array<byte>, command: uint16, length: uint16, session: uint32, options: uint32)
    returns (next: Option<nat>)
    modifies buf
    ensures next.Some? <==> ENCAPSULATION_HEADER_SIZE + length <= buf.Length
    ensures next.Some? ==> next.value == ENCAPSULATION_HEADER_SIZE
    ensures next.Some? ==> Wrote(old(buf[..]), buf[..], 0, HeaderBytes(command, length, session, options))
    ensures next.None? ==> buf[..] == old(buf[..])
  {
    if ENCAPSULATION_HEADER_SIZE + length > buf.Length {
      next := None;
    } else {
      ghost var start := buf[..];
      WroteNothing(start, 0);
      var p := AppendUINT(buf, 0, 0, command, start, []);
      p := AppendUINT(buf, 0, p, length, start, LE(command, 2));
      ghost var h := LE(command, 2) + LE(length, 2);
      p := AppendUDINT(buf, 0, p, session, start, h);
      h := h + LE(session, 4);
      p := AppendUDINT(buf, 0, p, 0, start, h);
      h := h + LE(0, 4);
      p := AppendBytes(buf, 0, p, SERVER_CONTEXT, start, h);
      h := h + SERVER_CONTEXT;
      p := AppendUDINT(buf, 0, p, options, start, h);
      next := Some(p);
    }
  }

  /** Reading the header back gives each field that was written. */
  lemma HeaderFields(command: uint16, length: uint16, session: uint32, options: uint32)
    ensures UnpackUINT(HeaderBytes(command, length, session, options), 0).0 == command
    ensures UnpackUINT(HeaderBytes(command, length, session, options), 2).0 == length
    ensures UnpackUDINT(HeaderBytes(command, length, session, options), 4).0 == session
    ensures UnpackUDINT(HeaderBytes(command, length, session, options), 8).0 == 0
    ensures HeaderBytes(command, length, session, options)[12..20] == SERVER_CONTEXT
    ensures UnpackUDINT(HeaderBytes(command, length, session, options), 20).0 == options
  {
    var h := HeaderBytes(command, length, session, options);
    assert h[0..2] == LE(command, 2);
    UINTImage(h, 0, command);
    assert h[2..4] == LE(length, 2);
    UINTImage(h, 2, length);
    assert h[4..8] == LE(session, 4);
    UDINTImage(h, 4, session);
    assert h[8..12] == LE(0, 4);
    UDINTImage(h, 8, 0);
    assert h[20..24] == LE(options, 4);
    UDINTImage(h, 20, options);
  }

  /** Interface handle 0, timeout 0, two items: a null address item and an unconnected-message item of `length` bytes. */
  function RRDataBytes(length: nat): (r: seq<byte>)
    ensures |r| == RR_DATA_SIZE - ENCAPSULATION_HEADER_SIZE
  {
    LE(0, 4) + LE(0, 2) + LE(2, 2) + LE(0, 2) + LE(0, 2) + LE(CPF_UnconnectedMessage, 2) + LE(length, 2)
  }

  /** The header's length field: the command data and the request, cut to a UINT as the header's field is. */
  function RRLength(length: nat): uint16
  {
    (RR_DATA_SIZE - ENCAPSULATION_HEADER_SIZE + length) % 0x1_0000
  }

  /** What EIP_make_SendRRData writes at the start of the buffer. */
  function SendRRDataBytes(session: uint32, length: nat): (r: seq<byte>)
    ensures |r| == RR_DATA_SIZE
  {
    HeaderBytes(EC_SendRRData, RRLength(length), session, 0) + RRDataBytes(length)
  }

  /**
   * EIP_make_SendRRData: the header for command SendRRData, then the command
   * data; returns where the MR_Request of `length` bytes goes, or null when
   * the header refuses.
   */
  method MakeSendRRData(buf: array<byte>, session: uint32, length: nat) returns (next: Option<nat>)
    requires RR_DATA_SIZE <= buf.Length
    modifies buf
    ensures next.Some? <==> ENCAPSULATION_HEADER_SIZE + RRLength(length) <= buf.Length
    ensures next.Some? ==> next.value == RR_DATA_SIZE
    ensures next.Some? ==> Wrote(old(buf[..]), buf[..], 0, SendRRDataBytes(session, length))
    ensures next.None? ==> buf[..] == old(buf[..])
  {
    ghost var start := buf[..];
    var h := MakeEncapsulationHeader(buf, EC_SendRRData, RRLength(length), session, 0);
    if h.None? {
      next := None;
    } else {
      ghost var mid := buf[..];
      var p := PutRRData(buf, h.value, length);
      WroteAt(start, mid, buf[..], 0, h.value, HeaderBytes(EC_SendRRData, RRLength(length), session, 0), RRDataBytes(length));
      next := Some(p);
    }
  }

  /** The command data of SendRRData after the header: the pack_UDINT and pack_UINT calls of EIP_make_SendRRData. */
  method PutRRData(buf: array<byte>, pos: nat, length: nat) returns (next: nat)
    requires pos + 16 <= buf.Length
    modifies buf
    ensures next == pos + 16
    ensures Wrote(old(buf[..]), buf[..], pos, RRDataBytes(length))
  {
    ghost var start := buf[..];
    var p := PutInterfaceAndCount(buf, pos);
    ghost var mid := buf[..];
    next := PutItems(buf, p, length);
    WroteAt(start, mid, buf[..], pos, p, LE(0, 4) + LE(0, 2) + LE(2, 2), LE(0, 2) + LE(0, 2) + LE(CPF_UnconnectedMessage, 2) + LE(length, 2));
    assert LE(0, 4) + LE(0, 2) + LE(2, 2) + (LE(0, 2) + LE(0, 2) + LE(CPF_UnconnectedMessage, 2) + LE(length, 2))
      == RRDataBytes(length);
  }

  /** Interface handle, timeout and item count. */
  method PutInterfaceAndCount(buf: array<byte>, pos: nat) returns (next: nat)
    requires pos + 8 <= buf.Length
    modifies buf
    ensures next == pos + 8
    ensures Wrote(old(buf[..]), buf[..], pos, LE(0, 4) + LE(0, 2) + LE(2, 2))
  {
    ghost var start := buf[..];
    WroteNothing(start, pos);
    var p := AppendUDINT(buf, pos, pos, 0, start, []);
    p := AppendUINT(buf, pos, p, 0, start, [] + LE(0, 4));
    next := AppendUINT(buf, pos, p, 2, start, [] + LE(0, 4) + LE(0, 2));
    assert [] + LE(0, 4) + LE(0, 2) + LE(2, 2) == LE(0, 4) + LE(0, 2) + LE(2, 2);
  }

  /** The null address item and the header of the unconnected-message item. */
  method PutItems(buf: array<byte>, pos: nat, length: nat) returns (next: nat)
    requires pos + 8 <= buf.Length
    modifies buf
    ensures next == pos + 8
    ensures Wrote(old(buf[..]), buf[..], pos, LE(0, 2) + LE(0, 2) + LE(CPF_UnconnectedMessage, 2) + LE(length, 2))
  {
    ghost var start := buf[..];
    WroteNothing(start, pos);
    var p := AppendUINT(buf, pos, pos, 0, start, []);
    p := AppendUINT(buf, pos, p, 0, start, [] + LE(0, 2));
    p := AppendUINT(buf, pos, p, CPF_UnconnectedMessage, start, [] + LE(0, 2) + LE(0, 2));
    next := AppendUINT(buf, pos, p, length, start, [] + LE(0, 2) + LE(0, 2) + LE(CPF_UnconnectedMessage, 2));
    assert [] + LE(0, 2) + LE(0, 2) + LE(CPF_UnconnectedMessage, 2) + LE(length, 2)
      == LE(0, 2) + LE(0, 2) + LE(CPF_UnconnectedMessage, 2) + LE(length, 2);
  }

  /**
   * For a request that fits a UINT, the header announces exactly the bytes
   * that follow it (command data and request), the command is SendRRData and
   * the data item's length is the request's size.
   */
  lemma SendRRDataFields(session: uint32, length: nat)
    requires RR_DATA_SIZE - ENCAPSULATION_HEADER_SIZE + length < 0x1_0000
    ensures UnpackUINT(SendRRDataBytes(session, length), 0).0 == EC_SendRRData
    ensures UnpackUINT(SendRRDataBytes(session, length), 2).0 + ENCAPSULATION_HEADER_SIZE == RR_DATA_SIZE + length
    ensures UnpackUDINT(SendRRDataBytes(session, length), 4).0 == session
    ensures UnpackUINT(SendRRDataBytes(session, length), 30).0 == 2
    ensures UnpackUINT(SendRRDataBytes(session, length), 36).0 == CPF_UnconnectedMessage
    ensures UnpackUINT(SendRRDataBytes(session, length), 38).0 == length
  {
    var s := SendRRDataBytes(session, length);
    SendRRDataHeader(session, length);
    assert s[30..32] == LE(2, 2);
    UINTImage(s, 30, 2);
    assert s[36..38] == LE(CPF_UnconnectedMessage, 2);
    UINTImage(s, 36, CPF_UnconnectedMessage);
    assert s[38..40] == LE(length, 2);
    UINTImage(s, 38, length);
  }

  /** The header fields of the SendRRData bytes. */
  lemma SendRRDataHeader(session: uint32, length: nat)
    ensures UnpackUINT(SendRRDataBytes(session, length), 0).0 == EC_SendRRData
    ensures UnpackUINT(SendRRDataBytes(session, length), 2).0 == RRLength(length)
    ensures UnpackUDINT(SendRRDataBytes(session, length), 4).0 == session
  {
    var s := SendRRDataBytes(session, length);
    assert s[0..2] == LE(EC_SendRRData, 2);
    UINTImage(s, 0, EC_SendRRData);
    assert s[2..4] == LE(RRLength(length), 2);
    UINTImage(s, 2, RRLength(length));
    assert s[4..8] == LE(session, 4);
    UDINTImage(s, 4, session);
  }
}
