/**
 * Logix5000 data access (ether_ip.c, after Rockwell publication
 * 1756-RM005A): the abbreviated CIP type codes and their sizes, the
 * ReadData and WriteData requests, typed access to the elements of a
 * "type and data" buffer, and the checks applied to MR_Response replies.
 */
module Cip {
  import opened Bytes
  import opened Tags
  import opened Paths
  import opened Options

  type int32 = x: int | -0x8000_0000 <= x < 0x8000_0000

  // Abbreviated type codes.
  const T_BOOL: uint16 := 0xC1
  const T_SINT: uint16 := 0xC2
  const T_INT: uint16 := 0xC3
  const T_DINT: uint16 := 0xC4
  const T_REAL: uint16 := 0xCA
  const T_BITS: uint16 := 0xD3

  // Message router services.
  const S_MultiRequest: byte := 0x0A
  const S_ReadData: byte := 0x4C
  const S_WriteData: byte := 0x4D
  const S_UnconnectedSend: byte := 0x52

  /** The type codes whose elements are plain little-endian integers. */
  predicate IsIntegerType(t: int)
  {
    t == T_BOOL || t == T_SINT || t == T_INT || t == T_DINT || t == T_BITS
  }

  /** CIP_Type_size: bytes per element, 0 for a code it does not know (structures included). */
  function TypeSize(t: int): (n: nat)
    ensures n == 0 <==> !(IsIntegerType(t) || t == T_REAL)
    ensures n == 1 || n == 2 || n == 4 || n == 0
  {
    if t == T_BOOL || t == T_SINT then 1
    else if t == T_INT then 2
    else if t == T_DINT || t == T_REAL || t == T_BITS then 4
    else 0
  }

  // ---------------------------------------------------------------
  // ReadData / WriteData requests
  // ---------------------------------------------------------------

  /** CIP_ReadData_size: service and path size, the path in words, the element count. */
  function ReadDataSize(tl: seq<Segment>): nat
  {
    2 + 2 * PathWords(tl) + 2
  }

  /** The request make_CIP_ReadData lays out. */
  function ReadDataBytes(tl: seq<Segment>, elements: nat): seq<byte>
  {
    MRRequestHeader(S_ReadData, PathWords(tl)) + EncodePath(tl) + LE(elements, 2)
  }

  /** make_MR_Request followed by make_tag_path, the start of both data requests. */
  method PutServicePath(buf: array<byte>, pos: nat, service: byte, tl: seq<Segment>) returns (next: nat)
    requires pos + 2 + PathBytes(tl) <= buf.Length
    modifies buf
    ensures next == pos + 2 + 2 * PathWords(tl)
    ensures Wrote(old(buf[..]), buf[..], pos, MRRequestHeader(service, PathWords(tl)) + EncodePath(tl))
  {
    var words := TagPathSize(tl);
    var p := MakeMRRequest(buf, pos, service, words);
    ghost var b1 := buf[..];
    next := MakeTagPath(buf, p, tl);
    WroteAt(old(buf[..]), b1, buf[..], pos, p, MRRequestHeader(service, words), EncodePath(tl));
  }

  /** make_CIP_ReadData: ends exactly CIP_ReadData_size bytes after its start. */
  method MakeReadData(buf: array<byte>, pos: nat, tl: seq<Segment>, elements: nat) returns (next: nat)
    requires pos + ReadDataSize(tl) <= buf.Length
    modifies buf
    ensures next == pos + ReadDataSize(tl) == pos + |ReadDataBytes(tl, elements)|
    ensures Wrote(old(buf[..]), buf[..], pos, ReadDataBytes(tl, elements))
  {
    var p := PutServicePath(buf, pos, S_ReadData, tl);
    next := AppendUINT(buf, pos, p, elements, old(buf[..]), MRRequestHeader(S_ReadData, PathWords(tl)) + EncodePath(tl));
  }

  /** The element count is the request's last UINT, and for a path under 256 words it is where the request data starts. */
  lemma ReadDataLayout(tl: seq<Segment>, elements: nat)
    ensures |ReadDataBytes(tl, elements)| == ReadDataSize(tl)
    ensures UnpackUINT(ReadDataBytes(tl, elements), ReadDataSize(tl) - 2).0 == elements % 0x1_0000
    ensures PathWords(tl) < 0x100 ==> RawMRRequestData(ReadDataBytes(tl, elements)) == ReadDataSize(tl) - 2
  {
    var r := ReadDataBytes(tl, elements);
    var n := ReadDataSize(tl);
    assert r[n - 2..n] == LE(elements, 2);
    FromLEofLE(elements, 2);
    UnpackUINTValue(r, n - 2);
    assert Pow256(2) == 0x1_0000;
  }

  /** CIP_WriteData_size: service and path size, the path in words, type and count, the data. */
  function WriteDataSize(tl: seq<Segment>, dataSize: nat): nat
  {
    2 + 2 * PathWords(tl) + 4 + dataSize
  }

  /** The request make_CIP_WriteData lays out: the type's size times the count of raw bytes. */
  function WriteDataBytes(tl: seq<Segment>, typ: uint16, elements: nat, raw: seq<byte>): seq<byte>
    requires TypeSize(typ) * elements <= |raw|
  {
    MRRequestHeader(S_WriteData, PathWords(tl)) + EncodePath(tl) + LE(typ, 2) + LE(elements, 2)
      + raw[..TypeSize(typ) * elements]
  }

  /** make_CIP_WriteData: ends exactly CIP_WriteData_size(tag, CIP_Type_size(type) * elements) bytes after its start. */
  method MakeWriteData(buf: array<byte>, pos: nat, tl: seq<Segment>, typ: uint16, elements: nat, raw: seq<byte>)
    returns (next: nat)
    requires TypeSize(typ) * elements <= |raw|
    requires pos + WriteDataSize(tl, TypeSize(typ) * elements) <= buf.Length
    modifies buf
    ensures next == pos + WriteDataSize(tl, TypeSize(typ) * elements) == pos + |WriteDataBytes(tl, typ, elements, raw)|
    ensures Wrote(old(buf[..]), buf[..], pos, WriteDataBytes(tl, typ, elements, raw))
  {
    var dataSize := TypeSize(typ) * elements;
    ghost var head := MRRequestHeader(S_WriteData, PathWords(tl)) + EncodePath(tl);
    var p := PutServicePath(buf, pos, S_WriteData, tl);
    p := AppendUINT(buf, pos, p, typ, old(buf[..]), head);
    p := AppendUINT(buf, pos, p, elements, old(buf[..]), head + LE(typ, 2));
    ghost var mid := buf[..];
    next := CopyBytes(buf, p, raw[..dataSize]);
    WroteAt(old(buf[..]), mid, buf[..], pos, p, head + LE(typ, 2) + LE(elements, 2), raw[..dataSize]);
  }

  /**
   * The write sizes derived from a read probe are exact: a read reply of
   * 4 header bytes, the type and n data bytes turns a ReadData request into
   * the WriteData request that carries those n bytes.
   */
  lemma WriteSizeFromRead(tl: seq<Segment>, dataSize: nat)
    ensures ReadDataSize(tl) + ((4 + 2 + dataSize) - 4) == WriteDataSize(tl, dataSize)
  {
  }

  // ---------------------------------------------------------------
  // Responses
  // ---------------------------------------------------------------

  /** Little-endian UINTs one after the other. */
  function Words(ws: seq<uint16>): (r: seq<byte>)
    ensures |r| == 2 * |ws|
  {
    if ws == [] then [] else LE(ws[0], 2) + Words(ws[1..])
  }

  /** An MR_Response: reply service, reserved byte, general status, extended status size and words, data. */
  function MRResponse(service: byte, status: byte, ext: seq<uint16>, data: seq<byte>): (r: seq<byte>)
    requires |ext| < 0x100
    ensures |r| == 4 + 2 * |ext| + |data|
  {
    [service, 0, status, |ext|] + Words(ext) + data
  }

  /**
   * EIP_raw_MR_Response_data: the data starts after the 4 fixed bytes and
   * the extended status words; its size is what is left of the reply, 0
   * when nothing is.
   */
  function RawMRResponseData(response: seq<byte>, responseSize: nat): (r: (nat, nat))
    requires |response| >= 4
    ensures r.0 == 4 + 2 * (response[3] as int)
    ensures r.1 == 0 <==> responseSize <= r.0
    ensures r.1 > 0 ==> r.0 + r.1 == responseSize
  {
    var nonData := 4 + 2 * (response[3] as int);
    if responseSize > nonData then (nonData, responseSize - nonData) else (nonData, 0)
  }

  /** The data located in a reply is exactly the data the reply carries. */
  lemma ResponseDataRoundTrip(service: byte, status: byte, ext: seq<uint16>, data: seq<byte>)
    requires |ext| < 0x100
    ensures var resp := MRResponse(service, status, ext, data);
      var loc := RawMRResponseData(resp, |resp|);
      loc.0 == 4 + 2 * |ext| && loc.1 == |data| && resp[loc.0..loc.0 + loc.1] == data
  {
    var resp := MRResponse(service, status, ext, data);
    assert resp[3] == |ext|;
    assert resp[4 + 2 * |ext|..] == data;
  }

  /** is_raw_MRResponse_ok: the general status is 0. */
  predicate ResponseOK(response: seq<byte>)
    requires |response| >= 3
  {
    response[2] == 0
  }

  /** check_CIP_ReadData_Response: a ReadData reply with status 0 locates its data; anything else is refused. */
  function CheckReadDataResponse(response: seq<byte>, responseSize: nat): (r: Option<(nat, nat)>)
    requires |response| >= 4
    ensures r.Some? <==> response[0] % 0x80 == S_ReadData && response[2] == 0
    ensures r.Some? ==> r.value == RawMRResponseData(response, responseSize)
  {
    if response[0] % 0x80 == S_ReadData && ResponseOK(response) then Some(RawMRResponseData(response, responseSize))
    else None
  }

  /** A successful ReadData reply hands back exactly its data, and an error status hands back nothing. */
  lemma ReadReplyData(status: byte, ext: seq<uint16>, data: seq<byte>)
    requires |ext| < 0x100
    ensures var resp := MRResponse(S_ReadData + 0x80, status, ext, data);
      var r := CheckReadDataResponse(resp, |resp|);
      (status == 0 <==> r.Some?) && (r.Some? ==> r.value.1 == |data| && resp[r.value.0..r.value.0 + r.value.1] == data)
  {
    ResponseDataRoundTrip(S_ReadData + 0x80, status, ext, data);
  }

  /** check_CIP_WriteData_Response: a WriteData reply with status 0. */
  predicate CheckWriteDataResponse(response: seq<byte>)
    requires |response| >= 3
  {
    response[0] % 0x80 == S_WriteData && ResponseOK(response)
  }

  /** check_CIP_MultiRequest_Response: exactly the MultiRequest reply service, with status 0. */
  predicate CheckMultiRequestResponse(response: seq<byte>)
    requires |response| >= 3
  {
    response[0] == S_MultiRequest + 0x80 && response[2] == 0
  }

  /** Only a reply to the service asked for is accepted, whatever its status. */
  lemma ChecksMatchService(resp: seq<byte>)
    requires |resp| >= 4
    ensures CheckWriteDataResponse(resp) ==> CheckReadDataResponse(resp, |resp|).None?
    ensures CheckMultiRequestResponse(resp) ==> !CheckWriteDataResponse(resp) && CheckReadDataResponse(resp, |resp|).None?
  {
  }

  // ---------------------------------------------------------------
  // Typed elements of a "UINT type, raw data" buffer
  // ---------------------------------------------------------------

  /** The type code at the head of the buffer. */
  function DataType(data: seq<byte>): uint16
    requires |data| >= 2
  {
    UnpackUINT(data, 0).0
  }

  /** Where element `element` starts: behind the type code, `element` sizes in. */
  function ElementOffset(data: seq<byte>, element: nat): nat
    requires |data| >= 2
  {
    2 + element * TypeSize(DataType(data))
  }

  /** The buffer holds element `element` of its type (the callers' guarantee; the accessors do not check). */
  predicate HoldsElement(data: seq<byte>, element: nat)
  {
    |data| >= 2 && ElementOffset(data, element) + TypeSize(DataType(data)) <= |data|
  }

  /** The bytes of element `element`. */
  function ElementBytes(data: seq<byte>, element: nat): (r: seq<byte>)
    requires HoldsElement(data, element)
    ensures |r| == TypeSize(DataType(data))
  {
    data[ElementOffset(data, element)..ElementOffset(data, element) + TypeSize(DataType(data))]
  }

  /** What an accessor reports: an integer, the raw image of a REAL, or an unknown type (the C `false`). */
  datatype Reading = Value(v: int) | RealImage(image: uint32) | UnknownType

  /** get_CIP_UDINT: the element's bytes read as an unsigned little-endian number. */
  function GetUDINT(data: seq<byte>, element: nat): (r: Reading)
    requires HoldsElement(data, element)
    ensures r.UnknownType? <==> TypeSize(DataType(data)) == 0
    ensures r.RealImage? <==> DataType(data) == T_REAL
    ensures r.RealImage? ==> r.image == FromLE(ElementBytes(data, element))
    ensures r.Value? ==> r.v == FromLE(ElementBytes(data, element))
  {
    var t := UnpackUINT(data, 0).0;
    var off := 2 + element * TypeSize(t);
    ghost var e := ElementBytes(data, element);
    assert |e| == 1 ==> FromLE(e) == e[0] + 256 * FromLE(e[1..]) && e[1..] == [];
    if t == T_BOOL || t == T_SINT then Value(data[off])
    else if t == T_INT then UnpackUINTValue(data, off); Value(UnpackUINT(data, off).0)
    else if t == T_DINT || t == T_BITS then UnpackUDINTValue(data, off); Value(UnpackUDINT(data, off).0)
    else if t == T_REAL then UnpackUDINTValue(data, off); RealImage(UnpackUDINT(data, off).0)
    else UnknownType
  }

  /** Two's-complement reading of an unsigned value of `width` bytes. */
  function Signed(u: int, width: nat): int
  {
    if u >= Pow256(width) / 2 then u - Pow256(width) else u
  }

  /**
   * get_CIP_DINT: INT and DINT elements are read as signed numbers, BOOL
   * and SINT elements as unsigned bytes (the byte is widened unsigned).
   */
  function GetDINT(data: seq<byte>, element: nat): (r: Reading)
    requires HoldsElement(data, element)
    ensures r.UnknownType? <==> TypeSize(DataType(data)) == 0
    ensures r.Value? ==> -0x8000_0000 <= r.v < 0x8000_0000
  {
    var t := UnpackUINT(data, 0).0;
    var off := 2 + element * TypeSize(t);
    if t == T_BOOL || t == T_SINT then Value(data[off])
    else if t == T_INT then
      var u := UnpackUINT(data, off).0;
      Value(if u >= 0x8000 then u - 0x1_0000 else u)
    else if t == T_DINT || t == T_BITS then
      var u := UnpackUDINT(data, off).0;
      Value(if u >= 0x8000_0000 then u - 0x1_0000_0000 else u)
    else if t == T_REAL then RealImage(UnpackUDINT(data, off).0)
    else UnknownType
  }

  /** get_CIP_DINT is get_CIP_UDINT's number read in two's complement, except that bytes stay unsigned. */
  lemma DINTofUDINT(data: seq<byte>, element: nat)
    requires HoldsElement(data, element)
    ensures var t := DataType(data);
      GetUDINT(data, element).Value? ==>
        GetDINT(data, element) == Value(
          if t == T_BOOL || t == T_SINT then GetUDINT(data, element).v
          else Signed(GetUDINT(data, element).v, TypeSize(t)))
    ensures !GetUDINT(data, element).Value? ==> GetDINT(data, element) == GetUDINT(data, element)
  {
    assert Pow256(2) == 0x1_0000;
    assert Pow256(4) == 0x1_0000_0000;
  }

  /** get_CIP_USINT: only BOOL and SINT elements, as the byte itself. */
  function GetUSINT(data: seq<byte>, element: nat): (r: Option<byte>)
    requires HoldsElement(data, element)
    ensures r.Some? <==> DataType(data) == T_BOOL || DataType(data) == T_SINT
    ensures r.Some? ==> GetUDINT(data, element) == Value(r.value)
  {
    var t := UnpackUINT(data, 0).0;
    var off := 2 + element * TypeSize(t);
    if t == T_BOOL || t == T_SINT then Some(data[off]) else None
  }

  /**
   * The bytes put_CIP_UDINT and put_CIP_DINT store for a value: its low
   * bytes for an integer type; for REAL the float's image, whose conversion
   * from the integer is not part of this model and is passed in.
   */
  function PutImage(t: uint16, value: nat, realImage: uint32): (r: seq<byte>)
    ensures |r| == TypeSize(t)
  {
    if t == T_REAL then LE(realImage, 4) else LE(value, TypeSize(t))
  }

  /** put_CIP_UDINT: overwrites element `element` in place; false for an unknown type, which writes nothing. */
  method PutUDINT(data: array<byte>, element: nat, value: uint32, realImage: uint32) returns (ok: bool)
    requires HoldsElement(data[..], element)
    modifies data
    ensures ok <==> TypeSize(DataType(old(data[..]))) != 0
    ensures ok ==> Wrote(old(data[..]), data[..], ElementOffset(old(data[..]), element),
                         PutImage(DataType(old(data[..])), value, realImage))
    ensures !ok ==> data[..] == old(data[..])
  {
    var t := UnpackUINT(data[..], 0).0;
    var off := 2 + element * TypeSize(t);
    var next: nat;
    ok := true;
    if t == T_BOOL || t == T_SINT {
      next := PackUSINT(data, off, value % 0x100);
      LE1(value);
    } else if t == T_INT {
      next := PackUINT(data, off, value % 0x1_0000);
      assert Pow256(2) == 0x1_0000;
      LEMod(value, 2, 2);
    } else if t == T_DINT || t == T_BITS {
      next := PackUDINT(data, off, value);
    } else if t == T_REAL {
      next := PackUDINT(data, off, realImage);
    } else {
      ok := false;
    }
  }

  /** put_CIP_DINT: the same stores, of the value's two's-complement bytes. */
  method PutDINT(data: array<byte>, element: nat, value: int32, realImage: uint32) returns (ok: bool)
    requires HoldsElement(data[..], element)
    modifies data
    ensures ok <==> TypeSize(DataType(old(data[..]))) != 0
    ensures ok ==> Wrote(old(data[..]), data[..], ElementOffset(old(data[..]), element),
                         PutImage(DataType(old(data[..])), value % 0x1_0000_0000, realImage))
    ensures !ok ==> data[..] == old(data[..])
  {
    var t := UnpackUINT(data[..], 0).0;
    var off := 2 + element * TypeSize(t);
    var u: nat := value % 0x1_0000_0000;
    var next: nat;
    ok := true;
    assert Pow256(1) == 0x100 && Pow256(2) == 0x1_0000 && Pow256(4) == 0x1_0000_0000;
    if t == T_BOOL || t == T_SINT {
      next := PackUSINT(data, off, value % 0x100);
      ModOfMod(value, 0x100, 0x100_0000);
      LE1(u);
    } else if t == T_INT {
      next := PackUINT(data, off, value % 0x1_0000);
      ModOfMod(value, 0x1_0000, 0x1_0000);
      LEMod(u, 2, 2);
    } else if t == T_DINT || t == T_BITS {
      next := PackUDINT(data, off, u);
    } else if t == T_REAL {
      next := PackUDINT(data, off, realImage);
    } else {
      ok := false;
    }
  }

  /** Reducing modulo a multiple first changes nothing. */
  lemma ModOfMod(v: int, m: nat, k: nat)
    requires m >= 1 && k >= 1
    ensures (v % (m * k)) % m == v % m
  {
    var q := v / (m * k);
    assert v == (m * k) * q + v % (m * k);
    assert v == m * (k * q) + v % (m * k);
    ModShift(v % (m * k), m, k * q);
  }

  /** Adding a multiple of m keeps the remainder. */
  lemma ModShift(r: int, m: nat, j: int)
    requires m >= 1
    ensures (m * j + r) % m == r % m
  {
    var q2, r2 := r / m, r % m;
    assert m * j + r == m * (j + q2) + r2;
    ModUnique(m * j + r, m, j + q2, r2);
  }

  /** What put_CIP_UDINT stores, get_CIP_UDINT reads back, reduced to the type's size. */
  lemma PutThenGetUDINT(before: seq<byte>, after: seq<byte>, element: nat, value: nat)
    requires HoldsElement(before, element) && IsIntegerType(DataType(before))
    requires Wrote(before, after, ElementOffset(before, element), LE(value, TypeSize(DataType(before))))
    ensures HoldsElement(after, element) && DataType(after) == DataType(before)
    ensures GetUDINT(after, element) == Value(value % Pow256(TypeSize(DataType(before))))
  {
    var n := TypeSize(DataType(before));
    var off := ElementOffset(before, element);
    WroteSlice(before, after, off, LE(value, n));
    assert after[0..2] == before[0..2];
    FromLEofLE(value, n);
  }

  /** A put leaves every other element as it was. */
  lemma PutKeepsOthers(before: seq<byte>, after: seq<byte>, element: nat, other: nat, image: seq<byte>)
    requires HoldsElement(before, element) && HoldsElement(before, other) && other != element
    requires |image| == TypeSize(DataType(before))
    requires Wrote(before, after, ElementOffset(before, element), image)
    ensures HoldsElement(after, other)
    ensures GetUDINT(after, other) == GetUDINT(before, other)
    ensures GetDINT(after, other) == GetDINT(before, other)
  {
    var n := |image|;
    var off := ElementOffset(before, element);
    var off2 := ElementOffset(before, other);
    Apart(element, other, n);
    Untouched(before, after, off, image, 0, 2);
    assert DataType(after) == DataType(before);
    Untouched(before, after, off, image, off2, off2 + n);
    assert ElementBytes(after, other) == ElementBytes(before, other);
    DINTofUDINT(after, other);
    DINTofUDINT(before, other);
  }

  /** A range the write does not reach reads as before. */
  lemma Untouched(before: seq<byte>, after: seq<byte>, pos: nat, image: seq<byte>, lo: nat, hi: nat)
    requires Wrote(before, after, pos, image)
    requires lo <= hi <= |before| && (hi <= pos || pos + |image| <= lo)
    ensures hi <= |after| && after[lo..hi] == before[lo..hi]
  {
    forall i | lo <= i < hi
      ensures after[i] == before[i]
    {
      WroteAtIndex(before, after, pos, image, i);
    }
  }

  /** Distinct elements of one size do not overlap. */
  lemma Apart(e: nat, o: nat, n: nat)
    ensures o < e ==> 2 + o * n + n <= 2 + e * n
    ensures o > e ==> 2 + e * n + n <= 2 + o * n
  {
    if o < e {
      Later(o, e, n);
    } else if o > e {
      Later(e, o, n);
    }
  }

  lemma Later(a: nat, b: nat, n: nat)
    requires a < b
    ensures a * n + n <= b * n
  {
    var d := b - a - 1;
    assert b * n == (a + 1 + d) * n;
    assert (a + 1 + d) * n == a * n + n + d * n;
    assert d * n >= 0;
  }

  /** The unsigned image of an in-range signed value, read back in two's complement, is the value. */
  lemma SignedImage(value: int, width: nat)
    requires width >= 1
    requires 0 <= value + Pow256(width) / 2 && value < Pow256(width) / 2
    ensures Signed(value % Pow256(width), width) == value
  {
    var m := Pow256(width);
    assert m == 256 * Pow256(width - 1);
    if value < 0 {
      ModUnique(value, m, -1, value + m);
    } else {
      ModUnique(value, m, 0, value);
    }
  }

  /** The arithmetic of the round trip through the unsigned image, one width at a time. */
  lemma ImageArithmetic(value: int32)
    ensures Signed((value % 0x1_0000_0000) % Pow256(4), 4) == value
    ensures -0x8000 <= value < 0x8000 ==> Signed((value % 0x1_0000_0000) % Pow256(2), 2) == value
    ensures (value % 0x1_0000_0000) % Pow256(1) == value % 0x100
  {
    assert Pow256(1) == 0x100 && Pow256(2) == 0x1_0000 && Pow256(4) == 0x1_0000_0000;
    ModOfMod(value, 0x1_0000_0000, 1);
    SignedImage(value, 4);
    ModOfMod(value, 0x1_0000, 0x1_0000);
    if -0x8000 <= value < 0x8000 {
      SignedImage(value, 2);
    }
    ModOfMod(value, 0x100, 0x100_0000);
  }

  /** put_CIP_DINT then get_CIP_DINT: a DINT or BITS element returns the value, an INT one a value in range, a byte its low byte. */
  lemma PutThenGetDINT(before: seq<byte>, after: seq<byte>, element: nat, value: int32)
    requires HoldsElement(before, element) && IsIntegerType(DataType(before))
    requires Wrote(before, after, ElementOffset(before, element), LE(value % 0x1_0000_0000, TypeSize(DataType(before))))
    ensures HoldsElement(after, element)
    ensures DataType(before) == T_DINT || DataType(before) == T_BITS ==> GetDINT(after, element) == Value(value)
    ensures DataType(before) == T_INT && -0x8000 <= value < 0x8000 ==> GetDINT(after, element) == Value(value)
    ensures DataType(before) == T_BOOL || DataType(before) == T_SINT ==> GetDINT(after, element) == Value(value % 0x100)
  {
    var t := DataType(before);
    var u := value % 0x1_0000_0000;
    PutThenGetUDINT(before, after, element, u);
    DINTofUDINT(after, element);
    ImageArithmetic(value);
  }
}
