/**
 * CIP request paths (ether_ip.c): the ControlLogix tag path made of
 * ANSI extended symbol segments and element segments (tag_path_size,
 * make_tag_path), the class/instance/attribute path (CIA_path_size,
 * make_CIA_path) and the MR_Request header that precedes a path
 * (MR_Request_size, make_MR_Request, raw_MR_Request_data).
 *
 * Every writer is specified by the byte string it lays out; the size
 * functions are proved equal to the length of that string.
 */
module Paths {
  import opened Bytes
  import opened Tags

  /** A C `char` copied into a byte buffer. */
  function CharByte(c: char): byte { (c as int) % 0x100 }

  function NameBytes(n: string): (r: seq<byte>)
    ensures |r| == |n|
    ensures forall k :: 0 <= k < |n| ==> r[k] == CharByte(n[k])
  {
    if n == [] then [] else [CharByte(n[0])] + NameBytes(n[1..])
  }

  // ---------------------------------------------------------------
  // Tag path
  // ---------------------------------------------------------------

  /** The bytes one segment takes: 0x91, len, name, pad; or 2/4/6 for an index. */
  function SegmentSize(seg: Segment): nat
  {
    match seg
    case Name(n) => 2 + |n| + |n| % 2
    case Element(e) => if e <= 0xFF then 2 else if e <= 0xFFFF then 4 else 6
  }

  /** The byte count tag_path_size accumulates over a list. */
  function PathBytes(tl: seq<Segment>): nat
  {
    if tl == [] then 0 else SegmentSize(tl[0]) + PathBytes(tl[1..])
  }

  /** The bytes make_tag_path writes for one segment: as many as tag_path_size counts, an even number. */
  function EncodeSegment(seg: Segment): (r: seq<byte>)
    ensures |r| == SegmentSize(seg)
    ensures |r| % 2 == 0
  {
    match seg
    case Name(n) =>
      [0x91, |n| % 0x100] + NameBytes(n) + (if |n| % 2 == 1 then [0] else [])
    case Element(e) =>
      if e <= 0xFF then [0x28, e]
      else if e <= 0xFFFF then [0x29, 0x00] + LE(e, 2)
      else [0x2A, 0x00] + LE(e % 0x1_0000_0000, 4)
  }

  /** The bytes make_tag_path writes for a list, segment after segment: whole words, as many bytes as tag_path_size counts. */
  function EncodePath(tl: seq<Segment>): (r: seq<byte>)
    ensures |r| == PathBytes(tl)
    ensures |r| % 2 == 0
  {
    if tl == [] then [] else EncodeSegment(tl[0]) + EncodePath(tl[1..])
  }

  /** tag_path_size: sums the segment sizes and returns words. */
  method TagPathSize(tl: seq<Segment>) returns (words: nat)
    ensures 2 * words == |EncodePath(tl)|
  {
    var bytes := 0;
    var tag := tl;
    while tag != []
      invariant bytes + PathBytes(tag) == PathBytes(tl)
    {
      bytes := bytes + SegmentSize(tag[0]);
      tag := tag[1..];
    }
    words := bytes / 2;
  }

  /** The tag path size in words, as the size functions use it. */
  function PathWords(tl: seq<Segment>): (w: nat)
    ensures 2 * w == |EncodePath(tl)|
  {
    PathBytes(tl) / 2
  }

  /** One name segment of make_tag_path: 0x91, the length as a USINT, the characters, a pad byte if odd. */
  method PutName(buf: array<byte>, pos: nat, n: string) returns (next: nat)
    requires pos + SegmentSize(Name(n)) <= buf.Length
    modifies buf
    ensures next == pos + |EncodeSegment(Name(n))|
    ensures Wrote(old(buf[..]), buf[..], pos, EncodeSegment(Name(n)))
  {
    var slen := |n|;
    ghost var b0 := buf[..];
    ghost var head: seq<byte> := [0x91, slen % 0x100];
    var p := PackUSINTPair(buf, pos, 0x91, slen % 0x100);
    ghost var b1 := buf[..];
    p := CopyBytes(buf, p, NameBytes(n));
    WroteThen(b0, b1, buf[..], pos, head, NameBytes(n));
    if slen % 2 == 1 {
      ghost var b2 := buf[..];
      p := PackUSINT(buf, p, 0);
      WroteThen(b0, b2, buf[..], pos, head + NameBytes(n), [0]);
      assert head + NameBytes(n) + [0] == EncodeSegment(Name(n));
    } else {
      assert head + NameBytes(n) == EncodeSegment(Name(n));
    }
    next := p;
  }

  /** An element segment whose index fits a USINT: 0x28 and the index. */
  method PutElement8(buf: array<byte>, pos: nat, e: byte) returns (next: nat)
    requires pos + 2 <= buf.Length
    modifies buf
    ensures next == pos + 2
    ensures Wrote(old(buf[..]), buf[..], pos, [0x28, e])
  {
    next := PackUSINTPair(buf, pos, 0x28, e);
  }

  /** A segment code, a pad byte, then a little-endian index of `n` bytes. */
  method PutWideElement(buf: array<byte>, pos: nat, code: byte, e: uint32, n: nat) returns (next: nat)
    requires n == 2 || n == 4
    requires n == 2 ==> e < 0x1_0000
    requires pos + 2 + n <= buf.Length
    modifies buf
    ensures next == pos + 2 + n
    ensures Wrote(old(buf[..]), buf[..], pos, [code, 0x00] + LE(e, n))
  {
    var p := PackUSINT(buf, pos, code);
    ghost var b1 := buf[..];
    p := PackUSINT(buf, p, 0x00);
    WroteThen(old(buf[..]), b1, buf[..], pos, [code], [0x00]);
    ghost var b2 := buf[..];
    if n == 2 {
      next := PackUINT(buf, p, e);
    } else {
      next := PackUDINT(buf, p, e);
    }
    WroteThen(old(buf[..]), b2, buf[..], pos, [code, 0x00], LE(e, n));
  }

  /** One element segment of make_tag_path: the shortest of the three forms that holds the index. */
  method PutElement(buf: array<byte>, pos: nat, e: size_t) returns (next: nat)
    requires pos + SegmentSize(Element(e)) <= buf.Length
    modifies buf
    ensures next == pos + |EncodeSegment(Element(e))|
    ensures Wrote(old(buf[..]), buf[..], pos, EncodeSegment(Element(e)))
  {
    if e <= 0xFF {
      next := PutElement8(buf, pos, e);
    } else if e <= 0xFFFF {
      next := PutWideElement(buf, pos, 0x29, e, 2);
    } else {
      next := PutWideElement(buf, pos, 0x2A, e % 0x1_0000_0000, 4);
    }
  }

  /** The segment switch of make_tag_path's loop. */
  method PutSegment(buf: array<byte>, pos: nat, seg: Segment) returns (next: nat)
    requires pos + SegmentSize(seg) <= buf.Length
    modifies buf
    ensures next == pos + |EncodeSegment(seg)|
    ensures Wrote(old(buf[..]), buf[..], pos, EncodeSegment(seg))
  {
    match seg {
      case Name(n) => next := PutName(buf, pos, n);
      case Element(e) => next := PutElement(buf, pos, e);
    }
  }

  /** One turn of make_tag_path's loop: the next segment's bytes follow those already written. */
  lemma PathStep(done: seq<byte>, tag: seq<Segment>, tl: seq<Segment>)
    requires tag != [] && done + EncodePath(tag) == EncodePath(tl)
    ensures (done + EncodeSegment(tag[0])) + EncodePath(tag[1..]) == EncodePath(tl)
    ensures |done| + SegmentSize(tag[0]) <= PathBytes(tl)
  {
    assert EncodePath(tag) == EncodeSegment(tag[0]) + EncodePath(tag[1..]);
  }

  /** make_tag_path: lays out every segment, returns the position after the path. */
  method MakeTagPath(buf: array<byte>, pos: nat, tl: seq<Segment>) returns (next: nat)
    requires pos + PathBytes(tl) <= buf.Length
    modifies buf
    ensures next == pos + |EncodePath(tl)| == pos + 2 * PathWords(tl)
    ensures Wrote(old(buf[..]), buf[..], pos, EncodePath(tl))
  {
    ghost var start := buf[..];
    next := pos;
    var tag := tl;
    ghost var done: seq<byte> := [];
    WroteNothing(start, pos);
    while tag != []
      invariant next == pos + |done|
      invariant done + EncodePath(tag) == EncodePath(tl)
      invariant Wrote(start, buf[..], pos, done)
    {
      ghost var mid := buf[..];
      ghost var seg := EncodeSegment(tag[0]);
      PathStep(done, tag, tl);
      var at := next;
      next := PutSegment(buf, next, tag[0]);
      assert Wrote(start, buf[..], pos, done + seg) by {
        WroteAt(start, mid, buf[..], pos, at, done, seg);
      }
      done := done + seg;
      tag := tag[1..];
    }
    assert done == EncodePath(tl);
  }

  /** The tag path of a well-formed tag starts with its first name's symbol segment. */
  lemma PathStartsWithSymbol(tl: seq<Segment>)
    requires WellFormed(tl)
    ensures |EncodePath(tl)| >= 2 && EncodePath(tl)[0] == 0x91
    ensures EncodePath(tl)[1] == |tl[0].name| % 0x100
  {
  }

  // ---------------------------------------------------------------
  // Class / instance / attribute path
  // ---------------------------------------------------------------

  /** CIA_path_size: 3 words with an attribute, 2 without. */
  function CIAPathSize(attr: byte): nat
  {
    if attr != 0 then 3 else 2
  }

  /** The bytes make_CIA_path writes. */
  function CIAPath(cls: byte, instance: byte, attr: byte): (r: seq<byte>)
    ensures |r| == 2 * CIAPathSize(attr)
    ensures r[..4] == [0x20, cls, 0x24, instance]
    ensures attr != 0 ==> r[4..] == [0x30, attr]
  {
    [0x20, cls, 0x24, instance] + (if attr != 0 then [0x30, attr] else [])
  }

  method MakeCIAPath(buf: array<byte>, pos: nat, cls: byte, instance: byte, attr: byte)
    returns (next: nat)
    requires pos + 2 * CIAPathSize(attr) <= buf.Length
    modifies buf
    ensures next == pos + 2 * CIAPathSize(attr)
    ensures Wrote(old(buf[..]), buf[..], pos, CIAPath(cls, instance, attr))
  {
    buf[pos] := 0x20;
    buf[pos + 1] := cls;
    buf[pos + 2] := 0x24;
    buf[pos + 3] := instance;
    next := pos + 4;
    if attr != 0 {
      buf[pos + 4] := 0x30;
      buf[pos + 5] := attr;
      next := pos + 6;
    }
  }

  // ---------------------------------------------------------------
  // MR_Request header
  // ---------------------------------------------------------------

  /** MR_Request_size: service and path size bytes, then the path words. */
  function MRRequestSize(pathWords: nat): nat
  {
    2 + 2 * pathWords
  }

  function MRRequestHeader(service: byte, pathWords: nat): seq<byte>
  {
    [service, pathWords % 0x100]
  }

  /** make_MR_Request: service, then the path size as a USINT. */
  method MakeMRRequest(buf: array<byte>, pos: nat, service: byte, pathWords: nat) returns (next: nat)
    requires pos + 2 <= buf.Length
    modifies buf
    ensures next == pos + 2
    ensures Wrote(old(buf[..]), buf[..], pos, MRRequestHeader(service, pathWords))
  {
    next := PackUSINTPair(buf, pos, service, pathWords % 0x100);
  }

  /** raw_MR_Request_data: the request data follows the header and the path. */
  function RawMRRequestData(request: seq<byte>): (offset: nat)
    requires |request| >= 2
  {
    2 + (request[1] as int) * 2
  }

  /** A header built for a path of fewer than 256 words locates the data right after that path. */
  lemma RequestDataAfterPath(service: byte, pathWords: nat, rest: seq<byte>)
    requires pathWords < 0x100
    ensures RawMRRequestData(MRRequestHeader(service, pathWords) + rest) == MRRequestSize(pathWords)
  {
    var r := MRRequestHeader(service, pathWords) + rest;
    assert r[1] == pathWords;
  }
}
