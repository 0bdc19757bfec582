/**
 * CM_Unconnected_Send as ether_ip.c builds it: a request to the connection
 * manager that carries another MR_Request to the PLC in a given slot of the
 * backplane, with a timeout given as a tick time and a tick count
 * (calc_tick_time).
 */
module UnconnectedSend {
  import opened Bytes
  import opened Paths
  import opened Cip

  const C_ConnectionManager: byte := 0x06
  /** The largest timeout calc_tick_time accepts: 255 ticks of 2^15 ms. */
  const MAX_TICK_MILLISEC: nat := 8355840
  /** The timeout make_CM_Unconnected_Send asks for. */
  const UNCONNECTED_SEND_MILLISEC: nat := 245760

  /**
   * `ticks` ticks of 2^tickTime ms: the timeout shifted right by tickTime,
   * where tickTime is the least shift that brings it under 256.
   */
  predicate TickSplit(millisec: nat, tickTime: nat, ticks: nat)
  {
    ticks <= 0xFF
    && ticks * Pow2(tickTime) <= millisec < (ticks + 1) * Pow2(tickTime)
    && (tickTime == 0 || ticks >= 0x80)
  }

  /** calc_tick_time: halves the timeout until it fits a byte, counting the halvings. */
  method CalcTickTime(millisec: nat) returns (ok: bool, tickTime: byte, ticks: byte)
    ensures ok <==> millisec <= MAX_TICK_MILLISEC
    ensures ok ==> tickTime <= 15 && TickSplit(millisec, tickTime, ticks)
  {
    if millisec > MAX_TICK_MILLISEC {
      ok, tickTime, ticks := false, 0, 0;
    } else {
      var t: nat := 0;
      var m := millisec;
      while m > 0xFF
        invariant t <= 15
        invariant m * Pow2(t) <= millisec < (m + 1) * Pow2(t)
        invariant t == 0 || m >= 0x80
      {
        HalfStep(m, t, millisec);
        t := t + 1;
        m := m / 2;
      }
      ok, tickTime, ticks := true, t, m;
    }
  }

  /** One halving keeps the shifted value exact and cannot go past 15 halvings. */
  lemma HalfStep(m: nat, t: nat, millisec: nat)
    requires m > 0xFF && millisec <= MAX_TICK_MILLISEC
    requires m * Pow2(t) <= millisec < (m + 1) * Pow2(t)
    ensures t < 15
    ensures (m / 2) * Pow2(t + 1) <= millisec < (m / 2 + 1) * Pow2(t + 1)
  {
    var p := Pow2(t);
    var h := m / 2;
    assert Pow2(t + 1) == 2 * p;
    MulLe(2 * h, m, p);
    MulLe(m + 1, 2 * h + 2, p);
    assert h * (2 * p) == (2 * h) * p;
    assert (h + 1) * (2 * p) == (2 * h + 2) * p;
    Pow2Above(t);
    MulLe(0x100, m, p);
  }

  lemma MulLe(a: nat, b: nat, p: nat)
    ensures a <= b ==> a * p <= b * p
  {
  }

  lemma Pow2Values()
    ensures Pow2(9) == 512 && Pow2(10) == 1024 && Pow2(11) == 2048 && Pow2(15) == 0x8000
  {
    assert Pow2(4) == 16;
    assert Pow2(8) == 256;
    assert Pow2(12) == 4096;
  }

  lemma {:induction false} Pow2Mono(a: nat, b: nat)
    requires a <= b
    ensures Pow2(a) <= Pow2(b)
  {
    if a < b {
      Pow2Mono(a, b - 1);
    }
  }

  /** From 15 halvings on, a tick is at least 2^15 ms. */
  lemma Pow2Above(t: nat)
    ensures t >= 15 ==> Pow2(t) >= 0x8000
  {
    if t >= 15 {
      Pow2Mono(15, t);
      Pow2Values();
    }
  }

  /** The tick sizes that bracket 2^10. */
  lemma Pow2Around10(t: nat)
    ensures t >= 11 ==> Pow2(t) >= 2048
    ensures t <= 9 ==> Pow2(t) <= 512
    ensures t == 10 ==> Pow2(t) == 1024
  {
    Pow2Values();
    if t >= 11 {
      Pow2Mono(11, t);
    } else if t <= 9 {
      Pow2Mono(t, 9);
    }
  }

  /** The timeout make_CM_Unconnected_Send asks for is 240 ticks of 1024 ms, and nothing else. */
  lemma UnconnectedSendTicks(tickTime: nat, ticks: nat)
    requires TickSplit(UNCONNECTED_SEND_MILLISEC, tickTime, ticks)
    ensures tickTime == 10 && ticks == 240
  {
    var p := Pow2(tickTime);
    Pow2Around10(tickTime);
    MulLe(0x80, ticks, 2048);
    MulLe(2048, p, ticks);
    MulLe(ticks + 1, 0x100, p);
    MulLe(p, 512, 0x100);
  }

  /** CM_Unconnected_Send_size: MR header and connection-manager path, tick time and ticks, size, padded message, route. */
  function CMUnconnectedSendSize(messageSize: nat): nat
  {
    MRRequestSize(CIAPathSize(0)) + 1 + 1 + 2 + messageSize + messageSize % 2 + 4
  }

  /** What precedes the embedded message: MR header, path to the connection manager, timeout, message size. */
  function UnconnectedSendHead(messageSize: nat): (r: seq<byte>)
    ensures |r| == 10
  {
    MRRequestHeader(S_UnconnectedSend, CIAPathSize(0)) + CIAPath(C_ConnectionManager, 1, 0)
      + LE(10, 1) + LE(240, 1) + LE(messageSize, 2)
  }

  /** What follows the embedded message: route size of one word, a reserved byte, port 1 (backplane) and the slot. */
  function RouteToSlot(slot: int): (r: seq<byte>)
    ensures |r| == 4
  {
    [1, 0, 1, slot % 0x100]
  }

  /** The bytes after make_CM_Unconnected_Send at `pos`: the message's place keeps what was there. */
  function UnconnectedSendImage(s: seq<byte>, pos: nat, messageSize: nat, slot: int): (r: seq<byte>)
    requires pos + CMUnconnectedSendSize(messageSize) <= |s|
  {
    var route := pos + 10 + messageSize + messageSize % 2;
    s[..pos] + UnconnectedSendHead(messageSize) + s[pos + 10..route] + RouteToSlot(slot) + s[route + 4..]
  }

  /**
   * make_CM_Unconnected_Send: the request around a message of `messageSize`
   * bytes; returns where that message goes, 10 bytes in.
   */
  method MakeCMUnconnectedSend(buf: array<byte>, pos: nat, messageSize: nat, slot: int) returns (nested: nat)
    requires pos + CMUnconnectedSendSize(messageSize) <= buf.Length
    modifies buf
    ensures nested == pos + 10
    ensures buf[..] == UnconnectedSendImage(old(buf[..]), pos, messageSize, slot)
  {
    var tickTime, ticks := UnconnectedSendTimeout();
    ghost var start := buf[..];
    var p := PutUnconnectedSendHead(buf, pos, messageSize, tickTime, ticks);
    nested := p;
    ghost var mid := buf[..];
    var route := p + messageSize + messageSize % 2;
    PutRoute(buf, route, slot);
    WroteApart(start, mid, buf[..], pos, UnconnectedSendHead(messageSize), route, RouteToSlot(slot));
  }

  /** The calc_tick_time call of make_CM_Unconnected_Send: 240 ticks of 2^10 ms. */
  method UnconnectedSendTimeout() returns (tickTime: byte, ticks: byte)
    ensures tickTime == 10 && ticks == 240
  {
    var ok;
    ok, tickTime, ticks := CalcTickTime(UNCONNECTED_SEND_MILLISEC);
    UnconnectedSendTicks(tickTime, ticks);
  }

  /** The part of make_CM_Unconnected_Send before the message. */
  method PutUnconnectedSendHead(buf: array<byte>, pos: nat, messageSize: nat, tickTime: byte, ticks: byte)
    returns (next: nat)
    requires pos + 10 <= buf.Length && tickTime == 10 && ticks == 240
    modifies buf
    ensures next == pos + 10
    ensures Wrote(old(buf[..]), buf[..], pos, UnconnectedSendHead(messageSize))
  {
    ghost var start := buf[..];
    var p := MakeMRRequest(buf, pos, S_UnconnectedSend, CIAPathSize(0));
    ghost var b1 := buf[..];
    ghost var head := MRRequestHeader(S_UnconnectedSend, CIAPathSize(0));
    p := MakeCIAPath(buf, p, C_ConnectionManager, 1, 0);
    WroteAt(start, b1, buf[..], pos, pos + 2, head, CIAPath(C_ConnectionManager, 1, 0));
    head := head + CIAPath(C_ConnectionManager, 1, 0);
    p := AppendUSINT(buf, pos, p, tickTime, start, head);
    head := head + LE(10, 1);
    p := AppendUSINT(buf, pos, p, ticks, start, head);
    head := head + LE(240, 1);
    next := AppendUINT(buf, pos, p, messageSize, start, head);
  }

  /** The route after the message: path size, reserved, then make_port_path's port and link. */
  method PutRoute(buf: array<byte>, pos: nat, slot: int)
    requires pos + 4 <= buf.Length
    modifies buf
    ensures Wrote(old(buf[..]), buf[..], pos, RouteToSlot(slot))
  {
    buf[pos] := 1;
    buf[pos + 1] := 0;
    buf[pos + 2] := 1;
    buf[pos + 3] := slot % 0x100;
  }

  /**
   * The request fills exactly CM_Unconnected_Send_size bytes from its start:
   * nothing before or after changes, the message size is the UINT at offset
   * 8, the message's place is left for the caller at offset 10, and the
   * route names the slot.
   */
  lemma UnconnectedSendLayout(s: seq<byte>, pos: nat, messageSize: nat, slot: int)
    requires pos + CMUnconnectedSendSize(messageSize) <= |s|
    ensures |UnconnectedSendImage(s, pos, messageSize, slot)| == |s|
    ensures UnconnectedSendImage(s, pos, messageSize, slot)[..pos] == s[..pos]
    ensures UnconnectedSendImage(s, pos, messageSize, slot)[pos + CMUnconnectedSendSize(messageSize)..]
      == s[pos + CMUnconnectedSendSize(messageSize)..]
    ensures UnconnectedSendImage(s, pos, messageSize, slot)[pos..pos + 8] == [0x52, 2, 0x20, 0x06, 0x24, 1, 10, 240]
    ensures UnpackUINT(UnconnectedSendImage(s, pos, messageSize, slot), pos + 8).0 == messageSize % 0x1_0000
    ensures UnconnectedSendImage(s, pos, messageSize, slot)[pos + 10..pos + 10 + messageSize]
      == s[pos + 10..pos + 10 + messageSize]
    ensures UnconnectedSendImage(s, pos, messageSize, slot)[pos + CMUnconnectedSendSize(messageSize) - 1] == slot % 0x100
  {
    var r := UnconnectedSendImage(s, pos, messageSize, slot);
    var route := pos + 10 + messageSize + messageSize % 2;
    var head := UnconnectedSendHead(messageSize);
    assert r[pos..pos + 10] == head;
    assert r[..pos] == s[..pos];
    assert r[pos + 10..route] == s[pos + 10..route];
    assert r[pos + 10..pos + 10 + messageSize] == r[pos + 10..route][..messageSize];
    assert s[pos + 10..pos + 10 + messageSize] == s[pos + 10..route][..messageSize];
    assert r[route..route + 4] == RouteToSlot(slot);
    assert r[route + 4..] == s[route + 4..];
    MessageSizeField(r, pos, messageSize);
  }

  /** The message size sits in the head as a UINT. */
  lemma MessageSizeField(r: seq<byte>, pos: nat, messageSize: nat)
    requires pos + 10 <= |r| && r[pos..pos + 10] == UnconnectedSendHead(messageSize)
    ensures r[pos..pos + 8] == [0x52, 2, 0x20, 0x06, 0x24, 1, 10, 240]
    ensures UnpackUINT(r, pos + 8).0 == messageSize % 0x1_0000
  {
    var head := UnconnectedSendHead(messageSize);
    assert r[pos..pos + 8] == head[..8];
    assert r[pos + 8..pos + 10] == head[8..10] == LE(messageSize, 2);
    LEMod(messageSize, 2, 2);
    assert Pow256(2) == 0x1_0000;
    UINTImage(r, pos + 8, messageSize % 0x1_0000);
  }
}
