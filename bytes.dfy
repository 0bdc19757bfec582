/**
 * Little-endian integer packing of the CIP wire format (ether_ip.c,
 * pack_USINT / pack_UINT / pack_UDINT and unpack_UINT / unpack_UDINT).
 *
 * A C buffer pointer that advances while bytes are written becomes an
 * `array<byte>` plus a position; every writer returns the position just
 * behind what it wrote, and `Wrote` says which bytes changed.
 */
module Bytes {

  type byte = x: int | 0 <= x < 0x100
  type uint16 = x: int | 0 <= x < 0x1_0000
  type uint32 = x: int | 0 <= x < 0x1_0000_0000

  /** C conversion of any integer to the unsigned types (modular). */
  function ToUSINT(v: int): byte { v % 0x100 }
  function ToUINT(v: int): uint16 { v % 0x1_0000 }
  function ToUDINT(v: int): uint32 { v % 0x1_0000_0000 }

  /** 2^n: the value of bit n, and a shift by n. */
  function Pow2(n: nat): (p: nat)
    ensures p >= 1
  {
    if n == 0 then 1 else 2 * Pow2(n - 1)
  }

  function Pow256(n: nat): (p: nat)
    ensures p >= 1
  {
    if n == 0 then 1 else 256 * Pow256(n - 1)
  }

  /** The `n`-byte little-endian image of `v`, low byte first. */
  function LE(v: nat, n: nat): (r: seq<byte>)
    ensures |r| == n
  {
    if n == 0 then [] else [v % 256] + LE(v / 256, n - 1)
  }

  /** The value of a little-endian byte string. */
  function FromLE(s: seq<byte>): nat
  {
    if s == [] then 0 else s[0] + 256 * FromLE(s[1..])
  }

  lemma {:induction false} FromLEBound(s: seq<byte>)
    ensures FromLE(s) < Pow256(|s|)
  {
    if s != [] {
      FromLEBound(s[1..]);
    }
  }

  lemma FromLE2(w: seq<byte>)
    requires |w| == 2
    ensures FromLE(w) == w[0] as int + 0x100 * (w[1] as int)
  {
    assert FromLE(w[1..]) == w[1] + 256 * FromLE(w[1..][1..]);
    assert w[1..][1..] == [];
  }

  lemma FromLE4(w: seq<byte>)
    requires |w| == 4
    ensures FromLE(w) == w[0] as int + 0x100 * (w[1] as int) + 0x1_0000 * (w[2] as int) + 0x100_0000 * (w[3] as int)
  {
    var w1 := w[1..];
    var w2 := w1[1..];
    var w3 := w2[1..];
    assert FromLE(w) == w[0] + 256 * FromLE(w1);
    assert FromLE(w1) == w[1] + 256 * FromLE(w2);
    assert FromLE(w2) == w[2] + 256 * FromLE(w3);
    assert FromLE(w3) == w[3] + 256 * FromLE(w3[1..]);
    assert w3[1..] == [];
  }

  /** Encoding a decoded string gives the string back. */
  lemma {:induction false} LEofFromLE(s: seq<byte>)
    ensures LE(FromLE(s), |s|) == s
  {
    if s != [] {
      LEofFromLE(s[1..]);
      var v := FromLE(s);
      assert v % 256 == s[0];
      assert v / 256 == FromLE(s[1..]);
    }
  }

  /** Decoding an encoded value gives it back, reduced to the width. */
  lemma {:induction false} FromLEofLE(v: nat, n: nat)
    ensures FromLE(LE(v, n)) == v % Pow256(n)
  {
    if n > 0 {
      FromLEofLE(v / 256, n - 1);
      var r := LE(v, n);
      assert r[0] == v % 256 && r[1..] == LE(v / 256, n - 1);
      ModSplit(v, Pow256(n - 1));
    }
  }

  /** v mod 256m is its low byte plus 256 times (v/256 mod m). */
  lemma ModSplit(v: nat, m: nat)
    requires m >= 1
    ensures v % (256 * m) == v % 256 + 256 * ((v / 256) % m)
  {
    var a, b := v % 256, v / 256;
    var q, r := b / m, b % m;
    assert v == 256 * b + a;
    assert b == m * q + r;
    Distribute(v, a, b, m, q, r);
    ModUnique(v, 256 * m, q, 256 * r + a);
  }

  lemma Distribute(v: int, a: int, b: int, m: int, q: int, r: int)
    requires v == 256 * b + a && b == m * q + r
    ensures v == (256 * m) * q + (256 * r + a)
  {
  }

  /** The remainder is the only r in [0, d) with v == d q + r. */
  lemma ModUnique(v: int, d: int, q: int, r: int)
    requires d > 0 && v == d * q + r && 0 <= r < d
    ensures v % d == r
  {
    var q2, r2 := v / d, v % d;
    assert v == d * q2 + r2;
    assert d * (q - q2) == r2 - r;
    MulAway(d, q - q2);
  }

  lemma MulAway(d: int, k: int)
    requires d > 0
    ensures k >= 1 ==> d * k >= d
    ensures k <= -1 ==> d * k <= -d
  {
  }

  lemma LE1(v: nat)
    ensures LE(v, 1) == [v % 0x100]
  {
  }

  /** An image only depends on the value modulo its width. */
  lemma {:induction false} LEMod(v: nat, n: nat, k: nat)
    requires k >= n
    ensures LE(v % Pow256(k), n) == LE(v, n)
  {
    if n > 0 {
      ModSplit(v, Pow256(k - 1));
      assert (v % Pow256(k)) % 256 == v % 256;
      assert (v % Pow256(k)) / 256 == (v / 256) % Pow256(k - 1);
      LEMod(v / 256, n - 1, k - 1);
    }
  }

  /** `n` zero bytes, as calloc leaves them. */
  function Zeros(n: nat): (r: seq<byte>)
    ensures |r| == n && forall k | 0 <= k < n :: r[k] == 0
  {
    seq(n, k => 0)
  }

  /** Two more zero bytes, written as a UINT 0. */
  lemma ZerosGrow(n: nat)
    ensures Zeros(n) + LE(0, 2) == Zeros(n + 2)
  {
    assert LE(0, 2) == [0] + LE(0, 1);
  }

  /**
   * `after` is `before` with `bytes` written at `pos` and nothing else
   * changed: the effect of writing through an advancing buffer pointer.
   */
  ghost predicate Wrote(before: seq<byte>, after: seq<byte>, pos: nat, bytes: seq<byte>)
  {
    pos + |bytes| <= |before| && after == before[..pos] + bytes + before[pos + |bytes|..]
  }

  /** The written range holds exactly the bytes written, and the rest is as before. */
  lemma WroteSlice(a: seq<byte>, b: seq<byte>, pos: nat, x: seq<byte>)
    requires Wrote(a, b, pos, x)
    ensures |b| == |a|
    ensures b[pos..pos + |x|] == x
    ensures b[..pos] == a[..pos]
    ensures b[pos + |x|..] == a[pos + |x|..]
  {
  }

  /** The same, one index at a time. */
  lemma WroteAtIndex(a: seq<byte>, b: seq<byte>, pos: nat, x: seq<byte>, i: nat)
    requires Wrote(a, b, pos, x) && i < |a|
    ensures b[i] == if pos <= i < pos + |x| then x[i - pos] else a[i]
  {
  }

  /** Storing one byte. */
  lemma WroteOne(a: seq<byte>, pos: nat, v: byte)
    requires pos < |a|
    ensures Wrote(a, a[pos := v], pos, [v])
  {
    assert a[pos := v] == a[..pos] + [v] + a[pos + 1..];
  }

  /** Two writes in a row are one write of the concatenation. */
  lemma WroteThen(a: seq<byte>, b: seq<byte>, c: seq<byte>, pos: nat, x: seq<byte>, y: seq<byte>)
    requires Wrote(a, b, pos, x)
    requires Wrote(b, c, pos + |x|, y)
    ensures Wrote(a, c, pos, x + y)
  {
    var m := pos + |x|;
    assert b[..m] == a[..pos] + x;
    assert b[m + |y|..] == a[m + |y|..];
    assert c == (a[..pos] + x) + y + a[m + |y|..];
  }

  /** Two writes in a row, the second starting where the first ended. */
  lemma WroteAt(a: seq<byte>, b: seq<byte>, c: seq<byte>, pos: nat, mid: nat, x: seq<byte>, y: seq<byte>)
    requires mid == pos + |x|
    requires Wrote(a, b, pos, x)
    requires Wrote(b, c, mid, y)
    ensures Wrote(a, c, pos, x + y)
  {
    WroteThen(a, b, c, pos, x, y);
  }

  /** A write, then a second one further on: the gap between them keeps the old bytes. */
  lemma WroteApart(a: seq<byte>, b: seq<byte>, c: seq<byte>, pos: nat, x: seq<byte>, at: nat, y: seq<byte>)
    requires Wrote(a, b, pos, x)
    requires Wrote(b, c, at, y)
    requires pos + |x| <= at
    ensures c == a[..pos] + x + a[pos + |x|..at] + y + a[at + |y|..]
  {
    assert b[..at] == a[..pos] + x + a[pos + |x|..at];
    assert b[at + |y|..] == a[at + |y|..];
  }

  lemma WroteNothing(a: seq<byte>, pos: nat)
    requires pos <= |a|
    ensures Wrote(a, a, pos, [])
  {
    assert a == a[..pos] + [] + a[pos..];
  }

  lemma LE2(v: nat)
    ensures LE(v, 2) == [v % 0x100, (v / 0x100) % 0x100]
  {
    assert LE(v, 2) == [v % 256] + LE(v / 256, 1);
  }

  lemma LE4(v: nat)
    ensures LE(v, 4) == [v % 0x100, (v / 0x100) % 0x100, (v / 0x1_0000) % 0x100, (v / 0x100_0000) % 0x100]
  {
    var v1, v2, v3 := v / 256, v / 256 / 256, v / 256 / 256 / 256;
    assert v2 == v / 0x1_0000;
    assert v3 == v / 0x100_0000;
    assert LE(v, 4) == [v % 256] + LE(v1, 3);
    assert LE(v1, 3) == [v1 % 256] + LE(v2, 2);
    assert LE(v2, 2) == [v2 % 256] + LE(v3, 1);
  }

  /** Four bytes are the low UINT's two bytes, then the high UINT's. */
  lemma LE4Split(v: nat)
    ensures LE(v, 4) == LE(v % 0x1_0000, 2) + LE(v / 0x1_0000, 2)
  {
    var q, r := v / 0x1_0000, v % 0x1_0000;
    var s, t := r / 0x100, r % 0x100;
    DivMod256(v, 0x100 * q + s, t);
    DivMod256(0x100 * q + s, q, s);
    assert LE(v, 4) == [v % 256] + LE(v / 256, 3);
    assert LE(v / 256, 3) == [(v / 256) % 256] + LE(q, 2);
    LE2(r);
  }

  /** Division by 256 of a value given as quotient and remainder. */
  lemma DivMod256(v: nat, q: nat, t: nat)
    requires t < 0x100 && v == 0x100 * q + t
    ensures v / 0x100 == q && v % 0x100 == t
  {
  }

  /** pack_USINT: one byte, pointer advanced by one. */
  method PackUSINT(buf: array<byte>, pos: nat, val: byte) returns (next: nat)
    requires pos + 1 <= buf.Length
    modifies buf
    ensures next == pos + 1
    ensures Wrote(old(buf[..]), buf[..], pos, [val])
  {
    WroteOne(buf[..], pos, val);
    buf[pos] := val;
    next := pos + 1;
  }

  /** Two pack_USINT calls in a row. */
  method PackUSINTPair(buf: array<byte>, pos: nat, first: byte, second: byte) returns (next: nat)
    requires pos + 2 <= buf.Length
    modifies buf
    ensures next == pos + 2
    ensures Wrote(old(buf[..]), buf[..], pos, [first, second])
  {
    ghost var b0 := buf[..];
    var p := PackUSINT(buf, pos, first);
    ghost var b1 := buf[..];
    next := PackUSINT(buf, p, second);
    WroteThen(b0, b1, buf[..], pos, [first], [second]);
    assert [first] + [second] == [first, second];
  }

  /** pack_UINT: low byte first, pointer advanced by two. */
  method PackUINT(buf: array<byte>, pos: nat, val: uint16) returns (next: nat)
    requires pos + 2 <= buf.Length
    modifies buf
    ensures next == pos + 2
    ensures Wrote(old(buf[..]), buf[..], pos, LE(val, 2))
  {
    ghost var b0 := buf[..];
    WroteOne(b0, pos, val % 0x100);
    buf[pos] := val % 0x100;
    ghost var b1 := buf[..];
    WroteOne(b1, pos + 1, (val / 0x100) % 0x100);
    buf[pos + 1] := (val / 0x100) % 0x100;
    WroteThen(b0, b1, buf[..], pos, [val % 0x100], [(val / 0x100) % 0x100]);
    next := pos + 2;
    LE2(val);
  }

  /** pack_UDINT: four bytes, low byte first, pointer advanced by four. */
  method PackUDINT(buf: array<byte>, pos: nat, val: uint32) returns (next: nat)
    requires pos + 4 <= buf.Length
    modifies buf
    ensures next == pos + 4
    ensures Wrote(old(buf[..]), buf[..], pos, LE(val, 4))
  {
    var lo := PackUINT(buf, pos, val % 0x1_0000);
    ghost var b1 := buf[..];
    next := PackUINT(buf, lo, val / 0x1_0000);
    WroteThen(old(buf[..]), b1, buf[..], pos, LE(val % 0x1_0000, 2), LE(val / 0x1_0000, 2));
    LE4Split(val);
  }

  /** A USINT written after a prefix extends the prefix's write. */
  method AppendUSINT(buf: array<byte>, start: nat, pos: nat, val: nat, ghost before: seq<byte>, ghost prefix: seq<byte>)
    returns (next: nat)
    requires pos == start + |prefix| && pos + 1 <= buf.Length
    requires Wrote(before, buf[..], start, prefix)
    modifies buf
    ensures next == pos + 1
    ensures Wrote(before, buf[..], start, prefix + LE(val, 1))
  {
    ghost var mid := buf[..];
    next := PackUSINT(buf, pos, val % 0x100);
    LE1(val);
    WroteAt(before, mid, buf[..], start, pos, prefix, LE(val, 1));
  }

  /** A UINT written after a prefix extends the prefix's write. */
  method AppendUINT(buf: array<byte>, start: nat, pos: nat, val: nat, ghost before: seq<byte>, ghost prefix: seq<byte>)
    returns (next: nat)
    requires pos == start + |prefix| && pos + 2 <= buf.Length
    requires Wrote(before, buf[..], start, prefix)
    modifies buf
    ensures next == pos + 2
    ensures Wrote(before, buf[..], start, prefix + LE(val, 2))
  {
    ghost var mid := buf[..];
    next := PackUINT(buf, pos, val % 0x1_0000);
    assert Pow256(2) == 0x1_0000;
    LEMod(val, 2, 2);
    WroteAt(before, mid, buf[..], start, pos, prefix, LE(val, 2));
  }

  /** A UDINT written after a prefix extends the prefix's write. */
  method AppendUDINT(buf: array<byte>, start: nat, pos: nat, val: nat, ghost before: seq<byte>, ghost prefix: seq<byte>)
    returns (next: nat)
    requires pos == start + |prefix| && pos + 4 <= buf.Length
    requires Wrote(before, buf[..], start, prefix)
    modifies buf
    ensures next == pos + 4
    ensures Wrote(before, buf[..], start, prefix + LE(val, 4))
  {
    ghost var mid := buf[..];
    next := PackUDINT(buf, pos, val % 0x1_0000_0000);
    assert Pow256(4) == 0x1_0000_0000;
    LEMod(val, 4, 4);
    WroteAt(before, mid, buf[..], start, pos, prefix, LE(val, 4));
  }

  /** Bytes written after a prefix extend the prefix's write. */
  method AppendBytes(buf: array<byte>, start: nat, pos: nat, data: seq<byte>, ghost before: seq<byte>, ghost prefix: seq<byte>)
    returns (next: nat)
    requires pos == start + |prefix| && pos + |data| <= buf.Length
    requires Wrote(before, buf[..], start, prefix)
    modifies buf
    ensures next == pos + |data|
    ensures Wrote(before, buf[..], start, prefix + data)
  {
    ghost var mid := buf[..];
    next := CopyBytes(buf, pos, data);
    WroteAt(before, mid, buf[..], start, pos, prefix, data);
  }

  /** memcpy into the buffer: `data` at `pos`, position advanced past it. */
  method CopyBytes(buf: array<byte>, pos: nat, data: seq<byte>) returns (next: nat)
    requires pos + |data| <= buf.Length
    modifies buf
    ensures next == pos + |data|
    ensures Wrote(old(buf[..]), buf[..], pos, data)
  {
    var i := 0;
    WroteNothing(buf[..], pos);
    while i < |data|
      invariant 0 <= i <= |data|
      invariant Wrote(old(buf[..]), buf[..], pos, data[..i])
    {
      ghost var mid := buf[..];
      WroteOne(mid, pos + i, data[i]);
      buf[pos + i] := data[i];
      WroteThen(old(buf[..]), mid, buf[..], pos, data[..i], [data[i]]);
      assert data[..i] + [data[i]] == data[..i + 1];
      i := i + 1;
    }
    assert data[..i] == data;
    next := pos + |data|;
  }

  /** unpack_UINT: two bytes, low byte first; pointer advanced by two. */
  function UnpackUINT(s: seq<byte>, pos: nat): (r: (uint16, nat))
    requires pos + 2 <= |s|
    ensures r.1 == pos + 2
  {
    ((s[pos] as int) + 0x100 * (s[pos + 1] as int), pos + 2)
  }

  /** unpack_UDINT: four bytes, low byte first; pointer advanced by four. */
  function UnpackUDINT(s: seq<byte>, pos: nat): (r: (uint32, nat))
    requires pos + 4 <= |s|
    ensures r.1 == pos + 4
  {
    ((s[pos] as int) + 0x100 * (s[pos + 1] as int) + 0x1_0000 * (s[pos + 2] as int) + 0x100_0000 * (s[pos + 3] as int),
     pos + 4)
  }

  /** unpack_UINT reads the little-endian value of its two bytes. */
  lemma UnpackUINTValue(s: seq<byte>, pos: nat)
    requires pos + 2 <= |s|
    ensures UnpackUINT(s, pos).0 == FromLE(s[pos..pos + 2])
  {
    FromLE2(s[pos..pos + 2]);
  }

  /** unpack_UDINT reads the little-endian value of its four bytes. */
  lemma UnpackUDINTValue(s: seq<byte>, pos: nat)
    requires pos + 4 <= |s|
    ensures UnpackUDINT(s, pos).0 == FromLE(s[pos..pos + 4])
  {
    FromLE4(s[pos..pos + 4]);
  }

  /** Two bytes that are the image of a UINT read back as that UINT. */
  lemma UINTImage(s: seq<byte>, pos: nat, v: uint16)
    requires pos + 2 <= |s| && s[pos..pos + 2] == LE(v, 2)
    ensures UnpackUINT(s, pos).0 == v
  {
    LE2(v);
    assert s[pos] == s[pos..pos + 2][0] && s[pos + 1] == s[pos..pos + 2][1];
  }

  /** Reading back what pack_UINT wrote gives the value and the same advance. */
  lemma UINTRoundTrip(before: seq<byte>, after: seq<byte>, pos: nat, val: uint16)
    requires Wrote(before, after, pos, LE(val, 2))
    ensures UnpackUINT(after, pos) == (val, pos + 2)
  {
    WroteSlice(before, after, pos, LE(val, 2));
    UINTImage(after, pos, val);
  }

  /** Reading back what pack_UDINT wrote gives the value and the same advance. */
  lemma UDINTRoundTrip(before: seq<byte>, after: seq<byte>, pos: nat, val: uint32)
    requires Wrote(before, after, pos, LE(val, 4))
    ensures UnpackUDINT(after, pos) == (val, pos + 4)
  {
    WroteSlice(before, after, pos, LE(val, 4));
    UDINTImage(after, pos, val);
  }

  /** Four bytes that are the image of a UDINT read back as that UDINT. */
  lemma UDINTImage(s: seq<byte>, pos: nat, val: uint32)
    requires pos + 4 <= |s| && s[pos..pos + 4] == LE(val, 4)
    ensures UnpackUDINT(s, pos).0 == val
  {
    LE4Split(val);
    var lo, hi := val % 0x1_0000, val / 0x1_0000;
    assert s[pos..pos + 2] == s[pos..pos + 4][..2];
    assert s[pos + 2..pos + 4] == s[pos..pos + 4][2..];
    UINTImage(s, pos, lo);
    UINTImage(s, pos + 2, hi);
    assert UnpackUDINT(s, pos).0 == UnpackUINT(s, pos).0 + 0x1_0000 * UnpackUINT(s, pos + 2).0;
  }
}

/** An absent-or-present value: the model's rendering of a C pointer that may be null. */
module Options {
  datatype Option<T> = None | Some(value: T)
}
