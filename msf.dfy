/**
 * The in-memory string file of mem_string_file.c: debug text is appended to
 * a ring buffer of fixed size, the oldest text giving way when the buffer
 * is full, and the buffer is dumped to a stream on request.
 *
 * The buffer holds the characters from `head` up to, not including,
 * `tail`, wrapping around its end; the character at `tail` is the NUL that
 * ends the text, so a buffer of n characters holds at most n - 1.
 */
module MemStringFile {

  /** msfInitialBufferSize: 2 MB unless changed before the first text is added. */
  const DEFAULT_SIZE: nat := 2 * 1024 * 1024

  /** msfWrite hands the text to fwrite in bunches of this many characters. */
  const BUNCH: nat := 100

  /** A position one wrap-around past the end of a buffer of n, brought back into it. */
  function Wrap(x: nat, n: nat): nat
  {
    if x >= n then x - n else x
  }

  /** How many characters a ring buffer of n holds between head h and tail t. */
  function Count(h: nat, t: nat, n: nat): nat
    requires h < n && t < n
  {
    if h <= t then t - h else n - h + t
  }

  /** How far position p lies after tail t, going round a buffer of n. */
  function Offset(p: nat, t: nat, n: nat): nat
    requires p < n && t < n
  {
    if p >= t then p - t else p + n - t
  }

  /** The text of a ring buffer b between head h and tail t. */
  function Ring(b: seq<char>, h: nat, t: nat): seq<char>
    requires h < |b| && t < |b|
  {
    if h <= t then b[h..t] else b[h..] + b[..t]
  }

  /** Character i of the text sits at position h + i, wrapped. */
  lemma RingAt(b: seq<char>, h: nat, t: nat)
    requires h < |b| && t < |b|
    ensures |Ring(b, h, t)| == Count(h, t, |b|)
    ensures forall i | 0 <= i < |Ring(b, h, t)| :: Ring(b, h, t)[i] == b[Wrap(h + i, |b|)]
  {
  }

  /** The last m characters of s, or all of s when it is no longer. */
  function KeepLast(s: seq<char>, m: nat): (r: seq<char>)
    ensures |r| == if |s| <= m then |s| else m
  {
    if |s| <= m then s else s[|s| - m..]
  }

  /** KeepLast(s, m) is the suffix of s of its length. */
  lemma KeepLastSuffix(s: seq<char>, m: nat)
    ensures s == s[..|s| - |KeepLast(s, m)|] + KeepLast(s, m)
  {
  }

  /**
   * Keeping the last m characters after each piece of text keeps the same
   * text as keeping them once after all of it: what the buffer holds does
   * not depend on how the text was split into calls.
   */
  lemma KeepLastTwice(a: seq<char>, b: seq<char>, m: nat)
    ensures KeepLast(KeepLast(a, m) + b, m) == KeepLast(a + b, m)
  {
    if |a| > m {
      var k := KeepLast(a, m);
      assert a + b == a[..|a| - m] + (k + b);
      var r := KeepLast(k + b, m);
      forall i | 0 <= i < |r|
        ensures r[i] == KeepLast(a + b, m)[i]
      {
        var x := |k + b| - |r| + i;
        assert (a + b)[|a| - m + x] == (k + b)[x];
      }
    }
  }

  /**
   * The new head and tail of msfAdd after `len` characters were copied in
   * at the tail: the tail moves on by len; when the text overran the head,
   * the head moves to just behind the new tail.
   */
  method Advance(head: nat, tail: nat, n: nat, len: nat) returns (h2: nat, t2: nat)
    requires head < n && tail < n && len < n
    ensures t2 == Wrap(tail + len, n)
    ensures h2 == if Count(head, tail, n) + len >= n then Wrap(t2 + 1, n) else head
  {
    var h: int, t: int := head, tail;
    if h <= t {
      t := t + len;
      if t >= n {
        t := t - n;
        if t >= h {
          h := t + 1;
          if h >= n {
            h := h - n;
          }
        }
      }
    } else {
      if t + len < h {
        t := t + len;
      } else {
        t := t + len;
        if t >= n {
          t := t - n;
        }
        h := t + 1;
        if h >= n {
          h := h - n;
        }
      }
    }
    h2, t2 := h, t;
  }

  /** Character k of the text went to position tail + k, wrapped. */
  predicate CopiedAt(b: seq<char>, tail: nat, text: string, k: nat)
    requires tail < |b| && k < |text| <= |b|
  {
    b[Wrap(tail + k, |b|)] == text[k]
  }

  /** Position p kept its character. */
  predicate KeptAt(b0: seq<char>, b1: seq<char>, p: nat)
    requires p < |b0| && p < |b1|
  {
    b1[p] == b0[p]
  }

  /** The copy of msfAdd: the text goes in at the tail, the part that runs past the end at the start. */
  method CopyIn(buf: array<char>, tail: nat, text: string)
    requires tail < buf.Length && |text| < buf.Length
    modifies buf
    ensures forall k | 0 <= k < |text| :: CopiedAt(buf[..], tail, text, k)
    ensures forall p | 0 <= p < buf.Length && Offset(p, tail, buf.Length) >= |text| :: KeptAt(old(buf[..]), buf[..], p)
  {
    if tail + |text| < buf.Length {
      forall k | 0 <= k < |text| {
        buf[tail + k] := text[k];
      }
    } else {
      var l1 := buf.Length - tail;
      forall k | 0 <= k < l1 {
        buf[tail + k] := text[k];
      }
      var l2 := |text| - l1;
      if l2 > 0 {
        forall k | 0 <= k < l2 {
          buf[k] := text[l1 + k];
        }
      }
    }
  }

  /** Wrap is the remainder of a position that went round at most once. */
  lemma WrapMod(x: nat, n: nat)
    requires x < 2 * n
    ensures Wrap(x, n) == x % n
  {
    if x >= n {
      assert x == (x - n) + n;
    }
  }

  /** A position up to two wrap-arounds past the end of a buffer of n, brought back into it. */
  function Wrap2(x: nat, n: nat): nat
  {
    if x >= 2 * n then x - 2 * n else Wrap(x, n)
  }

  /**
   * Where the pointers of msfAdd leave the text: the new head is d
   * characters on from the old one, d being what was dropped, and the new
   * text is the old one and the new characters, less those d.
   */
  lemma AddGeometry(h: nat, t: nat, n: nat, len: nat, h2: nat, t2: nat)
    requires h < n && t < n && len < n
    requires t2 == Wrap(t + len, n)
    requires h2 == if Count(h, t, n) + len >= n then Wrap(t2 + 1, n) else h
    ensures var c := Count(h, t, n); var d := if c + len >= n then c + len - (n - 1) else 0;
      && t2 < n && h2 < n && t == Wrap(h + c, n) && d <= c + len && h + d < 2 * n
      && h2 == Wrap(h + d, n) && Count(h2, t2, n) == c + len - d
  {
  }

  /** Character j of the old text and the new characters: the position it was written at. */
  lemma AddPosition(b0: seq<char>, b1: seq<char>, h: nat, t: nat, text: string, j: nat)
    requires |b0| == |b1| && h < |b0| && t < |b0| && |text| < |b0|
    requires forall k | 0 <= k < |text| :: CopiedAt(b1, t, text, k)
    requires forall p | 0 <= p < |b0| && Offset(p, t, |b0|) >= |text| :: KeptAt(b0, b1, p)
    requires var n, c := |b0|, Count(h, t, |b0|);
      t == Wrap(h + c, n) && j < c + |text| && c + |text| - j <= n - 1
    ensures var s := Ring(b0, h, t) + text; j < |s| && b1[Wrap2(h + j, |b0|)] == s[j]
  {
    var n, c := |b0|, Count(h, t, |b0|);
    RingAt(b0, h, t);
    if j < c {
      var p := Wrap(h + j, n);
      assert Wrap2(h + j, n) == p;
      assert Offset(p, t, n) == n + j - c;
      assert KeptAt(b0, b1, p);
    } else {
      assert Wrap2(h + j, n) == Wrap(t + (j - c), n);
      assert CopiedAt(b1, t, text, j - c);
    }
  }

  /** The NUL at the tail is not part of the text. */
  lemma RingIgnoresTail(b: seq<char>, h: nat, t: nat, x: char)
    requires h < |b| && t < |b|
    ensures Ring(b[t := x], h, t) == Ring(b, h, t)
  {
    RingAt(b, h, t);
    RingAt(b[t := x], h, t);
  }

  /**
   * msfAdd on buffer contents: with the text copied in at the old tail and
   * the NUL put at the new one, the buffer holds the last n - 1 characters
   * of the old text followed by the new.
   */
  lemma AddKeepsLast(b0: seq<char>, b1: seq<char>, h: nat, t: nat, text: string, h2: nat, t2: nat)
    requires |b0| == |b1| && h < |b0| && t < |b0| && |text| < |b0|
    requires forall k | 0 <= k < |text| :: CopiedAt(b1, t, text, k)
    requires forall p | 0 <= p < |b0| && Offset(p, t, |b0|) >= |text| :: KeptAt(b0, b1, p)
    requires t2 == Wrap(t + |text|, |b0|)
    requires h2 == if Count(h, t, |b0|) + |text| >= |b0| then Wrap(t2 + 1, |b0|) else h
    ensures h2 < |b1| && t2 < |b1|
    ensures Ring(b1[t2 := '\0'], h2, t2) == KeepLast(Ring(b0, h, t) + text, |b0| - 1)
  {
    var n, c, len := |b0|, Count(h, t, |b0|), |text|;
    AddGeometry(h, t, n, len, h2, t2);
    RingIgnoresTail(b1, h2, t2, '\0');
    var d := if c + len >= n then c + len - (n - 1) else 0;
    var s := Ring(b0, h, t) + text;
    RingAt(b0, h, t);
    assert |s| == c + len;
    forall j | d <= j < |s|
      ensures b1[Wrap2(h + j, n)] == s[j]
    {
      AddPosition(b0, b1, h, t, text, j);
    }
    RingSuffix(b1, h, h2, t2, s, d);
    assert KeepLast(s, n - 1) == s[d..];
  }

  /**
   * A ring whose head is d on from h, and whose positions from there hold
   * the characters of s from d on, holds s without its first d.
   */
  lemma RingSuffix(b: seq<char>, h: nat, h2: nat, t2: nat, s: seq<char>, d: nat)
    requires h < |b| && h2 < |b| && t2 < |b| && h + d < 2 * |b| && h2 == Wrap(h + d, |b|)
    requires d <= |s| && Count(h2, t2, |b|) == |s| - d
    requires forall j | d <= j < |s| :: b[Wrap2(h + j, |b|)] == s[j]
    ensures Ring(b, h2, t2) == s[d..]
  {
    var n := |b|;
    RingAt(b, h2, t2);
    var r := Ring(b, h2, t2);
    forall i | 0 <= i < |r|
      ensures r[i] == s[d..][i]
    {
      WrapShift(h, d, i, n);
      assert b[Wrap2(h + (d + i), n)] == s[d + i];
    }
  }

  /** Character i of KeepLast(s, m) is character i of the suffix it keeps. */
  lemma KeepLastAt(s: seq<char>, m: nat)
    ensures forall i | 0 <= i < |KeepLast(s, m)| :: KeepLast(s, m)[i] == s[|s| - |KeepLast(s, m)| + i]
  {
  }

  /** Going i on from a head that is d on from h lands where h + d + i wraps to. */
  lemma WrapShift(h: nat, d: nat, i: nat, n: nat)
    requires h < n && h + d < 2 * n && i < n
    ensures Wrap(Wrap(h + d, n) + i, n) == Wrap2(h + d + i, n)
  {
  }

  /** msfWrite: the text from `from` on, `length` characters, goes to the stream in bunches. */
  method Write(out: seq<char>, text: seq<char>, from: nat, length: nat) returns (out2: seq<char>)
    requires from + length <= |text|
    ensures out2 == out + text[from..from + length]
  {
    out2 := out;
    var pos: nat, left: nat := from, length;
    while left >= BUNCH
      invariant from <= pos && pos + left == from + length
      invariant out2 == out + text[from..pos]
    {
      assert text[from..pos + BUNCH] == text[from..pos] + text[pos..pos + BUNCH];
      out2 := out2 + text[pos..pos + BUNCH];
      pos, left := pos + BUNCH, left - BUNCH;
    }
    if left > 0 {
      assert text[from..pos + left] == text[from..pos] + text[pos..pos + left];
      out2 := out2 + text[pos..pos + left];
    }
  }

  /** The writes of msfDump: the text between head and tail, and a newline when there is any. */
  method DumpText(out: seq<char>, b: seq<char>, head: nat, tail: nat) returns (out2: seq<char>)
    requires head < |b| && tail < |b|
    ensures out2 == out + if Ring(b, head, tail) == [] then [] else Ring(b, head, tail) + "\n"
  {
    out2 := out;
    ghost var text := Ring(b, head, tail);
    assert "\n"[0..1] == "\n";
    if head < tail {
      out2 := Write(out2, b, head, tail - head);
      assert out2 == out + text;
      out2 := Write(out2, "\n", 0, 1);
      assert out2 == (out + text) + "\n";
    } else if head > tail {
      out2 := Write(out2, b, head, |b| - head);
      out2 := Write(out2, b, 0, tail);
      assert b[head..|b|] == b[head..] && b[0..tail] == b[..tail];
      assert out2 == (out + b[head..]) + b[..tail] == out + text;
      out2 := Write(out2, "\n", 0, 1);
      assert out2 == (out + text) + "\n";
    }
  }

  /**
   * The body of msfAdd on the buffer: the text is copied in at the tail,
   * the tail moves past it (the head past an overrun), and a NUL ends the
   * text. The ring from the new head to the new tail holds the last n - 1
   * characters of the old ring followed by the text.
   */
  method Store(buf: array<char>, head: nat, tail: nat, text: string) returns (h2: nat, t2: nat)
    requires head < buf.Length && tail < buf.Length && |text| < buf.Length
    modifies buf
    ensures h2 < buf.Length && t2 < buf.Length
    ensures t2 == (tail + |text|) % buf.Length && buf[t2] == '\0'
    ensures Ring(buf[..], h2, t2) == KeepLast(Ring(old(buf[..]), head, tail) + text, buf.Length - 1)
  {
    ghost var b0 := buf[..];
    CopyIn(buf, tail, text);
    ghost var b1 := buf[..];
    h2, t2 := Advance(head, tail, buf.Length, |text|);
    WrapMod(tail + |text|, buf.Length);
    buf[t2] := '\0';
    assert buf[..] == b1[t2 := '\0'];
    AddKeepsLast(b0, b1, head, tail, text, h2, t2);
  }

  /** The buffer and its pointers; there is no buffer before the first text is added. */
  class StringFile {
    var initialSize: nat
    var buffer: array?<char>
    var head: nat
    var tail: nat

    ghost predicate Valid()
      reads this
    {
      initialSize > 0
      && (buffer == null ==> head == 0 && tail == 0)
      && (buffer != null ==> head < buffer.Length && tail < buffer.Length)
    }

    /** The text the buffer holds. */
    ghost function Text(): string
      reads this, buffer
      requires Valid()
    {
      if buffer == null then [] else Ring(buffer[..], head, tail)
    }

    /** How many characters the buffer has room for, or will have once allocated. */
    function Size(): nat
      reads this, buffer
    {
      if buffer == null then initialSize else buffer.Length
    }

    /** The state before anything is added: no buffer, the given initial size. */
    constructor (initialSize: nat)
      requires initialSize > 0
      ensures Valid() && buffer == null && this.initialSize == initialSize && Text() == []
    {
      this.initialSize := initialSize;
      buffer := null;
      head, tail := 0, 0;
    }

    /** msfInit: allocate the buffer once, empty. */
    method Init()
      requires Valid()
      modifies this
      ensures Valid() && buffer != null && initialSize == old(initialSize)
      ensures old(buffer) != null ==> buffer == old(buffer) && head == old(head) && tail == old(tail)
      ensures old(buffer) == null ==> fresh(buffer) && buffer.Length == initialSize && head == 0 && tail == 0
      ensures Text() == old(Text())
    {
      if buffer != null {
        return;
      }
      buffer := new char[initialSize];
      head, tail := 0, 0;
    }

    /**
     * msfAdd: the text is appended; when the buffer is full, the oldest
     * characters give way, so that it holds the last Size() - 1.
     */
    method Add(text: string)
      requires Valid() && |text| < Size()
      modifies this, buffer
      ensures Valid() && buffer != null && initialSize == old(initialSize)
      ensures old(buffer) != null ==> buffer == old(buffer)
      ensures old(buffer) == null ==> fresh(buffer) && buffer.Length == initialSize
      ensures Text() == KeepLast(old(Text()) + text, buffer.Length - 1)
      ensures tail == (old(tail) + |text|) % buffer.Length && buffer[tail] == '\0'
    {
      Init();
      assert tail == old(tail) && Ring(buffer[..], head, tail) == old(Text());
      head, tail := Store(buffer, head, tail, text);
    }

    /** msfClear: the buffer is emptied. */
    method Clear()
      requires Valid()
      modifies this
      ensures Valid() && buffer == old(buffer) && initialSize == old(initialSize) && Text() == []
    {
      head := tail;
    }

    /**
     * msfDump: the text, followed by a newline when there is any, goes to
     * the stream, and the buffer is emptied.
     */
    method Dump(out: seq<char>) returns (out2: seq<char>)
      requires Valid()
      modifies this
      ensures Valid() && buffer == old(buffer) && initialSize == old(initialSize) && Text() == []
      ensures out2 == out + if old(Text()) == [] then [] else old(Text()) + "\n"
    {
      out2 := out;
      if buffer != null {
        out2 := DumpText(out, buffer[..], head, tail);
      }
      head := tail;
    }
  }
}
