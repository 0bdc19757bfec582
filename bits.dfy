/**
 * Binary records over packed BOOL arrays (devEtherIP.c): get_bits and
 * put_bits read and write `bits` consecutive bits of a tag's data, starting
 * at bit `shift` of element `element`, where every element is handled as a
 * 32-bit word and the bit run moves on to the next element when it leaves
 * bit 31.
 *
 * Numbers are `nat`s; a C test `value & mask` with the single-bit mask
 * `1 << q` is Bit(value, q), and `value |= mask` / `value &= ~mask` are
 * SetBit(value, q, true / false).
 */
module BitArray {
  import opened Bytes
  import opened Cip

  // ---------------------------------------------------------------
  // Bits of a number
  // ---------------------------------------------------------------

  /** Bit q of w. */
  predicate Bit(w: nat, q: nat)
  {
    if q == 0 then w % 2 == 1 else Bit(w / 2, q - 1)
  }

  /** w with bit q set (b) or cleared (!b). */
  function SetBit(w: nat, q: nat, b: bool): nat
  {
    if q == 0 then (w / 2) * 2 + (if b then 1 else 0) else SetBit(w / 2, q - 1, b) * 2 + w % 2
  }

  /** w shifted right by k bits. */
  function Shr(w: nat, k: nat): nat
  {
    if k == 0 then w else Shr(w / 2, k - 1)
  }

  /** Setting bit q changes bit q and no other. */
  lemma {:induction false} SetBitBits(w: nat, q: nat, b: bool, p: nat)
    ensures Bit(SetBit(w, q, b), p) == if p == q then b else Bit(w, p)
  {
    if q > 0 && p > 0 {
      SetBitBits(w / 2, q - 1, b, p - 1);
    }
  }

  /** Setting a bit below n keeps a number below 2^n. */
  lemma {:induction false} SetBitBound(w: nat, q: nat, b: bool, n: nat)
    requires w < Pow2(n) && q < n
    ensures SetBit(w, q, b) < Pow2(n)
  {
    var h := w / 2;
    assert Pow2(n) == 2 * Pow2(n - 1);
    assert w == 2 * h + w % 2;
    assert h < Pow2(n - 1);
    if q > 0 {
      SetBitBound(h, q - 1, b, n - 1);
    }
  }

  /** Bit k of w is bit 0 of w shifted right by k. */
  lemma {:induction false} ShrBit(w: nat, k: nat)
    ensures Bit(Shr(w, k), 0) == Bit(w, k)
  {
    if k > 0 {
      ShrBit(w / 2, k - 1);
    }
  }

  /** One more shift halves. */
  lemma {:induction false} ShrStep(w: nat, k: nat)
    ensures Shr(w, k + 1) == Shr(w, k) / 2
  {
    if k > 0 {
      ShrStep(w / 2, k - 1);
    }
  }

  /** No bit of 0 is set. */
  lemma {:induction false} BitZero(q: nat)
    ensures !Bit(0, q)
  {
    if q > 0 {
      BitZero(q - 1);
    }
  }

  /** The bits of x + 2^k y: those of x below k, those of y from k on. */
  lemma {:induction false} BitSplit(x: nat, y: nat, k: nat, q: nat)
    requires x < Pow2(k)
    ensures Bit(x + Pow2(k) * y, q) == if q < k then Bit(x, q) else Bit(y, q - k)
  {
    if k > 0 {
      var z := Pow2(k - 1) * y;
      assert Pow2(k) * y == 2 * z;
      assert (x + 2 * z) / 2 == x / 2 + z;
      assert (x + 2 * z) % 2 == x % 2;
      if q > 0 {
        BitSplit(x / 2, y, k - 1, q - 1);
      }
    }
  }

  /** Reducing modulo 2^k keeps the bits below k. */
  lemma BitMod(w: nat, k: nat, q: nat)
    requires q < k
    ensures Bit(w % Pow2(k), q) == Bit(w, q)
  {
    var p := Pow2(k);
    DivMod(w, p);
    BitSplit(w % p, w / p, k, q);
  }

  lemma DivMod(w: nat, p: nat)
    requires p >= 1
    ensures w == w % p + p * (w / p) && w % p < p && w / p >= 0
  {
    MulAway(p, w / p);
  }

  /** A number below 2^k has no bit at k or above. */
  lemma BitAbove(w: nat, k: nat, q: nat)
    requires w < Pow2(k) <= Pow2(q)
    ensures !Bit(w, q)
  {
    PowMono(k, q);
    BitSplit(w, 0, k, q);
    BitZero(q - k);
  }

  lemma {:induction false} PowMono(k: nat, q: nat)
    requires Pow2(k) <= Pow2(q)
    ensures k <= q
  {
    if k > q {
      PowGrows(q, k);
    }
  }

  lemma {:induction false} PowGrows(a: nat, b: nat)
    requires a < b
    ensures Pow2(a) < Pow2(b)
  {
    if a < b - 1 {
      PowGrows(a, b - 1);
    }
  }

  /** Adding bit i on top of a number below 2^i. */
  lemma AddBit(w: nat, i: nat, b: bool, q: nat)
    requires w < Pow2(i)
    ensures Bit(w + (if b then Pow2(i) else 0), q) == if q < i then Bit(w, q) else q == i && b
  {
    var y := if b then 1 else 0;
    assert w + (if b then Pow2(i) else 0) == w + Pow2(i) * y;
    BitSplit(w, y, i, q);
    if q > i {
      BitZero(q - i - 1);
    }
  }

  /** Two numbers below 2^n with the same n bits are equal. */
  lemma {:induction false} BitsDetermine(a: nat, b: nat, n: nat)
    requires a < Pow2(n) && b < Pow2(n)
    requires forall q | 0 <= q < n :: Bit(a, q) == Bit(b, q)
    ensures a == b
  {
    if n > 0 {
      assert Bit(a, 0) == Bit(b, 0);
      forall q | 0 <= q < n - 1
        ensures Bit(a / 2, q) == Bit(b / 2, q)
      {
        assert Bit(a, q + 1) == Bit(b, q + 1);
      }
      BitsDetermine(a / 2, b / 2, n - 1);
    }
  }

  /** A number of n bytes has 8 n bits. */
  lemma {:induction false} BytesAreBits(n: nat)
    ensures Pow256(n) == Pow2(8 * n)
  {
    if n > 0 {
      BytesAreBits(n - 1);
      assert Pow2(8 * n) == 256 * Pow2(8 * (n - 1)) by {
        var m := 8 * (n - 1);
        assert Pow2(m + 8) == 2 * Pow2(m + 7) == 4 * Pow2(m + 6) == 8 * Pow2(m + 5) == 16 * Pow2(m + 4);
        assert Pow2(m + 4) == 2 * Pow2(m + 3) == 4 * Pow2(m + 2) == 8 * Pow2(m + 1) == 16 * Pow2(m);
      }
    }
  }

  // ---------------------------------------------------------------
  // Runs of bits in a tag's data
  // ---------------------------------------------------------------

  /** Data of a plain integer type; REAL data, whose words are float conversions, is not handled here. */
  predicate IntegerData(data: seq<byte>)
  {
    |data| >= 2 && IsIntegerType(DataType(data))
  }

  /** Element e as get_CIP_UDINT reads it from integer data: its bytes, little-endian. */
  function Word(data: seq<byte>, e: nat): nat
    requires IntegerData(data) && HoldsElement(data, e)
  {
    FromLE(ElementBytes(data, e))
  }

  /** At least one bit: get_bits and put_bits handle the first bit before their loop looks at `bits`. */
  function AtLeastOne(bits: nat): nat
  {
    if bits == 0 then 1 else bits
  }

  /** The element that holds bit i of a run that starts at bit `shift` of `element`. */
  function ElementOf(element: nat, shift: nat, i: nat): nat
  {
    element + (shift + i) / 32
  }

  /** The data holds every element a run of n >= 1 bits reaches. */
  predicate HoldsRun(data: seq<byte>, element: nat, shift: nat, n: nat)
  {
    n >= 1 && HoldsElement(data, ElementOf(element, shift, n - 1))
  }

  /** The next bit of a run: the next bit of the same element, or bit 0 of the next element after bit 31. */
  lemma NextBit(element: nat, shift: nat, i: nat)
    ensures (shift + i) % 32 == 31 ==>
      ElementOf(element, shift, i + 1) == ElementOf(element, shift, i) + 1 && (shift + i + 1) % 32 == 0
    ensures (shift + i) % 32 != 31 ==>
      ElementOf(element, shift, i + 1) == ElementOf(element, shift, i) && (shift + i + 1) % 32 == (shift + i) % 32 + 1
  {
  }

  /**
   * The step of get_bits from bit i - 1 of a run to bit i: the next bit of
   * the same element, or bit 0 of the next element (read afresh) after bit 31.
   */
  method NextRunBit(data: seq<byte>, ghost element: nat, ghost shift: nat, ghost n: nat, ghost pos: nat, e: nat, bit: nat, value: nat)
    returns (e2: nat, bit2: nat, value2: nat)
    requires IntegerData(data) && HoldsRun(data, element, shift, n) && pos + 1 < n
    requires e == ElementOf(element, shift, pos) && bit == (shift + pos) % 32
    requires HoldsElement(data, e) && value == Word(data, e)
    ensures e2 == ElementOf(element, shift, pos + 1) && bit2 == (shift + (pos + 1)) % 32
    ensures HoldsElement(data, e2) && value2 == Word(data, e2)
  {
    HoldsBitOfRun(data, element, shift, n, pos + 1);
    NextBit(element, shift, pos);
    e2, bit2, value2 := e, bit + 1, value;
    if bit2 == 32 {
      // the type is the one the first read accepted, so this read succeeds too
      e2, bit2 := e + 1, 0;
      var r := GetUDINT(data, e2);
      value2 := r.v;
    }
  }

  /** BitsValue gains bit i of the run, bit `bit` of element e, as its bit i. */
  lemma RunValueStep(data: seq<byte>, element: nat, shift: nat, i: nat, e: nat, bit: nat, value: nat)
    requires IntegerData(data) && e == ElementOf(element, shift, i) && bit == (shift + i) % 32
    requires HoldsElement(data, e) && value == Word(data, e)
    ensures HoldsRun(data, element, shift, i + 1)
    ensures i == 0 || HoldsRun(data, element, shift, i)
    ensures BitsValue(data, element, shift, i + 1)
      == BitsValue(data, element, shift, i) + if Bit(value, bit) then Pow2(i) else 0
  {
    BitsValueNext(data, element, shift, i);
    assert ArrayBit(data, element, shift, i) == Bit(value, bit);
  }

  /** One more bit of the run adds its value at position i. */
  lemma BitsValueNext(data: seq<byte>, element: nat, shift: nat, i: nat)
    requires IntegerData(data) && HoldsElement(data, ElementOf(element, shift, i))
    ensures i == 0 || HoldsRun(data, element, shift, i)
    ensures BitsValue(data, element, shift, i + 1)
      == BitsValue(data, element, shift, i) + if ArrayBit(data, element, shift, i) then Pow2(i) else 0
  {
    if i > 0 {
      HoldsBitOfRun(data, element, shift, i + 1, i - 1);
    }
  }

  /** A buffer that holds an element holds the ones before it. */
  lemma HoldsEarlier(data: seq<byte>, a: nat, b: nat)
    requires a <= b && HoldsElement(data, b)
    ensures HoldsElement(data, a)
  {
    if a < b {
      Later(a, b, TypeSize(DataType(data)));
    }
  }

  /** A buffer that holds a run holds each of its bits' elements. */
  lemma HoldsBitOfRun(data: seq<byte>, element: nat, shift: nat, n: nat, i: nat)
    requires HoldsRun(data, element, shift, n) && i < n
    ensures HoldsElement(data, ElementOf(element, shift, i))
  {
    HoldsEarlier(data, ElementOf(element, shift, i), ElementOf(element, shift, n - 1));
  }

  /** Bit i of the run: bit (shift + i) mod 32 of its element. */
  predicate ArrayBit(data: seq<byte>, element: nat, shift: nat, i: nat)
    requires IntegerData(data) && HoldsElement(data, ElementOf(element, shift, i))
  {
    Bit(Word(data, ElementOf(element, shift, i)), (shift + i) % 32)
  }

  /** The number whose bit i is bit i of the run, for the first n bits. */
  function BitsValue(data: seq<byte>, element: nat, shift: nat, n: nat): nat
    requires IntegerData(data) && (n == 0 || HoldsRun(data, element, shift, n))
  {
    if n == 0 then 0
    else
      HoldsBitOfRun(data, element, shift, n, n - 1);
      assert n - 1 == 0 || HoldsRun(data, element, shift, n - 1) by {
        if n > 1 {
          HoldsBitOfRun(data, element, shift, n, n - 2);
        }
      }
      BitsValue(data, element, shift, n - 1) + if ArrayBit(data, element, shift, n - 1) then Pow2(n - 1) else 0
  }

  /** BitsValue is below 2^n. */
  lemma {:induction false} BitsValueBound(data: seq<byte>, element: nat, shift: nat, n: nat)
    requires IntegerData(data) && (n == 0 || HoldsRun(data, element, shift, n))
    ensures BitsValue(data, element, shift, n) < Pow2(n)
  {
    if n > 0 {
      HoldsBitOfRun(data, element, shift, n, n - 1);
      if n > 1 {
        HoldsBitOfRun(data, element, shift, n, n - 2);
      }
      BitsValueBound(data, element, shift, n - 1);
    }
  }

  /** Bit i of BitsValue is bit i of the run. */
  lemma {:induction false} BitsValueBit(data: seq<byte>, element: nat, shift: nat, n: nat, i: nat)
    requires IntegerData(data) && HoldsRun(data, element, shift, n) && i < n
    ensures HoldsElement(data, ElementOf(element, shift, i))
    ensures Bit(BitsValue(data, element, shift, n), i) == ArrayBit(data, element, shift, i)
  {
    HoldsBitOfRun(data, element, shift, n, i);
    HoldsBitOfRun(data, element, shift, n, n - 1);
    if n > 1 {
      HoldsBitOfRun(data, element, shift, n, n - 2);
    }
    BitsValueBound(data, element, shift, n - 1);
    var w := BitsValue(data, element, shift, n - 1);
    var b := ArrayBit(data, element, shift, n - 1);
    assert BitsValue(data, element, shift, n) == w + if b then Pow2(n - 1) else 0;
    AddBit(w, n - 1, b, i);
    if i < n - 1 {
      BitsValueBit(data, element, shift, n - 1, i);
    }
  }

  /** BitsValue is below 2^n and its bits are the run's bits. */
  lemma BitsValueBits(data: seq<byte>, element: nat, shift: nat, n: nat)
    requires IntegerData(data) && (n == 0 || HoldsRun(data, element, shift, n))
    ensures BitsValue(data, element, shift, n) < Pow2(n)
    ensures forall i | 0 <= i < n ::
      && HoldsElement(data, ElementOf(element, shift, i))
      && Bit(BitsValue(data, element, shift, n), i) == ArrayBit(data, element, shift, i)
  {
    BitsValueBound(data, element, shift, n);
    forall i | 0 <= i < n
      ensures HoldsElement(data, ElementOf(element, shift, i))
      ensures Bit(BitsValue(data, element, shift, n), i) == ArrayBit(data, element, shift, i)
    {
      BitsValueBit(data, element, shift, n, i);
    }
  }

  /**
   * get_bits: bit i of the result is bit i of the run, for the record's
   * `bits` bits (at least the first one); false, with no bits, when the
   * data's type is unknown.
   */
  method GetBits(data: seq<byte>, element: nat, shift: nat, bits: nat) returns (ok: bool, rval: nat)
    requires shift < 32 && HoldsRun(data, element, shift, AtLeastOne(bits)) && DataType(data) != T_REAL
    ensures ok <==> IsIntegerType(DataType(data))
    ensures ok ==> rval == BitsValue(data, element, shift, AtLeastOne(bits))
    ensures !ok ==> rval == 0
  {
    rval := 0;
    var e := element;
    HoldsBitOfRun(data, element, shift, AtLeastOne(bits), 0);
    var r := GetUDINT(data, e);
    if r.UnknownType? {
      return false, 0;
    }
    var value := r.v;
    var bit := shift;
    RunValueStep(data, element, shift, 0, e, bit, value);
    if Bit(value, bit) {
      rval := 1;
    }
    rval := GetRun(data, element, shift, bits, e, bit, value, rval);
    ok := true;
  }

  /**
   * The loop of get_bits, from run bit 1 on, with `value` holding element
   * e0 and rval0 the value of run bit 0.
   */
  method GetRun(data: seq<byte>, ghost element: nat, ghost shift: nat, bits: nat, e0: nat, bit0: nat, value0: nat, rval0: nat)
    returns (rval: nat)
    requires IntegerData(data) && HoldsRun(data, element, shift, AtLeastOne(bits))
    requires e0 == ElementOf(element, shift, 0) && bit0 == shift % 32
    requires HoldsElement(data, e0) && value0 == Word(data, e0)
    requires rval0 == BitsValue(data, element, shift, 1)
    ensures rval == BitsValue(data, element, shift, AtLeastOne(bits))
  {
    var e, bit, value := e0, bit0, value0;
    rval := rval0;
    var i := 1;
    ghost var pos := 0;
    while i < bits
      invariant 1 <= i <= AtLeastOne(bits) && i == pos + 1
      invariant e == ElementOf(element, shift, pos) && bit == (shift + pos) % 32
      invariant HoldsElement(data, e) && value == Word(data, e)
      invariant rval == BitsValue(data, element, shift, pos + 1)
    {
      e, bit, value := NextRunBit(data, element, shift, AtLeastOne(bits), pos, e, bit, value);
      RunValueStep(data, element, shift, pos + 1, e, bit, value);
      if Bit(value, bit) {
        // bit i of rval is still clear, so setting it adds 2^i
        rval := rval + Pow2(i);
      }
      pos := pos + 1;
      i := i + 1;
    }
    assert pos + 1 == AtLeastOne(bits);
  }

  // ---------------------------------------------------------------
  // put_bits
  // ---------------------------------------------------------------

  /** Bits of the element's word that the data keeps: 8 per byte of the type. */
  function KeptBits(data: seq<byte>): nat
    requires |data| >= 2
  {
    8 * TypeSize(DataType(data))
  }

  /** A word read from integer data has no bit from KeptBits on. */
  lemma WordBound(data: seq<byte>, o: nat)
    requires IntegerData(data) && HoldsElement(data, o)
    ensures Word(data, o) < Pow2(KeptBits(data)) <= 0x1_0000_0000
  {
    var size := TypeSize(DataType(data));
    FromLEBound(ElementBytes(data, o));
    BytesAreBits(size);
    Pow2Of32();
    if size < 4 {
      PowGrows(8 * size, 32);
    }
  }

  lemma Pow2Of32()
    ensures Pow2(32) == 0x1_0000_0000
  {
    BytesAreBits(4);
  }

  /**
   * What put_bits leaves in bit q of element o, when `n` bits of rval go to
   * the run at bit `shift` of `element`: bit p of rval if that bit of the
   * element is run bit p, its old bit otherwise.
   */
  ghost predicate Target(before: seq<byte>, element: nat, shift: nat, n: nat, rval: nat, o: nat, q: nat)
    requires IntegerData(before) && HoldsElement(before, o)
  {
    var p := (o - element) * 32 + q - shift;
    if element <= o && 0 <= p < n then Bit(rval, p) else Bit(Word(before, o), q)
  }

  /** Element o of `after` holds its target in every bit the data keeps. */
  ghost predicate Settled(after: seq<byte>, before: seq<byte>, element: nat, shift: nat, n: nat, rval: nat, o: nat)
    requires IntegerData(before) && HoldsElement(before, o)
  {
    && IntegerData(after) && HoldsElement(after, o)
    && forall q | 0 <= q < KeptBits(before) :: Bit(Word(after, o), q) == Target(before, element, shift, n, rval, o, q)
  }

  /** `after` has the bytes of `before` outside [lo, hi). */
  ghost predicate SameOutside(after: seq<byte>, before: seq<byte>, lo: nat, hi: nat)
  {
    |after| == |before| && forall k | 0 <= k < |before| && (k < lo || hi <= k) :: after[k] == before[k]
  }

  /** Two writes side by side: [lo, mid), then [mid, hi). */
  lemma SameOutsideJoin(a: seq<byte>, b: seq<byte>, c: seq<byte>, lo: nat, mid: nat, hi: nat)
    requires lo <= mid <= hi && SameOutside(b, a, lo, mid) && SameOutside(c, b, mid, hi)
    ensures SameOutside(c, a, lo, hi)
  {
  }

  /** Every element starts behind the type code. */
  lemma PastHeader(data: seq<byte>, e: nat)
    requires |data| >= 2
    ensures ElementOffset(data, e) >= 2
  {
    var size := TypeSize(DataType(data));
    if size > 0 && e >= 1 {
      MulAway(size, e);
    }
  }

  /** Later elements start further on. */
  lemma OffsetMono(data: seq<byte>, a: nat, b: nat)
    requires |data| >= 2 && a <= b
    ensures ElementOffset(data, a) <= ElementOffset(data, b)
  {
    if a < b {
      Later(a, b, TypeSize(DataType(data)));
    }
  }

  /** An element whose bytes lie outside [lo, hi) reads the same. */
  lemma SameWord(after: seq<byte>, before: seq<byte>, lo: nat, hi: nat, o: nat)
    requires IntegerData(before) && HoldsElement(before, o) && 2 <= lo
    requires SameOutside(after, before, lo, hi)
    requires ElementOffset(before, o) + TypeSize(DataType(before)) <= lo || hi <= ElementOffset(before, o)
    ensures IntegerData(after) && DataType(after) == DataType(before) && HoldsElement(after, o)
    ensures Word(after, o) == Word(before, o)
  {
    assert after[0..2] == before[0..2];
    assert DataType(after) == DataType(before);
    var off, size := ElementOffset(before, o), TypeSize(DataType(before));
    assert ElementOffset(after, o) == off;
    forall k | off <= k < off + size
      ensures after[k] == before[k]
    {
    }
    assert ElementBytes(after, o) == after[off..off + size] == before[off..off + size];
  }

  /** Writing run bit i, bit `bit` of element e, changes that bit of the target and no other. */
  lemma TargetStep(before: seq<byte>, element: nat, shift: nat, i: nat, rval: nat, e: nat, bit: nat, q: nat)
    requires IntegerData(before) && HoldsElement(before, e)
    requires element <= e && (e - element) * 32 + bit == shift + i
    ensures Target(before, element, shift, i + 1, rval, e, q)
      == if q == bit then Bit(rval, i) else Target(before, element, shift, i, rval, e, q)
  {
  }

  /** Before the run reaches element o, its target is its old word. */
  lemma TargetFresh(before: seq<byte>, element: nat, shift: nat, i: nat, rval: nat, o: nat, q: nat)
    requires IntegerData(before) && HoldsElement(before, o)
    requires element <= o && (o - element) * 32 >= shift + i
    ensures Target(before, element, shift, i, rval, o, q) == Bit(Word(before, o), q)
  {
  }

  /** Once the run has passed the last bit of element o, more run bits leave its target alone. */
  lemma TargetSettles(before: seq<byte>, element: nat, shift: nat, i: nat, n: nat, rval: nat, o: nat, q: nat)
    requires IntegerData(before) && HoldsElement(before, o)
    requires element <= o && (o - element) * 32 + 31 < shift + i && i <= n && q < 32
    ensures Target(before, element, shift, n, rval, o, q) == Target(before, element, shift, i, rval, o, q)
  {
  }

  /** The element after e starts where e ends. */
  lemma NextOffset(data: seq<byte>, e: nat)
    requires |data| >= 2
    ensures ElementOffset(data, e + 1) == ElementOffset(data, e) + TypeSize(DataType(data))
  {
  }

  /**
   * put_CIP_UDINT of the word register into element e of integer data:
   * the element reads back as the register's kept bits, and no other byte
   * changes (the store cannot fail for an integer type).
   */
  method StoreWord(data: array<byte>, e: nat, value: nat)
    requires IntegerData(data[..]) && HoldsElement(data[..], e) && value < 0x1_0000_0000
    modifies data
    ensures IntegerData(data[..]) && DataType(data[..]) == DataType(old(data[..])) && HoldsElement(data[..], e)
    ensures forall q | 0 <= q < KeptBits(data[..]) :: Bit(Word(data[..], e), q) == Bit(value, q)
    ensures SameOutside(data[..], old(data[..]), ElementOffset(old(data[..]), e), ElementOffset(old(data[..]), e + 1))
  {
    ghost var before := data[..];
    var stored := PutUDINT(data, e, value, 0);
    assert stored;
    ghost var size := TypeSize(DataType(before));
    ghost var off := ElementOffset(before, e);
    NextOffset(before, e);
    PutThenGetUDINT(before, data[..], e, value);
    forall k | 0 <= k < |before| && (k < off || off + size <= k)
      ensures data[..][k] == before[k]
    {
      WroteAtIndex(before, data[..], off, LE(value, size), k);
    }
    BytesAreBits(size);
    forall q | 0 <= q < KeptBits(data[..])
      ensures Bit(Word(data[..], e), q) == Bit(value, q)
    {
      BitMod(value, 8 * size, q);
    }
  }

  /**
   * put_bits part-way: the word register `value` holds element e, the
   * element of run bit `pos` (at bit `bit`), with its target for the first
   * `done` run bits; the elements before e are stored with their final
   * targets, and no other byte has changed.
   */
  ghost predicate Progress(now: seq<byte>, before: seq<byte>, element: nat, shift: nat, n: nat, rval: nat,
                           pos: nat, done: nat, e: nat, bit: nat, value: nat)
  {
    && IntegerData(before) && HoldsRun(before, element, shift, n) && pos < n && done <= n
    && e == ElementOf(element, shift, pos) && bit == (shift + pos) % 32
    && HoldsElement(before, e)
    && IntegerData(now) && DataType(now) == DataType(before)
    && SameOutside(now, before, ElementOffset(before, element), ElementOffset(before, e))
    && (forall o | element <= o < e :: HoldsElement(before, o) && Settled(now, before, element, shift, n, rval, o))
    && value < 0x1_0000_0000
    && forall q | 0 <= q < 32 :: Bit(value, q) == Target(before, element, shift, done, rval, e, q)
  }

  /** What put_bits has done when it returns true: every element of the run holds its target, and nothing else changed. */
  ghost predicate PutDone(after: seq<byte>, before: seq<byte>, element: nat, shift: nat, n: nat, rval: nat)
    requires IntegerData(before) && HoldsRun(before, element, shift, n)
  {
    var last := ElementOf(element, shift, n - 1);
    && IntegerData(after) && DataType(after) == DataType(before)
    && SameOutside(after, before, ElementOffset(before, element), ElementOffset(before, last + 1))
    && forall o | element <= o <= last :: HoldsElement(before, o) && Settled(after, before, element, shift, n, rval, o)
  }

  /** Storing the element of the last run bit completes put_bits. */
  lemma RunDone(after: seq<byte>, before: seq<byte>, element: nat, shift: nat, n: nat, rval: nat, e: nat)
    requires IntegerData(before) && HoldsRun(before, element, shift, n) && e == ElementOf(element, shift, n - 1)
    requires IntegerData(after) && DataType(after) == DataType(before)
    requires SameOutside(after, before, ElementOffset(before, element), ElementOffset(before, e + 1))
    requires forall o | element <= o <= e :: HoldsElement(before, o) && Settled(after, before, element, shift, n, rval, o)
    ensures PutDone(after, before, element, shift, n, rval)
  {
  }

  /** The register as first read: element `element`, no run bit written yet. */
  lemma StartRun(before: seq<byte>, element: nat, shift: nat, n: nat, rval: nat, value: nat)
    requires IntegerData(before) && HoldsRun(before, element, shift, n) && shift < 32
    requires HoldsElement(before, element) && value == Word(before, element)
    ensures Progress(before, before, element, shift, n, rval, 0, 0, element, shift, value)
  {
    WordBound(before, element);
  }

  /** Writing run bit i into the register: `value |= mask` or `value &= ~mask`. */
  lemma SetRunBit(now: seq<byte>, before: seq<byte>, element: nat, shift: nat, n: nat, rval: nat,
                  i: nat, e: nat, bit: nat, value: nat, b: bool)
    requires Progress(now, before, element, shift, n, rval, i, i, e, bit, value) && b == Bit(rval, i)
    ensures Progress(now, before, element, shift, n, rval, i, i + 1, e, bit, SetBit(value, bit, b))
  {
    Pow2Of32();
    SetBitBound(value, bit, b, 32);
    forall q | 0 <= q < 32
      ensures Bit(SetBit(value, bit, b), q) == Target(before, element, shift, i + 1, rval, e, q)
    {
      SetBitBits(value, bit, b, q);
      TargetStep(before, element, shift, i, rval, e, bit, q);
    }
  }

  /**
   * Stores the register into element e, which the run has finished with
   * (its last bit is behind the first `done` run bits, or the run is
   * complete): e then holds its target, and the elements before it keep
   * theirs.
   */
  method FinishElement(data: array<byte>, ghost before: seq<byte>, ghost element: nat, ghost shift: nat,
                       ghost n: nat, ghost rval: nat, ghost pos: nat, ghost done: nat, e: nat, ghost bit: nat, value: nat)
    requires Progress(data[..], before, element, shift, n, rval, pos, done, e, bit, value)
    requires done == n || (e - element) * 32 + 31 < shift + done
    modifies data
    ensures IntegerData(data[..]) && DataType(data[..]) == DataType(before)
    ensures SameOutside(data[..], before, ElementOffset(before, element), ElementOffset(before, e + 1))
    ensures forall o | element <= o <= e :: HoldsElement(before, o) && Settled(data[..], before, element, shift, n, rval, o)
    ensures pos + 1 == n ==> PutDone(data[..], before, element, shift, n, rval)
  {
    ghost var mid := data[..];
    ghost var size := TypeSize(DataType(before));
    NextOffset(before, e);
    StoreWord(data, e, value);
    assert SameOutside(data[..], mid, ElementOffset(mid, e), ElementOffset(mid, e + 1));
    WordBound(before, e);
    forall q | 0 <= q < KeptBits(before)
      ensures Bit(Word(data[..], e), q) == Target(before, element, shift, n, rval, e, q)
    {
      if done < n {
        TargetSettles(before, element, shift, done, n, rval, e, q);
      }
    }
    forall o | element <= o < e
      ensures Settled(data[..], before, element, shift, n, rval, o)
    {
      Later(o, e, size);
      PastHeader(mid, e);
      SameWord(data[..], mid, ElementOffset(mid, e), ElementOffset(mid, e + 1), o);
      assert Settled(mid, before, element, shift, n, rval, o);
    }
    OffsetMono(before, element, e);
    SameOutsideJoin(before, mid, data[..], ElementOffset(before, element), ElementOffset(before, e), ElementOffset(before, e + 1));
    if pos + 1 == n {
      RunDone(data[..], before, element, shift, n, rval, e);
    }
  }

  /**
   * `mask <<= 1` in put_bits: on to run bit pos + 1, the next bit of element e,
   * or, after bit 31, the next element, once e is stored.
   */
  method Advance(data: array<byte>, ghost before: seq<byte>, ghost element: nat, ghost shift: nat,
                 ghost n: nat, ghost rval: nat, ghost pos: nat, e: nat, bit: nat, value: nat)
    returns (e2: nat, bit2: nat, value2: nat)
    requires pos + 1 < n
    requires Progress(data[..], before, element, shift, n, rval, pos, pos + 1, e, bit, value)
    modifies data
    ensures Progress(data[..], before, element, shift, n, rval, pos + 1, pos + 1, e2, bit2, value2)
  {
    NextBit(element, shift, pos);
    HoldsBitOfRun(before, element, shift, n, pos + 1);
    e2, bit2, value2 := e, bit + 1, value;
    if bit2 == 32 {
      bit2 := 0;
      e2, value2 := NextElement(data, before, element, shift, n, rval, pos, e, bit, value);
    }
  }

  /** The run leaves element e after its bit 31: store it, then read the next element. */
  method NextElement(data: array<byte>, ghost before: seq<byte>, ghost element: nat, ghost shift: nat,
                     ghost n: nat, ghost rval: nat, ghost pos: nat, e: nat, ghost bit: nat, value: nat)
    returns (e2: nat, value2: nat)
    requires pos + 1 < n && bit == 31
    requires Progress(data[..], before, element, shift, n, rval, pos, pos + 1, e, bit, value)
    modifies data
    ensures Progress(data[..], before, element, shift, n, rval, pos + 1, pos + 1, e2, 0, value2)
  {
    ghost var i := pos + 1;
    NextBit(element, shift, pos);
    HoldsBitOfRun(before, element, shift, n, i);
    FinishElement(data, before, element, shift, n, rval, pos, i, e, bit, value);
    e2 := e + 1;
    PastHeader(before, element);
    SameWord(data[..], before, ElementOffset(before, element), ElementOffset(before, e2), e2);
    var next := GetUDINT(data[..], e2);
    value2 := next.v;
    WordBound(before, e2);
    forall q | 0 <= q < 32
      ensures Bit(value2, q) == Target(before, element, shift, i, rval, e2, q)
    {
      TargetFresh(before, element, shift, i, rval, e2, q);
    }
  }

  /**
   * put_bits: writes the low `bits` bits of rval (at least the first) into
   * the run, one bit of the word register at a time, storing each element
   * when the run leaves it; false, with nothing written, when the data's
   * type is unknown.
   */
  method PutBits(data: array<byte>, element: nat, shift: nat, bits: nat, rval: nat) returns (ok: bool)
    requires shift < 32 && HoldsRun(data[..], element, shift, AtLeastOne(bits)) && DataType(data[..]) != T_REAL
    modifies data
    ensures ok <==> IsIntegerType(DataType(old(data[..])))
    ensures !ok ==> data[..] == old(data[..])
    ensures ok ==> PutDone(data[..], old(data[..]), element, shift, AtLeastOne(bits), rval)
  {
    ghost var before := data[..];
    ghost var n := AtLeastOne(bits);
    HoldsBitOfRun(before, element, shift, n, 0);
    var first := GetUDINT(data[..], element);
    if first.UnknownType? {
      return false;
    }
    var e := element;
    var bit := shift;
    var value: nat := first.v;
    var r := rval;
    StartRun(before, element, shift, n, rval, value);
    SetRunBit(data[..], before, element, shift, n, rval, 0, e, bit, value, r % 2 == 1);
    if r % 2 == 1 {
      value := SetBit(value, bit, true);
    } else {
      value := SetBit(value, bit, false);
    }
    PutRun(data, before, element, shift, bits, rval, e, bit, value);
    ok := true;
  }

  /**
   * The loop of put_bits, from run bit 1 on, with the register holding
   * element e0 after run bit 0; it ends with the last element stored.
   */
  method PutRun(data: array<byte>, ghost before: seq<byte>, ghost element: nat, ghost shift: nat,
                bits: nat, rval: nat, e0: nat, bit0: nat, value0: nat)
    requires Progress(data[..], before, element, shift, AtLeastOne(bits), rval, 0, 1, e0, bit0, value0)
    modifies data
    ensures PutDone(data[..], before, element, shift, AtLeastOne(bits), rval)
  {
    ghost var n := AtLeastOne(bits);
    var e, bit, value, r := e0, bit0, value0, rval;
    var i := 1;
    ghost var pos := 0;
    while i < bits
      invariant 1 <= i <= n && i == pos + 1 && r == Shr(rval, pos)
      invariant Progress(data[..], before, element, shift, n, rval, pos, pos + 1, e, bit, value)
    {
      r := r / 2;
      ShrStep(rval, pos);
      ShrBit(rval, pos + 1);
      e, bit, value := Advance(data, before, element, shift, n, rval, pos, e, bit, value);
      SetRunBit(data[..], before, element, shift, n, rval, pos + 1, e, bit, value, r % 2 == 1);
      if r % 2 == 1 {
        value := SetBit(value, bit, true);
      } else {
        value := SetBit(value, bit, false);
      }
      pos := pos + 1;
      i := i + 1;
    }
    FinishElement(data, before, element, shift, n, rval, pos, pos + 1, e, bit, value);
  }

  // ---------------------------------------------------------------
  // get_bits after put_bits
  // ---------------------------------------------------------------

  /** Run bit i sits in element ElementOf(i) at bit (shift + i) % 32, and that element is part of the run. */
  lemma RunPosition(element: nat, shift: nat, n: nat, i: nat)
    requires i < n
    ensures element <= ElementOf(element, shift, i) <= ElementOf(element, shift, n - 1)
    ensures (ElementOf(element, shift, i) - element) * 32 + (shift + i) % 32 == shift + i
  {
  }

  /** The target of run bit i's own position, bit q of element o, is bit i of rval. */
  lemma TargetAt(before: seq<byte>, element: nat, shift: nat, n: nat, rval: nat, i: nat, o: nat, q: nat)
    requires IntegerData(before) && HoldsElement(before, o) && i < n
    requires element <= o && (o - element) * 32 + q == shift + i
    ensures Target(before, element, shift, n, rval, o, q) == Bit(rval, i)
  {
  }

  /** After put_bits, run bit i reads as bit i of rval where the data keeps that bit, and as clear where it does not. */
  lemma PutThenGetBit(before: seq<byte>, after: seq<byte>, element: nat, shift: nat, n: nat, rval: nat, i: nat)
    requires IntegerData(before) && HoldsRun(before, element, shift, n) && i < n
    requires PutDone(after, before, element, shift, n, rval)
    ensures IntegerData(after) && HoldsElement(after, ElementOf(element, shift, i))
    ensures ArrayBit(after, element, shift, i) == ((shift + i) % 32 < KeptBits(before) && Bit(rval, i))
  {
    var o := ElementOf(element, shift, i);
    var q := (shift + i) % 32;
    RunPosition(element, shift, n, i);
    assert HoldsElement(before, o) && Settled(after, before, element, shift, n, rval, o);
    assert ArrayBit(after, element, shift, i) == Bit(Word(after, o), q);
    if q < KeptBits(before) {
      TargetAt(before, element, shift, n, rval, i, o, q);
    } else {
      DroppedBit(after, o, q);
    }
  }

  /** A bit the data does not keep reads as clear. */
  lemma DroppedBit(data: seq<byte>, o: nat, q: nat)
    requires IntegerData(data) && HoldsElement(data, o) && KeptBits(data) <= q
    ensures !Bit(Word(data, o), q)
  {
    WordBound(data, o);
    if KeptBits(data) < q {
      PowGrows(KeptBits(data), q);
    }
    BitAbove(Word(data, o), KeptBits(data), q);
  }

  /** get_bits over the run after put_bits: each bit the data keeps is rval's. */
  lemma PutThenGetBits(before: seq<byte>, after: seq<byte>, element: nat, shift: nat, n: nat, rval: nat)
    requires IntegerData(before) && HoldsRun(before, element, shift, n)
    requires PutDone(after, before, element, shift, n, rval)
    ensures IntegerData(after) && HoldsRun(after, element, shift, n)
    ensures forall i | 0 <= i < n ::
      && HoldsElement(after, ElementOf(element, shift, i))
      && ArrayBit(after, element, shift, i) == ((shift + i) % 32 < KeptBits(before) && Bit(rval, i))
  {
    PutThenGetBit(before, after, element, shift, n, rval, n - 1);
    forall i | 0 <= i < n
      ensures HoldsElement(after, ElementOf(element, shift, i))
      ensures ArrayBit(after, element, shift, i) == ((shift + i) % 32 < KeptBits(before) && Bit(rval, i))
    {
      PutThenGetBit(before, after, element, shift, n, rval, i);
    }
  }

  /** For 32-bit elements (DINT, BOOL arrays) the round trip is exact: get_bits returns the low n bits of rval. */
  lemma PutThenGetWord(before: seq<byte>, after: seq<byte>, element: nat, shift: nat, n: nat, rval: nat)
    requires IntegerData(before) && HoldsRun(before, element, shift, n) && TypeSize(DataType(before)) == 4
    requires PutDone(after, before, element, shift, n, rval)
    ensures IntegerData(after) && HoldsRun(after, element, shift, n)
    ensures BitsValue(after, element, shift, n) == rval % Pow2(n)
  {
    PutThenGetBits(before, after, element, shift, n, rval);
    BitsValueBits(after, element, shift, n);
    DivMod(rval, Pow2(n));
    forall q | 0 <= q < n
      ensures Bit(BitsValue(after, element, shift, n), q) == Bit(rval % Pow2(n), q)
    {
      BitMod(rval, n, q);
    }
    BitsDetermine(BitsValue(after, element, shift, n), rval % Pow2(n), n);
  }

  /** put_bits leaves every element outside the run as it was. */
  lemma PutKeepsOtherElements(before: seq<byte>, after: seq<byte>, element: nat, shift: nat, n: nat, rval: nat, o: nat)
    requires IntegerData(before) && HoldsRun(before, element, shift, n) && HoldsElement(before, o)
    requires PutDone(after, before, element, shift, n, rval)
    requires o < element || ElementOf(element, shift, n - 1) < o
    ensures IntegerData(after) && HoldsElement(after, o) && Word(after, o) == Word(before, o)
  {
    var last := ElementOf(element, shift, n - 1);
    var size := TypeSize(DataType(before));
    PastHeader(before, element);
    OffsetMono(before, element, last);
    if o < element {
      Later(o, element, size);
    } else {
      OffsetMono(before, last + 1, o);
    }
    SameWord(after, before, ElementOffset(before, element), ElementOffset(before, last + 1), o);
  }
}
