/**
 * The write routines of the binary output records (devEtherIP.c:
 * bo_write, mbbo_write and mbbo_direct_write, which differ only in the
 * number of bits). On the pass that completes a write they only clear
 * PACT. Otherwise they compare the record's raw value with the bits in the
 * tag's data; when these differ, they put the new bits into the data, flag
 * the tag for the driver to write, and set PACT until the driver is done.
 */
module BinaryOutput {
  import opened Bytes
  import opened Cip
  import opened BitArray

  /**
   * lock_data: the record is connected to a tag on a scan list, the tag's
   * data lock was taken, and the tag holds data that reaches the
   * record's element.
   */
  predicate LockData(connected: bool, gotLock: bool, validDataSize: nat, tagElements: nat, element: nat)
  {
    connected && gotLock && validDataSize > 0 && tagElements > element
  }

  /**
   * What a write routine leaves: the record's PACT, the tag's do_write,
   * and whether the record ends without a WRITE alarm.
   */
  datatype Outcome = Outcome(pact: bool, doWrite: bool, ok: bool)

  /**
   * The record must write: the data is locked, its type is an integer
   * type (so get_bits succeeds), and its bits differ from the raw value.
   */
  ghost predicate MustWrite(data: seq<byte>, element: nat, shift: nat, bits: nat, rval: nat, locked: bool)
    requires locked ==> HoldsRun(data, element, shift, AtLeastOne(bits))
  {
    locked && IntegerData(data) && BitsValue(data, element, shift, AtLeastOne(bits)) != rval
  }

  /**
   * One call of the write routine for a record whose link analysed
   * (`linkOk`, else check_link's error is returned). lock_data succeeds
   * when the record is connected, the lock was taken (`gotLock`), the tag
   * holds valid data and has more elements than the record's element. The
   * bits start at bit `shift` of element `element`.
   */
  method WriteBits(data: array<byte>, element: nat, shift: nat, bits: nat, rval: nat,
                   pact: bool, linkOk: bool, connected: bool, gotLock: bool, validDataSize: nat, tagElements: nat,
                   doWrite: bool) returns (out: Outcome)
    requires LockData(connected, gotLock, validDataSize, tagElements, element) ==>
      shift < 32 && HoldsRun(data[..], element, shift, AtLeastOne(bits)) && DataType(data[..]) != T_REAL
    modifies data
    ensures pact ==> out == Outcome(false, doWrite, true) && data[..] == old(data[..])
    ensures !pact && !(linkOk && LockData(connected, gotLock, validDataSize, tagElements, element)) ==>
      out == Outcome(false, doWrite, false) && data[..] == old(data[..])
    ensures var locked := LockData(connected, gotLock, validDataSize, tagElements, element);
      !pact && linkOk && locked && !MustWrite(old(data[..]), element, shift, bits, rval, locked) ==>
        out == Outcome(false, doWrite, true) && data[..] == old(data[..])
    ensures var locked := LockData(connected, gotLock, validDataSize, tagElements, element);
      !pact && linkOk && MustWrite(old(data[..]), element, shift, bits, rval, locked) ==>
        out == Outcome(true, true, true) && PutDone(data[..], old(data[..]), element, shift, AtLeastOne(bits), rval)
  {
    if pact {
      return Outcome(false, doWrite, true);
    }
    var locked := LockData(connected, gotLock, validDataSize, tagElements, element);
    if !linkOk || !locked {
      return Outcome(false, doWrite, false);
    }
    var ok := true;
    var got, current := GetBits(data[..], element, shift, bits);
    out := Outcome(false, doWrite, true);
    if got && rval != current {
      ok := PutBits(data, element, shift, bits, rval);
      out := Outcome(true, true, ok);
    }
  }

  /**
   * After a write to a 32-bit integer tag, the next pass finds the tag's
   * bits equal to the raw value exactly when the value fits the record's
   * bits; a larger value is written again on every pass.
   */
  lemma WriteSettles(before: seq<byte>, after: seq<byte>, element: nat, shift: nat, bits: nat, rval: nat)
    requires IntegerData(before) && HoldsRun(before, element, shift, AtLeastOne(bits))
    requires TypeSize(DataType(before)) == 4
    requires PutDone(after, before, element, shift, AtLeastOne(bits), rval)
    ensures HoldsRun(after, element, shift, AtLeastOne(bits))
    ensures !MustWrite(after, element, shift, bits, rval, true) <==> rval < Pow2(AtLeastOne(bits))
  {
    var n := AtLeastOne(bits);
    PutThenGetWord(before, after, element, shift, n, rval);
    ModSmall(rval, Pow2(n));
  }

  /** v is its own remainder modulo p exactly when it is below p. */
  lemma ModSmall(v: nat, p: nat)
    requires p >= 1
    ensures v % p == v <==> v < p
  {
    DivMod(v, p);
    if v >= p {
      assert v / p >= 1;
    }
  }
}
