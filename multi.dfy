/**
 * The CIP Multiple Service Packet (service 0x0A) as ether_ip.c builds and
 * splits it: prepare_CIP_MultiRequest writes the count and an offset table
 * whose first entry points past the table, CIP_MultiRequest_item fills the
 * table one entry ahead as the items are placed in order, and
 * get_CIP_MultiRequest_Response picks one reply out of a multiple reply.
 *
 * Offsets count bytes from the `count` field. The table is modelled as the
 * sequence of UINTs read from the buffer, so that the in-order filling can
 * be stated on values.
 */
module Multi {
  import opened Bytes
  import opened Tags
  import opened Paths
  import opened Cip
  import opened Options

  const C_MessageRouter: byte := 0x02

  /** CIP_MultiRequest_size: MR header and router path, count, offset table, the requests. */
  function MultiRequestSize(count: nat, requestsSize: nat): nat
  {
    2 + 2 * CIAPathSize(0) + 2 + 2 * count + requestsSize
  }

  /** CIP_MultiResponse_size: the 4-byte MR_Response header, count, offset table, the replies. */
  function MultiResponseSize(count: nat, responsesSize: nat): nat
  {
    4 + 2 + 2 * count + responsesSize
  }

  /** The fixed start of what prepare_CIP_MultiRequest writes: MR header, router path, count, offset[0]. */
  function MultiHead(count: nat): (r: seq<byte>)
    ensures |r| == 10
  {
    MRRequestHeader(S_MultiRequest, CIAPathSize(0)) + CIAPath(C_MessageRouter, 1, 0)
      + LE(count, 2) + LE((count + 1) * 2, 2)
  }

  /** The bytes prepare_CIP_MultiRequest writes: offset[0] is always written, later entries are zero. */
  function MultiHeader(count: nat): (r: seq<byte>)
    ensures |r| == 10 + 2 * (if count >= 1 then count - 1 else 0)
  {
    MultiHead(count) + Zeros(if count >= 1 then 2 * (count - 1) else 0)
  }

  /** prepare_CIP_MultiRequest: the MR header for the message router, the count, the initial offset table. */
  method PrepareMultiRequest(buf: array<byte>, pos: nat, count: nat) returns (ok: bool)
    requires pos + |MultiHeader(count)| <= buf.Length
    modifies buf
    ensures ok
    ensures Wrote(old(buf[..]), buf[..], pos, MultiHeader(count))
  {
    var q := PutMultiHead(buf, pos, count);
    ghost var mid := buf[..];
    var n := if count >= 1 then count - 1 else 0;
    var r := PutZeroOffsets(buf, q, n);
    WroteAt(old(buf[..]), mid, buf[..], pos, q, MultiHead(count), Zeros(2 * n));
    ok := true;
  }

  method PutMultiHead(buf: array<byte>, pos: nat, count: nat) returns (next: nat)
    requires pos + 10 <= buf.Length
    modifies buf
    ensures next == pos + 10
    ensures Wrote(old(buf[..]), buf[..], pos, MultiHead(count))
  {
    ghost var start := buf[..];
    var p := MakeMRRequest(buf, pos, S_MultiRequest, CIAPathSize(0));
    ghost var b1 := buf[..];
    ghost var head := MRRequestHeader(S_MultiRequest, CIAPathSize(0));
    var q := MakeCIAPath(buf, p, C_MessageRouter, 1, 0);
    WroteAt(start, b1, buf[..], pos, p, head, CIAPath(C_MessageRouter, 1, 0));
    head := head + CIAPath(C_MessageRouter, 1, 0);
    q := AppendUINT(buf, pos, q, count, start, head);
    head := head + LE(count, 2);
    next := AppendUINT(buf, pos, q, (count + 1) * 2, start, head);
  }

  /** The loop of prepare_CIP_MultiRequest: `n` zero offsets. */
  method PutZeroOffsets(buf: array<byte>, pos: nat, n: nat) returns (next: nat)
    requires pos + 2 * n <= buf.Length
    modifies buf
    ensures next == pos + 2 * n
    ensures Wrote(old(buf[..]), buf[..], pos, Zeros(2 * n))
  {
    ghost var start := buf[..];
    next := pos;
    var i := 0;
    WroteNothing(start, pos);
    while i < n
      invariant i <= n
      invariant next == pos + 2 * i
      invariant Wrote(start, buf[..], pos, Zeros(2 * i))
    {
      next := AppendUINT(buf, pos, next, 0, start, Zeros(2 * i));
      ZerosGrow(2 * i);
      i := i + 1;
    }
  }

  /** For at least one request, what prepare writes is the fixed part that CIP_MultiRequest_size counts. */
  lemma PreparedSize(count: nat)
    requires count >= 1
    ensures |MultiHeader(count)| == MultiRequestSize(count, 0)
  {
  }

  // ---------------------------------------------------------------
  // The offset table
  // ---------------------------------------------------------------

  /** raw_MR_Request_data: where the count field sits, behind the request's path. */
  function CountPos(s: seq<byte>, request: nat): nat
    requires request + 2 <= |s|
  {
    request + 2 + 2 * (s[request + 1] as int)
  }

  /** `count` UINTs read from position `at`. */
  function Table(s: seq<byte>, at: nat, count: nat): (t: seq<nat>)
    requires at + 2 * count <= |s|
    ensures |t| == count
  {
    seq(count, j requires 0 <= j < count => UnpackUINT(s, at + 2 * j).0)
  }

  /** The request holds its count and its whole offset table inside the buffer (the callers' guarantee). */
  predicate HasTable(s: seq<byte>, request: nat)
  {
    request + 2 <= |s| && CountPos(s, request) + 2 <= |s|
    && CountPos(s, request) + 2 + 2 * UnpackUINT(s, CountPos(s, request)).0 <= |s|
  }

  /** The request's count field. */
  function CountOf(s: seq<byte>, request: nat): nat
    requires HasTable(s, request)
  {
    UnpackUINT(s, CountPos(s, request)).0
  }

  /** The request's offset table. */
  function TableOf(s: seq<byte>, request: nat): (t: seq<nat>)
    requires HasTable(s, request)
    ensures |t| == CountOf(s, request)
  {
    Table(s, CountPos(s, request) + 2, CountOf(s, request))
  }

  /** Where CIP_MultiRequest_item places request `i` in a table: null past the count or at a zero offset. */
  function ItemResult(table: seq<nat>, i: nat, countPos: nat): (r: Option<nat>)
    ensures r.Some? <==> i < |table| && table[i] != 0
  {
    if i >= |table| then None
    else if table[i] == 0 then None
    else Some(countPos + table[i] as nat)
  }

  /** The table after CIP_MultiRequest_item for request `i`: the next entry follows this request. */
  function ItemStep(table: seq<nat>, i: nat, size: nat): (t: seq<nat>)
    ensures |t| == |table|
  {
    if i < |table| && table[i] != 0 && i + 1 < |table| then table[i + 1 := (table[i] + size) % 0x1_0000]
    else table
  }

  /** Where CIP_MultiRequest_item finds request `i` in the bytes: null past the count or at a zero offset. */
  function ItemAt(s: seq<byte>, request: nat, i: nat): Option<nat>
    requires HasTable(s, request)
  {
    var countp := CountPos(s, request);
    if i >= CountOf(s, request) then None
    else
      var offset := UnpackUINT(s, countp + 2 + 2 * i).0;
      if offset == 0 then None else Some(countp + offset)
  }

  /** The bytes after CIP_MultiRequest_item for request `i`: entry i+1 set behind the item, if there is one. */
  function ItemWrite(s: seq<byte>, request: nat, i: nat, size: nat): (r: seq<byte>)
    requires HasTable(s, request)
    ensures |r| == |s|
  {
    var countp := CountPos(s, request);
    if i + 1 < CountOf(s, request) && UnpackUINT(s, countp + 2 + 2 * i).0 != 0 then
      var at := countp + 2 + 2 * (i + 1);
      s[..at] + LE((UnpackUINT(s, countp + 2 + 2 * i).0 + size) % 0x1_0000, 2) + s[at + 2..]
    else s
  }

  /** CIP_MultiRequest_item: the item's location, and the next table entry set behind it. */
  method MultiRequestItem(buf: array<byte>, request: nat, requestNo: nat, size: nat) returns (item: Option<nat>)
    requires HasTable(buf[..], request)
    modifies buf
    ensures item == ItemAt(old(buf[..]), request, requestNo)
    ensures buf[..] == ItemWrite(old(buf[..]), request, requestNo, size)
  {
    var countp := request + 2 + 2 * (buf[request + 1] as int);
    var count := UnpackUINT(buf[..], countp).0;
    var offsetp := countp + 2;
    if requestNo >= count {
      item := None;
    } else {
      var offset := UnpackUINT(buf[..], offsetp + 2 * requestNo).0;
      if offset == 0 {
        item := None;
      } else {
        item := Some(countp + offset);
        var nextNo := requestNo + 1;
        if nextNo < count {
          var at := offsetp + 2 * nextNo;
          var next := PackUINT(buf, at, (offset + size) % 0x1_0000);
        }
      }
    }
  }

  /** On the table, CIP_MultiRequest_item hands out entry i: null past the count or at a zero entry. */
  lemma ItemOnTable(s: seq<byte>, request: nat, i: nat)
    requires HasTable(s, request)
    ensures ItemAt(s, request, i) == ItemResult(TableOf(s, request), i, CountPos(s, request))
  {
    if i < CountOf(s, request) {
      TableEntry(s, request, i);
    }
  }

  /** Entry i of the table is the UINT at its place in the bytes. */
  lemma TableEntry(s: seq<byte>, request: nat, i: nat)
    requires HasTable(s, request) && i < CountOf(s, request)
    ensures TableOf(s, request)[i] == UnpackUINT(s, CountPos(s, request) + 2 + 2 * i).0
  {
  }

  /** CIP_MultiRequest_item sets entry i+1 to follow item i and keeps the count and the table's place. */
  lemma ItemStepOnTable(s: seq<byte>, request: nat, i: nat, size: nat)
    requires HasTable(s, request)
    ensures HasTable(ItemWrite(s, request, i, size), request)
    ensures CountPos(ItemWrite(s, request, i, size), request) == CountPos(s, request)
    ensures CountOf(ItemWrite(s, request, i, size), request) == CountOf(s, request)
    ensures TableOf(ItemWrite(s, request, i, size), request) == ItemStep(TableOf(s, request), i, size)
  {
    if i < CountOf(s, request) {
      TableEntry(s, request, i);
    }
    if i + 1 < CountOf(s, request) && UnpackUINT(s, CountPos(s, request) + 2 + 2 * i).0 != 0 {
      ItemStepSets(s, request, i, size);
    } else {
      assert ItemWrite(s, request, i, size) == s;
      assert ItemStep(TableOf(s, request), i, size) == TableOf(s, request);
    }
  }

  /** The case of ItemStepOnTable where entry i + 1 is written. */
  lemma ItemStepSets(s: seq<byte>, request: nat, i: nat, size: nat)
    requires HasTable(s, request) && i + 1 < CountOf(s, request)
    requires TableOf(s, request)[i] == UnpackUINT(s, CountPos(s, request) + 2 + 2 * i).0 != 0
    ensures HasTable(ItemWrite(s, request, i, size), request)
    ensures CountPos(ItemWrite(s, request, i, size), request) == CountPos(s, request)
    ensures CountOf(ItemWrite(s, request, i, size), request) == CountOf(s, request)
    ensures TableOf(ItemWrite(s, request, i, size), request) == ItemStep(TableOf(s, request), i, size)
  {
    var cp := CountPos(s, request);
    var t := TableOf(s, request);
    var at := cp + 2 + 2 * (i + 1);
    var v: uint16 := (t[i] + size) % 0x1_0000;
    var after := s[..at] + LE(v, 2) + s[at + 2..];
    assert ItemWrite(s, request, i, size) == after;
    assert ItemStep(t, i, size) == t[i + 1 := v];
    TableAfterWrite(s, after, request, i + 1, v);
  }

  /** Writing one entry of the table changes that entry and nothing else the table is made of. */
  lemma TableAfterWrite(before: seq<byte>, after: seq<byte>, request: nat, k: nat, v: uint16)
    requires HasTable(before, request) && k < CountOf(before, request)
    requires Wrote(before, after, CountPos(before, request) + 2 + 2 * k, LE(v, 2))
    ensures HasTable(after, request)
    ensures CountPos(after, request) == CountPos(before, request)
    ensures CountOf(after, request) == CountOf(before, request)
    ensures TableOf(after, request) == TableOf(before, request)[k := v]
  {
    SameFrame(before, after, request, k, v);
    var t1 := TableOf(after, request);
    var t0 := TableOf(before, request);
    forall j | 0 <= j < |t0|
      ensures t1[j] == t0[k := v][j]
    {
      EntryAfterWrite(before, after, request, k, v, j);
    }
  }

  /** A write to a table entry leaves the request's count and the table's place alone. */
  lemma SameFrame(before: seq<byte>, after: seq<byte>, request: nat, k: nat, v: uint16)
    requires HasTable(before, request) && k < CountOf(before, request)
    requires Wrote(before, after, CountPos(before, request) + 2 + 2 * k, LE(v, 2))
    ensures HasTable(after, request)
    ensures CountPos(after, request) == CountPos(before, request)
    ensures CountOf(after, request) == CountOf(before, request)
  {
    var cp := CountPos(before, request);
    WroteSlice(before, after, cp + 2 + 2 * k, LE(v, 2));
    assert after[request + 1] == before[request + 1];
    assert after[cp..cp + 2] == before[cp..cp + 2];
  }

  lemma EntryAfterWrite(before: seq<byte>, after: seq<byte>, request: nat, k: nat, v: uint16, j: nat)
    requires HasTable(before, request) && k < CountOf(before, request) && j < CountOf(before, request)
    requires Wrote(before, after, CountPos(before, request) + 2 + 2 * k, LE(v, 2))
    requires HasTable(after, request)
    requires CountPos(after, request) == CountPos(before, request)
    requires CountOf(after, request) == CountOf(before, request)
    ensures TableOf(after, request)[j] == if j == k then v else TableOf(before, request)[j]
  {
    var cp := CountPos(before, request);
    var at := cp + 2 + 2 * k;
    var e := cp + 2 + 2 * j;
    TableEntry(after, request, j);
    TableEntry(before, request, j);
    if j == k {
      WroteSlice(before, after, at, LE(v, 2));
      UINTImage(after, at, v);
    } else {
      EntryUntouched(before, after, at, LE(v, 2), e);
    }
  }

  lemma EntryUntouched(before: seq<byte>, after: seq<byte>, at: nat, img: seq<byte>, e: nat)
    requires |img| == 2 && Wrote(before, after, at, img) && e + 2 <= |before|
    requires e + 2 <= at || at + 2 <= e
    ensures after[e..e + 2] == before[e..e + 2]
  {
    WroteAtIndex(before, after, at, img, e);
    WroteAtIndex(before, after, at, img, e + 1);
  }

  // ---------------------------------------------------------------
  // Filling the table in order
  // ---------------------------------------------------------------

  function Sum(sizes: seq<nat>): nat
  {
    if sizes == [] then 0 else Sum(sizes[..|sizes| - 1]) + sizes[|sizes| - 1]
  }

  /** The table as prepare_CIP_MultiRequest leaves it: the first item right behind the table, the rest unset. */
  function Prepared(count: nat): (t: seq<nat>)
    requires count >= 1
    ensures |t| == count
  {
    [((count + 1) * 2) % 0x1_0000] + seq(count - 1, _ => 0)
  }

  /** The table after CIP_MultiRequest_item for requests 0, 1, ... |sizes|-1 in that order. */
  function AfterItems(count: nat, sizes: seq<nat>): (t: seq<nat>)
    requires count >= 1
    ensures |t| == count
  {
    if sizes == [] then Prepared(count)
    else ItemStep(AfterItems(count, sizes[..|sizes| - 1]), |sizes| - 1, sizes[|sizes| - 1])
  }

  /**
   * Called in order, the items fill the table with running sums: entry j
   * is the first offset plus the sizes of the requests before j, and the
   * entries not reached yet stay 0.
   */
  lemma {:induction false} InOrder(count: nat, sizes: seq<nat>)
    requires 1 <= count && |sizes| <= count
    requires (count + 1) * 2 + Sum(sizes) < 0x1_0000
    ensures forall j :: 0 <= j < count ==>
      AfterItems(count, sizes)[j] == if j <= |sizes| then (count + 1) * 2 + Sum(sizes[..j]) else 0
  {
    if sizes != [] {
      var k := |sizes| - 1;
      var init := sizes[..k];
      assert sizes[..k][..k] == init;
      SumPrefix(sizes, k);
      InOrder(count, init);
      var t := AfterItems(count, init);
      assert t[k] == (count + 1) * 2 + Sum(init);
      forall j | 0 <= j < count
        ensures AfterItems(count, sizes)[j] == if j <= |sizes| then (count + 1) * 2 + Sum(sizes[..j]) else 0
      {
        if j <= k {
          assert sizes[..j] == init[..j];
        } else if j == k + 1 {
          assert sizes[..j] == sizes;
        }
      }
    } else {
      forall j | 0 <= j < count
        ensures AfterItems(count, sizes)[j] == if j <= |sizes| then (count + 1) * 2 + Sum(sizes[..j]) else 0
      {
        if j == 0 {
          assert sizes[..0] == [];
        }
      }
    }
  }

  /** The sum of a prefix is at most the whole sum. */
  lemma {:induction false} SumPrefix(sizes: seq<nat>, j: nat)
    requires j <= |sizes|
    ensures Sum(sizes[..j]) <= Sum(sizes)
  {
    if j < |sizes| {
      var k := |sizes| - 1;
      assert sizes[..k][..j] == sizes[..j];
      SumPrefix(sizes[..k], j);
    } else {
      assert sizes[..j] == sizes;
    }
  }

  /** The next item in order is placed behind the ones before it; an item asked for ahead of its turn is refused. */
  lemma ItemsInOrder(count: nat, sizes: seq<nat>, countPos: nat, j: nat)
    requires 1 <= count && |sizes| < count
    requires (count + 1) * 2 + Sum(sizes) < 0x1_0000
    ensures ItemResult(AfterItems(count, sizes), |sizes|, countPos) == Some(countPos + (count + 1) * 2 + Sum(sizes))
    ensures |sizes| < j < count ==> ItemResult(AfterItems(count, sizes), j, countPos) == None
  {
    InOrder(count, sizes);
    assert sizes[..|sizes|] == sizes;
  }

  /** With every item placed, the last one ends CIP_MultiRequest_size bytes after the request's start. */
  lemma ItemsEnd(count: nat, sizes: seq<nat>)
    requires 1 <= count && |sizes| == count
    requires (count + 1) * 2 + Sum(sizes) < 0x1_0000
    ensures CountPos(MultiHeader(count), 0) + AfterItems(count, sizes)[count - 1] + sizes[count - 1]
      == MultiRequestSize(count, Sum(sizes))
  {
    PreparedLayout(count);
    InOrder(count, sizes);
    assert sizes[..count - 1] + [sizes[count - 1]] == sizes;
  }

  /** In the bytes prepare writes, the count field is where raw_MR_Request_data points and the table is the prepared one. */
  lemma PreparedLayout(count: nat)
    requires 1 <= count < 0x1_0000
    ensures HasTable(MultiHeader(count), 0)
    ensures CountPos(MultiHeader(count), 0) == 6
    ensures CountOf(MultiHeader(count), 0) == count
    ensures TableOf(MultiHeader(count), 0) == Prepared(count)
  {
    var s := MultiHeader(count);
    PreparedFields(count);
    forall j | 0 <= j < count
      ensures TableOf(s, 0)[j] == Prepared(count)[j]
    {
      TableEntry(s, 0, j);
      PreparedEntry(count, j);
    }
  }

  /** The path size byte, the count and the first offset of the prepared bytes. */
  lemma PreparedFields(count: nat)
    requires 1 <= count < 0x1_0000
    ensures MultiHeader(count)[1] == 2
    ensures UnpackUINT(MultiHeader(count), 6).0 == count
  {
    var s := MultiHeader(count);
    assert s[6..8] == LE(count, 2);
    UINTImage(s, 6, count);
  }

  /** Entry j of the prepared table as read from the bytes. */
  lemma PreparedEntry(count: nat, j: nat)
    requires 1 <= count && j < count
    ensures UnpackUINT(MultiHeader(count), 8 + 2 * j).0 == Prepared(count)[j]
  {
    var s := MultiHeader(count);
    if j == 0 {
      var v := (count + 1) * 2;
      assert s[8..10] == LE(v, 2);
      LEMod(v, 2, 2);
      assert Pow256(2) == 0x1_0000;
      UINTImage(s, 8, v % 0x1_0000);
    } else {
      assert s[8 + 2 * j] == 0 && s[9 + 2 * j] == 0;
    }
  }

  // ---------------------------------------------------------------
  // Splitting a multiple reply
  // ---------------------------------------------------------------

  /** Where a multiple reply's count field sits: behind the MR_Response header and its extended status. */
  function ReplyCountPos(response: seq<byte>): nat
    requires |response| >= 4
  {
    RawMRResponseData(response, 0).0
  }

  /** The reply holds its count and its whole offset table (the callers' guarantee). */
  predicate HasReplyTable(response: seq<byte>)
  {
    |response| >= 4 && ReplyCountPos(response) + 2 <= |response|
    && ReplyCountPos(response) + 2 + 2 * UnpackUINT(response, ReplyCountPos(response)).0 <= |response|
  }

  /**
   * get_CIP_MultiRequest_Response: reply `replyNo` starts at its offset from
   * the count field and runs to the next offset, the last one to the end of
   * the response; a reply number past the count gives null. Sizes are C
   * size_t differences, so a decreasing offset would wrap.
   */
  function GetMultiResponse(response: seq<byte>, responseSize: nat, replyNo: nat): (r: Option<(nat, nat)>)
    requires HasReplyTable(response)
    ensures r.None? <==> replyNo >= UnpackUINT(response, ReplyCountPos(response)).0
  {
    var countp := RawMRResponseData(response, 0).0;
    var count := UnpackUINT(response, countp).0;
    if replyNo >= count then None
    else
      var offset := UnpackUINT(response, countp + 2 + 2 * replyNo).0;
      var mem := countp + offset;
      if replyNo + 1 < count then
        var offset2 := UnpackUINT(response, countp + 2 + 2 * (replyNo + 1)).0;
        Some((mem, ToSizeT(offset2 - offset)))
      else
        Some((mem, ToSizeT(responseSize - mem)))
  }

  /** Byte strings one after the other. */
  function Concat(rs: seq<seq<byte>>): seq<byte>
  {
    if rs == [] then [] else Concat(rs[..|rs| - 1]) + rs[|rs| - 1]
  }

  /** The bytes of the first i strings start the bytes of all of them. */
  lemma {:induction false} ConcatPrefix(rs: seq<seq<byte>>, i: nat)
    requires i <= |rs|
    ensures Concat(rs[..i]) <= Concat(rs)
  {
    if i < |rs| {
      var k := |rs| - 1;
      assert rs[..k][..i] == rs[..i];
      ConcatPrefix(rs[..k], i);
    } else {
      assert rs[..i] == rs;
    }
  }

  /** String i sits right behind the strings before it. */
  lemma ConcatAt(rs: seq<seq<byte>>, i: nat)
    requires i < |rs|
    ensures |Concat(rs[..i])| + |rs[i]| <= |Concat(rs)|
    ensures Concat(rs)[|Concat(rs[..i])|..|Concat(rs[..i])| + |rs[i]|] == rs[i]
    ensures |Concat(rs[..i + 1])| == |Concat(rs[..i])| + |rs[i]|
  {
    assert rs[..i + 1][..i] == rs[..i];
    assert Concat(rs[..i + 1]) == Concat(rs[..i]) + rs[i];
    ConcatPrefix(rs, i + 1);
  }

  /** The offset table of a multiple reply: reply j lies behind the count, the table and the replies before it. */
  function ReplyOffsets(rs: seq<seq<byte>>): (t: seq<uint16>)
    ensures |t| == |rs|
  {
    seq(|rs|, j requires 0 <= j < |rs| => ((|rs| + 1) * 2 + |Concat(rs[..j])|) % 0x1_0000)
  }

  /** Entry j of the reply offsets needs no wrapping when the reply fits 16-bit offsets. */
  lemma OffsetEntry(rs: seq<seq<byte>>, j: nat)
    requires (|rs| + 1) * 2 + |Concat(rs)| < 0x1_0000 && j < |rs|
    ensures ReplyOffsets(rs)[j] == (|rs| + 1) * 2 + |Concat(rs[..j])|
  {
    var x := (|rs| + 1) * 2 + |Concat(rs[..j])|;
    ConcatPrefix(rs, j);
    assert x < 0x1_0000;
    assert ReplyOffsets(rs)[j] == x % 0x1_0000;
  }

  /** A successful multiple reply carrying `rs` (no extended status). */
  function MultiResponseBytes(rs: seq<seq<byte>>): (r: seq<byte>)
    requires |rs| < 0x1_0000
    ensures |r| == 6 + 2 * |rs| + |Concat(rs)|
  {
    MRResponse(S_MultiRequest + 0x80, 0, [], LE(|rs|, 2) + Words(ReplyOffsets(rs)) + Concat(rs))
  }

  /** Entry j of little-endian words. */
  lemma {:induction false} WordsAt(ws: seq<uint16>, j: nat)
    requires j < |ws|
    ensures Words(ws)[2 * j..2 * j + 2] == LE(ws[j], 2)
  {
    if j > 0 {
      WordsAt(ws[1..], j - 1);
      assert Words(ws) == LE(ws[0], 2) + Words(ws[1..]);
      assert Words(ws)[2 * j..2 * j + 2] == Words(ws[1..])[2 * (j - 1)..2 * (j - 1) + 2];
    }
  }

  /** Reading table entry j of a multiple reply gives the offset of reply j. */
  lemma ReplyEntry(rs: seq<seq<byte>>, j: nat)
    requires |rs| < 0x1_0000 && (|rs| + 1) * 2 + |Concat(rs)| < 0x1_0000 && j < |rs|
    ensures 6 + 2 * j + 2 <= |MultiResponseBytes(rs)|
    ensures UnpackUINT(MultiResponseBytes(rs), 6 + 2 * j).0 == (|rs| + 1) * 2 + |Concat(rs[..j])|
  {
    var resp := MultiResponseBytes(rs);
    var offs := ReplyOffsets(rs);
    assert resp == [S_MultiRequest + 0x80, 0, 0, 0] + LE(|rs|, 2) + Words(offs) + Concat(rs);
    WordsAt(offs, j);
    assert resp[6 + 2 * j..6 + 2 * j + 2] == Words(offs)[2 * j..2 * j + 2];
    UINTImage(resp, 6 + 2 * j, offs[j]);
    OffsetEntry(rs, j);
  }

  /** The count field of a multiple reply. */
  lemma ReplyCount(rs: seq<seq<byte>>)
    requires |rs| < 0x1_0000
    ensures ReplyCountPos(MultiResponseBytes(rs)) == 4
    ensures UnpackUINT(MultiResponseBytes(rs), 4).0 == |rs|
    ensures HasReplyTable(MultiResponseBytes(rs))
    ensures CheckMultiRequestResponse(MultiResponseBytes(rs))
  {
    var resp := MultiResponseBytes(rs);
    assert resp[3] == 0;
    assert resp[4..6] == LE(|rs|, 2);
    UINTImage(resp, 4, |rs|);
  }

  /**
   * Splitting a multiple reply finds each reply where it was put, with its
   * exact size, and nothing past the count.
   */
  lemma SplitReplies(rs: seq<seq<byte>>, i: nat)
    requires |rs| < 0x1_0000 && (|rs| + 1) * 2 + |Concat(rs)| < 0x1_0000
    ensures HasReplyTable(MultiResponseBytes(rs))
    ensures i >= |rs| ==> GetMultiResponse(MultiResponseBytes(rs), |MultiResponseBytes(rs)|, i).None?
    ensures i < |rs| ==>
      var r := GetMultiResponse(MultiResponseBytes(rs), |MultiResponseBytes(rs)|, i);
      r.Some? && r.value.0 == 6 + 2 * |rs| + |Concat(rs[..i])| && r.value.1 == |rs[i]|
  {
    ReplyCount(rs);
    if i < |rs| {
      var resp := MultiResponseBytes(rs);
      var mem := 6 + 2 * |rs| + |Concat(rs[..i])|;
      ReplyEntry(rs, i);
      if i + 1 < |rs| {
        var gap := NextOffsetGap(rs, i);
      } else {
        LastReplySize(rs, i);
      }
      ReplyAt(resp, i, mem, |rs[i]|);
    }
  }

  /** get_CIP_MultiRequest_Response for a reply number below the count, from the table entries it reads. */
  lemma ReplyAt(response: seq<byte>, i: nat, mem: nat, size: nat)
    requires HasReplyTable(response) && ReplyCountPos(response) == 4
    requires i < UnpackUINT(response, 4).0
    requires mem == 4 + UnpackUINT(response, 6 + 2 * i).0
    requires i + 1 < UnpackUINT(response, 4).0 ==>
      size == UnpackUINT(response, 6 + 2 * (i + 1)).0 - UnpackUINT(response, 6 + 2 * i).0
    requires i + 1 >= UnpackUINT(response, 4).0 ==> size == |response| - mem
    requires size < 0x1_0000
    ensures GetMultiResponse(response, |response|, i).Some?
    ensures GetMultiResponse(response, |response|, i).value == (mem, size)
  {
    SmallSizeT(size);
  }

  /** Between two consecutive table entries lies exactly one reply. */
  lemma NextOffsetGap(rs: seq<seq<byte>>, i: nat) returns (gap: nat)
    requires |rs| < 0x1_0000 && (|rs| + 1) * 2 + |Concat(rs)| < 0x1_0000 && i + 1 < |rs|
    ensures 6 + 2 * (i + 1) + 2 <= |MultiResponseBytes(rs)|
    ensures gap == |rs[i]| < 0x1_0000
    ensures UnpackUINT(MultiResponseBytes(rs), 6 + 2 * (i + 1)).0 - UnpackUINT(MultiResponseBytes(rs), 6 + 2 * i).0 == gap
  {
    ReplyEntry(rs, i);
    ReplyEntry(rs, i + 1);
    ConcatAt(rs, i);
    gap := |rs[i]|;
  }

  /** The last reply runs to the end of the response. */
  lemma LastReplySize(rs: seq<seq<byte>>, i: nat)
    requires |rs| < 0x1_0000 && i + 1 == |rs|
    ensures |MultiResponseBytes(rs)| - (6 + 2 * |rs| + |Concat(rs[..i])|) == |rs[i]|
  {
    assert rs[..i + 1] == rs;
    ConcatAt(rs, i);
  }

  /** The bytes where the split locates reply i are reply i. */
  lemma ReplyBytes(rs: seq<seq<byte>>, i: nat)
    requires |rs| < 0x1_0000 && i < |rs|
    ensures 6 + 2 * |rs| + |Concat(rs[..i])| + |rs[i]| <= |MultiResponseBytes(rs)|
    ensures MultiResponseBytes(rs)[6 + 2 * |rs| + |Concat(rs[..i])|..][..|rs[i]|] == rs[i]
  {
    var resp := MultiResponseBytes(rs);
    var at := 6 + 2 * |rs| + |Concat(rs[..i])|;
    ConcatAt(rs, i);
    assert resp[6 + 2 * |rs|..] == Concat(rs);
    assert resp[at..][..|rs[i]|] == Concat(rs)[|Concat(rs[..i])|..|Concat(rs[..i])| + |rs[i]|];
  }
}
