/**
 * The scan side of drvEtherIP.c: sizing a batch of tags that fits one
 * MultiRequest (determine_MultiRequest_count), deriving the write sizes
 * from a read probe (complete_PLC_ScanList_TagInfos), handing each reply
 * of a batch to its tag (process_ScanList), invalidating every tag after an
 * error (invalidate_PLC_tags) and rescheduling a scan list (PLC_scan_task).
 */
module Scan {
  import opened Bytes
  import opened Tags
  import opened Options
  import opened Cip
  import opened Multi
  import opened Registry

  // ---------------------------------------------------------------
  // Batch sizing (determine_MultiRequest_count)
  // ---------------------------------------------------------------

  /** What the sizing loop reads and latches of a tag. */
  datatype Entry = Entry(sizes: CipSizes, doWrite: bool, isWriting: bool)

  /** A tag without a read or a write request size is never scanned. */
  predicate Skipped(s: CipSizes)
  {
    s.rRequest == 0 || s.wRequest == 0
  }

  /** Device support asked for a write, or a write is still in progress. */
  predicate Latched(e: Entry)
  {
    e.doWrite || e.isWriting
  }

  /** The request and response sizes one tag adds to a batch. */
  datatype Slot = Slot(request: nat, response: nat)

  /** A latched tag is written, any other tag is read. */
  function SlotOf(e: Entry): (r: Slot)
    ensures Latched(e) ==> r == Slot(e.sizes.wRequest, e.sizes.wResponse)
    ensures !Latched(e) ==> r == Slot(e.sizes.rRequest, e.sizes.rResponse)
  {
    if Latched(e) then Slot(e.sizes.wRequest, e.sizes.wResponse) else Slot(e.sizes.rRequest, e.sizes.rResponse)
  }

  /**
   * A tag after the sizing loop has looked at it: a scanned tag moves a
   * requested write into is_writing and clears do_write; a skipped tag keeps
   * its flags.
   */
  function Latch(e: Entry): (r: Entry)
    ensures r.sizes == e.sizes
    ensures Skipped(e.sizes) ==> r == e
    ensures !Skipped(e.sizes) ==> !r.doWrite && (r.isWriting <==> e.doWrite || e.isWriting)
  {
    if Skipped(e.sizes) then e else Entry(e.sizes, false, e.doWrite || e.isWriting)
  }

  /** The tags a batch may hold, in list order: every tag that is not skipped, with its slot. */
  function Candidates(es: seq<Entry>): (cs: seq<Slot>)
    ensures |cs| <= |es|
  {
    if es == [] then []
    else if Skipped(es[0].sizes) then Candidates(es[1..])
    else [SlotOf(es[0])] + Candidates(es[1..])
  }

  function Plus(a: Slot, b: Slot): Slot
  {
    Slot(a.request + b.request, a.response + b.response)
  }

  /** The summed request and response sizes of the first `m` slots. */
  function PrefixSum(cs: seq<Slot>, m: nat): Slot
    requires m <= |cs|
  {
    if m == 0 then Slot(0, 0) else Plus(PrefixSum(cs, m - 1), cs[m - 1])
  }

  /** A MultiRequest of `n` requests and its MultiResponse, of the `total` sizes, both fit the transfer limit. */
  predicate BatchFits(n: nat, total: Slot, limit: nat)
  {
    MultiRequestSize(n, total.request) <= limit && MultiResponseSize(n, total.response) <= limit
  }

  /**
   * The outcome of the sizing loop: the tags in the batch and their total
   * request and response sizes, how many list entries were looked at, and
   * whether the loop stopped at a tag that did not fit.
   */
  datatype Sizing = Sizing(count: nat, total: Slot, examined: nat, overflow: bool)

  /** The sizing loop from entry `i` on, with `count` tags of sizes `acc` already in the batch. */
  function SizeFrom(es: seq<Entry>, limit: nat, i: nat, count: nat, acc: Slot): (r: Sizing)
    requires i <= |es|
    decreases |es| - i
    ensures i <= r.examined <= |es|
  {
    if i == |es| then Sizing(count, acc, i, false)
    else if Skipped(es[i].sizes) then SizeFrom(es, limit, i + 1, count, acc)
    else if !BatchFits(count + 1, Plus(acc, SlotOf(es[i])), limit) then Sizing(count, acc, i + 1, true)
    else SizeFrom(es, limit, i + 1, count + 1, Plus(acc, SlotOf(es[i])))
  }

  /** The sizing loop over a whole list. */
  function Size(es: seq<Entry>, limit: nat): Sizing
  {
    SizeFrom(es, limit, 0, 0, Slot(0, 0))
  }

  /** The first m + 1 slots after `s` weigh `s` more than the first m of the rest. */
  lemma {:induction false} PrefixSumCons(s: Slot, rest: seq<Slot>, m: nat)
    requires m <= |rest|
    ensures PrefixSum([s] + rest, m + 1) == Plus(s, PrefixSum(rest, m))
  {
    if m > 0 {
      PrefixSumCons(s, rest, m - 1);
      assert ([s] + rest)[m] == rest[m - 1];
    }
  }

  /**
   * `r` extends a batch of `c` tags of sizes `acc` by the longest run of
   * the candidates `cs` whose every prefix fits, and overflows exactly when
   * it stops short of the last candidate, at one that does not fit.
   */
  ghost predicate Batched(cs: seq<Slot>, c: nat, acc: Slot, r: Sizing, limit: nat)
  {
    c <= r.count <= c + |cs| && r.total == Plus(acc, PrefixSum(cs, r.count - c))
    && (forall m | 1 <= m <= r.count - c :: BatchFits(c + m, Plus(acc, PrefixSum(cs, m)), limit))
    && (r.overflow <==> r.count < c + |cs|)
    && (r.overflow ==> !BatchFits(r.count + 1, Plus(acc, PrefixSum(cs, r.count - c + 1)), limit))
  }

  /** A fitting first candidate in front of a batch that fits prefix by prefix. */
  lemma ExtendBatch(acc: Slot, s: Slot, rest: seq<Slot>, c: nat, r: Sizing, limit: nat)
    requires BatchFits(c + 1, Plus(acc, s), limit) && Batched(rest, c + 1, Plus(acc, s), r, limit)
    ensures Batched([s] + rest, c, acc, r, limit)
  {
    var n := r.count - c - 1;
    PrefixSumCons(s, rest, n);
    PlusAssoc(acc, s, PrefixSum(rest, n));
    assert r.total == Plus(acc, PrefixSum([s] + rest, n + 1));
    if r.overflow {
      PrefixSumCons(s, rest, n + 1);
      PlusAssoc(acc, s, PrefixSum(rest, n + 1));
      assert !BatchFits(r.count + 1, Plus(acc, PrefixSum([s] + rest, n + 2)), limit);
    }
    ExtendPrefixes(acc, s, rest, c, n, limit);
  }

  /** The prefixes of `[s] + rest` fit when `s` fits and the prefixes of `rest` fit after it. */
  lemma ExtendPrefixes(acc: Slot, s: Slot, rest: seq<Slot>, c: nat, n: nat, limit: nat)
    requires n <= |rest| && BatchFits(c + 1, Plus(acc, s), limit)
    requires forall m | 1 <= m <= n :: BatchFits(c + 1 + m, Plus(Plus(acc, s), PrefixSum(rest, m)), limit)
    ensures forall m | 1 <= m <= n + 1 :: BatchFits(c + m, Plus(acc, PrefixSum([s] + rest, m)), limit)
  {
    forall m | 1 <= m <= n + 1
      ensures BatchFits(c + m, Plus(acc, PrefixSum([s] + rest, m)), limit)
    {
      PrefixSumCons(s, rest, m - 1);
      PlusAssoc(acc, s, PrefixSum(rest, m - 1));
    }
  }

  lemma PlusAssoc(a: Slot, b: Slot, c: Slot)
    ensures Plus(Plus(a, b), c) == Plus(a, Plus(b, c))
  {
  }

  /** A first candidate that does not fit ends the batch where it is. */
  lemma StopBatch(acc: Slot, s: Slot, rest: seq<Slot>, c: nat, examined: nat, limit: nat)
    requires !BatchFits(c + 1, Plus(acc, s), limit)
    ensures Batched([s] + rest, c, acc, Sizing(c, acc, examined, true), limit)
  {
    PrefixSumCons(s, rest, 0);
  }

  /** The sizing loop from entry `i` on is a Batched extension of what it started with. */
  lemma {:induction false} SizeFromBatch(es: seq<Entry>, limit: nat, i: nat, c: nat, acc: Slot)
    requires i <= |es|
    ensures Batched(Candidates(es[i..]), c, acc, SizeFrom(es, limit, i, c, acc), limit)
    ensures !SizeFrom(es, limit, i, c, acc).overflow ==> SizeFrom(es, limit, i, c, acc).examined == |es|
    decreases |es| - i
  {
    if i == |es| {
      assert Candidates(es[i..]) == [];
    } else {
      assert es[i..][1..] == es[i + 1..];
      var rest := Candidates(es[i + 1..]);
      if Skipped(es[i].sizes) {
        assert Candidates(es[i..]) == rest;
        SizeFromBatch(es, limit, i + 1, c, acc);
      } else {
        var s := SlotOf(es[i]);
        assert Candidates(es[i..]) == [s] + rest;
        if BatchFits(c + 1, Plus(acc, s), limit) {
          SizeFromBatch(es, limit, i + 1, c + 1, Plus(acc, s));
          ExtendBatch(acc, s, rest, c, SizeFrom(es, limit, i + 1, c + 1, Plus(acc, s)), limit);
        } else {
          StopBatch(acc, s, rest, c, i + 1, limit);
        }
      }
    }
  }

  /** Requests and responses of a longer prefix weigh at least as much. */
  lemma {:induction false} PrefixGrows(cs: seq<Slot>, m: nat, n: nat)
    requires m <= n <= |cs|
    ensures PrefixSum(cs, m).request <= PrefixSum(cs, n).request && PrefixSum(cs, m).response <= PrefixSum(cs, n).response
    decreases n
  {
    if m < n {
      PrefixGrows(cs, m, n - 1);
    }
  }

  /**
   * determine_MultiRequest_count: the batch is the longest run of candidates
   * that fits the limit; no longer run fits; a first candidate that alone
   * does not fit gives an empty batch.
   */
  lemma LongestFittingBatch(es: seq<Entry>, limit: nat)
    ensures var r := Size(es, limit);
      var cs := Candidates(es);
      r.count <= |cs| && r.total == PrefixSum(cs, r.count)
      && (forall m | 1 <= m <= r.count :: BatchFits(m, PrefixSum(cs, m), limit))
      && (forall m | r.count < m <= |cs| :: !BatchFits(m, PrefixSum(cs, m), limit))
      && (r.count < |cs| <==> r.overflow)
      && (cs != [] && !BatchFits(1, cs[0], limit) ==> r.count == 0)
  {
    assert es[0..] == es;
    SizeFromBatch(es, limit, 0, 0, Slot(0, 0));
    PrefixesFit(Candidates(es), Size(es, limit), limit);
    NoLongerPrefixFits(Candidates(es), Size(es, limit), limit);
    FirstAlone(Candidates(es), Size(es, limit), limit);
  }

  lemma ZeroPlus(a: Slot)
    ensures Plus(Slot(0, 0), a) == a
  {
  }

  /** Every prefix of the batch fits, and the batch's total is its prefix's total. */
  lemma PrefixesFit(cs: seq<Slot>, r: Sizing, limit: nat)
    requires Batched(cs, 0, Slot(0, 0), r, limit)
    ensures r.count <= |cs| && r.total == PrefixSum(cs, r.count)
    ensures forall m | 1 <= m <= r.count :: BatchFits(m, PrefixSum(cs, m), limit)
  {
    ZeroPlus(PrefixSum(cs, r.count));
    forall m | 1 <= m <= r.count
      ensures BatchFits(m, PrefixSum(cs, m), limit)
    {
      ZeroPlus(PrefixSum(cs, m));
    }
  }

  /** After an overflow no longer prefix fits either: sizes only grow. */
  lemma NoLongerPrefixFits(cs: seq<Slot>, r: Sizing, limit: nat)
    requires Batched(cs, 0, Slot(0, 0), r, limit)
    ensures forall m | r.count < m <= |cs| :: !BatchFits(m, PrefixSum(cs, m), limit)
  {
    if r.overflow {
      ZeroPlus(PrefixSum(cs, r.count + 1));
    }
    forall m | r.count < m <= |cs|
      ensures !BatchFits(m, PrefixSum(cs, m), limit)
    {
      PrefixGrows(cs, r.count + 1, m);
    }
  }

  /** A first candidate that alone does not fit leaves the batch empty. */
  lemma FirstAlone(cs: seq<Slot>, r: Sizing, limit: nat)
    requires Batched(cs, 0, Slot(0, 0), r, limit)
    ensures cs != [] && !BatchFits(1, cs[0], limit) ==> r.count == 0
  {
    if cs != [] {
      assert PrefixSum(cs, 1) == Plus(Slot(0, 0), cs[0]);
      ZeroPlus(cs[0]);
    }
  }

  /** One step of the sizing loop. */
  lemma SizeStep(es: seq<Entry>, limit: nat, i: nat, count: nat, acc: Slot)
    requires i < |es|
    ensures Skipped(es[i].sizes) ==> SizeFrom(es, limit, i, count, acc) == SizeFrom(es, limit, i + 1, count, acc)
    ensures !Skipped(es[i].sizes) && !BatchFits(count + 1, Plus(acc, SlotOf(es[i])), limit) ==>
      SizeFrom(es, limit, i, count, acc) == Sizing(count, acc, i + 1, true)
    ensures !Skipped(es[i].sizes) && BatchFits(count + 1, Plus(acc, SlotOf(es[i])), limit) ==>
      SizeFrom(es, limit, i, count, acc) == SizeFrom(es, limit, i + 1, count + 1, Plus(acc, SlotOf(es[i])))
  {
  }

  /** The sizing loop at the end of the list. */
  lemma SizeEnd(es: seq<Entry>, limit: nat, count: nat, acc: Slot)
    ensures SizeFrom(es, limit, |es|, count, acc) == Sizing(count, acc, |es|, false)
  {
  }

  ghost function EntryOf(t: TagInfo): Entry
    reads t
  {
    Entry(t.sizes, t.doWrite, t.isWriting)
  }

  ghost function Entries(ts: seq<TagInfo>): (es: seq<Entry>)
    reads set t | t in ts
    ensures |es| == |ts| && forall k {:trigger EntryOf(ts[k])} | 0 <= k < |ts| :: es[k] == EntryOf(ts[k])
  {
    if ts == [] then [] else [EntryOf(ts[0])] + Entries(ts[1..])
  }

  /**
   * determine_MultiRequest_count over the tags from the current one to the
   * end of the list: the batch of Size, the sizes of its MultiRequest and
   * MultiResponse (left as they were when no candidate was looked at), and
   * each looked-at tag latched; nothing else of any tag changes.
   */
  method DetermineMultiRequestCount(limit: nat, ts: seq<TagInfo>, prevRequestSize: nat, prevResponseSize: nat)
    returns (count: nat, requestsSize: nat, responsesSize: nat, multiRequestSize: nat, multiResponseSize: nat)
    requires Distinct(ts)
    modifies set t | t in ts
    ensures var r := Size(old(Entries(ts)), limit);
      count == r.count && requestsSize == r.total.request && responsesSize == r.total.response
      && (count > 0 || r.overflow ==>
            multiRequestSize == MultiRequestSize(count, requestsSize)
            && multiResponseSize == MultiResponseSize(count, responsesSize))
      && (count == 0 && !r.overflow ==> multiRequestSize == prevRequestSize && multiResponseSize == prevResponseSize)
      && (forall k | 0 <= k < r.examined :: EntryOf(ts[k]) == Latch(old(EntryOf(ts[k]))))
      && (forall k | r.examined <= k < |ts| :: EntryOf(ts[k]) == old(EntryOf(ts[k])))
    ensures forall k | 0 <= k < |ts| :: ts[k].SameButFlags()
  {
    ghost var es := Entries(ts);
    ghost var r := Size(es, limit);
    count := 0;
    var acc := Slot(0, 0);
    multiRequestSize, multiResponseSize := prevRequestSize, prevResponseSize;
    var k := 0;
    var full := false;
    while k < |ts| && !full
      invariant k <= |ts|
      invariant !full ==> SizeFrom(es, limit, k, count, acc) == r
      invariant full ==> r == Sizing(count, acc, k, true)
      invariant count > 0 || full ==>
        multiRequestSize == MultiRequestSize(count, acc.request) && multiResponseSize == MultiResponseSize(count, acc.response)
      invariant count == 0 && !full ==> multiRequestSize == prevRequestSize && multiResponseSize == prevResponseSize
      invariant forall j | 0 <= j < k :: EntryOf(ts[j]) == Latch(es[j])
      invariant forall j | k <= j < |ts| :: EntryOf(ts[j]) == es[j]
      invariant forall j | 0 <= j < |ts| :: ts[j].SameButFlags()
    {
      var info := ts[k];
      assert es[k] == EntryOf(info);
      if info.sizes.rRequest > 0 && info.sizes.wRequest > 0 {
        var fits, next := SizeTag(info, limit, count, acc, es, k);
        if fits {
          count, acc := count + 1, next;
        } else {
          full := true;
        }
        multiRequestSize, multiResponseSize := MultiRequestSize(count, acc.request), MultiResponseSize(count, acc.response);
      } else {
        SizeStep(es, limit, k, count, acc);
      }
      k := k + 1;
    }
    if !full {
      SizeEnd(es, limit, count, acc);
    }
    requestsSize, responsesSize := acc.request, acc.response;
  }

  /**
   * One tag of determine_MultiRequest_count: a requested write becomes the
   * write in progress and do_write is cleared; the tag's write sizes count
   * for a write, its read sizes otherwise, and the batch grows by the tag
   * only if the grown MultiRequest and MultiResponse fit the limit.
   */
  method SizeTag(info: TagInfo, limit: nat, count: nat, acc: Slot, ghost es: seq<Entry>, ghost k: nat)
    returns (fits: bool, next: Slot)
    requires !Skipped(info.sizes) && k < |es| && es[k] == EntryOf(info)
    modifies info
    ensures EntryOf(info) == Latch(es[k]) && info.SameButFlags()
    ensures next == Plus(acc, SlotOf(es[k]))
    ensures fits <==> BatchFits(count + 1, next, limit)
    ensures fits ==> SizeFrom(es, limit, k, count, acc) == SizeFrom(es, limit, k + 1, count + 1, next)
    ensures !fits ==> SizeFrom(es, limit, k, count, acc) == Sizing(count, acc, k + 1, true)
  {
    SizeStep(es, limit, k, count, acc);
    info.isWriting := info.doWrite || info.isWriting;
    if info.isWriting {
      info.doWrite := false;
      next := Slot(acc.request + info.sizes.wRequest, acc.response + info.sizes.wResponse);
    } else {
      next := Slot(acc.request + info.sizes.rRequest, acc.response + info.sizes.rResponse);
    }
    fits := MultiRequestSize(count + 1, next.request) <= limit && MultiResponseSize(count + 1, next.response) <= limit;
  }

  // ---------------------------------------------------------------
  // Laying out the batch (the request loop of process_ScanList)
  // ---------------------------------------------------------------

  /** The tags the request loop turns into requests: every tag that is not skipped, in list order. */
  function Items(es: seq<Entry>): (r: seq<Entry>)
    ensures |r| <= |es|
    ensures forall j | 0 <= j < |r| :: !Skipped(r[j].sizes)
  {
    if es == [] then []
    else if Skipped(es[0].sizes) then Items(es[1..])
    else [es[0]] + Items(es[1..])
  }

  /** The request a tag adds: a write while it is being written, a read otherwise. */
  function RequestOf(e: Entry): nat
  {
    if e.isWriting then e.sizes.wRequest else e.sizes.rRequest
  }

  /** The sizes of the first `count` requests, as the request loop lays them out. */
  function Plan(es: seq<Entry>, count: nat): (r: seq<nat>)
    requires count <= |Items(es)|
    ensures |r| == count && forall j | 0 <= j < count :: r[j] == RequestOf(Items(es)[j])
  {
    seq(count, j requires 0 <= j < count => RequestOf(Items(es)[j]))
  }

  /**
   * The request loop of process_ScanList: the tags are walked from the
   * batch's first one, a skipped tag is passed over without using a request
   * number, and each of the others gets the next number and a request of
   * its write size when it is being written and of its read size otherwise,
   * until `count` requests are laid out. The bytes of each request are those
   * of MultiRequestItem and MakeReadData or MakeWriteData; here the loop
   * yields their sizes in order.
   */
  method PlanRequests(ts: seq<TagInfo>, count: nat) returns (sizes: seq<nat>)
    requires count <= |Items(Entries(ts))|
    ensures sizes == Plan(Entries(ts), count)
  {
    ghost var es := Entries(ts);
    ghost var done: seq<Entry> := [];
    sizes := [];
    var k := 0;
    while |sizes| < count
      invariant k <= |ts| && |sizes| <= count && |done| == |sizes|
      invariant Items(es) == done + Items(es[k..])
      invariant forall j | 0 <= j < |sizes| :: sizes[j] == RequestOf(done[j])
      decreases |ts| - k
    {
      assert es[k..][1..] == es[k + 1..];
      var info := ts[k];
      assert es[k] == EntryOf(info);
      if info.sizes.rRequest > 0 && info.sizes.wRequest > 0 {
        done := done + [es[k]];
        if info.isWriting {
          sizes := sizes + [info.sizes.wRequest];
        } else {
          sizes := sizes + [info.sizes.rRequest];
        }
      }
      k := k + 1;
    }
  }

  /** Candidates are the slots of the items. */
  lemma {:induction false} CandidateItems(es: seq<Entry>)
    ensures |Candidates(es)| == |Items(es)|
    ensures forall j | 0 <= j < |Items(es)| :: Candidates(es)[j] == SlotOf(Items(es)[j])
  {
    if es != [] {
      CandidateItems(es[1..]);
    }
  }

  /** The batch's requests lie among the tags the sizing loop looked at. */
  lemma {:induction false} CountExamined(es: seq<Entry>, limit: nat, i: nat, c: nat, acc: Slot)
    requires i <= |es|
    ensures var r := SizeFrom(es, limit, i, c, acc);
      c <= r.count && r.count - c <= |Items(es[i..r.examined])|
    decreases |es| - i
  {
    var r := SizeFrom(es, limit, i, c, acc);
    if i < |es| {
      assert es[i..r.examined][1..] == es[i + 1..r.examined];
      if Skipped(es[i].sizes) {
        CountExamined(es, limit, i + 1, c, acc);
      } else if BatchFits(c + 1, Plus(acc, SlotOf(es[i])), limit) {
        CountExamined(es, limit, i + 1, c + 1, Plus(acc, SlotOf(es[i])));
      }
    }
  }

  /** The entries after the sizing loop latched the first `n` of them. */
  ghost predicate LatchedUpTo(post: seq<Entry>, pre: seq<Entry>, n: nat)
  {
    |post| == |pre| && n <= |pre|
    && (forall k | 0 <= k < n :: post[k] == Latch(pre[k]))
    && (forall k | n <= k < |pre| :: post[k] == pre[k])
  }

  /** Latching keeps which tags are items; the items among the first `n` are latched. */
  lemma {:induction false} ItemsLatched(post: seq<Entry>, pre: seq<Entry>, n: nat)
    requires LatchedUpTo(post, pre, n)
    ensures |Items(post)| == |Items(pre)| && |Items(pre[..n])| <= |Items(pre)|
    ensures forall j | 0 <= j < |Items(pre[..n])| :: Items(post)[j] == Latch(Items(pre)[j])
  {
    if pre == [] {
      assert pre[..n] == [];
    } else if n == 0 {
      assert pre[..n] == [];
      ItemsLatched(post[1..], pre[1..], 0);
    } else {
      assert pre[..n][1..] == pre[1..][..n - 1];
      ItemsLatched(post[1..], pre[1..], n - 1);
    }
  }

  /** The request sizes of the first `m` slots. */
  function SlotRequests(cs: seq<Slot>, m: nat): (r: seq<nat>)
    requires m <= |cs|
    ensures |r| == m && forall j | 0 <= j < m :: r[j] == cs[j].request
  {
    seq(m, j requires 0 <= j < m => cs[j].request)
  }

  /** The request sizes of the first `m` slots add up to their prefix sum. */
  lemma {:induction false} SumRequests(cs: seq<Slot>, m: nat)
    requires m <= |cs|
    ensures Sum(SlotRequests(cs, m)) == PrefixSum(cs, m).request
  {
    if m > 0 {
      assert SlotRequests(cs, m)[..m - 1] == SlotRequests(cs, m - 1);
      SumRequests(cs, m - 1);
    }
  }

  /**
   * What the request loop lays out after determine_MultiRequest_count is the
   * batch that was sized: `count` requests, each of the size the sizing loop
   * counted for its tag, so that together they fill exactly the requests
   * size the MultiRequest was sized with.
   */
  lemma BatchPlan(pre: seq<Entry>, post: seq<Entry>, limit: nat)
    requires LatchedUpTo(post, pre, Size(pre, limit).examined)
    ensures var r := Size(pre, limit);
      r.count <= |Candidates(pre)| == |Items(post)|
      && (forall j | 0 <= j < r.count :: Plan(post, r.count)[j] == Candidates(pre)[j].request)
      && Sum(Plan(post, r.count)) == r.total.request
  {
    var r := Size(pre, limit);
    assert pre[0..] == pre;
    CountExamined(pre, limit, 0, 0, Slot(0, 0));
    assert pre[0..r.examined] == pre[..r.examined];
    ItemsLatched(post, pre, r.examined);
    CandidateItems(pre);
    LongestFittingBatch(pre, limit);
    var plan := Plan(post, r.count);
    var cs := Candidates(pre);
    forall j | 0 <= j < r.count
      ensures plan[j] == cs[j].request
    {
      var e := Items(pre)[j];
      assert Items(post)[j] == Latch(e) && !Skipped(e.sizes);
      assert cs[j] == SlotOf(e);
    }
    assert plan == SlotRequests(cs, r.count);
    SumRequests(cs, r.count);
  }

  // ---------------------------------------------------------------
  // Write sizes from a read probe (complete_PLC_ScanList_TagInfos)
  // ---------------------------------------------------------------

  /**
   * The sizes complete_PLC_ScanList_TagInfos gives a tag whose read probe
   * sent `request` bytes and got back a reply of the given size, or failed:
   * a reply of no more than the 4 header bytes allows no write; a longer
   * reply carries the type and data a write sends, and a write's reply is
   * the bare header. A failed probe zeroes all four sizes.
   */
  function ProbeSizes(request: nat, reply: Option<nat>): CipSizes
  {
    if reply.None? then CipSizes(0, 0, 0, 0)
    else if reply.value <= 4 then CipSizes(request, reply.value, 0, 0)
    else CipSizes(request, reply.value, request + (reply.value - 4), 4)
  }

  /** A probed tag is scanned exactly when its probe got a reply longer than the header to a non-empty request. */
  lemma ProbeScanned(request: nat, reply: Option<nat>)
    ensures !Skipped(ProbeSizes(request, reply)) <==> reply.Some? && reply.value > 4 && request > 0
    ensures reply.None? ==> ProbeSizes(request, reply) == CipSizes(0, 0, 0, 0)
  {
  }

  /**
   * The derived write sizes are exact: when the ReadData request for a tag
   * brings back the type and `raw` data bytes, the write request size is
   * that of the WriteData request carrying those bytes, and the write reply
   * size that of a bare WriteData reply.
   */
  lemma ProbedWriteSizes(tl: seq<Segment>, elements: nat, typ: uint16, raw: seq<byte>)
    requires TypeSize(typ) * elements == |raw|
    ensures var reply := MRResponse(S_ReadData + 0x80, 0, [], LE(typ, 2) + raw);
      var s := ProbeSizes(|ReadDataBytes(tl, elements)|, Some(|reply|));
      s.rResponse == |reply| && s.wRequest == WriteDataSize(tl, |raw|) == |WriteDataBytes(tl, typ, elements, raw)|
      && s.wResponse == |MRResponse(S_WriteData + 0x80, 0, [], [])|
  {
    ReadDataLayout(tl, elements);
    WriteSizeFromRead(tl, |raw|);
  }

  /** The size of the reply to a tag's probe, from the probes that were answered; None when EIP_read_tag fails. */
  function Answer(answers: map<string, nat>, stringTag: string): Option<nat>
  {
    if stringTag in answers then Some(answers[stringTag]) else None
  }

  /** What complete_PLC_ScanList_TagInfos leaves in a tag, given the answered probes. */
  ghost predicate Completed(t: TagInfo, answers: map<string, nat>)
    reads t
  {
    t.sizes == ProbeSizes(ReadDataSize(t.tag), Answer(answers, t.stringTag))
  }

  /** Some tag of the list got an answer to its probe. */
  predicate Answered(ts: seq<TagInfo>, answers: map<string, nat>)
  {
    exists k | 0 <= k < |ts| :: ts[k].stringTag in answers
  }

  /**
   * The inner loop of complete_PLC_ScanList_TagInfos: every tag of one scan
   * list is probed and gets its sizes; returns the tags tried and the
   * probes that were answered. Nothing else of a tag changes.
   */
  method CompleteList(ts: seq<TagInfo>, answers: map<string, nat>) returns (tried: nat, succeeded: nat)
    modifies set t | t in ts
    ensures tried == |ts| && (succeeded > 0 <==> Answered(ts, answers))
    ensures forall k | 0 <= k < |ts| :: Completed(ts[k], answers) && ts[k].SameButSizes()
  {
    tried, succeeded := 0, 0;
    var k := 0;
    while k < |ts|
      invariant k <= |ts| && tried == k
      invariant succeeded > 0 <==> exists j | 0 <= j < k :: ts[j].stringTag in answers
      invariant forall j | 0 <= j < |ts| :: ts[j].SameButSizes() && (j < k ==> Completed(ts[j], answers))
    {
      var info := ts[k];
      tried := tried + 1;
      var answered := ProbeTag(info, answers);
      if answered {
        succeeded := succeeded + 1;
      }
      k := k + 1;
    }
  }

  /** The body of that loop for one tag: its probe and the sizes derived from it. */
  method ProbeTag(info: TagInfo, answers: map<string, nat>) returns (answered: bool)
    modifies info
    ensures answered <==> info.stringTag in answers
    ensures Completed(info, answers) && info.SameButSizes()
  {
    var r := Answer(answers, info.stringTag);
    answered := r.Some?;
    if r.Some? {
      var request, response := ReadDataSize(info.tag), r.value;
      if response <= 4 {
        info.sizes := CipSizes(request, response, 0, 0);
      } else {
        info.sizes := CipSizes(request, response, request + (response - 4), 4);
      }
    } else {
      info.sizes := CipSizes(0, 0, 0, 0);
    }
  }

  /**
   * complete_PLC_ScanList_TagInfos: every tag of every scan list is probed
   * and gets its sizes; the result is whether some probe was answered or
   * there was no tag to probe.
   */
  method CompletePLCTagInfos(plc: PLC, answers: map<string, nat>) returns (ok: bool)
    modifies plc.Tags()
    ensures ok <==> (forall i | 0 <= i < |plc.scanlists| :: plc.scanlists[i].taginfos == [])
                    || (exists i | 0 <= i < |plc.scanlists| :: Answered(plc.scanlists[i].taginfos, answers))
    ensures forall t | t in plc.Tags() :: Completed(t, answers) && t.SameButSizes()
  {
    ghost var L := plc.Layout();
    var tried, succeeded := 0, 0;
    var i := 0;
    while i < |plc.scanlists|
      invariant i <= |L| == |plc.scanlists| && plc.Layout() == L
      invariant tried == 0 <==> forall j | 0 <= j < i :: L[j].tags == []
      invariant succeeded > 0 <==> exists j | 0 <= j < i :: Answered(L[j].tags, answers)
      invariant forall j, a | 0 <= j < |L| && 0 <= a < |L[j].tags| ::
        L[j].tags[a].SameButSizes() && (j < i ==> Completed(L[j].tags[a], answers))
    {
      var n, m := CompleteList(plc.scanlists[i].taginfos, answers);
      tried, succeeded := tried + n, succeeded + m;
      i := i + 1;
    }
    ok := succeeded > 0 || tried == 0;
  }

  // ---------------------------------------------------------------
  // Replies (the distributing half of process_ScanList)
  // ---------------------------------------------------------------

  /** What a reply can change of a tag: its buffer, the valid part of it, and the write in progress. */
  datatype TagValue = TagValue(dataSize: nat, validDataSize: nat, data: seq<byte>, isWriting: bool)

  ghost function ValueOf(t: TagInfo): (v: TagValue)
    reads t
    ensures Holds(v) <==> t.Valid()
  {
    TagValue(t.dataSize, t.validDataSize, t.data, t.isWriting)
  }

  /** The buffer holds data_size bytes, of which the first valid_data_size are a value. */
  predicate Holds(v: TagValue)
  {
    |v.data| == v.dataSize && v.validDataSize <= v.dataSize
  }

  /** The size of the data a read reply hands over: 0 when check_CIP_ReadData_Response refuses the reply. */
  function ReadSize(reply: seq<byte>, replySize: nat): nat
    requires |reply| >= 4
  {
    var c := CheckReadDataResponse(reply, replySize);
    if c.Some? then c.value.1 else 0
  }

  /** reserve_tag_data on a value: the buffer grows to `requested` zero bytes, unless that is `bufferSize` or more. */
  function Reserve(v: TagValue, requested: nat, bufferSize: nat): Option<TagValue>
  {
    if v.dataSize >= requested then Some(v)
    else if requested >= bufferSize then None
    else Some(v.(dataSize := requested, data := Zeros(requested)))
  }

  /**
   * A reply whose announced size runs past the bytes received (sizes taken
   * from an offset table that wrapped around in size_t) but whose data would
   * need a buffer of `bufferSize` bytes or more: reserve_tag_data refuses it,
   * so only its 4-byte header is ever read.
   */
  predicate Oversize(reply: seq<byte>, replySize: nat, bufferSize: nat)
    requires |reply| >= 4
  {
    replySize >= bufferSize + 4 + 2 * (reply[3] as int)
  }

  /**
   * A reply process_ScanList can hand to a tag without reading past the
   * bytes received: it lies inside them, or it is oversize and the tag's
   * buffer is below `bufferSize`, as reserve_tag_data keeps every buffer.
   */
  predicate ReplyUsable(v: TagValue, reply: seq<byte>, replySize: nat, bufferSize: nat)
    requires |reply| >= 4
  {
    replySize <= |reply| || (v.dataSize < bufferSize && Oversize(reply, replySize, bufferSize))
  }

  /**
   * A tag after process_ScanList has handled its reply. A write in progress
   * ends, and the value stays valid only if the write was accepted. A read
   * is discarded when device support asked for a write meanwhile
   * (`doWrite`). Otherwise the data of an accepted read goes to the start of
   * the buffer, grown if need be, and all of it is valid; when the reply is
   * refused, brings no data or needs a buffer of `bufferSize` bytes or more,
   * no part of the value is valid. The buffer stays consistent either way.
   */
  function AfterReply(v: TagValue, doWrite: bool, reply: seq<byte>, replySize: nat, bufferSize: nat): (r: TagValue)
    requires Holds(v) && |reply| >= 4 && ReplyUsable(v, reply, replySize, bufferSize)
    ensures Holds(r) && !r.isWriting
    ensures v.dataSize < bufferSize ==> r.dataSize < bufferSize
  {
    if v.isWriting then
      v.(isWriting := false, validDataSize := if CheckWriteDataResponse(reply) then v.validDataSize else 0)
    else if doWrite then v
    else
      var n := ReadSize(reply, replySize);
      var w := Reserve(v, n, bufferSize);
      if n > 0 && w.Some? then
        var at := CheckReadDataResponse(reply, replySize).value.0;
        w.value.(data := reply[at..at + n] + w.value.data[n..], validDataSize := n)
      else v.(validDataSize := 0)
  }

  /**
   * One tag's reply in process_ScanList, under the tag's data lock: the
   * check of a write reply, or the check of a read reply and the copy of
   * its data; data_size counts as 0 for a refused read reply.
   */
  method HandleReply(info: TagInfo, reply: seq<byte>, replySize: nat, bufferSize: nat)
    requires info.Valid() && |reply| >= 4 && ReplyUsable(ValueOf(info), reply, replySize, bufferSize)
    modifies info
    ensures info.Valid() && info.SameButValue()
    ensures ValueOf(info) == AfterReply(old(ValueOf(info)), info.doWrite, reply, replySize, bufferSize)
  {
    if info.isWriting {
      if !CheckWriteDataResponse(reply) {
        info.validDataSize := 0;
      }
      info.isWriting := false;
    } else {
      var data := CheckReadDataResponse(reply, replySize);
      var dataSize := if data.Some? then data.value.1 else 0;
      if !info.doWrite {
        var ok := false;
        if dataSize > 0 {
          ok := info.ReserveTagData(dataSize, bufferSize);
        }
        if ok {
          var at := data.value.0;
          info.data := reply[at..at + dataSize] + info.data[dataSize..];
          info.validDataSize := dataSize;
        } else {
          info.validDataSize := 0;
        }
      }
    }
  }

  /**
   * An accepted read reply whose data the buffer can take becomes the
   * tag's value: exactly the reply's data, all of it valid, in a buffer
   * grown to hold it.
   */
  lemma ReadReplyStored(v: TagValue, ext: seq<uint16>, payload: seq<byte>, bufferSize: nat)
    requires Holds(v) && !v.isWriting && |ext| < 0x100
    requires 0 < |payload| && (|payload| <= v.dataSize || |payload| < bufferSize)
    ensures var reply := MRResponse(S_ReadData + 0x80, 0, ext, payload);
      var r := AfterReply(v, false, reply, |reply|, bufferSize);
      r.validDataSize == |payload| && r.data[..|payload|] == payload && r.dataSize == Max(v.dataSize, |payload|)
  {
    var reply := MRResponse(S_ReadData + 0x80, 0, ext, payload);
    ReadReplyData(0, ext, payload);
    assert ReadSize(reply, |reply|) == |payload|;
  }

  /**
   * A read reply that is refused, carries no data, or needs a buffer of
   * `bufferSize` bytes or more leaves the tag with no valid value and its
   * buffer as it was.
   */
  lemma ReadReplyLost(v: TagValue, reply: seq<byte>, replySize: nat, bufferSize: nat)
    requires Holds(v) && !v.isWriting && |reply| >= 4 && replySize <= |reply|
    requires CheckReadDataResponse(reply, replySize).None? || replySize <= 4 + 2 * (reply[3] as int)
      || (v.dataSize < replySize - (4 + 2 * (reply[3] as int)) && replySize - (4 + 2 * (reply[3] as int)) >= bufferSize)
    ensures AfterReply(v, false, reply, replySize, bufferSize) == v.(validDataSize := 0)
  {
  }

  /**
   * A read reply that runs past the bytes received is never copied: the
   * buffer it would need is refused, and the tag is left with no valid value.
   */
  lemma OversizeReplyLost(v: TagValue, reply: seq<byte>, replySize: nat, bufferSize: nat)
    requires Holds(v) && !v.isWriting && |reply| >= 4 && v.dataSize < bufferSize
    requires |reply| < replySize && Oversize(reply, replySize, bufferSize)
    ensures AfterReply(v, false, reply, replySize, bufferSize) == v.(validDataSize := 0)
  {
    if CheckReadDataResponse(reply, replySize).Some? {
      assert ReadSize(reply, replySize) >= bufferSize;
    }
  }

  /** A read reply that arrives after device support asked for a write changes nothing. */
  lemma ReadDuringWrite(v: TagValue, reply: seq<byte>, replySize: nat, bufferSize: nat)
    requires Holds(v) && !v.isWriting && |reply| >= 4 && replySize <= |reply|
    ensures AfterReply(v, true, reply, replySize, bufferSize) == v
  {
  }

  /** A write reply ends the write; the value stays valid only when the controller accepted it with status 0. */
  lemma WriteReplyEnds(v: TagValue, doWrite: bool, status: byte, ext: seq<uint16>, bufferSize: nat)
    requires Holds(v) && v.isWriting && |ext| < 0x100
    ensures var reply := MRResponse(S_WriteData + 0x80, status, ext, []);
      var r := AfterReply(v, doWrite, reply, |reply|, bufferSize);
      !r.isWriting && r.data == v.data && r.dataSize == v.dataSize
      && (status == 0 ==> r.validDataSize == v.validDataSize) && (status != 0 ==> r.validDataSize == 0)
  {
    var reply := MRResponse(S_WriteData + 0x80, status, ext, []);
    assert reply[0] == S_WriteData + 0x80 && reply[2] == status;
  }

  /**
   * The data_size process_ScanList uses for a read reply, as written:
   * check_CIP_ReadData_Response sets it only for an accepted reply, so a
   * refused one leaves whatever it held before, the size of the last
   * accepted reply.
   */
  function DataSizeAsWritten(reply: seq<byte>, replySize: nat, previous: nat): nat
    requires |reply| >= 4
  {
    var c := CheckReadDataResponse(reply, replySize);
    if c.Some? then c.value.1 else previous
  }

  /**
   * Two read replies in one batch, the first accepted with a DINT, the
   * second refused with status 5 (path destination unknown): as written,
   * the second goes to reserve_tag_data and memcpy with the first one's 6
   * bytes and a null data pointer. Handled as AfterReply does, the refused
   * reply leaves its tag without a valid value.
   */
  lemma StaleDataSize(v: TagValue, bufferSize: nat)
    requires Holds(v) && !v.isWriting
    ensures var first := MRResponse(S_ReadData + 0x80, 0, [], [0xC4, 0, 1, 0, 0, 0]);
      var second := MRResponse(S_ReadData + 0x80, 5, [], []);
      CheckReadDataResponse(second, |second|).None?
      && DataSizeAsWritten(second, |second|, DataSizeAsWritten(first, |first|, 0)) == 6
      && AfterReply(v, false, second, |second|, bufferSize) == v.(validDataSize := 0)
  {
    var first := MRResponse(S_ReadData + 0x80, 0, [], [0xC4, 0, 1, 0, 0, 0]);
    var second := MRResponse(S_ReadData + 0x80, 5, [], []);
    assert first[0] == S_ReadData + 0x80 && first[2] == 0 && first[3] == 0;
    assert second[2] == 5;
  }

  /** How many of the first `k` tags are scanned: the number of the reply the next scanned tag gets. */
  function Rank(ss: seq<CipSizes>, k: nat): nat
    requires k <= |ss|
  {
    if k == 0 then 0 else Rank(ss, k - 1) + (if Skipped(ss[k - 1]) then 0 else 1)
  }

  /** Later tags never have a smaller rank. */
  lemma {:induction false} RankGrows(ss: seq<CipSizes>, j: nat, k: nat)
    requires j <= k <= |ss|
    ensures Rank(ss, j) <= Rank(ss, k)
    decreases k
  {
    if j < k {
      RankGrows(ss, j, k - 1);
    }
  }

  ghost function SizesOf(ts: seq<TagInfo>): (ss: seq<CipSizes>)
    reads set t | t in ts
    ensures |ss| == |ts| && forall k | 0 <= k < |ts| :: ss[k] == ts[k].sizes
  {
    seq(|ts|, k reads set t | t in ts requires 0 <= k < |ts| => ts[k].sizes)
  }

  /** The number of replies a multiple reply announces. */
  function RepliesIn(response: seq<byte>): nat
    requires HasReplyTable(response)
  {
    UnpackUINT(response, ReplyCountPos(response)).0
  }

  /**
   * The header of reply `i` lies inside the bytes received, and so does the
   * rest of it unless it is oversize (its size wrapped around in size_t and
   * reserve_tag_data refuses its data). The driver trusts the controller
   * for this; an offset that points past the bytes received makes it read
   * past them.
   */
  predicate ReplyInside(response: seq<byte>, responseSize: nat, bufferSize: nat, i: nat)
    requires HasReplyTable(response)
  {
    var r := GetMultiResponse(response, responseSize, i);
    r.Some? ==>
      r.value.0 + 4 <= |response|
      && (r.value.0 + r.value.1 <= |response| || r.value.1 >= bufferSize + 4 + 2 * (response[r.value.0 + 3] as int))
  }

  /** Reply `i` of a multiple reply: its bytes from its start on, and its size. */
  function SubReply(response: seq<byte>, responseSize: nat, bufferSize: nat, i: nat): (r: (seq<byte>, nat))
    requires HasReplyTable(response) && i < RepliesIn(response) && ReplyInside(response, responseSize, bufferSize, i)
    ensures |r.0| >= 4 && (r.1 <= |r.0| || Oversize(r.0, r.1, bufferSize))
  {
    var loc := GetMultiResponse(response, responseSize, i).value;
    (response[loc.0..], loc.1)
  }

  /**
   * The reply each tag gets, from the tag whose reply would be number
   * `rank` on: none for a skipped tag or once `n` replies are given out;
   * the scanned tags get consecutive numbers.
   */
  function Numbering(ss: seq<CipSizes>, rank: nat, n: nat): (r: seq<Option<nat>>)
    ensures |r| == |ss|
    ensures forall j | 0 <= j < |r| :: r[j].Some? ==> rank <= r[j].value < n
    decreases |ss|
  {
    if ss == [] then []
    else
      [if Skipped(ss[0]) || rank >= n then None else Some(rank)]
      + Numbering(ss[1..], if Skipped(ss[0]) then rank else rank + 1, n)
  }

  /** Counting from the second tag on. */
  lemma {:induction false} RankTail(ss: seq<CipSizes>, k: nat)
    requires 0 < k <= |ss|
    ensures Rank(ss, k) == (if Skipped(ss[0]) then 0 else 1) + Rank(ss[1..], k - 1)
  {
    if k > 1 {
      RankTail(ss, k - 1);
      assert ss[1..][k - 2] == ss[k - 1];
    }
  }

  /** A scanned tag gets the reply numbered by the count of scanned tags before it, while that is below `n`. */
  lemma {:induction false} NumberingRank(ss: seq<CipSizes>, rank: nat, n: nat, k: nat)
    requires k < |ss|
    ensures Numbering(ss, rank, n)[k] ==
      if Skipped(ss[k]) || rank + Rank(ss, k) >= n then None else Some(rank + Rank(ss, k))
    decreases k
  {
    if k > 0 {
      var next := if Skipped(ss[0]) then rank else rank + 1;
      NumberingRank(ss[1..], next, n, k - 1);
      RankTail(ss, k);
      assert Numbering(ss, rank, n)[k] == Numbering(ss[1..], next, n)[k - 1];
    }
  }

  /** What one more tag adds to the rank, and to the callbacks fired. */
  lemma NumberingNext(ss: seq<CipSizes>, cbs: seq<seq<TagCallback>>, n: nat, k: nat)
    requires k < |ss| == |cbs|
    ensures Rank(ss, k + 1) == Rank(ss, k) + if Skipped(ss[k]) then 0 else 1
    ensures Numbering(ss, 0, n)[k] == if Skipped(ss[k]) || Rank(ss, k) >= n then None else Some(Rank(ss, k))
    ensures Fired(cbs, Numbering(ss, 0, n), k + 1) ==
      Fired(cbs, Numbering(ss, 0, n), k) + if Numbering(ss, 0, n)[k].Some? then cbs[k] else []
  {
    NumberingRank(ss, 0, n, k);
  }

  /** Once the tags before `k` have used up the `n` replies, no later tag gets one. */
  lemma NumberingBeyond(ss: seq<CipSizes>, n: nat, k: nat)
    requires k <= |ss| && Rank(ss, k) >= n
    ensures forall j | k <= j < |ss| :: Numbering(ss, 0, n)[j].None?
  {
    forall j | k <= j < |ss|
      ensures Numbering(ss, 0, n)[j].None?
    {
      NumberingRank(ss, 0, n, j);
      RankGrows(ss, k, j);
    }
  }

  ghost function CallbacksOf(ts: seq<TagInfo>): (cs: seq<seq<TagCallback>>)
    reads set t | t in ts
    ensures |cs| == |ts| && forall k | 0 <= k < |ts| :: cs[k] == ts[k].callbacks
  {
    seq(|ts|, k reads set t | t in ts requires 0 <= k < |ts| => ts[k].callbacks)
  }

  /** The callbacks of the first `k` tags that get a reply, in list order. */
  function Fired(cbs: seq<seq<TagCallback>>, nums: seq<Option<nat>>, k: nat): seq<TagCallback>
    requires k <= |cbs| && k <= |nums|
  {
    if k == 0 then [] else Fired(cbs, nums, k - 1) + (if nums[k - 1].Some? then cbs[k - 1] else [])
  }

  /** Tags that get no reply add no callbacks. */
  lemma {:induction false} FiredRest(cbs: seq<seq<TagCallback>>, nums: seq<Option<nat>>, k: nat, m: nat)
    requires k <= m <= |cbs| && m <= |nums| && forall j | k <= j < m :: nums[j].None?
    ensures Fired(cbs, nums, m) == Fired(cbs, nums, k)
    decreases m
  {
    if k < m {
      FiredRest(cbs, nums, k, m - 1);
    }
  }

  /** What the reply loop leaves in a tag that held `v` and gets the reply numbered `num`, if any. */
  function Outcome(v: TagValue, doWrite: bool, num: Option<nat>, response: seq<byte>, responseSize: nat, bufferSize: nat): (r: TagValue)
    requires Holds(v) && v.dataSize < bufferSize && HasReplyTable(response)
    requires num.Some? ==> num.value < RepliesIn(response) && ReplyInside(response, responseSize, bufferSize, num.value)
    ensures Holds(r)
  {
    if num.Some? then
      var r := SubReply(response, responseSize, bufferSize, num.value);
      AfterReply(v, doWrite, r.0, r.1, bufferSize)
    else v
  }

  ghost function ValuesOf(ts: seq<TagInfo>): (vs: seq<TagValue>)
    reads set t | t in ts
    ensures |vs| == |ts| && forall k | 0 <= k < |ts| :: vs[k] == ValueOf(ts[k])
  {
    seq(|ts|, k reads set t | t in ts requires 0 <= k < |ts| => ValueOf(ts[k]))
  }

  /** What a reply leaves alone in a tag. */
  datatype Setup = Setup(scanlist: ScanList?, elements: size_t, sizes: CipSizes, callbacks: seq<TagCallback>, doWrite: bool)

  ghost function SetupOf(t: TagInfo): Setup
    reads t
  {
    Setup(t.scanlist, t.elements, t.sizes, t.callbacks, t.doWrite)
  }

  ghost function SetupsOf(ts: seq<TagInfo>): (us: seq<Setup>)
    reads set t | t in ts
    ensures |us| == |ts| && forall k | 0 <= k < |ts| :: us[k] == SetupOf(ts[k])
  {
    seq(|ts|, k reads set t | t in ts requires 0 <= k < |ts| => SetupOf(ts[k]))
  }

  /** The value every tag of a list ends with, given the numbering of the replies. */
  ghost function Outcomes(before: seq<TagValue>, setups: seq<Setup>, nums: seq<Option<nat>>,
                          response: seq<byte>, responseSize: nat, bufferSize: nat): (r: seq<TagValue>)
    requires |before| == |setups| == |nums| && HasReplyTable(response)
    requires forall j | 0 <= j < |before| :: Holds(before[j]) && before[j].dataSize < bufferSize
    requires forall j | 0 <= j < |nums| :: nums[j].Some? ==>
      nums[j].value < RepliesIn(response) && ReplyInside(response, responseSize, bufferSize, nums[j].value)
    ensures |r| == |before|
    ensures forall j | 0 <= j < |r| :: r[j] == Outcome(before[j], setups[j].doWrite, nums[j], response, responseSize, bufferSize)
  {
    seq(|before|, j requires 0 <= j < |before| => Outcome(before[j], setups[j].doWrite, nums[j], response, responseSize, bufferSize))
  }

  /**
   * One scanned tag of the reply loop: when the multiple reply holds reply
   * `i`, the tag gets it and ends with its outcome; otherwise nothing changes.
   */
  method ReplyToTag(ts: seq<TagInfo>, k: nat, i: nat, response: seq<byte>, responseSize: nat, bufferSize: nat,
                    ghost setups: seq<Setup>, ghost before: seq<TagValue>, ghost after: seq<TagValue>)
    returns (got: bool)
    requires k < |ts| == |setups| == |before| == |after| && Holds(before[k]) && before[k].dataSize < bufferSize
    requires forall j | 0 <= j < |ts| && j != k :: ts[j] != ts[k]
    requires HasReplyTable(response) && ReplyInside(response, responseSize, bufferSize, i)
    requires forall j | 0 <= j < |ts| :: SetupOf(ts[j]) == setups[j] && ValueOf(ts[j]) == (if j < k then after[j] else before[j])
    requires i < RepliesIn(response) ==>
      after[k] == Outcome(before[k], setups[k].doWrite, Some(i), response, responseSize, bufferSize)
    modifies ts[k]
    ensures got <==> i < RepliesIn(response)
    ensures forall j | 0 <= j < |ts| ::
      SetupOf(ts[j]) == setups[j] && ValueOf(ts[j]) == (if j < k || (got && j == k) then after[j] else before[j])
  {
    var r := GetMultiResponse(response, responseSize, i);
    if r.None? {
      return false;
    }
    var info := ts[k];
    HandleReply(info, response[r.value.0..], r.value.1, bufferSize);
    assert ValueOf(info) == after[k];
    got := true;
  }

  /**
   * The loop of DistributeReplies, over values captured before it: the
   * sizes, setups, callbacks and values of the tags, the numbering of the
   * replies and the outcome every tag is to end with.
   */
  method ReplyLoop(ts: seq<TagInfo>, count: nat, response: seq<byte>, responseSize: nat, bufferSize: nat,
                   ghost ss: seq<CipSizes>, ghost setups: seq<Setup>, ghost cbs: seq<seq<TagCallback>>,
                   ghost before: seq<TagValue>, ghost n: nat, ghost nums: seq<Option<nat>>, ghost after: seq<TagValue>,
                   ghost pos: map<TagInfo, nat>)
    returns (ok: bool, next: nat, fired: seq<TagCallback>)
    requires |ss| == |setups| == |cbs| == |before| == |after| == |ts|
    requires forall j | 0 <= j < |ts| :: ts[j] in pos && pos[ts[j]] == j
    requires forall j {:trigger setups[j]} | 0 <= j < |ts| ::
      ss[j] == setups[j].sizes && cbs[j] == setups[j].callbacks && Holds(before[j]) && before[j].dataSize < bufferSize
    requires forall j | 0 <= j < |ts| :: SetupOf(ts[j]) == setups[j] && ValueOf(ts[j]) == before[j]
    requires HasReplyTable(response) && forall i | 0 <= i < count :: ReplyInside(response, responseSize, bufferSize, i)
    requires count <= Rank(ss, |ts|) && n == Min(count, RepliesIn(response)) && nums == Numbering(ss, 0, n)
    requires forall j | 0 <= j < |ts| :: after[j] == Outcome(before[j], setups[j].doWrite, nums[j], response, responseSize, bufferSize)
    modifies set t | t in ts
    ensures ok <==> count <= RepliesIn(response)
    ensures next <= |ts| && (ok ==> Rank(ss, next) == count)
    ensures ok && count > 0 ==> 0 < next && !Skipped(ss[next - 1])
    ensures forall j | 0 <= j < |ts| :: SetupOf(ts[j]) == setups[j] && ValueOf(ts[j]) == after[j]
    ensures fired == Fired(cbs, nums, |ts|)
  {
    var k, i := 0, 0;
    ok, next, fired := true, 0, [];
    while i < count
      invariant ok && k <= |ts| && i == Rank(ss, k) && i <= count && i <= RepliesIn(response)
      invariant forall j | 0 <= j < |ts| :: SetupOf(ts[j]) == setups[j] && ValueOf(ts[j]) == (if j < k then after[j] else before[j])
      invariant fired == Fired(cbs, nums, k)
      invariant i == count && count > 0 ==> 0 < k && !Skipped(ss[k - 1])
      decreases |ts| - k
    {
      var info := ts[k];
      NumberingNext(ss, cbs, n, k);
      if info.sizes.rRequest == 0 || info.sizes.wRequest == 0 {
        k := k + 1;
        continue;
      }
      assert ReplyInside(response, responseSize, bufferSize, i);
      var got := ReplyToTag(ts, k, i, response, responseSize, bufferSize, setups, before, after);
      if !got {
        NumberingBeyond(ss, n, k);
        FiredRest(cbs, nums, k, |ts|);
        ok, next := false, k;
        break;
      }
      fired := fired + info.callbacks;
      i, k := i + 1, k + 1;
    }
    if ok {
      NumberingBeyond(ss, n, k);
      FiredRest(cbs, nums, k, |ts|);
      next := k;
    }
  }

  /**
   * The reply loop of process_ScanList: the `count` scanned tags from the
   * current one on get replies 0, 1, ... in list order (Numbering) and are
   * handled as AfterReply says, their callbacks called in that order;
   * skipped tags are passed over. When the reply holds fewer replies than
   * `count`, the loop stops at the first tag without one and fails. On
   * success `next` is the tag after the last one handled.
   */
  method DistributeReplies(ts: seq<TagInfo>, count: nat, response: seq<byte>, responseSize: nat, bufferSize: nat)
    returns (ok: bool, next: nat, fired: seq<TagCallback>)
    requires Distinct(ts) && count <= Rank(SizesOf(ts), |ts|)
    requires HasReplyTable(response) && forall i | 0 <= i < count :: ReplyInside(response, responseSize, bufferSize, i)
    requires forall k | 0 <= k < |ts| :: ts[k].Valid() && ts[k].dataSize < bufferSize
    modifies set t | t in ts
    ensures ok <==> count <= RepliesIn(response)
    ensures next <= |ts| && (ok ==> Rank(old(SizesOf(ts)), next) == count)
    ensures ok && count > 0 ==> 0 < next && !Skipped(old(ts[next - 1].sizes))
    ensures forall k | 0 <= k < |ts| :: ts[k].Valid() && ts[k].SameButValue()
    ensures var nums := Numbering(old(SizesOf(ts)), 0, Min(count, RepliesIn(response)));
      forall k | 0 <= k < |ts| ::
        ValueOf(ts[k]) == Outcome(old(ValueOf(ts[k])), old(ts[k].doWrite), nums[k], response, responseSize, bufferSize)
    ensures fired == Fired(old(CallbacksOf(ts)), Numbering(old(SizesOf(ts)), 0, Min(count, RepliesIn(response))), |ts|)
  {
    ghost var ss, before, setups, cbs := SizesOf(ts), ValuesOf(ts), SetupsOf(ts), CallbacksOf(ts);
    assert forall j | 0 <= j < |ts| ::
      ss[j] == setups[j].sizes && cbs[j] == setups[j].callbacks && Holds(before[j]) && before[j].dataSize < bufferSize;
    ghost var n := Min(count, RepliesIn(response));
    ghost var nums := Numbering(ss, 0, n);
    ghost var after := Outcomes(before, setups, nums, response, responseSize, bufferSize);
    ghost var pos := map j | 0 <= j < |ts| :: ts[j] := j;
    ok, next, fired := ReplyLoop(ts, count, response, responseSize, bufferSize, ss, setups, cbs, before, n, nums, after, pos);
    forall j | 0 <= j < |ts|
      ensures ts[j].Valid() && ts[j].SameButValue()
    {
      assert SetupOf(ts[j]) == setups[j] && Holds(ValueOf(ts[j]));
    }
  }

  // ---------------------------------------------------------------
  // Invalidation (invalidate_PLC_tags, disconnect_PLC)
  // ---------------------------------------------------------------

  /** A tag after invalidate_PLC_tags: no write in progress and no valid data; the buffer stays. */
  function Invalidated(v: TagValue): TagValue
  {
    v.(isWriting := false, validDataSize := 0)
  }

  /** The value a tag held, or that value invalidated. */
  predicate KeptOrInvalidated(now: TagValue, before: TagValue)
  {
    now == before || now == Invalidated(before)
  }

  /**
   * Invalidating leaves a consistent buffer consistent, is idempotent, and
   * leaves nothing that reads as a value or as a pending write.
   */
  lemma InvalidatedHolds(v: TagValue)
    ensures Holds(v) ==> Holds(Invalidated(v))
    ensures Invalidated(Invalidated(v)) == Invalidated(v)
    ensures Invalidated(v).validDataSize == 0 && !Invalidated(v).isWriting
    ensures Invalidated(v).data == v.data && Invalidated(v).dataSize == v.dataSize
  {
  }

  /** The callbacks of a list of tags, tag by tag in list order. */
  function Flatten(css: seq<seq<TagCallback>>): (r: seq<TagCallback>)
    ensures |css| == 0 ==> r == []
  {
    if css == [] then [] else Flatten(css[..|css| - 1]) + css[|css| - 1]
  }

  /** One more tag's callbacks at the end. */
  lemma FlattenStep(css: seq<seq<TagCallback>>, k: nat)
    requires k < |css|
    ensures Flatten(css[..k + 1]) == Flatten(css[..k]) + css[k]
  {
    assert css[..k + 1][..k] == css[..k];
  }

  /** One tag of invalidate_PLC_tags: the flags are reset, nothing else of the tag changes. */
  method InvalidateTag(info: TagInfo)
    modifies info
    ensures ValueOf(info) == Invalidated(old(ValueOf(info))) && SetupOf(info) == old(SetupOf(info))
  {
    info.isWriting := false;
    info.validDataSize := 0;
  }

  /**
   * The inner loop of invalidate_PLC_tags over one scan list: every tag
   * is invalidated and its callbacks are called, in list order.
   */
  method InvalidateList(ts: seq<TagInfo>) returns (fired: seq<TagCallback>)
    modifies set t | t in ts
    ensures forall t | t in ts :: SetupOf(t) == old(SetupOf(t)) && ValueOf(t) == Invalidated(old(ValueOf(t)))
    ensures fired == Flatten(old(CallbacksOf(ts)))
  {
    ghost var cbs := CallbacksOf(ts);
    fired := [];
    var k := 0;
    while k < |ts|
      invariant k <= |ts| && fired == Flatten(cbs[..k])
      invariant forall t | t in ts ::
        && SetupOf(t) == old(SetupOf(t))
        && if t in ts[..k] then ValueOf(t) == Invalidated(old(ValueOf(t)))
           else KeptOrInvalidated(ValueOf(t), old(ValueOf(t)))
    {
      InvalidateTag(ts[k]);
      FlattenStep(cbs, k);
      fired := fired + ts[k].callbacks;
      assert ts[..k + 1] == ts[..k] + [ts[k]];
      k := k + 1;
    }
    assert ts[..k] == ts;
    assert cbs[..k] == cbs;
  }

  /** The callbacks of every tag of every scan list, list by list. */
  ghost function CallbackTable(lists: seq<ScanList>): (table: seq<seq<seq<TagCallback>>>)
    reads lists`taginfos, set l, t | l in lists && t in l.taginfos :: t
    ensures |table| == |lists|
    ensures forall i | 0 <= i < |table| :: table[i] == CallbacksOf(lists[i].taginfos)
  {
    if lists == [] then [] else CallbackTable(lists[..|lists| - 1]) + [CallbacksOf(lists[|lists| - 1].taginfos)]
  }

  /** The callbacks of the tags of several lists, in list order. */
  function FlattenAll(table: seq<seq<seq<TagCallback>>>): (r: seq<TagCallback>)
    ensures |table| == 0 ==> r == []
  {
    if table == [] then [] else FlattenAll(table[..|table| - 1]) + Flatten(table[|table| - 1])
  }

  /** One more list's callbacks at the end. */
  lemma FlattenAllStep(table: seq<seq<seq<TagCallback>>>, i: nat)
    requires i < |table|
    ensures FlattenAll(table[..i + 1]) == FlattenAll(table[..i]) + Flatten(table[i])
  {
    assert table[..i + 1][..i] == table[..i];
  }

  /**
   * invalidate_PLC_tags: every tag of every scan list is invalidated, and
   * the callbacks of all tags are called, list by list and in list order.
   */
  method InvalidatePLCTags(plc: PLC) returns (fired: seq<TagCallback>)
    modifies plc.Tags()
    ensures forall t | t in plc.Tags() :: SetupOf(t) == old(SetupOf(t)) && ValueOf(t) == Invalidated(old(ValueOf(t)))
    ensures fired == FlattenAll(old(CallbackTable(plc.scanlists)))
  {
    ghost var L := plc.Layout();
    ghost var table := CallbackTable(plc.scanlists);
    fired := [];
    var i := 0;
    while i < |plc.scanlists|
      invariant i <= |L| == |plc.scanlists| && plc.Layout() == L
      invariant fired == FlattenAll(table[..i])
      invariant forall j, a | 0 <= j < |L| && 0 <= a < |L[j].tags| ::
        && SetupOf(L[j].tags[a]) == old(SetupOf(L[j].tags[a]))
        && if j < i then ValueOf(L[j].tags[a]) == Invalidated(old(ValueOf(L[j].tags[a])))
           else KeptOrInvalidated(ValueOf(L[j].tags[a]), old(ValueOf(L[j].tags[a])))
    {
      assert CallbacksOf(plc.scanlists[i].taginfos) == table[i];
      label Before:
      var f := InvalidateList(plc.scanlists[i].taginfos);
      forall j, a | 0 <= j < |L| && 0 <= a < |L[j].tags|
        ensures SetupOf(L[j].tags[a]) == old(SetupOf(L[j].tags[a]))
        ensures if j <= i then ValueOf(L[j].tags[a]) == Invalidated(old(ValueOf(L[j].tags[a])))
          else KeptOrInvalidated(ValueOf(L[j].tags[a]), old(ValueOf(L[j].tags[a])))
      {
        var t := L[j].tags[a];
        if t in L[i].tags {
          assert ValueOf(t) == Invalidated(old@Before(ValueOf(t)));
        } else {
          assert ValueOf(t) == old@Before(ValueOf(t));
        }
      }
      FlattenAllStep(table, i);
      fired := fired + f;
      i := i + 1;
    }
    assert table[..i] == table;
  }

  /**
   * disconnect_PLC: with a connection, it is shut down and every tag is
   * invalidated; without one nothing happens.
   */
  method Disconnect(plc: PLC) returns (fired: seq<TagCallback>)
    modifies plc, plc.Tags()
    ensures !plc.connected && plc.scanlists == old(plc.scanlists) && plc.plcErrors == old(plc.plcErrors)
    ensures old(plc.connected) ==> fired == FlattenAll(old(CallbackTable(plc.scanlists)))
    ensures old(plc.connected) ==>
      forall t | t in plc.Tags() :: SetupOf(t) == old(SetupOf(t)) && ValueOf(t) == Invalidated(old(ValueOf(t)))
    ensures !old(plc.connected) ==> fired == []
    ensures !old(plc.connected) ==> forall t | t in plc.Tags() :: SetupOf(t) == old(SetupOf(t)) && ValueOf(t) == old(ValueOf(t))
  {
    if plc.connected {
      plc.connected := false;
      fired := InvalidatePLCTags(plc);
    } else {
      fired := [];
    }
  }

  /**
   * The reschedule branch of the scan task, after process_ScanList ran for
   * a list: a transfer that went through schedules the list one period after
   * its scan started; a failed one is handled by TransferFailed.
   */
  method Reschedule(plc: PLC, list: ScanList, transferOk: bool, endTime: int, timeout: int)
    returns (fired: seq<TagCallback>)
    requires list in plc.scanlists
    modifies plc, list, plc.Tags()
    ensures plc.scanlists == old(plc.scanlists) && list.taginfos == old(list.taginfos)
    ensures list.enabled == old(list.enabled) && list.scanTime == old(list.scanTime)
    ensures transferOk ==>
      && list.scheduledTime == list.scanTime + list.period
      && list.listErrors == old(list.listErrors) && plc.plcErrors == old(plc.plcErrors)
      && plc.connected == old(plc.connected) && fired == []
    ensures transferOk ==> forall t | t in plc.Tags() :: SetupOf(t) == old(SetupOf(t)) && ValueOf(t) == old(ValueOf(t))
    ensures !transferOk ==>
      && list.scheduledTime == endTime + timeout
      && list.listErrors == old(list.listErrors) + 1 && plc.plcErrors == old(plc.plcErrors) + 1
      && !plc.connected
    ensures !transferOk && old(plc.connected) ==> fired == FlattenAll(old(CallbackTable(plc.scanlists)))
    ensures !transferOk && old(plc.connected) ==>
      forall t | t in plc.Tags() :: SetupOf(t) == old(SetupOf(t)) && ValueOf(t) == Invalidated(old(ValueOf(t)))
    ensures !transferOk && !old(plc.connected) ==> fired == []
    ensures !transferOk && !old(plc.connected) ==>
      forall t | t in plc.Tags() :: SetupOf(t) == old(SetupOf(t)) && ValueOf(t) == old(ValueOf(t))
  {
    if transferOk {
      list.scheduledTime := list.scanTime + list.period;
      fired := [];
    } else {
      fired := TransferFailed(plc, list, endTime, timeout);
    }
  }

  /**
   * A failed transfer: the list is scheduled `timeout` after the transfer
   * ended, an error is counted on the list and on the PLC, and the PLC is
   * disconnected, which invalidates every tag when it was connected.
   */
  method TransferFailed(plc: PLC, list: ScanList, endTime: int, timeout: int) returns (fired: seq<TagCallback>)
    requires list in plc.scanlists
    modifies plc, list, plc.Tags()
    ensures plc.scanlists == old(plc.scanlists) && list.taginfos == old(list.taginfos)
    ensures list.enabled == old(list.enabled) && list.scanTime == old(list.scanTime)
    ensures list.scheduledTime == endTime + timeout
    ensures list.listErrors == old(list.listErrors) + 1 && plc.plcErrors == old(plc.plcErrors) + 1
    ensures !plc.connected
    ensures old(plc.connected) ==> fired == FlattenAll(old(CallbackTable(plc.scanlists)))
    ensures old(plc.connected) ==>
      forall t | t in plc.Tags() :: SetupOf(t) == old(SetupOf(t)) && ValueOf(t) == Invalidated(old(ValueOf(t)))
    ensures !old(plc.connected) ==> fired == []
    ensures !old(plc.connected) ==>
      forall t | t in plc.Tags() :: SetupOf(t) == old(SetupOf(t)) && ValueOf(t) == old(ValueOf(t))
  {
    list.scheduledTime := endTime + timeout;
    list.listErrors := list.listErrors + 1;
    plc.plcErrors := plc.plcErrors + 1;
    assert plc.Tags() == old(plc.Tags());
    assert CallbackTable(plc.scanlists) == old(CallbackTable(plc.scanlists));
    fired := Disconnect(plc);
  }
}
