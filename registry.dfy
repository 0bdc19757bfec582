/**
 * The driver's registry (drvEtherIP.c): a PLC holds scan lists of distinct
 * periods, each scan list holds the tags scanned at its period, and each tag
 * holds its sizes, flags, data buffer and callbacks. The intrusive lists of
 * the source are sequences here; dl_list.dfy models the list itself.
 */
module Registry {
  import opened Bytes
  import opened Tags
  import opened Options

  /** A callback registered on a tag: function and argument, compared as pointers. */
  datatype TagCallback = TagCallback(callback: nat, arg: nat)

  /** The byte sizes of a tag's read and write request and response inside a MultiRequest. */
  datatype CipSizes = CipSizes(rRequest: nat, rResponse: nat, wRequest: nat, wResponse: nat)

  // ---------------------------------------------------------------
  // Sequences with a first occurrence
  // ---------------------------------------------------------------

  /** The first position of `x`. */
  function IndexOf<T(==)>(s: seq<T>, x: T): (k: nat)
    requires x in s
    ensures k < |s| && s[k] == x && x !in s[..k]
  {
    if s[0] == x then 0
    else
      var k := IndexOf(s[1..], x);
      assert s[1..][..k] == s[1..k + 1];
      assert s[..k + 1] == [s[0]] + s[1..k + 1];
      k + 1
  }

  /** A position holding `x` with no `x` before it is the first position. */
  lemma FirstIndex<T>(s: seq<T>, x: T, k: nat)
    requires k < |s| && s[k] == x && x !in s[..k]
    ensures IndexOf(s, x) == k
  {
    var r := IndexOf(s, x);
    assert forall a | 0 <= a < k :: s[a] == s[..k][a];
    assert forall a | 0 <= a < r :: s[a] == s[..r][a];
  }

  /** `s` without the first occurrence of `x` (all of `s` when there is none). */
  function Unlink<T(==)>(s: seq<T>, x: T): seq<T>
  {
    if x in s then s[..IndexOf(s, x)] + s[IndexOf(s, x) + 1..] else s
  }

  predicate Distinct<T(==)>(s: seq<T>)
  {
    forall a, b | 0 <= a < b < |s| :: s[a] != s[b]
  }

  // ---------------------------------------------------------------
  // Callbacks (drvEtherIP_add_callback, drvEtherIP_remove_callback)
  // ---------------------------------------------------------------

  /** The callbacks after adding `cb`: a pair already present is not added again. */
  function WithCallback(cbs: seq<TagCallback>, cb: TagCallback): seq<TagCallback>
  {
    if cb in cbs then cbs else cbs + [cb]
  }

  /** The callbacks after removing `cb`: the first matching pair goes, the rest keep their order. */
  function WithoutCallback(cbs: seq<TagCallback>, cb: TagCallback): seq<TagCallback>
  {
    Unlink(cbs, cb)
  }

  /** Adding registers the pair exactly once; removing takes it out and keeps every other pair. */
  lemma CallbacksStayDistinct(cbs: seq<TagCallback>, cb: TagCallback)
    requires Distinct(cbs)
    ensures Distinct(WithCallback(cbs, cb)) && cb in WithCallback(cbs, cb)
    ensures Distinct(WithoutCallback(cbs, cb)) && cb !in WithoutCallback(cbs, cb)
    ensures forall c | c != cb :: (c in WithCallback(cbs, cb) <==> c in cbs)
    ensures forall c | c != cb :: (c in WithoutCallback(cbs, cb) <==> c in cbs)
  {
    if cb in cbs {
      var k := IndexOf(cbs, cb);
      var r := cbs[..k] + cbs[k + 1..];
      assert forall a | 0 <= a < |r| :: r[a] == if a < k then cbs[a] else cbs[a + 1];
      forall c | c in cbs
        ensures c in r || c == cb
      {
        var j :| 0 <= j < |cbs| && cbs[j] == c;
        if j < k {
          assert r[j] == c;
        } else if j > k {
          assert r[j - 1] == c;
        }
      }
    }
  }

  /** Removing a pair right after adding it gives back the callbacks as they were. */
  lemma AddThenRemoveCallback(cbs: seq<TagCallback>, cb: TagCallback)
    requires cb !in cbs
    ensures WithoutCallback(WithCallback(cbs, cb), cb) == cbs
  {
    FirstIndex(cbs + [cb], cb, |cbs|);
    assert (cbs + [cb])[..|cbs|] == cbs;
  }

  // ---------------------------------------------------------------
  // Tags
  // ---------------------------------------------------------------

  class TagInfo {
    /** The tag as text, and as parsed; neither changes after creation. */
    const stringTag: string
    const tag: seq<Segment>
    var scanlist: ScanList?
    var elements: size_t
    var sizes: CipSizes
    var dataSize: nat
    var validDataSize: nat
    var doWrite: bool
    var isWriting: bool
    var data: seq<byte>
    var callbacks: seq<TagCallback>

    /** The buffer holds data_size bytes, of which the first valid_data_size are a value. */
    ghost predicate Valid()
      reads this
    {
      |data| == dataSize && validDataSize <= dataSize
    }

    /** A tag as new_TagInfo leaves it: no sizes, no data, no callbacks, no write. */
    ghost predicate Empty()
      reads this
    {
      sizes == CipSizes(0, 0, 0, 0) && dataSize == 0 && validDataSize == 0 && data == []
      && callbacks == [] && !doWrite && !isWriting
    }

    /** Everything of the tag but its list and its element count. */
    ghost function Value(): (CipSizes, nat, nat, seq<byte>, seq<TagCallback>, bool, bool)
      reads this
    {
      (sizes, dataSize, validDataSize, data, callbacks, doWrite, isWriting)
    }

    /** Sizes, data, callbacks and write flags as they were: only list membership and elements may differ. */
    twostate predicate ValueKept()
      reads this
    {
      Value() == old(Value())
    }

    /** new_TagInfo after its allocations: everything else zero, no callbacks. */
    constructor (stringTag: string, tag: seq<Segment>, elements: size_t)
      ensures this.stringTag == stringTag && this.tag == tag && this.elements == elements
      ensures scanlist == null && callbacks == [] && sizes == CipSizes(0, 0, 0, 0)
      ensures dataSize == 0 && validDataSize == 0 && !doWrite && !isWriting
      ensures Valid()
    {
      this.stringTag := stringTag;
      this.tag := tag;
      this.elements := elements;
      scanlist := null;
      sizes := CipSizes(0, 0, 0, 0);
      dataSize := 0;
      validDataSize := 0;
      doWrite := false;
      isWriting := false;
      data := [];
      callbacks := [];
    }

    /** Registration, sizes and flags as they were. */
    twostate predicate SameSetup()
      reads this
    {
      scanlist == old(scanlist) && elements == old(elements) && sizes == old(sizes)
      && callbacks == old(callbacks) && doWrite == old(doWrite) && isWriting == old(isWriting)
    }

    /** Everything but the write flags as it was. */
    twostate predicate SameButFlags()
      reads this
    {
      scanlist == old(scanlist) && elements == old(elements) && sizes == old(sizes) && callbacks == old(callbacks)
      && dataSize == old(dataSize) && validDataSize == old(validDataSize) && data == old(data)
    }

    /** Everything but the four request and response sizes as it was. */
    twostate predicate SameButSizes()
      reads this
    {
      scanlist == old(scanlist) && elements == old(elements) && callbacks == old(callbacks)
      && doWrite == old(doWrite) && isWriting == old(isWriting)
      && dataSize == old(dataSize) && validDataSize == old(validDataSize) && data == old(data)
    }

    /** Registration, sizes and the write request as they were; the value and is_writing may change. */
    twostate predicate SameButValue()
      reads this
    {
      scanlist == old(scanlist) && elements == old(elements) && sizes == old(sizes)
      && callbacks == old(callbacks) && doWrite == old(doWrite)
    }

    /**
     * reserve_tag_data: a buffer at least `requested` bytes long. The buffer
     * only grows, to exactly `requested` zero bytes, and never to
     * `bufferSize` (EIP_BUFFER_SIZE) bytes or more.
     */
    method ReserveTagData(requested: nat, bufferSize: nat) returns (ok: bool)
      requires Valid()
      modifies this
      ensures Valid() && SameSetup() && validDataSize == old(validDataSize)
      ensures ok <==> old(dataSize) >= requested || requested < bufferSize
      ensures ok ==> dataSize >= requested
      ensures old(dataSize) < requested && ok ==> dataSize == requested && data == Zeros(requested)
      ensures old(dataSize) >= requested || !ok ==> dataSize == old(dataSize) && data == old(data)
    {
      if dataSize >= requested {
        return true;
      }
      if requested >= bufferSize {
        return false;
      }
      data := Zeros(requested);
      dataSize := requested;
      ok := true;
    }

    /** drvEtherIP_add_callback: nothing happens when the pair is already registered. */
    method AddCallback(cb: TagCallback)
      modifies this
      ensures callbacks == WithCallback(old(callbacks), cb)
      ensures data == old(data) && dataSize == old(dataSize) && validDataSize == old(validDataSize)
      ensures scanlist == old(scanlist) && elements == old(elements) && sizes == old(sizes)
      ensures doWrite == old(doWrite) && isWriting == old(isWriting)
    {
      var k := 0;
      while k < |callbacks|
        invariant k <= |callbacks| && cb !in callbacks[..k]
      {
        if callbacks[k] == cb {
          return;
        }
        assert callbacks[..k + 1] == callbacks[..k] + [callbacks[k]];
        k := k + 1;
      }
      assert callbacks[..k] == callbacks;
      callbacks := callbacks + [cb];
    }

    /** drvEtherIP_remove_callback: unlinks the first matching pair, if any. */
    method RemoveCallback(cb: TagCallback)
      modifies this
      ensures callbacks == WithoutCallback(old(callbacks), cb)
      ensures data == old(data) && dataSize == old(dataSize) && validDataSize == old(validDataSize)
      ensures scanlist == old(scanlist) && elements == old(elements) && sizes == old(sizes)
      ensures doWrite == old(doWrite) && isWriting == old(isWriting)
    {
      var k := 0;
      while k < |callbacks|
        invariant k <= |callbacks| && cb !in callbacks[..k]
      {
        if callbacks[k] == cb {
          FirstIndex(callbacks, cb, k);
          callbacks := callbacks[..k] + callbacks[k + 1..];
          return;
        }
        assert callbacks[..k + 1] == callbacks[..k] + [callbacks[k]];
        k := k + 1;
      }
      assert callbacks[..k] == callbacks;
    }
  }

  /**
   * new_TagInfo: null when the tag does not parse (EIP_parse_tag gives
   * null); otherwise a tag with `elements` elements, no sizes and no data.
   */
  method NewTagInfo(stringTag: string, elements: size_t) returns (info: TagInfo?)
    ensures info == null <==> Parse(stringTag) == []
    ensures info != null ==> fresh(info) && info.stringTag == stringTag && info.tag == Parse(stringTag)
    ensures info != null ==> info.elements == elements && info.callbacks == [] && info.scanlist == null
    ensures info != null ==> info.sizes == CipSizes(0, 0, 0, 0) && info.validDataSize == 0 && info.Valid()
    ensures info != null ==> !info.doWrite && !info.isWriting && info.Empty()
  {
    var tl := ParseTag(stringTag);
    if tl == [] {
      return null;
    }
    info := new TagInfo(stringTag, tl, elements);
  }

  // ---------------------------------------------------------------
  // Tag names in a list
  // ---------------------------------------------------------------

  /** The tag strings of a list of tags. */
  function NameSet(ts: seq<TagInfo>): set<string>
  {
    set a | 0 <= a < |ts| :: ts[a].stringTag
  }

  predicate UniqueNames(ts: seq<TagInfo>)
  {
    forall a, b | 0 <= a < b < |ts| :: ts[a].stringTag != ts[b].stringTag
  }

  /** The position of the first tag named `s` from position `a` on. */
  function FindNameFrom(ts: seq<TagInfo>, s: string, a: nat): (r: Option<nat>)
    requires a <= |ts|
    decreases |ts| - a
    ensures r.Some? ==> a <= r.value < |ts| && ts[r.value].stringTag == s
    ensures r.Some? ==> forall b | a <= b < r.value :: ts[b].stringTag != s
    ensures r.None? ==> forall b | a <= b < |ts| :: ts[b].stringTag != s
  {
    if a == |ts| then None
    else if ts[a].stringTag == s then Some(a)
    else FindNameFrom(ts, s, a + 1)
  }

  /** The position of the first tag named `s`, None when no tag has that name. */
  function FindName(ts: seq<TagInfo>, s: string): (r: Option<nat>)
    ensures r.Some? ==> r.value < |ts| && ts[r.value].stringTag == s
    ensures r.Some? ==> forall b | 0 <= b < r.value :: ts[b].stringTag != s
    ensures r.None? <==> s !in NameSet(ts)
  {
    FindNameFrom(ts, s, 0)
  }

  /** In a list of unique names the tag carrying a name is where FindName looks. */
  lemma FindUnique(ts: seq<TagInfo>, a: nat)
    requires UniqueNames(ts) && a < |ts|
    ensures FindName(ts, ts[a].stringTag) == Some(a)
  {
    var r := FindName(ts, ts[a].stringTag);
    assert ts[a].stringTag in NameSet(ts);
  }

  lemma NameSetAppend(ts: seq<TagInfo>, t: TagInfo)
    ensures NameSet(ts + [t]) == NameSet(ts) + {t.stringTag}
  {
    var r := ts + [t];
    assert r[|ts|] == t;
    forall n | n in NameSet(ts)
      ensures n in NameSet(r)
    {
      var a :| 0 <= a < |ts| && ts[a].stringTag == n;
      assert r[a] == ts[a];
    }
  }

  lemma AppendUnique(ts: seq<TagInfo>, t: TagInfo)
    requires UniqueNames(ts) && t.stringTag !in NameSet(ts)
    ensures UniqueNames(ts + [t])
  {
    var r := ts + [t];
    forall a, b | 0 <= a < b < |r|
      ensures r[a].stringTag != r[b].stringTag
    {
      if b == |ts| {
        assert ts[a].stringTag in NameSet(ts);
      }
    }
  }

  /** Taking out the tag at `k` takes out exactly its name and keeps the others unique. */
  lemma RemoveName(ts: seq<TagInfo>, k: nat)
    requires UniqueNames(ts) && k < |ts|
    ensures NameSet(ts[..k] + ts[k + 1..]) == NameSet(ts) - {ts[k].stringTag}
    ensures UniqueNames(ts[..k] + ts[k + 1..])
  {
    var r := ts[..k] + ts[k + 1..];
    assert forall a | 0 <= a < |r| :: r[a] == if a < k then ts[a] else ts[a + 1];
    forall n | n in NameSet(ts) - {ts[k].stringTag}
      ensures n in NameSet(r)
    {
      var a :| 0 <= a < |ts| && ts[a].stringTag == n;
      if a < k {
        assert r[a] == ts[a];
      } else {
        assert r[a - 1] == ts[a];
      }
    }
  }

  // ---------------------------------------------------------------
  // The layout of a PLC's scan lists
  // ---------------------------------------------------------------

  /** One scan list: its period and its tags in scan order. */
  datatype ListView = ListView(period: int, tags: seq<TagInfo>)

  /** Scan lists have distinct periods, and a tag string occurs once in all of them. */
  ghost predicate ValidLayout(L: seq<ListView>)
  {
    (forall i, j | 0 <= i < j < |L| :: L[i].period != L[j].period)
    && (forall i | 0 <= i < |L| :: UniqueNames(L[i].tags))
    && (forall i, j | 0 <= i < |L| && 0 <= j < |L| && i != j :: NameSet(L[i].tags) !! NameSet(L[j].tags))
  }

  /** The first list with the given period (get_PLC_ScanList's search). */
  function FindPeriodFrom(L: seq<ListView>, period: int, i: nat): (r: Option<nat>)
    requires i <= |L|
    decreases |L| - i
    ensures r.Some? ==> i <= r.value < |L| && L[r.value].period == period
    ensures r.Some? ==> forall j | i <= j < r.value :: L[j].period != period
    ensures r.None? ==> forall j | i <= j < |L| :: L[j].period != period
  {
    if i == |L| then None
    else if L[i].period == period then Some(i)
    else FindPeriodFrom(L, period, i + 1)
  }

  /** The first list holding a tag named `s` and the tag's position in it (find_PLC_tag's search). */
  function LocateFrom(L: seq<ListView>, s: string, i: nat): (r: Option<(nat, nat)>)
    requires i <= |L|
    decreases |L| - i
    ensures r.Some? ==> i <= r.value.0 < |L| && r.value.1 < |L[r.value.0].tags|
    ensures r.Some? ==> L[r.value.0].tags[r.value.1].stringTag == s
    ensures r.None? ==> forall j | i <= j < |L| :: s !in NameSet(L[j].tags)
  {
    if i == |L| then None
    else match FindName(L[i].tags, s)
      case Some(k) => Some((i, k))
      case None => LocateFrom(L, s, i + 1)
  }

  function Locate(L: seq<ListView>, s: string): Option<(nat, nat)>
  {
    LocateFrom(L, s, 0)
  }

  /** The period at which the tag named `s` is scanned, None when it is not registered. */
  function TagPeriod(L: seq<ListView>, s: string): Option<int>
  {
    match Locate(L, s)
    case Some(loc) => Some(L[loc.0].period)
    case None => None
  }

  /** In a valid layout, the list holding a name is the one Locate finds. */
  lemma LocateUnique(L: seq<ListView>, i: nat, a: nat)
    requires ValidLayout(L) && i < |L| && a < |L[i].tags|
    ensures Locate(L, L[i].tags[a].stringTag) == Some((i, a))
  {
    var s := L[i].tags[a].stringTag;
    assert s in NameSet(L[i].tags);
    var r := Locate(L, s);
    var j := r.value.0;
    assert s in NameSet(L[j].tags);
    SameList(L, i, j, s);
    FindUnique(L[i].tags, a);
  }

  /** A name is in one list only. */
  lemma SameList(L: seq<ListView>, i: nat, j: nat, s: string)
    requires ValidLayout(L) && i < |L| && j < |L|
    requires s in NameSet(L[i].tags) && s in NameSet(L[j].tags)
    ensures i == j
  {
  }

  /** The list at `i` without its tag at `k` (remove_ScanList_TagInfo). */
  function Withdraw(L: seq<ListView>, i: nat, k: nat): (r: seq<ListView>)
    requires i < |L| && k < |L[i].tags|
    ensures |r| == |L|
  {
    L[i := ListView(L[i].period, L[i].tags[..k] + L[i].tags[k + 1..])]
  }

  /**
   * `t` appended to the list with the given period, or to a new list of that
   * period appended after the others (get_PLC_ScanList, add_ScanList_TagInfo).
   */
  function Insert(L: seq<ListView>, period: int, t: TagInfo): (r: seq<ListView>)
  {
    match FindPeriodFrom(L, period, 0)
    case Some(j) => L[j := ListView(period, L[j].tags + [t])]
    case None => L + [ListView(period, [t])]
  }

  /**
   * drvEtherIP_add_tag on the layout: a registered tag moves to the list for
   * `period` only when its list is slower; an unregistered one, `newTag`, is
   * appended to the list for `period`.
   */
  function AddTagTo(L: seq<ListView>, period: int, s: string, newTag: TagInfo): seq<ListView>
  {
    match Locate(L, s)
    case Some(loc) =>
      if L[loc.0].period > period then Insert(Withdraw(L, loc.0, loc.1), period, L[loc.0].tags[loc.1]) else L
    case None => Insert(L, period, newTag)
  }

  /** Withdrawing a tag keeps the layout valid and removes its name from its list. */
  lemma WithdrawValid(L: seq<ListView>, i: nat, k: nat)
    requires ValidLayout(L) && i < |L| && k < |L[i].tags|
    ensures ValidLayout(Withdraw(L, i, k))
    ensures NameSet(Withdraw(L, i, k)[i].tags) == NameSet(L[i].tags) - {L[i].tags[k].stringTag}
    ensures forall j | 0 <= j < |L| && j != i :: Withdraw(L, i, k)[j] == L[j]
    ensures forall j | 0 <= j < |L| :: Withdraw(L, i, k)[j].period == L[j].period
  {
    RemoveName(L[i].tags, k);
    var r := Withdraw(L, i, k);
    forall a, b | 0 <= a < |r| && 0 <= b < |r| && a != b
      ensures NameSet(r[a].tags) !! NameSet(r[b].tags)
    {
      assert NameSet(L[a].tags) !! NameSet(L[b].tags);
    }
  }

  /** Inserting a tag whose name is nowhere keeps the layout valid. */
  lemma InsertValid(L: seq<ListView>, period: int, t: TagInfo)
    requires ValidLayout(L) && forall j | 0 <= j < |L| :: t.stringTag !in NameSet(L[j].tags)
    ensures ValidLayout(Insert(L, period, t))
  {
    var r := Insert(L, period, t);
    match FindPeriodFrom(L, period, 0)
    case Some(j) =>
      AppendUnique(L[j].tags, t);
      NameSetAppend(L[j].tags, t);
      forall a, b | 0 <= a < |r| && 0 <= b < |r| && a != b
        ensures NameSet(r[a].tags) !! NameSet(r[b].tags)
      {
        assert NameSet(L[a].tags) !! NameSet(L[b].tags);
      }
    case None =>
      assert NameSet([t]) == {t.stringTag} by {
        assert [t][0] == t;
      }
      forall a, b | 0 <= a < |r| && 0 <= b < |r| && a != b
        ensures NameSet(r[a].tags) !! NameSet(r[b].tags)
      {
        if a < |L| && b < |L| {
          assert NameSet(L[a].tags) !! NameSet(L[b].tags);
        }
      }
  }

  /** Where Insert puts the tag: last in the one list of that period. */
  lemma InsertPlace(L: seq<ListView>, period: int, t: TagInfo) returns (j: nat)
    requires ValidLayout(L) && forall i | 0 <= i < |L| :: t.stringTag !in NameSet(L[i].tags)
    ensures j < |Insert(L, period, t)| && Insert(L, period, t)[j].period == period
    ensures Insert(L, period, t)[j].tags == (if j < |L| then L[j].tags else []) + [t]
    ensures j < |L| ==> L[j].period == period
    ensures j == |L| ==> forall i | 0 <= i < |L| :: L[i].period != period
    ensures |Insert(L, period, t)| == if j < |L| then |L| else |L| + 1
    ensures forall i | 0 <= i < |L| && i != j :: Insert(L, period, t)[i] == L[i]
  {
    match FindPeriodFrom(L, period, 0)
    case Some(k) => j := k;
    case None => j := |L|;
  }

  /** Where AddTagTo leaves the tag named `s`: its list and position, the object, and that it is last when it was placed. */
  lemma AddTagPlace(L: seq<ListView>, period: int, s: string, newTag: TagInfo) returns (j: nat)
    requires ValidLayout(L) && newTag.stringTag == s
    ensures ValidLayout(AddTagTo(L, period, s, newTag))
    ensures j < |AddTagTo(L, period, s, newTag)|
    ensures Locate(L, s).None? ==> AddTagTo(L, period, s, newTag)[j].period == period
    ensures Locate(L, s).None? ==>
      AddTagTo(L, period, s, newTag)[j].tags == (if j < |L| then L[j].tags else []) + [newTag]
    ensures Locate(L, s).Some? ==>
      AddTagTo(L, period, s, newTag)[j].period == Min(L[Locate(L, s).value.0].period, period)
    ensures Locate(L, s).Some? && L[Locate(L, s).value.0].period > period ==>
      var t := AddTagTo(L, period, s, newTag)[j].tags;
      |t| > 0 && t[|t| - 1] == L[Locate(L, s).value.0].tags[Locate(L, s).value.1]
    ensures Locate(L, s).Some? && L[Locate(L, s).value.0].period <= period ==>
      AddTagTo(L, period, s, newTag) == L && j == Locate(L, s).value.0
  {
    match Locate(L, s)
    case Some(loc) =>
      if L[loc.0].period > period {
        var t := L[loc.0].tags[loc.1];
        WithdrawValid(L, loc.0, loc.1);
        var w := Withdraw(L, loc.0, loc.1);
        NotElsewhere(L, loc.0, loc.1);
        InsertValid(w, period, t);
        j := InsertPlace(w, period, t);
      } else {
        j := loc.0;
      }
    case None =>
      InsertValid(L, period, newTag);
      j := InsertPlace(L, period, newTag);
  }

  /** Once withdrawn, a tag's name is in no list. */
  lemma NotElsewhere(L: seq<ListView>, i: nat, k: nat)
    requires ValidLayout(L) && i < |L| && k < |L[i].tags|
    ensures forall j | 0 <= j < |L| :: L[i].tags[k].stringTag !in NameSet(Withdraw(L, i, k)[j].tags)
  {
    WithdrawValid(L, i, k);
    var s := L[i].tags[k].stringTag;
    assert s in NameSet(L[i].tags);
    forall j | 0 <= j < |L| && j != i
      ensures s !in NameSet(L[j].tags)
    {
      assert NameSet(L[i].tags) !! NameSet(L[j].tags);
    }
  }

  /** The layout after get_PLC_ScanList with `create` set: an empty list for a new period. */
  function WithList(L: seq<ListView>, period: int): seq<ListView>
  {
    match FindPeriodFrom(L, period, 0)
    case Some(_) => L
    case None => L + [ListView(period, [])]
  }

  /** Insert is WithList followed by appending to the list of that period. */
  lemma InsertByList(L: seq<ListView>, period: int, t: TagInfo)
    ensures FindPeriodFrom(WithList(L, period), period, 0).Some?
    ensures var V := WithList(L, period); var j := FindPeriodFrom(V, period, 0).value;
      Insert(L, period, t) == V[j := ListView(period, V[j].tags + [t])]
  {
    if FindPeriodFrom(L, period, 0).None? {
      FindAppended(L, period, []);
      var V := L + [ListView(period, [])];
      assert [] + [t] == [t];
      assert V[|L| := ListView(period, [t])] == L + [ListView(period, [t])];
    }
  }

  /** A list appended for a period no list has is the one found for it. */
  lemma FindAppended(L: seq<ListView>, period: int, ts: seq<TagInfo>)
    requires FindPeriodFrom(L, period, 0).None?
    ensures FindPeriodFrom(L + [ListView(period, ts)], period, 0) == Some(|L|)
  {
    var V := L + [ListView(period, ts)];
    assert V[|L|].period == period;
    var r := FindPeriodFrom(V, period, 0);
    assert forall j | 0 <= j < |L| :: V[j] == L[j];
  }

  lemma WithListValid(L: seq<ListView>, period: int)
    requires ValidLayout(L)
    ensures ValidLayout(WithList(L, period))
  {
    assert NameSet([]) == {};
  }

  /** In a list of unique names, unlinking the tag at `k` cuts out position `k`. */
  lemma UnlinkAt(ts: seq<TagInfo>, k: nat)
    requires UniqueNames(ts) && k < |ts|
    ensures Unlink(ts, ts[k]) == ts[..k] + ts[k + 1..]
  {
    forall a | 0 <= a < k
      ensures ts[a] != ts[k]
    {
      assert ts[a].stringTag != ts[k].stringTag;
    }
    FirstIndex(ts, ts[k], k);
  }

  function Min(a: int, b: int): int { if a <= b then a else b }
  function Max(a: int, b: int): int { if a >= b then a else b }

  /**
   * Adding a tag registers it at the given period when it is new, and at the
   * faster of its old and the given period when it was registered: a tag
   * never moves to a slower list.
   */
  lemma AddTagPeriod(L: seq<ListView>, period: int, s: string, newTag: TagInfo)
    requires ValidLayout(L) && newTag.stringTag == s
    ensures TagPeriod(AddTagTo(L, period, s, newTag), s)
      == Some(match TagPeriod(L, s) case Some(q) => Min(q, period) case None => period)
  {
    var j := AddTagPlace(L, period, s, newTag);
    var r := AddTagTo(L, period, s, newTag);
    match Locate(L, s)
    case Some(loc) =>
      if L[loc.0].period > period {
        LocateUnique(r, j, |r[j].tags| - 1);
      } else {
        LocateUnique(L, loc.0, loc.1);
      }
    case None =>
      LocateUnique(r, j, |r[j].tags| - 1);
  }

  /** Adding a tag leaves every other tag registered where it was. */
  lemma AddTagOthers(L: seq<ListView>, period: int, s: string, newTag: TagInfo, other: string)
    requires ValidLayout(L) && newTag.stringTag == s && other != s
    ensures TagPeriod(AddTagTo(L, period, s, newTag), other) == TagPeriod(L, other)
  {
    var r := AddTagTo(L, period, s, newTag);
    var j := AddTagPlace(L, period, s, newTag);
    match Locate(L, other)
    case Some(loc) =>
      var i := loc.0;
      assert other in NameSet(L[i].tags);
      SameNameSet(L, period, s, newTag, other, i);
      var b :| 0 <= b < |r[i].tags| && r[i].tags[b].stringTag == other;
      LocateUnique(r, i, b);
    case None =>
      if Locate(r, other).Some? {
        var loc := Locate(r, other).value;
        assert other in NameSet(r[loc.0].tags);
        NewNames(L, period, s, newTag, other, loc.0);
      }
  }

  /** A name other than `s` stays in the list it was in. */
  lemma SameNameSet(L: seq<ListView>, period: int, s: string, newTag: TagInfo, other: string, i: nat)
    requires ValidLayout(L) && newTag.stringTag == s && other != s && i < |L| && other in NameSet(L[i].tags)
    ensures i < |AddTagTo(L, period, s, newTag)| && other in NameSet(AddTagTo(L, period, s, newTag)[i].tags)
  {
    var _ := AddTagPlace(L, period, s, newTag);
    match Locate(L, s)
    case Some(loc) =>
      if L[loc.0].period > period {
        var t := L[loc.0].tags[loc.1];
        WithdrawValid(L, loc.0, loc.1);
        var w := Withdraw(L, loc.0, loc.1);
        assert other in NameSet(w[i].tags);
        NotElsewhere(L, loc.0, loc.1);
        var j := InsertPlace(w, period, t);
        if j == i {
          NameSetAppend(w[i].tags, t);
        }
      }
    case None =>
      var j := InsertPlace(L, period, newTag);
      if j == i {
        NameSetAppend(L[i].tags, newTag);
      }
  }

  /** A name other than `s` found after adding was there before. */
  lemma NewNames(L: seq<ListView>, period: int, s: string, newTag: TagInfo, other: string, i: nat)
    requires ValidLayout(L) && newTag.stringTag == s && other != s
    requires i < |AddTagTo(L, period, s, newTag)| && other in NameSet(AddTagTo(L, period, s, newTag)[i].tags)
    ensures i < |L| && other in NameSet(L[i].tags)
  {
    match Locate(L, s)
    case Some(loc) =>
      if L[loc.0].period > period {
        var t := L[loc.0].tags[loc.1];
        WithdrawValid(L, loc.0, loc.1);
        var w := Withdraw(L, loc.0, loc.1);
        NotElsewhere(L, loc.0, loc.1);
        var j := InsertPlace(w, period, t);
        if j == i {
          NameSetAppend(if j < |w| then w[j].tags else [], t);
        }
        assert other in NameSet(w[i].tags);
      }
    case None =>
      InsertValid(L, period, newTag);
      var j := InsertPlace(L, period, newTag);
      if j == i {
        NameSetAppend(if j < |L| then L[j].tags else [], newTag);
      }
  }

  /** Adding the same tag at the same period a second time changes nothing. */
  lemma AddTagIdempotent(L: seq<ListView>, period: int, s: string, newTag: TagInfo, again: TagInfo)
    requires ValidLayout(L) && newTag.stringTag == s
    ensures AddTagTo(AddTagTo(L, period, s, newTag), period, s, again) == AddTagTo(L, period, s, newTag)
  {
    AddTagPeriod(L, period, s, newTag);
  }

  // ---------------------------------------------------------------
  // Scan lists and PLCs
  // ---------------------------------------------------------------

  class ScanList {
    const period: int
    var enabled: bool
    var listErrors: nat
    var scanTime: int
    var scheduledTime: int
    var taginfos: seq<TagInfo>

    /** new_ScanList with reset_ScanList: enabled, no errors, times zero, no tags. */
    constructor (period: int)
      ensures this.period == period && taginfos == []
      ensures enabled && listErrors == 0 && scanTime == 0 && scheduledTime == 0
    {
      this.period := period;
      enabled := true;
      listErrors := 0;
      scanTime := 0;
      scheduledTime := 0;
      taginfos := [];
    }

    /** Schedule and statistics as they were. */
    twostate predicate SameSchedule()
      reads this
    {
      enabled == old(enabled) && listErrors == old(listErrors)
      && scanTime == old(scanTime) && scheduledTime == old(scheduledTime)
    }

    /** find_ScanList_Tag: the first tag with that string, null when there is none. */
    method FindTag(stringTag: string) returns (info: TagInfo?)
      ensures FindName(taginfos, stringTag).None? ==> info == null
      ensures FindName(taginfos, stringTag).Some? ==> info == taginfos[FindName(taginfos, stringTag).value]
    {
      var a := 0;
      while a < |taginfos|
        invariant a <= |taginfos| && FindNameFrom(taginfos, stringTag, a) == FindName(taginfos, stringTag)
      {
        if taginfos[a].stringTag == stringTag {
          return taginfos[a];
        }
        a := a + 1;
      }
      info := null;
    }
  }

  /** remove_ScanList_TagInfo: the tag leaves the list, the others keep their order. */
  method RemoveScanListTagInfo(list: ScanList, info: TagInfo)
    modifies list, info
    ensures list.taginfos == Unlink(old(list.taginfos), info) && info.scanlist == null
    ensures list.SameSchedule()
    ensures info.elements == old(info.elements) && info.ValueKept()
  {
    info.scanlist := null;
    if info in list.taginfos {
      var k := IndexOf(list.taginfos, info);
      list.taginfos := list.taginfos[..k] + list.taginfos[k + 1..];
    }
  }

  /** add_ScanList_TagInfo: the tag goes last. */
  method AddScanListTagInfo(list: ScanList, info: TagInfo)
    modifies list, info
    ensures list.taginfos == old(list.taginfos) + [info] && info.scanlist == list
    ensures list.SameSchedule()
    ensures info.elements == old(info.elements) && info.ValueKept()
  {
    list.taginfos := list.taginfos + [info];
    info.scanlist := list;
  }

  class PLC {
    const name: string
    var connected: bool
    var plcErrors: nat
    var scanlists: seq<ScanList>

    /** new_PLC: no scan lists, not connected, no errors. */
    constructor (name: string)
      ensures this.name == name && scanlists == [] && !connected && plcErrors == 0
    {
      this.name := name;
      connected := false;
      plcErrors := 0;
      scanlists := [];
    }

    /** The scan lists as periods and tags. */
    ghost function Layout(): (L: seq<ListView>)
      reads this`scanlists, scanlists
      ensures |L| == |scanlists|
      ensures forall i | 0 <= i < |L| :: L[i] == ListView(scanlists[i].period, scanlists[i].taginfos)
    {
      var lists := scanlists;
      seq(|lists|, i reads lists requires 0 <= i < |lists| => ListView(lists[i].period, lists[i].taginfos))
    }

    ghost predicate Valid()
      reads this`scanlists, scanlists
    {
      ValidLayout(Layout())
    }

    /** Every tag of every scan list. */
    ghost function Tags(): set<TagInfo>
      reads this`scanlists, scanlists`taginfos
    {
      set i, a | 0 <= i < |scanlists| && 0 <= a < |scanlists[i].taginfos| :: scanlists[i].taginfos[a]
    }

    /**
     * get_PLC_ScanList: the list with that period; when there is none, a new
     * empty list appended after the others if `create` is set, null otherwise.
     */
    method GetScanList(period: int, create: bool) returns (list: ScanList?)
      modifies this
      ensures FindPeriodFrom(old(Layout()), period, 0).Some? ==>
        scanlists == old(scanlists) && list == scanlists[FindPeriodFrom(old(Layout()), period, 0).value]
      ensures FindPeriodFrom(old(Layout()), period, 0).None? && create ==>
        list != null && fresh(list) && scanlists == old(scanlists) + [list]
        && list.period == period && list.taginfos == []
      ensures FindPeriodFrom(old(Layout()), period, 0).None? && !create ==>
        list == null && scanlists == old(scanlists)
      ensures create ==> Layout() == WithList(old(Layout()), period)
      ensures list != null ==>
        FindPeriodFrom(Layout(), period, 0).Some? && list == scanlists[FindPeriodFrom(Layout(), period, 0).value]
      ensures connected == old(connected) && plcErrors == old(plcErrors)
    {
      ghost var L := Layout();
      var i := 0;
      while i < |scanlists|
        invariant i <= |scanlists| && FindPeriodFrom(L, period, i) == FindPeriodFrom(L, period, 0)
      {
        if scanlists[i].period == period {
          return scanlists[i];
        }
        i := i + 1;
      }
      if !create {
        return null;
      }
      list := new ScanList(period);
      scanlists := scanlists + [list];
      assert Layout() == L + [ListView(period, [])];
      FindAppended(L, period, []);
    }

    /**
     * find_PLC_tag: the first list holding a tag with that string, and the
     * tag; both null when no list holds one.
     */
    method FindTag(stringTag: string) returns (list: ScanList?, info: TagInfo?)
      ensures Locate(Layout(), stringTag).None? ==> list == null && info == null
      ensures Locate(Layout(), stringTag).Some? ==>
        var loc := Locate(Layout(), stringTag).value;
        list == scanlists[loc.0] && info == scanlists[loc.0].taginfos[loc.1]
    {
      ghost var L := Layout();
      var i := 0;
      while i < |scanlists|
        invariant i <= |scanlists| && LocateFrom(L, stringTag, i) == Locate(L, stringTag)
      {
        info := scanlists[i].FindTag(stringTag);
        if info != null {
          return scanlists[i], info;
        }
        i := i + 1;
      }
      list, info := null, null;
    }

    /** add_ScanList_TagInfo on the list at `j`. */
    method AppendTag(list: ScanList, info: TagInfo, ghost j: nat)
      requires Valid() && j < |scanlists| && scanlists[j] == list
      modifies list, info
      ensures Layout() == old(Layout())[j := ListView(list.period, old(list.taginfos) + [info])]
      ensures info.scanlist == list && info.elements == old(info.elements) && list.SameSchedule()
      ensures info.ValueKept()
    {
      ghost var L := Layout();
      assert forall m | 0 <= m < |L| && m != j :: L[m].period != L[j].period;
      AddScanListTagInfo(list, info);
      assert Layout() == L[j := ListView(list.period, old(list.taginfos) + [info])];
    }

    /** remove_ScanList_TagInfo on the tag at `k` of the list at `j`. */
    method WithdrawTag(list: ScanList, info: TagInfo, ghost j: nat, ghost k: nat)
      requires Valid() && j < |scanlists| && scanlists[j] == list && k < |list.taginfos| && list.taginfos[k] == info
      modifies list, info
      ensures Layout() == Withdraw(old(Layout()), j, k)
      ensures info.scanlist == null && info.elements == old(info.elements) && list.SameSchedule()
      ensures info.ValueKept()
    {
      ghost var L := Layout();
      assert forall m | 0 <= m < |L| && m != j :: L[m].period != L[j].period;
      UnlinkAt(list.taginfos, k);
      RemoveScanListTagInfo(list, info);
      assert Layout() == Withdraw(L, j, k);
    }

    /**
     * drvEtherIP_add_tag: a registered tag string gives back its tag, moved
     * to the list for `period` when that is faster and with the larger
     * element count; a new one is parsed and appended to the list for
     * `period`, whose creation comes first. Null when a new tag does not parse.
     */
    method AddTag(period: int, stringTag: string, elements: size_t) returns (info: TagInfo?)
      requires Valid()
      modifies this, scanlists, Tags()
      ensures Valid()
      ensures info == null ==>
        Layout() == WithList(old(Layout()), period) && Parse(stringTag) == [] && old(Locate(Layout(), stringTag)).None?
      ensures info != null ==>
        info.stringTag == stringTag && Layout() == AddTagTo(old(Layout()), period, stringTag, info)
      ensures old(Locate(Layout(), stringTag)).Some? ==>
        var loc := old(Locate(Layout(), stringTag)).value;
        info == old(scanlists[loc.0].taginfos[loc.1]) && info.elements == Max(old(info.elements), elements)
      ensures old(Locate(Layout(), stringTag)).None? ==>
        (info == null <==> Parse(stringTag) == [])
        && (info != null ==> fresh(info) && info.elements == elements && info.tag == Parse(stringTag) && info.Empty())
      ensures info != null && !fresh(info) ==> info.ValueKept()
      ensures forall t | t in old(Tags()) && t != info ::
        t.elements == old(t.elements) && t.scanlist == old(t.scanlist) && t.ValueKept()
      ensures forall l | l in old(scanlists) :: l.SameSchedule()
      ensures connected == old(connected) && plcErrors == old(plcErrors)
    {
      var list, found := FindTag(stringTag);
      if found != null {
        UpdateTag(list, found, period, elements, Locate(Layout(), stringTag).value);
        info := found;
      } else {
        info := CreateTag(period, stringTag, elements);
      }
    }

    /** drvEtherIP_add_tag for a registered tag: faster list, larger element count. */
    method UpdateTag(list: ScanList, info: TagInfo, period: int, elements: size_t, ghost loc: (nat, nat))
      requires Valid() && Locate(Layout(), info.stringTag) == Some(loc)
      requires list == scanlists[loc.0] && info == list.taginfos[loc.1]
      modifies this, scanlists, info
      ensures Valid() && Layout() == AddTagTo(old(Layout()), period, info.stringTag, info)
      ensures info.elements == Max(old(info.elements), elements) && info.ValueKept()
      ensures forall l | l in old(scanlists) :: l.SameSchedule()
      ensures connected == old(connected) && plcErrors == old(plcErrors)
    {
      if list.period > period {
        MoveTag(list, info, period, loc);
      }
      if info.elements < elements {
        info.elements := elements;
      }
    }

    /** drvEtherIP_add_tag for a new tag: the list for `period` is made first, then the tag is parsed and appended. */
    method CreateTag(period: int, stringTag: string, elements: size_t) returns (info: TagInfo?)
      requires Valid() && Locate(Layout(), stringTag).None?
      modifies this, scanlists
      ensures Valid()
      ensures info == null <==> Parse(stringTag) == []
      ensures info == null ==> Layout() == WithList(old(Layout()), period)
      ensures info != null ==> Layout() == Insert(old(Layout()), period, info)
      ensures info != null ==> fresh(info) && info.stringTag == stringTag && info.elements == elements
      ensures info != null ==> info.tag == Parse(stringTag) && info.Empty()
      ensures forall l | l in old(scanlists) :: l.SameSchedule()
      ensures connected == old(connected) && plcErrors == old(plcErrors)
    {
      ghost var L := Layout();
      var list := GetScanList(period, true);
      WithListValid(L, period);
      ghost var V := Layout();
      info := NewTagInfo(stringTag, elements);
      if info != null {
        AppendTag(list, info, FindPeriodFrom(V, period, 0).value);
        InsertByList(L, period, info);
        InsertValid(L, period, info);
        assert Layout() == Insert(L, period, info);
      }
    }

    /** The move inside drvEtherIP_add_tag: out of its slower list, last into the list for `period`. */
    method MoveTag(list: ScanList, info: TagInfo, period: int, ghost loc: (nat, nat))
      requires Valid() && loc.0 < |scanlists| && loc.1 < |scanlists[loc.0].taginfos|
      requires list == scanlists[loc.0] && info == list.taginfos[loc.1]
      modifies this, scanlists, info
      ensures Valid()
      ensures Layout() == Insert(Withdraw(old(Layout()), loc.0, loc.1), period, info)
      ensures info.elements == old(info.elements) && info.scanlist != null && info.scanlist.period == period
      ensures info.ValueKept()
      ensures forall l | l in old(scanlists) :: l.SameSchedule()
      ensures connected == old(connected) && plcErrors == old(plcErrors)
    {
      ghost var L := Layout();
      ghost var value := info.Value();
      WithdrawValid(L, loc.0, loc.1);
      NotElsewhere(L, loc.0, loc.1);
      WithdrawTag(list, info, loc.0, loc.1);
      assert info.Value() == value;
      ghost var W := Layout();
      var target := GetScanList(period, true);
      WithListValid(W, period);
      ghost var V := Layout();
      AppendTag(target, info, FindPeriodFrom(V, period, 0).value);
      assert info.Value() == value;
      InsertByList(W, period, info);
      InsertValid(W, period, info);
      assert Layout() == Insert(W, period, info);
    }
  }

  // ---------------------------------------------------------------
  // The driver's PLCs (get_PLC)
  // ---------------------------------------------------------------

  /** The first PLC at or after `i` with that name. */
  function FindPLCFrom(plcs: seq<PLC>, name: string, i: nat): (r: Option<nat>)
    requires i <= |plcs|
    decreases |plcs| - i
    ensures r.Some? ==> i <= r.value < |plcs| && plcs[r.value].name == name
    ensures r.Some? ==> forall k | i <= k < r.value :: plcs[k].name != name
    ensures r.None? ==> forall k | i <= k < |plcs| :: plcs[k].name != name
  {
    if i == |plcs| then None
    else if plcs[i].name == name then Some(i)
    else FindPLCFrom(plcs, name, i + 1)
  }

  /** No two PLCs share a name. */
  predicate UniquePLCNames(plcs: seq<PLC>)
  {
    forall i, j | 0 <= i < j < |plcs| :: plcs[i].name != plcs[j].name
  }

  /** Among PLCs of unique names, the search for a PLC's name finds that PLC. */
  lemma FindUniquePLC(plcs: seq<PLC>, k: nat)
    requires UniquePLCNames(plcs) && k < |plcs|
    ensures FindPLCFrom(plcs, plcs[k].name, 0) == Some(k)
  {
  }

  /**
   * Appending a PLC whose name is not taken keeps the names unique, and the
   * search for that name then finds it last.
   */
  lemma AppendPLC(plcs: seq<PLC>, plc: PLC)
    requires UniquePLCNames(plcs) && FindPLCFrom(plcs, plc.name, 0).None?
    ensures UniquePLCNames(plcs + [plc])
    ensures FindPLCFrom(plcs + [plc], plc.name, 0) == Some(|plcs|)
  {
    FindUniquePLC(plcs + [plc], |plcs|);
  }

  class Driver {
    /** drvEtherIP_private.PLCs */
    var plcs: seq<PLC>

    /** No PLCs yet. */
    constructor ()
      ensures plcs == []
    {
      plcs := [];
    }

    /**
     * get_PLC: the PLC of that name; when there is none, a new PLC appended
     * after the others if `create` is set, null otherwise.
     */
    method GetPLC(name: string, create: bool) returns (plc: PLC?)
      requires UniquePLCNames(plcs)
      modifies this
      ensures UniquePLCNames(plcs)
      ensures FindPLCFrom(old(plcs), name, 0).Some? ==>
        plcs == old(plcs) && plc == plcs[FindPLCFrom(old(plcs), name, 0).value]
      ensures FindPLCFrom(old(plcs), name, 0).None? && create ==>
        plc != null && fresh(plc) && plcs == old(plcs) + [plc]
        && plc.name == name && plc.scanlists == [] && !plc.connected && plc.plcErrors == 0
      ensures FindPLCFrom(old(plcs), name, 0).None? && !create ==> plc == null && plcs == old(plcs)
      ensures plc != null ==> FindPLCFrom(plcs, name, 0).Some? && plc == plcs[FindPLCFrom(plcs, name, 0).value]
    {
      var i := 0;
      while i < |plcs|
        invariant i <= |plcs| && FindPLCFrom(plcs, name, i) == FindPLCFrom(plcs, name, 0)
      {
        if plcs[i].name == name {
          return plcs[i];
        }
        i := i + 1;
      }
      if !create {
        return null;
      }
      plc := new PLC(name);
      AppendPLC(plcs, plc);
      plcs := plcs + [plc];
    }
  }
}
