/**
 * The INST_IO link of a record (devEtherIP.c, find_token and analyze_link):
 * the text "PLC tag flags..." names the PLC, the tag, and flags that pick
 * a single element, a scan period, a bit number or one of the driver's
 * statistics. A tag that ends in "[n]" is cut into the array tag and the
 * element n; for binary records an element of a BOOL array is turned into
 * a 32-bit word and the bit inside it.
 *
 * strtod and strtol are C library calls. What they report at each position
 * of the link text is an input here, constrained by what the C library
 * promises about it.
 */
module Links {
  import opened Options
  import opened Tags
  import BitArray

  // ---------------------------------------------------------------
  // find_token
  // ---------------------------------------------------------------

  /** The first position at or after i that is not a space, or |s|. */
  function SkipBlanks(s: string, i: nat): (r: nat)
    requires i <= |s|
    ensures i <= r <= |s| && (r < |s| ==> s[r] != ' ')
    decreases |s| - i
  {
    if i < |s| && s[i] == ' ' then SkipBlanks(s, i + 1) else i
  }

  /** The first space at or after i, or |s| (strchr, or the end of the string). */
  function SpaceFrom(s: string, i: nat): (r: nat)
    requires i <= |s|
    ensures i <= r <= |s|
    decreases |s| - i
  {
    if i < |s| && s[i] != ' ' then SpaceFrom(s, i + 1) else i
  }

  /** The token find_token finds from i: its start and end, or None when only spaces are left. */
  function Token(s: string, i: nat): (r: Option<(nat, nat)>)
    requires i <= |s|
    ensures r.Some? ==> i <= r.value.0 < r.value.1 <= |s|
  {
    var a := SkipBlanks(s, i);
    if a == |s| then None else Some((a, SpaceFrom(s, a)))
  }

  lemma {:induction false} SkipBlanksSpec(s: string, i: nat)
    requires i <= |s|
    ensures forall k | i <= k < SkipBlanks(s, i) :: s[k] == ' '
    decreases |s| - i
  {
    if i < |s| && s[i] == ' ' {
      SkipBlanksSpec(s, i + 1);
    }
  }

  lemma {:induction false} SpaceFromSpec(s: string, i: nat)
    requires i <= |s|
    ensures forall k | i <= k < SpaceFrom(s, i) :: s[k] != ' '
    ensures SpaceFrom(s, i) < |s| ==> s[SpaceFrom(s, i)] == ' '
    decreases |s| - i
  {
    if i < |s| && s[i] != ' ' {
      SpaceFromSpec(s, i + 1);
    }
  }

  /**
   * A token is a maximal run of non-space characters after the spaces at
   * i; there is none exactly when only spaces are left.
   */
  lemma TokenShape(s: string, i: nat)
    requires i <= |s|
    ensures Token(s, i).None? <==> forall k | i <= k < |s| :: s[k] == ' '
    ensures Token(s, i).Some? ==>
      var (a, b) := Token(s, i).value;
      && (forall k | i <= k < a :: s[k] == ' ')
      && (forall k | a <= k < b :: s[k] != ' ')
      && (b == |s| || s[b] == ' ')
  {
    SkipBlanksSpec(s, i);
    var a := SkipBlanks(s, i);
    if a < |s| {
      SpaceFromSpec(s, a);
    }
  }

  /** find_token: skip the spaces, then run to the next space or the end. */
  method FindToken(s: string, i: nat) returns (t: Option<(nat, nat)>)
    requires i <= |s|
    ensures t == Token(s, i)
  {
    var p := i;
    while p < |s| && s[p] == ' '
      invariant i <= p <= |s| && SkipBlanks(s, p) == SkipBlanks(s, i)
    {
      p := p + 1;
    }
    if p == |s| {
      return None;
    }
    var end := p;
    while end < |s| && s[end] != ' '
      invariant p <= end <= |s| && SpaceFrom(s, end) == SpaceFrom(s, p)
    {
      end := end + 1;
    }
    return Some((p, end));
  }

  // ---------------------------------------------------------------
  // The flags
  // ---------------------------------------------------------------

  datatype SpecialOption =
    | ReadSingleElement | ScanPeriod | BitNumber | Force
    | PlcErrors | PlcTaskSlow | ListErrors | ListTicks
    | ListScanTime | ListMinScanTime | ListMaxScanTime | TagTransferTime

  /** The text of each flag in the special_options table; "S " and "B " include their space. */
  function OptionText(o: SpecialOption): string
  {
    match o
    case ReadSingleElement => "E"
    case ScanPeriod => "S "
    case BitNumber => "B "
    case Force => "FORCE"
    case PlcErrors => "PLC_ERRORS"
    case PlcTaskSlow => "PLC_TASK_SLOW"
    case ListErrors => "LIST_ERRORS"
    case ListTicks => "LIST_TICKS"
    case ListScanTime => "LIST_SCAN_TIME"
    case ListMinScanTime => "LIST_MIN_SCAN_TIME"
    case ListMaxScanTime => "LIST_MAX_SCAN_TIME"
    case TagTransferTime => "TAG_TRANSFER_TIME"
  }

  /** The order in which analyze_link tries the flags (their bit order). */
  const Order: seq<SpecialOption> := [
    ReadSingleElement, ScanPeriod, BitNumber, Force,
    PlcErrors, PlcTaskSlow, ListErrors, ListTicks,
    ListScanTime, ListMinScanTime, ListMaxScanTime, TagTransferTime]

  /** strncmp(s + p, text, len) == 0: the link text continues at p with the flag's text. */
  predicate OptionAt(s: string, p: nat, o: SpecialOption)
  {
    var text := OptionText(o);
    p + |text| <= |s| && s[p..p + |text|] == text
  }

  /** The first flag, from table entry j on, whose text starts at p. */
  function FirstOption(s: string, p: nat, j: nat): (r: Option<nat>)
    requires j <= |Order|
    ensures r.Some? ==> j <= r.value < |Order| && OptionAt(s, p, Order[r.value])
    decreases |Order| - j
  {
    if j == |Order| then None
    else if OptionAt(s, p, Order[j]) then Some(j)
    else FirstOption(s, p, j + 1)
  }

  /** FirstOption finds the earliest matching entry, and None means no entry matches. */
  lemma {:induction false} FirstOptionSpec(s: string, p: nat, j: nat)
    requires j <= |Order|
    ensures FirstOption(s, p, j).None? ==> forall k | j <= k < |Order| :: !OptionAt(s, p, Order[k])
    ensures FirstOption(s, p, j).Some? ==> forall k | j <= k < FirstOption(s, p, j).value :: !OptionAt(s, p, Order[k])
    decreases |Order| - j
  {
    if j < |Order| && !OptionAt(s, p, Order[j]) {
      FirstOptionSpec(s, p, j + 1);
      var r := FirstOption(s, p, j + 1);
      assert FirstOption(s, p, j) == r;
      var hi := if r.Some? then r.value else |Order|;
      forall k | j <= k < hi
        ensures !OptionAt(s, p, Order[k])
      {
        if k == j {
        } else {
          assert j + 1 <= k < hi;
        }
      }
    }
  }

  /** The loop over special_options: the first entry whose text starts at p. */
  method MatchOption(s: string, p: nat) returns (r: Option<nat>)
    ensures r == FirstOption(s, p, 0)
  {
    for j := 0 to |Order|
      invariant FirstOption(s, p, 0) == FirstOption(s, p, j)
    {
      var text := OptionText(Order[j]);
      if p + |text| <= |s| && s[p..p + |text|] == text {
        return Some(j);
      }
    }
    return None;
  }

  // ---------------------------------------------------------------
  // The C library's number scanners
  // ---------------------------------------------------------------

  /** What strtod reports at a position: the value, or an overflow (±HUGE_VAL), and where the number ends. */
  datatype DoubleScan = DoubleScan(value: real, huge: bool, end: nat)

  /** What strtol reports at a position: the value, saturated to the range of `long`, and where it ends. */
  datatype LongScan = LongScan(value: int, end: nat)

  /**
   * `long` is 32 bits wide: the driver refuses to start unless its UDINT,
   * an `unsigned long`, has 4 bytes.
   */
  const LONG_MIN: int := -0x8000_0000
  const LONG_MAX: int := 0x7FFF_FFFF

  /**
   * strtod at every position k of s: the number ends within the string,
   * at k itself when there is no number, and then the value is 0.
   */
  predicate StrtodContract(s: string, strtod: seq<DoubleScan>)
  {
    |strtod| == |s| + 1 &&
    forall k | 0 <= k <= |s| ::
      k <= strtod[k].end <= |s| && (strtod[k].end == k ==> strtod[k].value == 0.0 && !strtod[k].huge)
  }

  /** strtol at every position k of s, in the same terms, with a value that fits a `long`. */
  predicate StrtolContract(s: string, strtol: seq<LongScan>)
  {
    |strtol| == |s| + 1 &&
    forall k | 0 <= k <= |s| ::
      k <= strtol[k].end <= |s| && LONG_MIN <= strtol[k].value <= LONG_MAX
      && (strtol[k].end == k ==> strtol[k].value == 0)
  }

  /**
   * The number after a scan or bit flag (at p + 2, behind the flag's two
   * characters) is refused when strtod finds none there or it overflows.
   */
  predicate NumberRejected(p: nat, scan: DoubleScan)
  {
    scan.end == p + 2 || scan.huge
  }

  /** The scan flag's check as analyze_link writes it: strtod's end is compared with the flag's own start p. */
  predicate ScanRejectedAsWritten(p: nat, scan: DoubleScan)
  {
    scan.end == p || scan.huge
  }

  /**
   * The bit flag's check as written: strtod's end against p, and the scan
   * period read so far (not the bit number) against HUGE_VAL.
   */
  predicate BitRejectedAsWritten(p: nat, scan: DoubleScan, periodHuge: bool)
  {
    scan.end == p || periodHuge
  }

  /**
   * As written, neither check ever sees a missing number: strtod never
   * ends before p + 2, so a scan flag is refused only for an overflow and
   * a bit flag only for a huge period, which an earlier scan flag could
   * not have left. The corrected check refuses both.
   */
  lemma CheckAsWrittenMissesNumbers(s: string, strtod: seq<DoubleScan>, p: nat)
    requires StrtodContract(s, strtod) && p + 2 <= |s|
    ensures ScanRejectedAsWritten(p, strtod[p + 2]) <==> strtod[p + 2].huge
    ensures !BitRejectedAsWritten(p, strtod[p + 2], false)
    ensures strtod[p + 2].end == p + 2 ==> NumberRejected(p, strtod[p + 2])
    ensures strtod[p + 2].huge ==> NumberRejected(p, strtod[p + 2])
  {
    assert p + 2 <= strtod[p + 2].end;
  }

  /** The text "S" followed by nothing but a space: the scan flag without a number. */
  lemma ScanFlagWithoutNumber()
    ensures var s := "S ";
      forall strtod: seq<DoubleScan> | StrtodContract(s, strtod) ::
        !ScanRejectedAsWritten(0, strtod[2]) && NumberRejected(0, strtod[2])
  {
    var s := "S ";
    forall strtod: seq<DoubleScan> | StrtodContract(s, strtod)
      ensures !ScanRejectedAsWritten(0, strtod[2]) && NumberRejected(0, strtod[2])
    {
      assert 2 <= strtod[2].end <= 2;
    }
  }

  /**
   * The bit number as a size_t: the C conversion keeps the integer part
   * of a value in range; out of range it is undefined, and 0 here.
   */
  function BitOf(v: real): (r: nat)
    ensures r < SIZE_T_RANGE
    ensures 0.0 <= v < SIZE_T_RANGE as real ==> r as real <= v < r as real + 1.0
  {
    if 0.0 <= v < SIZE_T_RANGE as real then v.Floor else 0
  }

  /** The flags read so far: which were given, the scan period (0 without S) and the bit number (0 without B). */
  datatype Flags = Flags(special: set<SpecialOption>, period: real, bit: nat)

  datatype LinkError =
    | MissingPLC | MissingTag | InvalidFlag(at: nat) | BadScanFlag | BadBitFlag | MalformedArrayTag

  datatype Result<T> = Ok(value: T) | Err(error: LinkError)

  /**
   * The flag loop of analyze_link from position `from`: every token must
   * start with a flag's text; S and B take a number, and the next token is
   * looked for where that number ends.
   */
  function ParseFlags(s: string, strtod: seq<DoubleScan>, from: nat, st: Flags): (r: Result<Flags>)
    requires from <= |s| && StrtodContract(s, strtod)
    decreases |s| - from
  {
    match Token(s, from)
    case None => Ok(st)
    case Some(t) =>
      match FirstOption(s, t.0, 0)
      case None => Err(InvalidFlag(t.0))
      case Some(j) =>
        var o := Order[j];
        var st := st.(special := st.special + {o});
        if o == ScanPeriod || o == BitNumber then
          var scan := strtod[t.0 + 2];
          if NumberRejected(t.0, scan) then Err(if o == ScanPeriod then BadScanFlag else BadBitFlag)
          else if o == ScanPeriod then ParseFlags(s, strtod, scan.end, st.(period := scan.value))
          else ParseFlags(s, strtod, scan.end, st.(bit := BitOf(scan.value)))
        else ParseFlags(s, strtod, t.1, st)
  }

  /** strtod read a complete number at k, without overflow. */
  predicate Accepted(strtod: seq<DoubleScan>, k: nat)
    requires k < |strtod|
  {
    strtod[k].end > k && !strtod[k].huge
  }

  /**
   * Flags only accumulate; a scan period or bit number that changed came
   * from a number strtod read completely, after an S or B flag.
   */
  lemma {:induction false} FlagsKeep(s: string, strtod: seq<DoubleScan>, from: nat, st: Flags)
    requires from <= |s| && StrtodContract(s, strtod)
    ensures var r := ParseFlags(s, strtod, from, st);
      r.Ok? ==> st.special <= r.value.special
    ensures var r := ParseFlags(s, strtod, from, st);
      r.Ok? && r.value.period != st.period ==>
        ScanPeriod in r.value.special
        && exists k | from < k <= |s| :: Accepted(strtod, k) && r.value.period == strtod[k].value
    ensures var r := ParseFlags(s, strtod, from, st);
      r.Ok? && r.value.bit != st.bit ==>
        BitNumber in r.value.special
        && exists k | from < k <= |s| :: Accepted(strtod, k) && r.value.bit == BitOf(strtod[k].value)
    decreases |s| - from
  {
    match Token(s, from)
    case None =>
    case Some(t) =>
      match FirstOption(s, t.0, 0)
      case None =>
      case Some(j) =>
        var o := Order[j];
        var st1 := st.(special := st.special + {o});
        if o == ScanPeriod || o == BitNumber {
          var scan := strtod[t.0 + 2];
          if !NumberRejected(t.0, scan) {
            var k := t.0 + 2;
            assert Accepted(strtod, k);
            var st2 := if o == ScanPeriod then st1.(period := scan.value) else st1.(bit := BitOf(scan.value));
            FlagsKeep(s, strtod, scan.end, st2);
          }
        } else {
          FlagsKeep(s, strtod, t.1, st1);
        }
  }

  /** A token refused as an invalid flag starts at or after `from` and begins with no flag's text. */
  lemma {:induction false} InvalidFlagMatchesNothing(s: string, strtod: seq<DoubleScan>, from: nat, st: Flags)
    requires from <= |s| && StrtodContract(s, strtod)
    ensures var r := ParseFlags(s, strtod, from, st);
      r.Err? && r.error.InvalidFlag? ==>
        from <= r.error.at < |s| && s[r.error.at] != ' ' && forall o :: !OptionAt(s, r.error.at, o)
    decreases |s| - from
  {
    match Token(s, from)
    case None =>
    case Some(t) =>
      match FirstOption(s, t.0, 0)
      case None =>
        TokenShape(s, from);
        NoOption(s, t.0);
      case Some(j) =>
        var o := Order[j];
        var st1 := st.(special := st.special + {o});
        if o == ScanPeriod || o == BitNumber {
          var scan := strtod[t.0 + 2];
          if !NumberRejected(t.0, scan) {
            var st2 := if o == ScanPeriod then st1.(period := scan.value) else st1.(bit := BitOf(scan.value));
            InvalidFlagMatchesNothing(s, strtod, scan.end, st2);
          }
        } else {
          InvalidFlagMatchesNothing(s, strtod, t.1, st1);
        }
  }

  /** When no table entry matches at p, no flag's text starts there. */
  lemma NoOption(s: string, p: nat)
    requires FirstOption(s, p, 0).None?
    ensures forall o :: !OptionAt(s, p, o)
  {
    FirstOptionSpec(s, p, 0);
    forall o
      ensures !OptionAt(s, p, o)
    {
      var j := OrderIndex(o);
      assert !OptionAt(s, p, Order[j]);
    }
  }

  /** Where a flag sits in the table. */
  function OrderIndex(o: SpecialOption): (j: nat)
    ensures j < |Order| && Order[j] == o
  {
    match o
    case ReadSingleElement => 0
    case ScanPeriod => 1
    case BitNumber => 2
    case Force => 3
    case PlcErrors => 4
    case PlcTaskSlow => 5
    case ListErrors => 6
    case ListTicks => 7
    case ListScanTime => 8
    case ListMinScanTime => 9
    case ListMaxScanTime => 10
    case TagTransferTime => 11
  }

  /**
   * A scan or bit flag whose number is missing or overflows makes the
   * whole link fail, whatever follows it.
   */
  lemma BadNumberRefused(s: string, strtod: seq<DoubleScan>, from: nat, st: Flags, j: nat)
    requires from <= |s| && StrtodContract(s, strtod)
    requires Token(s, from).Some? && FirstOption(s, Token(s, from).value.0, 0) == Some(j)
    requires Order[j] == ScanPeriod || Order[j] == BitNumber
    requires NumberRejected(Token(s, from).value.0, strtod[Token(s, from).value.0 + 2])
    ensures ParseFlags(s, strtod, from, st) == Err(if Order[j] == ScanPeriod then BadScanFlag else BadBitFlag)
  {
  }

  /** The flag loop of analyze_link. */
  method ScanFlags(s: string, strtod: seq<DoubleScan>, from: nat) returns (r: Result<Flags>)
    requires from <= |s| && StrtodContract(s, strtod)
    ensures r == ParseFlags(s, strtod, from, Flags({}, 0.0, 0))
  {
    var st := Flags({}, 0.0, 0);
    var end := from;
    var t := FindToken(s, end);
    while t.Some?
      invariant end <= |s| && t == Token(s, end)
      invariant ParseFlags(s, strtod, end, st) == ParseFlags(s, strtod, from, Flags({}, 0.0, 0))
      decreases |s| - end
    {
      var p := t.value.0;
      var j := MatchOption(s, p);
      if j.None? {
        return Err(InvalidFlag(p));
      }
      var o := Order[j.value];
      st := st.(special := st.special + {o});
      end := t.value.1;
      if o == ScanPeriod {
        var scan := strtod[p + 2];
        if NumberRejected(p, scan) {
          return Err(BadScanFlag);
        }
        st, end := st.(period := scan.value), scan.end;
      } else if o == BitNumber {
        var scan := strtod[p + 2];
        if NumberRejected(p, scan) {
          return Err(BadBitFlag);
        }
        st, end := st.(bit := BitOf(scan.value)), scan.end;
      }
      t := FindToken(s, end);
    }
    return Ok(st);
  }

  // ---------------------------------------------------------------
  // The scan period
  // ---------------------------------------------------------------

  /**
   * The period when no scan flag gave a positive one: the record's SCAN
   * period, else the driver's default rate, else one second.
   */
  function PeriodOf(flagPeriod: real, recordPeriod: real, defaultRate: real): (r: real)
    ensures r > 0.0
    ensures r == flagPeriod || r == recordPeriod || r == defaultRate || r == 1.0
    ensures flagPeriod > 0.0 ==> r == flagPeriod
    ensures flagPeriod <= 0.0 && recordPeriod > 0.0 ==> r == recordPeriod
  {
    if flagPeriod > 0.0 then flagPeriod
    else if recordPeriod > 0.0 then recordPeriod
    else if defaultRate > 0.0 then defaultRate
    else 1.0
  }

  // ---------------------------------------------------------------
  // The array tag
  // ---------------------------------------------------------------

  /** The last '[' before position j, if any. */
  function LastOpen(tag: string, j: nat): (r: Option<nat>)
    requires j <= |tag|
    ensures r.Some? ==> r.value < j
  {
    if j == 0 then None else if tag[j - 1] == '[' then Some(j - 1) else LastOpen(tag, j - 1)
  }

  lemma {:induction false} LastOpenSpec(tag: string, j: nat)
    requires j <= |tag|
    ensures LastOpen(tag, j).None? ==> forall k | 0 <= k < j :: tag[k] != '['
    ensures LastOpen(tag, j).Some? ==>
      var b := LastOpen(tag, j).value;
      tag[b] == '[' && forall k | b < k < j :: tag[k] != '['
  {
    if j > 0 && tag[j - 1] != '[' {
      LastOpenSpec(tag, j - 1);
    }
  }

  /**
   * The tag text from ts to te, with a trailing "[n]" cut off unless the
   * single-element flag was given: the tag before the last '[' and the
   * element strtol reads after it. A '[' that is missing or first, no
   * number, or a number that saturates `long` is a malformed array tag.
   */
  function ArrayTag(s: string, strtol: seq<LongScan>, ts: nat, te: nat, single: bool): (r: Result<(string, size_t)>)
    requires ts < te <= |s| && StrtolContract(s, strtol)
  {
    var tag := s[ts..te];
    if tag[|tag| - 1] != ']' || single then Ok((tag, 0))
    else
      match LastOpen(tag, |tag| - 1)
      case None => Err(MalformedArrayTag)
      case Some(b) =>
        if b == 0 then Err(MalformedArrayTag)
        else
          var scan := strtol[ts + b + 1];
          if scan.end == ts + b + 1 || scan.value == LONG_MAX || scan.value == LONG_MIN then Err(MalformedArrayTag)
          else Ok((tag[..b], ToSizeT(scan.value)))
  }

  /**
   * A tag that was cut is the text before its last '[', which is not its
   * first character and is followed by a number; one that was not cut is
   * the whole token, with element 0.
   */
  lemma ArrayTagShape(s: string, strtol: seq<LongScan>, ts: nat, te: nat, single: bool)
    requires ts < te <= |s| && StrtolContract(s, strtol)
    ensures s[te - 1] != ']' || single ==> ArrayTag(s, strtol, ts, te, single) == Ok((s[ts..te], 0))
    ensures s[te - 1] == ']' && !single && ArrayTag(s, strtol, ts, te, single).Ok? ==>
      var (tag, element) := ArrayTag(s, strtol, ts, te, single).value;
      var b := |tag|;
      && 0 < b < te - ts - 1 && tag == s[ts..ts + b] && s[ts + b] == '['
      && (forall k | ts + b < k < te - 1 :: s[k] != '[')
      && strtol[ts + b + 1].end > ts + b + 1
      && element == ToSizeT(strtol[ts + b + 1].value)
    ensures s[te - 1] == ']' && !single && (forall k | ts < k < te - 1 :: s[k] != '[') ==>
      ArrayTag(s, strtol, ts, te, single) == Err(MalformedArrayTag)
  {
    var tag := s[ts..te];
    LastOpenSpec(tag, |tag| - 1);
    if s[te - 1] == ']' && !single {
      match LastOpen(tag, |tag| - 1)
      case None =>
      case Some(b) =>
        assert tag[b] == s[ts + b];
        forall k | ts + b < k < te - 1
          ensures s[k] != '['
        {
          assert s[k] == tag[k - ts];
        }
        if b > 0 {
          assert ts < ts + b < te - 1 && s[ts + b] == '[';
        }
    }
  }

  /** The cut of "array_tag[el]" in analyze_link: scan back for '[', then read the element. */
  method CutArrayTag(s: string, strtol: seq<LongScan>, ts: nat, te: nat, single: bool) returns (r: Result<(string, size_t)>)
    requires ts < te <= |s| && StrtolContract(s, strtol)
    ensures r == ArrayTag(s, strtol, ts, te, single)
  {
    var tag := s[ts..te];
    if tag[|tag| - 1] != ']' || single {
      return Ok((tag, 0));
    }
    var p: nat := |tag| - 1;
    while p > 0
      invariant p < |tag| && LastOpen(tag, |tag| - 1) == LastOpen(tag, p)
    {
      p := p - 1;
      if tag[p] == '[' {
        break;
      }
    }
    if p == 0 {
      return Err(MalformedArrayTag);
    }
    var scan := strtol[ts + p + 1];
    if scan.end == ts + p + 1 || scan.value == LONG_MAX || scan.value == LONG_MIN {
      return Err(MalformedArrayTag);
    }
    return Ok((tag[..p], ToSizeT(scan.value)));
  }

  // ---------------------------------------------------------------
  // Binary records: element and mask
  // ---------------------------------------------------------------

  /**
   * Where a record's data sits: the element the driver reads from, the
   * bit of the mask (the first bit of interest), and the number of
   * elements the record asks the driver to read.
   */
  datatype Placement = Placement(element: size_t, maskBit: nat, elements: size_t)

  /**
   * A binary record without a bit flag counts bits of a BOOL array packed
   * into 32-bit words, so its element is a bit number; otherwise the
   * element stays and the mask is the flag's bit (0 without one). All
   * arithmetic is size_t arithmetic.
   */
  function Place(element: size_t, bits: size_t, special: set<SpecialOption>, bit: nat): Placement
  {
    if bits > 0 && BitNumber !in special then
      var last := (element + bits - 1) % SIZE_T_RANGE;
      Placement(element / 32, element % 32, (last / 32 + 1) % SIZE_T_RANGE)
    else
      Placement(element, bit, (element + 1) % SIZE_T_RANGE)
  }

  /**
   * For a BOOL array the word and the mask bit locate the original bit
   * number, and the elements registered with the driver are exactly those
   * that the record's run of bits reaches, as get_bits and put_bits walk
   * it; with a bit flag one element is registered.
   */
  lemma PlaceCoversRun(element: size_t, bits: size_t, special: set<SpecialOption>, bit: nat)
    requires element + bits < SIZE_T_RANGE - 1
    ensures var pl := Place(element, bits, special, bit);
      bits > 0 && BitNumber !in special ==>
        && pl.maskBit < 32 && 32 * pl.element + pl.maskBit == element
        && pl.elements == BitArray.ElementOf(pl.element, pl.maskBit, bits - 1) + 1
    ensures var pl := Place(element, bits, special, bit);
      (bits == 0 || BitNumber in special) ==>
        pl.element == element && pl.maskBit == bit && pl.elements == element + 1
  {
    if bits > 0 && BitNumber !in special {
      var e, m := element / 32, element % 32;
      var last := element + bits - 1;
      assert element == 32 * e + m;
      assert last % SIZE_T_RANGE == last;
      WordOf(e, m, bits - 1);
      assert last / 32 == e + (m + bits - 1) / 32;
      assert (last / 32 + 1) % SIZE_T_RANGE == last / 32 + 1;
    }
  }

  /** Bit x after bit m of word e lies in word e + (m + x) / 32. */
  lemma WordOf(e: nat, m: nat, x: nat)
    requires m < 32
    ensures (32 * e + m + x) / 32 == e + (m + x) / 32
  {
    var q, r := (m + x) / 32, (m + x) % 32;
    assert 32 * e + m + x == 32 * (e + q) + r;
  }

  // ---------------------------------------------------------------
  // analyze_link
  // ---------------------------------------------------------------

  /** What analyze_link extracts from a link. */
  datatype Link = Link(plc: string, tag: string, special: set<SpecialOption>, period: real, place: Placement)

  /**
   * analyze_link on the link text s for a record of `bits` bits (0 for
   * non-binary records), with the record's SCAN period and the driver's
   * default rate.
   */
  function Analyze(s: string, bits: size_t, strtod: seq<DoubleScan>, strtol: seq<LongScan>,
                   recordPeriod: real, defaultRate: real): (r: Result<Link>)
    requires StrtodContract(s, strtod) && StrtolContract(s, strtol)
  {
    match Token(s, 0)
    case None => Err(MissingPLC)
    case Some(plc) =>
      match Token(s, plc.1)
      case None => Err(MissingTag)
      case Some(tag) =>
        match ParseFlags(s, strtod, tag.1, Flags({}, 0.0, 0))
        case Err(x) => Err(x)
        case Ok(flags) =>
          match ArrayTag(s, strtol, tag.0, tag.1, ReadSingleElement in flags.special)
          case Err(x) => Err(x)
          case Ok(cut) =>
            Ok(Link(s[plc.0..plc.1], cut.0, flags.special,
                    PeriodOf(flags.period, recordPeriod, defaultRate),
                    Place(cut.1, bits, flags.special, flags.bit)))
  }

  /**
   * A link that is accepted names a PLC and a tag without spaces, has a
   * positive period, and takes its PLC from the first token of the text.
   */
  lemma AnalyzeParts(s: string, bits: size_t, strtod: seq<DoubleScan>, strtol: seq<LongScan>,
                     recordPeriod: real, defaultRate: real)
    requires StrtodContract(s, strtod) && StrtolContract(s, strtol)
    ensures var r := Analyze(s, bits, strtod, strtol, recordPeriod, defaultRate);
      r.Ok? ==>
        && |r.value.plc| > 0 && ' ' !in r.value.plc && |r.value.tag| > 0 && ' ' !in r.value.tag
        && r.value.period > 0.0
  {
    match Token(s, 0)
    case None =>
    case Some(plc) =>
      match Token(s, plc.1)
      case None =>
      case Some(tag) =>
        match ParseFlags(s, strtod, tag.1, Flags({}, 0.0, 0))
        case Err(x) =>
        case Ok(flags) =>
          var single := ReadSingleElement in flags.special;
          match ArrayTag(s, strtol, tag.0, tag.1, single)
          case Err(x) =>
          case Ok(cut) =>
            TokenWord(s, 0);
            TokenWord(s, plc.1);
            CutTagWord(s, strtol, tag.0, tag.1, single);
  }

  /** The tag that analyze_link keeps from a token without spaces is a non-empty word. */
  lemma CutTagWord(s: string, strtol: seq<LongScan>, ts: nat, te: nat, single: bool)
    requires ts < te <= |s| && StrtolContract(s, strtol) && ' ' !in s[ts..te]
    ensures var r := ArrayTag(s, strtol, ts, te, single);
      r.Ok? ==> |r.value.0| > 0 && ' ' !in r.value.0
  {
    ArrayTagShape(s, strtol, ts, te, single);
    var r := ArrayTag(s, strtol, ts, te, single);
    if r.Ok? {
      var b := |r.value.0|;
      assert r.value.0 == s[ts..te][..b];
    }
  }

  /** A token holds no space. */
  lemma TokenWord(s: string, i: nat)
    requires i <= |s| && Token(s, i).Some?
    ensures var (a, b) := Token(s, i).value; ' ' !in s[a..b]
  {
    TokenShape(s, i);
    var (a, b) := Token(s, i).value;
    NoSpaceSlice(s, a, b);
  }

  /** A stretch of text without spaces, as a string of its own. */
  lemma NoSpaceSlice(s: string, a: nat, b: nat)
    requires a <= b <= |s| && forall k | a <= k < b :: s[k] != ' '
    ensures ' ' !in s[a..b]
  {
    forall k | 0 <= k < b - a
      ensures s[a..b][k] != ' '
    {
      assert s[a..b][k] == s[a + k];
    }
  }

  /** The flag loop fails only for an invalid flag or a bad scan or bit number. */
  lemma {:induction false} FlagErrors(s: string, strtod: seq<DoubleScan>, from: nat, st: Flags)
    requires from <= |s| && StrtodContract(s, strtod)
    ensures var r := ParseFlags(s, strtod, from, st);
      r.Err? ==> r.error.InvalidFlag? || r.error == BadScanFlag || r.error == BadBitFlag
    decreases |s| - from
  {
    match Token(s, from)
    case None =>
    case Some(t) =>
      match FirstOption(s, t.0, 0)
      case None =>
      case Some(j) =>
        var o := Order[j];
        var st1 := st.(special := st.special + {o});
        if o == ScanPeriod || o == BitNumber {
          var scan := strtod[t.0 + 2];
          if !NumberRejected(t.0, scan) {
            var st2 := if o == ScanPeriod then st1.(period := scan.value) else st1.(bit := BitOf(scan.value));
            FlagErrors(s, strtod, scan.end, st2);
          }
        } else {
          FlagErrors(s, strtod, t.1, st1);
        }
  }

  /** analyze_link reports a missing PLC exactly for a link text of nothing but spaces. */
  lemma MissingPLCExactly(s: string, bits: size_t, strtod: seq<DoubleScan>, strtol: seq<LongScan>,
                          recordPeriod: real, defaultRate: real)
    requires StrtodContract(s, strtod) && StrtolContract(s, strtol)
    ensures Analyze(s, bits, strtod, strtol, recordPeriod, defaultRate) == Err(MissingPLC)
      <==> forall k | 0 <= k < |s| :: s[k] == ' '
  {
    TokenShape(s, 0);
    if Token(s, 0).Some? {
      var plc := Token(s, 0).value;
      if Token(s, plc.1).Some? {
        FlagErrors(s, strtod, Token(s, plc.1).value.1, Flags({}, 0.0, 0));
      }
    }
  }

  /**
   * An element number too large for a 32-bit `long` saturates strtol, and
   * the link is refused as a malformed array tag.
   */
  lemma SaturatedElementRefused(bits: size_t, strtod: seq<DoubleScan>, strtol: seq<LongScan>,
                                recordPeriod: real, defaultRate: real)
    requires StrtodContract("P t[99999999999]", strtod) && StrtolContract("P t[99999999999]", strtol)
    requires strtol[4] == LongScan(LONG_MAX, 15)
    ensures Analyze("P t[99999999999]", bits, strtod, strtol, recordPeriod, defaultRate) == Err(MalformedArrayTag)
  {
    var s := "P t[99999999999]";
    TokenShape(s, 0);
    assert Token(s, 0) == Some((0, 1));
    TokenShape(s, 1);
    assert s[1] == ' ' && s[2] != ' ';
    assert forall k | 2 <= k < 16 :: s[k] != ' ';
    assert Token(s, 1) == Some((2, 16));
    assert ParseFlags(s, strtod, 16, Flags({}, 0.0, 0)) == Ok(Flags({}, 0.0, 0));
    var tag := s[2..16];
    LastOpenSpec(tag, |tag| - 1);
    assert tag[1] == '[' && forall k | 1 < k < |tag| :: tag[k] != '[';
    assert LastOpen(tag, |tag| - 1) == Some(1);
  }

  /** analyze_link: PLC, tag, flags, period, array cut, binary placement. */
  method AnalyzeLink(s: string, bits: size_t, strtod: seq<DoubleScan>, strtol: seq<LongScan>,
                     recordPeriod: real, defaultRate: real) returns (r: Result<Link>)
    requires StrtodContract(s, strtod) && StrtolContract(s, strtol)
    ensures r == Analyze(s, bits, strtod, strtol, recordPeriod, defaultRate)
  {
    var plc := FindToken(s, 0);
    if plc.None? {
      return Err(MissingPLC);
    }
    var tag := FindToken(s, plc.value.1);
    if tag.None? {
      return Err(MissingTag);
    }
    var flags := ScanFlags(s, strtod, tag.value.1);
    if flags.Err? {
      return Err(flags.error);
    }
    var special := flags.value.special;
    var period := DefaultPeriod(flags.value.period, recordPeriod, defaultRate);
    var cut := CutArrayTag(s, strtol, tag.value.0, tag.value.1, ReadSingleElement in special);
    if cut.Err? {
      return Err(cut.error);
    }
    var place := PlaceElement(cut.value.1, bits, special, flags.value.bit);
    return Ok(Link(s[plc.value.0..plc.value.1], cut.value.0, special, period, place));
  }

  /** The period fallbacks of analyze_link when the flags gave no positive period. */
  method DefaultPeriod(flagPeriod: real, recordPeriod: real, defaultRate: real) returns (period: real)
    ensures period == PeriodOf(flagPeriod, recordPeriod, defaultRate)
  {
    period := flagPeriod;
    if period <= 0.0 {
      period := recordPeriod;
      if period <= 0.0 {
        period := defaultRate;
      }
      if period <= 0.0 {
        period := 1.0;
      }
    }
  }

  /** The element and mask computation of analyze_link, and the element count it registers. */
  method PlaceElement(element: size_t, bits: size_t, special: set<SpecialOption>, bit: nat) returns (place: Placement)
    ensures place == Place(element, bits, special, bit)
  {
    var e, maskBit, last := element, 0, 0;
    if bits > 0 && BitNumber !in special {
      maskBit := e % 32;
      last := (e + bits - 1) % SIZE_T_RANGE;
      e, last := e / 32, last / 32;
    } else {
      last := e;
      maskBit := bit;
    }
    return Placement(e, maskBit, (last + 1) % SIZE_T_RANGE);
  }
}
