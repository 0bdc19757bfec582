/**
 * ControlLogix tag strings and their parsed form (ether_ip.c,
 * EIP_parse_tag and EIP_copy_ParsedTag).
 *
 * A tag such as `a.b[3].c` is a list of segments: names and array
 * element indices. The C list of `ParsedTag` nodes becomes a `seq`;
 * the null pointer the parser returns on failure and the empty list are
 * the same value in C, and both are the empty sequence here.
 *
 * Strings are the characters before C's terminating NUL.
 */
module Tags {
  import opened Options

  const SIZE_T_RANGE: int := 0x1_0000_0000_0000_0000
  type size_t = x: int | 0 <= x < SIZE_T_RANGE

  datatype Segment = Name(name: string) | Element(index: size_t)

  // ---------------------------------------------------------------
  // The C library calls the parser relies on
  // ---------------------------------------------------------------

  /** strcspn(s, ".["): length of the prefix free of '.' and '['. */
  function Cspn(s: string): (n: nat)
    ensures n <= |s|
    ensures forall k :: 0 <= k < n ==> s[k] != '.' && s[k] != '['
    ensures n < |s| ==> s[n] == '.' || s[n] == '['
  {
    if s == [] || s[0] == '.' || s[0] == '[' then 0 else 1 + Cspn(s[1..])
  }

  /** strchr(s, c): index of the first `c`, or None. */
  function Strchr(s: string, c: char): (r: Option<nat>)
    ensures r.None? ==> c !in s
    ensures r.Some? ==> r.value < |s| && s[r.value] == c && c !in s[..r.value]
  {
    if s == [] then None
    else if s[0] == c then Some(0)
    else match Strchr(s[1..], c)
      case None => None
      case Some(k) => assert s[..k + 1] == [s[0]] + s[1..][..k]; Some(k + 1)
  }

  predicate IsDigit(c: char) { '0' <= c <= '9' }
  function DigitVal(c: char): nat requires IsDigit(c) { c as int - '0' as int }
  function DigitChar(d: nat): (c: char)
    requires d < 10
    ensures IsDigit(c) && DigitVal(c) == d
  {
    ('0' as int + d) as char
  }

  predicate IsSpace(c: char)
  {
    c == ' ' || c == '\t' || c == '\n' || c == '\r' || c as int == 11 || c as int == 12
  }

  function SkipSpace(s: string): (t: string)
    ensures |t| <= |s|
  {
    if s != [] && IsSpace(s[0]) then SkipSpace(s[1..]) else s
  }

  /** The longest prefix of decimal digits. */
  function Digits(s: string): (d: string)
    ensures |d| <= |s| && d == s[..|d|]
    ensures forall k :: 0 <= k < |d| ==> IsDigit(d[k])
  {
    if s != [] && IsDigit(s[0]) then [s[0]] + Digits(s[1..]) else []
  }

  /** The value of a string of decimal digits, most significant first. */
  function DigitsValue(d: string): nat
    requires forall k :: 0 <= k < |d| ==> IsDigit(d[k])
  {
    if d == [] then 0 else 10 * DigitsValue(d[..|d| - 1]) + DigitVal(d[|d| - 1])
  }

  /** atol: optional white space, an optional sign, decimal digits. */
  function Atol(s: string): int
  {
    var t := SkipSpace(s);
    if t != [] && t[0] == '-' then -(DigitsValue(Digits(t[1..])) as int)
    else if t != [] && t[0] == '+' then DigitsValue(Digits(t[1..]))
    else DigitsValue(Digits(t))
  }

  /** The conversion of atol's `long` to the `size_t` element field. */
  function ToSizeT(v: int): size_t { v % SIZE_T_RANGE }

  /** A value that fits is kept by the conversion. */
  lemma SmallSizeT(v: int)
    requires 0 <= v < SIZE_T_RANGE
    ensures ToSizeT(v) == v
  {
  }

  /** printf's "%u": the decimal digits of `n`, no leading zeros. */
  function Decimal(n: nat): (d: string)
    ensures |d| >= 1
    ensures forall k :: 0 <= k < |d| ==> IsDigit(d[k])
  {
    if n < 10 then [DigitChar(n)] else Decimal(n / 10) + [DigitChar(n % 10)]
  }

  lemma {:induction false} DecimalValue(n: nat)
    ensures DigitsValue(Decimal(n)) == n
  {
    if n >= 10 {
      DecimalValue(n / 10);
      var d := Decimal(n);
      assert d[..|d| - 1] == Decimal(n / 10);
    }
  }

  lemma {:induction false} DigitsStop(d: string, r: string)
    requires forall k :: 0 <= k < |d| ==> IsDigit(d[k])
    requires r == [] || !IsDigit(r[0])
    ensures Digits(d + r) == d
  {
    if d != [] {
      assert (d + r)[1..] == d[1..] + r;
      DigitsStop(d[1..], r);
    } else {
      assert d + r == r;
    }
  }

  /** atol reads back what "%u" printed, up to the first non-digit. */
  lemma AtolDecimal(n: nat, r: string)
    requires r == [] || !IsDigit(r[0])
    ensures Atol(Decimal(n) + r) == n
  {
    var d := Decimal(n);
    assert (d + r)[0] == d[0];
    DigitsStop(d, r);
    DecimalValue(n);
  }

  // ---------------------------------------------------------------
  // EIP_parse_tag
  // ---------------------------------------------------------------

  /** Prepend `tl` to a partial parse; a failure stays a failure. */
  function Then(tl: seq<Segment>, r: Option<seq<Segment>>): Option<seq<Segment>>
  {
    match r
    case None => None
    case Some(l) => Some(tl + l)
  }

  lemma ThenNothing(r: Option<seq<Segment>>)
    ensures Then([], r) == r
  {
    if r.Some? {
      assert [] + r.value == r.value;
    }
  }

  lemma ThenThen(a: seq<Segment>, b: seq<Segment>, r: Option<seq<Segment>>)
    ensures Then(a, Then(b, r)) == Then(a + b, r)
  {
    if r.Some? {
      assert a + (b + r.value) == (a + b) + r.value;
    }
  }

  /**
   * The segments the parser appends from `s` on: None when an index has
   * no closing ']' (the parser then returns null, dropping what it had).
   * An empty name ends the parse with what was collected so far.
   */
  function ParseFrom(s: string): Option<seq<Segment>>
    decreases |s|
  {
    var len := Cspn(s);
    if len == 0 then Some([])
    else if len == |s| then Some([Name(s)])
    else if s[len] == '.' then Then([Name(s[..len])], ParseFrom(s[len + 1..]))
    else
      var idx := s[len + 1..];
      match Strchr(idx, ']')
      case None => None
      case Some(k) =>
        Then([Name(s[..len]), Element(ToSizeT(Atol(idx)))], ParseFrom(SkipDot(idx[k + 1..])))
  }

  lemma UnfoldEnd(s: string)
    requires Cspn(s) == 0
    ensures ParseFrom(s) == Some([])
  {
  }

  lemma UnfoldLast(s: string)
    requires Cspn(s) == |s| > 0
    ensures ParseFrom(s) == Some([Name(s[..|s|])])
  {
    assert s[..|s|] == s;
  }

  lemma UnfoldDot(s: string, len: nat)
    requires len == Cspn(s) && 0 < len < |s| && s[len] == '.'
    ensures ParseFrom(s) == Then([Name(s[..len])], ParseFrom(s[len + 1..]))
  {
  }

  lemma UnfoldIndex(s: string, len: nat, k: nat)
    requires len == Cspn(s) && 0 < len < |s| && s[len] == '['
    requires Strchr(s[len + 1..], ']') == Some(k)
    ensures ParseFrom(s) == Then([Name(s[..len]), Element(ToSizeT(Atol(s[len + 1..])))],
                                 ParseFrom(SkipDot(s[len + 1..][k + 1..])))
  {
  }

  lemma UnfoldUnclosed(s: string, len: nat)
    requires len == Cspn(s) && 0 < len < |s| && s[len] == '['
    requires Strchr(s[len + 1..], ']').None?
    ensures ParseFrom(s) == None
  {
  }

  /** After ']', one '.' introducing the next name is skipped. */
  function SkipDot(s: string): (t: string)
    ensures |t| <= |s|
  {
    if s != [] && s[0] == '.' then s[1..] else s
  }

  /** The list EIP_parse_tag returns; [] stands for its null pointer. */
  function Parse(s: string): seq<Segment>
  {
    match ParseFrom(s)
    case None => []
    case Some(l) => l
  }

  /** EIP_parse_tag: walks the string, appending one node per segment. */
  method ParseTag(tag: string) returns (tl: seq<Segment>)
    ensures tl == Parse(tag)
  {
    ghost var goal := ParseFrom(tag);
    tl := [];
    var rest := tag;
    ThenNothing(goal);
    while true
      invariant Then(tl, ParseFrom(rest)) == goal
      decreases |rest|
    {
      var segs, next, more, ok := NextSegments(rest);
      if !ok {
        tl := [];
        break;
      }
      ThenThen(tl, segs, if more then ParseFrom(next) else Some([]));
      tl := tl + segs;
      if !more {
        assert tl + [] == tl;
        break;
      }
      rest := next;
    }
  }

  /**
   * One turn of EIP_parse_tag's loop: the nodes for the name at the start
   * of `rest` (and its index, if one follows), and where parsing goes on;
   * `more` is false at the end of the string, `ok` false for an index
   * without its closing bracket.
   */
  method NextSegments(rest: string) returns (segs: seq<Segment>, next: string, more: bool, ok: bool)
    ensures ok && more ==> |next| < |rest| && ParseFrom(rest) == Then(segs, ParseFrom(next))
    ensures ok && !more ==> ParseFrom(rest) == Then(segs, Some([]))
    ensures !ok ==> ParseFrom(rest) == None
  {
    var len := Cspn(rest);
    if len == 0 {
      UnfoldEnd(rest);
      ThenNothing(Some([]));
      return [], rest, false, true;
    }
    var name := Name(rest[..len]);
    if len == |rest| {
      UnfoldLast(rest);
      assert [name] + [] == [name];
      return [name], rest, false, true;
    }
    if rest[len] == '.' {
      UnfoldDot(rest, len);
      return [name], rest[len + 1..], true, true;
    }
    segs, next, ok := IndexedName(rest, len);
    more := ok;
  }

  /** The index branch of EIP_parse_tag's loop: a name, '[', a number, ']' and an optional '.'. */
  method IndexedName(rest: string, len: nat) returns (segs: seq<Segment>, next: string, ok: bool)
    requires len == Cspn(rest) && 0 < len < |rest| && rest[len] == '['
    ensures ok ==> |next| < |rest| && ParseFrom(rest) == Then(segs, ParseFrom(next))
    ensures !ok ==> ParseFrom(rest) == None
  {
    var idx := rest[len + 1..];
    var close := Strchr(idx, ']');
    if close.None? {
      UnfoldUnclosed(rest, len);
      return [], rest, false;
    }
    UnfoldIndex(rest, len, close.value);
    segs := [Name(rest[..len]), Element(ToSizeT(Atol(idx)))];
    return segs, SkipDot(idx[close.value + 1..]), true;
  }

  // ---------------------------------------------------------------
  // EIP_copy_ParsedTag
  // ---------------------------------------------------------------

  /** The text of one segment; `first` is false once a segment was written. */
  function RenderSegment(seg: Segment, first: bool): string
  {
    match seg
    case Name(n) => (if first then "" else ".") + n
    case Element(e) => "[" + Decimal(e % 0x1_0000_0000) + "]"
  }

  function RenderFrom(tl: seq<Segment>, first: bool): string
  {
    if tl == [] then "" else RenderSegment(tl[0], first) + RenderFrom(tl[1..], false)
  }

  /** The string EIP_copy_ParsedTag writes (without the NUL). */
  function Render(tl: seq<Segment>): string
  {
    RenderFrom(tl, true)
  }

  // ---------------------------------------------------------------
  // Round trip
  // ---------------------------------------------------------------

  /** A name the parser reads back as one segment. */
  predicate GoodName(n: string)
  {
    n != [] && forall k :: 0 <= k < |n| ==> n[k] != '.' && n[k] != '['
  }

  /**
   * A list that parsing its own rendering reproduces: it starts with a
   * name, an index only follows a name, and indices fit "%u".
   */
  predicate WellFormed(tl: seq<Segment>)
    decreases |tl|
  {
    && |tl| >= 1
    && tl[0].Name? && GoodName(tl[0].name)
    && if |tl| >= 2 && tl[1].Element? then
         && tl[1].index < 0x1_0000_0000
         && (|tl| == 2 || WellFormed(tl[2..]))
       else
         |tl| == 1 || WellFormed(tl[1..])
  }

  lemma {:induction false} NameEnds(n: string, r: string)
    requires forall k :: 0 <= k < |n| ==> n[k] != '.' && n[k] != '['
    requires r == [] || r[0] == '.' || r[0] == '['
    ensures Cspn(n + r) == |n|
    ensures (n + r)[..|n|] == n
  {
    if n == [] {
      assert n + r == r;
    } else {
      assert (n + r)[1..] == n[1..] + r;
      NameEnds(n[1..], r);
    }
  }

  lemma ParseName(n: string)
    requires GoodName(n)
    ensures ParseFrom(n) == Some([Name(n)])
  {
    NameEnds(n, "");
    assert n + "" == n;
  }

  lemma ParseNameDot(n: string, r: string, s: string)
    requires GoodName(n) && s == n + "." + r
    ensures ParseFrom(s) == Then([Name(n)], ParseFrom(r))
  {
    assert s == n + ("." + r);
    NameEnds(n, "." + r);
    assert s[|n| + 1..] == r;
  }

  /** The facts about `n[d]r` that the parser's index branch reads. */
  lemma IndexedShape(n: string, d: string, r: string, s: string)
    requires GoodName(n)
    requires s == n + ("[" + (d + ("]" + r)))
    ensures Cspn(s) == |n| < |s| && s[|n|] == '[' && s[..|n|] == n
    ensures s[|n| + 1..] == d + ("]" + r)
  {
    NameEnds(n, "[" + (d + ("]" + r)));
  }

  lemma IndexCloses(e: nat, r: string, idx: string)
    requires idx == Decimal(e) + ("]" + r)
    ensures Strchr(idx, ']') == Some(|Decimal(e)|)
    ensures idx[|Decimal(e)| + 1..] == r
  {
    var d := Decimal(e);
    assert ']' !in d by {
      forall k | 0 <= k < |d| ensures d[k] != ']' {
        assert IsDigit(d[k]);
      }
    }
    StrchrAfter(d, ']', r);
  }

  lemma IndexValue(e: nat, r: string, idx: string)
    requires e < 0x1_0000_0000
    requires idx == Decimal(e) + ("]" + r)
    ensures ToSizeT(Atol(idx)) == e
  {
    AtolDecimal(e, "]" + r);
  }

  lemma IndexedShapeOf(n: string, e: nat, r: string, s: string)
    requires GoodName(n)
    requires s == n + "[" + Decimal(e) + "]" + r
    ensures Cspn(s) == |n| < |s| && s[|n|] == '[' && s[..|n|] == n
    ensures s[|n| + 1..] == Decimal(e) + ("]" + r)
  {
    var d := Decimal(e);
    assert s == n + ("[" + (d + ("]" + r)));
    IndexedShape(n, d, r, s);
  }

  lemma ParseIndexed(n: string, e: nat, r: string, s: string)
    requires GoodName(n) && e < 0x1_0000_0000
    requires s == n + "[" + Decimal(e) + "]" + r
    ensures ParseFrom(s) == Then([Name(n), Element(e)], ParseFrom(SkipDot(r)))
  {
    IndexedShapeOf(n, e, r, s);
    var idx := s[|n| + 1..];
    IndexCloses(e, r, idx);
    IndexValue(e, r, idx);
    UnfoldIndex(s, |n|, |Decimal(e)|);
  }

  lemma {:induction false} StrchrAfter(d: string, c: char, r: string)
    requires c !in d
    ensures Strchr(d + ([c] + r), c) == Some(|d|)
  {
    if d == [] {
      assert d + ([c] + r) == [c] + r;
    } else {
      assert (d + ([c] + r))[1..] == d[1..] + ([c] + r);
      assert d[0] != c;
      StrchrAfter(d[1..], c, r);
    }
  }

  lemma RenderLater(tl: seq<Segment>)
    requires tl != [] && tl[0].Name?
    ensures RenderFrom(tl, false) == "." + RenderFrom(tl, true)
  {
  }

  lemma RenderIndexedShape(tl: seq<Segment>)
    requires |tl| >= 2 && tl[0].Name? && tl[1].Element?
    ensures Render(tl) == tl[0].name + "[" + Decimal(tl[1].index % 0x1_0000_0000) + "]" + RenderFrom(tl[2..], false)
  {
    var n := tl[0].name;
    assert tl[1..][1..] == tl[2..];
    assert RenderSegment(tl[0], true) == n by {
      assert "" + n == n;
    }
    assert RenderFrom(tl[1..], false) == RenderSegment(tl[1], false) + RenderFrom(tl[2..], false);
  }

  lemma RenderNameShape(tl: seq<Segment>)
    requires |tl| >= 2 && tl[0].Name? && tl[1].Name?
    ensures Render(tl) == tl[0].name + "." + Render(tl[1..])
  {
    var n := tl[0].name;
    assert RenderSegment(tl[0], true) == n by {
      assert "" + n == n;
    }
    RenderLater(tl[1..]);
  }

  /** What a name with an index, followed by more text, parses to. */
  lemma ParseIndexedHead(tl: seq<Segment>)
    requires |tl| >= 2 && tl[0].Name? && GoodName(tl[0].name)
    requires tl[1].Element? && tl[1].index < 0x1_0000_0000
    requires |tl| > 2 ==> tl[2].Name?
    ensures ParseFrom(Render(tl)) == Then(tl[..2], ParseFrom(Render(tl[2..])))
  {
    var n, e, rest := tl[0].name, tl[1].index, tl[2..];
    var r := RenderFrom(rest, false);
    RenderIndexedShape(tl);
    ParseIndexed(n, e, r, Render(tl));
    assert tl[..2] == [Name(n), Element(e)];
    if |tl| > 2 {
      RenderLater(rest);
    }
  }

  /** A name with an index, followed by a list whose rendering parses back. */
  lemma ParseRenderIndexed(tl: seq<Segment>)
    requires |tl| >= 2 && tl[0].Name? && GoodName(tl[0].name)
    requires tl[1].Element? && tl[1].index < 0x1_0000_0000
    requires |tl| > 2 ==> tl[2].Name?
    requires ParseFrom(Render(tl[2..])) == Some(tl[2..])
    ensures ParseFrom(Render(tl)) == Some(tl)
  {
    ParseIndexedHead(tl);
    assert tl == tl[..2] + tl[2..];
  }

  /** A name followed by a list whose rendering parses back. */
  lemma ParseRenderDotted(tl: seq<Segment>)
    requires WellFormed(tl) && |tl| >= 2 && tl[1].Name?
    requires ParseFrom(Render(tl[1..])) == Some(tl[1..])
    ensures ParseFrom(Render(tl)) == Some(tl)
  {
    var n, rest := tl[0].name, tl[1..];
    assert tl == [Name(n)] + rest;
    assert GoodName(n);
    RenderNameShape(tl);
    ParseNameDot(n, Render(rest), Render(tl));
  }

  /** Parsing the rendering of a well-formed list gives the list back. */
  lemma {:induction false} ParseRender(tl: seq<Segment>)
    requires WellFormed(tl)
    ensures ParseFrom(Render(tl)) == Some(tl)
    decreases |tl|
  {
    if |tl| == 1 {
      var n := tl[0].name;
      assert tl[1..] == [];
      assert Render(tl) == RenderSegment(tl[0], true) + RenderFrom(tl[1..], false);
      assert "" + n + "" == n;
      ParseName(n);
      assert tl == [Name(n)];
    } else if tl[1].Element? {
      if |tl| > 2 {
        ParseRender(tl[2..]);
      } else {
        assert Render(tl[2..]) == "";
      }
      ParseRenderIndexed(tl);
    } else {
      ParseRender(tl[1..]);
      ParseRenderDotted(tl);
    }
  }

  /**
   * EIP_copy_ParsedTag after EIP_parse_tag reproduces every tag string
   * that is the rendering of a well-formed list, and the parse is that list.
   */
  lemma RenderParse(s: string, tl: seq<Segment>)
    requires WellFormed(tl) && s == Render(tl)
    ensures Parse(s) == tl
    ensures Render(Parse(s)) == s
  {
    ParseRender(tl);
  }

  /**
   * A name directly followed by '[' with no ']' anywhere after it makes
   * the parser return null.
   */
  lemma UnclosedIndex(n: string, r: string)
    requires GoodName(n)
    requires ']' !in r
    ensures Parse(n + "[" + r) == []
  {
    var s := n + "[" + r;
    assert s == n + ("[" + r);
    NameEnds(n, "[" + r);
    assert s[|n| + 1..] == r;
  }
}
