/**
 * The `Range` header value `bytes=<start>-<end>` that `download_chunk` and
 * `download_file` build with an f-string, and a reader for the single
 * `int-range` form of RFC 9110 (section 14.1.2) to say what a server makes of
 * that text.
 */
module RangeHeader {
  import opened Wrappers
  import opened RangePlan

  predicate IsDigit(ch: char) {
    '0' <= ch <= '9'
  }

  predicate AllDigits(s: string) {
    forall k :: 0 <= k < |s| ==> IsDigit(s[k])
  }

  function DigitChar(d: nat): (ch: char)
    requires d < 10
    ensures IsDigit(ch) && DigitValue(ch) == d
  {
    (('0' as int) + d) as char
  }

  function DigitValue(ch: char): (d: nat)
    requires IsDigit(ch)
  {
    (ch as int) - ('0' as int)
  }

  /** Decimal text of a natural number as Python's `str` writes it: digits
      only, and no leading zero except in `"0"` itself. */
  function NatText(n: nat): (s: string)
    ensures 1 <= |s| && AllDigits(s)
    ensures s[0] == '0' ==> n == 0 && s == "0"
    decreases n
  {
    if n < 10 then [DigitChar(n)] else NatText(n / 10) + [DigitChar(n % 10)]
  }

  /** Decimal text of an integer as an f-string writes it: a `-` sign before
      the digits of a negative number. */
  function IntText(i: int): (s: string) {
    if i < 0 then "-" + NatText(-i) else NatText(i)
  }

  /** The number a string of decimal digits denotes (leading zeros allowed,
      as in the `1*DIGIT` of RFC 9110). */
  function DecimalValue(s: string): (v: nat)
    requires AllDigits(s)
    decreases |s|
  {
    if s == [] then 0 else 10 * DecimalValue(s[..|s| - 1]) + DigitValue(s[|s| - 1])
  }

  lemma {:induction false} DecimalRoundTrip(n: nat)
    ensures DecimalValue(NatText(n)) == n
    decreases n
  {
    if n >= 10 {
      DecimalRoundTrip(n / 10);
      var s := NatText(n);
      assert s[..|s| - 1] == NatText(n / 10);
    }
  }

  /** The header value sent for range `r`: the prefix `bytes=`, then the
      decimal text of the first byte, a dash, and the decimal text of the
      last byte. */
  function RangeValue(r: ByteRange): (s: string) {
    "bytes=" + IntText(r.first) + "-" + IntText(r.last)
  }

  /** An `int-range` of RFC 9110 section 14.1.2: `first-pos "-" [ last-pos ]`. */
  datatype IntRange = IntRange(firstPos: nat, lastPos: Option<nat>)

  /** Section 14.1.1 of RFC 9110: an int-range whose last-pos is present and
      less than its first-pos is invalid. */
  predicate ValidIntRange(r: IntRange) {
    r.lastPos.None? || r.firstPos <= r.lastPos.value
  }

  /** Section 14.1.1 of RFC 9110: an int-range is satisfiable for a
      representation of `length` bytes when its first-pos is below `length`. */
  predicate Satisfiable(r: IntRange, length: nat) {
    r.firstPos < length
  }

  /** Index of the first `-` in `s`, or `|s|` when there is none. */
  function IndexOfDash(s: string): (k: nat)
    ensures k <= |s|
    ensures k < |s| ==> s[k] == '-'
    ensures forall j :: 0 <= j < k ==> s[j] != '-'
    decreases |s|
  {
    if s == [] then 0
    else if s[0] == '-' then 0
    else 1 + IndexOfDash(s[1..])
  }

  /** Reads a `Range` value of the form `bytes=` int-range (one range, no
      whitespace): the only form the downloader writes. Anything else, the
      text of a negative `last-pos` included, is `None`. */
  function ParseRangeValue(s: string): (p: Option<IntRange>) {
    if |s| < 6 || s[..6] != "bytes=" then None
    else
      var rest := s[6..];
      var k := IndexOfDash(rest);
      if k == |rest| then None
      else
        var first, last := rest[..k], rest[k + 1..];
        if first == [] || !AllDigits(first) then None
        else if last == [] then Some(IntRange(DecimalValue(first), None))
        else if AllDigits(last) then Some(IntRange(DecimalValue(first), Some(DecimalValue(last))))
        else None
  }

  /** In digits, then a dash, then anything, the first dash is the one right
      after the digits. */
  lemma DashAfterDigits(d: string, e: string)
    requires AllDigits(d)
    ensures IndexOfDash(d + "-" + e) == |d|
    ensures (d + "-" + e)[..|d|] == d && (d + "-" + e)[|d| + 1..] == e
  {
    var s := d + "-" + e;
    assert s[|d|] == '-';
    var k := IndexOfDash(s);
    if k < |d| {
      assert false;
    }
  }

  /** The text after `bytes=` of a header value. */
  lemma RangeValueParts(r: ByteRange)
    ensures var s := RangeValue(r);
            |s| >= 6 && s[..6] == "bytes=" && s[6..] == IntText(r.first) + "-" + IntText(r.last)
  {
  }

  /** The header text of a range with a non-negative start reads back as that
      range when its end is non-negative, and does not read as an int-range at
      all when its end is negative (`bytes=0--1`). */
  lemma RangeValueRoundTrip(r: ByteRange)
    requires r.first >= 0
    ensures ParseRangeValue(RangeValue(r))
         == if r.last >= 0 then Some(IntRange(r.first, Some(r.last))) else None
  {
    var d, e := NatText(r.first), IntText(r.last);
    RangeValueParts(r);
    DashAfterDigits(d, e);
    DecimalRoundTrip(r.first);
    if r.last >= 0 {
      DecimalRoundTrip(r.last);
    } else {
      assert e[0] == '-';
    }
  }

  /** The header of range `r` (with `r.first >= 0`) is a valid int-range in
      the sense of RFC 9110 exactly when `r` holds at least one byte. */
  lemma RangeValueValidIff(r: ByteRange)
    requires r.first >= 0
    ensures (ParseRangeValue(RangeValue(r)).Some? && ValidIntRange(ParseRangeValue(RangeValue(r)).value))
        <==> !IsEmpty(r)
  {
    RangeValueRoundTrip(r);
  }

  /** What the header of planned round `i` says to a server. For a resource of
      unknown size every header is `bytes=0--1`, which is not an int-range. For
      a known size a non-empty round's header is a satisfiable int-range
      denoting exactly that round, and an empty round's header parses but is
      invalid. */
  lemma PlanRangeValue(total: nat, n: nat, i: nat)
    requires n >= 1 && i < n
    ensures var r := Plan(total, n)[i];
            var p := ParseRangeValue(RangeValue(r));
            && (total == 0 ==> p == None)
            && (!IsEmpty(r) ==> p.Some? && p.value.firstPos == r.first && p.value.lastPos.Some?
                                && p.value.lastPos.value == r.last && Satisfiable(p.value, total))
            && (total > 0 && IsEmpty(r) ==> p.Some? && !ValidIntRange(p.value))
  {
    var r := Plan(total, n)[i];
    PlanChained(total, n);
    RangeValueRoundTrip(r);
    if total == 0 {
      PlanOfUnknownSize(n, i);
    } else {
      PlanEmptyTail(total, n);
    }
  }
}
