/**
 * server/src/files/fileRules.js: the Range header of a file request, against the range string that
 * server/src/files/FileStore.js prints for the object store.
 */
module ByteRange {
  import opened Basics

  datatype Range = Range(start: int, end: int)

  // ---------------------------------------------------------------- digits

  predicate IsDigit(c: char) {
    '0' <= c <= '9'
  }

  predicate AllDigits(s: string) {
    forall i :: 0 <= i < |s| ==> IsDigit(s[i])
  }

  /** `Number(digits)`, and 0 for the empty string. */
  function NumberOf(digits: string): nat
    requires AllDigits(digits)
  {
    if digits == "" then 0
    else 10 * NumberOf(digits[..|digits| - 1]) + (digits[|digits| - 1] as int - '0' as int)
  }

  /** A number as a template literal prints it. */
  function Decimal(n: nat): string {
    var digit := ['0' + (n % 10) as char];
    if n < 10 then digit else Decimal(n / 10) + digit
  }

  lemma {:induction false} DecimalReadsBack(n: nat)
    ensures Decimal(n) != "" && AllDigits(Decimal(n)) && NumberOf(Decimal(n)) == n
  {
    if n >= 10 {
      DecimalReadsBack(n / 10);
      assert Decimal(n)[..|Decimal(n)| - 1] == Decimal(n / 10);
    } else {
      assert Decimal(n)[..0] == "";
    }
  }

  // ---------------------------------------------------------------- the header

  /** How many leading characters are digits. */
  function DigitRun(s: string): (n: nat)
    ensures n <= |s| && AllDigits(s[..n]) && (n < |s| ==> !IsDigit(s[n]))
  {
    if s == "" || !IsDigit(s[0]) then 0
    else
      var n := 1 + DigitRun(s[1..]);
      assert s[..n] == [s[0]] + s[1..][..n - 1];
      n
  }

  datatype Fields = Fields(first: string, last: string)

  /** The two groups of /^bytes=(\d*)-(\d*)$/. */
  function Match(s: string): (m: Option<Fields>)
    ensures m.Some? ==> AllDigits(m.value.first) && AllDigits(m.value.last)
    ensures m.Some? ==> s == "bytes=" + m.value.first + "-" + m.value.last
  {
    if |s| < 6 || s[..6] != "bytes=" then None
    else
      var rest := s[6..];
      var n := DigitRun(rest);
      if n < |rest| && rest[n] == '-' && DigitRun(rest[n + 1..]) == |rest[n + 1..]| then
        assert rest[n + 1..][..|rest[n + 1..]|] == rest[n + 1..];
        assert s == s[..6] + rest && rest == rest[..n] + [rest[n]] + rest[n + 1..];
        Some(Fields(rest[..n], rest[n + 1..]))
      else None
  }

  /** "bytes=0-1023" to the range within a file of this size, or nothing for anything else. */
  function ParseRange(header: string, size: nat): Option<Range> {
    var m := Match(Trim(header));
    if m.None? || (m.value.first == "" && m.value.last == "") then None
    else
      var first, last := m.value.first, m.value.last;
      var start := if first == "" then Max(0, size - NumberOf(last)) else NumberOf(first);
      var end := if first == "" || last == "" then size - 1 else Min(NumberOf(last), size - 1);
      if start <= end && start < size then Some(Range(start, end)) else None
  }

  /** The range string FileStore sends. */
  function PrintRange(r: Range): string
    requires 0 <= r.start && 0 <= r.end
  {
    "bytes=" + Decimal(r.start) + "-" + Decimal(r.end)
  }

  // ---------------------------------------------------------------- reading what was written

  lemma {:induction false} RunOfDigits(digits: string, rest: string)
    requires AllDigits(digits) && (rest != "" ==> !IsDigit(rest[0]))
    ensures DigitRun(digits + rest) == |digits|
  {
    if digits == "" {
      assert digits + rest == rest;
    } else {
      RunOfDigits(digits[1..], rest);
      assert (digits + rest)[1..] == digits[1..] + rest;
    }
  }

  /** The expression matches every header of its shape, with the fields as written. */
  lemma MatchesItsShape(first: string, last: string)
    requires AllDigits(first) && AllDigits(last)
    ensures Match("bytes=" + first + "-" + last) == Some(Fields(first, last))
  {
    var s := "bytes=" + first + "-" + last;
    var rest := first + ("-" + last);
    assert s[..6] == "bytes=" && s[6..] == rest;
    RunOfDigits(first, "-" + last);
    assert rest[|first| + 1..] == last && rest[..|first|] == first;
    RunOfDigits(last, "");
    assert last + "" == last;
  }

  /** Nothing is trimmed from a header that starts with a letter and ends with a dash or digit. */
  lemma NothingToTrim(first: string, last: string)
    requires AllDigits(first) && AllDigits(last)
    ensures Trim("bytes=" + first + "-" + last) == "bytes=" + first + "-" + last
  {
    var s := "bytes=" + first + "-" + last;
    assert s[0] == 'b';
    assert s[|s| - 1] == if last == "" then '-' else last[|last| - 1];
  }

  /** What a header of each shape means, as in section 14.1.2 of RFC 9110. */
  lemma ParsesByShape(first: string, last: string, size: nat)
    requires AllDigits(first) && AllDigits(last)
    ensures var parsed := ParseRange("bytes=" + first + "-" + last, size);
            && (first == "" && last == "" ==> parsed == None)
            && (first == "" && last != "" ==>
                  var n := Min(NumberOf(last), size);
                  parsed == if n == 0 then None else Some(Range(size - n, size - 1)))
            && (first != "" && last == "" ==>
                  parsed == if NumberOf(first) < size then Some(Range(NumberOf(first), size - 1)) else None)
            && (first != "" && last != "" ==>
                  parsed == if NumberOf(first) < size && NumberOf(first) <= NumberOf(last)
                            then Some(Range(NumberOf(first), Min(NumberOf(last), size - 1))) else None)
  {
    NothingToTrim(first, last);
    MatchesItsShape(first, last);
  }

  /** Every range handed on lies inside the file, and a header of another shape is never accepted. */
  lemma AcceptedRangesFit(header: string, size: nat)
    requires ParseRange(header, size).Some?
    ensures var r := ParseRange(header, size).value; 0 <= r.start <= r.end < size
    ensures exists first, last :: AllDigits(first) && AllDigits(last) && Trim(header) == "bytes=" + first + "-" + last
  {
    var m := Match(Trim(header)).value;
    assert AllDigits(m.first) && AllDigits(m.last) && Trim(header) == "bytes=" + m.first + "-" + m.last;
  }

  /** White space around a header is ignored. */
  lemma SpaceAroundIsIgnored(before: string, first: string, last: string, after: string, size: nat)
    requires (forall c :: c in before ==> IsSpace(c)) && (forall c :: c in after ==> IsSpace(c))
    requires AllDigits(first) && AllDigits(last)
    ensures var core := "bytes=" + first + "-" + last;
            ParseRange(before + core + after, size) == ParseRange(core, size)
  {
    var core := "bytes=" + first + "-" + last;
    assert core[0] == 'b';
    assert core[|core| - 1] == if last == "" then '-' else last[|last| - 1];
    TrimDropsSpace(before, core, after);
    NothingToTrim(first, last);
  }

  /** Parsing what FileStore prints gives the same range back. */
  lemma PrintedRangeReadsBack(r: Range, size: nat)
    requires 0 <= r.start <= r.end < size
    ensures ParseRange(PrintRange(r), size) == Some(r)
  {
    DecimalReadsBack(r.start);
    DecimalReadsBack(r.end);
    ParsesByShape(Decimal(r.start), Decimal(r.end), size);
  }

  /** A suffix range is exactly the last n bytes, or the whole file when it is shorter. */
  lemma SuffixRangeIsTheEnd(n: nat, size: nat)
    requires n > 0 && size > 0
    ensures ParseRange("bytes=" + "" + "-" + Decimal(n), size) == Some(Range(size - Min(n, size), size - 1))
  {
    DecimalReadsBack(n);
    ParsesByShape("", Decimal(n), size);
  }
}
