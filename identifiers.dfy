/** The booking reference: "GH" + the day as yyyyMMdd + the day's sequence number
    printed with `%06d`, and the way the store reads the number back
    (`CAST(SUBSTRING(reg_no, 11) AS UNSIGNED)`). */
module RegNo {
  import opened Wrappers
  import opened Calendar

  predicate IsDigit(c: char)
  {
    '0' <= c <= '9'
  }

  predicate AllDigits(s: string)
  {
    forall k :: 0 <= k < |s| ==> IsDigit(s[k])
  }

  function DigitChar(d: int): (c: char)
    requires 0 <= d < 10
    ensures IsDigit(c) && DigitValue(c) == d
  {
    (d + '0' as int) as char
  }

  function DigitValue(c: char): int
    requires IsDigit(c)
  {
    c as int - '0' as int
  }

  function Pow10(k: nat): (p: nat)
    ensures p >= 1
  {
    if k == 0 then 1 else 10 * Pow10(k - 1)
  }

  /** The decimal digits of `n`, without leading zeros ("0" for zero). */
  function Decimal(n: nat): (s: string)
    ensures 1 <= |s| && AllDigits(s)
    decreases n
  {
    if n < 10 then [DigitChar(n)] else Decimal(n / 10) + [DigitChar(n % 10)]
  }

  function Zeros(k: nat): (s: string)
    ensures |s| == k && forall i :: 0 <= i < k ==> s[i] == '0'
  {
    seq(k, _ => '0')
  }

  /** `%0<width>d` of a non-negative number: zeros on the left up to `width`
      characters; a number with more digits is printed in full, never cut. */
  function ZeroPad(n: nat, width: nat): string
  {
    var d := Decimal(n);
    (if |d| < width then Zeros(width - |d|) else []) + d
  }

  /** `DateTimeFormatter.ofPattern("yyyyMMdd")`. */
  function FormatDate(d: Date): string
    requires ValidDate(d)
  {
    ZeroPad(d.year, 4) + ZeroPad(d.month, 2) + ZeroPad(d.day, 2)
  }

  /** The prefix every reference of the day starts with: "GH" + yyyyMMdd. */
  function DayPrefix(dateStr: string): string
  {
    "GH" + dateStr
  }

  /** `String.format("GH%s%06d", dateStr, seq)`. */
  function Format(dateStr: string, number: nat): string
  {
    DayPrefix(dateStr) + ZeroPad(number, 6)
  }

  /** The sequence `generateRegNo` uses: one past the day's maximum, or 1. */
  function NextSeq(maxSeq: Option<nat>): (number: nat)
    ensures number >= 1
    ensures maxSeq.Some? ==> number > maxSeq.value
  {
    match maxSeq
    case None => 1
    case Some(m) => m + 1
  }

  /** MySQL `SUBSTRING(s, 11)`: from the 11th character (1-based) to the end. */
  function Substring11(s: string): string
  {
    if |s| >= 10 then s[10..] else []
  }

  /** The longest prefix of `s` made of digits. */
  function LeadingDigits(s: string): (d: string)
    ensures AllDigits(d) && |d| <= |s| && d == s[..|d|]
  {
    if s == [] || !IsDigit(s[0]) then [] else [s[0]] + LeadingDigits(s[1..])
  }

  /** The number an all-digit string spells, leading zeros allowed. */
  function DigitsValue(s: string): nat
    requires AllDigits(s)
  {
    if s == [] then 0 else 10 * DigitsValue(s[..|s| - 1]) + DigitValue(s[|s| - 1])
  }

  /** MySQL `CAST(s AS UNSIGNED)`: the value of the leading digits, 0 when there are none. */
  function CastUnsigned(s: string): nat
  {
    DigitsValue(LeadingDigits(s))
  }

  /** What `selectMaxSeqByDate` reads from one reference. */
  function SuffixValue(regNo: string): nat
  {
    CastUnsigned(Substring11(regNo))
  }

  // ---------------------------------------------------------------------------
  // Digits and their values

  lemma {:induction false} DecimalValue(n: nat)
    ensures DigitsValue(Decimal(n)) == n
    decreases n
  {
    if n >= 10 {
      var s := Decimal(n / 10) + [DigitChar(n % 10)];
      assert s[..|s| - 1] == Decimal(n / 10);
      DecimalValue(n / 10);
    }
  }

  lemma {:induction false} DecimalLength(n: nat, w: nat)
    requires w >= 1
    ensures |Decimal(n)| <= w <==> n < Pow10(w)
    decreases n
  {
    if n >= 10 {
      if w == 1 {
        assert |Decimal(n)| >= 2 by { assert |Decimal(n / 10)| >= 1; }
      } else {
        DecimalLength(n / 10, w - 1);
      }
    }
  }

  lemma {:induction false} ZerosValue(k: nat, s: string)
    requires AllDigits(s)
    ensures AllDigits(Zeros(k) + s) && DigitsValue(Zeros(k) + s) == DigitsValue(s)
    decreases |s|, k
  {
    var t := Zeros(k) + s;
    assert AllDigits(t) by {
      forall i | 0 <= i < |t| ensures IsDigit(t[i]) {
        if i < k { assert t[i] == '0'; } else { assert t[i] == s[i - k]; }
      }
    }
    if s == [] {
      if k > 0 {
        assert t[..|t| - 1] == Zeros(k - 1) + [];
        ZerosValue(k - 1, []);
      }
    } else {
      assert t[..|t| - 1] == Zeros(k) + s[..|s| - 1];
      ZerosValue(k, s[..|s| - 1]);
    }
  }

  lemma {:induction false} LeadingDigitsOfDigits(s: string)
    requires AllDigits(s)
    ensures LeadingDigits(s) == s
    decreases |s|
  {
    if s != [] {
      LeadingDigitsOfDigits(s[1..]);
    }
  }

  lemma PadLength(n: nat, width: nat)
    requires width >= 1
    ensures |ZeroPad(n, width)| >= width
    ensures |ZeroPad(n, width)| == width <==> n < Pow10(width)
  {
    DecimalLength(n, width);
  }

  lemma DateLength(d: Date)
    requires ValidDate(d)
    ensures |FormatDate(d)| == 8
  {
    PadLength(d.year, 4);
    PadLength(d.month, 2);
    PadLength(d.day, 2);
  }

  // ---------------------------------------------------------------------------
  // The properties of the reference

  /** Reading back the number of a reference the generator printed gives the
      sequence it was printed from, for every sequence. */
  lemma SeqRoundTrip(dateStr: string, number: nat)
    requires |dateStr| == 8
    ensures SuffixValue(Format(dateStr, number)) == number
  {
    var r := Format(dateStr, number);
    var d := Decimal(number);
    var pad := if |d| < 6 then Zeros(6 - |d|) else [];
    assert r == DayPrefix(dateStr) + (pad + d);
    assert Substring11(r) == pad + d;
    ZerosValue(|pad|, d);
    assert pad == Zeros(|pad|);
    LeadingDigitsOfDigits(pad + d);
    DecimalValue(number);
  }

  /** A reference of the day starts with the day's prefix, which is 10 characters long,
      and is 16 characters long exactly when the sequence is below 10^6. */
  lemma FormatShape(dateStr: string, number: nat)
    requires |dateStr| == 8
    ensures |DayPrefix(dateStr)| == 10
    ensures Format(dateStr, number)[..10] == DayPrefix(dateStr)
    ensures |Format(dateStr, number)| >= 16
    ensures |Format(dateStr, number)| == 16 <==> number < 1000000
  {
    PadLength(number, 6);
    assert Pow10(6) == 1000000;
  }

  /** Distinct sequences of one day give distinct references. */
  lemma FormatInjective(dateStr: string, a: nat, b: nat)
    requires |dateStr| == 8
    ensures Format(dateStr, a) == Format(dateStr, b) <==> a == b
  {
    SeqRoundTrip(dateStr, a);
    SeqRoundTrip(dateStr, b);
  }
}
