/**
 * The two replies that compute something: the uptime (base.php lines
 * 206-217) and the memory usage (lines 219-232). The clock reading
 * `time() - $this->startTime` and the byte count `memory_get_usage(true)` are
 * parameters.
 */
module Formatters {
  import opened PhpRuntime

  // ---------------------------------------------------------------------------
  // Uptime
  // ---------------------------------------------------------------------------

  /** The four numbers the uptime reply prints. */
  datatype Span = Span(days: int, hours: int, minutes: int, seconds: int)

  /**
   * The decomposition exactly as written: `floor($age / 86400)`,
   * `($age / 3600) % 3600`, `($age / 60) % 60` and `$age % 60`, where `%`
   * first truncates its float operand toward zero and keeps the sign of the
   * dividend. The hours are taken modulo 3600, not 24.
   */
  function UptimeFields(age: int): Span {
    Span(age / 86400,
         TruncMod(TruncDiv(age, 3600), 3600),
         TruncMod(TruncDiv(age, 60), 60),
         TruncMod(age, 60))
  }

  /** `sprintf("%02d:%02d:%02d:%02d", ...)` of the four fields. */
  function AgeString(age: int): string {
    var f := UptimeFields(age);
    Pad2(f.days) + ":" + Pad2(f.hours) + ":" + Pad2(f.minutes) + ":" + Pad2(f.seconds)
  }

  function UptimeReply(age: int): string {
    "Robot's uptime is: " + AgeString(age) + "."
  }

  /**
   * For a non-negative age the fields are the whole days, the whole hours
   * (wrapping only at 3600 hours), the minutes and the seconds.
   */
  lemma UptimeFieldBounds(age: int)
    requires age >= 0
    ensures var f := UptimeFields(age);
      && f.days == age / 86400 && f.days * 86400 <= age < f.days * 86400 + 86400
      && f.hours == (age / 3600) % 3600 && 0 <= f.hours < 3600
      && f.minutes == (age / 60) % 60 && 0 <= f.minutes < 60
      && f.seconds == age % 60 && 0 <= f.seconds < 60
  {
  }

  /**
   * Below 3600 hours (150 days) the hour, minute and second fields on their
   * own add up to the whole age: the hours field counts all hours, including
   * those already counted as days.
   */
  lemma UptimeHoursCountWholeAge(age: int)
    requires 0 <= age < 12960000
    ensures var f := UptimeFields(age);
      f.hours * 3600 + f.minutes * 60 + f.seconds == age
  {
    var h, rest := age / 3600, age % 3600;
    var minutes, seconds := rest / 60, rest % 60;
    assert h < 3600;
    DivUnique(h, 3600, 0, h);
    assert age == (h * 60 + minutes) * 60 + seconds;
    DivUnique(age, 60, h * 60 + minutes, seconds);
    DivUnique(h * 60 + minutes, 60, h, minutes);
  }

  /** So from one day on, the days and hours fields overlap: together they overstate the age. */
  lemma UptimeDaysOverlapHours(age: int)
    requires 86400 <= age < 12960000
    ensures var f := UptimeFields(age);
      f.hours >= 24 && f.days * 86400 + f.hours * 3600 + f.minutes * 60 + f.seconds > age
  {
    UptimeHoursCountWholeAge(age);
  }

  /** One day, one hour, one minute and one second print as 01:25:01:01. */
  lemma UptimeExample()
    ensures AgeString(90061) == "01:25:01:01"
  {
    UptimeExampleFields();
    PaddedExamples();
    JoinedExample();
  }

  /** The reply wraps the printed uptime in "Robot's uptime is: " and a full stop. */
  lemma UptimeReplyExample()
    ensures UptimeReply(90061) == "Robot's uptime is: 01:25:01:01."
  {
    UptimeExample();
    JoinedExample();
  }

  lemma UptimeExampleFields()
    ensures UptimeFields(90061) == Span(1, 25, 1, 1)
  {
  }

  lemma PaddedExamples()
    ensures Pad2(1) == "01" && Pad2(25) == "25"
  {
    assert Dec(25) == Dec(2) + [DigitChar(5)];
  }

  // Reading an uptime back

  /** Index of the first ':' in `s`, or |s|. */
  function ColonIndex(s: string): (i: nat)
    ensures i <= |s|
  {
    if s == [] || s[0] == ':' then 0 else 1 + ColonIndex(s[1..])
  }

  predicate NoColon(s: string) {
    forall k :: 0 <= k < |s| ==> s[k] != ':'
  }

  /** Reads colon-separated decimal numbers, such as `01:25:01:01`; None unless every field is a run of digits. */
  function ReadNumbers(s: string): Option<seq<nat>>
    decreases |s|
  {
    var i := ColonIndex(s);
    var head := s[..i];
    if !AllDigits(head) then None
    else if i == |s| then Some([ParseDec(head)])
    else match ReadNumbers(s[i + 1..])
      case None => None
      case Some(rest) => Some([ParseDec(head)] + rest)
  }

  /** Reads a `DD:HH:MM:SS` text back into its four numbers. */
  function ReadUptime(s: string): Option<Span> {
    match ReadNumbers(s)
    case Some(ns) => if |ns| == 4 then Some(Span(ns[0], ns[1], ns[2], ns[3])) else None
    case None => None
  }

  lemma {:induction false} ColonIndexPrefix(a: string, b: string)
    requires NoColon(a)
    requires b != [] && b[0] == ':'
    ensures ColonIndex(a + b) == |a|
    decreases |a|
  {
    if a == [] {
      assert a + b == b;
    } else {
      assert (a + b)[1..] == a[1..] + b;
      ColonIndexPrefix(a[1..], b);
    }
  }

  /** A digit field followed by a colon puts its number in front of those read from the rest. */
  lemma ReadNumbersCons(a: string, rest: string, ns: seq<nat>)
    requires AllDigits(a) && ReadNumbers(rest) == Some(ns)
    ensures ReadNumbers(a + ":" + rest) == Some([ParseDec(a)] + ns)
  {
    var s := a + ":" + rest;
    assert s == a + (":" + rest);
    NoColonInDigits(a);
    ColonIndexPrefix(a, ":" + rest);
    assert s[..|a|] == a;
    assert s[|a| + 1..] == rest;
  }

  lemma ReadNumbersLast(a: string)
    requires AllDigits(a)
    ensures ReadNumbers(a) == Some([ParseDec(a)])
  {
    NoColonInDigits(a);
    ColonIndexNone(a);
    assert a[..|a|] == a;
  }

  lemma {:induction false} ColonIndexNone(a: string)
    requires NoColon(a)
    ensures ColonIndex(a) == |a|
    decreases |a|
  {
    if a != [] {
      ColonIndexNone(a[1..]);
    }
  }

  lemma NoColonInDigits(s: string)
    requires AllDigits(s)
    ensures NoColon(s)
  {
    forall k | 0 <= k < |s| ensures s[k] != ':' {
      assert IsDigit(s[k]);
    }
  }

  lemma {:induction false} ReadFourFields(a: string, b: string, c: string, d: string)
    requires AllDigits(a) && AllDigits(b) && AllDigits(c) && AllDigits(d)
    ensures ReadUptime(a + ":" + b + ":" + c + ":" + d) == Some(Span(ParseDec(a), ParseDec(b), ParseDec(c), ParseDec(d)))
  {
    assert a + ":" + b + ":" + c + ":" + d == a + ":" + (b + ":" + (c + ":" + d));
    ReadNumbersLast(d);
    var ns := [ParseDec(d)];
    ReadNumbersCons(c, d, ns);
    ns := [ParseDec(c)] + ns;
    ReadNumbersCons(b, c + ":" + d, ns);
    ns := [ParseDec(b)] + ns;
    ReadNumbersCons(a, b + ":" + (c + ":" + d), ns);
    ns := [ParseDec(a)] + ns;
  }

  /** For a non-negative age the printed uptime determines the four fields: reading it back gives them. */
  lemma {:induction false} UptimeReadsBack(age: int)
    requires age >= 0
    ensures ReadUptime(AgeString(age)) == Some(UptimeFields(age))
  {
    var f := UptimeFields(age);
    UptimeFieldBounds(age);
    ParsePad2(f.days);
    ParsePad2(f.hours);
    ParsePad2(f.minutes);
    ParsePad2(f.seconds);
    ReadFourFields(Pad2(f.days), Pad2(f.hours), Pad2(f.minutes), Pad2(f.seconds));
  }

  // ---------------------------------------------------------------------------
  // Memory
  // ---------------------------------------------------------------------------

  const KiloByte := 1024
  const MegaByte := 1048576

  /**
   * `round($bytes / $unit, 2)` as a number of hundredths: PHP rounds halves
   * away from zero.
   */
  function RoundedHundredths(bytes: nat, unit: nat): nat
    requires unit > 0
  {
    (200 * bytes + unit) / (2 * unit)
  }

  /**
   * PHP's text for the float `k / 100`: no decimal point for a whole number,
   * otherwise one or two decimals with trailing zeros dropped.
   */
  function Hundredths(k: nat): string {
    var whole, frac := k / 100, k % 100;
    if frac == 0 then Dec(whole)
    else if frac % 10 == 0 then Dec(whole) + "." + [DigitChar(frac / 10)]
    else Dec(whole) + "." + [DigitChar(frac / 10), DigitChar(frac % 10)]
  }

  /** The amount the memory reply prints: bytes below 1024, kilobytes below 1048576, megabytes from there on. */
  function MemoryAmount(bytes: nat): string {
    if bytes < KiloByte then Dec(bytes) + " bytes"
    else if bytes < MegaByte then Hundredths(RoundedHundredths(bytes, KiloByte)) + " kilobytes"
    else Hundredths(RoundedHundredths(bytes, MegaByte)) + " megabytes"
  }

  /** The memory reply, which begins with the same words as the uptime reply. */
  function MemoryReply(bytes: nat): string {
    "Robot's uptime is: " + MemoryAmount(bytes) + "."
  }

  /** The rounded value is the nearest hundredth: it differs from `bytes / unit` by at most half a hundredth. */
  lemma RoundedHundredthsNearest(bytes: nat, unit: nat)
    requires unit > 0
    ensures var k := RoundedHundredths(bytes, unit);
      2 * k * unit - unit <= 200 * bytes < 2 * k * unit + unit
  {
    var k := RoundedHundredths(bytes, unit);
    var n := 200 * bytes + unit;
    assert n == k * (2 * unit) + n % (2 * unit);
  }

  /** Division is determined by any quotient and in-range remainder. */
  lemma DivUnique(n: int, d: int, q: int, r: int)
    requires d > 0 && 0 <= r < d && n == q * d + r
    ensures n / d == q
  {
    var q' := n / d;
    var r' := n % d;
    assert n == q' * d + r';
    assert (q - q') * d == r' - r;
    if q - q' >= 1 {
      MulAtLeast(q - q', d);
    } else if q' - q >= 1 {
      MulAtLeast(q' - q, d);
    }
  }

  lemma MulAtLeast(x: int, d: int)
    requires x >= 1 && d > 0
    ensures x * d >= d
  {
    assert x * d == (x - 1) * d + d;
    if x > 1 {
      MulAtLeast(x - 1, d);
    }
  }

  /** A whole number of units has no decimals. */
  lemma RoundedWhole(j: nat, unit: nat)
    requires unit > 0
    ensures RoundedHundredths(j * unit, unit) == 100 * j
  {
    var n := 200 * (j * unit) + unit;
    assert n == (100 * j) * (2 * unit) + unit;
    DivUnique(n, 2 * unit, 100 * j, unit);
  }

  lemma HundredthsWhole(j: nat)
    ensures Hundredths(100 * j) == Dec(j)
  {
    var k := 100 * j;
    assert k / 100 == j && k % 100 == 0;
  }

  /** Exact multiples of a kilobyte or megabyte print as a whole number of that unit. */
  lemma MemoryExactMultiples(j: nat)
    ensures 1 <= j < 1024 ==> MemoryAmount(j * KiloByte) == Dec(j) + " kilobytes"
    ensures 1 <= j ==> MemoryAmount(j * MegaByte) == Dec(j) + " megabytes"
  {
    RoundedWhole(j, KiloByte);
    RoundedWhole(j, MegaByte);
    HundredthsWhole(j);
  }

  /** `s` ends with `suffix`. */
  predicate EndsWith(s: string, suffix: string) {
    |suffix| <= |s| && s[|s| - |suffix|..] == suffix
  }

  /**
   * The unit follows the byte count: below 1024 the count itself in bytes,
   * kilobytes exactly from 1024 up to 1048576, megabytes exactly from 1048576
   * on.
   */
  lemma MemoryUnits(bytes: nat)
    ensures bytes < KiloByte ==> MemoryAmount(bytes) == Dec(bytes) + " bytes"
    ensures EndsWith(MemoryAmount(bytes), " kilobytes") <==> KiloByte <= bytes < MegaByte
    ensures EndsWith(MemoryAmount(bytes), " megabytes") <==> MegaByte <= bytes
  {
    var r := MemoryAmount(bytes);
    UnitLetters();
    if bytes < KiloByte {
      SuffixLetter(Dec(bytes), " bytes", " kilobytes");
      SuffixLetter(Dec(bytes), " bytes", " megabytes");
    } else if bytes < MegaByte {
      var x := Hundredths(RoundedHundredths(bytes, KiloByte));
      SuffixLetter(x, " kilobytes", " kilobytes");
      SuffixLetter(x, " kilobytes", " megabytes");
    } else {
      var x := Hundredths(RoundedHundredths(bytes, MegaByte));
      SuffixLetter(x, " megabytes", " megabytes");
      SuffixLetter(x, " megabytes", " kilobytes");
    }
  }

  /**
   * `x + unit` ends with `unit`, and ends with `other` only if the two agree
   * in their sixth character from the end.
   */
  lemma SuffixLetter(x: string, unit: string, other: string)
    requires 6 <= |unit| && 6 <= |other|
    ensures EndsWith(x + unit, unit)
    ensures EndsWith(x + unit, other) ==> unit[|unit| - 6] == other[|other| - 6]
  {
    var s := x + unit;
    assert s[|s| - |unit|..] == unit;
    if EndsWith(s, other) {
      assert s[|s| - 6] == other[|other| - 6] by {
        assert s[|s| - |other|..][|other| - 6] == other[|other| - 6];
      }
    }
  }

  /** The unit words differ in their sixth character from the end. */
  lemma UnitLetters()
    ensures |" bytes"| == 6 && |" kilobytes"| == 10 && |" megabytes"| == 10
    ensures " bytes"[0] == ' ' && " kilobytes"[4] == 'o' && " megabytes"[4] == 'a'
  {
  }

  /** Below a kilobyte the count is printed in bytes: 512 bytes. */
  lemma MemoryBytesExample()
    ensures MemoryAmount(512) == "512 bytes"
  {
    Dec512();
    LiteralJoins();
  }

  /** 2048 bytes are two kilobytes exactly. */
  lemma MemoryKilobytesExample()
    ensures MemoryAmount(2048) == "2 kilobytes"
  {
    DecSmall();
    MemoryExactMultiples(2);
    LiteralJoins();
  }

  /** 2097152 bytes are two megabytes exactly. */
  lemma MemoryMegabytesExample()
    ensures MemoryAmount(2097152) == "2 megabytes"
  {
    DecSmall();
    MemoryExactMultiples(2);
    LiteralJoins();
  }

  /** The memory reply opens with the uptime reply's words. */
  lemma MemoryReplyExample()
    ensures MemoryReply(2048) == "Robot's uptime is: 2 kilobytes."
  {
    MemoryKilobytesExample();
    LiteralJoins();
  }

  lemma HalfHundredths()
    ensures Hundredths(150) == "1.5"
  {
    assert 150 / 100 == 1 && 150 % 100 == 50;
    assert DigitChar(5) == '5';
    DecSmall();
    HalfJoin();
  }

  lemma WholeHundredths()
    ensures Hundredths(102400) == "1024"
  {
    HundredthsWhole(1024);
    Dec1024();
  }

  /** One and a half kilobytes print with one decimal, the trailing zero dropped. */
  lemma MemoryHalfExample()
    ensures MemoryAmount(1536) == "1.5 kilobytes"
  {
    RoundingExamples();
    HalfHundredths();
    LiteralJoins();
  }

  /** One byte short of a megabyte rounds up to 1024 kilobytes. */
  lemma MemoryRoundsUpExample()
    ensures MemoryAmount(1048575) == "1024 kilobytes"
  {
    RoundingExamples();
    WholeHundredths();
    LiteralJoins();
  }

  lemma RoundingExamples()
    ensures RoundedHundredths(1536, KiloByte) == 150
    ensures RoundedHundredths(1048575, KiloByte) == 102400
  {
    DivUnique(200 * 1536 + 1024, 2048, 150, 1024);
    DivUnique(200 * 1048575 + 1024, 2048, 102400, 1024 - 200);
  }

  // ---------------------------------------------------------------------------
  // Literal-string helpers: single facts about fixed texts and small numbers,
  // each proved on its own so that the examples above stay cheap to check.
  // They state nothing about the replies.
  // ---------------------------------------------------------------------------

  lemma JoinedExample()
    ensures "01" + ":" + "25" + ":" + "01" + ":" + "01" == "01:25:01:01"
    ensures "Robot's uptime is: " + "01:25:01:01" + "." == "Robot's uptime is: 01:25:01:01."
  {
  }

  /** The literal texts the examples put together. */
  lemma LiteralJoins()
    ensures "512" + " bytes" == "512 bytes"
    ensures "2" + " kilobytes" == "2 kilobytes"
    ensures "2" + " megabytes" == "2 megabytes"
    ensures "Robot's uptime is: " + "2 kilobytes" + "." == "Robot's uptime is: 2 kilobytes."
    ensures "1.5" + " kilobytes" == "1.5 kilobytes"
    ensures "1024" + " kilobytes" == "1024 kilobytes"
  {
  }

  lemma HalfJoin()
    ensures "1" + "." + ['5'] == "1.5"
  {
  }

  lemma DecSmall()
    ensures Dec(1) == "1" && Dec(2) == "2"
  {
  }

  lemma Dec512()
    ensures Dec(512) == "512"
  {
    assert Dec(5) == "5";
    assert Dec(51) == "51";
  }

  lemma Dec1024()
    ensures Dec(1024) == "1024"
  {
    assert Dec(1) == "1";
    assert Dec(10) == "10";
    assert Dec(102) == "102";
  }
}
