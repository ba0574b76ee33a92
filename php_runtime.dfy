/**
 * The few pieces of PHP's runtime that the bot's decision logic leans on:
 * null-or-value, exceptions as results, `strtolower`, truthiness of a string,
 * `trim`, integer-to-string conversion, `sprintf("%02d")`, and the truncating
 * integer conversion PHP applies before `%`.
 */
module PhpRuntime {

  datatype Option<+T> = None | Some(value: T) {
    /** PHP's `$x ?? $default` on a value that may be missing or null. */
    function GetOr(default: T): T {
      match this
      case Some(v) => v
      case None => default
    }
  }

  datatype Result<+T> = Ok(value: T) | Err(error: string)

  // ---------------------------------------------------------------------------
  // strtolower
  // ---------------------------------------------------------------------------

  /** `strtolower` on one character: ASCII letters only, as PHP 8.2 and later do. */
  function LowerChar(c: char): char {
    if 'A' <= c <= 'Z' then (c as int + 32) as char else c
  }

  /** `strtolower`, character by character. */
  function Lower(s: string): string {
    seq(|s|, i requires 0 <= i < |s| => LowerChar(s[i]))
  }

  /**
   * What `strtolower` promises, independently of how it is computed: the
   * result has the same length, contains no ASCII capital, and differs from
   * `s` only where `s` has an ASCII capital, which becomes its lower-case
   * letter. These three facts determine the result.
   */
  lemma LowerCharacterised(s: string)
    ensures |Lower(s)| == |s|
    ensures forall i :: 0 <= i < |s| ==> !('A' <= Lower(s)[i] <= 'Z')
    ensures forall i :: 0 <= i < |s| ==>
      Lower(s)[i] == s[i] || ('A' <= s[i] <= 'Z' && Lower(s)[i] as int == s[i] as int + 32)
  {
  }

  lemma LowerIdempotent(s: string)
    ensures Lower(Lower(s)) == Lower(s)
  {
  }

  // ---------------------------------------------------------------------------
  // Truthiness
  // ---------------------------------------------------------------------------

  /** A string or null used as a condition: null, "" and "0" are false. */
  predicate Truthy(s: Option<string>) {
    s.Some? && s.value != "" && s.value != "0"
  }

  /** Lower-casing a truthy string keeps it truthy, so `$msg` is truthy exactly when `$msgOrig` is. */
  lemma LowerKeepsTruthy(s: string)
    ensures Truthy(Some(Lower(s))) <==> Truthy(Some(s))
  {
    if |s| == 1 {
      assert Lower(s) == [LowerChar(s[0])];
    }
  }

  // ---------------------------------------------------------------------------
  // trim
  // ---------------------------------------------------------------------------

  /** The characters PHP's `trim` strips by default: " \t\n\r\0\x0B". */
  predicate IsTrimChar(c: char) {
    c == ' ' || c == '\t' || c == '\n' || c == '\r' || c as int == 0 || c as int == 11
  }

  predicate AllTrimChars(s: string) {
    forall k :: 0 <= k < |s| ==> IsTrimChar(s[k])
  }

  /** Number of strippable characters at the start of `s`. */
  function LeadingTrim(s: string): (n: nat)
    ensures n <= |s|
  {
    if s == [] || !IsTrimChar(s[0]) then 0 else 1 + LeadingTrim(s[1..])
  }

  /** The leading run is all strippable and stops at the first character that is not. */
  lemma {:induction false} LeadingTrimIsMaximal(s: string)
    ensures forall k :: 0 <= k < LeadingTrim(s) ==> IsTrimChar(s[k])
    ensures LeadingTrim(s) == |s| || !IsTrimChar(s[LeadingTrim(s)])
    decreases |s|
  {
    if s != [] && IsTrimChar(s[0]) {
      var tail := s[1..];
      LeadingTrimIsMaximal(tail);
      forall k | 1 <= k < LeadingTrim(s) ensures IsTrimChar(s[k]) {
        assert s[k] == tail[k - 1];
      }
    }
  }

  /** Number of strippable characters at the end of `s`. */
  function TrailingTrim(s: string): (n: nat)
    ensures n <= |s|
  {
    if s == [] || !IsTrimChar(s[|s| - 1]) then 0 else 1 + TrailingTrim(s[..|s| - 1])
  }

  /** The trailing run is all strippable and stops at the last character that is not. */
  lemma {:induction false} TrailingTrimIsMaximal(s: string)
    ensures forall k :: |s| - TrailingTrim(s) <= k < |s| ==> IsTrimChar(s[k])
    ensures TrailingTrim(s) == |s| || !IsTrimChar(s[|s| - 1 - TrailingTrim(s)])
    decreases |s|
  {
    if s != [] && IsTrimChar(s[|s| - 1]) {
      var init := s[..|s| - 1];
      TrailingTrimIsMaximal(init);
      forall k | |s| - TrailingTrim(s) <= k < |s| - 1 ensures IsTrimChar(s[k]) {
        assert s[k] == init[k];
      }
    }
  }

  lemma ConcatAssociative<T>(a: seq<T>, b: seq<T>, c: seq<T>)
    ensures a + (b + c) == a + b + c
  {
  }

  /** PHP's `trim($s)`: the longest middle part of `s` that neither starts nor ends with a strippable character. */
  function Trim(s: string): (r: string)
    ensures |r| <= |s|
    ensures r == [] || (!IsTrimChar(r[0]) && !IsTrimChar(r[|r| - 1]))
  {
    var t := s[LeadingTrim(s)..];
    LeadingTrimIsMaximal(s);
    TrailingTrimIsMaximal(t);
    t[..|t| - TrailingTrim(t)]
  }

  /** What `trim` removes is strippable characters only, from the two ends. */
  lemma TrimRemovesOnlyPadding(s: string)
    ensures var r := Trim(s);
      exists i :: 0 <= i <= |s| - |r| && s == s[..i] + r + s[i + |r|..]
                  && AllTrimChars(s[..i]) && AllTrimChars(s[i + |r|..])
  {
    var i := LeadingTrim(s);
    var r := Trim(s);
    TrimIsSlice(s);
    PaddedMiddle(s, i, i + |r|);
  }

  /** `Trim(s)` is the slice after the leading run, and everything around it is strippable. */
  lemma TrimIsSlice(s: string)
    ensures var i := LeadingTrim(s);
      && i + |Trim(s)| <= |s|
      && Trim(s) == s[i..i + |Trim(s)|]
      && (forall k :: 0 <= k < i ==> IsTrimChar(s[k]))
      && (forall k :: i + |Trim(s)| <= k < |s| ==> IsTrimChar(s[k]))
  {
    var i := LeadingTrim(s);
    var t := s[i..];
    LeadingTrimIsMaximal(s);
    TrailingTrimIsMaximal(t);
    forall k | i + |Trim(s)| <= k < |s| ensures IsTrimChar(s[k]) {
      assert s[k] == t[k - i];
    }
  }

  /** A slice with strippable characters on both sides of it. */
  lemma PaddedMiddle(s: string, i: nat, j: nat)
    requires i <= j <= |s|
    requires forall k :: 0 <= k < i ==> IsTrimChar(s[k])
    requires forall k :: j <= k < |s| ==> IsTrimChar(s[k])
    ensures s == s[..i] + s[i..j] + s[j..]
    ensures AllTrimChars(s[..i]) && AllTrimChars(s[j..])
  {
    assert s == s[..i] + s[i..j] + s[j..];
    forall k | 0 <= k < |s| - j ensures IsTrimChar(s[j..][k]) {
      assert s[j..][k] == s[j + k];
    }
  }

  lemma {:induction false} LeadingTrimOfPadded(pad: string, k: string)
    requires AllTrimChars(pad)
    requires k == [] || !IsTrimChar(k[0])
    ensures LeadingTrim(pad + k) == |pad|
    decreases |pad|
  {
    if pad == [] {
      assert pad + k == k;
    } else {
      assert (pad + k)[1..] == pad[1..] + k;
      LeadingTrimOfPadded(pad[1..], k);
    }
  }

  lemma {:induction false} TrailingTrimOfPadded(k: string, pad: string)
    requires AllTrimChars(pad)
    requires k == [] || !IsTrimChar(k[|k| - 1])
    ensures TrailingTrim(k + pad) == |pad|
    decreases |pad|
  {
    if pad == [] {
      assert k + pad == k;
    } else {
      assert (k + pad)[..|k + pad| - 1] == k + pad[..|pad| - 1];
      TrailingTrimOfPadded(k, pad[..|pad| - 1]);
    }
  }

  /** Trimming undoes any padding with strippable characters: `trim(" \t stop \n") == "stop"`. */
  lemma TrimStripsPadding(left: string, k: string, right: string)
    requires AllTrimChars(left) && AllTrimChars(right)
    requires k != [] && !IsTrimChar(k[0]) && !IsTrimChar(k[|k| - 1])
    ensures Trim(left + k + right) == k
  {
    var s := left + k + right;
    assert s == left + (k + right);
    LeadingTrimOfPadded(left, k + right);
    var t := s[|left|..];
    assert t == k + right;
    TrailingTrimOfPadded(k, right);
  }

  // ---------------------------------------------------------------------------
  // Integers as text
  // ---------------------------------------------------------------------------

  predicate IsDigit(c: char) {
    '0' <= c <= '9'
  }

  predicate AllDigits(s: string) {
    forall k :: 0 <= k < |s| ==> IsDigit(s[k])
  }

  function DigitChar(d: int): (c: char)
    requires 0 <= d < 10
    ensures IsDigit(c)
  {
    ('0' as int + d) as char
  }

  function DigitValue(c: char): (d: nat)
    requires IsDigit(c)
    ensures d < 10 && DigitChar(d) == c
  {
    c as int - '0' as int
  }

  /** The decimal text of a non-negative integer, as PHP writes an int into a string. */
  function Dec(n: nat): (r: string)
    ensures 1 <= |r| && AllDigits(r)
    ensures r[0] == '0' ==> n == 0
    ensures n < 10 <==> |r| == 1
  {
    if n < 10 then [DigitChar(n)] else Dec(n / 10) + [DigitChar(n % 10)]
  }

  /** Reading a run of decimal digits back as a number. */
  function ParseDec(s: string): nat
    requires AllDigits(s)
  {
    if s == [] then 0 else 10 * ParseDec(s[..|s| - 1]) + DigitValue(s[|s| - 1])
  }

  /** `Dec` is undone by `ParseDec`: the text of a number denotes that number. */
  lemma {:induction false} ParseDecOfDec(n: nat)
    ensures ParseDec(Dec(n)) == n
  {
    if n >= 10 {
      var s := Dec(n);
      assert s[..|s| - 1] == Dec(n / 10);
      ParseDecOfDec(n / 10);
    }
  }

  /** Leading zeros do not change the number a digit string denotes. */
  lemma {:induction false} ParseDecLeadingZero(s: string)
    requires AllDigits(s)
    ensures ParseDec("0" + s) == ParseDec(s)
    decreases |s|
  {
    if s != [] {
      var t := "0" + s;
      assert t[..|t| - 1] == "0" + s[..|s| - 1];
      ParseDecLeadingZero(s[..|s| - 1]);
    }
  }

  /** `sprintf("%02d", n)`: zero-padded to width two, the sign counting towards the width. */
  function Pad2(n: int): (r: string)
    ensures 2 <= |r|
    ensures n >= 0 ==> AllDigits(r) && |r| == (if n < 10 then 2 else |Dec(n)|)
    ensures n < 0 ==> r[0] == '-' && |r| == 1 + |Dec(-n)|
  {
    if n < 0 then "-" + Dec(-n)
    else if n < 10 then "0" + Dec(n)
    else Dec(n)
  }

  /** A non-negative `%02d` field reads back as the number that was formatted. */
  lemma ParsePad2(n: nat)
    ensures AllDigits(Pad2(n)) && ParseDec(Pad2(n)) == n
  {
    ParseDecOfDec(n);
    if n < 10 {
      ParseDecLeadingZero(Dec(n));
    }
  }

  /** A negative `%02d` field is a minus sign followed by the digits of its magnitude. */
  lemma ParsePad2Negative(n: int)
    requires n < 0
    ensures AllDigits(Pad2(n)[1..]) && ParseDec(Pad2(n)[1..]) == -n
  {
    var d := Dec(-n);
    assert Pad2(n) == "-" + d;
    assert ("-" + d)[1..] == d;
    ParseDecOfDec(-n);
  }

  // ---------------------------------------------------------------------------
  // PHP integer arithmetic
  // ---------------------------------------------------------------------------

  /** `(int)($a / $b)`: PHP truncates the quotient toward zero when it becomes an int. */
  function TruncDiv(a: int, b: int): (q: int)
    requires b > 0
    ensures a >= 0 ==> 0 <= a - q * b < b
    ensures a < 0 ==> -b < a - q * b <= 0
  {
    if a >= 0 then a / b else -((-a) / b)
  }

  /** `$a % $b`: PHP's remainder takes the sign of the dividend. */
  function TruncMod(a: int, b: int): (r: int)
    requires b > 0
    ensures a == TruncDiv(a, b) * b + r
    ensures a >= 0 ==> 0 <= r < b
    ensures a < 0 ==> -b < r <= 0
  {
    a - TruncDiv(a, b) * b
  }
}
