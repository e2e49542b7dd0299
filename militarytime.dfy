/** The military time converter: `ParseTime` reads a 12-hour time such as "7:45AM" or
    "11:23PM" into 24-hour hours and minutes, and `ConvertTime` speaks it the military
    way ("zero seven forty five", "sixteen hundred hours"). Every exception the source
    can throw is an error value here. */
module MilitaryTime {
  import opened Results

  /** `numberNames`: the names of 0 to 23. */
  const NumberNames: seq<string> := [
    "zero", "one", "two", "three", "four", "five", "six", "seven", "eight", "nine",
    "ten", "eleven", "twelve", "thirteen", "fourteen", "fifteen", "sixteen",
    "seventeen", "eighteen", "nineteen", "twenty", "twenty one", "twenty two",
    "twenty three"
  ]

  /** `tensNames`: the names of the multiples of ten below 60. */
  const TensNames: seq<string> := ["zero", "ten", "twenty", "thirty", "forty", "fifty"]

  /** What `ParseTime` throws, and the faults it can run into. */
  datatype TimeError =
    | NoInput          // null or white-space input
    | NotTimeForm      // shorter than 4 characters
    | InvalidHours     // the hours before the colon do not parse
    | MissingColon     // no colon at index 1 or 2
    | SliceOutOfRange  // the minutes range runs past the end of the string
    | InvalidMinutes   // the two characters after the colon do not parse
    | OutOfRange       // hours outside 1..12 or minutes outside 0..59
    | IndexOutOfRange  // no character where AM/PM is read

  // ---------------------------------------------------------------------------
  // Characters and `int.TryParse`

  /** `char.IsWhiteSpace`: the Unicode space separators, line and paragraph separators,
      tab to carriage return, next line and no-break space. */
  predicate IsWhiteSpace(c: char)
    ensures IsNumberWhite(c) ==> IsWhiteSpace(c)
    ensures IsWhiteSpace(c) ==> !IsDigit(c) && c != ':' && c != '-' && c != '+'
  {
    || '\t' <= c <= '\r' || c == ' ' || c == '\U{85}' || c == '\U{A0}' || c == '\U{1680}'
    || '\U{2000}' <= c <= '\U{200A}' || c == '\U{2028}' || c == '\U{2029}'
    || c == '\U{202F}' || c == '\U{205F}' || c == '\U{3000}'
  }

  /** `string.IsNullOrWhiteSpace` on a non-null string: empty or only white space. */
  predicate IsNullOrWhiteSpace(s: string) {
    |s| == 0 || (IsWhiteSpace(s[0]) && IsNullOrWhiteSpace(s[1..]))
  }

  lemma {:induction false} NullOrWhiteSpaceIffAll(s: string)
    ensures IsNullOrWhiteSpace(s) <==> forall i :: 0 <= i < |s| ==> IsWhiteSpace(s[i])
  {
    if |s| > 0 {
      NullOrWhiteSpaceIffAll(s[1..]);
      assert forall i :: 1 <= i < |s| ==> s[i] == s[1..][i - 1];
    }
  }

  /** The white space `NumberStyles.Integer` lets a number start or end with. */
  predicate IsNumberWhite(c: char) {
    '\t' <= c <= '\r' || c == ' '
  }

  predicate IsDigit(c: char) {
    '0' as int <= c as int <= '9' as int
  }

  /** `s[i..k]` is all number white space. */
  predicate NumberWhiteSpan(s: string, i: nat, k: nat)
    requires i <= k <= |s|
    decreases k - i
  {
    i == k || (IsNumberWhite(s[i]) && NumberWhiteSpan(s, i + 1, k))
  }

  /** `s[i..k]` is all ASCII digits. */
  predicate DigitSpan(s: string, i: nat, k: nat)
    requires i <= k <= |s|
    decreases k - i
  {
    i == k || (IsDigit(s[i]) && DigitSpan(s, i + 1, k))
  }

  lemma {:induction false} NumberWhiteSpanIffAll(s: string, i: nat, k: nat)
    requires i <= k <= |s|
    ensures NumberWhiteSpan(s, i, k) <==> forall m :: i <= m < k ==> IsNumberWhite(s[m])
    decreases k - i
  {
    if i < k {
      NumberWhiteSpanIffAll(s, i + 1, k);
    }
  }

  lemma {:induction false} DigitSpanIffAll(s: string, i: nat, k: nat)
    requires i <= k <= |s|
    ensures DigitSpan(s, i, k) <==> forall m :: i <= m < k ==> IsDigit(s[m])
    decreases k - i
  {
    if i < k {
      DigitSpanIffAll(s, i + 1, k);
    }
  }

  /** The first index at or after `i` that does not hold number white space. */
  function SkipWhite(s: string, i: nat): (k: nat)
    requires i <= |s|
    ensures i <= k <= |s|
    ensures NumberWhiteSpan(s, i, k)
    ensures k < |s| ==> !IsNumberWhite(s[k])
    decreases |s| - i
  {
    if i == |s| || !IsNumberWhite(s[i]) then i else SkipWhite(s, i + 1)
  }

  /** The first index at or after `i` that does not hold an ASCII digit. */
  function SkipDigits(s: string, i: nat): (k: nat)
    requires i <= |s|
    ensures i <= k <= |s|
    ensures DigitSpan(s, i, k)
    ensures k < |s| ==> !IsDigit(s[k])
    decreases |s| - i
  {
    if i == |s| || !IsDigit(s[i]) then i else SkipDigits(s, i + 1)
  }

  /** The value of a digit character. */
  function DigitValue(c: char): int {
    c as int - '0' as int
  }

  /** The decimal value of the digits `s[i..k]`. */
  function DigitsValue(s: string, i: nat, k: nat): int
    requires i <= k <= |s|
    decreases k - i
  {
    if k == i then 0 else 10 * DigitsValue(s, i, k - 1) + DigitValue(s[k - 1])
  }

  /** Everything from `i` on is a NUL character. */
  predicate OnlyNulFrom(s: string, i: nat)
    requires i <= |s|
    decreases |s| - i
  {
    i == |s| || (s[i] == '\0' && OnlyNulFrom(s, i + 1))
  }

  /** `int.TryParse` with `NumberStyles.Integer`: optional leading white space, an
      optional `+` or `-`, at least one ASCII digit, optional trailing white space and
      trailing NULs, and a value that fits in 32 bits. */
  function TryParseInt(s: string): (r: Option<int>)
    ensures r.Some? ==> -0x8000_0000 <= r.value <= 0x7FFF_FFFF
  {
    var i := SkipWhite(s, 0);
    var signed := i < |s| && (s[i] == '-' || s[i] == '+');
    var j := if signed then i + 1 else i;
    var k := SkipDigits(s, j);
    if k == j || !OnlyNulFrom(s, SkipWhite(s, k)) then None
    else
      var v := DigitsValue(s, j, k);
      var n := if signed && s[i] == '-' then -v else v;
      if -0x8000_0000 <= n <= 0x7FFF_FFFF then Some(n) else None
  }

  /** One decimal digit as a character. */
  function DigitChar(d: nat): (c: char)
    requires d < 10
    ensures IsDigit(c) && DigitValue(c) == d
  {
    ('0' as int + d) as char
  }

  /** The decimal digits of `n`, without leading zeros (a single `0` for zero). */
  function Decimal(n: nat): (s: string)
    ensures |s| > 0 && forall i :: 0 <= i < |s| ==> IsDigit(s[i])
  {
    if n < 10 then [DigitChar(n)] else Decimal(n / 10) + [DigitChar(n % 10)]
  }

  /** The value of a prefix does not depend on what follows it. */
  lemma {:induction false} DigitsValuePrefix(a: string, b: string, k: nat)
    requires k <= |a|
    ensures DigitsValue(a + b, 0, k) == DigitsValue(a, 0, k)
  {
    if k > 0 {
      DigitsValuePrefix(a, b, k - 1);
      assert (a + b)[k - 1] == a[k - 1];
    }
  }

  /** Reading the digits of `Decimal(n)` gives `n` back. */
  lemma {:induction false} DigitsValueOfDecimal(n: nat)
    ensures DigitsValue(Decimal(n), 0, |Decimal(n)|) == n
  {
    if n >= 10 {
      var prefix := Decimal(n / 10);
      DigitsValueOfDecimal(n / 10);
      DigitsValuePrefix(prefix, [DigitChar(n % 10)], |prefix|);
    }
  }

  lemma {:induction false} DigitsValueNonNegative(s: string, k: nat)
    requires k <= |s| && forall i :: 0 <= i < k ==> IsDigit(s[i])
    ensures 0 <= DigitsValue(s, 0, k)
  {
    if k > 0 {
      DigitsValueNonNegative(s, k - 1);
    }
  }

  lemma {:induction false} SkipAllDigits(s: string, i: nat)
    requires i <= |s| && forall m :: i <= m < |s| ==> IsDigit(s[m])
    ensures SkipDigits(s, i) == |s|
    decreases |s| - i
  {
    if i < |s| {
      SkipAllDigits(s, i + 1);
    }
  }

  /** A string of digits whose value fits in 32 bits parses to that value. */
  lemma TryParseDigits(s: string)
    requires |s| > 0 && forall i :: 0 <= i < |s| ==> IsDigit(s[i])
    requires DigitsValue(s, 0, |s|) <= 0x7FFF_FFFF
    ensures TryParseInt(s) == Some(DigitsValue(s, 0, |s|))
  {
    assert SkipWhite(s, 0) == 0 by {
      assert !IsNumberWhite(s[0]);
    }
    SkipAllDigits(s, 0);
    DigitsValueNonNegative(s, |s|);
  }

  /** The `Decimal` form of any 32-bit non-negative number parses back to it. */
  lemma TryParseDecimal(n: nat)
    requires n <= 0x7FFF_FFFF
    ensures TryParseInt(Decimal(n)) == Some(n)
  {
    DigitsValueOfDecimal(n);
    TryParseDigits(Decimal(n));
  }

  // ---------------------------------------------------------------------------
  // ParseTime

  /** `ToLowerInvariant` on one character, for the ASCII letters. */
  function LowerInvariant(c: char): char {
    if 'A' <= c <= 'Z' then (c as int - 'A' as int + 'a' as int) as char else c
  }

  /** `'p'` after `ToLowerInvariant`: only `p` and `P` lower-case to `p`. */
  predicate IsPm(c: char)
    ensures IsPm(c) <==> LowerInvariant(c) == 'p'
  {
    c == 'p' || c == 'P'
  }

  /** Where `ParseTime` takes the colon to be: index 1 when that holds a colon, else 2. */
  function ColonIndex(s: string): nat
    requires |s| >= 2
  {
    if s[1] == ':' then 1 else 2
  }

  /** `ParseTime`: the checks of the source in its order, each failing one giving its
      error; on success the hours are 12-hour hours turned into 0..23. */
  function ParseTime(s: string): (r: Result<(int, int), TimeError>)
    ensures r.Ok? ==> 0 <= r.value.0 <= 23 && 0 <= r.value.1 <= 59
  {
    if IsNullOrWhiteSpace(s) then Err(NoInput)
    else if |s| < 4 then Err(NotTimeForm)
    else if s[1] != ':' && s[2] != ':' then Err(MissingColon)
    else
      var colon := if s[1] == ':' then 0 else 1;
      var hours := TryParseInt(s[..1 + colon]);
      if hours.None? then Err(InvalidHours)
      else if 4 + colon > |s| then Err(SliceOutOfRange)
      else
        var minutes := TryParseInt(s[2 + colon..4 + colon]);
        if minutes.None? then Err(InvalidMinutes)
        else if hours.value > 12 || hours.value < 1 || minutes.value < 0 || minutes.value > 59 then Err(OutOfRange)
        else if 4 + colon >= |s| then Err(IndexOutOfRange)
        else
          var wrapped := if hours.value == 12 then 0 else hours.value;
          Ok((if IsPm(s[4 + colon]) then wrapped + 12 else wrapped, minutes.value))
  }

  /** The first three checks of `ParseTime`, each as an if-and-only-if. */
  lemma ParseTimeEarlyErrors(s: string)
    ensures ParseTime(s) == Err(NoInput) <==> IsNullOrWhiteSpace(s)
    ensures ParseTime(s) == Err(NotTimeForm) <==> !IsNullOrWhiteSpace(s) && |s| < 4
    ensures ParseTime(s) == Err(MissingColon) <==> !IsNullOrWhiteSpace(s) && |s| >= 4 && s[1] != ':' && s[2] != ':'
  {
  }

  /** What a successful parse means: the colon sits at `ColonIndex(s)` and is followed
      by two characters and the AM/PM letter, the text before it parses to an hour from 1
      to 12, the two characters after it parse to the minutes, and the 24-hour hour is
      that hour modulo 12, plus 12 after noon. */
  lemma ParseTimeAccepts(s: string)
    requires ParseTime(s).Ok?
    ensures var c := ColonIndex(s);
      var (hours, minutes) := ParseTime(s).value;
      && c + 3 < |s| && s[c] == ':'
      && TryParseInt(s[..c]).Some? && 1 <= TryParseInt(s[..c]).value <= 12
      && TryParseInt(s[c + 1..c + 3]) == Some(minutes)
      && hours == TryParseInt(s[..c]).value % 12 + (if IsPm(s[c + 3]) then 12 else 0)
  {
  }

  /** A 24-hour time written the way `ParseTime` reads it: the 12-hour hour without a
      leading zero, a colon, two minute digits, and `AM` or `PM`. */
  function Format12(hours: int, minutes: int): string
    requires 0 <= hours <= 23 && 0 <= minutes <= 59
  {
    var h12 := if hours % 12 == 0 then 12 else hours % 12;
    Decimal(h12) + ":" + [DigitChar(minutes / 10), DigitChar(minutes % 10)] + (if hours < 12 then "AM" else "PM")
  }

  /** One or two digits parse to their decimal value. */
  lemma ParseSmall(s: string)
    requires 1 <= |s| <= 2 && forall i :: 0 <= i < |s| ==> IsDigit(s[i])
    ensures TryParseInt(s) == Some(if |s| == 1 then DigitValue(s[0]) else 10 * DigitValue(s[0]) + DigitValue(s[1]))
  {
    assert DigitsValue(s, 0, 1) == DigitValue(s[0]);
    TryParseDigits(s);
  }

  /** A string that is not empty and starts with neither white space, a sign nor a digit
      does not parse. */
  lemma ParseNoDigits(s: string)
    requires |s| > 0 && !IsNumberWhite(s[0]) && s[0] != '-' && s[0] != '+' && !IsDigit(s[0])
    ensures TryParseInt(s) == None
  {
    assert SkipWhite(s, 0) == 0;
  }

  /** How `ParseTime` reads a string with one or two hour digits before the colon at
      index `c`, two minute digits after it and a further character: the digits give
      `hours` and `minutes`, which are range-checked and turned into 24-hour time. */
  lemma ReadTime(s: string, c: nat, hours: int, minutes: int)
    requires c == 1 || c == 2
    requires |s| > c + 3 && s[c] == ':' && (c == 2 ==> s[1] != ':')
    requires forall i :: 0 <= i < c ==> IsDigit(s[i])
    requires IsDigit(s[c + 1]) && IsDigit(s[c + 2])
    requires hours == if c == 1 then DigitValue(s[0]) else 10 * DigitValue(s[0]) + DigitValue(s[1])
    requires minutes == 10 * DigitValue(s[c + 1]) + DigitValue(s[c + 2])
    ensures ParseTime(s) ==
      if 1 <= hours <= 12 && minutes <= 59 then Ok((hours % 12 + (if IsPm(s[c + 3]) then 12 else 0), minutes))
      else Err(OutOfRange)
  {
    assert !IsWhiteSpace(s[0]);
    ReadFields(s, c, hours, minutes);
  }

  /** The hour and minute fields of such a string parse to their digits' values. */
  lemma ReadFields(s: string, c: nat, hours: int, minutes: int)
    requires c == 1 || c == 2
    requires |s| > c + 3
    requires forall i :: 0 <= i < c ==> IsDigit(s[i])
    requires IsDigit(s[c + 1]) && IsDigit(s[c + 2])
    requires hours == if c == 1 then DigitValue(s[0]) else 10 * DigitValue(s[0]) + DigitValue(s[1])
    requires minutes == 10 * DigitValue(s[c + 1]) + DigitValue(s[c + 2])
    ensures TryParseInt(s[..c]) == Some(hours)
    ensures TryParseInt(s[c + 1..c + 3]) == Some(minutes)
  {
    ParseSmall(s[..c]);
    ParseSmall(s[c + 1..c + 3]);
  }

  /** The pieces of `Format12`: the hour digits up to the colon at index `c`, two minute
      digits, and `P` after noon or `A` before. */
  lemma Format12Parts(hours: int, minutes: int, c: nat)
    requires 0 <= hours <= 23 && 0 <= minutes <= 59
    requires c == |Decimal(if hours % 12 == 0 then 12 else hours % 12)|
    ensures var s := Format12(hours, minutes);
      var h12 := if hours % 12 == 0 then 12 else hours % 12;
      && (c == 1 || c == 2) && |s| == c + 5
      && s[c] == ':' && (c == 2 ==> s[1] != ':')
      && (forall i :: 0 <= i < c ==> IsDigit(s[i]))
      && IsDigit(s[c + 1]) && IsDigit(s[c + 2])
      && h12 == (if c == 1 then DigitValue(s[0]) else 10 * DigitValue(s[0]) + DigitValue(s[1]))
      && minutes == 10 * DigitValue(s[c + 1]) + DigitValue(s[c + 2])
      && (IsPm(s[c + 3]) <==> hours >= 12)
  {
    var h12 := if hours % 12 == 0 then 12 else hours % 12;
    var hs := Decimal(h12);
    if h12 >= 10 {
      assert hs == [DigitChar(1), DigitChar(h12 % 10)];
    }
    var s := Format12(hours, minutes);
    assert s[..c] == hs;
    assert s[c + 1] == DigitChar(minutes / 10) && s[c + 2] == DigitChar(minutes % 10);
  }

  /** `ParseTime` inverts `Format12`: every 24-hour time survives the round trip. */
  lemma ParseFormat12(hours: int, minutes: int)
    requires 0 <= hours <= 23 && 0 <= minutes <= 59
    ensures ParseTime(Format12(hours, minutes)) == Ok((hours, minutes))
  {
    var h12 := if hours % 12 == 0 then 12 else hours % 12;
    var c := |Decimal(h12)|;
    Format12Parts(hours, minutes, c);
    ReadTime(Format12(hours, minutes), c, h12, minutes);
    TwelveHourClock(hours);
  }

  /** Twelve-hour hours, 12 for midnight and noon, come back to 24-hour hours as
      `ParseTime` maps them: 12 becomes 0, and 12 is added after noon. */
  lemma TwelveHourClock(hours: int)
    requires 0 <= hours <= 23
    ensures var h12 := if hours % 12 == 0 then 12 else hours % 12;
      1 <= h12 <= 12 && h12 % 12 + (if hours >= 12 then 12 else 0) == hours
  {
  }

  // The test vectors of the source's `Main` for `ParseTime`.

  lemma ParsesOnePm()
    ensures ParseTime("1:00PM") == Ok((13, 0))
  {
    ReadTime("1:00PM", 1, 1, 0);
  }

  lemma ParsesOneAm()
    ensures ParseTime("1:00AM") == Ok((1, 0))
  {
    ReadTime("1:00AM", 1, 1, 0);
  }

  lemma ParsesLeadingZero()
    ensures ParseTime("01:00AM") == Ok((1, 0))
  {
    ReadTime("01:00AM", 2, 1, 0);
  }

  lemma ParsesMidnight()
    ensures ParseTime("12:00AM") == Ok((0, 0))
  {
    ReadTime("12:00AM", 2, 12, 0);
  }

  lemma ParsesElevenPm()
    ensures ParseTime("11:00PM") == Ok((23, 0))
  {
    ReadTime("11:00PM", 2, 11, 0);
  }

  // Inputs that fail, one per error: white space only, too short, no AM/PM letter (an
  // index past the end), minutes cut short (a slice past the end), no colon at index 1
  // or 2, 13 o'clock, and hours or minutes that are not numbers.

  lemma RejectsBlank()
    ensures ParseTime("   ") == Err(NoInput)
  {
    assert IsNullOrWhiteSpace("   ");
  }

  lemma RejectsShort()
    ensures ParseTime("1:0") == Err(NotTimeForm)
  {
    assert !IsWhiteSpace("1:0"[0]);
  }

  lemma RejectsMissingMeridiem()
    ensures ParseTime("1:00") == Err(IndexOutOfRange)
  {
    var s := "1:00";
    assert !IsWhiteSpace(s[0]);
    ParseSmall(s[..1]);
    ParseSmall(s[2..4]);
  }

  lemma RejectsShortMinutes()
    ensures ParseTime("12:0") == Err(SliceOutOfRange)
  {
    var s := "12:0";
    assert !IsWhiteSpace(s[0]);
    ParseSmall(s[..2]);
  }

  lemma RejectsMissingColon()
    ensures ParseTime("1200PM") == Err(MissingColon)
  {
    assert !IsWhiteSpace("1200PM"[0]);
  }

  lemma RejectsThirteen()
    ensures ParseTime("13:00PM") == Err(OutOfRange)
  {
    ReadTime("13:00PM", 2, 13, 0);
  }

  lemma RejectsBadHours()
    ensures ParseTime("x:00PM") == Err(InvalidHours)
  {
    var s := "x:00PM";
    assert !IsWhiteSpace(s[0]);
    ParseNoDigits(s[..1]);
  }

  lemma RejectsBadMinutes()
    ensures ParseTime("1:x0PM") == Err(InvalidMinutes)
  {
    var s := "1:x0PM";
    assert !IsWhiteSpace(s[0]);
    ParseSmall(s[..1]);
    ParseNoDigits(s[2..4]);
  }

  // ---------------------------------------------------------------------------
  // ConvertTime

  /** The hours as spoken: "zero " before a single-digit hour, then the hour's name. */
  function HourWords(hours: int): string
    requires 0 <= hours <= 23
  {
    (if hours < 10 then NumberNames[0] + " " else "") + NumberNames[hours]
  }

  /** The minutes as spoken: "hundred hours" on the hour; otherwise "zero " before a
      single digit, then the table name below 24, or the tens name and the units name
      from 24 on. */
  function MinuteWords(minutes: int): string
    requires 0 <= minutes <= 59
  {
    if minutes == 0 then "hundred hours"
    else
      (if minutes < 10 then NumberNames[0] + " " else "")
      + (if minutes < 24 then NumberNames[minutes]
         else TensNames[minutes / 10] + " " + NumberNames[minutes % 10])
  }

  /** The spoken military time of a 24-hour time. */
  function Spoken(hours: int, minutes: int): string
    requires 0 <= hours <= 23 && 0 <= minutes <= 59
  {
    HourWords(hours) + " " + MinuteWords(minutes)
  }

  /** What `ConvertTime` yields for `s`: the spoken form of its parse, or the parse error. */
  function SpokenTime(s: string): Result<string, TimeError> {
    var parsed := ParseTime(s);
    if parsed.Err? then Err(parsed.error) else Ok(Spoken(parsed.value.0, parsed.value.1))
  }

  /** The names joined with single spaces. */
  function Join(names: seq<string>): string {
    if |names| == 0 then ""
    else if |names| == 1 then names[0]
    else names[0] + " " + Join(names[1..])
  }

  lemma {:induction false} JoinAppend(a: seq<string>, b: seq<string>)
    requires |a| > 0 && |b| > 0
    ensures Join(a + b) == Join(a) + " " + Join(b)
  {
    if |a| == 1 {
      assert (a + b)[1..] == b;
    } else {
      assert (a + b)[1..] == a[1..] + b;
      JoinAppend(a[1..], b);
    }
  }

  /** The names spoken for the hours: "zero" before a single-digit hour, then its name. */
  function HourNames(hours: int): (r: seq<string>)
    requires 0 <= hours <= 23
  {
    (if hours < 10 then [NumberNames[0]] else []) + [NumberNames[hours]]
  }

  /** The names spoken for non-zero minutes: "zero" before a single digit, the table
      name below 24, and the tens name followed by the units name from 24 on (the units
      name included when it is "zero"). */
  function MinuteNames(minutes: int): seq<string>
    requires 1 <= minutes <= 59
  {
    (if minutes < 10 then [NumberNames[0]] else [])
    + (if minutes < 24 then [NumberNames[minutes]]
       else [TensNames[minutes / 10], NumberNames[minutes % 10]])
  }

  /** Every name of the spoken time, in order; on the hour the minutes are "hundred hours". */
  function SpokenNames(hours: int, minutes: int): seq<string>
    requires 0 <= hours <= 23 && 0 <= minutes <= 59
  {
    HourNames(hours) + (if minutes == 0 then ["hundred hours"] else MinuteNames(minutes))
  }

  lemma HourWordsAreNames(hours: int)
    requires 0 <= hours <= 23
    ensures HourWords(hours) == Join(HourNames(hours))
  {
    if hours < 10 {
      assert HourNames(hours) == [NumberNames[0], NumberNames[hours]];
      assert HourNames(hours)[1..] == [NumberNames[hours]];
    } else {
      assert HourNames(hours) == [NumberNames[hours]];
    }
  }

  lemma MinuteWordsAreNames(minutes: int)
    requires 1 <= minutes <= 59
    ensures MinuteWords(minutes) == Join(MinuteNames(minutes))
  {
    var names := MinuteNames(minutes);
    if minutes < 10 {
      assert names == [NumberNames[0], NumberNames[minutes]];
      assert names[1..] == [NumberNames[minutes]];
    } else if minutes < 24 {
      assert names == [NumberNames[minutes]];
    } else {
      assert names == [TensNames[minutes / 10], NumberNames[minutes % 10]];
      assert names[1..] == [NumberNames[minutes % 10]];
    }
  }

  /** The spoken time is its names, from the two tables and "hundred hours", each
      separated from the next by a single space. */
  lemma SpokenIsJoin(hours: int, minutes: int)
    requires 0 <= hours <= 23 && 0 <= minutes <= 59
    ensures Spoken(hours, minutes) == Join(SpokenNames(hours, minutes))
  {
    var ms := if minutes == 0 then ["hundred hours"] else MinuteNames(minutes);
    JoinAppend(HourNames(hours), ms);
    HourWordsAreNames(hours);
    if minutes != 0 {
      MinuteWordsAreNames(minutes);
    }
  }

  /** A time is said as "... hundred hours" exactly when it is on the hour. */
  lemma HundredHoursIffOnTheHour(hours: int, minutes: int)
    requires 0 <= hours <= 23 && 0 <= minutes <= 59
    ensures var names := SpokenNames(hours, minutes);
      names[|names| - 1] == "hundred hours" <==> minutes == 0
  {
  }

  /** A time is said starting with "zero" exactly when its hour is below ten. */
  lemma LeadingZeroIffEarly(hours: int, minutes: int)
    requires 0 <= hours <= 23 && 0 <= minutes <= 59
    ensures SpokenNames(hours, minutes)[0] == "zero" <==> hours < 10
  {
  }

  /** Minutes are said as "zero <unit>" below ten, by their own name up to 23, and as two
      names from 24 on, which makes a whole number of tens end in "zero". */
  lemma MinuteNamesShape(minutes: int)
    requires 1 <= minutes <= 59
    ensures minutes < 10 ==> MinuteNames(minutes) == ["zero", NumberNames[minutes]]
    ensures 10 <= minutes < 24 ==> MinuteNames(minutes) == [NumberNames[minutes]]
    ensures 24 <= minutes ==> |MinuteNames(minutes)| == 2
    ensures minutes >= 30 && minutes % 10 == 0 ==> MinuteNames(minutes)[1] == "zero"
  {
  }

  /** Every name spoken comes from the two tables or is "hundred hours". */
  lemma NamesFromTables(hours: int, minutes: int)
    requires 0 <= hours <= 23 && 0 <= minutes <= 59
    ensures forall name :: name in SpokenNames(hours, minutes) ==>
              name in NumberNames || name in TensNames || name == "hundred hours"
  {
  }

  lemma SpokenFourPm()
    ensures Spoken(16, 0) == "sixteen hundred hours"
  {
    assert Spoken(16, 0) == "sixteen" + " " + "hundred hours";
  }

  lemma SpokenElevenAm()
    ensures Spoken(11, 0) == "eleven hundred hours"
  {
    assert Spoken(11, 0) == "eleven" + " " + "hundred hours";
  }

  lemma SpokenElevenTwentyThree()
    ensures Spoken(11, 23) == "eleven twenty three"
  {
    assert Spoken(11, 23) == "eleven" + " " + "twenty three";
  }

  lemma SpokenSixFortyFivePm()
    ensures Spoken(18, 45) == "eighteen forty five"
  {
    assert Spoken(18, 45) == "eighteen" + " " + ("forty" + " " + "five");
  }

  lemma SpokenSevenFortyFiveAm()
    ensures Spoken(7, 45) == "zero seven forty five"
  {
    assert Spoken(7, 45) == "zero" + " " + "seven" + " " + ("forty" + " " + "five");
  }

  lemma SpokenFiveOhFivePm()
    ensures Spoken(17, 5) == "seventeen zero five"
  {
    assert Spoken(17, 5) == "seventeen" + " " + ("zero" + " " + "five");
  }

  lemma SpokenFourOhNineAm()
    ensures Spoken(4, 9) == "zero four zero nine"
  {
    assert Spoken(4, 9) == "zero" + " " + "four" + " " + ("zero" + " " + "nine");
  }

  lemma SpokenSixThirtyPm()
    ensures Spoken(18, 30) == "eighteen thirty zero"
  {
    assert Spoken(18, 30) == "eighteen" + " " + ("thirty" + " " + "zero");
  }

  // The test vectors of the source's `Main` for `ConvertTime`, and "6:30PM".

  lemma ParsesFourPm()
    ensures ParseTime("4:00PM") == Ok((16, 0))
  {
    ReadTime("4:00PM", 1, 4, 0);
  }

  lemma SaysFourPm()
    ensures SpokenTime("4:00PM") == Ok("sixteen hundred hours")
  {
    ParsesFourPm();
    SpokenFourPm();
  }

  lemma ParsesElevenAm()
    ensures ParseTime("11:00AM") == Ok((11, 0))
  {
    ReadTime("11:00AM", 2, 11, 0);
  }

  lemma SaysElevenAm()
    ensures SpokenTime("11:00AM") == Ok("eleven hundred hours")
  {
    ParsesElevenAm();
    SpokenElevenAm();
  }

  lemma ParsesElevenTwentyThree()
    ensures ParseTime("11:23AM") == Ok((11, 23))
  {
    ReadTime("11:23AM", 2, 11, 23);
  }

  lemma SaysElevenTwentyThree()
    ensures SpokenTime("11:23AM") == Ok("eleven twenty three")
  {
    ParsesElevenTwentyThree();
    SpokenElevenTwentyThree();
  }

  lemma ParsesSixFortyFivePm()
    ensures ParseTime("6:45PM") == Ok((18, 45))
  {
    ReadTime("6:45PM", 1, 6, 45);
  }

  lemma SaysSixFortyFivePm()
    ensures SpokenTime("6:45PM") == Ok("eighteen forty five")
  {
    ParsesSixFortyFivePm();
    SpokenSixFortyFivePm();
  }

  lemma ParsesSevenFortyFiveAm()
    ensures ParseTime("7:45AM") == Ok((7, 45))
  {
    ReadTime("7:45AM", 1, 7, 45);
  }

  lemma SaysSevenFortyFiveAm()
    ensures SpokenTime("7:45AM") == Ok("zero seven forty five")
  {
    ParsesSevenFortyFiveAm();
    SpokenSevenFortyFiveAm();
  }

  lemma ParsesFiveOhFivePm()
    ensures ParseTime("5:05PM") == Ok((17, 5))
  {
    ReadTime("5:05PM", 1, 5, 5);
  }

  lemma SaysFiveOhFivePm()
    ensures SpokenTime("5:05PM") == Ok("seventeen zero five")
  {
    ParsesFiveOhFivePm();
    SpokenFiveOhFivePm();
  }

  lemma ParsesFourOhNineAm()
    ensures ParseTime("4:09AM") == Ok((4, 9))
  {
    ReadTime("4:09AM", 1, 4, 9);
  }

  lemma SaysFourOhNineAm()
    ensures SpokenTime("4:09AM") == Ok("zero four zero nine")
  {
    ParsesFourOhNineAm();
    SpokenFourOhNineAm();
  }

  lemma ParsesSixThirtyPm()
    ensures ParseTime("6:30PM") == Ok((18, 30))
  {
    ReadTime("6:30PM", 1, 6, 30);
  }

  lemma SaysSixThirtyPm()
    ensures SpokenTime("6:30PM") == Ok("eighteen thirty zero")
  {
    ParsesSixThirtyPm();
    SpokenSixThirtyPm();
  }

  lemma AppendAssociative(a: string, b: string, c: string)
    ensures a + b + c == a + (b + c)
  {
  }

  /** `ConvertTime`: parses, then appends the names in order to a builder. A parse
      failure is passed on as the exception the source lets escape. */
  method ConvertTime(s: string) returns (r: Result<string, TimeError>)
    ensures r == SpokenTime(s)
  {
    var parsed := ParseTime(s);
    if parsed.Err? {
      return Err(parsed.error);
    }
    var (hours, minutes) := parsed.value;

    var sb: string := "";
    if hours < 10 {
      sb := sb + NumberNames[0];
      sb := sb + " ";
    }
    sb := sb + NumberNames[hours];
    sb := sb + " ";
    assert sb == HourWords(hours) + " ";

    if minutes == 0 {
      sb := sb + "hundred hours";
      return Ok(sb);
    }

    ghost var hourPart := sb;
    if minutes < 10 {
      sb := sb + NumberNames[0];
      sb := sb + " ";
    }
    ghost var zeroPart := if minutes < 10 then NumberNames[0] + " " else "";
    assert sb == hourPart + zeroPart;
    if minutes < 24 {
      sb := sb + NumberNames[minutes];
      AppendAssociative(hourPart, zeroPart, NumberNames[minutes]);
      assert MinuteWords(minutes) == zeroPart + NumberNames[minutes];
    } else {
      sb := sb + TensNames[minutes / 10];
      sb := sb + " ";
      sb := sb + NumberNames[minutes % 10];
      assert zeroPart == "";
      AppendAssociative(hourPart, TensNames[minutes / 10], " ");
      AppendAssociative(hourPart, TensNames[minutes / 10] + " ", NumberNames[minutes % 10]);
      assert MinuteWords(minutes) == TensNames[minutes / 10] + " " + NumberNames[minutes % 10];
    }
    assert sb == hourPart + MinuteWords(minutes);
    return Ok(sb);
  }
}
