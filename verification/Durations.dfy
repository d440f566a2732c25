// Duration strings such as "30s", "2m" and "1h": decimal numbers, 64-bit wrap-around and the two parsers.
module Durations {
  import opened Instants
  import opened Text

  // ------------------------------------------------ 64-bit integers

  /** The value a Go int64 holds after arithmetic whose exact result is `x`. */
  function Wrap64(x: int): int {
    (x + 0x8000_0000_0000_0000) % 0x1_0000_0000_0000_0000 - 0x8000_0000_0000_0000
  }

  predicate FitsInt64(x: int) {
    -0x8000_0000_0000_0000 <= x < 0x8000_0000_0000_0000
  }

  lemma WrapShift(x: int, k: int)
    ensures Wrap64(x + k * 0x1_0000_0000_0000_0000) == Wrap64(x)
  {
    var m := 0x1_0000_0000_0000_0000;
    var y := x + 0x8000_0000_0000_0000;
    var z := y + k * m;
    assert z == m * (y / m + k) + y % m;
    assert m * (z / m - y / m - k) == y % m - z % m;
  }

  lemma WrapExactIff(x: int)
    ensures FitsInt64(Wrap64(x))
    ensures Wrap64(x) == x <==> FitsInt64(x)
  {
  }

  /** Reducing before multiplying by `scale` changes nothing. */
  lemma WrapInside(x: int, scale: int)
    ensures Wrap64(Wrap64(x) * scale) == Wrap64(x * scale)
  {
    var m := 0x1_0000_0000_0000_0000;
    var q := (x + 0x8000_0000_0000_0000) / m;
    assert x == Wrap64(x) + q * m;
    assert x * scale == Wrap64(x) * scale + (q * scale) * m by {
      assert (q * m) * scale == (q * scale) * m;
    }
    WrapShift(Wrap64(x) * scale, q * scale);
  }

  // ------------------------------------------------ decimal numbers

  predicate IsDigit(c: char) {
    '0' <= c <= '9'
  }

  function DigitValue(c: char): nat
    requires IsDigit(c)
  {
    c as int - '0' as int
  }

  predicate AllDigits(s: string) {
    forall i :: 0 <= i < |s| ==> IsDigit(s[i])
  }

  function DecimalValue(s: string): nat
    requires AllDigits(s)
  {
    if s == "" then 0 else 10 * DecimalValue(s[..|s| - 1]) + DigitValue(s[|s| - 1])
  }

  /** strconv.Atoi: an optional sign, at least one digit, and a value that fits an int64. */
  function Atoi(s: string): Option<int> {
    var digits := if s != "" && (s[0] == '-' || s[0] == '+') then s[1..] else s;
    if digits == "" || !AllDigits(digits) then None
    else
      var magnitude: int := DecimalValue(digits);
      var value := if s[0] == '-' then -magnitude else magnitude;
      if FitsInt64(value) then Some(value) else None
  }

  function DigitOf(d: nat): char
    requires d < 10
  {
    ('0' as int + d) as char
  }

  function Decimal(n: nat): string {
    if n < 10 then [DigitOf(n)] else Decimal(n / 10) + [DigitOf(n % 10)]
  }

  /** The text `%d` prints. */
  function Itoa(n: int): string {
    if n < 0 then "-" + Decimal(-n) else Decimal(n)
  }

  lemma {:induction false} DecimalReadsBack(n: nat)
    ensures Decimal(n) != "" && AllDigits(Decimal(n)) && DecimalValue(Decimal(n)) == n
  {
    if n < 10 {
      assert Decimal(n)[..0] == "";
    } else {
      DecimalReadsBack(n / 10);
      var s := Decimal(n);
      assert s[..|s| - 1] == Decimal(n / 10);
    }
  }

  /** Digits alone, or digits behind a sign. */
  lemma AtoiShape(digits: string)
    requires digits != "" && AllDigits(digits)
    ensures Atoi(digits) == if FitsInt64(DecimalValue(digits)) then Some(DecimalValue(digits)) else None
    ensures Atoi("-" + digits)
            == if FitsInt64(-(DecimalValue(digits) as int)) then Some(-(DecimalValue(digits) as int)) else None
  {
    assert IsDigit(digits[0]);
    assert ("-" + digits)[1..] == digits;
  }

  /** Printing a number and parsing the text gives the number back. */
  lemma AtoiReadsItoa(n: int)
    ensures Atoi(Itoa(n)) == if FitsInt64(n) then Some(n) else None
  {
    var size: nat := if n < 0 then -n else n;
    DecimalReadsBack(size);
    AtoiShape(Decimal(size));
  }

  // ------------------------------------------------ the two parsers

  /** The number in front of the last character, if there is one. A last character outside ASCII is several
      bytes long in the original, so that the bytes in front of its last one never form a number. */
  function Count(d: string): Option<int>
    requires d != ""
  {
    if d[|d| - 1] >= 128 as char then None else Atoi(d[..|d| - 1])
  }

  /** parseDuration: whole seconds. */
  function ParseDuration(text: string): int {
    var d := TrimSpace(text);
    if d == "" then 0
    else match Count(d)
      case None => 0
      case Some(val) =>
        match d[|d| - 1]
        case 's' => val
        case 'm' => Wrap64(val * 60)
        case 'h' => Wrap64(val * 3600)
        case _ => val
  }

  /** parseStageDuration: nanoseconds. */
  function ParseStageDuration(text: string): int {
    var d := TrimSpace(text);
    if d == "" then 0
    else match Count(d)
      case None => 0
      case Some(val) =>
        match d[|d| - 1]
        case 's' => Wrap64(val * 1_000_000_000)
        case 'm' => Wrap64(val * 60_000_000_000)
        case 'h' => Wrap64(val * 3_600_000_000_000)
        case _ => Wrap64(val * 1_000_000_000)
  }

  /** The text `%ds` prints. */
  function SecondsText(n: int): string {
    Itoa(n) + "s"
  }

  /** On every string whatsoever the two parsers agree, up to the range of a time.Duration ... */
  lemma ParsersAgree(d: string)
    ensures ParseStageDuration(d) == Wrap64(ParseDuration(d) * 1_000_000_000)
  {
    var t := TrimSpace(d);
    if t != "" && Count(t).Some? {
      var val := Count(t).value;
      WrapInside(val * 60, 1_000_000_000);
      WrapInside(val * 3600, 1_000_000_000);
    }
  }

  /** ... and exactly when the length in nanoseconds fits one (just over 292 years). */
  lemma ParsersAgreeIff(d: string)
    ensures ParseStageDuration(d) == ParseDuration(d) * 1_000_000_000 <==> FitsInt64(ParseDuration(d) * 1_000_000_000)
  {
    ParsersAgree(d);
    WrapExactIff(ParseDuration(d) * 1_000_000_000);
  }

  lemma DecimalHasNoSpace(n: nat)
    ensures forall i :: 0 <= i < |Decimal(n)| ==> !IsSpace(Decimal(n)[i])
  {
    DecimalReadsBack(n);
  }

  /** What the generators print as a duration is read back as the same number of seconds. */
  lemma SecondsTextReadsBack(n: int)
    requires FitsInt64(n)
    ensures ParseDuration(SecondsText(n)) == n
  {
    var s := SecondsText(n);
    AtoiReadsItoa(n);
    DecimalHasNoSpace(if n < 0 then -n else n);
    DecimalReadsBack(if n < 0 then -n else n);
    assert !IsSpace(s[0]) && !IsSpace(s[|s| - 1]);
    assert TrimSpace(s) == s;
    assert s[..|s| - 1] == Itoa(n);
  }

  /** What one unit letter is worth in seconds; any other letter stands for seconds too. */
  function UnitSeconds(unit: char): int {
    if unit == 'h' then 3600 else if unit == 'm' then 60 else 1
  }

  /** A printed number behind which a unit letter stands reads as that many units. */
  lemma UnitsRead(n: int, unit: char)
    requires FitsInt64(n) && FitsInt64(n * UnitSeconds(unit)) && !IsSpace(unit) && unit < 128 as char
    ensures ParseDuration(Itoa(n) + [unit]) == n * UnitSeconds(unit)
  {
    var s := Itoa(n) + [unit];
    AtoiReadsItoa(n);
    DecimalHasNoSpace(if n < 0 then -n else n);
    DecimalReadsBack(if n < 0 then -n else n);
    assert !IsSpace(s[0]) && !IsSpace(s[|s| - 1]);
    TrimmedIsFixed(s);
    assert s[..|s| - 1] == Itoa(n);
    WrapExactIff(n * UnitSeconds(unit));
  }

  /** White space around a duration does not matter, and what has no number in front of its last letter is nothing. */
  lemma NothingElseReads(text: string)
    ensures ParseDuration(text) == ParseDuration(TrimSpace(text))
    ensures var d := TrimSpace(text);
            d == "" || Atoi(d[..|d| - 1]) == None || d[|d| - 1] >= 128 as char ==> ParseDuration(text) == 0
  {
    var a, b := TrimSpaceShape(text);
    TrimmedIsFixed(TrimSpace(text));
  }
}
