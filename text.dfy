/**
 * The few pieces of JavaScript string behaviour the app's time handling relies on:
 * `String.prototype.split` with a one-character separator, `Number`/`parseInt`
 * applied to a string of decimal digits, `String(n)` for a non-negative integer,
 * `padStart(2, '0')`, and the "HH:MM" wall-clock strings built from them.
 */
module Text {

  /** The index of the first `c` in `s`, or `|s|` when there is none. */
  function IndexOf(s: string, c: char): (i: nat)
    ensures i <= |s|
    ensures i < |s| ==> s[i] == c
  {
    if |s| == 0 then 0
    else if s[0] == c then 0
    else 1 + IndexOf(s[1..], c)
  }

  /** No `c` precedes the index `IndexOf` finds: it is the first one. */
  lemma {:induction false} IndexOfFirst(s: string, c: char)
    ensures forall k :: 0 <= k < IndexOf(s, c) ==> s[k] != c
  {
    if |s| > 0 && s[0] != c {
      IndexOfFirst(s[1..], c);
    }
  }

  /** `s.split(sep)`: the maximal pieces between occurrences of `sep`, always at least one. */
  function Split(s: string, sep: char): (parts: seq<string>)
    ensures |parts| >= 1
    ensures sep !in s ==> parts == [s]
    decreases |s|
  {
    var i := IndexOf(s, sep);
    if i == |s| then [s] else [s[..i]] + Split(s[i + 1..], sep)
  }

  /** Splitting at the first separator: what precedes it is the first piece. */
  lemma SplitAtFirst(a: string, sep: char, b: string)
    requires sep !in a
    ensures Split(a + [sep] + b, sep) == [a] + Split(b, sep)
  {
    var s := a + [sep] + b;
    var i := IndexOf(s, sep);
    IndexOfFirst(s, sep);
    assert s[|a|] == sep;
    assert forall k :: 0 <= k < |a| ==> s[k] == a[k];
    assert i == |a|;
    assert s[..i] == a;
    assert s[i + 1..] == b;
  }

  predicate IsDigit(c: char) {
    '0' <= c <= '9'
  }

  predicate AllDigits(s: string) {
    forall k :: 0 <= k < |s| ==> IsDigit(s[k])
  }

  function DigitValue(c: char): nat
    requires IsDigit(c)
  {
    c as int - '0' as int
  }

  function DigitChar(d: nat): (c: char)
    requires d < 10
    ensures IsDigit(c) && DigitValue(c) == d
  {
    ('0' as int + d) as char
  }

  function Pow10(k: nat): (p: nat)
    ensures p >= 1
  {
    if k == 0 then 1 else 10 * Pow10(k - 1)
  }

  /**
   * `Number(s)` (equally `parseInt(s, 10)` when `s` is not empty) for a string of
   * decimal digits; leading zeros are allowed and the empty string gives 0, as
   * `Number("")` does.
   */
  function ParseDecimal(s: string): (n: nat)
    requires AllDigits(s)
    ensures n < Pow10(|s|)
  {
    if s == [] then 0 else 10 * ParseDecimal(s[..|s| - 1]) + DigitValue(s[|s| - 1])
  }

  /** `String(n)`: the decimal digits of `n` with no leading zero. */
  function NatToString(n: nat): (s: string)
    ensures 1 <= |s| && AllDigits(s)
    ensures |s| == 1 <==> n < 10
    ensures n < 100 ==> |s| <= 2
    ensures |s| > 1 ==> s[0] != '0'
  {
    if n < 10 then [DigitChar(n)] else NatToString(n / 10) + [DigitChar(n % 10)]
  }

  /** Reading back what `String(n)` wrote gives `n`. */
  lemma {:induction false} ParseNatToString(n: nat)
    ensures ParseDecimal(NatToString(n)) == n
  {
    var s := NatToString(n);
    if n >= 10 {
      ParseNatToString(n / 10);
      assert s[..|s| - 1] == NatToString(n / 10);
    } else {
      assert s[..|s| - 1] == [];
    }
  }

  /** `String(n).padStart(2, '0')`. */
  function Pad2(n: nat): (s: string)
    ensures |s| >= 2 && AllDigits(s)
    ensures n < 100 ==> |s| == 2
  {
    var d := NatToString(n);
    if |d| < 2 then "0" + d else d
  }

  /** Padding never changes the number a string stands for. */
  lemma ParsePad2(n: nat)
    ensures ParseDecimal(Pad2(n)) == n
  {
    ParseNatToString(n);
    var d := NatToString(n);
    if |d| < 2 {
      var s := "0" + d;
      assert s[..|s| - 1] == "0";
      assert ParseDecimal("0") == 0 by {
        assert "0"[..0] == [];
      }
    }
  }

  /** A string `hours:minutes` whose first two `:`-pieces are digit strings: what `Number` reads without NaN. */
  predicate IsNumericTime(s: string) {
    var p := Split(s, ':');
    |p| >= 2 && AllDigits(p[0]) && AllDigits(p[1])
  }

  function HoursOf(s: string): nat
    requires IsNumericTime(s)
  {
    ParseDecimal(Split(s, ':')[0])
  }

  function MinutesOf(s: string): nat
    requires IsNumericTime(s)
  {
    ParseDecimal(Split(s, ':')[1])
  }

  /** A wall-clock time of day: non-empty digit pieces, hours 0..23, minutes 0..59. */
  predicate IsClockTime(s: string) {
    && IsNumericTime(s)
    && |Split(s, ':')[0]| >= 1 && |Split(s, ':')[1]| >= 1
    && HoursOf(s) <= 23 && MinutesOf(s) <= 59
  }

  /** The zero-padded "HH:MM" spelling of a time of day; it reads back as the hour and minute it was built from. */
  function Clock(h: nat, m: nat): (s: string)
    ensures Split(s, ':') == [Pad2(h), Pad2(m)]
    ensures IsNumericTime(s) && HoursOf(s) == h && MinutesOf(s) == m
  {
    ClockSplit(h, m);
    Pad2(h) + ":" + Pad2(m)
  }

  /** Padded hour and minute fields joined by ':' split back apart and read as the numbers they were made from. */
  lemma ClockSplit(h: nat, m: nat)
    ensures var s := Pad2(h) + ":" + Pad2(m);
      Split(s, ':') == [Pad2(h), Pad2(m)] && IsNumericTime(s) && ParseDecimal(Pad2(h)) == h && ParseDecimal(Pad2(m)) == m
  {
    DigitsHaveNoSeparator(Pad2(h), ':');
    DigitsHaveNoSeparator(Pad2(m), ':');
    SplitAtFirst(Pad2(h), ':', Pad2(m));
    assert Split(Pad2(m), ':') == [Pad2(m)];
    ParsePad2(h);
    ParsePad2(m);
  }

  /** Every hour 0..23 and minute 0..59 has a five-character "HH:MM" that is a valid clock time. */
  lemma ClockFields(h: nat, m: nat)
    requires h <= 23 && m <= 59
    ensures IsClockTime(Clock(h, m)) && HoursOf(Clock(h, m)) == h && MinutesOf(Clock(h, m)) == m
    ensures |Clock(h, m)| == 5
  {
  }

  /** A digit string contains no separator character. */
  lemma DigitsHaveNoSeparator(s: string, sep: char)
    requires AllDigits(s) && !IsDigit(sep)
    ensures sep !in s
  {
    assert forall k :: 0 <= k < |s| ==> s[k] != sep;
  }
}
