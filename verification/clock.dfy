/**
 * Times of day as the time-entry table stores them: zero-padded "HH:MM"
 * text, turned into minutes since midnight. Ruby's Time.parse accepts these
 * strings (and many other forms); any other text is treated here as
 * unparsable.
 */
module Clock {
  import opened Wrappers
  import opened Text

  const MinutesPerDay := 24 * 60

  predicate IsDigit(c: char)
  {
    '0' <= c <= '9'
  }

  function DigitValue(c: char): (d: int)
    requires IsDigit(c)
  {
    c as int - '0' as int
  }

  function DigitChar(d: int): (c: char)
    requires 0 <= d < 10
  {
    ('0' as int + d) as char
  }

  /** The text an "HH:MM" time of `m` minutes after midnight is written as. */
  function Format(m: int): (s: string)
    requires 0 <= m < MinutesPerDay
  {
    var h, mm := m / 60, m % 60;
    [DigitChar(h / 10), DigitChar(h % 10), ':', DigitChar(mm / 10), DigitChar(mm % 10)]
  }

  /**
   * Minutes since midnight written by a well-formed "HH:MM" (hours 00-23,
   * minutes 00-59), None for any other text. The only text that parses to a
   * given minute is its own formatting.
   */
  function ParseHHMM(s: string): (r: Option<int>)
    ensures r.Some? ==> 0 <= r.value < MinutesPerDay && s == Format(r.value)
  {
    if |s| == 5 && IsDigit(s[0]) && IsDigit(s[1]) && s[2] == ':' && IsDigit(s[3]) && IsDigit(s[4]) then
      var h := 10 * DigitValue(s[0]) + DigitValue(s[1]);
      var m := 10 * DigitValue(s[3]) + DigitValue(s[4]);
      if h < 24 && m < 60 then
        FormatOfDigits(s);
        Some(60 * h + m)
      else None
    else
      None
  }

  lemma DivMod60(q: int, r: int)
    requires 0 <= r < 60
    ensures (60 * q + r) / 60 == q && (60 * q + r) % 60 == r
  {
  }

  lemma DivMod10(q: int, r: int)
    requires 0 <= r < 10
    ensures (10 * q + r) / 10 == q && (10 * q + r) % 10 == r
  {
  }

  /** A well-formed "HH:MM" is the formatting of the minute its digits spell. */
  lemma FormatOfDigits(s: string)
    requires |s| == 5 && IsDigit(s[0]) && IsDigit(s[1]) && s[2] == ':' && IsDigit(s[3]) && IsDigit(s[4])
    requires 10 * DigitValue(s[0]) + DigitValue(s[1]) < 24
    requires 10 * DigitValue(s[3]) + DigitValue(s[4]) < 60
    ensures Format(60 * (10 * DigitValue(s[0]) + DigitValue(s[1])) + 10 * DigitValue(s[3]) + DigitValue(s[4])) == s
  {
    var h := 10 * DigitValue(s[0]) + DigitValue(s[1]);
    var m := 10 * DigitValue(s[3]) + DigitValue(s[4]);
    DivMod60(h, m);
    DivMod10(DigitValue(s[0]), DigitValue(s[1]));
    DivMod10(DigitValue(s[3]), DigitValue(s[4]));
    var f := Format(60 * h + m);
    assert f[0] == s[0] && f[1] == s[1] && f[2] == s[2] && f[3] == s[3] && f[4] == s[4];
  }

  /** Formatting then parsing gives back the minute. */
  lemma ParseFormat(m: int)
    requires 0 <= m < MinutesPerDay
    ensures ParseHHMM(Format(m)) == Some(m)
  {
  }

  /**
   * For well-formed times, SQLite's text order (ORDER BY start_time) is
   * chronological order.
   */
  lemma TextOrderIsChronological(a: string, b: string)
    requires ParseHHMM(a).Some? && ParseHHMM(b).Some?
    ensures LexLe(a, b) <==> ParseHHMM(a).value <= ParseHHMM(b).value
  {
    var ma, mb := ParseHHMM(a).value, ParseHHMM(b).value;
    assert LexLe(a, b) == (a[0] < b[0] || (a[0] == b[0] && LexLe(a[1..], b[1..])));
    assert LexLe(a[1..], b[1..]) == (a[1] < b[1] || (a[1] == b[1] && LexLe(a[2..], b[2..])));
    assert a[2..][1..] == a[3..] && b[2..][1..] == b[3..];
    assert LexLe(a[2..], b[2..]) == LexLe(a[3..], b[3..]);
    assert LexLe(a[3..], b[3..]) == (a[3] < b[3] || (a[3] == b[3] && LexLe(a[4..], b[4..])));
    assert a[4..][1..] == [] && b[4..][1..] == [];
    assert LexLe(a[4..], b[4..]) == (a[4] <= b[4]);
  }
}
