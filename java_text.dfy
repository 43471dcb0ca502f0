/**
 * The few pieces of java.lang the hotel code leans on: 32-bit `int` with its
 * wrap-around on `++`, `Integer.toString` (string concatenation of an int),
 * `Integer.parseInt`, and `String.split(",")`.
 */
module JavaText {
  import opened Wrappers

  const INT_MIN: int := -0x8000_0000
  const INT_MAX: int := 0x7FFF_FFFF

  /** A Java `int`. */
  newtype int32 = x: int | -0x8000_0000 <= x < 0x8000_0000

  /** `x + 1` on a Java int: two's-complement addition modulo 2^32. */
  function Increment(x: int32): (r: int32)
    ensures r as int == (x as int + 1 - INT_MIN) % 0x1_0000_0000 + INT_MIN
    ensures x as int < INT_MAX ==> r as int == x as int + 1
  {
    if x as int == INT_MAX then INT_MIN as int32 else x + 1
  }

  predicate IsDigit(c: char) {
    '0' <= c <= '9'
  }

  predicate AllDigits(s: string) {
    forall i :: 0 <= i < |s| ==> IsDigit(s[i])
  }

  function DigitChar(d: nat): (c: char)
    requires d < 10
    ensures IsDigit(c)
  {
    ('0' as int + d) as char
  }

  function DigitValue(c: char): (d: nat)
    requires IsDigit(c)
    ensures d < 10 && DigitChar(d) == c
  {
    c as int - '0' as int
  }

  /** Decimal digits of `n`, most significant first, no leading zeros. */
  function Digits(n: nat): (s: string)
    ensures |s| >= 1
    ensures AllDigits(s)
  {
    if n < 10 then [DigitChar(n)] else Digits(n / 10) + [DigitChar(n % 10)]
  }

  /** The value of a string of decimal digits. */
  function DigitsValue(s: string): nat
    requires AllDigits(s)
  {
    if |s| == 0 then 0 else DigitsValue(s[..|s| - 1]) * 10 + DigitValue(s[|s| - 1])
  }

  lemma {:induction false} DigitsValueOfDigits(n: nat)
    ensures DigitsValue(Digits(n)) == n
  {
    if n >= 10 {
      var s := Digits(n);
      assert s[..|s| - 1] == Digits(n / 10);
      DigitsValueOfDigits(n / 10);
    }
  }

  /** `Integer.toString(x)`, which is what `x + ","` produces: a minus sign, then the digits. */
  function ShowInt(x: int): (s: string)
    ensures |s| >= 1 && s[0] != '+'
    ensures x >= 0 ==> AllDigits(s)
    ensures ',' !in s
  {
    if x < 0 then "-" + Digits(-x) else Digits(x)
  }

  /**
   * `Integer.parseInt(s)`: an optional sign, at least one digit, and a value
   * that fits an int; None where Java throws NumberFormatException.
   */
  function ParseInt(s: string): (r: Option<int32>)
    ensures r.Some? ==> |s| >= 1
  {
    if |s| == 0 then None
    else
      var body := if s[0] == '-' || s[0] == '+' then s[1..] else s;
      if |body| == 0 || !AllDigits(body) then None
      else
        var v: int := if s[0] == '-' then 0 - DigitsValue(body) as int else DigitsValue(body) as int;
        if INT_MIN <= v <= INT_MAX then Some(v as int32) else None
  }

  /** Every int read back from its own text is itself. */
  lemma ParseShowInt(x: int32)
    ensures ParseInt(ShowInt(x as int)) == Some(x)
  {
    var s := ShowInt(x as int);
    if x < 0 {
      assert s[0] == '-' && s[1..] == Digits(-(x as int));
      DigitsValueOfDigits(-(x as int));
    } else {
      assert IsDigit(s[0]);
      DigitsValueOfDigits(x as int);
    }
  }

  /** `s.split(sep)` before Java drops trailing empty strings: every field, empty ones included. */
  function Split(s: string, sep: char): (parts: seq<string>)
    ensures |parts| >= 1
    ensures forall k :: 0 <= k < |parts| ==> sep !in parts[k]
  {
    if |s| == 0 then [""]
    else
      var rest := Split(s[1..], sep);
      if s[0] == sep then [""] + rest else [[s[0]] + rest[0]] + rest[1..]
  }

  function DropTrailingEmpty(parts: seq<string>): (r: seq<string>)
    ensures |r| <= |parts| && r == parts[..|r|]
    ensures |r| > 0 ==> r[|r| - 1] != ""
    ensures forall k :: |r| <= k < |parts| ==> parts[k] == ""
  {
    if |parts| > 0 && parts[|parts| - 1] == "" then DropTrailingEmpty(parts[..|parts| - 1]) else parts
  }

  /**
   * `s.split(String.valueOf(sep))` for a separator that is not a regex
   * metacharacter: the whole string when it holds no separator, otherwise the
   * fields with trailing empty fields removed.
   */
  function JavaSplit(s: string, sep: char): (parts: seq<string>)
    ensures sep !in s ==> parts == [s]
    ensures forall k :: 0 <= k < |parts| ==> sep !in parts[k]
    ensures sep in s && |parts| > 0 ==> parts[|parts| - 1] != ""
  {
    if sep !in s then [s] else DropTrailingEmpty(Split(s, sep))
  }

  lemma {:induction false} SplitWithoutSeparator(a: string, sep: char)
    requires sep !in a
    ensures Split(a, sep) == [a]
  {
    if |a| > 0 {
      SplitWithoutSeparator(a[1..], sep);
      assert [a[0]] + a[1..] == a;
    }
  }

  lemma {:induction false} SplitAtSeparator(a: string, sep: char, b: string)
    requires sep !in a
    ensures Split(a + [sep] + b, sep) == [a] + Split(b, sep)
  {
    var s := a + [sep] + b;
    if |a| == 0 {
      assert s[1..] == b;
    } else {
      assert s[1..] == a[1..] + [sep] + b;
      SplitAtSeparator(a[1..], sep, b);
      assert [a[0]] + a[1..] == a;
    }
  }

  /** A line of three comma-free fields, the last one non-empty, splits back into those fields. */
  lemma SplitThreeFields(a: string, b: string, c: string)
    requires ',' !in a && ',' !in b && ',' !in c && c != ""
    ensures JavaSplit(a + "," + b + "," + c, ',') == [a, b, c]
  {
    var s := a + "," + b + "," + c;
    assert s == a + [','] + (b + [','] + c);
    assert s[|a|] == ',';
    SplitAtSeparator(a, ',', b + [','] + c);
    SplitAtSeparator(b, ',', c);
    SplitWithoutSeparator(c, ',');
    assert Split(s, ',') == [a, b, c];
  }
}
