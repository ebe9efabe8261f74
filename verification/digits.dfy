/**
 * Decimal text of integers: Python's `str(n)`, the `:02d` format, `int(text)`
 * and `str.split(sep)`, restricted to what the prayer-time code feeds them.
 */
module Digits {
  import opened Wrappers

  predicate IsDigit(c: char) {
    '0' <= c <= '9'
  }

  function DigitValue(c: char): (d: nat)
    requires IsDigit(c)
    ensures d < 10
  {
    c as int - '0' as int
  }

  function DigitChar(d: nat): (c: char)
    requires d < 10
    ensures IsDigit(c) && DigitValue(c) == d
  {
    ('0' as int + d) as char
  }

  predicate AllDigits(s: string) {
    forall i :: 0 <= i < |s| ==> IsDigit(s[i])
  }

  /** The number a string of decimal digits denotes (leading zeros allowed). */
  function DigitsValue(s: string): nat
    requires AllDigits(s)
    decreases |s|
  {
    if |s| == 0 then 0 else DigitsValue(s[..|s| - 1]) * 10 + DigitValue(s[|s| - 1])
  }

  /** Python's `str(n)` (equivalently `f"{n}"`) for a non-negative int. */
  function Decimal(n: nat): (s: string)
    ensures 1 <= |s| && AllDigits(s)
    ensures DigitsValue(s) == n
    ensures |s| == 1 <==> n < 10
    ensures s[0] != '0' || n == 0
    decreases n
  {
    if n < 10 then [DigitChar(n)]
    else
      var prefix := Decimal(n / 10);
      var s := prefix + [DigitChar(n % 10)];
      assert s[..|s| - 1] == prefix;
      s
  }

  /** Python's `f"{n:02d}"` for a non-negative int: at least two digits, zero-filled. */
  function ZeroPad2(n: nat): (s: string)
    ensures 2 <= |s| && AllDigits(s)
    ensures DigitsValue(s) == n
    ensures n < 100 ==> |s| == 2
  {
    if n < 10 then
      var s := ['0', DigitChar(n)];
      assert s[..1] == ['0'];
      assert DigitsValue(s[..1]) == 0;
      s
    else Decimal(n)
  }

  /** `str(n)` below 100: one digit, or the tens digit and then the units digit. */
  lemma DecimalBelow100(n: nat)
    requires n < 100
    ensures n < 10 ==> Decimal(n) == [DigitChar(n)]
    ensures 10 <= n ==> Decimal(n) == [DigitChar(n / 10), DigitChar(n % 10)]
  {
  }

  /** Appending a digit to a positive number appends it to the number's `str`. */
  lemma DecimalAppend(q: nat, d: nat)
    requires q >= 1 && d < 10
    ensures Decimal(q * 10 + d) == Decimal(q) + [DigitChar(d)]
  {
    var v := q * 10 + d;
    assert v / 10 == q && v % 10 == d;
  }

  /** A digit string with no leading zero is the `str` of its value. */
  lemma {:induction false} DecimalOfDigits(s: string)
    requires |s| > 0 && AllDigits(s) && s[0] != '0'
    ensures Decimal(DigitsValue(s)) == s
    decreases |s|
  {
    if |s| > 1 {
      var p, last := s[..|s| - 1], s[|s| - 1];
      var q, d := DigitsValue(p), DigitValue(last);
      assert DigitsValue(s) == q * 10 + d;
      DecimalOfDigits(p);
      DecimalAppend(q, d);
      assert DigitChar(d) == last;
      assert s == p + [last];
    } else {
      assert DigitChar(DigitValue(s[0])) == s[0];
    }
  }

  /** `:02d` below 100: the tens digit and then the units digit. */
  lemma ZeroPad2Below100(n: nat)
    requires n < 100
    ensures ZeroPad2(n) == [DigitChar(n / 10), DigitChar(n % 10)]
  {
    DecimalBelow100(n);
  }

  /** Every two-digit text is the `:02d` of the number it reads as. */
  lemma TwoDigitText(s: string)
    requires |s| == 2 && AllDigits(s)
    ensures DigitsValue(s) < 100 && s == ZeroPad2(DigitsValue(s))
  {
    var v := DigitsValue(s);
    assert s[..1][..0] == [];
    assert DigitsValue(s[..1]) == DigitValue(s[0]);
    assert v == DigitValue(s[0]) * 10 + DigitValue(s[1]);
    ZeroPad2Below100(v);
    assert DigitChar(DigitValue(s[0])) == s[0];
    assert DigitChar(DigitValue(s[1])) == s[1];
  }

  /** An optional `+` or `-` followed by at least one ASCII digit. */
  predicate IntLiteral(text: string) {
    || (|text| > 0 && AllDigits(text))
    || (|text| > 1 && (text[0] == '+' || text[0] == '-') && AllDigits(text[1..]))
  }

  /**
   * Python's `int(text)` for a literal made of an optional `+`/`-` sign and
   * ASCII digits; every other text is rejected (None stands for ValueError).
   */
  function ParseInt(text: string): (r: Option<int>)
    ensures r.Some? <==> IntLiteral(text)
    ensures r.Some? && r.value < 0 ==> text[0] == '-'
  {
    if |text| > 0 && (text[0] == '+' || text[0] == '-') then
      var body := text[1..];
      if |body| > 0 && AllDigits(body) then
        Some(if text[0] == '-' then -(DigitsValue(body) as int) else DigitsValue(body))
      else None
    else if |text| > 0 && AllDigits(text) then Some(DigitsValue(text))
    else None
  }

  /** `int` reads back what `str` and `:02d` write, and a minus sign negates it. */
  lemma ParseIntDecimal(n: nat)
    ensures ParseInt(Decimal(n)) == Some(n)
    ensures ParseInt(ZeroPad2(n)) == Some(n)
    ensures ParseInt("-" + Decimal(n)) == Some(-(n as int))
    ensures ParseInt("+" + Decimal(n)) == Some(n)
  {
    assert ("-" + Decimal(n))[1..] == Decimal(n);
    assert ("+" + Decimal(n))[1..] == Decimal(n);
  }

  /** The inverse of `Split`: the parts glued back together with the separator. */
  function Join(parts: seq<string>, sep: char): string
    requires |parts| >= 1
    decreases |parts|
  {
    if |parts| == 1 then parts[0] else parts[0] + [sep] + Join(parts[1..], sep)
  }

  predicate SeparatorFree(parts: seq<string>, sep: char) {
    forall i :: 0 <= i < |parts| ==> sep !in parts[i]
  }

  /** Number of occurrences of `c` in `s`. */
  function Count(s: string, c: char): nat
    decreases |s|
  {
    if |s| == 0 then 0 else (if s[0] == c then 1 else 0) + Count(s[1..], c)
  }

  /**
   * Python's `s.split(sep)` for a one-character separator: the pieces between
   * separators, empty pieces included, so there is always at least one.
   */
  function Split(s: string, sep: char): (parts: seq<string>)
    ensures |parts| == Count(s, sep) + 1
    ensures SeparatorFree(parts, sep)
    ensures Join(parts, sep) == s
    decreases |s|
  {
    if |s| == 0 then [""]
    else
      var rest := Split(s[1..], sep);
      if s[0] == sep then
        var parts := [""] + rest;
        assert parts[1..] == rest;
        assert s == [sep] + s[1..];
        parts
      else
        var parts := [[s[0]] + rest[0]] + rest[1..];
        assert parts[1..] == rest[1..];
        assert forall i :: 1 <= i < |parts| ==> parts[i] == rest[i];
        assert s == [s[0]] + s[1..];
        if |rest| == 1 then parts
        else
          assert Join(rest, sep) == rest[0] + [sep] + Join(rest[1..], sep);
          parts
  }

  lemma {:induction false} SplitSeparatorFree(x: string, sep: char)
    requires sep !in x
    ensures Split(x, sep) == [x]
    decreases |x|
  {
    if |x| > 0 {
      SplitSeparatorFree(x[1..], sep);
      assert [x[0]] + x[1..] == x;
    }
  }

  lemma {:induction false} SplitFirstPiece(x: string, sep: char, y: string)
    requires sep !in x
    ensures Split(x + [sep] + y, sep) == [x] + Split(y, sep)
    decreases |x|
  {
    var s := x + [sep] + y;
    if |x| == 0 {
      assert s[1..] == y;
    } else {
      assert s[1..] == x[1..] + [sep] + y;
      SplitFirstPiece(x[1..], sep, y);
      assert [x[0]] + x[1..] == x;
    }
  }

  /** Splitting a join of separator-free pieces gives the pieces back. */
  lemma {:induction false} SplitJoin(parts: seq<string>, sep: char)
    requires |parts| >= 1 && SeparatorFree(parts, sep)
    ensures Split(Join(parts, sep), sep) == parts
    decreases |parts|
  {
    if |parts| == 1 {
      SplitSeparatorFree(parts[0], sep);
    } else {
      assert sep !in parts[0];
      SplitFirstPiece(parts[0], sep, Join(parts[1..], sep));
      SplitJoin(parts[1..], sep);
      assert [parts[0]] + parts[1..] == parts;
    }
  }

  lemma DigitsHaveNoColon(s: string)
    requires AllDigits(s)
    ensures ':' !in s
  {
  }
}
