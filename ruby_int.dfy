/**
 * Ruby's `String#to_i` (base 10) and `nil.to_i`, which the repair script
 * applies to the id column of its input CSV: leading white space is skipped,
 * an optional sign is read, then an optional `0d` or `0D` prefix, then the
 * longest run of digits, in which a single underscore may stand between two
 * digits; any other character ends the number, and no digits at all read as 0.
 */
module RubyInt {
  import opened Wrappers

  predicate IsDigit(c: char)
  {
    '0' <= c <= '9'
  }

  function DigitValue(c: char): nat
    requires IsDigit(c)
  {
    c as int - '0' as int
  }

  /** Ruby's ISSPACE: space, tab, line feed, vertical tab, form feed, carriage return. */
  predicate IsSpace(c: char)
  {
    c == ' ' || c == '\t' || c == '\n' || c as int == 11 || c as int == 12 || c == '\r'
  }

  function SkipSpace(s: string): string
  {
    if |s| > 0 && IsSpace(s[0]) then SkipSpace(s[1..]) else s
  }

  /** Continues reading a digit run onto the value `acc`. */
  function Scan(s: string, acc: nat): nat
  {
    if |s| > 0 && IsDigit(s[0]) then Scan(s[1..], acc * 10 + DigitValue(s[0]))
    else if |s| > 1 && s[0] == '_' && IsDigit(s[1]) then Scan(s[1..], acc)
    else acc
  }

  /** The unsigned number at the start of `s`; 0 unless `s` starts with a digit. */
  function Magnitude(s: string): nat
  {
    if |s| > 0 && IsDigit(s[0]) then Scan(s, 0) else 0
  }

  /** The unsigned number after the sign, past a decimal `0d`/`0D` prefix when there is one. */
  function Unsigned(s: string): nat
  {
    if |s| >= 2 && s[0] == '0' && (s[1] == 'd' || s[1] == 'D') then Magnitude(s[2..]) else Magnitude(s)
  }

  /** `s.to_i`. */
  function ToI(s: string): int
  {
    var t := SkipSpace(s);
    if |t| > 0 && t[0] == '-' then 0 - Unsigned(t[1..]) as int
    else if |t| > 0 && t[0] == '+' then Unsigned(t[1..])
    else Unsigned(t)
  }

  /** `field.to_i` for a CSV field, where `nil.to_i` is 0. */
  function FieldToI(f: Option<string>): int
  {
    match f
    case None => 0
    case Some(s) => ToI(s)
  }

  /** The canonical decimal text of a natural number. */
  function Digits(n: nat): (s: string)
    ensures |s| > 0 && forall i :: 0 <= i < |s| ==> IsDigit(s[i])
  {
    var c := ('0' as int + n % 10) as char;
    if n < 10 then [c] else Digits(n / 10) + [c]
  }

  /** The canonical decimal text of an integer, as `Integer#to_s` writes it. */
  function Decimal(n: int): string
  {
    if n < 0 then "-" + Digits(-n) else Digits(n)
  }

  /** The value of an all-digit string read onto `acc`. */
  function Fold(s: string, acc: nat): nat
    requires forall i :: 0 <= i < |s| ==> IsDigit(s[i])
  {
    if s == [] then acc else Fold(s[1..], acc * 10 + DigitValue(s[0]))
  }

  lemma {:induction false} FoldSnoc(s: string, c: char, acc: nat)
    requires forall i :: 0 <= i < |s| ==> IsDigit(s[i])
    requires IsDigit(c)
    ensures Fold(s + [c], acc) == Fold(s, acc) * 10 + DigitValue(c)
  {
    if s != [] {
      assert (s + [c])[1..] == s[1..] + [c];
      FoldSnoc(s[1..], c, acc * 10 + DigitValue(s[0]));
    }
  }

  lemma {:induction false} ScanAllDigits(s: string, acc: nat)
    requires forall i :: 0 <= i < |s| ==> IsDigit(s[i])
    ensures Scan(s, acc) == Fold(s, acc)
  {
    if s != [] {
      ScanAllDigits(s[1..], acc * 10 + DigitValue(s[0]));
    }
  }

  lemma {:induction false} FoldDigits(n: nat)
    ensures Fold(Digits(n), 0) == n
  {
    var c := ('0' as int + n % 10) as char;
    if n >= 10 {
      FoldDigits(n / 10);
      FoldSnoc(Digits(n / 10), c, 0);
    }
  }

  /** `to_i` reads the prefixed decimal text `0d<digits>`, `0D<digits>` and their negations. */
  lemma ToIPrefixed(n: nat)
    ensures ToI("0d" + Digits(n)) == n && ToI("0D" + Digits(n)) == n
    ensures ToI("-0d" + Digits(n)) == -(n as int) && ToI("-0D" + Digits(n)) == -(n as int)
  {
    FoldDigits(n);
    ScanAllDigits(Digits(n), 0);
    var t := Digits(n);
    assert ("0d" + t)[2..] == t && ("0D" + t)[2..] == t;
    assert SkipSpace("0d" + t) == "0d" + t && SkipSpace("0D" + t) == "0D" + t;
    assert ("-0d" + t)[1..] == "0d" + t && ("-0D" + t)[1..] == "0D" + t;
    assert SkipSpace("-0d" + t) == "-0d" + t && SkipSpace("-0D" + t) == "-0D" + t;
  }

  /** `to_i` reads back the decimal text of every integer. */
  lemma ToIDecimal(n: int)
    ensures ToI(Decimal(n)) == n
  {
    var m := if n < 0 then -n else n;
    FoldDigits(m);
    ScanAllDigits(Digits(m), 0);
    if n < 0 {
      var t := Decimal(n);
      assert t[0] == '-' && t[1..] == Digits(m);
      assert SkipSpace(t) == t;
    } else {
      assert SkipSpace(Digits(m)) == Digits(m);
    }
  }
}
