/** Results, decimal numerals and the code-unit order on strings. */
module Text {
  datatype Option<+T> = None | Some(value: T)
  datatype Result<+T> = Ok(value: T) | Err(error: string)

  predicate IsDigit(c: char) { '0' <= c <= '9' }

  predicate IsHex(c: char) {
    IsDigit(c) || 'a' <= c <= 'f'
  }

  lemma HexExactly(s: string)
    ensures AllOf(s, IsHex) <==> forall i :: 0 <= i < |s| ==> s[i] in "0123456789abcdef"
  {
    forall c: char ensures IsHex(c) <==> c in "0123456789abcdef" { HexDigit(c); }
  }

  lemma HexDigit(c: char)
    ensures IsHex(c) <==> c in "0123456789abcdef"
  {
    var digits := "0123456789abcdef";
    if '0' <= c <= '9' { assert digits[c as int - '0' as int] == c; }
    if 'a' <= c <= 'f' { assert digits[10 + c as int - 'a' as int] == c; }
  }

  predicate AllOf(s: string, p: char -> bool) {
    forall i :: 0 <= i < |s| ==> p(s[i])
  }

  /** `parts.join(sep)`. */
  function Join(parts: seq<string>, sep: char): string {
    if parts == [] then "" else if |parts| == 1 then parts[0] else parts[0] + [sep] + Join(parts[1..], sep)
  }

  predicate AllDigits(s: string) { forall i :: 0 <= i < |s| ==> IsDigit(s[i]) }

  function DigitChar(d: nat): (c: char)
    requires d < 10
    ensures IsDigit(c) && DigitValue(c) == d
  {
    '0' + d as char
  }

  lemma DigitOrder(d: nat, e: nat)
    requires d < 10 && e < 10
    ensures DigitChar(d) < DigitChar(e) <==> d < e
    ensures DigitChar(d) == DigitChar(e) <==> d == e
  {
  }

  function DigitValue(c: char): (d: nat)
    requires IsDigit(c)
    ensures d < 10
  {
    c as int - '0' as int
  }

  /** `String(n)` for a non-negative integer. */
  function Decimal(n: nat): (s: string)
    ensures |s| > 0 && AllDigits(s)
  {
    if n < 10 then [DigitChar(n)] else Decimal(n / 10) + [DigitChar(n % 10)]
  }

  /** `String(n)` for any integer. */
  function IntString(n: int): string {
    if n < 0 then "-" + Decimal(-n) else Decimal(n)
  }

  /** `parseInt(s, 10)` on a string of digits. */
  function ParseDecimal(s: string): nat
    requires AllDigits(s)
  {
    if s == "" then 0 else 10 * ParseDecimal(s[..|s| - 1]) + DigitValue(s[|s| - 1])
  }

  lemma {:induction false} ParseDecimalInverts(n: nat)
    ensures ParseDecimal(Decimal(n)) == n
  {
    if n < 10 {
      assert [DigitChar(n)][..0] == "";
    } else {
      ParseDecimalInverts(n / 10);
      assert (Decimal(n / 10) + [DigitChar(n % 10)])[..|Decimal(n)| - 1] == Decimal(n / 10);
    }
  }

  lemma ParseTwoDigits(tens: char, units: char)
    requires IsDigit(tens) && IsDigit(units)
    ensures ParseDecimal([tens, units]) == 10 * DigitValue(tens) + DigitValue(units)
  {
    assert [tens, units][..1] == [tens];
    assert [tens][..0] == "";
    assert ParseDecimal([tens]) == DigitValue(tens);
  }

  /** `a < b` on strings: JavaScript and SQLite compare ASCII text by code unit. */
  ghost predicate LexLess(a: string, b: string) {
    exists k: nat :: FirstDifference(a, b, k)
  }

  ghost predicate FirstDifference(a: string, b: string, k: nat) {
    && k <= |a| && k < |b|
    && a[..k] == b[..k]
    && (k == |a| || a[k] < b[k])
  }

  lemma LexLessAsymmetric(a: string, b: string)
    requires LexLess(a, b)
    ensures !LexLess(b, a) && a != b
  {
    var k: nat :| FirstDifference(a, b, k);
    if j: nat :| FirstDifference(b, a, j) {
      assert false;
    }
  }

  /** The comparison itself. */
  predicate Less(a: string, b: string) {
    b != "" && (a == "" || a[0] < b[0] || (a[0] == b[0] && Less(a[1..], b[1..])))
  }

  lemma {:induction false} LessIsLexLess(a: string, b: string)
    ensures Less(a, b) <==> LexLess(a, b)
  {
    if a == "" || b == "" || a[0] != b[0] {
      if Less(a, b) { assert FirstDifference(a, b, 0); }
      forall k: nat | FirstDifference(a, b, k) ensures Less(a, b) {
        assert k == 0;
      }
    } else {
      LessIsLexLess(a[1..], b[1..]);
      if k: nat :| FirstDifference(a[1..], b[1..], k) {
        assert a[..k + 1] == [a[0]] + a[1..][..k] && b[..k + 1] == [b[0]] + b[1..][..k];
        assert FirstDifference(a, b, k + 1);
      }
      if k: nat :| FirstDifference(a, b, k) {
        assert a[1..][..k - 1] == a[..k][1..] && b[1..][..k - 1] == b[..k][1..];
        assert FirstDifference(a[1..], b[1..], k - 1);
      }
    }
  }

  lemma {:induction false} LessTotal(a: string, b: string)
    ensures Less(a, b) || Less(b, a) || a == b
    ensures !(Less(a, b) && Less(b, a))
    ensures Less(a, b) ==> a != b
  {
    if a != "" && b != "" && a[0] == b[0] {
      LessTotal(a[1..], b[1..]);
      assert a == [a[0]] + a[1..] && b == [b[0]] + b[1..];
    }
  }

  lemma {:induction false} LessTransitive(a: string, b: string, c: string)
    requires Less(a, b) && Less(b, c)
    ensures Less(a, c)
  {
    if a != "" && a[0] == b[0] == c[0] { LessTransitive(a[1..], b[1..], c[1..]); }
  }

  lemma IntStringInjective(a: int, b: int)
    requires IntString(a) == IntString(b)
    ensures a == b
  {
    assert IntString(a)[0] == '-' <==> a < 0;
    assert IntString(b)[0] == '-' <==> b < 0;
    if a < 0 {
      assert IntString(a)[1..] == Decimal(-a) && IntString(b)[1..] == Decimal(-b);
      ParseDecimalInverts(-a);
      ParseDecimalInverts(-b);
    } else {
      ParseDecimalInverts(a);
      ParseDecimalInverts(b);
    }
  }
}
