/**
 The text the encoder and the map listing print: `%ld` of a non-negative
 number, and the `"%ld %ld\n"` line that heads each ursparse record.
 */
module Format {
  import opened Tokens

  function DigitChar(d: nat): (c: char)
    requires d < 10
    ensures IsDigit(c) && DigitValue(c) == d
  {
    ('0' as int + d) as char
  }

  /** Decimal digits of `n`: no sign, no leading zero except for 0 itself. */
  function Decimal(n: nat): (s: seq<char>)
    ensures |s| >= 1 && AllDigits(s)
    ensures |s| > 1 ==> s[0] != '0'
    decreases n
  {
    if n < 10 then [DigitChar(n)] else Decimal(n / 10) + [DigitChar(n % 10)]
  }

  /** `"%ld %ld\n"` of an offset and a length: always at least four characters. */
  function Header(start: nat, len: nat): (h: seq<char>)
    ensures |h| >= 4 && h[|h| - 1] == '\n'
  {
    Decimal(start) + [' '] + Decimal(len) + ['\n']
  }

  /** Folding digits in two parts is folding the first part, then the second from there. */
  lemma {:induction false} FoldAppend(acc: nat, a: seq<char>, b: seq<char>)
    requires AllDigits(a) && AllDigits(b)
    ensures AllDigits(a + b)
    ensures Fold(acc, a + b) == Fold(Fold(acc, a), b)
    decreases |a|
  {
    if |a| == 0 {
      assert a + b == b;
    } else {
      assert (a + b)[0] == a[0];
      assert (a + b)[1..] == a[1..] + b;
      FoldAppend(acc * 10 + DigitValue(a[0]), a[1..], b);
    }
  }

  /** Reading back the digits `Decimal` prints gives the number printed. */
  lemma {:induction false} DecimalRoundTrip(n: nat)
    ensures Fold(0, Decimal(n)) == n
    decreases n
  {
    if n >= 10 {
      DecimalRoundTrip(n / 10);
      FoldAppend(0, Decimal(n / 10), [DigitChar(n % 10)]);
      assert [DigitChar(n % 10)][1..] == [];
    }
  }

  /** Different numbers print differently. */
  lemma DecimalInjective(a: nat, b: nat)
    requires Decimal(a) == Decimal(b)
    ensures a == b
  {
    DecimalRoundTrip(a);
    DecimalRoundTrip(b);
  }
}
