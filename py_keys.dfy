/**
 * The keys a caller may hand to PyZip and Python's str() on them. Only the
 * two key types the class is used with are modelled: strings and integers.
 */
module PyKeys {

  datatype Key = StrKey(s: string) | IntKey(n: int)

  /** The decimal digit for 0 <= d < 10. */
  function DigitChar(d: nat): char
    requires d < 10
  {
    "0123456789"[d]
  }

  /** The value of a decimal digit character. */
  function DigitValue(c: char): nat
    requires '0' <= c <= '9'
  {
    (c as int - '0' as int) as nat
  }

  /** The decimal digits of a natural number, without leading zeros. */
  function Digits(n: nat): (r: string)
    ensures |r| >= 1
    ensures forall i :: 0 <= i < |r| ==> '0' <= r[i] <= '9'
    ensures r[0] == '0' ==> n == 0
    decreases n
  {
    if n < 10 then [DigitChar(n)] else Digits(n / 10) + [DigitChar(n % 10)]
  }

  /** Reads a string of decimal digits back as a number: the inverse of Digits. */
  function DigitsValue(s: string): nat
    requires forall i :: 0 <= i < |s| ==> '0' <= s[i] <= '9'
  {
    if s == [] then 0 else 10 * DigitsValue(s[..|s| - 1]) + DigitValue(s[|s| - 1])
  }

  /** Python's str(): a string is itself; an integer is its decimal form with a leading '-' when negative. */
  function Str(k: Key): string {
    match k
    case StrKey(s) => s
    case IntKey(n) => if n < 0 then "-" + Digits(-n) else Digits(n)
  }

  /**
   * Python's `name == key` between a str taken from the archive and the key
   * as the caller gave it: a str never equals an int, whatever its digits.
   */
  predicate Matches(name: string, key: Key) {
    key == StrKey(name)
  }

  /** Digits is undone by DigitsValue. */
  lemma {:induction false} DigitsRoundTrip(n: nat)
    ensures DigitsValue(Digits(n)) == n
    decreases n
  {
    var last := DigitChar(n % 10);
    assert DigitValue(last) == n % 10;
    if n < 10 {
      assert Digits(n) == [last];
      assert [last][..0] == [];
    } else {
      var d := Digits(n / 10);
      assert Digits(n) == d + [last];
      DigitsRoundTrip(n / 10);
      assert (d + [last])[..|d|] == d;
      assert DigitsValue(d + [last]) == 10 * (n / 10) + n % 10;
    }
  }

  /** Two integers with the same str() are the same integer. */
  lemma StrIntInjective(m: int, n: int)
    requires Str(IntKey(m)) == Str(IntKey(n))
    ensures m == n
  {
    if m < 0 && n < 0 {
      NegativeInjective(m, n);
    } else if m >= 0 && n >= 0 {
      DigitsInjective(m, n);
    } else if m < 0 {
      SignDiffers(m, n);
    } else {
      SignDiffers(n, m);
    }
  }

  lemma NegativeInjective(m: int, n: int)
    requires m < 0 && n < 0 && Str(IntKey(m)) == Str(IntKey(n))
    ensures m == n
  {
    var s := Str(IntKey(m));
    NegativeStr(m);
    NegativeStr(n);
    assert Digits(-m) == s[1..] == Digits(-n);
    DigitsInjective(-m, -n);
  }

  /** A negative and a non-negative integer never print alike: only one starts with '-'. */
  lemma SignDiffers(m: int, n: int)
    requires m < 0 <= n
    ensures Str(IntKey(m)) != Str(IntKey(n))
  {
    NegativeStr(m);
    assert Str(IntKey(n)) == Digits(n);
    assert '0' <= Digits(n)[0] <= '9';
  }

  /** Two naturals with the same digits are equal. */
  lemma DigitsInjective(a: nat, b: nat)
    requires Digits(a) == Digits(b)
    ensures a == b
  {
    DigitsRoundTrip(a);
    DigitsRoundTrip(b);
  }

  /** The str() of a negative integer is '-' followed by the digits of its magnitude. */
  lemma NegativeStr(n: int)
    requires n < 0
    ensures Str(IntKey(n))[0] == '-' && Str(IntKey(n))[1..] == Digits(-n)
  {
    var d := Digits(-n);
    assert Str(IntKey(n)) == "-" + d;
    assert ("-" + d)[1..] == d;
  }

  /** The str() of an integer is ASCII: a '-' and decimal digits. */
  lemma StrIsAscii(n: int)
    ensures forall i :: 0 <= i < |Str(IntKey(n))| ==> Str(IntKey(n))[i] == '-' || '0' <= Str(IntKey(n))[i] <= '9'
  {
    if n < 0 {
      var s, d := Str(IntKey(n)), Digits(-n);
      NegativeStr(n);
      forall i | 1 <= i < |s| ensures '0' <= s[i] <= '9' {
        assert s[i] == s[1..][i - 1] == d[i - 1];
      }
    }
  }
}
