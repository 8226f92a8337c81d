/** `Number.prototype.toString(radix)` for non-negative integers, used for
    the hexadecimal code points of emoji and flags and for the decimal
    limits interpolated into error messages. */
module Numerals {

  const Digits: string := "0123456789abcdef"

  predicate ValidRadix(radix: nat) {
    2 <= radix <= 16
  }

  /** The value of a lower-case digit, or `radix` if it is not a digit of
      that radix. */
  function DigitValue(c: char, radix: nat): (v: nat)
    requires ValidRadix(radix)
    ensures v <= radix
    ensures v < radix ==> Digits[v] == c
  {
    if '0' <= c <= '9' && (c as int - '0' as int) < radix then c as int - '0' as int
    else if 'a' <= c <= 'f' && (c as int - 'a' as int + 10) < radix then c as int - 'a' as int + 10
    else radix
  }

  /** Every character of `s` is a digit of the radix. */
  predicate AllDigits(s: string, radix: nat)
    requires ValidRadix(radix)
  {
    forall i :: 0 <= i < |s| ==> DigitValue(s[i], radix) < radix
  }

  lemma DivMod(n: nat, radix: nat)
    requires ValidRadix(radix) && n >= radix
    ensures n == (n / radix) * radix + n % radix
    ensures 1 <= n / radix < n && n % radix < radix
  {
  }

  /** `n.toString(radix)`: the shortest non-empty digit string for `n`,
      most significant digit first. */
  function ToString(n: nat, radix: nat): (r: string)
    requires ValidRadix(radix)
    ensures |r| >= 1
    ensures AllDigits(r, radix)
    ensures |r| > 1 ==> r[0] != '0'
  {
    if n < radix then
      DigitsInverse(n, radix);
      [Digits[n]]
    else
      DivMod(n, radix);
      var d := n % radix;
      DigitsInverse(d, radix);
      var t := ToString(n / radix, radix);
      assert |t| == 1 ==> t[0] != '0' by {
        if |t| == 1 {
          DigitsInverse(n / radix, radix);
        }
      }
      assert forall i :: 0 <= i < |t| ==> (t + [Digits[d]])[i] == t[i];
      t + [Digits[d]]
  }

  /** `parseInt(s, radix)` on a string made only of digits of the radix. */
  function Parse(s: string, radix: nat): (n: nat)
    requires ValidRadix(radix)
    requires AllDigits(s, radix)
  {
    if |s| == 0 then 0
    else
      var front := s[..|s| - 1];
      assert AllDigits(front, radix) by {
        forall i | 0 <= i < |front| ensures DigitValue(front[i], radix) < radix {
          assert front[i] == s[i];
        }
      }
      Parse(front, radix) * radix + DigitValue(s[|s| - 1], radix)
  }

  lemma DigitsInverse(d: nat, radix: nat)
    requires ValidRadix(radix) && d < radix
    ensures DigitValue(Digits[d], radix) == d
  {
  }

  lemma ParseSnoc(s: string, c: char, radix: nat)
    requires ValidRadix(radix)
    requires AllDigits(s, radix)
    requires DigitValue(c, radix) < radix
    ensures AllDigits(s + [c], radix)
    ensures Parse(s + [c], radix) == Parse(s, radix) * radix + DigitValue(c, radix)
  {
    assert (s + [c])[..|s|] == s;
  }


  /** Parsing undoes printing of the last digit, given that it undoes
      printing of the others. */
  lemma ParseToStringStep(n: nat, radix: nat)
    requires ValidRadix(radix) && n >= radix
    requires Parse(ToString(n / radix, radix), radix) == n / radix
    ensures Parse(ToString(n, radix), radix) == n
  {
    DivMod(n, radix);
    var q, d := n / radix, n % radix;
    var t := ToString(q, radix);
    DigitsInverse(d, radix);
    ParseSnoc(t, Digits[d], radix);
    assert ToString(n, radix) == t + [Digits[d]];
  }

  /** Printing and parsing again gives back the number. */
  lemma {:induction false} ParseToString(n: nat, radix: nat)
    requires ValidRadix(radix)
    ensures Parse(ToString(n, radix), radix) == n
  {
    if n < radix {
      DigitsInverse(n, radix);
      ParseSnoc([], Digits[n], radix);
      assert [] + [Digits[n]] == ToString(n, radix);
    } else {
      DivMod(n, radix);
      ParseToString(n / radix, radix);
      ParseToStringStep(n, radix);
    }
  }

  /** Different numbers print differently. */
  lemma ToStringInjective(m: nat, n: nat, radix: nat)
    requires ValidRadix(radix)
    requires ToString(m, radix) == ToString(n, radix)
    ensures m == n
  {
    ParseToString(m, radix);
    ParseToString(n, radix);
  }

  /** Hexadecimal digits contain neither `-` nor upper-case letters. */
  lemma ToStringAlphabet(n: nat, radix: nat)
    requires ValidRadix(radix)
    ensures '-' !in ToString(n, radix)
    ensures forall i :: 0 <= i < |ToString(n, radix)| ==> !('A' <= ToString(n, radix)[i] <= 'Z')
  {
    var r := ToString(n, radix);
    assert AllDigits(r, radix);
    forall i | 0 <= i < |r| ensures r[i] != '-' && !('A' <= r[i] <= 'Z') {
      assert DigitValue(r[i], radix) < radix;
    }
  }
}
