/** Element names for generated tables: 0, 1, 2, ... become A, B, ..., Z,
    AA, AB, ..., the bijective base-26 numbering of spreadsheet columns. */
module Labels {
  /** The capital letter for a digit 0..25. */
  function Letter(d: int): (c: char)
    requires 0 <= d < 26
    ensures 'A' <= c <= 'Z'
  {
    (65 + d) as char
  }

  /** The name of `n`: the letter for the last base-26 digit, after the name
      of the quotient less one when that is not negative. */
  function Letters(n: int): (r: string)
    decreases if n < 0 then 0 else n
  {
    var rest := n / 26 - 1;
    (if rest < 0 then [] else Letters(rest)) + [Letter(n % 26)]
  }

  /** Every name is non-empty and made of capital letters only. */
  lemma {:induction false} LettersAreCapitals(n: int)
    ensures |Letters(n)| >= 1
    ensures forall i :: 0 <= i < |Letters(n)| ==> 'A' <= Letters(n)[i] <= 'Z'
    decreases if n < 0 then 0 else n
  {
    var rest := n / 26 - 1;
    if rest >= 0 {
      LettersAreCapitals(rest);
    }
  }

  /** The numbers below 26 are named by a single letter, and only they. */
  lemma SingleLetterNames(n: nat)
    ensures |Letters(n)| == 1 <==> n < 26
  {
    if n >= 26 {
      LettersAreCapitals(n / 26 - 1);
    }
  }

  /** Different numbers get different names. */
  lemma {:induction false} LettersInjective(a: nat, b: nat)
    requires Letters(a) == Letters(b)
    ensures a == b
    decreases a
  {
    var ra, rb := a / 26 - 1, b / 26 - 1;
    var na, nb := Letters(a), Letters(b);
    assert na[|na| - 1] == Letter(a % 26) && nb[|nb| - 1] == Letter(b % 26);
    assert a % 26 == b % 26;
    SingleLetterNames(a);
    SingleLetterNames(b);
    if ra >= 0 && rb >= 0 {
      assert Letters(ra) == na[..|na| - 1] == nb[..|nb| - 1] == Letters(rb);
      LettersInjective(ra, rb);
    }
  }

  /** The conversion as the table editor runs it: prepend the letter of the
      last digit, move to the quotient less one, and stop once that is
      negative. */
  method NumberToLetters(n: int) returns (r: string)
    ensures r == Letters(n)
  {
    var m := n;
    r := [];
    while true
      invariant Letters(n) == Letters(m) + r
      decreases if m < 0 then 0 else m + 1
    {
      var digit := Letter(m % 26);
      var rest := m / 26 - 1;
      assert Letters(m) == (if rest < 0 then [] else Letters(rest)) + [digit];
      r := [digit] + r;
      if rest < 0 {
        return;
      }
      m := rest;
    }
  }
}
