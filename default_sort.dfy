/** The order JavaScript's `Array.prototype.sort()` uses when it is given
    no comparator: each element is converted to its string form and the
    strings are compared code unit by code unit, a proper prefix coming
    first. For the naturals the confidence plot sorts, the string form is
    the decimal numeral without leading zeros. */
module DefaultSort {
  import opened SortOrder

  /** The numeral character of a decimal digit. */
  function Digit(d: nat): (c: char)
    requires d < 10
  {
    (48 + d) as char
  }

  /** The decimal string form of `n`, as JavaScript's `String(n)` gives it
      for every integer up to 2^53. */
  function DecimalString(n: nat): (s: string)
    ensures |s| >= 1
    ensures n >= 10 <==> |s| >= 2
    ensures forall k :: 0 <= k < |s| ==> '0' <= s[k] <= '9'
    ensures s[0] == '0' <==> n == 0
  {
    if n < 10 then [Digit(n)] else DecimalString(n / 10) + [Digit(n % 10)]
  }

  /** The number a string of decimal digits denotes, read most significant
      digit first (Horner's rule). */
  function NumeralValue(s: string): (v: nat)
    requires forall k :: 0 <= k < |s| ==> '0' <= s[k] <= '9'
    ensures s == [] ==> v == 0
  {
    if s == [] then 0
    else NumeralValue(s[..|s| - 1]) * 10 + (s[|s| - 1] as int - 48)
  }

  /** The decimal string of `n` spells `n` in base 10. */
  lemma {:induction false} DecimalStringRoundTrip(n: nat)
    ensures NumeralValue(DecimalString(n)) == n
  {
    var s := DecimalString(n);
    if n >= 10 {
      assert s == DecimalString(n / 10) + [Digit(n % 10)];
      assert s[..|s| - 1] == DecimalString(n / 10);
      assert (s[|s| - 1] as int) == 48 + n % 10;
      DecimalStringRoundTrip(n / 10);
    } else {
      assert s[..0] == [];
      assert (s[0] as int) == 48 + n;
    }
  }

  /** String comparison as JavaScript does it for `<=` on strings. */
  function StringLe(s: string, t: string): bool
  {
    if s == [] then true
    else if t == [] then false
    else if s[0] != t[0] then s[0] < t[0]
    else StringLe(s[1..], t[1..])
  }

  /** The comparison the default sort applies to two naturals. */
  function DefaultSortLe(a: nat, b: nat): (r: bool)
    ensures a == b ==> r
    ensures a < 10 && b < 10 ==> (r <==> a <= b)
  {
    StringLeTotal(DecimalString(a), DecimalString(a));
    StringLe(DecimalString(a), DecimalString(b))
  }

  lemma {:induction false} StringLeTotal(s: string, t: string)
    ensures StringLe(s, t) || StringLe(t, s)
  {
    if s != [] && t != [] && s[0] == t[0] {
      StringLeTotal(s[1..], t[1..]);
    }
  }

  lemma {:induction false} StringLeAntisymmetric(s: string, t: string)
    requires StringLe(s, t) && StringLe(t, s)
    ensures s == t
  {
    if s != [] && t != [] {
      StringLeAntisymmetric(s[1..], t[1..]);
      assert s == [s[0]] + s[1..] && t == [t[0]] + t[1..];
    }
  }

  lemma {:induction false} StringLeTransitive(s: string, t: string, u: string)
    requires StringLe(s, t) && StringLe(t, u)
    ensures StringLe(s, u)
  {
    if s != [] && t != [] && u != [] && s[0] == t[0] == u[0] {
      StringLeTransitive(s[1..], t[1..], u[1..]);
    }
  }

  /** Distinct naturals have distinct decimal strings, since each string
      spells its number. */
  lemma DecimalStringInjective(a: nat, b: nat)
    requires DecimalString(a) == DecimalString(b)
    ensures a == b
  {
    DecimalStringRoundTrip(a);
    DecimalStringRoundTrip(b);
  }

  /** The default sort's comparison is a total order on the naturals, so
      the default sort of a list of naturals is determined by its contents. */
  lemma DefaultSortIsTotalOrder()
    ensures TotalOrder(DefaultSortLe)
  {
    forall a: nat, b: nat
      ensures DefaultSortLe(a, b) || DefaultSortLe(b, a)
    {
      StringLeTotal(DecimalString(a), DecimalString(b));
    }
    forall a: nat, b: nat | DefaultSortLe(a, b) && DefaultSortLe(b, a)
      ensures a == b
    {
      StringLeAntisymmetric(DecimalString(a), DecimalString(b));
      DecimalStringInjective(a, b);
    }
    forall a: nat, b: nat, c: nat | DefaultSortLe(a, b) && DefaultSortLe(b, c)
      ensures DefaultSortLe(a, c)
    {
      StringLeTransitive(DecimalString(a), DecimalString(b), DecimalString(c));
    }
  }

  /** The default order is not numeric order: 10 sorts before 9. */
  lemma TenSortsBeforeNine()
    ensures DefaultSortLe(10, 9) && !DefaultSortLe(9, 10)
  {
    assert DecimalString(1) == ['1'];
    assert DecimalString(10) == ['1', '0'];
    assert DecimalString(9) == ['9'];
  }
}
