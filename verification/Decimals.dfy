/** Decimal numerals as digit values, most significant first. */
module Decimals {

  type Digit = d: int | 0 <= d < 10

  function Digits(n: nat): (ds: seq<Digit>)
    ensures |ds| > 0 && (n > 0 ==> ds[0] != 0)
  {
    if n < 10 then [n] else Digits(n / 10) + [n % 10]
  }

  function Value(ds: seq<Digit>): nat
  {
    if ds == [] then 0 else 10 * Value(ds[..|ds| - 1]) + ds[|ds| - 1]
  }

  predicate Canonical(ds: seq<Digit>) {
    |ds| > 0 && ds[0] != 0
  }

  lemma {:induction false} ReadBack(n: nat)
    ensures Value(Digits(n)) == n
  {
    if n >= 10 {
      ReadBack(n / 10);
      assert Digits(n)[..|Digits(n)| - 1] == Digits(n / 10);
    }
  }

  /** Without a leading zero there is only one numeral per positive number. */
  lemma {:induction false} CanonicalIsPrinted(ds: seq<Digit>)
    requires Canonical(ds)
    ensures Value(ds) > 0 && Digits(Value(ds)) == ds
  {
    var last := |ds| - 1;
    if last == 0 {
      assert ds == [ds[0]] && ds[..0] == [];
    } else {
      CanonicalIsPrinted(ds[..last]);
      assert Value(ds) / 10 == Value(ds[..last]) && Value(ds) % 10 == ds[last];
      assert ds == ds[..last] + [ds[last]];
    }
  }
}
