/** Syncthing's Luhn-mod-32 check symbol, and exactly which errors it finds. */
module Luhn32 {
  import opened Wrappers
  import opened Base32

  type Digit = n: nat | n < 32

  /** The factor alternates between 1 and 2, starting with 1. */
  datatype Factor = One | Two {
    function Other(): Factor {
      if this == One then Two else One
    }

    function Value(): nat {
      if this == One then 1 else 2
    }
  }

  function FactorAt(i: nat, first: Factor): Factor {
    if i % 2 == 0 then first else first.Other()
  }

  /** The contribution of a digit: its multiple with the carry of base 32 added back. */
  function Addend(f: Factor, x: Digit): (a: Digit)
    ensures a == if f == One then x else if x < 16 then 2 * x else 2 * x - 31
  {
    var y := if f == One then x else 2 * x;
    y / 32 + y % 32
  }

  function Sum(ds: seq<Digit>, first: Factor): nat {
    if ds == [] then 0 else Addend(first, ds[0]) + Sum(ds[1..], first.Other())
  }

  function CheckDigit(ds: seq<Digit>): Digit {
    (32 - Sum(ds, One) % 32) % 32
  }

  function Digits(s: string): (ds: seq<Digit>)
    requires AllSymbols(s)
    ensures |ds| == |s| && forall i :: 0 <= i < |s| ==> ds[i] == Code(s[i])
  {
    seq(|s|, i requires 0 <= i < |s| => Code(s[i]))
  }

  function CheckSymbol(s: string): (c: char)
    requires AllSymbols(s)
    ensures IsSymbol(c)
  {
    Symbol(CheckDigit(Digits(s)))
  }

  /** The check of the parser: a payload followed by its check symbol. */
  predicate Accepts(group: string) {
    |group| > 0 && AllSymbols(group) && group[|group| - 1] == CheckSymbol(group[..|group| - 1])
  }

  lemma {:induction false} SumSnoc(ds: seq<Digit>, d: Digit, first: Factor)
    ensures Sum(ds + [d], first) == Sum(ds, first) + Addend(FactorAt(|ds|, first), d)
  {
    if ds == [] {
      assert ds + [d] == [d];
    } else {
      assert (ds + [d])[1..] == ds[1..] + [d];
      SumSnoc(ds[1..], d, first.Other());
    }
  }

  /** The check symbol of a text, computed in one pass; a symbol outside the alphabet is an error. */
  method ComputeLuhn32(s: string) returns (r: Option<char>)
    ensures r == if AllSymbols(s) then Some(CheckSymbol(s)) else None
  {
    hide IsSymbol, Code, Symbol;
    var factor, sum: nat := 1, 0;
    for i := 0 to |s|
      invariant AllSymbols(s[..i])
      invariant factor == FactorAt(i, One).Value()
      invariant sum == Sum(Digits(s[..i]), One)
    {
      if !IsSymbol(s[i]) {
        return None;
      }
      var addend := factor * Code(s[i]);
      assert addend == if factor == 1 then Code(s[i]) else 2 * Code(s[i]);
      SumSnoc(Digits(s[..i]), Code(s[i]), One);
      assert Digits(s[..i + 1]) == Digits(s[..i]) + [Code(s[i])];
      factor := if factor == 2 then 1 else 2;
      sum := sum + (addend / 32 + addend % 32);
    }
    assert s[..|s|] == s;
    return Some(Symbol((32 - sum % 32) % 32));
  }

  // ----- what the check symbol detects -----

  /** Payload digits with their check digit: the weighted sum is 0 modulo 32. */
  ghost predicate Balanced(ds: seq<Digit>, check: Digit) {
    (Sum(ds, One) + check) % 32 == 0
  }

  lemma BalancedIff(ds: seq<Digit>, check: Digit)
    ensures Balanced(ds, check) <==> check == CheckDigit(ds)
  {
  }

  /** A text is accepted exactly when its digits balance. */
  lemma AcceptsIff(group: string)
    requires |group| > 0 && AllSymbols(group)
    ensures var n := |group| - 1;
            Accepts(group) <==> Balanced(Digits(group)[..n], Digits(group)[n])
  {
    var n := |group| - 1;
    assert Digits(group)[..n] == Digits(group[..n]);
    BalancedIff(Digits(group)[..n], Digits(group)[n]);
    CodeOfSymbol(CheckDigit(Digits(group[..n])));
  }

  /** Only the changed position changes the sum. */
  lemma {:induction false} SumReplace(ds: seq<Digit>, i: nat, d: Digit, first: Factor)
    requires i < |ds|
    ensures Sum(ds[i := d], first) + Addend(FactorAt(i, first), ds[i])
            == Sum(ds, first) + Addend(FactorAt(i, first), d)
  {
    hide Addend;
    if i == 0 {
      assert ds[0 := d][1..] == ds[1..];
    } else {
      assert ds[i := d][1..] == ds[1..][i - 1 := d];
      SumReplace(ds[1..], i - 1, d, first.Other());
    }
  }

  /** Doubling with carry permutes the 32 digits, so a changed digit changes the sum modulo 32. */
  lemma DigitReplaced(ds: seq<Digit>, check: Digit, i: nat, d: Digit)
    requires Balanced(ds, check) && i < |ds| && d != ds[i]
    ensures !Balanced(ds[i := d], check)
  {
    hide Sum, Addend, FactorAt;
    SumReplace(ds, i, d, One);
    var f := FactorAt(i, One);
    AddendInjective(f, d, ds[i]);
    NotBoth(Sum(ds, One) + check, Sum(ds[i := d], One) + check);
  }

  lemma AddendInjective(f: Factor, x: Digit, y: Digit)
    requires x != y
    ensures Addend(f, x) != Addend(f, y)
  {
  }

  lemma NotBoth(p: nat, q: nat)
    requires p % 32 == 0 && p != q && -32 < p - q < 32
    ensures q % 32 != 0
  {
  }

  /** Replacing any one symbol of an accepted group, the check symbol included, is always rejected. */
  lemma SubstitutionRejected(group: string, i: nat, c: char)
    requires Accepts(group) && i < |group| && c != group[i]
    ensures !Accepts(group[i := c])
  {
    var other := group[i := c];
    if IsSymbol(c) {
      var n := |group| - 1;
      assert AllSymbols(other);
      AcceptsIff(group);
      AcceptsIff(other);
      var ds := Digits(group);
      assert Digits(other) == ds[i := Code(c)];
      assert Symbol(Code(c)) != Symbol(ds[i]);
      if i == n {
        assert Digits(other)[..n] == ds[..n];
      } else {
        assert Digits(other)[..n] == ds[..n][i := Code(c)];
        DigitReplaced(ds[..n], ds[n], i, Code(c));
      }
    } else {
      assert other[i] == c;
    }
  }

  function Swap<T>(s: seq<T>, i: nat): seq<T>
    requires i + 1 < |s|
  {
    s[i := s[i + 1]][i + 1 := s[i]]
  }

  lemma {:induction false} SumSwap(ds: seq<Digit>, i: nat)
    requires i + 1 < |ds|
    ensures var f := FactorAt(i, One);
            Sum(Swap(ds, i), One) == Sum(ds, One) + SwapChange(f, ds[i], ds[i + 1])
  {
    var x, y := ds[i], ds[i + 1];
    var once := ds[i := y];
    SumReplace(ds, i, y, One);
    SumReplace(once, i + 1, x, One);
    assert FactorAt(i + 1, One) == FactorAt(i, One).Other();
    assert once[i + 1] == y;
  }

  /** What trading places does to the sum, when x has factor f and y the other one. */
  function SwapChange(f: Factor, x: Digit, y: Digit): int {
    Addend(f, y) + Addend(f.Other(), x) - Addend(f, x) - Addend(f.Other(), y)
  }

  lemma Shift(p: nat, q: nat, change: int)
    requires p % 32 == 0 && q == p + change
    ensures q % 32 == 0 <==> change % 32 == 0
  {
  }

  ghost predicate BlindDigits(x: Digit, y: Digit) {
    (x == 0 && y == 31) || (x == 31 && y == 0)
  }

  /** The one pair of digits that can trade places under different factors. */
  lemma SwapResidue(f: Factor, x: Digit, y: Digit)
    requires x != y
    ensures SwapChange(f, x, y) % 32 == 0 <==> BlindDigits(x, y)
  {
    var u := Addend(Two, x) - x;
    var v := Addend(Two, y) - y;
    assert SwapChange(f, x, y) == if f == One then u - v else v - u;
    assert -32 < u - v < 32;
  }

  lemma {:induction false} DigitsSwapped(ds: seq<Digit>, check: Digit, i: nat)
    requires Balanced(ds, check) && i + 1 < |ds| && ds[i] != ds[i + 1]
    ensures Balanced(Swap(ds, i), check) <==> BlindDigits(ds[i], ds[i + 1])
  {
    hide Sum, Addend, SwapChange, Swap;
    SumSwap(ds, i);
    var f, x, y := FactorAt(i, One), ds[i], ds[i + 1];
    SwapResidue(f, x, y);
    Shift(Sum(ds, One) + check, Sum(Swap(ds, i), One) + check, SwapChange(f, x, y));
  }

  ghost predicate IsBlindPair(c: char, d: char) {
    (c == 'A' && d == '7') || (c == '7' && d == 'A')
  }

  lemma BlindPairDigits(c: char, d: char)
    requires IsSymbol(c) && IsSymbol(d)
    ensures IsBlindPair(c, d) <==> BlindDigits(Code(c), Code(d))
  {
  }

  /** Swapping two adjacent distinct payload symbols goes unnoticed exactly for A and 7. */
  lemma PayloadSwap(group: string, i: nat)
    requires Accepts(group) && i + 2 < |group| && group[i] != group[i + 1]
    ensures Accepts(Swap(group, i)) <==> IsBlindPair(group[i], group[i + 1])
  {
    var n := |group| - 1;
    var ds, other := Digits(group), Swap(group, i);
    assert AllSymbols(other);
    AcceptsIff(group);
    AcceptsIff(other);
    assert Digits(other) == Swap(ds, i);
    assert Digits(other)[..n] == Swap(ds[..n], i);
    assert Symbol(ds[i]) != Symbol(ds[i + 1]);
    DigitsSwapped(ds[..n], ds[n], i);
    BlindPairDigits(group[i], group[i + 1]);
  }

  lemma AddendOne(x: Digit)
    ensures Addend(One, x) == x
  {
  }

  lemma {:induction false} CheckDigitSwapped(ds: seq<Digit>, d: Digit, check: Digit)
    requires Balanced(ds + [d], check) && d != check
    ensures Balanced(ds + [check], d) <==> |ds| % 2 == 0 || BlindDigits(d, check)
  {
    hide Sum, Addend;
    SumSnoc(ds, d, One);
    SumSnoc(ds, check, One);
    AddendOne(d);
    AddendOne(check);
    if |ds| % 2 == 1 {
      SwapResidue(Two, d, check);
      Shift(Sum(ds + [d], One) + check, Sum(ds + [check], One) + d, SwapChange(Two, d, check));
    } else {
      assert Sum(ds + [d], One) + check == Sum(ds + [check], One) + d;
    }
  }

  lemma AcceptsSymbols(group: string)
    requires Accepts(group)
    ensures AllSymbols(group)
  {
  }

  /**
   * Swapping the last payload symbol with the check symbol is never noticed after a payload of
   * odd length, such as the 13 symbols used for device ids, and only for A and 7 otherwise.
   */
  lemma CheckSwap(group: string)
    requires Accepts(group) && |group| >= 2
    requires group[|group| - 2] != group[|group| - 1]
    ensures var n := |group| - 1;
            Accepts(Swap(group, n - 1)) <==> n % 2 == 1 || IsBlindPair(group[n - 1], group[n])
  {
    hide Balanced, CheckSymbol, IsSymbol, Accepts;
    AcceptsSymbols(group);
    var n := |group| - 1;
    var ds, other := Digits(group), Swap(group, n - 1);
    assert AllSymbols(other);
    AcceptsIff(group);
    AcceptsIff(other);
    assert ds[..n] == ds[..n - 1] + [ds[n - 1]];
    assert Digits(other) == Swap(ds, n - 1);
    assert Digits(other)[..n] == ds[..n - 1] + [ds[n]];
    assert Symbol(ds[n - 1]) != Symbol(ds[n]);
    CheckDigitSwapped(ds[..n - 1], ds[n - 1], ds[n]);
    BlindPairDigits(group[n - 1], group[n]);
  }
}
