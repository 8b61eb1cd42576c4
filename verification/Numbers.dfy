// Positional numbers: values of digit and byte strings.
module Numbers {
  import opened Wrappers

  function Pow(b: nat, n: nat): (p: nat)
    ensures b > 0 ==> p > 0
  {
    if n == 0 then 1 else b * Pow(b, n - 1)
  }

  // The value of s read in base b, most significant digit first.
  function Value(b: nat, s: seq<nat>): nat {
    if s == [] then 0 else b * Value(b, s[..|s| - 1]) + s[|s| - 1]
  }

  lemma {:induction false} PowAdd(b: nat, m: nat, n: nat)
    ensures Pow(b, m + n) == Pow(b, m) * Pow(b, n)
  {
    if n == 0 {
    } else {
      PowAdd(b, m, n - 1);
      assert Pow(b, m + n) == b * Pow(b, m + (n - 1));
      MulSwap(b, Pow(b, m), Pow(b, n - 1));
    }
  }

  lemma MulSwap(x: int, y: int, z: int)
    ensures x * (y * z) == y * (x * z)
  {
  }

  lemma {:induction false} PowPow(b: nat, m: nat, n: nat)
    ensures Pow(Pow(b, m), n) == Pow(b, m * n)
  {
    if n == 0 {
      assert m * n == 0;
    } else {
      PowPow(b, m, n - 1);
      assert m * n == m + m * (n - 1);
      PowAdd(b, m, m * (n - 1));
    }
  }

  lemma {:induction false} PowMonotone(b: nat, m: nat, n: nat)
    requires b > 0 && m <= n
    ensures Pow(b, m) <= Pow(b, n)
  {
    if m < n {
      PowMonotone(b, m, n - 1);
    }
  }

  lemma MulLe(b: nat, p: nat, q: nat)
    requires p <= q
    ensures b * p <= b * q
  {
  }

  lemma Distribute(b: int, x: int, p: int, y: int)
    ensures b * (x * p + y) == x * (b * p) + b * y
  {
    MulSwap(b, x, p);
  }

  lemma {:induction false} ValueAppend(b: nat, s: seq<nat>, t: seq<nat>)
    ensures Value(b, s + t) == Value(b, s) * Pow(b, |t|) + Value(b, t)
  {
    if t == [] {
      assert s + t == s;
    } else {
      var t' := t[..|t| - 1];
      assert (s + t)[..|s + t| - 1] == s + t';
      ValueAppend(b, s, t');
      Distribute(b, Value(b, s), Pow(b, |t'|), Value(b, t'));
      assert Value(b, s + t) == b * Value(b, s + t') + t[|t| - 1];
    }
  }

  lemma ValueSnoc(b: nat, s: seq<nat>, x: nat)
    ensures Value(b, s + [x]) == b * Value(b, s) + x
  {
    assert (s + [x])[..|s|] == s;
  }

  predicate DigitsBelow(b: nat, s: seq<nat>) {
    forall i :: 0 <= i < |s| ==> s[i] < b
  }

  lemma {:induction false} ValueBound(b: nat, s: seq<nat>)
    requires DigitsBelow(b, s)
    ensures Value(b, s) < Pow(b, |s|)
  {
    if s != [] {
      ValueBound(b, s[..|s| - 1]);
      MulLe(b, Value(b, s[..|s| - 1]) + 1, Pow(b, |s| - 1));
      Distribute(b, 1, Value(b, s[..|s| - 1]), 1);
    }
  }

  lemma {:induction false} ValueZeros(b: nat, s: seq<nat>)
    requires forall i :: 0 <= i < |s| ==> s[i] == 0
    ensures Value(b, s) == 0
  {
    if s != [] {
      ValueZeros(b, s[..|s| - 1]);
    }
  }

  // The first digit counts its full weight.
  lemma ValueFirst(b: nat, s: seq<nat>)
    requires s != []
    ensures Value(b, s) == s[0] * Pow(b, |s| - 1) + Value(b, s[1..])
  {
    assert s == [s[0]] + s[1..];
    ValueAppend(b, [s[0]], s[1..]);
    assert [s[0]][..0] == [];
    assert Value(b, [s[0]]) == s[0];
  }

  // Numerals without a leading zero are unique.
  lemma {:induction false} ValueInjective(b: nat, s: seq<nat>, t: seq<nat>)
    requires b > 1 && DigitsBelow(b, s) && DigitsBelow(b, t) && |s| == |t| && Value(b, s) == Value(b, t)
    ensures s == t
  {
    if s != [] {
      var s', t' := s[..|s| - 1], t[..|t| - 1];
      var x, y := s[|s| - 1], t[|t| - 1];
      DivUnique(b, Value(b, s'), x, Value(b, t'), y);
      ValueInjective(b, s', t');
      assert s == s' + [x] && t == t' + [y];
    }
  }

  lemma DivUnique(b: nat, p: nat, x: nat, q: nat, y: nat)
    requires x < b && y < b && b * p + x == b * q + y
    ensures p == q && x == y
  {
    Distribute(b, 1, p, 1);
    Distribute(b, 1, q, 1);
    if p < q {
      MulLe(b, p + 1, q);
    } else if q < p {
      MulLe(b, q + 1, p);
    }
  }

  // No leading zero digit.
  predicate Minimal(s: seq<nat>) {
    s != [] ==> s[0] != 0
  }

  // The numeral of n in base b, without leading zeros.
  function Digits(b: nat, n: nat): (s: seq<nat>)
    requires b > 1
    ensures DigitsBelow(b, s) && Minimal(s) && (n > 0 ==> s != [])
    decreases n
  {
    DivMod(b, n);
    if n == 0 then [] else Digits(b, n / b) + [n % b]
  }

  lemma DivMod(b: nat, n: nat)
    requires b > 1
    ensures n == b * (n / b) + n % b && 0 <= n % b < b && 0 <= n / b
    ensures n > 0 ==> n / b < n
    ensures n < b ==> n / b == 0 && n % b == n
  {
    DivModLess(b, n / b);
  }

  lemma DivModLess(b: int, q: int)
    requires b > 1
    ensures q > 0 ==> q < b * q
    ensures q < 0 ==> b * q <= -b
  {
    if q > 0 {
      MulLe(q, 2, b);
    } else if q < 0 {
      MulLe(b, 1, -q);
      assert b * q == -(b * -q);
    }
  }

  lemma {:induction false} DigitsValue(b: nat, n: nat)
    requires b > 1
    ensures Value(b, Digits(b, n)) == n
  {
    if n > 0 {
      DivMod(b, n);
      DigitsValue(b, n / b);
      ValueSnoc(b, Digits(b, n / b), n % b);
    }
  }

  lemma MinimalBound(b: nat, s: seq<nat>)
    requires b > 1 && s != [] && s[0] != 0
    ensures Value(b, s) >= Pow(b, |s| - 1)
  {
    ValueFirst(b, s);
    MulLe(Pow(b, |s| - 1), 1, s[0]);
  }

  // A number has one numeral without leading zeros.
  lemma MinimalUnique(b: nat, s: seq<nat>, t: seq<nat>)
    requires b > 1 && DigitsBelow(b, s) && DigitsBelow(b, t) && Minimal(s) && Minimal(t)
    requires Value(b, s) == Value(b, t)
    ensures s == t
  {
    ValueBound(b, s);
    ValueBound(b, t);
    if |s| < |t| {
      MinimalBound(b, t);
      PowMonotone(b, |s|, |t| - 1);
    } else if |t| < |s| {
      MinimalBound(b, s);
      PowMonotone(b, |t|, |s| - 1);
    }
    ValueInjective(b, s, t);
  }

  // The numeral of a number below b^k has at most k digits.
  lemma DigitsLength(b: nat, n: nat, k: nat)
    requires b > 1 && n < Pow(b, k)
    ensures |Digits(b, n)| <= k
  {
    DigitsValue(b, n);
    if |Digits(b, n)| > k {
      MinimalBound(b, Digits(b, n));
      PowMonotone(b, k, |Digits(b, n)| - 1);
    }
  }

  // ------------------------------------------------------ quotients and remainders

  lemma DivModOf(n: nat, h: nat)
    requires h > 0
    ensures n == h * (n / h) + n % h && 0 <= n % h < h && n / h >= 0
  {
  }

  lemma ModIs(h: nat, n: nat, q: nat, r: nat)
    requires h > 0 && n == h * q + r && r < h
    ensures n / h == q && n % h == r
  {
    DivModOf(n, h);
    DivUnique(h, n / h, n % h, q, r);
  }

  // The bit of weight 2^i.
  predicate Bit(x: nat, i: nat) {
    x / Pow(2, i) % 2 == 1
  }

  lemma BitNext(x: nat, i: nat)
    ensures Bit(x, i + 1) <==> Bit(x / 2, i)
    ensures Bit(x, 0) <==> x % 2 == 1
  {
    var p := Pow(2, i);
    var q, r := x / 2 / p, x / 2 % p;
    DivModOf(x / 2, p);
    assert 2 * (p * q + r) == 2 * p * q + 2 * r;
    ModIs(2 * p, x, q, 2 * r + x % 2);
  }

  lemma MulNext(l: int, h: int)
    ensures (l - 1) * h + h == l * h
  {
  }

  // The least number of blocks of h items for n items.
  function BlocksFor(n: nat, h: nat): nat
    requires h > 0
  {
    if n % h == 0 then n / h else n / h + 1
  }

  // ------------------------------------------------------------- decimal digits

  predicate IsDigit(c: char) {
    '0' <= c <= '9'
  }

  function DigitOf(c: char): (d: nat)
    requires IsDigit(c)
    ensures d < 10
  {
    c as int - '0' as int
  }
}
