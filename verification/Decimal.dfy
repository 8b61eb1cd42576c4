// Decimal strings to big-endian binary numbers, by halving an array of digits in place.
module Decimal {
  import opened Wrappers
  import opened Numbers

  function DigitValues(s: string): (d: seq<nat>)
    requires forall i :: 0 <= i < |s| ==> IsDigit(s[i])
    ensures |d| == |s| && DigitsBelow(10, d)
  {
    if s == [] then [] else DigitValues(s[..|s| - 1]) + [DigitOf(s[|s| - 1])]
  }

  // The number a decimal string stands for.
  function Number(s: string): nat
    requires forall i :: 0 <= i < |s| ==> IsDigit(s[i])
  {
    Value(10, DigitValues(s))
  }

  // One digit more.
  lemma NumberNext(s: string, c: char)
    requires IsDigit(c) && forall i :: 0 <= i < |s| ==> IsDigit(s[i])
    ensures Number("") == 0 && Number(s + [c]) == 10 * Number(s) + (c as int - '0' as int)
  {
    assert (s + [c])[..|s|] == s;
    ValueSnoc(10, DigitValues(s), DigitOf(c));
  }

  // The operator |= with one bit shifted into place.
  function OrBit(x: nat, bit: nat, at: nat): nat
    requires bit <= 1
  {
    if (x / Pow(2, at)) % 2 == 0 then x + bit * Pow(2, at) else x
  }

  // The digits `was` up to number i are halved to `now`, with a carry of five or none; the
  // first ones of these, up to `to`, have become zero.
  ghost predicate Halving(was: seq<nat>, now: seq<nat>, n: nat, from: nat, to: nat, i: nat, carry: nat) {
    && from <= to <= i <= n <= |was| == |now|
    && (forall k :: 0 <= k < n ==> now[k] < 10)
    && (forall k :: i <= k < n ==> now[k] == was[k])
    && (forall k :: from <= k < to ==> now[k] == 0)
    && (to < i ==> now[to] != 0)
    && (carry == 0 || carry == 5)
    && (i > from ==> carry == 5 * (was[i - 1] % 2))
    && Value(10, was[from..i]) == 2 * Value(10, now[from..i]) + carry / 5
  }

  lemma HalvingStart(was: seq<nat>, n: nat, from: nat)
    requires from <= n <= |was| && forall k :: 0 <= k < n ==> was[k] < 10
    ensures Halving(was, was, n, from, from, from, 0)
  {
    ValueNone();
    assert was[from..from] == [];
  }

  lemma HalvingNext(was: seq<nat>, now: seq<nat>, now': seq<nat>, n: nat, from: nat, to: nat, i: nat, carry: nat)
    requires Halving(was, now, n, from, to, i, carry) && i < n && now' == now[i := now[i] / 2 + carry]
    ensures Halving(was, now', n, from, if i == to && now'[i] == 0 then to + 1 else to, i + 1, 5 * (now[i] % 2))
  {
    hide Value;
    assert now'[from..i] == now[from..i];
    assert now'[from..i + 1] == now[from..i] + [now'[i]];
    HalfNext(was, now[from..i], now'[from..i + 1], from, i, carry);
  }

  lemma HalvingEnd(was: seq<nat>, now: seq<nat>, n: nat, from: nat, to: nat, carry: nat)
    requires Halving(was, now, n, from, to, n, carry) && from < n
    ensures Value(10, was[from..n]) == 2 * Value(10, now[to..n]) + was[n - 1] % 2
  {
    hide Value;
    ClearedValue(now[from..n], to - from);
    assert now[from..n][to - from..] == now[to..n];
  }

  // Halve the digits from `cleared` on; the digit carried out at the end is their parity.
  method Halve(digits: array<nat>, n: nat, cleared: nat) returns (cleared': nat)
    requires cleared < n <= digits.Length
    requires forall i :: 0 <= i < n ==> digits[i] < 10
    requires digits[cleared] != 0
    modifies digits
    ensures cleared <= cleared' <= n
    ensures forall i :: 0 <= i < n ==> digits[i] < 10
    ensures cleared' < n ==> digits[cleared'] != 0
    ensures old(Value(10, digits[cleared..n])) == 2 * Value(10, digits[cleared'..n]) + old(digits[n - 1]) % 2
  {
    hide Value;
    var carry := 0;
    cleared' := cleared;
    var i := cleared;
    ghost var was := digits[..];
    HalvingStart(was, n, cleared);
    while i < n
      invariant Halving(was, digits[..], n, cleared, cleared', i, carry)
    {
      ghost var now, c := digits[..], carry;
      var odd := digits[i] % 2;
      digits[i] := digits[i] / 2 + carry;
      HalvingNext(was, now, digits[..], n, cleared, cleared', i, c);
      carry := if odd == 1 then 5 else 0;
      if i == cleared' && digits[i] == 0 {
        cleared' := cleared' + 1;
      }
      i := i + 1;
    }
    HalvingEnd(was, digits[..], n, cleared, cleared', carry);
    SliceIs(digits, cleared', n);
    assert was[cleared..n] == old(digits[cleared..n]);
  }

  lemma SliceIs(a: array<nat>, i: nat, j: nat)
    requires i <= j <= a.Length
    ensures a[..][i..j] == a[i..j]
  {
  }

  lemma ClearedValue(s: seq<nat>, k: nat)
    requires k <= |s| && forall i :: 0 <= i < k ==> s[i] == 0
    ensures Value(10, s) == Value(10, s[k..])
  {
    assert s == s[..k] + s[k..];
    ValueAppend(10, s[..k], s[k..]);
    ValueZeros(10, s[..k]);
  }

  lemma HalfNext(was: seq<nat>, half: seq<nat>, half': seq<nat>, from: nat, i: nat, carry: nat)
    requires from <= i < |was| && (carry == 0 || carry == 5) && half' == half + [was[i] / 2 + carry]
    requires Value(10, was[from..i]) == 2 * Value(10, half) + carry / 5
    ensures Value(10, was[from..i + 1]) == 2 * Value(10, half') + was[i] % 2
  {
    assert was[from..i + 1] == was[from..i] + [was[i]];
    ValueSnoc(10, was[from..i], was[i]);
    ValueSnoc(10, half, was[i] / 2 + carry);
    HalfStep(Value(10, was[from..i]), Value(10, half), carry, was[i]);
  }

  // One more digit of a number and of its half.
  lemma HalfStep(was: int, half: int, carry: nat, d: nat)
    requires was == 2 * half + carry / 5 && (carry == 0 || carry == 5)
    ensures 10 * was + d == 2 * (10 * half + (d / 2 + carry)) + d % 2
  {
  }

  lemma ValueNone()
    ensures Value(10, []) == 0
  {
  }

  lemma {:induction false} PowBase(b: nat, c: nat, n: nat)
    requires 0 < b <= c
    ensures Pow(b, n) <= Pow(c, n)
  {
    if n > 0 {
      PowBase(b, c, n - 1);
      MulLe(b, Pow(b, n - 1), Pow(c, n - 1));
      MulLe(Pow(c, n - 1), b, c);
    }
  }

  lemma Pow2Of8(m: nat)
    ensures Pow(256, m) == Pow(2, 8 * m)
  {
    assert Pow(2, 4) == 16;
    PowAdd(2, 4, 4);
    PowPow(2, 8, m);
  }

  // A number of n decimal digits needs no more than 4n bits.
  lemma FewBits(v: nat, n: nat, bits: nat)
    requires v < Pow(10, n) && Pow(2, bits) <= v
    ensures bits < 4 * n
  {
    PowBase(10, 16, n);
    assert Pow(2, 4) == 16;
    PowPow(2, 4, n);
    if bits >= 4 * n {
      PowMonotone(2, 4 * n, bits);
    }
  }

  // Setting bit k of the leading byte adds the weight of that bit.
  lemma SetLeadingBit(s: seq<nat>, k: nat, bit: nat)
    requires s != [] && s[0] < Pow(2, k) && bit <= 1 && k < 8
    ensures OrBit(s[0], bit, k) < Pow(2, k + 1) && OrBit(s[0], bit, k) < 256
    ensures Value(256, s[0 := OrBit(s[0], bit, k)]) == Value(256, s) + bit * Pow(2, 8 * (|s| - 1) + k)
  {
    var x, m := s[0], |s| - 1;
    DivSmall(x, Pow(2, k));
    ValueFirst(256, s);
    ValueFirst(256, s[0 := OrBit(x, bit, k)]);
    assert s[0 := OrBit(x, bit, k)][1..] == s[1..];
    Pow2Of8(m);
    PowAdd(2, k, 8 * m);
    Expand(x, bit, Pow(2, k), Pow(256, m));
    Pow2Of8(1);
    PowMonotone(2, k + 1, 8);
  }

  lemma DivSmall(x: nat, p: nat)
    requires x < p
    ensures (x / p) % 2 == 0
  {
  }

  lemma Expand(x: nat, bit: nat, p: nat, q: nat)
    requires bit <= 1
    ensures (x + bit * p) * q == x * q + bit * (p * q)
  {
  }

  // Moving one bit from the number still to convert to the bytes already written.
  lemma BitMoved(v: nat, w: nat, bit: nat, bits: nat)
    requires v == 2 * w + bit && bit <= 1
    ensures v * Pow(2, bits) == w * Pow(2, bits + 1) + bit * Pow(2, bits)
    ensures v > 0 ==> v * Pow(2, bits) >= Pow(2, bits)
  {
    var p := Pow(2, bits);
    assert v * p == 2 * (w * p) + bit * p by {
      Expand2(w, bit, p);
    }
    assert w * Pow(2, bits + 1) == 2 * (w * p) by {
      MulSwap(w, 2, p);
    }
    if v > 0 {
      MulLe(p, 1, v);
    }
  }

  lemma Expand2(w: nat, bit: nat, p: nat)
    requires bit <= 1
    ensures (2 * w + bit) * p == 2 * (w * p) + bit * p
  {
  }

  // A leading zero byte would make the number too small.
  lemma NoLeadingZero(s: seq<nat>, bits: nat)
    requires s != [] && DigitsBelow(256, s) && 8 * (|s| - 1) <= bits && Value(256, s) >= Pow(2, bits)
    ensures s[0] != 0
  {
    ValueFirst(256, s);
    ValueBound(256, s[1..]);
    Pow2Of8(|s| - 1);
    PowMonotone(2, 8 * (|s| - 1), bits);
  }

  // Collect the digits, leaving out leading zeros.
  method Digits(data: string, digits: array<nat>) returns (n: nat, ok: bool)
    requires digits.Length == |data|
    modifies digits
    ensures ok <==> forall i :: 0 <= i < |data| ==> IsDigit(data[i])
    ensures ok ==> n <= |data| && (forall i :: 0 <= i < n ==> digits[i] < 10) && (n > 0 ==> digits[0] != 0)
    ensures ok ==> Value(10, digits[..n]) == Number(data)
  {
    hide Value;
    ValueNone();
    var sawNonZero := false;
    n := 0;
    for i := 0 to |data|
      invariant forall k :: 0 <= k < i ==> IsDigit(data[k])
      invariant n <= i && (sawNonZero <==> n > 0) && (n > 0 ==> digits[0] != 0)
      invariant forall k :: 0 <= k < n ==> digits[k] < 10
      invariant Value(10, digits[..n]) == Number(data[..i])
    {
      var ch := data[i];
      if !IsDigit(ch) {
        return n, false;
      }
      assert data[..i + 1][..i] == data[..i];
      ValueSnoc(10, DigitValues(data[..i]), DigitOf(ch));
      ghost var before := digits[..n];
      if ch != '0' || sawNonZero {
        ValueSnoc(10, before, DigitOf(ch));
        digits[n] := DigitOf(ch);
        n := n + 1;
        assert digits[..n] == before + [DigitOf(ch)];
        sawNonZero := true;
      }
    }
    assert data[..|data|] == data;
    ok := true;
  }

  // egg_decimal_decode
  method Decode(data: string) returns (usg: array?<nat>, nDecoded: nat)
    ensures usg == null <==> exists i :: 0 <= i < |data| && !IsDigit(data[i])
    ensures usg != null ==>
              && fresh(usg) && usg.Length == |data| && nDecoded <= |data|
              && DigitsBelow(256, usg[..nDecoded])
              && Value(256, usg[..nDecoded]) == Number(data)
              && (nDecoded > 0 ==> usg[0] != 0)
  {
    var digits := new nat[|data|](_ => 0);
    var n, ok := Digits(data, digits);
    if !ok {
      return null, 0;
    }
    var at;
    ValueBound(10, DigitValues(data));
    usg, at := Bits(digits, n, |data|, Number(data));
    nDecoded := |data| - at;
    ghost var bytes := usg[at..];
    for i := 0 to nDecoded
      invariant forall k :: 0 <= k < i ==> usg[k] == bytes[k]
      invariant forall k :: i <= k < nDecoded ==> usg[at + k] == bytes[k]
    {
      usg[i] := usg[at + i];
    }
    assert usg[..nDecoded] == bytes;
  }

  // A number whose leading digit is not zero is not zero.
  lemma Positive(b: nat, s: seq<nat>)
    requires b > 0 && s != [] && s[0] > 0
    ensures Value(b, s) > 0
  {
    ValueFirst(b, s);
    MulLe(Pow(b, |s| - 1), 1, s[0]);
  }

  lemma LeadingZero(b: nat, s: seq<nat>)
    ensures Value(b, [0] + s) == Value(b, s)
  {
    ValueFirst(b, [0] + s);
    assert ([0] + s)[1..] == s;
  }

  // The write position: bytes after `at` are full, the one at `at` holds atBit bits.
  ghost predicate Writing(usg: array<nat>, at: int, atBit: nat)
    reads usg
  {
    && 0 <= at < usg.Length && atBit < 8
    && DigitsBelow(256, usg[..])
    && usg[at] < Pow(2, atBit)
    && forall k :: 0 <= k < at ==> usg[k] == 0
  }

  ghost function BitsWritten(usg: array<nat>, at: int, atBit: nat): int {
    8 * (usg.Length - 1 - at) + atBit
  }

  // Store one bit, moving on to the byte before when this one is full.
  method StoreBit(usg: array<nat>, at: int, atBit: nat, bit: nat) returns (at': int, atBit': nat)
    requires Writing(usg, at, atBit) && bit <= 1
    requires atBit == 7 ==> at > 0
    modifies usg
    ensures Writing(usg, at', atBit')
    ensures BitsWritten(usg, at', atBit') == BitsWritten(usg, at, atBit) + 1
    ensures Value(256, usg[at'..]) == old(Value(256, usg[at..])) + bit * Pow(2, BitsWritten(usg, at, atBit))
  {
    hide Value, Pow, OrBit;
    ghost var s := usg[at..];
    SetLeadingBit(s, atBit, bit);
    usg[at] := OrBit(usg[at], bit, atBit);
    assert usg[at..] == s[0 := OrBit(s[0], bit, atBit)];
    if atBit == 7 {
      at', atBit' := at - 1, 0;
      assert at' >= 0;
      assert usg[at'..] == [0] + usg[at..];
      LeadingZero(256, usg[at..]);
      PowZero();
    } else {
      at', atBit' := at, atBit + 1;
    }
  }

  lemma PowZero()
    ensures Pow(2, 0) == 1
  {
  }

  // What is written and what is left of the digits make up the number, of which no more
  // bits than it has are written.
  ghost predicate Converting(usg: array<nat>, at: int, atBit: nat, left: nat, number: nat)
    reads usg
  {
    && Writing(usg, at, atBit)
    && number == Value(256, usg[at..]) + left * Pow(2, BitsWritten(usg, at, atBit))
    && (BitsWritten(usg, at, atBit) > 0 ==> number >= Pow(2, BitsWritten(usg, at, atBit) - 1))
  }

  lemma ConvertingNone(usg: array<nat>, left: nat)
    requires usg.Length > 0 && forall k :: 0 <= k < usg.Length ==> usg[k] == 0
    ensures Converting(usg, usg.Length - 1, 0, left, left)
  {
    PowZero();
    ValueZeros(256, usg[usg.Length - 1..]);
  }

  // One bit goes from the digits to the octets.
  method MoveBit(usg: array<nat>, at: int, atBit: nat, digits: array<nat>, n: nat, cleared: nat, ghost number: nat)
    returns (at': int, atBit': nat, cleared': nat)
    requires cleared < n <= usg.Length == digits.Length && usg != digits
    requires (forall i :: 0 <= i < n ==> digits[i] < 10) && digits[cleared] != 0 && number < Pow(10, usg.Length)
    requires Converting(usg, at, atBit, Value(10, digits[cleared..n]), number)
    modifies usg, digits
    ensures cleared <= cleared' <= n && (forall i :: 0 <= i < n ==> digits[i] < 10) && (cleared' < n ==> digits[cleared'] != 0)
    ensures Converting(usg, at', atBit', Value(10, digits[cleared'..n]), number)
    ensures 0 <= Value(10, digits[cleared'..n]) < old(Value(10, digits[cleared..n]))
  {
    hide Value, Pow, OrBit;
    ghost var v, bits := Value(10, digits[cleared..n]), BitsWritten(usg, at, atBit);
    Positive(10, digits[cleared..n]);
    var bit := digits[n - 1] % 2;
    BitsLeft(number, v, bits, usg.Length, Value(256, usg[at..]));
    at', atBit' := StoreBit(usg, at, atBit, bit);
    cleared' := Halve(digits, n, cleared);
    BitMoved(v, Value(10, digits[cleared'..n]), bit, bits);
  }

  // When no digits are left, the octets from the last one that was begun are the number.
  lemma Converted(usg: array<nat>, at: int, atBit: nat, number: nat)
    requires Converting(usg, at, atBit, 0, number)
    ensures var from := if atBit == 0 then at + 1 else at;
            && 0 <= from <= usg.Length && DigitsBelow(256, usg[from..]) && Value(256, usg[from..]) == number
            && (from < usg.Length ==> usg[from] != 0)
  {
    hide Value, Pow;
    var bits := BitsWritten(usg, at, atBit);
    if atBit == 0 {
      assert usg[at] == 0 by { PowZero(); }
      assert usg[at..] == [0] + usg[at + 1..];
      LeadingZero(256, usg[at + 1..]);
    }
    var from := if atBit == 0 then at + 1 else at;
    if from < usg.Length {
      NoLeadingZero(usg[from..], bits - 1);
    }
  }

  // The conversion loop: emit the parity of the number, then halve it.
  method Bits(digits: array<nat>, n: nat, length: nat, ghost number: nat) returns (usg: array<nat>, at: int)
    requires n <= length == digits.Length && (forall i :: 0 <= i < n ==> digits[i] < 10) && (n > 0 ==> digits[0] != 0)
    requires Value(10, digits[..n]) == number < Pow(10, length)
    modifies digits
    ensures fresh(usg) && usg.Length == length && 0 <= at <= length
    ensures DigitsBelow(256, usg[at..]) && Value(256, usg[at..]) == number
    ensures at < length ==> usg[at] != 0
  {
    hide Value, Pow, Converting;
    usg := new nat[length](_ => 0);
    var cleared := 0;
    at := length - 1;
    var atBit := 0;
    assert digits[0..n] == digits[..n];
    if length > 0 {
      ConvertingNone(usg, number);
    }
    while cleared < n
      invariant fresh(usg) && cleared <= n && (forall i :: 0 <= i < n ==> digits[i] < 10)
      invariant cleared < n ==> digits[cleared] != 0
      invariant if length == 0 then at == -1 && atBit == 0 else Converting(usg, at, atBit, Value(10, digits[cleared..n]), number)
      decreases Value(10, digits[cleared..n])
    {
      at, atBit, cleared := MoveBit(usg, at, atBit, digits, n, cleared, number);
    }
    assert digits[n..n] == [];
    ValueNone();
    if length == 0 {
      assert digits[..n] == [];
      assert usg[0..] == [];
      ValueEmpty(256);
    } else {
      Converted(usg, at, atBit, number);
    }
    if atBit == 0 {
      at := at + 1;
    }
  }

  lemma ValueEmpty(b: nat)
    ensures Value(b, []) == 0
  {
  }

  // While the number is not used up, fewer than half of the bits have been written.
  lemma BitsLeft(number: nat, v: nat, bits: nat, length: nat, low: nat)
    requires number < Pow(10, length) && v > 0 && number == low + v * Pow(2, bits)
    ensures bits < 4 * length && Pow(2, bits) <= number
  {
    MulLe(Pow(2, bits), 1, v);
    FewBits(number, length, bits);
  }
}
