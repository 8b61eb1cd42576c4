// Password-based key derivation: the function PBKDF2 of RFC 8018, section 5.2.
module Pbkdf2 {
  import opened Wrappers
  import opened Numbers

  /** A keyed pseudo-random function: HMAC over some hash. Only the size of its results
      matters here. */
  type Prf = (bytes, bytes) -> bytes

  ghost predicate PrfSize(prf: Prf, hLen: nat) {
    hLen > 0 && forall key: bytes, text: bytes :: |prf(key, text)| == hLen
  }

  // ------------------------------------------------------------- octet strings

  // The exclusive or of k-bit numbers.
  function Xor(a: nat, b: nat, k: nat): (c: nat)
    ensures c < Pow(2, k)
    decreases k
  {
    if k == 0 then 0 else (a + b) % 2 + 2 * Xor(a / 2, b / 2, k - 1)
  }

  lemma {:induction false} XorZero(b: nat, k: nat)
    requires b < Pow(2, k)
    ensures Xor(0, b, k) == b
    decreases k
  {
    if k > 0 {
      XorZero(b / 2, k - 1);
    }
  }

  // The lowest bit and the others.
  lemma XorNext(a: nat, b: nat, k: nat)
    requires k > 0
    ensures Xor(a, b, k) == (a + b) % 2 + 2 * Xor(a / 2, b / 2, k - 1)
    ensures Xor(a, b, k) % 2 == (a + b) % 2 && Xor(a, b, k) / 2 == Xor(a / 2, b / 2, k - 1)
  {
    hide Pow, Xor;
    XorIs(a, b, k);
    LowBit((a + b) % 2, Xor(a / 2, b / 2, k - 1));
  }

  lemma XorIs(a: nat, b: nat, k: nat)
    requires k > 0
    ensures Xor(a, b, k) == (a + b) % 2 + 2 * Xor(a / 2, b / 2, k - 1)
  {
    hide Pow;
  }

  lemma LowBit(x: nat, r: nat)
    requires x < 2
    ensures (x + 2 * r) % 2 == x && (x + 2 * r) / 2 == r
  {
  }

  lemma OddSum(a: nat, b: nat)
    ensures (a + b) % 2 == 1 <==> (a % 2 == 1) != (b % 2 == 1)
    ensures ((a + b) % 2 + b) % 2 == a % 2
  {
  }

  lemma {:induction false} XorBits(a: nat, b: nat, k: nat, i: nat)
    requires i < k
    ensures Bit(Xor(a, b, k), i) <==> Bit(a, i) != Bit(b, i)
    decreases k
  {
    hide Bit, Xor, Pow;
    XorNext(a, b, k);
    OddSum(a, b);
    if i == 0 {
      BitNext(Xor(a, b, k), 0);
      BitNext(a, 0);
      BitNext(b, 0);
    } else {
      XorBits(a / 2, b / 2, k - 1, i - 1);
      BitNext(Xor(a, b, k), i - 1);
      BitNext(a, i - 1);
      BitNext(b, i - 1);
    }
  }

  // Doing it twice undoes it, and the order does not matter.
  lemma {:induction false} XorTwice(a: nat, b: nat, k: nat)
    requires a < Pow(2, k)
    ensures Xor(Xor(a, b, k), b, k) == a && Xor(a, b, k) == Xor(b, a, k)
    decreases k
  {
    if k > 0 {
      XorTwice(a / 2, b / 2, k - 1);
      XorTwiceNext(a, b, k);
    }
  }

  lemma XorTwiceNext(a: nat, b: nat, k: nat)
    requires k > 0
    requires Xor(Xor(a / 2, b / 2, k - 1), b / 2, k - 1) == a / 2 && Xor(a / 2, b / 2, k - 1) == Xor(b / 2, a / 2, k - 1)
    ensures Xor(Xor(a, b, k), b, k) == a && Xor(a, b, k) == Xor(b, a, k)
  {
    hide Xor, Pow;
    XorNext(a, b, k);
    XorNext(b, a, k);
    XorNext(Xor(a, b, k), b, k);
    OddSum(a, b);
  }

  function XorByte(a: byte, b: byte): byte {
    ByteBits();
    Xor(a, b, 8)
  }

  lemma ByteBits()
    ensures Pow(2, 8) == 256
  {
    assert Pow(2, 4) == 16;
    PowAdd(2, 4, 4);
  }

  function XorBytes(s: bytes, t: bytes): (r: bytes)
    requires |s| == |t|
    ensures |r| == |s|
  {
    seq(|s|, i requires 0 <= i < |s| => XorByte(s[i], t[i]))
  }

  lemma XorZeros(s: bytes)
    ensures XorBytes(Repeat<byte>(0, |s|), s) == s
  {
    forall i | 0 <= i < |s| ensures XorByte(0, s[i]) == s[i] {
      ByteBits();
      XorZero(s[i], 8);
    }
  }

  // The low n octets of a number, the most significant first.
  function ToBytes(x: nat, n: nat): (s: bytes)
    ensures |s| == n
    decreases n
  {
    if n == 0 then [] else ToBytes(x / 256, n - 1) + [x % 256]
  }

  // ------------------------------------------------- RFC 8018, section 5.2

  // U_j of block i
  function U(prf: Prf, password: bytes, salt: bytes, i: nat, j: nat): bytes
    requires j > 0
    decreases j
  {
    if j == 1 then prf(password, salt + ToBytes(i, 4)) else prf(password, U(prf, password, salt, i, j - 1))
  }

  // U_1 xor ... xor U_c
  ghost function F(prf: Prf, hLen: nat, password: bytes, salt: bytes, c: nat, i: nat): (t: bytes)
    requires PrfSize(prf, hLen) && c > 0
    ensures |t| == hLen
    decreases c
  {
    var u := U(prf, password, salt, i, c);
    if c == 1 then u else XorBytes(F(prf, hLen, password, salt, c - 1, i), u)
  }

  // One round more is undone by its U.
  lemma RoundUndone(prf: Prf, hLen: nat, password: bytes, salt: bytes, c: nat, i: nat)
    requires PrfSize(prf, hLen) && c > 1
    ensures |F(prf, hLen, password, salt, c, i)| == |U(prf, password, salt, i, c)|
    ensures XorBytes(F(prf, hLen, password, salt, c, i), U(prf, password, salt, i, c)) == F(prf, hLen, password, salt, c - 1, i)
  {
    hide Xor, F;
    var t, u := F(prf, hLen, password, salt, c - 1, i), U(prf, password, salt, i, c);
    RoundIs(prf, hLen, password, salt, c, i);
    forall k | 0 <= k < hLen ensures XorByte(XorByte(t[k], u[k]), u[k]) == t[k] {
      ByteBits();
      XorTwice(t[k], u[k], 8);
    }
  }

  lemma RoundIs(prf: Prf, hLen: nat, password: bytes, salt: bytes, c: nat, i: nat)
    requires PrfSize(prf, hLen) && c > 1
    ensures |U(prf, password, salt, i, c)| == hLen
    ensures F(prf, hLen, password, salt, c, i) == XorBytes(F(prf, hLen, password, salt, c - 1, i), U(prf, password, salt, i, c))
  {
  }

  // T_1 || ... || T_l
  ghost function Blocks(prf: Prf, hLen: nat, password: bytes, salt: bytes, c: nat, l: nat): (s: bytes)
    requires PrfSize(prf, hLen) && c > 0
    ensures |s| == l * hLen
  {
    if l == 0 then [] else
      MulNext(l, hLen);
      Blocks(prf, hLen, password, salt, c, l - 1) + F(prf, hLen, password, salt, c, l)
  }

  // The octets of the last block.
  lemma LastBlock(n: nat, h: nat)
    requires n > 0 && h > 0
    ensures BlocksFor(n, h) > 0 && 0 < n - (BlocksFor(n, h) - 1) * h <= h
    ensures BlocksFor(n, h) == (n - 1) / h + 1
  {
    var q, r := (n - 1) / h, (n - 1) % h;
    DivModOf(n - 1, h);
    assert n == h * q + (r + 1);
    MulSides(q, h);
    if r + 1 < h {
      ModIs(h, n, q, r + 1);
    } else {
      MulNext(q + 1, h);
      ModIs(h, n, q + 1, 0);
    }
  }

  lemma MulSides(q: int, h: int)
    ensures q * h == h * q && h * (q + 1) == h * q + h
  {
  }

  // T_1 || ... || T_{l-1} || T_l<0..r-1>
  ghost function DerivedKey(prf: Prf, hLen: nat, password: bytes, salt: bytes, c: nat, dkLen: nat): (dk: bytes)
    requires PrfSize(prf, hLen) && c > 0 && dkLen > 0
    ensures |dk| == dkLen
  {
    LastBlock(dkLen, hLen);
    var l := BlocksFor(dkLen, hLen);
    var r := dkLen - (l - 1) * hLen;
    Blocks(prf, hLen, password, salt, c, l - 1) + F(prf, hLen, password, salt, c, l)[..r]
  }

  // The strings a block is made of: the first from the salt and the number of the block,
  // the others each from the one before.
  ghost predicate Iterates(prf: Prf, password: bytes, salt: bytes, i: nat, us: seq<bytes>) {
    && us != []
    && us[0] == prf(password, salt + [i / 0x100_0000 % 256, i / 0x1_0000 % 256, i / 0x100 % 256, i % 256])
    && forall j :: 0 < j < |us| ==> us[j] == prf(password, us[j - 1])
  }

  // How many of the strings have the bit set.
  function Ones(us: seq<bytes>, k: nat, bit: nat): nat {
    if us == [] then 0
    else Ones(us[..|us| - 1], k, bit) + var u := us[|us| - 1]; if k < |u| && Bit(u[k], bit) then 1 else 0
  }

  // In terms of bits: octet number j of the key has those bits set that an odd number of the
  // c strings of its block have set at that place.
  ghost predicate StandardOctet(prf: Prf, hLen: nat, password: bytes, salt: bytes, c: nat, j: nat, x: byte)
    requires hLen > 0
  {
    exists us: seq<bytes> :: |us| == c && Iterates(prf, password, salt, j / hLen + 1, us)
                             && forall bit :: 0 <= bit < 8 ==> (Bit(x, bit) <==> Ones(us, j % hLen, bit) % 2 == 1)
  }

  lemma {:induction false} BlockBits(prf: Prf, hLen: nat, password: bytes, salt: bytes, c: nat, i: nat) returns (us: seq<bytes>)
    requires PrfSize(prf, hLen) && c > 0
    ensures |us| == c && Iterates(prf, password, salt, i, us) && us[c - 1] == U(prf, password, salt, i, c)
    ensures forall k, bit :: 0 <= k < hLen && 0 <= bit < 8 ==>
              (Bit(F(prf, hLen, password, salt, c, i)[k], bit) <==> Ones(us, k, bit) % 2 == 1)
  {
    hide Bit, XorByte, ToBytes, F, U;
    var u := U(prf, password, salt, i, c);
    FirstRound(prf, hLen, password, salt, c, i);
    if c == 1 {
      FourBytes(i);
      us := [u];
      assert us[..0] == [];
    } else {
      var before := BlockBits(prf, hLen, password, salt, c - 1, i);
      us := before + [u];
      RoundIs(prf, hLen, password, salt, c, i);
      assert us[..c - 1] == before;
      var t := F(prf, hLen, password, salt, c - 1, i);
      forall k, bit | 0 <= k < hLen && 0 <= bit < 8
        ensures Bit(F(prf, hLen, password, salt, c, i)[k], bit) <==> Ones(us, k, bit) % 2 == 1
      {
        XorByteBits(t[k], u[k], bit);
        assert Bit(t[k], bit) <==> Ones(before, k, bit) % 2 == 1;
      }
    }
  }

  lemma FirstRound(prf: Prf, hLen: nat, password: bytes, salt: bytes, c: nat, i: nat)
    requires PrfSize(prf, hLen) && c > 0
    ensures |U(prf, password, salt, i, c)| == hLen
    ensures c == 1 ==> F(prf, hLen, password, salt, c, i) == U(prf, password, salt, i, c) == prf(password, salt + ToBytes(i, 4))
    ensures c > 1 ==> U(prf, password, salt, i, c) == prf(password, U(prf, password, salt, i, c - 1))
  {
  }

  lemma XorByteBits(a: byte, b: byte, bit: nat)
    requires bit < 8
    ensures Bit(XorByte(a, b), bit) <==> Bit(a, bit) != Bit(b, bit)
  {
    XorBits(a, b, 8, bit);
  }

  lemma {:induction false} OctetOfBlocks(prf: Prf, hLen: nat, password: bytes, salt: bytes, c: nat, l: nat, j: nat)
    requires PrfSize(prf, hLen) && c > 0 && j < l * hLen
    ensures 0 <= j % hLen < hLen && j / hLen >= 0
    ensures Blocks(prf, hLen, password, salt, c, l)[j] == F(prf, hLen, password, salt, c, j / hLen + 1)[j % hLen]
    decreases l
  {
    hide F;
    MulNext(l, hLen);
    if j < (l - 1) * hLen {
      OctetOfBlocks(prf, hLen, password, salt, c, l - 1, j);
    } else {
      assert (l - 1) * hLen == hLen * (l - 1);
      ModIs(hLen, j, l - 1, j - (l - 1) * hLen);
    }
  }

  lemma OctetOfKey(prf: Prf, hLen: nat, password: bytes, salt: bytes, c: nat, dkLen: nat, j: nat)
    requires PrfSize(prf, hLen) && c > 0 && j < dkLen
    ensures 0 <= j % hLen < hLen && j / hLen >= 0
    ensures DerivedKey(prf, hLen, password, salt, c, dkLen)[j] == F(prf, hLen, password, salt, c, j / hLen + 1)[j % hLen]
  {
    hide F, Blocks, BlocksFor;
    LastBlock(dkLen, hLen);
    var l := BlocksFor(dkLen, hLen);
    if j < (l - 1) * hLen {
      OctetOfBlocks(prf, hLen, password, salt, c, l - 1, j);
    } else {
      assert (l - 1) * hLen == hLen * (l - 1);
      ModIs(hLen, j, l - 1, j - (l - 1) * hLen);
    }
  }

  lemma KeyOctet(prf: Prf, hLen: nat, password: bytes, salt: bytes, c: nat, dkLen: nat, j: nat)
    requires PrfSize(prf, hLen) && hLen > 0 && c > 0 && j < dkLen
    ensures StandardOctet(prf, hLen, password, salt, c, j, DerivedKey(prf, hLen, password, salt, c, dkLen)[j])
  {
    hide F, DerivedKey, Bit, Ones, Iterates;
    OctetOfKey(prf, hLen, password, salt, c, dkLen, j);
    var us := BlockBits(prf, hLen, password, salt, c, j / hLen + 1);
  }

  // ---------------------------------------------------------------- the code

  const G_MAXUINT32: nat := 0xFFFF_FFFF

  // generate_pbkdf2
  method GeneratePbkdf2(prf: Prf, nHash: nat, password: bytes, salt: bytes, iterations: nat, output: array<byte>)
    requires PrfSize(prf, nHash) && iterations > 0 && 0 < output.Length < G_MAXUINT32
    modifies output
    ensures output[..] == DerivedKey(prf, nHash, password, salt, iterations, output.Length)
    ensures nHash > 0 && forall j :: 0 <= j < output.Length ==> StandardOctet(prf, nHash, password, salt, iterations, j, output[j])
  {
    hide Blocks, F, ToBytes, BlocksFor, StandardOctet;
    var nOutput := output.Length;
    LastBlock(nOutput, nHash);
    var l := (nOutput - 1) / nHash + 1;
    var r := nOutput - (l - 1) * nHash;
    var buf := new byte[|salt| + 4](_ => 0);
    var T := new byte[nHash](_ => 0);
    CopyTo(buf, 0, salt);
    FewBlocks(nOutput, nHash);
    BlocksNone(prf, nHash, password, salt, iterations);
    var i := 1;
    while i <= l
      invariant 1 <= i <= l + 1 && fresh(buf) && fresh(T) && buf[..|salt|] == salt
      invariant i <= l ==> Holds(output, (i - 1) * nHash, Blocks(prf, nHash, password, salt, iterations, i - 1))
      invariant i > l ==> output[..] == DerivedKey(prf, nHash, password, salt, iterations, nOutput)
    {
      PrfBlock(prf, nHash, password, salt, iterations, i, buf, T);
      Room(i, l, nHash);
      ghost var t := F(prf, nHash, password, salt, iterations, i);
      Append(output, (i - 1) * nHash, T, if i == l then r else nHash, Blocks(prf, nHash, password, salt, iterations, i - 1));
      BlocksNext(prf, nHash, password, salt, iterations, i);
      assert t[..nHash] == t;
      i := i + 1;
    }
    forall j | 0 <= j < output.Length ensures StandardOctet(prf, nHash, password, salt, iterations, j, output[j]) {
      KeyOctet(prf, nHash, password, salt, iterations, nOutput, j);
      assert output[j] == output[..][j];
    }
  }

  ghost predicate Holds(data: array<byte>, n: int, s: bytes)
    reads data
  {
    0 <= n <= data.Length && data[..n] == s
  }

  method Append(output: array<byte>, at: nat, T: array<byte>, part: nat, ghost front: bytes)
    requires Holds(output, at, front) && part <= T.Length && at + part <= output.Length && T != output
    modifies output
    ensures Holds(output, at + part, front + old(T[..part])) && (at + part == output.Length ==> output[..] == front + old(T[..part]))
  {
    CopyTo(output, at, T[..part]);
    assert output[..at + part] == output[..at] + output[at..at + part];
    assert output[..output.Length] == output[..];
  }

  lemma FewBlocks(n: nat, h: nat)
    requires n > 0 && h > 0
    ensures (n - 1) / h + 1 <= n
  {
    DivModOf(n - 1, h);
    if (n - 1) / h > n - 1 {
      MulLe((n - 1) / h, 1, h);
    }
  }

  lemma Room(i: nat, l: nat, h: nat)
    requires 1 <= i <= l
    ensures 0 <= (i - 1) * h <= (l - 1) * h && i * h == (i - 1) * h + h
    ensures i < l ==> i * h <= (l - 1) * h
  {
    MulLe(h, i - 1, l - 1);
    MulSides(i - 1, h);
    MulSides(l - 1, h);
    MulNext(i, h);
    if i < l {
      MulLe(h, i, l - 1);
      MulSides(i, h);
    }
  }

  lemma BlocksNone(prf: Prf, hLen: nat, password: bytes, salt: bytes, c: nat)
    requires PrfSize(prf, hLen) && c > 0
    ensures Blocks(prf, hLen, password, salt, c, 0) == []
  {
  }

  lemma BlocksNext(prf: Prf, hLen: nat, password: bytes, salt: bytes, c: nat, l: nat)
    requires PrfSize(prf, hLen) && c > 0 && l > 0
    ensures Blocks(prf, hLen, password, salt, c, l)
            == Blocks(prf, hLen, password, salt, c, l - 1) + F(prf, hLen, password, salt, c, l)
  {
  }

  method CopyTo(data: array<byte>, at: nat, s: bytes)
    requires at + |s| <= data.Length
    modifies data
    ensures data[at..at + |s|] == s
    ensures forall i :: 0 <= i < data.Length && !(at <= i < at + |s|) ==> data[i] == old(data[i])
  {
    forall i | 0 <= i < |s| {
      data[at + i] := s[i];
    }
  }

  // One block: T starts as zeros and takes in U_1, U_2, ...
  method PrfBlock(prf: Prf, nHash: nat, password: bytes, salt: bytes, iterations: nat, i: nat, buf: array<byte>, T: array<byte>)
    requires PrfSize(prf, nHash) && iterations > 0 && i <= G_MAXUINT32
    requires buf != T && buf.Length == |salt| + 4 && T.Length == nHash && buf[..|salt|] == salt
    modifies buf, T
    ensures buf[..|salt|] == salt
    ensures T[..] == F(prf, nHash, password, salt, iterations, i)
  {
    hide Xor;
    forall k | 0 <= k < nHash {
      T[k] := 0;
    }
    var Uj: bytes := [];
    var u := 1;
    while u <= iterations
      invariant 1 <= u <= iterations + 1 && buf[..|salt|] == salt
      invariant u == 1 ==> T[..] == Repeat<byte>(0, nHash)
      invariant u > 1 ==> Uj == U(prf, password, salt, i, u - 1) && T[..] == F(prf, nHash, password, salt, u - 1, i)
    {
      if u == 1 {
        Counter(buf, |salt|, i);
        assert buf[..] == buf[..|salt|] + buf[|salt|..];
        Uj := prf(password, buf[..]);
      } else {
        Uj := prf(password, Uj);
      }
      assert Uj == U(prf, password, salt, i, u);
      XorInto(T, Uj);
      XorZeros(Uj);
      u := u + 1;
    }
  }

  // The four octets of the block number.
  method Counter(buf: array<byte>, at: nat, i: nat)
    requires buf.Length == at + 4 && i <= G_MAXUINT32
    modifies buf
    ensures buf[at..] == ToBytes(i, 4) && buf[..at] == old(buf[..at])
  {
    buf[at + 0] := i / 0x100_0000 % 256;
    buf[at + 1] := i / 0x1_0000 % 256;
    buf[at + 2] := i / 0x100 % 256;
    buf[at + 3] := i % 256;
    FourBytes(i);
  }

  lemma ToBytesNext(x: nat, n: nat)
    ensures ToBytes(x, n + 1) == ToBytes(x / 256, n) + [x % 256] && ToBytes(x, 0) == []
  {
  }

  lemma FourBytes(i: nat)
    ensures ToBytes(i, 4) == [i / 0x100_0000 % 256, i / 0x1_0000 % 256, i / 0x100 % 256, i % 256]
  {
    hide ToBytes;
    var a := i / 256;
    var b := a / 256;
    var c := b / 256;
    assert b == i / 0x1_0000 && c == i / 0x100_0000;
    ToBytesNext(i, 3);
    ToBytesNext(a, 2);
    ToBytesNext(b, 1);
    ToBytesNext(c, 0);
    ToBytesNext(c / 256, 0);
  }

  method XorInto(T: array<byte>, s: bytes)
    requires T.Length == |s|
    modifies T
    ensures T[..] == XorBytes(old(T[..]), s)
  {
    hide XorByte;
    var k := 0;
    while k < T.Length
      invariant 0 <= k <= T.Length
      invariant forall j :: 0 <= j < k ==> T[j] == XorByte(old(T[j]), s[j])
      invariant forall j :: k <= j < T.Length ==> T[j] == old(T[j])
    {
      T[k] := XorByte(T[k], s[k]);
      k := k + 1;
    }
  }
}
