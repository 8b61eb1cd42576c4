// The derivation of keys from PKCS#12 passwords, RFC 7292, appendix B.2, and the plain
// hash derivation of older private keys.
module Pkcs12Kdf {
  import opened Wrappers
  import opened Numbers

  /** Some hash function; only the size of its results matters here. */
  type Hash = bytes -> bytes

  ghost predicate HashSize(h: Hash, hLen: nat) {
    hLen > 0 && forall text: bytes :: |h(text)| == hLen
  }

  // H^r
  function Repeated(h: Hash, text: bytes, r: nat): bytes {
    if r == 0 then text else h(Repeated(h, text, r - 1))
  }

  lemma RepeatedSize(h: Hash, hLen: nat, text: bytes, r: nat)
    requires HashSize(h, hLen) && r > 0
    ensures |Repeated(h, text, r)| == hLen
  {
  }

  // x is what hashing the text and then each hash again gives, r hashes in all.
  ghost predicate HashChain(h: Hash, text: bytes, r: nat, x: bytes) {
    exists hs: seq<bytes> :: |hs| == r + 1 && hs[0] == text && hs[r] == x && forall i :: 0 < i < |hs| ==> hs[i] == h(hs[i - 1])
  }

  lemma {:induction false} RepeatedChain(h: Hash, text: bytes, r: nat)
    ensures HashChain(h, text, r, Repeated(h, text, r))
  {
    if r == 0 {
      var hs := [text];
      assert |hs| == 1 && hs[0] == text;
    } else {
      RepeatedChain(h, text, r - 1);
      var hs: seq<bytes> :| |hs| == r && hs[0] == text && hs[r - 1] == Repeated(h, text, r - 1)
                            && forall i :: 0 < i < |hs| ==> hs[i] == h(hs[i - 1]);
      var more := hs + [Repeated(h, text, r)];
      assert more[r] == h(hs[r - 1]) && more[0] == text;
    }
  }

  // Copies of s one after the other, n octets of them.
  function Copies(s: bytes, n: nat): (r: bytes)
    requires s != []
    ensures |r| == n
  {
    seq(n, i requires 0 <= i < n => s[i % |s|])
  }

  // -------------------------------------------------- RFC 7292, appendix B.2

  // The block size of the hash is v octets: 64 for MD5, SHA-1 and SHA-256, 128 for SHA-384
  // and SHA-512.

  // Step 2 and 3: copies to a multiple of v octets, nothing for the empty string.
  function Stretched(v: nat, s: bytes): bytes
    requires v > 0
  {
    if s == [] then [] else Copies(s, v * BlocksFor(|s|, v))
  }

  // The number a string of octets stands for, the first the most significant, and the
  // string of n octets for its residue.
  function Number(s: bytes): nat {
    Value(256, s)
  }

  function ToOctets(x: nat, n: nat): (s: bytes)
    ensures |s| == n && Number(s) == x % Pow(256, n)
    decreases n
  {
    if n == 0 then
      assert x % 1 == 0;
      []
    else
      ValueSnoc(256, ToOctets(x / 256, n - 1), x % 256);
      Residue(x, Pow(256, n - 1));
      ToOctets(x / 256, n - 1) + [x % 256]
  }

  lemma Residue(x: nat, p: nat)
    requires p > 0
    ensures 256 * (x / 256 % p) + x % 256 == x % (256 * p)
  {
    var q, r := x / 256 / p, x / 256 % p;
    DivModOf(x / 256, p);
    assert x == 256 * (p * q + r) + x % 256;
    Regroup(p, q, r);
    MulLe(256, r + 1, p);
    ModIs(256 * p, x, q, 256 * r + x % 256);
  }

  lemma Regroup(p: nat, q: nat, r: nat)
    ensures 256 * (p * q + r) == 256 * p * q + 256 * r
  {
    MulSwap(256, p, q);
  }

  // Step 6C: every block of I becomes (I_j + B + 1) mod 2^(8v).
  function Bumped(v: nat, I: bytes, B: bytes): bytes
    requires v > 0
    decreases |I|
  {
    if |I| < v then [] else ToOctets(Number(I[..v]) + Number(B) + 1, v) + Bumped(v, I[v..], B)
  }

  // Step 6 and 7: A_1 || ... || A_c
  ghost function Stream(h: Hash, hLen: nat, v: nat, D: bytes, I: bytes, r: nat, c: nat): (s: bytes)
    requires HashSize(h, hLen) && r > 0 && v > 0
    ensures |s| == c * hLen
    decreases c
  {
    if c == 0 then [] else
      RepeatedSize(h, hLen, D + I, r);
      MulNext(c, hLen);
      var A := Repeated(h, D + I, r);
      A + Stream(h, hLen, v, D, Bumped(v, I, Copies(A, v)), r, c - 1)
  }

  // J is I with B + 1 added to each of its blocks, where B is copies of A up to a block.
  ghost predicate Bumps(v: nat, I: bytes, A: bytes, J: bytes)
    requires v > 0
  {
    && A != [] && |J| == |I| / v * v && |J| <= |I|
    && exists B: bytes :: |B| == v && (forall k :: 0 <= k < v ==> B[k] == A[k % |A|])
         && forall at :: 0 <= at && at + v <= |J| && at % v == 0 ==>
              Number(J[at..at + v]) == (Number(I[at..at + v]) + Number(B) + 1) % Pow(256, v)
  }

  lemma {:induction false} BumpedBlocks(v: nat, I: bytes, B: bytes)
    requires v > 0
    ensures var J := Bumped(v, I, B);
            && |J| == |I| / v * v && |J| <= |I|
            && forall at :: 0 <= at && at + v <= |J| && at % v == 0 ==>
                 Number(J[at..at + v]) == (Number(I[at..at + v]) + Number(B) + 1) % Pow(256, v)
    decreases |I|
  {
    hide Number, Pow;
    DivModOf(|I|, v);
    assert v * (|I| / v) == |I| / v * v;
    if |I| < v {
      ModIs(v, |I|, 0, |I|);
    } else {
      var first, rest := ToOctets(Number(I[..v]) + Number(B) + 1, v), Bumped(v, I[v..], B);
      BumpedBlocks(v, I[v..], B);
      OneBlockLess(|I|, v);
      var J := first + rest;
      forall at | 0 <= at && at + v <= |J| && at % v == 0
        ensures Number(J[at..at + v]) == (Number(I[at..at + v]) + Number(B) + 1) % Pow(256, v)
      {
        if at == 0 {
          assert J[0..v] == first && I[0..v] == I[..v];
        } else {
          BlockBefore(at, v);
          Shifted(v, I, first, rest, at);
        }
      }
    }
  }

  lemma Shifted(v: nat, I: bytes, first: bytes, rest: bytes, at: nat)
    requires |first| == v <= at && at + v <= |first| + |rest| && at + v <= |I|
    ensures (first + rest)[at..at + v] == rest[at - v..at - v + v] && I[at..at + v] == I[v..][at - v..at - v + v]
  {
  }

  lemma OneBlockLess(n: nat, v: nat)
    requires n >= v > 0
    ensures n / v * v == v + (n - v) / v * v
  {
    var q, r := (n - v) / v, (n - v) % v;
    DivModOf(n - v, v);
    assert v * (q + 1) == v * q + v == (q + 1) * v;
    ModIs(v, n, q + 1, r);
  }

  lemma BlockBefore(at: nat, v: nat)
    requires v > 0 && at > 0 && at % v == 0
    ensures at >= v && (at - v) % v == 0
  {
    DivModOf(at, v);
    if at < v {
      ModIs(v, at, 0, at);
    }
    var q := at / v;
    assert v * (q - 1) == v * q - v;
    ModIs(v, at - v, q - 1, 0);
  }

  /** The rounds: each hashes D and the current I, r times, and makes the next I. */
  ghost predicate Rounds(h: Hash, v: nat, D: bytes, I: bytes, r: nat, As: seq<bytes>, Is: seq<bytes>)
    requires v > 0
  {
    && |As| == |Is| && (Is != [] ==> Is[0] == I)
    && (forall i :: 0 <= i < |As| ==> HashChain(h, D + Is[i], r, As[i]))
    && forall i :: 0 < i < |As| ==> Bumps(v, Is[i - 1], As[i - 1], Is[i])
  }

  // The stream is what the rounds give, one after the other.
  lemma {:induction false} StreamRounds(h: Hash, hLen: nat, v: nat, D: bytes, I: bytes, r: nat, c: nat) returns (As: seq<bytes>, Is: seq<bytes>)
    requires HashSize(h, hLen) && r > 0 && v > 0
    ensures |As| == c && Rounds(h, v, D, I, r, As, Is)
    ensures forall j :: 0 <= j < c * hLen ==>
              && 0 <= j / hLen < c && 0 <= j % hLen < |As[j / hLen]|
              && Stream(h, hLen, v, D, I, r, c)[j] == As[j / hLen][j % hLen]
    decreases c
  {
    hide Repeated, Bumped, HashChain, Copies, Bumps;
    if c == 0 {
      As, Is := [], [];
    } else {
      RepeatedSize(h, hLen, D + I, r);
      var A := Repeated(h, D + I, r);
      var J := Bumped(v, I, Copies(A, v));
      RepeatedChain(h, D + I, r);
      CopiesBump(v, I, A);
      var as', is' := StreamRounds(h, hLen, v, D, J, r, c - 1);
      As, Is := [A] + as', [I] + is';
      assert forall i :: 0 < i < |As| ==> As[i] == as'[i - 1] && Is[i] == is'[i - 1];
      MulNext(c, hLen);
      forall j | 0 <= j < c * hLen
        ensures 0 <= j / hLen < c && 0 <= j % hLen < |As[j / hLen]| && Stream(h, hLen, v, D, I, r, c)[j] == As[j / hLen][j % hLen]
      {
        if j < hLen {
          ModIs(hLen, j, 0, j);
        } else {
          RoundBefore(j, hLen);
        }
      }
    }
  }

  lemma RoundBefore(j: nat, v: nat)
    requires v > 0 && j >= v
    ensures j / v == (j - v) / v + 1 && j % v == (j - v) % v
  {
    var q, r := (j - v) / v, (j - v) % v;
    DivModOf(j - v, v);
    assert v * (q + 1) == v * q + v;
    ModIs(v, j, q + 1, r);
  }

  lemma CopiesBump(v: nat, I: bytes, A: bytes)
    requires v > 0 && A != []
    ensures Bumps(v, I, A, Bumped(v, I, Copies(A, v)))
  {
    hide Bumped, Number, Pow;
    BumpedBlocks(v, I, Copies(A, v));
  }

  lemma Covers(n: nat, v: nat)
    requires v > 0
    ensures n <= BlocksFor(n, v) * v
    ensures n > 0 ==> BlocksFor(n, v) > 0
    ensures n > v ==> BlocksFor(n, v) > 1
    ensures 0 < n <= v ==> BlocksFor(n, v) == 1
  {
    DivModOf(n, v);
    if n <= v {
      ModIs(v, n, if n == v then 1 else 0, if n == v then 0 else n);
    }
    MulNext(n / v + 1, v);
    assert v * (n / v) == (n / v) * v;
  }

  // Octet number j is the one at that place of what the rounds give one after the other.
  ghost predicate KeyOf(h: Hash, hLen: nat, v: nat, D: bytes, I: bytes, r: nat, key: bytes)
    requires v > 0 && hLen > 0
  {
    exists As, Is :: Rounds(h, v, D, I, r, As, Is) && OctetsOf(As, hLen, key)
  }

  ghost predicate OctetsOf(As: seq<bytes>, hLen: nat, key: bytes)
    requires hLen > 0
  {
    forall j :: 0 <= j < |key| ==>
      0 <= j / hLen < |As| && 0 <= j % hLen < |As[j / hLen]| && key[j] == As[j / hLen][j % hLen]
  }

  lemma StreamIsKey(h: Hash, hLen: nat, v: nat, D: bytes, I: bytes, r: nat, n: nat)
    requires HashSize(h, hLen) && hLen > 0 && r > 0 && v > 0
    ensures n <= BlocksFor(n, hLen) * hLen
    ensures KeyOf(h, hLen, v, D, I, r, Stream(h, hLen, v, D, I, r, BlocksFor(n, hLen))[..n])
  {
    hide Rounds, Stream, BlocksFor, HashSize;
    Covers(n, hLen);
    var As, Is := StreamRounds(h, hLen, v, D, I, r, BlocksFor(n, hLen));
    assert OctetsOf(As, hLen, Stream(h, hLen, v, D, I, r, BlocksFor(n, hLen))[..n]);
  }

  // The copies of s in as many blocks as it takes.
  ghost predicate Fills(v: nat, s: bytes, S: bytes)
    requires v > 0
  {
    if s == [] then S == []
    else |s| <= |S| < |s| + v && |S| % v == 0 && forall k :: 0 <= k < |S| ==> S[k] == s[k % |s|]
  }

  lemma StretchedFills(v: nat, s: bytes)
    requires v > 0
    ensures Fills(v, s, Stretched(v, s))
  {
    if s != [] {
      var n := BlocksFor(|s|, v);
      Covers(|s|, v);
      DivModOf(|s|, v);
      assert v * n == n * v;
      assert v * (|s| / v + 1) == v * (|s| / v) + v;
      ModIs(v, v * n, n, 0);
    }
  }

  /** What appendix B.2 asks for: D is v octets of the identifier, I the salt and the password
      in whole blocks, and the key the first octets of what the rounds give. */
  ghost predicate StandardKey(h: Hash, hLen: nat, v: nat, id: byte, password: bytes, salt: bytes, r: nat, key: bytes)
    requires v > 0 && hLen > 0
  {
    exists D, S, P :: Fills(v, salt, S) && Fills(v, password, P) && Fills(v, [id], D) && KeyOf(h, hLen, v, D, S + P, r, key)
  }

  lemma DerivedIsStandard(h: Hash, hLen: nat, v: nat, id: byte, password: bytes, salt: bytes, r: nat, n: nat)
    requires HashSize(h, hLen) && hLen > 0 && r > 0 && v > 0
    ensures StandardKey(h, hLen, v, id, password, salt, r, Derived(h, hLen, v, id, password, salt, r, n))
  {
    hide KeyOf, Stream, HashSize, BlocksFor;
    StretchedFills(v, salt);
    StretchedFills(v, password);
    IdentifierFills(v, id);
    StreamIsKey(h, hLen, v, Copies([id], v), Stretched(v, salt) + Stretched(v, password), r, n);
  }

  lemma IdentifierFills(v: nat, id: byte)
    requires v > 0
    ensures Fills(v, [id], Copies([id], v))
  {
    ModIs(v, v, 1, 0);
  }

  // The first n octets for diversifier `id`, password and salt.
  ghost function Derived(h: Hash, hLen: nat, v: nat, id: byte, password: bytes, salt: bytes, r: nat, n: nat): (s: bytes)
    requires HashSize(h, hLen) && r > 0 && v > 0
    ensures |s| == n
  {
    Covers(n, hLen);
    Stream(h, hLen, v, Copies([id], v), Stretched(v, salt) + Stretched(v, password), r, BlocksFor(n, hLen))[..n]
  }

  // ---------------------------------------------------------------- the code

  // The code works with blocks of 64 octets, whatever the hash is.
  const V: nat := 64

  // The octets a password takes as 16-bit characters with their terminator.
  function Bmp(chars: seq<nat>): (s: bytes)
    ensures |s| == 2 * |chars| + 2
  {
    if chars == [] then [0, 0] else BmpChar(chars[0]) + Bmp(chars[1..])
  }

  function BmpChar(unich: nat): bytes {
    [unich / 256 % 256, unich % 256]
  }

  // The first block, from the salt; without a salt, zeros.
  method SaltBlock(bufI: array<byte>, salt: Option<bytes>)
    requires bufI.Length == 128 && (salt.Some? ==> salt.value != [])
    modifies bufI
    ensures bufI[..64] == Copies(if salt.Some? then salt.value else [0], V)
  {
    var i := 0;
    if salt.Some? {
      while i < 64
        invariant 0 <= i <= 64
        invariant forall k :: 0 <= k < i ==> bufI[k] == salt.value[k % |salt.value|]
      {
        bufI[i] := salt.value[i % |salt.value|];
        i := i + 1;
      }
    } else {
      while i < 64
        invariant 0 <= i <= 64
        invariant forall k :: 0 <= k < i ==> bufI[k] == 0
      {
        bufI[i] := 0;
        i := i + 1;
      }
    }
  }

  lemma {:induction false} BmpAt(chars: seq<nat>, k: nat)
    requires k <= |chars|
    ensures Bmp(chars)[2 * k..2 * k + 2] == BmpChar(if k < |chars| then chars[k] else 0)
  {
    if k > 0 {
      BmpAt(chars[1..], k - 1);
      assert Bmp(chars)[2..] == Bmp(chars[1..]);
      assert Bmp(chars)[2 * k..2 * k + 2] == Bmp(chars)[2..][2 * (k - 1)..2 * (k - 1) + 2];
    }
  }

  // The second block, from the password: its characters and a zero, over and over.
  method PasswordBlock(bufI: array<byte>, chars: seq<nat>)
    requires bufI.Length == 128
    modifies bufI
    ensures bufI[64..] == Copies(Bmp(chars), V) && bufI[..64] == old(bufI[..64])
  {
    hide Bmp, BmpChar;
    var i, p2, n := 0, 0, 2 * |chars| + 2;
    while i < 64
      invariant 0 <= i <= 64 && i % 2 == 0 && 0 <= p2 <= |chars| && i % n == 2 * p2
      invariant bufI[..64] == old(bufI[..64])
      invariant forall k :: 0 <= k < i ==> bufI[64 + k] == Bmp(chars)[k % n]
    {
      BmpAt(chars, p2);
      var unich := 0;
      var next := 0;
      if p2 < |chars| {
        unich := chars[p2];
        next := p2 + 1;
      }
      Turn(i, n, 2 * p2);
      bufI[64 + i] := unich / 256 % 256;
      bufI[64 + i + 1] := unich % 256;
      CharAt(unich);
      assert Bmp(chars)[2 * p2..2 * p2 + 2][0] == Bmp(chars)[2 * p2];
      assert Bmp(chars)[2 * p2..2 * p2 + 2][1] == Bmp(chars)[2 * p2 + 1];
      p2 := next;
      i := i + 2;
    }
  }

  lemma CharAt(unich: nat)
    ensures BmpChar(unich) == [unich / 256 % 256, unich % 256]
  {
  }

  lemma Turn(i: nat, n: nat, r: nat)
    requires n >= 2 && r + 2 <= n && i % n == r
    ensures (i + 1) % n == r + 1
    ensures (i + 2) % n == if r + 2 == n then 0 else r + 2
  {
    var q := i / n;
    DivModOf(i, n);
    ModIs(n, i + 1, q, r + 1);
    if r + 2 == n {
      assert n * (q + 1) == n * q + n;
      ModIs(n, i + 2, q + 1, 0);
    } else {
      ModIs(n, i + 2, q, r + 2);
    }
  }

  // ---- I_j + B + 1, right-aligned in its 64 octets

  // gcry_mpi_print: the octets of a number without leading zeros
  function Printed(x: nat): (s: bytes)
    ensures |s| == |Digits(256, x)| && Number(s) == x
  {
    DigitsValue(256, x);
    var d := Digits(256, x);
    var s: bytes := seq(|d|, i requires 0 <= i < |d| => d[i]);
    assert s == d;
    s
  }

  lemma SameNumber(s: bytes, t: bytes)
    requires |s| == |t| && Number(s) == Number(t)
    ensures s == t
  {
    ValueInjective(256, s, t);
  }

  lemma RightAligned(x: nat, n: nat)
    requires x < Pow(256, n)
    ensures |Printed(x)| <= n && Repeat<byte>(0, n - |Printed(x)|) + Printed(x) == ToOctets(x, n)
  {
    DigitsLength(256, x, n);
    var zeros := Repeat<byte>(0, n - |Printed(x)|);
    ValueAppend(256, zeros, Printed(x));
    ValueZeros(256, zeros);
    ModIs(Pow(256, n), x, 0, x);
    SameNumber(zeros + Printed(x), ToOctets(x, n));
  }

  lemma ResidueOctets(x: nat, n: nat)
    ensures ToOctets(x % Pow(256, n), n) == ToOctets(x, n)
  {
    var p := Pow(256, n);
    DivModOf(x, p);
    ModIs(p, x % p, 0, x % p);
    SameNumber(ToOctets(x % p, n), ToOctets(x, n));
  }

  method PutAt(data: array<byte>, at: nat, s: bytes)
    requires at + |s| <= data.Length
    modifies data
    ensures data[at..at + |s|] == s && data[..at] == old(data[..at]) && data[at + |s|..] == old(data[at + |s|..])
  {
    forall i | 0 <= i < |s| {
      data[at + i] := s[i];
    }
  }

  // One block of the buffer.
  method AddToBlock(bufI: array<byte>, i: nat, numB1: nat)
    requires i + 64 <= bufI.Length
    modifies bufI
    ensures bufI[i..i + 64] == ToOctets(Number(old(bufI[i..i + 64])) + numB1, V)
    ensures bufI[..i] == old(bufI[..i]) && bufI[i + 64..] == old(bufI[i + 64..])
  {
    hide ToOctets, Number, Printed, Repeat, Pow;
    var numIj := Number(bufI[i..i + 64]);
    numIj := numIj + numB1;
    ResidueOctets(numIj, V);
    numIj := Reduced(numIj);
    RightAligned(numIj, V);
    var length := |Printed(numIj)|;
    ZerosSize(64 - length);
    PutAt(bufI, i, Repeat<byte>(0, 64 - length) + Printed(numIj));
  }

  lemma ZerosSize(n: nat)
    ensures |Repeat<byte>(0, n)| == n
  {
  }

  // gcry_mpi_clear_highbit: drop the bits from 512 on
  function Reduced(x: nat): (y: nat)
    ensures y == x % Pow(256, V) && y < Pow(256, V)
  {
    DivModOf(x, Pow(256, V));
    x % Pow(256, V)
  }

  // B, from the hash.
  method FillB(hash: bytes) returns (bufB: array<byte>)
    requires hash != []
    ensures fresh(bufB) && bufB[..] == Copies(hash, V)
  {
    bufB := new byte[64](_ => 0);
    var k := 0;
    while k < 64
      invariant 0 <= k <= 64 && forall j :: 0 <= j < k ==> bufB[j] == hash[j % |hash|]
    {
      bufB[k] := hash[k % |hash|];
      k := k + 1;
    }
  }

  // Both blocks of the buffer, of which the first `used` octets are I.
  method Bump(bufI: array<byte>, used: nat, hash: bytes)
    requires bufI.Length == 128 && hash != [] && (used == 64 || used == 128)
    modifies bufI
    ensures bufI[..used] == Bumped(V, old(bufI[..used]), Copies(hash, V))
  {
    hide ToOctets, Number, Copies, Bumped;
    var bufB := FillB(hash);
    ghost var B, first, second := bufB[..], bufI[..64], bufI[64..];
    assert bufI[..128] == first + second;
    AddToBoth(bufI, Number(bufB[..]) + 1);
    BumpedOne(first, [], B);
    BumpedOne(first, second, B);
    BumpedOne(second, [], B);
    assert first + [] == first && second + [] == second;
    assert bufI[..128] == bufI[..64] + bufI[64..];
  }

  method AddToBoth(bufI: array<byte>, numB1: nat)
    requires bufI.Length == 128
    modifies bufI
    ensures bufI[..64] == ToOctets(Number(old(bufI[..64])) + numB1, V)
    ensures bufI[64..] == ToOctets(Number(old(bufI[64..])) + numB1, V)
  {
    hide ToOctets, Number;
    ghost var first, second := bufI[..64], bufI[64..];
    assert bufI[0..64] == first && bufI[64..128] == second;
    AddToBlock(bufI, 0, numB1);
    assert bufI[0..64] == bufI[..64] && bufI[64..128] == bufI[64..];
    AddToBlock(bufI, 64, numB1);
    assert bufI[64..128] == bufI[64..];
  }

  lemma BumpedOne(first: bytes, rest: bytes, B: bytes)
    requires |first| == V
    ensures Bumped(V, first + rest, B) == ToOctets(Number(first) + (Number(B) + 1), V) + Bumped(V, rest, B)
    ensures Bumped(V, [], B) == []
    ensures ToOctets(Number(first) + (Number(B) + 1), V) + [] == ToOctets(Number(first) + (Number(B) + 1), V)
  {
    hide ToOctets, Number;
    assert (first + rest)[..V] == first && (first + rest)[V..] == rest;
  }

  // ---- the rounds

  // What the rounds leave in the output, n octets of it.
  ghost function Taken(h: Hash, hLen: nat, D: bytes, I: bytes, r: nat, n: nat): (s: bytes)
    requires HashSize(h, hLen) && r > 0
    ensures |s| == n
    decreases n
  {
    RepeatedSize(h, hLen, D + I, r);
    var A := Repeated(h, D + I, r);
    if n <= hLen then A[..n] else A + Taken(h, hLen, D, Bumped(V, I, Copies(A, V)), r, n - hLen)
  }

  lemma {:induction false} TakenIsStream(h: Hash, hLen: nat, D: bytes, I: bytes, r: nat, n: nat)
    requires HashSize(h, hLen) && r > 0
    ensures n <= BlocksFor(n, hLen) * hLen
    ensures Taken(h, hLen, D, I, r, n) == Stream(h, hLen, V, D, I, r, BlocksFor(n, hLen))[..n]
    decreases n
  {
    hide Repeated, Bumped, Copies, BlocksFor;
    Covers(n, hLen);
    RepeatedSize(h, hLen, D + I, r);
    var A := Repeated(h, D + I, r);
    if n > hLen {
      TakenIsStream(h, hLen, D, Bumped(V, I, Copies(A, V)), r, n - hLen);
      OneMore(n, hLen);
      var rest := Stream(h, hLen, V, D, Bumped(V, I, Copies(A, V)), r, BlocksFor(n - hLen, hLen));
      assert (A + rest)[..n] == A + rest[..n - hLen];
    } else if n > 0 {
      var rest := Stream(h, hLen, V, D, Bumped(V, I, Copies(A, V)), r, 0);
      assert (A + rest)[..n] == A[..n];
    }
  }

  lemma OneMore(n: nat, v: nat)
    requires n > v > 0
    ensures BlocksFor(n, v) == BlocksFor(n - v, v) + 1
  {
    var q, r := (n - v) / v, (n - v) % v;
    DivModOf(n - v, v);
    assert v * (q + 1) == v * q + v;
    ModIs(v, n, q + 1, r);
  }

  // What the buffer holds at the start.
  function Initial(salt: Option<bytes>, password: Option<seq<nat>>): bytes
    requires salt.Some? ==> salt.value != []
  {
    Copies(if salt.Some? then salt.value else [0], V)
    + if password.Some? then Copies(Bmp(password.value), V) else []
  }

  // The buffer of two blocks, and how many octets of it are hashed.
  method FillBuffer(salt: Option<bytes>, password: Option<seq<nat>>) returns (bufI: array<byte>, used: nat)
    requires salt.Some? ==> salt.value != []
    ensures fresh(bufI) && bufI.Length == 128 && used == (if password.Some? then 128 else 64)
    ensures bufI[..used] == Initial(salt, password)
  {
    hide Copies, Bmp;
    bufI := new byte[128](_ => 0);
    SaltBlock(bufI, salt);
    used := 64;
    ghost var first := bufI[..64];
    assert first + [] == first;
    if password.Some? {
      PasswordBlock(bufI, password.value);
      used := 128;
      assert bufI[..128] == bufI[..64] + bufI[64..];
    }
  }

  lemma HashSome(h: Hash, hLen: nat)
    requires HashSize(h, hLen)
    ensures hLen > 0
  {
  }

  // The octets of the characters, the high one first, and of a zero after them.
  function PasswordOctet(chars: seq<nat>, k: nat): byte {
    var unich := if k / 2 < |chars| then chars[k / 2] else 0;
    if k % 2 == 0 then unich / 256 % 256 else unich % 256
  }

  lemma {:induction false} BmpOctet(chars: seq<nat>, k: nat)
    requires k < 2 * |chars| + 2
    ensures Bmp(chars)[k] == PasswordOctet(chars, k)
  {
    if k >= 2 && chars != [] {
      BmpOctet(chars[1..], k - 2);
    }
  }

  /** What the code makes: the same rounds on blocks of 64 octets, with one block of the salt,
      or of zeros, and one of the password, if there is one. */
  ghost predicate CodeKey(h: Hash, hLen: nat, id: byte, password: Option<seq<nat>>, salt: Option<bytes>, r: nat, key: bytes)
    requires hLen > 0
  {
    exists D, I ::
      && |D| == 64 && (forall k :: 0 <= k < 64 ==> D[k] == id)
      && |I| == (if password.Some? then 128 else 64)
      && (salt.Some? ==> salt.value != [])
      && (forall k :: 0 <= k < 64 ==> I[k] == if salt.Some? then salt.value[k % |salt.value|] else 0)
      && (password.Some? ==> forall k :: 64 <= k < 128 ==> I[k] == PasswordOctet(password.value, (k - 64) % (2 * |password.value| + 2)))
      && KeyOf(h, hLen, 64, D, I, r, key)
  }

  lemma TakenIsCodeKey(h: Hash, hLen: nat, id: byte, password: Option<seq<nat>>, salt: Option<bytes>, r: nat, n: nat)
    requires HashSize(h, hLen) && hLen > 0 && r > 0 && (salt.Some? ==> salt.value != [])
    ensures CodeKey(h, hLen, id, password, salt, r, Taken(h, hLen, Copies([id], V), Initial(salt, password), r, n))
  {
    hide KeyOf, Stream, HashSize, BlocksFor, Taken, Bmp, PasswordOctet;
    var D, I := Copies([id], V), Initial(salt, password);
    TakenIsStream(h, hLen, D, I, r, n);
    StreamIsKey(h, hLen, V, D, I, r, n);
    forall k | 0 <= k < 64 ensures I[k] == if salt.Some? then salt.value[k % |salt.value|] else 0 {
      assert salt == None ==> [0][k % 1] == 0;
    }
    if password.Some? {
      forall k | 64 <= k < 128 ensures I[k] == PasswordOctet(password.value, (k - 64) % (2 * |password.value| + 2)) {
        BmpOctet(password.value, (k - 64) % (2 * |password.value| + 2));
      }
    }
  }

  // generate_pkcs12: a salt that is there but empty makes it divide by zero
  method GeneratePkcs12(h: Hash, nHash: nat, id: byte, password: Option<seq<nat>>, salt: Option<bytes>, iterations: nat,
                        output: array<byte>) returns (dividesByZero: bool)
    requires HashSize(h, nHash) && iterations > 0
    modifies output
    ensures dividesByZero <==> salt == Some([])
    ensures !dividesByZero ==> output[..] == Taken(h, nHash, Copies([id], V), Initial(salt, password), iterations, output.Length)
    ensures nHash > 0 && (!dividesByZero ==> CodeKey(h, nHash, id, password, salt, iterations, output[..]))
  {
    hide Repeated, Bumped, Copies, Taken, Initial, HashSize, BlocksFor, Number, ToOctets, CodeKey;
    assert nHash > 0 by { HashSome(h, nHash); }
    if salt.Some? && |salt.value| == 0 {
      return true;
    }
    dividesByZero := false;
    var bufI, used := FillBuffer(salt, password);
    var D := SixtyFour(id);
    HashAndBash(h, nHash, D, bufI, used, iterations, output);
    TakenIsCodeKey(h, nHash, id, password, salt, iterations, output.Length);
  }

  // The rounds: hash, take out what is needed, change the buffer.
  method HashAndBash(h: Hash, nHash: nat, D: bytes, bufI: array<byte>, used: nat, iterations: nat, output: array<byte>)
    requires HashSize(h, nHash) && nHash > 0 && iterations > 0
    requires bufI.Length == 128 && (used == 64 || used == 128) && bufI != output
    modifies bufI, output
    ensures output[..] == Taken(h, nHash, D, old(bufI[..used]), iterations, output.Length)
  {
    hide Repeated, Bumped, Copies, Taken, HashSize, BlocksFor, Number, ToOctets;
    ghost var I := bufI[..used];
    ghost var all := Taken(h, nHash, D, I, iterations, output.Length);
    var at := 0;
    while true
      invariant bufI[..used] == I && 0 <= at <= output.Length
      invariant output[..at] + Taken(h, nHash, D, I, iterations, output.Length - at) == all
      decreases output.Length - at
    {
      TakenNext(h, nHash, D, I, iterations, output.Length - at, output[..at]);
      var hash := HashRounds(h, D + bufI[..used], iterations);
      at := TakeOut(output, at, hash);
      if at == output.Length {
        break;
      }
      Bump(bufI, used, hash);
      I := Bumped(V, I, Copies(hash, V));
    }
    assert output[..] == output[..at];
  }

  // The hash goes to the output as far as there is room.
  method TakeOut(output: array<byte>, at: nat, hash: bytes) returns (at': nat)
    requires at <= output.Length
    modifies output
    ensures at' == if |hash| < output.Length - at then at + |hash| else output.Length
    ensures output[..at'] == old(output[..at]) + hash[..at' - at]
  {
    var take := if |hash| < output.Length - at then |hash| else output.Length - at;
    PutAt(output, at, hash[..take]);
    at' := at + take;
    assert output[..at'] == output[..at] + output[at..at + take];
  }

  lemma TakenNext(h: Hash, hLen: nat, D: bytes, I: bytes, r: nat, n: nat, front: bytes)
    requires HashSize(h, hLen) && r > 0
    ensures |Repeated(h, D + I, r)| == hLen
    ensures var A := Repeated(h, D + I, r);
            front + Taken(h, hLen, D, I, r, n) ==
              if n <= hLen then front + A[..n]
              else front + A[..hLen] + Taken(h, hLen, D, Bumped(V, I, Copies(A, V)), r, n - hLen)
  {
    hide Repeated, Bumped, Copies;
    RepeatedSize(h, hLen, D + I, r);
    var A := Repeated(h, D + I, r);
    assert A[..hLen] == A;
    if n > hLen {
      var rest := Taken(h, hLen, D, Bumped(V, I, Copies(A, V)), r, n - hLen);
      assert front + (A + rest) == front + A + rest;
    }
  }

  method SixtyFour(id: byte) returns (D: bytes)
    ensures D == Copies([id], V)
  {
    D := [];
    var i := 0;
    while i < 64
      invariant 0 <= i <= 64 && |D| == i && forall k :: 0 <= k < i ==> D[k] == id
    {
      D := D + [id];
      i := i + 1;
    }
    assert forall k :: 0 <= k < 64 ==> Copies([id], V)[k] == id;
  }

  // One hash of the text and then iterations - 1 of the hash.
  method HashRounds(h: Hash, text: bytes, iterations: nat) returns (hash: bytes)
    requires iterations > 0
    ensures hash == Repeated(h, text, iterations)
  {
    hash := h(text);
    var i := 1;
    assert Repeated(h, text, 1) == h(Repeated(h, text, 0));
    while i < iterations
      invariant 1 <= i <= iterations && hash == Repeated(h, text, i)
    {
      hash := h(hash);
      i := i + 1;
    }
  }

  // --------------------------------------------------------- code and standard

  ghost predicate OneBlockEach(salt: bytes, password: Option<seq<nat>>) {
    |salt| <= V && (password.Some? ==> |Bmp(password.value)| <= V)
  }

  // The password string of the standard: nothing at all when there is no password.
  function PasswordString(password: Option<seq<nat>>): bytes {
    if password.Some? then Bmp(password.value) else []
  }

  lemma StretchedSize(s: bytes)
    requires s != []
    ensures |Stretched(V, s)| >= V && (|Stretched(V, s)| == V <==> |s| <= V)
    ensures |s| <= V ==> Stretched(V, s) == Copies(s, V)
  {
    hide Copies, BlocksFor;
    Covers(|s|, V);
  }

  // What the standard hashes in the first round for blocks of v octets.
  function StandardText(v: nat, id: byte, password: Option<seq<nat>>, salt: bytes): bytes
    requires v > 0
  {
    Copies([id], v) + (Stretched(v, salt) + Stretched(v, PasswordString(password)))
  }

  // ... and what the code hashes.
  function CodeText(id: byte, password: Option<seq<nat>>, salt: Option<bytes>): bytes
    requires salt.Some? ==> salt.value != []
  {
    Copies([id], V) + Initial(salt, password)
  }

  lemma SameFront(D: bytes, I: bytes, J: bytes)
    ensures D + I == D + J <==> I == J
  {
    assert (D + I)[|D|..] == I && (D + J)[|D|..] == J;
  }

  // With a salt the code hashes what the standard does exactly when the hash works on
  // blocks of 64 octets and salt and password string fit in one of them each.
  lemma InitialIsStandard(v: nat, id: byte, salt: bytes, password: Option<seq<nat>>)
    requires v >= V && salt != []
    ensures CodeText(id, password, Some(salt)) == StandardText(v, id, password, salt) <==>
              v == V && OneBlockEach(salt, password)
  {
    hide Copies, Bmp;
    if v > V {
      LongerText(v, salt, password);
    } else {
      StretchedSize(salt);
      var s, p := Stretched(V, salt), Stretched(V, PasswordString(password));
      SameFront(Copies([id], V), Initial(Some(salt), password), s + p);
      assert |Initial(Some(salt), password)| == if password.Some? then 2 * V else V;
      if password.Some? {
        StretchedSize(Bmp(password.value));
      } else {
        assert p == [];
      }
    }
  }

  lemma LongerText(v: nat, salt: bytes, password: Option<seq<nat>>)
    requires v > V && salt != []
    ensures |Stretched(v, salt) + Stretched(v, PasswordString(password))| > |Initial(Some(salt), password)|
  {
    hide Copies, Bmp, BlocksFor;
    AtLeastOne(v, salt);
    if password.Some? {
      AtLeastOne(v, Bmp(password.value));
    }
  }

  lemma AtLeastOne(v: nat, s: bytes)
    requires v > 0 && s != []
    ensures |Stretched(v, s)| >= v
  {
    hide Copies, BlocksFor;
    Covers(|s|, v);
    MulLe(v, 1, BlocksFor(|s|, v));
  }

  // Without a salt it hashes a block of zeros where the standard has nothing.
  lemma NoSaltIsStandard(v: nat, id: byte, password: Option<seq<nat>>)
    requires v >= V && id > 0
    ensures CodeText(id, password, None) == StandardText(v, id, password, []) <==> v == V && TwoBlocksOfZeros(password)
  {
    hide Bmp;
    if v > V {
      ZeroNext(v, id, password);
    } else {
      var I := Initial(None, password);
      SameFront(Copies([id], V), I, Stretched(V, []) + Stretched(V, PasswordString(password)));
      NoSaltBlocks(password);
    }
  }

  // The octet after the first 64 is the identifier in the one and zero in the other.
  lemma ZeroNext(v: nat, id: byte, password: Option<seq<nat>>)
    requires v > V && id > 0
    ensures CodeText(id, password, None)[V] == 0
    ensures StandardText(v, id, password, [])[V] == id
  {
    hide Bmp, Stretched;
    assert CodeText(id, password, None)[V] == Initial(None, password)[0] == Copies([0], V)[0];
    assert StandardText(v, id, password, [])[V] == Copies([id], v)[V];
  }

  lemma NoSaltBlocks(password: Option<seq<nat>>)
    ensures Initial(None, password) == Stretched(V, []) + Stretched(V, PasswordString(password)) <==> TwoBlocksOfZeros(password)
  {
    hide Bmp, Copies;
    var I := Initial(None, password);
    if password == None {
      assert |I| == V;
    } else {
      var s := Bmp(password.value);
      assert I == Copies([0], V) + Copies(s, V);
      assert [] + Stretched(V, s) == Stretched(V, s);
      StretchedTwice(s);
      if V < |s| <= 2 * V {
        ZerosTwice(s);
      }
    }
  }

  // The only password for which this makes no difference: more than one block and at most
  // two, of nothing but zeros.
  predicate TwoBlocksOfZeros(password: Option<seq<nat>>) {
    password.Some? && V < |Bmp(password.value)| <= 2 * V && AllZero(Bmp(password.value))
  }

  predicate AllZero(s: bytes) {
    forall i :: 0 <= i < |s| ==> s[i] == 0
  }

  lemma StretchedTwice(s: bytes)
    requires s != []
    ensures |Stretched(V, s)| == 2 * V <==> V < |s| <= 2 * V
    ensures V < |s| <= 2 * V ==> Stretched(V, s) == Copies(s, 2 * V)
  {
    hide Copies;
    var q := |s| / V;
    DivModOf(|s|, V);
    assert BlocksFor(|s|, V) == if |s| % V == 0 then q else q + 1;
  }

  lemma CopiesFront(s: bytes, n: nat, k: nat)
    requires k < n && k < |s|
    ensures Copies(s, n)[k] == s[k]
  {
    ModIs(|s|, k, 0, k);
  }

  lemma CopiesOfZeros(s: bytes, n: nat)
    requires s != [] && AllZero(s)
    ensures Copies(s, n) == Repeat<byte>(0, n)
  {
    forall k | 0 <= k < n ensures Copies(s, n)[k] == 0 {
      DivModOf(k, |s|);
    }
  }

  lemma ZerosTwice(s: bytes)
    requires V < |s| <= 2 * V
    ensures Copies([0], V) + Copies(s, V) == Copies(s, 2 * V) <==> AllZero(s)
  {
    hide Copies;
    var two, one := Copies(s, 2 * V), Copies(s, V);
    CopiesOfZeros([0], V);
    if Copies([0], V) + one == two {
      forall k | 0 <= k < |s| ensures s[k] == 0 {
        CopiesFront(s, 2 * V, k);
        if k >= V {
          CopiesFront(s, V, k - V);
          CopiesFront(s, 2 * V, k - V);
          assert two[k] == one[k - V] == two[k - V];
        }
      }
    }
    if AllZero(s) {
      CopiesOfZeros(s, V);
      CopiesOfZeros(s, 2 * V);
      assert Repeat<byte>(0, V) + Repeat<byte>(0, V) == Repeat<byte>(0, 2 * V);
    }
  }

  // No password and no salt: a block of zeros is hashed where the standard hashes nothing.
  lemma NoSaltExample()
    ensures Initial(None, None) != Stretched(V, []) + Stretched(V, PasswordString(None))
    ensures Initial(None, None) == Repeat<byte>(0, V)
  {
    NoSaltBlocks(None);
    assert forall i :: 0 <= i < V ==> Copies([0], V)[i] == 0;
  }

  // ---- other strings to hash mean another key, for some hash

  // Sends a, and what it makes of a, to one string, and everything else to another.
  function TellingApart(a: bytes, c: bytes, d: bytes): Hash {
    (text: bytes) => if text == a || text == c then c else d
  }

  lemma {:induction false} ToldApart(a: bytes, b: bytes, c: bytes, d: bytes, r: nat)
    requires a != b && c != d && b != c && d != a && r > 0
    ensures Repeated(TellingApart(a, c, d), a, r) == c && Repeated(TellingApart(a, c, d), b, r) == d
  {
    if r > 1 {
      ToldApart(a, b, c, d, r - 1);
    } else {
      assert Repeated(TellingApart(a, c, d), a, 0) == a && Repeated(TellingApart(a, c, d), b, 0) == b;
    }
  }

  // Two strings of n equal octets that are neither a nor b.
  lemma OtherThan(a: bytes, b: bytes, n: nat) returns (x: byte, y: byte)
    requires n > 0
    ensures x != y && Repeat<byte>(x, n) != a && Repeat<byte>(x, n) != b && Repeat<byte>(y, n) != a && Repeat<byte>(y, n) != b
  {
    assert forall z: byte :: Repeat<byte>(z, n)[0] == z;
    x := if Repeat<byte>(0, n) != a && Repeat<byte>(0, n) != b then 0 else if Repeat<byte>(1, n) != a && Repeat<byte>(1, n) != b then 1 else 2;
    y := if x != 1 && Repeat<byte>(1, n) != a && Repeat<byte>(1, n) != b then 1
         else if x != 2 && Repeat<byte>(2, n) != a && Repeat<byte>(2, n) != b then 2 else 3;
  }

  lemma TakenFirst(h: Hash, hLen: nat, D: bytes, I: bytes, r: nat, n: nat)
    requires HashSize(h, hLen) && r > 0 && n > 0
    ensures |Repeated(h, D + I, r)| == hLen > 0 && Taken(h, hLen, D, I, r, n)[0] == Repeated(h, D + I, r)[0]
  {
    RepeatedSize(h, hLen, D + I, r);
  }

  lemma StreamFirst(h: Hash, hLen: nat, v: nat, D: bytes, I: bytes, r: nat, n: nat)
    requires HashSize(h, hLen) && r > 0 && n > 0 && v > 0
    ensures n <= |Stream(h, hLen, v, D, I, r, BlocksFor(n, hLen))|
    ensures |Repeated(h, D + I, r)| == hLen > 0
    ensures Stream(h, hLen, v, D, I, r, BlocksFor(n, hLen))[..n][0] == Repeated(h, D + I, r)[0]
  {
    hide Bumped, Copies, BlocksFor;
    Covers(n, hLen);
    RepeatedSize(h, hLen, D + I, r);
  }

  // The key of the code is the standard's, whatever the hash is.
  ghost predicate IsStandard(nHash: nat, v: nat, id: byte, password: Option<seq<nat>>, salt: Option<bytes>, r: nat, n: nat)
    requires r > 0 && v > 0 && (salt.Some? ==> salt.value != [])
  {
    forall h: Hash | HashSize(h, nHash) ::
      Taken(h, nHash, Copies([id], V), Initial(salt, password), r, n)
      == Derived(h, nHash, v, id, PasswordString(password), SaltString(salt), r, n)
  }

  function SaltString(salt: Option<bytes>): bytes {
    if salt.Some? then salt.value else []
  }

  // For blocks of 64 octets the keys are the same when what is hashed is.
  lemma SameText(nHash: nat, id: byte, password: Option<seq<nat>>, salt: Option<bytes>, r: nat, n: nat)
    requires r > 0 && (salt.Some? ==> salt.value != [])
    requires CodeText(id, password, salt) == StandardText(V, id, password, SaltString(salt))
    ensures IsStandard(nHash, V, id, password, salt, r, n)
  {
    hide Copies, Initial, Stretched, Stream, Taken, PasswordString;
    var J := Stretched(V, SaltString(salt)) + Stretched(V, PasswordString(password));
    SameFront(Copies([id], V), Initial(salt, password), J);
    forall h: Hash | HashSize(h, nHash)
      ensures Derived(h, nHash, V, id, PasswordString(password), SaltString(salt), r, n)
              == Taken(h, nHash, Copies([id], V), J, r, n)
    {
      TakenIsStream(h, nHash, Copies([id], V), J, r, n);
    }
  }

  // For other texts some hash tells them apart in the first octet already.
  lemma OtherText(nHash: nat, v: nat, id: byte, password: Option<seq<nat>>, salt: Option<bytes>, r: nat, n: nat)
    requires nHash > 0 && r > 0 && n > 0 && v > 0 && (salt.Some? ==> salt.value != [])
    requires CodeText(id, password, salt) != StandardText(v, id, password, SaltString(salt))
    ensures !IsStandard(nHash, v, id, password, salt, r, n)
  {
    hide Copies, Taken, Repeated, Stream, Stretched, Initial, PasswordString, BlocksFor;
    var D, I := Copies([id], V), Initial(salt, password);
    var E, J := Copies([id], v), Stretched(v, SaltString(salt)) + Stretched(v, PasswordString(password));
    var x, y := OtherThan(D + I, E + J, nHash);
    var h := TellingApart(D + I, Repeat<byte>(x, nHash), Repeat<byte>(y, nHash));
    assert Repeat<byte>(x, nHash)[0] == x && Repeat<byte>(y, nHash)[0] == y;
    ToldApart(D + I, E + J, Repeat<byte>(x, nHash), Repeat<byte>(y, nHash), r);
    assert HashSize(h, nHash);
    TakenFirst(h, nHash, D, I, r, n);
    StreamFirst(h, nHash, v, E, J, r, n);
    assert Derived(h, nHash, v, id, PasswordString(password), SaltString(salt), r, n)
           == Stream(h, nHash, v, E, J, r, BlocksFor(n, nHash))[..n];
  }

  // With a salt the key is that of RFC 7292, whatever the hash is, for one output length or
  // every other, exactly when the hash works on blocks of 64 octets and salt and password
  // string fit in one of them each.
  lemma StandardKeyIff(nHash: nat, v: nat, id: byte, password: Option<seq<nat>>, salt: bytes, r: nat, n: nat)
    requires nHash > 0 && r > 0 && n > 0 && v >= V && salt != []
    ensures IsStandard(nHash, v, id, password, Some(salt), r, n) <==> v == V && OneBlockEach(salt, password)
  {
    hide CodeText, StandardText, IsStandard;
    InitialIsStandard(v, id, salt, password);
    if v == V && OneBlockEach(salt, password) {
      SameText(nHash, id, password, Some(salt), r, n);
    } else {
      OtherText(nHash, v, id, password, Some(salt), r, n);
    }
  }

  // Without one it is not, but for a password of zeros that takes two blocks of 64 octets.
  lemma NoSaltKeyIff(nHash: nat, v: nat, id: byte, password: Option<seq<nat>>, r: nat, n: nat)
    requires nHash > 0 && r > 0 && n > 0 && v >= V && id > 0
    ensures IsStandard(nHash, v, id, password, None, r, n) <==> v == V && TwoBlocksOfZeros(password)
  {
    hide CodeText, StandardText, IsStandard;
    NoSaltIsStandard(v, id, password);
    if v == V && TwoBlocksOfZeros(password) {
      SameText(nHash, id, password, None, r, n);
    } else {
      OtherText(nHash, v, id, password, None, r, n);
    }
  }

  // Without a salt the key is that for a salt of zeros.
  lemma NoSaltIsZeros(password: Option<seq<nat>>)
    ensures Initial(None, password) == Initial(Some(Repeat<byte>(0, V)), password)
  {
    hide Bmp;
    forall i | 0 <= i < V ensures Copies([0], V)[i] == Copies(Repeat<byte>(0, V), V)[i] {
      assert Copies([0], V)[i] == [0][i % 1] == 0;
    }
    assert Copies([0], V) == Copies(Repeat<byte>(0, V), V);
  }
}
