// A key and an initialization vector from a password by plain hashing, as older private
// keys have it: hash, and hash again with the last digest in front until there is enough.
module SimpleKdf {
  import opened Wrappers
  import Numbers
  import opened Pkcs12Kdf

  // The first n octets of D_1 || D_2 || ... where D_i is the r-fold hash of D_(i-1) || text.
  ghost function Digests(h: Hash, hLen: nat, before: bytes, text: bytes, r: nat, n: nat): (s: bytes)
    requires HashSize(h, hLen) && r > 0
    ensures |s| == n
    decreases n
  {
    RepeatedSize(h, hLen, before + text, r);
    var d := Repeated(h, before + text, r);
    if n <= hLen then d[..n] else d + Digests(h, hLen, d, text, r, n - hLen)
  }

  // Each string is the r-fold hash of the one before it and the text.
  ghost predicate DigestChain(h: Hash, before: bytes, text: bytes, r: nat, ds: seq<bytes>) {
    && (ds != [] ==> HashChain(h, before + text, r, ds[0]))
    && forall i :: 0 < i < |ds| ==> HashChain(h, ds[i - 1] + text, r, ds[i])
  }

  ghost predicate DigestOctets(h: Hash, hLen: nat, before: bytes, text: bytes, r: nat, s: bytes)
    requires hLen > 0
  {
    exists ds :: DigestChain(h, before, text, r, ds) && OctetsOf(ds, hLen, s)
  }

  // Digests in terms of the hash: octet j is that of string number j / hLen.
  lemma {:induction false} DigestsOctets(h: Hash, hLen: nat, before: bytes, text: bytes, r: nat, n: nat)
    requires HashSize(h, hLen) && hLen > 0 && r > 0
    ensures DigestOctets(h, hLen, before, text, r, Digests(h, hLen, before, text, r, n))
    decreases n
  {
    hide Repeated, HashChain;
    RepeatedSize(h, hLen, before + text, r);
    RepeatedChain(h, before + text, r);
    var d := Repeated(h, before + text, r);
    var s := Digests(h, hLen, before, text, r, n);
    if n <= hLen {
      LastDigest(h, before, text, r, d);
      FirstOctets(hLen, d, n);
    } else {
      DigestsOctets(h, hLen, d, text, r, n - hLen);
      var ds :| DigestChain(h, d, text, r, ds) && OctetsOf(ds, hLen, Digests(h, hLen, d, text, r, n - hLen));
      MoreDigests(h, before, text, r, d, ds);
      MoreOctets(hLen, d, ds, Digests(h, hLen, d, text, r, n - hLen));
    }
  }

  lemma LastDigest(h: Hash, before: bytes, text: bytes, r: nat, d: bytes)
    requires HashChain(h, before + text, r, d)
    ensures DigestChain(h, before, text, r, [d])
  {
    hide HashChain;
  }

  lemma MoreDigests(h: Hash, before: bytes, text: bytes, r: nat, d: bytes, ds: seq<bytes>)
    requires HashChain(h, before + text, r, d) && DigestChain(h, d, text, r, ds)
    ensures DigestChain(h, before, text, r, [d] + ds)
  {
    hide HashChain;
    var all := [d] + ds;
    forall i | 0 < i < |all| ensures HashChain(h, all[i - 1] + text, r, all[i]) {
      assert all[i] == ds[i - 1] && (i > 1 ==> all[i - 1] == ds[i - 2]);
    }
  }

  lemma FirstOctets(hLen: nat, d: bytes, n: nat)
    requires n <= hLen == |d| && hLen > 0
    ensures OctetsOf([d], hLen, d[..n])
  {
    forall j | 0 <= j < n ensures j / hLen == 0 && j % hLen == j {
      Numbers.ModIs(hLen, j, 0, j);
    }
  }

  lemma MoreOctets(hLen: nat, d: bytes, ds: seq<bytes>, s: bytes)
    requires |d| == hLen > 0 && OctetsOf(ds, hLen, s)
    ensures OctetsOf([d] + ds, hLen, d + s)
  {
    var all := [d] + ds;
    forall j | 0 <= j < |d + s|
      ensures 0 <= j / hLen < |all| && 0 <= j % hLen < |all[j / hLen]| && (d + s)[j] == all[j / hLen][j % hLen]
    {
      if j < hLen {
        Numbers.ModIs(hLen, j, 0, j);
      } else {
        RoundBefore(j, hLen);
        assert s[j - hLen] == ds[(j - hLen) / hLen][(j - hLen) % hLen];
      }
    }
  }

  // The output, where it is wanted, begins with s; `needed` octets are still to come.
  ghost predicate Placed(out: array?<byte>, needed: nat, s: bytes)
    reads out
  {
    out != null ==> out.Length == |s| + needed && out[..|s|] == s
  }

  // As much of the digest from i on as the output needs.
  method Deal(out: array?<byte>, digest: bytes, i: nat, needed: nat, ghost s: bytes) returns (next: nat, left: nat)
    requires Placed(out, needed, s) && i <= |digest|
    modifies out
    ensures next == if |digest| - i < needed then |digest| else i + needed
    ensures left == needed - (next - i) && Placed(out, left, s + digest[i..next])
  {
    next, left := i, needed;
    assert s + digest[i..i] == s;
    while left > 0 && next < |digest|
      invariant i <= next <= |digest| && left == needed - (next - i)
      invariant Placed(out, left, s + digest[i..next])
    {
      ghost var before := s + digest[i..next];
      assert s + digest[i..next + 1] == before + [digest[next]];
      if out != null {
        out[out.Length - left] := digest[next];
        assert out[..|before| + 1] == out[..|before|] + [digest[next]];
      }
      next, left := next + 1, left - 1;
    }
  }

  // A digest goes to the key first and then to the vector.
  method DealBoth(key: array?<byte>, iv: array?<byte>, digest: bytes, neededKey: nat, neededIv: nat, ghost k: bytes, ghost v: bytes)
    returns (leftKey: nat, leftIv: nat, ghost k': bytes, ghost v': bytes)
    requires Placed(key, neededKey, k) && Placed(iv, neededIv, v) && (v != [] ==> neededKey == 0) && (key == null || key != iv)
    modifies key, iv
    ensures Placed(key, leftKey, k') && Placed(iv, leftIv, v') && (v' != [] ==> leftKey == 0)
    ensures leftKey + |k'| == neededKey + |k| && leftIv + |v'| == neededIv + |v|
    ensures var n := if |digest| < neededKey + neededIv then |digest| else neededKey + neededIv;
            k' + v' == k + v + digest[..n] && leftKey + leftIv == neededKey + neededIv - n
  {
    var i, n;
    i, leftKey := Deal(key, digest, 0, neededKey, k);
    n, leftIv := Deal(iv, digest, i, neededIv, v);
    k', v' := k + digest[0..i], v + digest[i..n];
    DealtParts(k, v, digest, i, n);
  }

  lemma DealtParts(k: bytes, v: bytes, digest: bytes, i: nat, n: nat)
    requires i <= n <= |digest| && (v != [] ==> i == 0)
    ensures k + digest[0..i] + (v + digest[i..n]) == k + v + digest[..n]
  {
    assert digest[..n] == digest[0..i] + digest[i..n];
    if v == [] {
      assert k + [] == k && [] + digest[i..n] == digest[i..n];
    } else {
      assert k + digest[0..0] == k;
    }
  }

  // egg_symkey_generate_simple: key and vector are consecutive parts of the digests, also
  // when only one of them is wanted.
  method GenerateSimple(h: Hash, nDigest: nat, password: bytes, salt: bytes, iterations: nat,
                        key: array?<byte>, iv: array?<byte>, nKey: nat, nIv: nat)
    requires HashSize(h, nDigest) && iterations > 0
    requires (key != null ==> key.Length == nKey) && (iv != null ==> iv.Length == nIv) && (key == null || key != iv)
    modifies key, iv
    ensures var all := Digests(h, nDigest, [], password + salt, iterations, nKey + nIv);
            (key != null ==> key[..] == all[..nKey]) && (iv != null ==> iv[..] == all[nKey..])
    ensures nDigest > 0 && DigestOctets(h, nDigest, [], password + salt, iterations, Digests(h, nDigest, [], password + salt, iterations, nKey + nIv))
  {
    hide Repeated, Digests, HashSize, Placed, DigestOctets;
    NothingPlaced(key, iv, nKey, nIv);
    HashSome(h, nDigest);
    DigestsOctets(h, nDigest, [], password + salt, iterations, nKey + nIv);
    ghost var text := password + salt;
    ghost var all := Digests(h, nDigest, [], text, iterations, nKey + nIv);
    ghost var k: bytes, v: bytes := [], [];
    var digest: bytes := [];
    var neededKey: nat, neededIv: nat := nKey, nIv;
    while true
      invariant Placed(key, neededKey, k) && Placed(iv, neededIv, v) && neededKey + |k| == nKey && neededIv + |v| == nIv
      invariant v != [] ==> neededKey == 0
      invariant k + v + Digests(h, nDigest, digest, text, iterations, neededKey + neededIv) == all
      decreases neededKey + neededIv
    {
      DigestsNext(h, nDigest, digest, text, iterations, neededKey + neededIv, k + v);
      assert digest + password + salt == digest + text;
      digest := HashRounds(h, digest + password + salt, iterations);
      neededKey, neededIv, k, v := DealBoth(key, iv, digest, neededKey, neededIv, k, v);
      if neededKey == 0 && neededIv == 0 {
        break;
      }
    }
    Parted(key, iv, nKey, k, v);
  }

  lemma NothingPlaced(key: array?<byte>, iv: array?<byte>, nKey: nat, nIv: nat)
    requires (key != null ==> key.Length == nKey) && (iv != null ==> iv.Length == nIv)
    ensures Placed(key, nKey, []) && Placed(iv, nIv, [])
  {
  }

  lemma Parted(key: array?<byte>, iv: array?<byte>, nKey: nat, k: bytes, v: bytes)
    requires Placed(key, 0, k) && Placed(iv, 0, v) && |k| == nKey
    ensures (key != null ==> key[..] == (k + v)[..nKey]) && (iv != null ==> iv[..] == (k + v)[nKey..])
  {
  }

  lemma DigestsNext(h: Hash, hLen: nat, before: bytes, text: bytes, r: nat, n: nat, front: bytes)
    requires HashSize(h, hLen) && r > 0
    ensures var d := Repeated(h, before + text, r);
            |d| == hLen && front + Digests(h, hLen, before, text, r, n) ==
              if n <= hLen then front + d[..n] else front + d[..hLen] + Digests(h, hLen, d, text, r, n - hLen)
  {
    hide Repeated;
    RepeatedSize(h, hLen, before + text, r);
    var d := Repeated(h, before + text, r);
    assert d[..hLen] == d;
    if n > hLen {
      var rest := Digests(h, hLen, d, text, r, n - hLen);
      assert front + (d + rest) == front + d + rest;
    }
  }
}
