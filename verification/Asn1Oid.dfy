// Object identifiers: dotted decimal text and base-128 octets (ITU-T X.690 section 8.19).
module Asn1Oid {
  import opened Wrappers
  import opened Numbers
  import opened Asn1Header

  // ------------------------------------------------------------ decimal text

  predicate AllDigits(p: string) {
    forall i :: 0 <= i < |p| ==> IsDigit(p[i])
  }

  function DigitsOf(p: string): (s: seq<nat>)
    requires AllDigits(p)
    ensures |s| == |p| && DigitsBelow(10, s)
  {
    seq(|p|, i requires 0 <= i < |p| => DigitOf(p[i]))
  }

  function Text(s: seq<nat>): (p: string)
    requires DigitsBelow(10, s)
    ensures |p| == |s| && AllDigits(p) && DigitsOf(p) == s
  {
    seq(|s|, i requires 0 <= i < |s| => (s[i] + '0' as int) as char)
  }

  // %u
  function Show(n: nat): (p: string)
    ensures p != "" && AllDigits(p) && Value(10, DigitsOf(p)) == n
  {
    DigitsValue(10, n);
    if n == 0 then
      ValueSnoc(10, [], 0);
      assert DigitsOf("0") == [0] == [] + [0];
      "0"
    else Text(Digits(10, n))
  }

  lemma ShowInjective(m: nat, n: nat)
    requires Show(m) == Show(n)
    ensures m == n
  {
  }

  // The low 32 bits, as a signed number.
  function Wrap(x: int): int {
    AsInt32(x % UINT)
  }

  // atoin, for any number of digits: 32-bit arithmetic
  function Number(p: string): int {
    if AllDigits(p) then Wrap(Value(10, DigitsOf(p))) else -1
  }

  lemma ModUnique(z: int, q: int, y: int)
    requires z == UINT * q + y && 0 <= y < UINT
    ensures z % UINT == y
  {
  }

  lemma WrapShift(x: int, k: int)
    ensures Wrap(x + UINT * k) == Wrap(x)
  {
    var q := x / UINT;
    assert x == UINT * q + x % UINT;
    ModUnique(x + UINT * k, q + k, x % UINT);
  }

  lemma WrapOff(x: int) returns (q: int)
    ensures Wrap(x) == x - UINT * q
  {
    q := x / UINT;
    assert x == UINT * q + x % UINT;
    if x % UINT > INT_MAX {
      q := q + 1;
    }
  }

  lemma WrapSum(r: int, d: nat, b: int)
    ensures Wrap(Wrap(r) + d * Wrap(b)) == Wrap(r + d * b)
  {
    hide Wrap;
    var q := WrapOff(r);
    var p := WrapOff(b);
    Spread(d, b, p);
    WrapShift(r + d * b, -q - d * p);
  }

  lemma Spread(d: int, b: int, p: int)
    ensures d * (b - UINT * p) == d * b - UINT * (d * p)
  {
    MulSwap(d, UINT, p);
  }

  lemma WrapSmall()
    ensures Wrap(0) == 0 && Wrap(1) == 1 && Wrap(10) == 10
  {
  }

  method Atoin(p: string) returns (ret: int)
    ensures ret == Number(p)
  {
    hide Wrap, Value, Pow;
    WrapSmall();
    PowNext(10, 0);
    NoDigitsLeft(p);
    ret := 0;
    var base, digits := 1, |p|;
    ghost var exact, weight := 0, 1;
    while digits > 0
      invariant 0 <= digits <= |p| && AllDigits(p[digits..])
      invariant weight == Pow(10, |p| - digits) && exact == Value(10, DigitsOf(p[digits..]))
      invariant ret == Wrap(exact) && base == Wrap(weight)
    {
      digits := digits - 1;
      if !IsDigit(p[digits]) {
        return -1;
      }
      var d := DigitOf(p[digits]);
      MoreDigits(p, digits);
      PowNext(10, |p| - digits - 1);
      WrapSum(exact, d, weight);
      WrapSum(0, 10, weight);
      ret := Wrap(ret + d * base);
      base := Wrap(base * 10);
      exact := exact + d * weight;
      weight := weight * 10;
    }
    assert p[0..] == p;
  }

  lemma NoDigitsLeft(p: string)
    ensures AllDigits(p[|p|..]) && Value(10, DigitsOf(p[|p|..])) == 0
  {
  }

  lemma MoreDigits(p: string, k: nat)
    requires k < |p| && IsDigit(p[k]) && AllDigits(p[k + 1..])
    ensures AllDigits(p[k..])
    ensures Value(10, DigitsOf(p[k..])) == Value(10, DigitsOf(p[k + 1..])) + DigitOf(p[k]) * Pow(10, |p| - k - 1)
  {
    assert p[k..] == [p[k]] + p[k + 1..];
    assert forall i :: 0 <= i < |p[k..]| ==> IsDigit(p[k..][i]);
    var s := DigitsOf(p[k..]);
    ValueFirst(10, s);
    assert s[1..] == DigitsOf(p[k + 1..]);
  }

  // ------------------------------------------------------------------ writing

  // The arcs the writer walks over: what is between dots; nothing after a last dot.
  function Arcs(oid: string): (arcs: seq<string>)
    decreases |oid|
  {
    if oid == "" then []
    else
      var p := Dot(oid);
      if p == |oid| then [oid] else [oid[..p]] + Arcs(oid[p + 1..])
  }

  // strchr for a dot, or the end
  function Dot(s: string): (p: nat)
    ensures p <= |s| && (p < |s| ==> s[p] == '.') && '.' !in s[..p]
  {
    if s == "" || s[0] == '.' then 0
    else
      var p := 1 + Dot(s[1..]);
      assert s[..p] == [s[0]] + s[1..][..p - 1];
      p
  }

  // Seven bits an octet.
  function Base128(n: nat): (s: bytes)
    ensures s != []
  {
    if n == 0 then [0] else Marked(Digits(128, n))
  }

  predicate ArcsOk(arcs: seq<string>) {
    forall i :: 0 <= i < |arcs| ==> arcs[i] != "" && Number(arcs[i]) >= 0
  }

  function Tail(arcs: seq<string>): bytes
    requires ArcsOk(arcs)
  {
    if arcs == [] then [] else Base128(Number(arcs[0])) + Tail(arcs[1..])
  }

  // The first two arcs share an octet, of which the low bits are kept.
  function Octets(arcs: seq<string>): bytes
    requires ArcsOk(arcs)
  {
    if |arcs| < 2 then [] else [(40 * Number(arcs[0]) + Number(arcs[1])) % 256] + Tail(arcs[2..])
  }

  // anode_write_object_id
  function WriteOid(oid: string): Option<bytes> {
    if ArcsOk(Arcs(oid)) && |Arcs(oid)| > 2 then Some(Octets(Arcs(oid))) else None
  }

  lemma {:induction false} TailSnoc(arcs: seq<string>, arc: string)
    requires ArcsOk(arcs) && arc != "" && Number(arc) >= 0
    ensures ArcsOk(arcs + [arc]) && Tail(arcs + [arc]) == Tail(arcs) + Base128(Number(arc))
  {
    hide Base128, Number;
    if arcs == [] {
      assert arcs + [arc] == [arc] && [arc][1..] == [];
      assert Tail([arc]) == Base128(Number(arc)) + Tail([]);
    } else {
      TailSnoc(arcs[1..], arc);
      assert (arcs + [arc])[1..] == arcs[1..] + [arc];
    }
  }

  lemma OctetsSnoc(arcs: seq<string>, arc: string)
    requires ArcsOk(arcs) && arc != "" && Number(arc) >= 0
    ensures ArcsOk(arcs + [arc])
    ensures |arcs| == 0 ==> Octets(arcs + [arc]) == []
    ensures |arcs| == 1 ==> Octets(arcs + [arc]) == [(40 * Number(arcs[0]) + Number(arc)) % 256]
    ensures |arcs| > 1 ==> Octets(arcs + [arc]) == Octets(arcs) + Base128(Number(arc))
  {
    hide Base128, Number, Tail, Octets;
    if |arcs| > 1 {
      OctetsMore(arcs, arc);
    } else if |arcs| == 1 {
      OctetsFirst(arcs[0], arc);
      assert arcs + [arc] == [arcs[0], arc];
    } else {
      assert arcs + [arc] == [arc];
      assert Octets([arc]) == [] by {
        OctetsOne(arc);
      }
    }
  }

  lemma OctetsOne(arc: string)
    requires ArcsOk([arc])
    ensures Octets([arc]) == []
  {
  }

  lemma OctetsFirst(first: string, second: string)
    requires ArcsOk([first, second])
    ensures Octets([first, second]) == [(40 * Number(first) + Number(second)) % 256]
  {
    hide Base128, Number;
    assert [first, second][2..] == [];
  }

  lemma OctetsMore(arcs: seq<string>, arc: string)
    requires ArcsOk(arcs) && arc != "" && Number(arc) >= 0 && |arcs| > 1
    ensures ArcsOk(arcs + [arc]) && Octets(arcs + [arc]) == Octets(arcs) + Base128(Number(arc))
  {
    hide Base128, Number, Tail;
    TailOfSnoc(arcs, arc);
    var all := arcs + [arc];
    assert all[0] == arcs[0] && all[1] == arcs[1];
  }

  lemma TailOfSnoc(arcs: seq<string>, arc: string)
    requires ArcsOk(arcs) && arc != "" && Number(arc) >= 0 && |arcs| > 1
    ensures ArcsOk(arcs + [arc]) && Tail((arcs + [arc])[2..]) == Tail(arcs[2..]) + Base128(Number(arc))
  {
    hide Base128, Number, Tail;
    assert (arcs + [arc])[2..] == arcs[2..] + [arc];
    TailSnoc(arcs[2..], arc);
  }

  // An arc never takes more octets than it has characters.
  lemma Base128Short(arc: string)
    requires arc != "" && Number(arc) >= 0
    ensures |Base128(Number(arc))| <= |arc|
  {
    var n := Number(arc);
    if |arc| >= 5 {
      PowFive();
      DigitsLength(128, n, 5);
    } else {
      ValueBound(10, DigitsOf(arc));
      PowSmall(|arc|);
      DigitsLength(128, n, |arc|);
    }
  }

  lemma PowFive()
    ensures Pow(128, 5) > INT_MAX
  {
    assert Pow(128, 2) == 128 * 128;
    PowAdd(128, 2, 2);
    assert Pow(128, 5) == 128 * Pow(128, 4);
  }

  lemma PowSmall(k: nat)
    requires 1 <= k < 5
    ensures Pow(10, k) <= 10000 && Pow(10, k) <= Pow(128, k)
  {
    assert Pow(10, 1) == 10 && Pow(10, 2) == 100 && Pow(128, 1) == 128 && Pow(128, 2) == 16384;
    PowAdd(10, 2, 2);
    PowAdd(128, 2, 2);
    PowAdd(10, 1, 2);
    PowAdd(128, 1, 2);
  }

  // ---- the loop over the five groups of an arc

  // Groups that are followed by another one.
  function High(m: nat): (s: bytes)
    ensures s == [] <==> m == 0
  {
    var d := Digits(128, m);
    seq(|d|, i requires 0 <= i < |d| => d[i] + 128)
  }

  lemma HighNext(m: nat)
    ensures m > 0 ==> High(m) == High(m / 128) + [m % 128 + 128]
    ensures Base128(m) == High(m / 128) + [m % 128]
  {
    if m > 0 {
      assert Digits(128, m) == Digits(128, m / 128) + [m % 128];
    }
  }

  function Group(num: nat, k: nat): nat {
    num / Pow(128, k)
  }

  lemma GroupNext(num: nat, k: nat)
    ensures Group(num, k + 1) == Group(num, k) / 128
    ensures Group(num, 0) == num
    ensures num <= INT_MAX ==> Group(num, 5) == 0
  {
    var p := Pow(128, k);
    var q, r := num / p, num % p;
    DivModOf(num, p);
    MulLe(p, q % 128 + 1, 128);
    Distribute(p, q / 128, 128, q % 128);
    Distribute(p, 1, q % 128, 1);
    assert num == (128 * p) * (q / 128) + (p * (q % 128) + r) by {
      MulSwap(p, q / 128, 128);
    }
    ModIs(128 * p, num, q / 128, p * (q % 128) + r);
    if num <= INT_MAX {
      PowFive();
      ModIs(Pow(128, 5), num, 0, num);
    }
  }

  lemma {:induction false} HighFits(num: nat, k: nat)
    ensures |High(Group(num, k + 1))| < |Base128(num)|
  {
    hide High, Base128, Group;
    GroupNext(num, k);
    GroupNext(num, 0);
    if k == 0 {
      HighNext(num);
    } else {
      HighFits(num, k - 1);
      HighNext(Group(num, k));
      if Group(num, k) == 0 {
        assert High(0) == High(0 / 128);
      }
    }
  }

  // What is in the buffer from `start` on, if there is one.
  ghost predicate Holding(data: array?<byte>, start: nat, at: nat, s: bytes)
    reads data
  {
    at == start + |s| && (data != null ==> at <= data.Length && data[start..at] == s)
  }

  method WriteGroups(num: nat, data: array?<byte>, start: nat) returns (at: nat)
    requires num <= INT_MAX && (data != null ==> start + |Base128(num)| <= data.Length)
    modifies data
    ensures Holding(data, start, at, Base128(num))
    ensures data != null ==> data[..start] == old(data[..start])
  {
    hide High, Base128, Group;
    at := start;
    var had, k := false, 4;
    GroupNext(num, 4);
    GroupNext(num, 0);
    HighZero();
    while k >= 0
      invariant -1 <= k <= 4
      invariant k >= 0 ==> Holding(data, start, at, High(Group(num, k + 1))) && (had <==> Group(num, k + 1) > 0)
      invariant k < 0 ==> Holding(data, start, at, Base128(num))
      invariant data != null ==> data[..start] == old(data[..start])
    {
      GroupNext(num, k);
      HighNext(Group(num, k));
      HighFits(num, k);
      var bit7 := Group(num, k) % 128;
      if bit7 > 0 || had || k == 0 {
        if k > 0 {
          HighFits(num, k - 1);
        }
        ghost var before := if data != null then data[start..at] else [];
        if data != null {
          data[at] := if k > 0 then bit7 + 128 else bit7;
          assert data[start..at + 1] == before + [data[at]];
        }
        at := at + 1;
        had := true;
      }
      k := k - 1;
    }
  }

  lemma HighZero()
    ensures High(0) == []
  {
  }

  lemma OctetsNone(data: array?<byte>)
    ensures ArcsOk([]) && Holding(data, 0, 0, Octets([])) && Arcs("") == []
  {
  }

  lemma OctetsEnd(arcs: seq<string>, data: array?<byte>, at: nat)
    requires ArcsOk(arcs) && Holding(data, 0, at, Octets(arcs))
    ensures at == |Octets(arcs)| && (at >= 2 <==> |arcs| > 2)
  {
    hide Base128, Number;
  }

  lemma ArcsNext(s: string)
    requires s != ""
    ensures var p := Dot(s);
            Arcs(s) == [s[..p]] + Arcs(if p == |s| then "" else s[p + 1..])
  {
    hide Dot;
    if Dot(s) == |s| {
      assert s[..|s|] == s;
      assert [s] + [] == [s];
    }
  }

  lemma ArcsBad(front: seq<string>, arc: string, back: seq<string>)
    requires arc == "" || Number(arc) < 0
    ensures !ArcsOk(front + ([arc] + back))
  {
    hide Number;
    assert (front + ([arc] + back))[|front|] == arc;
  }

  // The writes for one arc.
  method WriteArc(ghost done: seq<string>, ghost arc: string, i: nat, num: nat, num1: nat, data: array?<byte>, at: nat)
    returns (at': nat)
    requires ArcsOk(done) && arc != "" && i == |done| && num == Number(arc) && (i == 1 ==> num1 == Number(done[0]))
    requires Holding(data, 0, at, Octets(done))
    requires data != null ==> i > 0 ==> at + |arc| <= data.Length
    modifies data
    ensures ArcsOk(done + [arc]) && Holding(data, 0, at', Octets(done + [arc]))
    ensures at <= at' <= at + |arc| && (i == 0 ==> at' == at) && (i == 1 ==> at' == at + 1)
  {
    hide Octets, Number, Base128, ArcsOk;
    OctetsSnoc(done, arc);
    Base128Short(arc);
    OctetsFew(done);
    at' := at;
    if i == 0 {
    } else if i == 1 {
      if data != null {
        assert data.Length > at;
        data[at] := (40 * num1 + num) % 256;
      }
      at' := at + 1;
    } else {
      assert num <= INT_MAX by { NumberBound(arc); }
      at' := WriteGroups(num, data, at);
      if data != null {
        assert data[0..at] == data[..at];
        assert data[0..at'] == data[0..at] + data[at..at'];
      }
    }
  }

  lemma NumberBound(arc: string)
    ensures Number(arc) <= INT_MAX
  {
  }

  lemma OctetsFew(arcs: seq<string>)
    requires ArcsOk(arcs)
    ensures |arcs| < 2 ==> Octets(arcs) == []
  {
    hide Base128, Number;
  }

  // Every write is inside a buffer as long as the text, which the encoding never fills.
  method AnodeWriteObjectId(oid: string, data: array?<byte>) returns (ok: bool, n: nat)
    requires data != null ==> data.Length == |oid|
    modifies data
    ensures ok <==> WriteOid(oid).Some?
    ensures ok ==> n < |oid| && Holding(data, 0, n, WriteOid(oid).value)
  {
    hide Octets, Number, Dot, Base128, Arcs, ArcsOk, Holding;
    var at, num1, i, rest := 0, 0, 0, oid;
    ghost var done: seq<string> := [];
    OctetsNone(data);
    while rest != ""
      invariant i == |done| && done + Arcs(rest) == Arcs(oid) && |rest| <= |oid|
      invariant ArcsOk(done) && (|done| == 1 ==> num1 == Number(done[0]))
      invariant i < 2 ==> at == 0
      invariant |done| == 1 && rest != "" ==> |rest| + 2 <= |oid|
      invariant Holding(data, 0, at, Octets(done)) && at + (if |done| < 2 then |done| else 2) <= |oid| - |rest|
      decreases |rest|
    {
      var p := Dot(rest);
      var next := if p == |rest| then "" else rest[p + 1..];
      var arc := rest[..p];
      ArcsNext(rest);
      if p == 0 {
        ArcsBad(done, arc, Arcs(next));
        return false, 0;
      }
      var num := Atoin(arc);
      if num < 0 {
        ArcsBad(done, arc, Arcs(next));
        return false, 0;
      }
      at := WriteArc(done, arc, i, num, num1, data, at);
      if i == 0 {
        num1 := num;
      }
      assert done + ([arc] + Arcs(next)) == done + [arc] + Arcs(next);
      done := done + [arc];
      rest, i := next, i + 1;
    }
    assert done + [] == done;
    OctetsEnd(done, data, at);
    if at < 2 {
      return false, 0;
    }
    return true, at;
  }

  // egg_asn1x_set_oid_as_string: the octets are put in a buffer as long as the text
  method SetOidAsString(oid: string) returns (value: Option<bytes>)
    ensures value == WriteOid(oid)
  {
    var data := new byte[|oid|](_ => 0);
    var ok, n := AnodeWriteObjectId(oid, data);
    value := if ok then Some(data[0..n]) else None;
  }

  // ------------------------------------------------------------------ reading

  // The octets of the later arcs, `val` being the groups of the current one so far.
  // A 0x80 octet is refused wherever it stands, and so is a number that is seen to wrap.
  function ReadArcs(s: bytes, val: nat): Option<string>
    decreases |s|
  {
    if s == [] then Some("")
    else if s[0] == 0x80 then None
    else
      var next := val * 128 % UINT + s[0] % 128;
      if next < val then None
      else if s[0] >= 128 then ReadArcs(s[1..], next)
      else
        match ReadArcs(s[1..], 0)
        case None => None
        case Some(text) => Some("." + Show(next) + text)
  }

  function ReadOid(data: bytes): Option<string>
    requires data != []
  {
    match ReadArcs(data[1..], 0)
    case None => None
    case Some(text) => Some(Show(data[0] / 40) + "." + Show(data[0] % 40) + text)
  }

  // The first octet is read whatever the length is: `stray` is what lies there when there
  // are no data.
  method AnodeReadObjectId(data: bytes, stray: byte) returns (oid: Option<string>)
    ensures oid == ReadOid(if data == [] then [stray] else data)
  {
    hide Show, ReadArcs;
    var first := if data == [] then stray else data[0];
    var pval := first / 40;
    var val := first - pval * 40;
    var result := Show(pval) + "." + Show(val);
    ReadNone(result);
    ghost var all := if data == [] then Some("") else ReadArcs(data[1..], 0);
    var k := 1;
    val, pval := 0, 0;
    while k < |data|
      invariant 1 <= k && (k <= |data| || data == []) && val == pval
      invariant After(Show(first / 40) + "." + Show(first % 40), all) == After(result, if data == [] then Some("") else ReadArcs(data[k..], val))
    {
      ReadOne(data, k, val);
      if data[k] == 0x80 {
        return None;
      }
      val := val * 128 % UINT + data[k] % 128;
      if val < pval {
        return None;
      }
      pval := val;
      if data[k] < 128 {
        AfterArc(result, Show(val), ReadArcs(data[k + 1..], 0));
        result := result + "." + Show(val);
        pval, val := 0, 0;
      }
      k := k + 1;
    }
    assert data != [] ==> data[k..] == [];
    assert [stray][1..] == [];
    ReadNone(result);
    return Some(result);
  }

  lemma ReadOne(data: bytes, k: nat, val: nat)
    requires k < |data|
    ensures var next := val * 128 % UINT + data[k] % 128;
            ReadArcs(data[k..], val) ==
              if data[k] == 0x80 || next < val then None
              else if data[k] >= 128 then ReadArcs(data[k + 1..], next)
              else After("." + Show(next), ReadArcs(data[k + 1..], 0))
  {
    hide Show;
    assert data[k..][0] == data[k] && data[k..][1..] == data[k + 1..];
  }

  lemma ReadNone(result: string)
    ensures ReadArcs([], 0) == Some("") && After(result, Some("")) == Some(result)
    ensures forall val: nat :: ReadArcs([], val) == Some("")
  {
    assert result + "" == result;
  }

  function After(front: string, rest: Option<string>): Option<string> {
    if rest == None then None else Some(front + rest.value)
  }

  lemma AfterArc(front: string, arc: string, rest: Option<string>)
    ensures After(front, After("." + arc, rest)) == After(front + "." + arc, rest)
  {
    if rest.Some? {
      assert front + ("." + arc + rest.value) == front + "." + arc + rest.value;
    }
  }

  // --------------------------------------------------------------- round trips

  function Dotted(arcs: seq<nat>): string
    requires arcs != []
  {
    if |arcs| == 1 then Show(arcs[0]) else Show(arcs[0]) + "." + Dotted(arcs[1..])
  }

  function Shown(arcs: seq<nat>): (s: seq<string>)
    ensures |s| == |arcs| && forall i :: 0 <= i < |s| ==> s[i] == Show(arcs[i])
  {
    seq(|arcs|, i requires 0 <= i < |arcs| => Show(arcs[i]))
  }

  ghost predicate Small(arcs: seq<nat>) {
    forall i :: 0 <= i < |arcs| ==> arcs[i] <= INT_MAX
  }

  // The octets of the later arcs.
  function TailOf(arcs: seq<nat>): bytes {
    if arcs == [] then [] else Base128(arcs[0]) + TailOf(arcs[1..])
  }

  // The text of the later arcs.
  function Body(arcs: seq<nat>): string {
    if arcs == [] then "" else "." + Show(arcs[0]) + Body(arcs[1..])
  }

  lemma {:induction false} DotAfter(s: string, rest: string)
    requires AllDigits(s)
    ensures Dot(s + "." + rest) == |s| && Dot(s) == |s|
  {
    if s != "" {
      DotAfter(s[1..], rest);
      assert (s + "." + rest)[1..] == s[1..] + "." + rest;
      assert IsDigit(s[0]);
    }
  }

  lemma {:induction false} ArcsOfDotted(arcs: seq<nat>)
    requires arcs != []
    ensures Arcs(Dotted(arcs)) == Shown(arcs)
  {
    hide Show, Dot;
    var s := Show(arcs[0]);
    if |arcs| == 1 {
      DotAfter(s, "");
      ArcsNext(s);
    } else {
      var rest := Dotted(arcs[1..]);
      var t := s + "." + rest;
      DotAfter(s, rest);
      ArcsNext(t);
      assert t[..|s|] == s && t[|s| + 1..] == rest;
      DottedSome(arcs[1..]);
      ArcsOfDotted(arcs[1..]);
    }
  }

  lemma DottedSome(arcs: seq<nat>)
    requires arcs != []
    ensures Dotted(arcs) != ""
  {
    hide Show;
  }

  lemma DottedInjective(a: seq<nat>, b: seq<nat>)
    requires a != [] && b != [] && Dotted(a) == Dotted(b)
    ensures a == b
  {
    hide Show, Arcs;
    ArcsOfDotted(a);
    ArcsOfDotted(b);
    forall i | 0 <= i < |a| ensures a[i] == b[i] {
      assert Show(a[i]) == Shown(a)[i] == Show(b[i]);
      ShowInjective(a[i], b[i]);
    }
  }

  lemma NumberOfShow(n: nat)
    requires n <= INT_MAX
    ensures Number(Show(n)) == n
  {
  }

  lemma {:induction false} TailOfShown(arcs: seq<nat>)
    requires Small(arcs)
    ensures ArcsOk(Shown(arcs)) && Tail(Shown(arcs)) == TailOf(arcs)
  {
    hide Show, Number, Base128;
    forall i | 0 <= i < |arcs| ensures Number(Shown(arcs)[i]) >= 0 {
      NumberOfShow(arcs[i]);
    }
    if arcs != [] {
      NumberOfShow(arcs[0]);
      TailOfShown(arcs[1..]);
      assert Shown(arcs)[1..] == Shown(arcs[1..]);
    }
  }

  lemma WriteDotted(arcs: seq<nat>)
    requires |arcs| > 2 && Small(arcs)
    ensures WriteOid(Dotted(arcs)) == Some([(40 * arcs[0] + arcs[1]) % 256] + TailOf(arcs[2..]))
  {
    hide Show, Number, Base128, Arcs, Tail, TailOf, Dotted, Shown, ArcsOk;
    var shown := Shown(arcs);
    ArcsOfDotted(arcs);
    TailOfShown(arcs);
    TailOfShown(arcs[2..]);
    ShownAt(arcs);
  }

  lemma ShownAt(arcs: seq<nat>)
    requires |arcs| > 2 && Small(arcs)
    ensures var s := Shown(arcs); Number(s[0]) == arcs[0] && Number(s[1]) == arcs[1] && s[2..] == Shown(arcs[2..])
  {
    hide Number;
    NumberOfShow(arcs[0]);
    NumberOfShow(arcs[1]);
  }

  // No seven-bit group but the last is zero.
  ghost predicate NoZeroGroup(n: nat) {
    0 !in Digits(128, n / 128)
  }

  lemma {:induction false} ReadGroups(digits: seq<nat>, v: nat, rest: bytes)
    requires digits != [] && DigitsBelow(128, digits)
    requires v * Pow(128, |digits|) + Value(128, digits) <= INT_MAX
    ensures ReadArcs(Marked(digits) + rest, v) ==
              if 0 in digits[..|digits| - 1] || ReadArcs(rest, 0) == None then None
              else Some("." + Show(v * Pow(128, |digits|) + Value(128, digits)) + ReadArcs(rest, 0).value)
    decreases |digits|
  {
    hide Show, ReadArcs, Value, Pow;
    var s := Marked(digits) + rest;
    var next := v * 128 + digits[0];
    Carry(v, digits);
    assert s[0] % 128 == digits[0];
    ReadStep(s, v);
    if |digits| == 1 {
      assert s[1..] == rest;
    } else {
      assert s[1..] == Marked(digits[1..]) + rest;
      ReadGroups(digits[1..], next, rest);
      assert digits[..|digits| - 1] == [digits[0]] + digits[1..][..|digits| - 2];
    }
  }

  lemma Carry(v: nat, digits: seq<nat>)
    requires digits != []
    ensures var next := v * 128 + digits[0];
            var all := v * Pow(128, |digits|) + Value(128, digits);
            next * Pow(128, |digits| - 1) + Value(128, digits[1..]) == all && next <= all && (|digits| == 1 ==> next == all)
  {
    hide Value, Pow;
    var next := v * 128 + digits[0];
    var p := Pow(128, |digits| - 1);
    PowNext(128, |digits| - 1);
    ZeroValue(128);
    assert |digits| == 1 ==> digits[1..] == [];
    ValueFirst(128, digits);
    CarryMul(v, digits[0], p);
    MulLe(next, 1, p);
  }

  lemma PowNext(b: nat, n: nat)
    ensures Pow(b, n + 1) == b * Pow(b, n) && Pow(b, 0) == 1
  {
  }

  lemma CarryMul(v: nat, d: nat, p: nat)
    ensures (v * 128 + d) * p == v * (128 * p) + d * p
  {
    MulSwap(v, 128, p);
  }

  // One octet is read without a wrap.
  lemma ReadStep(s: bytes, v: nat)
    requires s != [] && v * 128 + s[0] % 128 <= INT_MAX
    ensures var next := v * 128 + s[0] % 128;
            ReadArcs(s, v) ==
              if s[0] == 0x80 then None
              else if s[0] >= 128 then ReadArcs(s[1..], next)
              else if ReadArcs(s[1..], 0) == None then None
              else Some("." + Show(next) + ReadArcs(s[1..], 0).value)
  {
    hide Show;
    SmallMod(v * 128);
  }

  lemma SmallMod(x: nat)
    requires x < UINT
    ensures x % UINT == x
  {
  }

  lemma ReadArc(n: nat, rest: bytes)
    requires n <= INT_MAX
    ensures ReadArcs(Base128(n) + rest, 0) ==
              if !NoZeroGroup(n) || ReadArcs(rest, 0) == None then None
              else Some("." + Show(n) + ReadArcs(rest, 0).value)
  {
    hide Show, ReadArcs, Value, Pow, Digits, NoZeroGroup;
    NoZeroGroupIs(n);
    var digits := if n == 0 then [0] else Digits(128, n);
    DigitsValue(128, n);
    ZeroValue(128);
    ReadGroups(digits, 0, rest);
    LastDigit(n);
    assert Base128(n) == Marked(digits);
  }

  lemma NoZeroGroupIs(n: nat)
    ensures NoZeroGroup(n) <==> 0 !in Digits(128, n / 128)
  {
  }

  lemma ZeroValue(b: nat)
    ensures Value(b, [0]) == 0 && Value(b, []) == 0
  {
  }

  lemma LastDigit(n: nat)
    ensures var digits := if n == 0 then [0] else Digits(128, n);
            digits[..|digits| - 1] == Digits(128, n / 128)
  {
    if n > 0 {
      assert Digits(128, n) == Digits(128, n / 128) + [n % 128];
    }
  }

  ghost predicate NoZeroGroups(arcs: seq<nat>) {
    forall i :: 0 <= i < |arcs| ==> NoZeroGroup(arcs[i])
  }

  lemma {:induction false} ReadTail(arcs: seq<nat>)
    requires Small(arcs)
    ensures ReadArcs(TailOf(arcs), 0) == if NoZeroGroups(arcs) then Some(Body(arcs)) else None
  {
    hide Show, Base128, NoZeroGroup;
    if arcs != [] {
      ReadTail(arcs[1..]);
      ReadArc(arcs[0], TailOf(arcs[1..]));
      assert forall i :: 0 < i < |arcs| ==> arcs[i] == arcs[1..][i - 1];
    }
  }

  lemma {:induction false} DottedBody(arcs: seq<nat>)
    requires arcs != []
    ensures Dotted(arcs) == Show(arcs[0]) + Body(arcs[1..])
  {
    hide Show;
    if |arcs| > 1 {
      DottedBody(arcs[1..]);
      assert Show(arcs[0]) + "." + (Show(arcs[1]) + Body(arcs[1..][1..])) == Show(arcs[0]) + ("." + Show(arcs[1]) + Body(arcs[1..][1..]));
    } else {
      assert Show(arcs[0]) + "" == Show(arcs[0]);
    }
  }

  // What is read from a first octet and the octets of some arcs.
  lemma ReadBytes(x: byte, arcs: seq<nat>)
    requires Small(arcs)
    ensures ReadOid([x] + TailOf(arcs)) == if NoZeroGroups(arcs) then Some(Dotted([x / 40, x % 40] + arcs)) else None
  {
    hide Show, TailOf, Body, NoZeroGroups, ReadArcs;
    assert ([x] + TailOf(arcs))[1..] == TailOf(arcs);
    ReadTail(arcs);
    var all := [x / 40, x % 40] + arcs;
    assert all[1..] == [x % 40] + arcs && all[1..][1..] == arcs;
    DottedBody(all[1..]);
    var a, b := Show(x / 40), Show(x % 40);
    assert Dotted(all) == a + "." + (b + Body(arcs)) == a + "." + b + Body(arcs);
  }

  // What is read back from the octets written for some arcs.
  lemma ArcsReadBack(arcs: seq<nat>)
    requires |arcs| > 2 && Small(arcs)
    ensures WriteOid(Dotted(arcs)).Some? && WriteOid(Dotted(arcs)).value != []
    ensures ReadOid(WriteOid(Dotted(arcs)).value) == Some(Dotted(arcs)) <==> ArcsFit(arcs)
    ensures ReadOid(WriteOid(Dotted(arcs)).value).Some? ==>
              exists all: seq<nat> :: |all| == |arcs| && Small(all) && ReadOid(WriteOid(Dotted(arcs)).value) == Some(Dotted(all))
  {
    hide Show, TailOf, ReadOid, NoZeroGroups, WriteOid, Dotted;
    WriteDotted(arcs);
    var x: byte := (40 * arcs[0] + arcs[1]) % 256;
    ReadBytes(x, arcs[2..]);
    var all := [x / 40, x % 40] + arcs[2..];
    SharedOctet(arcs[0], arcs[1]);
    if Dotted(all) == Dotted(arcs) {
      DottedInjective(all, arcs);
      assert all[0] == x / 40 && all[1] == x % 40;
    }
    if x / 40 == arcs[0] && x % 40 == arcs[1] {
      assert all == arcs;
    }
  }

  // The first two arcs fit in an octet and no later arc has a zero group before its last.
  ghost predicate ArcsFit(arcs: seq<nat>) {
    |arcs| > 2 && arcs[1] < 40 && 40 * arcs[0] + arcs[1] <= 255 && NoZeroGroups(arcs[2..])
  }

  // The numbers the writer makes of the arcs.
  function Numbered(arcs: seq<string>): (ns: seq<nat>)
    requires ArcsOk(arcs)
    ensures |ns| == |arcs|
  {
    seq(|arcs|, i requires 0 <= i < |arcs| => Number(arcs[i]))
  }

  // Decimal digits without a leading zero, of a number of at most 31 bits.
  predicate PlainArc(p: string) {
    && AllDigits(p) && (p == "0" || (p != "" && p[0] != '0'))
    && Value(10, DigitsOf(p)) <= INT_MAX
  }

  // Plain arcs and no dot at the end.
  predicate PlainText(oid: string) {
    oid != "" && oid[|oid| - 1] != '.' && forall i :: 0 <= i < |Arcs(oid)| ==> PlainArc(Arcs(oid)[i])
  }

  lemma ShowPlain(n: nat)
    requires n <= INT_MAX
    ensures PlainArc(Show(n))
  {
    DigitsValue(10, n);
  }

  lemma PlainShow(p: string)
    requires PlainArc(p)
    ensures Number(p) >= 0 && p == Show(Number(p))
  {
    hide Digits, Value, Wrap;
    var n := Value(10, DigitsOf(p));
    NoWrap(n);
    DigitsValue(10, n);
    if p == "0" {
      ZeroDigit();
    } else {
      MinimalUnique(10, DigitsOf(p), Digits(10, n));
      PositiveValue(p);
      assert p == Text(DigitsOf(p));
    }
  }

  lemma NoWrap(n: nat)
    requires n <= INT_MAX
    ensures Wrap(n) == n
  {
  }

  lemma ZeroDigit()
    ensures DigitsOf("0") == [0] && Value(10, [0]) == 0
  {
    ValueSnoc(10, [], 0);
    assert [] + [0] == [0];
  }

  lemma PositiveValue(p: string)
    requires PlainArc(p) && p != "0"
    ensures Value(10, DigitsOf(p)) > 0
  {
    MinimalBound(10, DigitsOf(p));
  }

  function Joined(arcs: seq<string>): string
    requires arcs != []
  {
    if |arcs| == 1 then arcs[0] else arcs[0] + "." + Joined(arcs[1..])
  }

  // Without a dot at the end the text is its arcs and the dots between them.
  lemma {:induction false} JoinedArcs(oid: string)
    requires oid != "" && oid[|oid| - 1] != '.'
    ensures Arcs(oid) != [] && Joined(Arcs(oid)) == oid
    decreases |oid|
  {
    hide Dot;
    var p := Dot(oid);
    ArcsNext(oid);
    if p < |oid| {
      assert p < |oid| - 1;
      JoinedArcs(oid[p + 1..]);
      assert oid == oid[..p] + "." + oid[p + 1..];
      assert Arcs(oid)[1..] == Arcs(oid[p + 1..]);
    }
  }

  lemma {:induction false} JoinedDotted(arcs: seq<string>)
    requires arcs != [] && ArcsOk(arcs) && forall i :: 0 <= i < |arcs| ==> PlainArc(arcs[i])
    ensures Joined(arcs) == Dotted(Numbered(arcs))
  {
    hide Show, Number, PlainArc;
    PlainShow(arcs[0]);
    if |arcs| > 1 {
      JoinedDotted(arcs[1..]);
      assert Numbered(arcs)[1..] == Numbered(arcs[1..]);
    }
  }

  // What is written depends on the numbers only.
  lemma WrittenNumbers(oid: string)
    requires WriteOid(oid).Some?
    ensures ArcsOk(Arcs(oid)) && |Arcs(oid)| > 2 && Small(Numbered(Arcs(oid)))
    ensures WriteOid(oid) == WriteOid(Dotted(Numbered(Arcs(oid))))
  {
    hide Show, Number, Base128, Arcs, TailOf, Dotted, Tail;
    var arcs := Arcs(oid);
    var ns := Numbered(arcs);
    forall i | 0 <= i < |ns| ensures ns[i] <= INT_MAX {
      NumberBound(arcs[i]);
    }
    WriteDotted(ns);
    TailOfNumbered(arcs[2..]);
    assert ns[2..] == Numbered(arcs[2..]);
  }

  lemma {:induction false} TailOfNumbered(arcs: seq<string>)
    requires ArcsOk(arcs)
    ensures Tail(arcs) == TailOf(Numbered(arcs))
  {
    hide Number, Base128;
    if arcs != [] {
      TailOfNumbered(arcs[1..]);
      assert Numbered(arcs)[1..] == Numbered(arcs[1..]);
    }
  }

  // The end of a text with arcs is a digit, and each of them is plain.
  lemma {:induction false} DottedPlain(arcs: seq<nat>)
    requires arcs != [] && Small(arcs)
    ensures PlainText(Dotted(arcs))
  {
    hide PlainArc, Arcs;
    ArcsOfDotted(arcs);
    DottedEnd(arcs);
    forall i | 0 <= i < |arcs| ensures PlainArc(Shown(arcs)[i]) {
      ShowPlain(arcs[i]);
    }
  }

  lemma {:induction false} DottedEnd(arcs: seq<nat>)
    requires arcs != []
    ensures Dotted(arcs) != "" && Dotted(arcs)[|Dotted(arcs)| - 1] != '.'
  {
    if |arcs| > 1 {
      DottedEnd(arcs[1..]);
    } else {
      var p := Show(arcs[0]);
      assert IsDigit(p[|p| - 1]);
    }
  }

  /** Reading back what was written for any text that can be written gives the text exactly
      when it is plain, its first two arcs fit in an octet and no later arc has a zero group
      before its last. */
  lemma OidRoundTrip(oid: string)
    requires WriteOid(oid).Some?
    ensures WriteOid(oid).value != [] && ArcsOk(Arcs(oid))
    ensures ReadOid(WriteOid(oid).value) == Some(oid) <==> PlainText(oid) && ArcsFit(Numbered(Arcs(oid)))
  {
    hide Arcs, Dotted, ReadOid, WriteOid, PlainText, ArcsFit, Numbered, Show, ArcsOk;
    WrittenNumbers(oid);
    var ns := Numbered(Arcs(oid));
    ArcsReadBack(ns);
    if ReadOid(WriteOid(oid).value) == Some(oid) {
      var all: seq<nat> :| |all| == |ns| && Small(all) && Some(oid) == Some(Dotted(all));
      DottedPlain(all);
      NumberedDotted(all);
    }
    if PlainText(oid) {
      PlainIsDotted(oid);
    }
  }

  lemma NumberedDotted(all: seq<nat>)
    requires all != [] && Small(all)
    ensures ArcsOk(Arcs(Dotted(all))) && Numbered(Arcs(Dotted(all))) == all
  {
    hide Show, Number, Arcs, Dotted;
    ArcsOfDotted(all);
    forall i | 0 <= i < |all| ensures Number(Shown(all)[i]) == all[i] && Shown(all)[i] != "" {
      NumberOfShow(all[i]);
    }
  }

  lemma PlainIsDotted(oid: string)
    requires PlainText(oid) && ArcsOk(Arcs(oid))
    ensures Arcs(oid) != [] && Dotted(Numbered(Arcs(oid))) == oid
  {
    hide Arcs, Dotted, PlainArc, Number, Joined;
    JoinedArcs(oid);
    JoinedDotted(Arcs(oid));
  }

  lemma SharedOctet(a: nat, b: nat)
    ensures var x := (40 * a + b) % 256; x / 40 == a && x % 40 == b <==> b < 40 && 40 * a + b <= 255
  {
  }

  // Writing back what was read from the octets of some arcs gives the octets.
  lemma OctetsRoundTrip(x: byte, arcs: seq<nat>)
    requires arcs != [] && Small(arcs) && NoZeroGroups(arcs)
    ensures ReadOid([x] + TailOf(arcs)).Some?
    ensures WriteOid(ReadOid([x] + TailOf(arcs)).value) == Some([x] + TailOf(arcs))
  {
    hide Show, TailOf, ReadOid, NoZeroGroups, WriteOid;
    ReadBytes(x, arcs);
    var all := [x / 40, x % 40] + arcs;
    WriteDotted(all);
    assert all[2..] == arcs;
  }

  // ---- any octets that can be read

  // Every number is complete and at most 2^31 - 1; v is what has been read of the current one.
  predicate Plain(s: bytes, v: nat, started: bool) {
    if s == [] then !started
    else
      var next := v * 128 + s[0] % 128;
      next <= INT_MAX && if s[0] >= 128 then Plain(s[1..], next, true) else Plain(s[1..], 0, false)
  }

  // The numbers the reader makes of octets, 32 bits of each.
  function Nums(s: bytes, v: nat): seq<nat> {
    if s == [] then []
    else
      var next := v * 128 % UINT + s[0] % 128;
      if s[0] >= 128 then Nums(s[1..], next) else [next] + Nums(s[1..], 0)
  }

  lemma {:induction false} NumsRead(s: bytes, v: nat)
    requires ReadArcs(s, v).Some?
    ensures ReadArcs(s, v).value == Body(Nums(s, v)) && forall i :: 0 <= i < |Nums(s, v)| ==> Nums(s, v)[i] < UINT
    ensures 0x80 !in s
    decreases |s|
  {
    hide Show;
    if s != [] {
      var next := v * 128 % UINT + s[0] % 128;
      NextBelow(v, s[0]);
      if s[0] >= 128 {
        NumsRead(s[1..], next);
      } else {
        NumsRead(s[1..], 0);
        assert ([next] + Nums(s[1..], 0))[1..] == Nums(s[1..], 0);
      }
    }
  }

  lemma NextBelow(v: nat, b: byte)
    ensures v * 128 % UINT + b % 128 < UINT
  {
    var x := v * 128;
    assert x % UINT == x - UINT * (x / UINT);
    assert x % UINT % 128 == 0;
  }

  // What arcs are written as is plain.
  lemma {:induction false} PlainGroups(digits: seq<nat>, v: nat, rest: bytes, started: bool)
    requires digits != [] && DigitsBelow(128, digits)
    requires v * Pow(128, |digits|) + Value(128, digits) <= INT_MAX
    ensures Plain(Marked(digits) + rest, v, started) <==> Plain(rest, 0, false)
    decreases |digits|
  {
    hide Value, Pow;
    var s := Marked(digits) + rest;
    var next := v * 128 + digits[0];
    Carry(v, digits);
    assert s[0] % 128 == digits[0];
    if |digits| == 1 {
      assert s[1..] == rest;
    } else {
      assert s[1..] == Marked(digits[1..]) + rest;
      PlainGroups(digits[1..], next, rest, true);
    }
  }

  lemma {:induction false} PlainTail(arcs: seq<nat>)
    requires Small(arcs)
    ensures Plain(TailOf(arcs), 0, false)
  {
    hide Value, Pow, Digits;
    if arcs != [] {
      var n := arcs[0];
      var digits := if n == 0 then [0] else Digits(128, n);
      DigitsValue(128, n);
      ZeroValue(128);
      PlainTail(arcs[1..]);
      assert Base128(n) == Marked(digits);
      PlainGroups(digits, 0, TailOf(arcs[1..]), false);
    }
  }

  function Raised(digits: seq<nat>): bytes
    requires DigitsBelow(128, digits)
  {
    seq(|digits|, i requires 0 <= i < |digits| => digits[i] + 128)
  }

  // A number whose seven-bit groups, all but the last not zero, are given.
  lemma GroupsOf(digits: seq<nat>, last: nat) returns (n: nat)
    requires DigitsBelow(128, digits) && 0 !in digits && last < 128
    ensures n == Value(128, digits) * 128 + last && Base128(n) == Raised(digits) + [last] && NoZeroGroup(n)
  {
    var all := digits + [last];
    n := Value(128, all);
    ValueSnoc(128, digits, last);
    DigitsValue(128, n);
    if digits != [] {
      MinimalBound(128, all);
      MinimalUnique(128, all, Digits(128, n));
    } else if last != 0 {
      MinimalUnique(128, all, Digits(128, n));
    }
    LastDigit(n);
  }

  // Plain octets that can be read are those of some arcs; `digits` are the groups before them.
  lemma {:induction false} ArcsBehind(digits: seq<nat>, s: bytes) returns (arcs: seq<nat>)
    requires DigitsBelow(128, digits) && 0 !in digits && 0x80 !in s
    requires Plain(s, Value(128, digits), digits != [])
    ensures Small(arcs) && NoZeroGroups(arcs) && TailOf(arcs) == Raised(digits) + s
    decreases |s|
  {
    hide Base128, NoZeroGroup, Value, Raised, Small, NoZeroGroups, TailOf;
    if s == [] {
      RaisedNone(s);
      NoArcs();
      arcs := [];
    } else if s[0] >= 128 {
      var more := digits + [s[0] - 128];
      ValueSnoc(128, digits, s[0] - 128);
      RaisedMore(digits, s);
      arcs := ArcsBehind(more, s[1..]);
    } else {
      var n := GroupsOf(digits, s[0]);
      NoDigits();
      RaisedNone(s[1..]);
      var rest := ArcsBehind([], s[1..]);
      arcs := [n] + rest;
      MoreArcs(n, rest);
      RaisedLast(digits, s);
    }
  }

  lemma NoArcs()
    ensures Small([]) && NoZeroGroups([]) && TailOf([]) == []
  {
  }

  lemma MoreArcs(n: nat, arcs: seq<nat>)
    requires n <= INT_MAX && NoZeroGroup(n) && Small(arcs) && NoZeroGroups(arcs)
    ensures Small([n] + arcs) && NoZeroGroups([n] + arcs) && TailOf([n] + arcs) == Base128(n) + TailOf(arcs)
  {
    hide Base128, NoZeroGroup;
    assert ([n] + arcs)[1..] == arcs;
  }

  lemma RaisedNone(s: bytes)
    ensures Raised([]) == [] && Raised([]) + s == s
  {
  }

  lemma RaisedMore(digits: seq<nat>, s: bytes)
    requires DigitsBelow(128, digits) && s != [] && s[0] >= 128
    ensures Raised(digits + [s[0] - 128]) + s[1..] == Raised(digits) + s
  {
    assert s == [s[0]] + s[1..];
    assert Raised(digits + [s[0] - 128]) == Raised(digits) + [s[0]];
  }

  lemma RaisedLast(digits: seq<nat>, s: bytes)
    requires DigitsBelow(128, digits) && s != []
    ensures Raised(digits) + [s[0]] + s[1..] == Raised(digits) + s
  {
    assert s == [s[0]] + s[1..];
  }

  lemma NoDigits()
    ensures Value(128, []) == 0
  {
  }

  lemma {:induction false} BigRefused(all: seq<nat>, i: nat)
    requires i < |all| && INT_MAX < all[i] < UINT
    ensures WriteOid(Dotted(all)) == None
  {
    hide Show, Arcs;
    ArcsOfDotted(all);
    assert Number(Show(all[i])) < 0;
    assert Shown(all)[i] == Show(all[i]);
  }

  lemma ReadText(x: byte, s: bytes)
    requires ReadOid([x] + s).Some?
    ensures ReadOid([x] + s) == Some(Dotted([x / 40, x % 40] + Nums(s, 0)))
  {
    hide Show, ReadArcs, Nums;
    assert ([x] + s)[1..] == s;
    NumsRead(s, 0);
    var nums := Nums(s, 0);
    var all := [x / 40, x % 40] + nums;
    assert all[1..] == [x % 40] + nums && all[1..][1..] == nums;
    DottedBody(all[1..]);
    var a, b := Show(x / 40), Show(x % 40);
    assert a + "." + (b + Body(nums)) == a + "." + b + Body(nums);
  }

  // Writing back what was read from any octets gives the octets exactly when there is a
  // later arc, the last one is complete, and none is above 2^31 - 1.
  lemma OctetsRoundTripIff(data: bytes)
    requires data != [] && ReadOid(data).Some?
    ensures WriteOid(ReadOid(data).value) == Some(data) <==> |data| > 1 && Plain(data[1..], 0, false)
  {
    hide Show, TailOf, ReadOid, NoZeroGroups, WriteOid, Plain, Dotted, Nums;
    var x, s := data[0], data[1..];
    assert data == [x] + s;
    OctetsRead(data);
    if |data| > 1 && Plain(s, 0, false) {
      NoDigits();
      var arcs := ArcsBehind([], s);
      assert Raised([]) + s == s;
      SomeArcs(arcs, s);
      OctetsRoundTrip(x, arcs);
    }
    if WriteOid(ReadOid(data).value) == Some(data) {
      ReadText(x, s);
      var nums := Nums(s, 0);
      var all := [x / 40, x % 40] + nums;
      if i :| 0 <= i < |all| && all[i] > INT_MAX {
        BigRefused(all, i);
      } else {
        TooFew(all);
        WriteDotted(all);
        assert all[2..] == nums;
        assert ([x] + TailOf(nums))[1..] == TailOf(nums);
        PlainTail(nums);
        SomeTail(nums);
      }
    }
  }

  lemma OctetsRead(data: bytes)
    requires data != [] && ReadOid(data).Some?
    ensures 0x80 !in data[1..]
    ensures forall i :: 0 <= i < |Nums(data[1..], 0)| ==> Nums(data[1..], 0)[i] < UINT
  {
    NumsRead(data[1..], 0);
  }

  lemma SomeArcs(arcs: seq<nat>, s: bytes)
    requires TailOf(arcs) == s && s != []
    ensures arcs != []
  {
  }

  lemma SomeTail(arcs: seq<nat>)
    requires arcs != []
    ensures TailOf(arcs) != []
  {
  }

  lemma TooFew(all: seq<nat>)
    requires all != [] && WriteOid(Dotted(all)).Some?
    ensures |all| > 2
  {
    hide Show, Arcs;
    ArcsOfDotted(all);
  }
}
