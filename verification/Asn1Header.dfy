// Identifier and length octets of DER, ITU-T X.690 section 8.1 and 10.1: what the
// encoder writes, what the decoder accepts, and when the two agree.
module Asn1Header {
  import opened Wrappers
  import opened Numbers

  const UINT: nat := 0x1_0000_0000
  const INT_MAX: nat := 0x7FFF_FFFF

  // ---------------------------------------------------------------- encoding

  // Seven-bit groups, all but the last marked as being followed by another.
  function Marked(groups: seq<nat>): (s: bytes)
    requires DigitsBelow(128, groups)
    ensures |s| == |groups|
  {
    seq(|groups|, i requires 0 <= i < |groups| => if i < |groups| - 1 then groups[i] + 128 else groups[i])
  }

  function AsBytes(digits: seq<nat>): (s: bytes)
    requires DigitsBelow(256, digits)
    ensures |s| == |digits|
  {
    seq(|digits|, i requires 0 <= i < |digits| => digits[i])
  }

  predicate IsClass(cls: nat) {
    cls < 256 && cls % 32 == 0
  }

  function TagOctets(cls: nat, tag: nat): (s: bytes)
    requires IsClass(cls)
    ensures s != []
  {
    if tag < 31 then [cls + tag] else [cls + 31] + Marked(Digits(128, tag))
  }

  function LengthOctets(len: nat): (s: bytes)
    requires len <= INT_MAX
    ensures s != []
  {
    DigitsLength(256, len, 4);
    assert Pow(256, 4) == UINT;
    if len < 128 then [len] else [128 + |Digits(256, len)|] + AsBytes(Digits(256, len))
  }

  function Header(cls: nat, tag: nat, len: nat): bytes
    requires IsClass(cls) && len <= INT_MAX
  {
    TagOctets(cls, tag) + LengthOctets(len)
  }

  // ---------------------------------------------------------------- decoding

  datatype TagResult = TagError | Tag(cls: nat, tag: nat, off: nat)

  // The loop over the groups of a long tag, in 32-bit arithmetic with its wrap checks.
  function TagLoop(s: bytes, punt: nat, ris: nat): Option<(nat, nat)>
    requires punt <= |s| && ris < UINT
    decreases |s| - punt
  {
    if punt == |s| then None
    else
      var shifted := ris * 128 % UINT;
      var next := (shifted + s[punt] % 128) % UINT;
      if shifted < ris || next < shifted then None
      else if s[punt] < 128 then Some((next, punt + 1))
      else TagLoop(s, punt + 1, next)
  }

  function ParseTag(s: bytes): (r: TagResult)
    ensures r.Tag? ==> IsClass(r.cls) && 0 < r.off < |s| && r.tag < UINT
  {
    if |s| < 2 then TagError
    else if s[0] % 32 != 31 then Tag(s[0] - s[0] % 32, s[0] % 32, 1)
    else
      match TagLoop(s, 1, 0)
      case None => TagError
      case Some((tag, punt)) => if punt >= |s| then TagError else LoopBound(s, 1, 0); Tag(s[0] - 31, tag, punt)
  }

  lemma {:induction false} LoopBound(s: bytes, punt: nat, ris: nat)
    requires punt <= |s| && ris < UINT
    ensures TagLoop(s, punt, ris).Some? ==> TagLoop(s, punt, ris).value.0 < UINT && punt < TagLoop(s, punt, ris).value.1 <= |s|
    decreases |s| - punt
  {
    if punt < |s| {
      var next := (ris * 128 % UINT + s[punt] % 128) % UINT;
      LoopBound(s, punt + 1, next);
    }
  }

  // What the decoder makes of a 32-bit length: a negative number means trouble, or
  // the indefinite form when it is -1.
  function AsInt32(u: nat): int
    requires u < UINT
  {
    if u <= INT_MAX then u else u - UINT
  }

  function LengthLoop(s: bytes, k: nat, punt: nat, ans: nat): (r: (Option<nat>, nat))
    requires 0 < punt <= |s| && ans < UINT
    ensures r.0.Some? ==> r.0.value < UINT
    ensures punt <= r.1 <= |s|
    decreases |s| - punt
  {
    if punt > k || punt == |s| then (Some(ans), punt)
    else
      var shifted := ans * 256 % UINT;
      var next := (shifted + s[punt]) % UINT;
      if shifted < ans || next < shifted then (None, punt)
      else LengthLoop(s, k, punt + 1, next)
  }

  // The length (-2 when it wrapped around) and the number of octets it took (0 then).
  function ParseLength(s: bytes): (r: (int, nat))
    requires s != []
    ensures r.1 <= |s|
  {
    if s[0] < 128 then (s[0], 1)
    else if s[0] == 128 then (-1, 1)
    else
      var (ans, punt) := LengthLoop(s, s[0] - 128, 1, 0);
      if ans == None then (-2, 0) else (AsInt32(ans.value), punt)
  }

  datatype HeaderResult = HeaderError | Hdr(cls: nat, tag: nat, off: nat, len: int)

  function ParseHeader(s: bytes): (r: HeaderResult)
    ensures r.Hdr? ==> IsClass(r.cls) && r.tag < UINT && 0 < r.off && -1 <= r.len <= INT_MAX
    ensures r.Hdr? && r.len >= 0 ==> r.off + r.len <= |s|
    ensures r.Hdr? ==> r.off <= |s|
  {
    match ParseTag(s)
    case TagError => HeaderError
    case Tag(cls, tag, cb1) =>
      var (len, cb2) := ParseLength(s[cb1..]);
      if len < -1 || (len >= 0 && cb1 + cb2 + len > |s|) then HeaderError
      else Hdr(cls, tag, cb1 + cb2, len)
  }

  // ------------------------------------------------- decoding what was encoded

  // One more digit, as long as the number fits into 32 bits, does not wrap.
  lemma NoWrap(b: nat, ris: nat, g: nat)
    requires 2 <= b <= 256 && g < b && b * ris + g < UINT
    ensures ris * b % UINT == b * ris && (b * ris + g) % UINT == b * ris + g && ris <= b * ris
  {
    MulLe(ris, 1, b);
  }

  // Reading the digits of a number from the front never exceeds it.
  lemma PrefixFits(b: nat, before: seq<nat>, digits: seq<nat>, rest: seq<nat>)
    requires b > 0
    ensures Value(b, before + digits) <= Value(b, before + digits + rest)
  {
    ValueAppend(b, before + digits, rest);
    MulLe(Value(b, before + digits), 1, Pow(b, |rest|));
  }

  // One group is read without wrapping.
  lemma TagLoopNext(s: bytes, punt: nat, before: seq<nat>, g: nat)
    requires punt < |s| && g < 128 && s[punt] % 128 == g && Value(128, before + [g]) < UINT && Value(128, before) < UINT
    ensures TagLoop(s, punt, Value(128, before)) ==
              if s[punt] < 128 then Some((Value(128, before + [g]), punt + 1)) else TagLoop(s, punt + 1, Value(128, before + [g]))
  {
    hide Value;
    ValueSnoc(128, before, g);
    NoWrap(128, Value(128, before), g);
  }

  lemma MarkedNext(groups: seq<nat>, rest: bytes)
    requires groups != [] && DigitsBelow(128, groups)
    ensures var m := Marked(groups) + rest;
            && m[0] % 128 == groups[0] && (m[0] < 128 <==> |groups| == 1)
            && m[1..] == Marked(groups[1..]) + rest
  {
    assert Marked(groups)[1..] == Marked(groups[1..]);
    assert (Marked(groups) + rest)[1..] == Marked(groups)[1..] + rest;
  }

  // Without wrapping, the loop reads the groups as a base-128 number.
  lemma {:induction false} TagLoopReads(s: bytes, punt: nat, before: seq<nat>, groups: seq<nat>, rest: bytes)
    requires punt <= |s| && groups != [] && DigitsBelow(128, groups) && s[punt..] == Marked(groups) + rest
    requires Value(128, before + groups) < UINT && Value(128, before) < UINT
    ensures TagLoop(s, punt, Value(128, before)) == Some((Value(128, before + groups), punt + |groups|))
    decreases |groups|
  {
    hide Value, Marked, TagLoop;
    var g := groups[0];
    MarkedNext(groups, rest);
    assert s[punt] == s[punt..][0] && s[punt + 1..] == s[punt..][1..];
    assert before + groups == (before + [g]) + groups[1..];
    PrefixFits(128, before, [g], groups[1..]);
    TagLoopNext(s, punt, before, g);
    if |groups| == 1 {
      assert before + groups == before + [g];
    } else {
      TagLoopReads(s, punt + 1, before + [g], groups[1..], rest);
    }
  }

  lemma {:induction false} LengthLoopReads(s: bytes, k: nat, punt: nat, before: seq<nat>, digits: seq<nat>, rest: bytes)
    requires 0 < punt <= |s| && k == punt + |digits| - 1
    requires DigitsBelow(256, digits) && s[punt..] == AsBytes(digits) + rest
    requires Value(256, before + digits) < UINT && Value(256, before) < UINT
    ensures LengthLoop(s, k, punt, Value(256, before)) == (Some(Value(256, before + digits)), punt + |digits|)
    decreases |digits|
  {
    hide Value;
    if digits == [] {
      assert before + digits == before;
    } else {
      var ans, g := Value(256, before), digits[0];
      assert s[punt] == s[punt..][0] == g;
      assert before + digits == (before + [g]) + digits[1..];
      PrefixFits(256, before, [g], digits[1..]);
      ValueSnoc(256, before, g);
      NoWrap(256, ans, g);
      assert s[punt + 1..] == s[punt..][1..];
      assert AsBytes(digits)[1..] == AsBytes(digits[1..]);
      LengthLoopReads(s, k, punt + 1, before + [g], digits[1..], rest);
    }
  }

  lemma TagReadsBack(cls: nat, tag: nat, rest: bytes)
    requires IsClass(cls) && tag < UINT && rest != []
    ensures ParseTag(TagOctets(cls, tag) + rest) == Tag(cls, tag, |TagOctets(cls, tag)|)
  {
    hide Value, Marked, TagLoop, Digits;
    if tag >= 31 {
      var s, groups := TagOctets(cls, tag) + rest, Digits(128, tag);
      assert s == [cls + 31] + Marked(groups) + rest;
      DigitsValue(128, tag);
      assert s[1..] == Marked(groups) + rest;
      assert [] + groups == groups;
      ValueZero(128);
      TagLoopReads(s, 1, [], groups, rest);
    }
  }

  lemma LengthReadsBack(len: nat, rest: bytes)
    requires len <= INT_MAX
    ensures ParseLength(LengthOctets(len) + rest) == (len, |LengthOctets(len)|)
  {
    hide Value, Digits, LengthLoop, LengthOctets;
    var s := LengthOctets(len) + rest;
    ShortLength(len);
    if len >= 128 {
      var digits := Digits(256, len);
      DigitsValue(256, len);
      LongLength(len);
      assert s[1..] == AsBytes(digits) + rest;
      assert [] + digits == digits;
      ValueZero(256);
      LengthLoopReads(s, |digits|, 1, [], digits, rest);
    }
  }

  // Decoding a header that was encoded gives back class, tag and length.
  lemma HeaderReadsBack(cls: nat, tag: nat, len: nat, rest: bytes)
    requires IsClass(cls) && tag < UINT && len <= INT_MAX && len <= |rest|
    ensures ParseHeader(Header(cls, tag, len) + rest) == Hdr(cls, tag, |Header(cls, tag, len)|, len)
  {
    var s := Header(cls, tag, len) + rest;
    assert s == TagOctets(cls, tag) + (LengthOctets(len) + rest);
    TagReadsBack(cls, tag, LengthOctets(len) + rest);
    assert s[|TagOctets(cls, tag)|..] == LengthOctets(len) + rest;
    LengthReadsBack(len, rest);
  }

  // --------------------------------------------------- every header there is

  function Groups(t: bytes): (g: seq<nat>)
    ensures |g| == |t| && DigitsBelow(128, g)
  {
    seq(|t|, i requires 0 <= i < |t| => t[i] % 128)
  }

  function Octets(t: bytes): (g: seq<nat>)
    ensures |g| == |t| && DigitsBelow(256, g)
  {
    seq(|t|, i requires 0 <= i < |t| => t[i])
  }

  // Section 8.1.2.4: a tag in groups of seven bits, all but the last of them marked.
  ghost predicate TagGroups(s: bytes, form: nat, number: nat) {
    && |s| > 1 && s[0] == form + 31 && (forall i :: 1 <= i < |s| ==> (s[i] >= 128 <==> i < |s| - 1))
    && Value(128, Groups(s[1..])) == number
  }

  // Section 8.1.3.5: how many octets follow, and the length in them.
  ghost predicate LengthGroups(s: bytes, len: nat) {
    |s| > 1 && s[0] == 127 + |s| && Value(256, Octets(s[1..])) == len
  }

  // The check for wrapping around looks at one step at a time, and only at the number shifted.
  ghost predicate WrapSeen(b: nat, d: seq<nat>) {
    exists j :: 0 <= j < |d| && Value(b, d[..j]) % UINT > Value(b, d[..j]) % UINT * b % UINT
  }

  // One digit more, in 32 bits: adding it never wraps.
  lemma {:induction false} ShiftModulo(b: nat, v: nat, g: nat)
    requires (b == 128 || b == 256) && g < b
    ensures v % UINT * b % UINT + g < UINT && v % UINT * b % UINT + g == (b * v + g) % UINT
  {
    var q, r, m := v / UINT, v % UINT, UINT / b;
    DivModOf(v, UINT);
    DivModOf(r * b, UINT);
    var a, x := r * b / UINT, r * b % UINT;
    WholeDigit(b, m, r, a, x, g);
    Shifted(b, v, g, q, r, a, x);
    ModIs(UINT, b * v + g, b * q + a, x + g);
  }

  lemma Shifted(b: int, v: int, g: int, q: int, r: int, a: int, x: int)
    requires v == UINT * q + r && r * b == UINT * a + x
    ensures b * v + g == UINT * (b * q + a) + (x + g)
  {
    assert b * (UINT * q + r) == UINT * (b * q) + b * r;
  }

  lemma WholeDigit(b: nat, m: nat, r: nat, a: nat, x: nat, g: nat)
    requires g < b && b * m == UINT && r * b == UINT * a + x && x < UINT
    ensures x + g < UINT
  {
    var y := r - m * a;
    assert x == b * y by {
      assert b * (m * a) == UINT * a;
    }
    if y >= m {
      MulLe(b, m, y);
    } else {
      MulLe(b, y + 1, m);
    }
  }

  lemma {:induction false} StepModulo(b: nat, before: seq<nat>, g: nat)
    requires (b == 128 || b == 256) && g < b
    ensures var ris := Value(b, before) % UINT;
            var next := (ris * b % UINT + g) % UINT;
            next == Value(b, before + [g]) % UINT && ris * b % UINT <= next
  {
    hide Value;
    ValueSnoc(b, before, g);
    ShiftModulo(b, Value(b, before), g);
    SmallMod(Value(b, before) % UINT * b % UINT + g);
  }

  lemma SmallMod(x: nat)
    ensures x < UINT ==> x % UINT == x
  {
  }

  lemma {:induction false} WrapSeenNext(b: nat, before: seq<nat>, d: seq<nat>)
    requires d != []
    ensures WrapFrom(b, before, d) <==>
              Value(b, before) % UINT > Value(b, before) % UINT * b % UINT || WrapFrom(b, before + [d[0]], d[1..])
  {
    hide Value;
    if WrapFrom(b, before, d) {
      var j :| 0 <= j < |d| && Value(b, before + d[..j]) % UINT > Value(b, before + d[..j]) % UINT * b % UINT;
      if j == 0 {
        assert before + d[..0] == before;
      } else {
        assert before + d[..j] == before + [d[0]] + d[1..][..j - 1];
      }
    }
    if WrapFrom(b, before + [d[0]], d[1..]) {
      var j :| 0 <= j < |d| - 1
               && Value(b, before + [d[0]] + d[1..][..j]) % UINT > Value(b, before + [d[0]] + d[1..][..j]) % UINT * b % UINT;
      assert before + d[..j + 1] == before + [d[0]] + d[1..][..j];
    }
    assert before + d[..0] == before;
  }

  ghost predicate WrapFrom(b: nat, before: seq<nat>, d: seq<nat>) {
    exists j :: 0 <= j < |d| && Value(b, before + d[..j]) % UINT > Value(b, before + d[..j]) % UINT * b % UINT
  }

  lemma {:induction false} TagLoopModulo(s: bytes, punt: nat, before: seq<nat>, end: nat)
    requires punt < end <= |s| && forall i :: punt <= i < end ==> (s[i] >= 128 <==> i < end - 1)
    ensures TagLoop(s, punt, Value(128, before) % UINT) ==
              if WrapFrom(128, before, Groups(s[punt..end])) then None
              else Some((Value(128, before + Groups(s[punt..end])) % UINT, end))
    decreases end - punt
  {
    hide Value, WrapFrom;
    var d := Groups(s[punt..end]);
    StepModulo(128, before, d[0]);
    WrapSeenNext(128, before, d);
    assert d[1..] == Groups(s[punt + 1..end]);
    assert before + d == before + [d[0]] + d[1..];
    if end == punt + 1 {
      assert before + d == before + [d[0]];
      NoWrapLeft(before + [d[0]]);
    } else {
      TagLoopModulo(s, punt + 1, before + [d[0]], end);
    }
  }

  // Every group is marked.
  lemma {:induction false} TagLoopEnds(s: bytes, punt: nat, ris: nat)
    requires punt <= |s| && ris < UINT && forall i :: punt <= i < |s| ==> s[i] >= 128
    ensures TagLoop(s, punt, ris) == None
    decreases |s| - punt
  {
    if punt < |s| {
      TagLoopEnds(s, punt + 1, (ris * 128 % UINT + s[punt] % 128) % UINT);
    }
  }

  lemma {:induction false} LengthLoopModulo(s: bytes, k: nat, punt: nat, before: seq<nat>, end: nat)
    requires 0 < punt <= end <= |s| && (end == k + 1 || (end == |s| && k >= end))
    ensures var d := Octets(s[punt..end]);
            if WrapFrom(256, before, d) then LengthLoop(s, k, punt, Value(256, before) % UINT).0 == None
            else LengthLoop(s, k, punt, Value(256, before) % UINT) == (Some(Value(256, before + d) % UINT), end)
    decreases end - punt
  {
    hide Value, WrapFrom;
    var d := Octets(s[punt..end]);
    if punt == end {
      assert before + d == before;
      NoWrapLeft(before);
    } else {
      StepModulo(256, before, d[0]);
      WrapSeenNext(256, before, d);
      assert d[1..] == Octets(s[punt + 1..end]);
      assert before + d == before + [d[0]] + d[1..];
      LengthLoopModulo(s, k, punt + 1, before + [d[0]], end);
    }
  }

  lemma {:induction false} WrapFromNone(b: nat, d: seq<nat>)
    ensures WrapFrom(b, [], d) <==> WrapSeen(b, d)
    ensures Value(b, []) % UINT == 0
  {
    assert forall j :: 0 <= j < |d| ==> [] + d[..j] == d[..j];
  }

  // Where the groups of a tag end.
  ghost predicate GroupsEnd(s: bytes, end: nat) {
    1 < end <= |s| && forall i :: 1 <= i < end ==> (s[i] >= 128 <==> i < end - 1)
  }

  /** What is read as a tag: in the short form the number in the first octet, in the long form
      the groups up to the first one that is not marked, modulo 2^32. It is refused when the
      data are too short for a length to follow, and when a step is seen to wrap around. */
  lemma TagRead(s: bytes)
    ensures |s| < 2 ==> ParseTag(s).TagError?
    ensures |s| >= 2 && s[0] % 32 != 31 ==> ParseTag(s) == Tag(s[0] - s[0] % 32, s[0] % 32, 1)
    ensures |s| >= 2 && s[0] % 32 == 31 ==>
              (ParseTag(s).Tag? <==> exists end: nat :: GroupsEnd(s, end) && end < |s| && !WrapSeen(128, Groups(s[1..end])))
    ensures |s| >= 2 && s[0] % 32 == 31 && ParseTag(s).Tag? ==>
              var r := ParseTag(s);
              r.cls == s[0] - 31 && GroupsEnd(s, r.off) && r.tag == Value(128, Groups(s[1..r.off])) % UINT
  {
    hide Value, WrapFrom, WrapSeen, TagLoop;
    if |s| >= 2 && s[0] % 32 == 31 {
      if i :| 1 <= i < |s| && s[i] < 128 && forall j :: 1 <= j < i ==> s[j] >= 128 {
        LongTagRead(s, i + 1);
      } else {
        FirstUnmarked(s);
        assert forall end: nat :: GroupsEnd(s, end) ==> s[end - 1] < 128;
        TagLoopEnds(s, 1, 0);
      }
    }
  }

  lemma {:induction false} LongTagRead(s: bytes, end: nat)
    requires GroupsEnd(s, end) && s[0] % 32 == 31
    ensures forall e: nat :: GroupsEnd(s, e) ==> e == end
    ensures var d := Groups(s[1..end]);
            ParseTag(s) == if end >= |s| || WrapSeen(128, d) then TagError else Tag(s[0] - 31, Value(128, d) % UINT, end)
  {
    hide Value, WrapFrom, WrapSeen, TagLoop;
    var d := Groups(s[1..end]);
    WrapFromNone(128, d);
    assert [] + d == d;
    TagLoopModulo(s, 1, [], end);
    forall e: nat | GroupsEnd(s, e) ensures e == end {
      assert s[e - 1] < 128 && s[end - 1] < 128;
    }
  }

  lemma {:induction false} FirstUnmarked(s: bytes)
    requires forall i :: 1 <= i < |s| && s[i] < 128 ==> exists j :: 1 <= j < i && s[j] < 128
    ensures forall i :: 1 <= i < |s| ==> s[i] >= 128
  {
    var i := 1;
    while i < |s|
      invariant |s| > 0 ==> 1 <= i
      invariant forall j :: 1 <= j < i && j < |s| ==> s[j] >= 128
    {
      i := i + 1;
    }
  }

  /** What is read as a length: a small number, -1 for the indefinite form, or as many octets as
      were announced, or as are left, as a number modulo 2^32 and with a sign; -2 when a step is
      seen to wrap around. */
  lemma LengthRead(s: bytes)
    requires s != []
    ensures s[0] < 128 ==> ParseLength(s) == (s[0], 1)
    ensures s[0] == 128 ==> ParseLength(s) == (-1, 1)
    ensures s[0] > 128 ==>
              var end := if s[0] as int - 127 <= |s| then s[0] as int - 127 else |s|;
              var d := Octets(s[1..end]);
              var v := Value(256, d) % 0x1_0000_0000;
              ParseLength(s) == if WrapSeen(256, d) then (-2, 0) else (if v < 0x8000_0000 then v else v - 0x1_0000_0000, end)
  {
    hide Value, WrapFrom, WrapSeen, LengthLoop;
    if s[0] > 128 {
      var end := if s[0] as int - 127 <= |s| then s[0] as int - 127 else |s|;
      var d := Octets(s[1..end]);
      WrapFromNone(256, d);
      assert [] + d == d;
      LengthLoopModulo(s, s[0] as int - 128, 1, [], end);
    }
  }

  lemma NoWrapLeft(before: seq<nat>)
    ensures !WrapFrom(128, before, []) && !WrapFrom(256, before, [])
  {
  }

  // ------------------------------------------------------- minimal encodings

  // Section 8.1.2: the long form is for tags from 31 on, and does not start with an
  // empty group. Tags that do not fit into 32 bits are out of the decoder's reach.
  ghost predicate MinimalTag(t: bytes) {
    |t| <= 1 || (t[1] != 128 && (|t| > 2 || t[1] >= 31) && Value(128, Groups(t[1..])) < UINT)
  }

  // Section 10.1: the length is encoded in the minimum number of octets.
  ghost predicate MinimalLength(l: bytes) {
    l != [] &&
    (l[0] < 128 ||
     (1 < |l| == l[0] as int - 127 && l[1] != 0 && (|l| > 2 || l[1] >= 128) && Value(256, Octets(l[1..])) < UINT))
  }

  // All groups but the last one are marked.
  lemma {:induction false} TagLoopShape(s: bytes, punt: nat, ris: nat)
    requires punt <= |s| && ris < UINT && TagLoop(s, punt, ris).Some?
    ensures var p := TagLoop(s, punt, ris).value.1;
            && punt < p <= |s| && s[p - 1] < 128 && forall i :: punt <= i < p - 1 ==> s[i] >= 128
    decreases |s| - punt
  {
    if s[punt] >= 128 {
      var next := (ris * 128 % UINT + s[punt] % 128) % UINT;
      TagLoopShape(s, punt + 1, next);
    }
  }

  lemma MarkedGroups(t: bytes)
    requires t != [] && t[|t| - 1] < 128 && forall i :: 0 <= i < |t| - 1 ==> t[i] >= 128
    ensures Marked(Groups(t)) == t
  {
  }

  lemma MinimalTagIsEncoded(s: bytes)
    requires ParseTag(s).Tag? && MinimalTag(s[..ParseTag(s).off])
    ensures s[..ParseTag(s).off] == TagOctets(ParseTag(s).cls, ParseTag(s).tag)
  {
    hide Value, Digits, Marked, TagLoop;
    var r := ParseTag(s);
    if s[0] % 32 == 31 {
      TagLoopShape(s, 1, 0);
      var t := s[..r.off];
      var g := Groups(t[1..]);
      MarkedGroups(t[1..]);
      assert s[1..] == Marked(g) + s[r.off..];
      assert [] + g == g;
      ValueZero(128);
      TagLoopReads(s, 1, [], g, s[r.off..]);
      DigitsValue(128, r.tag);
      assert g[0] == t[1] % 128 != 0;
      MinimalUnique(128, g, Digits(128, r.tag));
      LargeNumeral(128, g, 31);
      assert t == [s[0]] + t[1..];
    }
  }

  lemma EncodedTagIsMinimal(cls: nat, tag: nat)
    requires IsClass(cls) && tag < UINT
    ensures MinimalTag(TagOctets(cls, tag))
  {
    hide Value, Digits, Marked;
    if tag >= 31 {
      var g := Digits(128, tag);
      var t := TagOctets(cls, tag);
      DigitsValue(128, tag);
      assert t[1..] == Marked(g);
      MarkedBack(g);
      if |g| == 1 {
        ValueZero(128);
        ValueSnoc(128, [], g[0]);
        assert g == [] + [g[0]];
      }
    }
  }

  lemma MarkedBack(g: seq<nat>)
    requires DigitsBelow(128, g)
    ensures Groups(Marked(g)) == g && (g != [] && g[0] != 0 ==> Marked(g)[0] != 128)
    ensures |g| == 1 ==> Marked(g)[0] == g[0]
  {
  }

  lemma MinimalLengthIsEncoded(s: bytes)
    requires s != [] && ParseLength(s).0 >= 0 && MinimalLength(s[..ParseLength(s).1])
    ensures ParseLength(s).0 <= INT_MAX
    ensures s[..ParseLength(s).1] == LengthOctets(ParseLength(s).0)
  {
    hide Value, Digits;
    var (len, cb) := ParseLength(s);
    if s[0] > 128 {
      var l := s[..cb];
      var d := Octets(l[1..]);
      assert AsBytes(d) == l[1..];
      assert s[1..] == AsBytes(d) + s[cb..];
      assert [] + d == d;
      ValueZero(256);
      LengthLoopReads(s, s[0] as int - 128, 1, [], d, s[cb..]);
      DigitsValue(256, len);
      assert d[0] == l[1];
      MinimalUnique(256, d, Digits(256, len));
      LargeNumeral(256, d, 128);
      LongLength(len);
    }
  }

  lemma ValueZero(b: nat)
    ensures Value(b, []) == 0
  {
  }

  // A minimal numeral of two digits, or of one that is at least k, stands for at least k.
  lemma LargeNumeral(b: nat, d: seq<nat>, k: nat)
    requires b > 1 && d != [] && d[0] != 0 && k <= b && (|d| > 1 || d[0] >= k)
    ensures Value(b, d) >= k
  {
    if |d| > 1 {
      MinimalBound(b, d);
      PowMonotone(b, 1, |d| - 1);
      assert Pow(b, 1) == b * Pow(b, 0) == b;
    } else {
      ValueSnoc(b, [], d[0]);
      assert d == [] + [d[0]];
    }
  }

  lemma EncodedLengthIsMinimal(len: nat)
    requires len <= INT_MAX
    ensures MinimalLength(LengthOctets(len))
  {
    if len >= 128 {
      var d := Digits(256, len);
      DigitsValue(256, len);
      assert LengthOctets(len)[1..] == AsBytes(d);
      assert Octets(AsBytes(d)) == d;
      if |d| == 1 {
        ValueSnoc(256, [], d[0]);
        assert d == [] + [d[0]];
      }
    }
  }

  // The identifier and the length octets at the front of s are minimal.
  ghost predicate MinimalHeader(s: bytes)
    requires ParseHeader(s).Hdr?
  {
    var cb := ParseTag(s).off;
    MinimalTag(s[..cb]) && MinimalLength(s[cb..ParseHeader(s).off])
  }

  // Exactly the minimal headers are the ones the encoder writes.
  lemma MinimalHeaderIff(s: bytes)
    requires ParseHeader(s).Hdr? && ParseHeader(s).len >= 0
    ensures var r := ParseHeader(s);
            MinimalHeader(s) <==> s[..r.off] == Header(r.cls, r.tag, r.len)
  {
    hide MinimalTag, MinimalLength, TagOctets, LengthOctets, TagLoop, LengthLoop;
    var r := ParseHeader(s);
    var cb := ParseTag(s).off;
    var l := s[cb..];
    assert s[..r.off] == s[..cb] + s[cb..r.off];
    assert l[..ParseLength(l).1] == s[cb..r.off];
    if MinimalHeader(s) {
      MinimalTagIsEncoded(s);
      MinimalLengthIsEncoded(l);
    }
    if s[..r.off] == Header(r.cls, r.tag, r.len) {
      var t := TagOctets(r.cls, r.tag);
      var rest := LengthOctets(r.len) + s[r.off..];
      assert s == s[..r.off] + s[r.off..];
      assert s == t + rest;
      TagReadsBack(r.cls, r.tag, rest);
      assert s[..cb] == t && s[cb..r.off] == LengthOctets(r.len);
      EncodedTagIsMinimal(r.cls, r.tag);
      EncodedLengthIsMinimal(r.len);
    }
  }

  // ------------------------------------------------------------ the C loops

  // atlv_parse_cls_tag
  method AtlvParseClsTag(data: bytes, at: nat, end: nat) returns (ok: bool, cls: nat, tag: nat, off: nat)
    requires at <= end <= |data|
    ensures ok <==> ParseTag(data[at..end]).Tag?
    ensures ok ==> ParseTag(data[at..end]) == Tag(cls, tag, off)
  {
    ghost var s := data[at..end];
    cls, tag, off := 0, 0, 0;
    var n := end - at;
    if n < 2 {
      return false, cls, tag, off;
    }
    cls := data[at] - data[at] % 32;
    if data[at] % 32 != 31 {
      return true, cls, data[at] % 32, 1;
    }
    var punt, ris := 1, 0;
    while punt < n
      invariant 1 <= punt <= n && ris < UINT
      invariant TagLoop(s, 1, 0) == TagLoop(s, punt, ris)
    {
      var val := data[at + punt];
      assert val == s[punt];
      var last := ris;
      ris := ris * 128 % UINT;
      if ris < last {
        return false, cls, tag, off;
      }
      last := ris;
      ris := (ris + val % 128) % UINT;
      if ris < last {
        return false, cls, tag, off;
      }
      punt := punt + 1;
      if val < 128 {
        if punt >= n {
          return false, cls, tag, off;
        }
        return true, cls, ris, punt;
      }
    }
    ok := false;
  }

  // atlv_parse_length
  method AtlvParseLength(data: bytes, at: nat, end: nat) returns (len: int, off: nat)
    requires at < end <= |data|
    ensures (len, off) == ParseLength(data[at..end])
  {
    ghost var s := data[at..end];
    var n := end - at;
    if data[at] < 128 {
      return data[at], 1;
    }
    var k, punt, ans := data[at] as int - 128, 1, 0;
    if k == 0 {
      return -1, 1;
    }
    while punt <= k && punt < n
      invariant 1 <= punt <= n && ans < UINT
      invariant LengthLoop(s, k, 1, 0) == LengthLoop(s, k, punt, ans)
    {
      assert data[at + punt] == s[punt];
      var last := ans;
      ans := ans * 256 % UINT;
      if ans < last {
        return -2, 0;
      }
      last := ans;
      ans := (ans + data[at + punt]) % UINT;
      punt := punt + 1;
      if ans < last {
        return -2, 0;
      }
    }
    len, off := AsInt32(ans), punt;
  }

  // atlv_parse_cls_tag_len
  method AtlvParseClsTagLen(data: bytes, at: nat, end: nat) returns (ok: bool, cls: nat, tag: nat, off: nat, len: int)
    requires at <= end <= |data|
    ensures ok <==> ParseHeader(data[at..end]).Hdr?
    ensures ok ==> ParseHeader(data[at..end]) == Hdr(cls, tag, off, len)
  {
    var cb1, cb2;
    off, len := 0, 0;
    ok, cls, tag, cb1 := AtlvParseClsTag(data, at, end);
    if !ok {
      return;
    }
    assert data[at..end][cb1..] == data[at + cb1..end];
    len, cb2 := AtlvParseLength(data, at + cb1, end);
    if len < -1 {
      return false, cls, tag, off, len;
    }
    off := cb1 + cb2;
    if len >= 0 && at + off + len > end {
      ok := false;
    }
  }

  // The loop that strips digits off, least significant first.
  method Strip(b: nat, number: nat) returns (temp: seq<nat>)
    requires b > 1
    ensures Reverse(temp) == Digits(b, number) && DigitsBelow(b, temp)
  {
    temp := [];
    var n: nat := number;
    assert Digits(b, n) + Reverse([]) == Digits(b, n);
    while n > 0
      invariant Digits(b, number) == Digits(b, n) + Reverse(temp) && DigitsBelow(b, temp)
      decreases n
    {
      DivMod(b, n);
      ReverseSnoc<nat>(temp, n % b);
      assert Digits(b, n) + Reverse(temp) == Digits(b, n / b) + ([n % b] + Reverse(temp));
      temp := temp + [n % b];
      n := n / b;
    }
    assert Digits(b, 0) == [] && [] + Reverse(temp) == Reverse(temp);
  }

  lemma ShortLength(len: nat)
    ensures len < 128 ==> LengthOctets(len) == [len]
  {
  }

  lemma LongLength(len: nat)
    requires 128 <= len <= INT_MAX
    ensures |Digits(256, len)| <= 4
    ensures LengthOctets(len) == [128 + |Digits(256, len)|] + AsBytes(Digits(256, len))
  {
    DigitsLength(256, len, 4);
    assert Pow(256, 4) == UINT;
  }

  // Write the stripped digits in the right order: data[off - 1 - k] = temp[k] + mark, k falling.
  method WriteBack(data: array<byte>, at: nat, temp: seq<nat>, mark: nat)
    requires at + |temp| <= data.Length && forall i :: 0 <= i < |temp| ==> temp[i] + mark < 256
    modifies data
    ensures forall i :: at <= i < at + |temp| ==> data[i] == temp[at + |temp| - 1 - i] + mark
    ensures forall i :: 0 <= i < data.Length && !(at <= i < at + |temp|) ==> data[i] == old(data[i])
  {
    var k := |temp|;
    while k > 0
      invariant 0 <= k <= |temp|
      invariant forall i :: at <= i < at + |temp| - k ==> data[i] == temp[at + |temp| - 1 - i] + mark
      invariant forall i :: 0 <= i < data.Length && !(at <= i < at + |temp|) ==> data[i] == old(data[i])
    {
      k := k - 1;
      data[at + |temp| - 1 - k] := temp[k] + mark;
    }
  }

  // atlv_unparse_len: with no buffer, only the size is worked out
  method AtlvUnparseLen(len: nat, ans: array?<byte>, at: nat) returns (cb: nat)
    requires len <= INT_MAX
    requires ans != null ==> at + |LengthOctets(len)| <= ans.Length
    modifies if ans == null then {} else {ans}
    ensures cb == |LengthOctets(len)|
    ensures ans != null ==> ans[at..at + cb] == LengthOctets(len)
    ensures ans != null ==> forall i :: 0 <= i < ans.Length && !(at <= i < at + cb) ==> ans[i] == old(ans[i])
  {
    hide Digits, Reverse, LengthOctets;
    ShortLength(len);
    if len < 128 {
      if ans != null {
        ans[at] := len;
      }
      return 1;
    }
    LongLength(len);
    var temp := Strip(256, len);
    ReverseAt(temp);
    assert |temp| <= 8;
    cb := |temp| + 1;
    if ans != null {
      ans[at] := |temp| % 128 + 128;
      WriteBack(ans, at + 1, temp, 0);
      assert ans[at..at + cb] == LengthOctets(len);
    }
  }

  // atlv_unparse_cls_tag_len: the size of a header, written out when there is a buffer
  method AtlvUnparseClsTagLen(data: array?<byte>, at: nat, cls: nat, tag: nat, len: nat) returns (off: nat)
    requires IsClass(cls) && tag < UINT && len <= INT_MAX
    requires data != null ==> at + |Header(cls, tag, len)| <= data.Length
    modifies if data == null then {} else {data}
    ensures off == |Header(cls, tag, len)|
    ensures data != null ==> data[at..at + off] == Header(cls, tag, len)
    ensures data != null ==> forall i :: 0 <= i < data.Length && !(at <= i < at + off) ==> data[i] == old(data[i])
  {
    hide LengthOctets, TagOctets;
    off := UnparseTag(data, at, cls, tag);
    ghost var written := if data == null then [] else data[at..at + off];
    var cb := AtlvUnparseLen(len, data, at + off);
    off := off + cb;
    if data != null {
      assert data[at..at + off] == data[at..at + off - cb] + data[at + off - cb..at + off];
      assert data[at..at + off - cb] == written;
    }
  }

  lemma LongTag(cls: nat, tag: nat)
    requires IsClass(cls) && 31 <= tag < UINT
    ensures |Digits(128, tag)| <= 5 && Digits(128, tag) != []
    ensures TagOctets(cls, tag) == [cls + 31] + Marked(Digits(128, tag))
  {
    assert Pow(128, 5) == 128 * 128 * 128 * 128 * 128;
    DigitsLength(128, tag, 5);
  }

  lemma ShortTag(cls: nat, tag: nat)
    requires IsClass(cls)
    ensures tag < 31 ==> TagOctets(cls, tag) == [cls + tag]
  {
  }

  // The identifier octets of a header.
  method UnparseTag(data: array?<byte>, at: nat, cls: nat, tag: nat) returns (off: nat)
    requires IsClass(cls) && tag < UINT
    requires data != null ==> at + |TagOctets(cls, tag)| <= data.Length
    modifies if data == null then {} else {data}
    ensures off == |TagOctets(cls, tag)|
    ensures data != null ==> data[at..at + off] == TagOctets(cls, tag)
    ensures data != null ==> forall i :: 0 <= i < data.Length && !(at <= i < at + off) ==> data[i] == old(data[i])
  {
    hide Digits, Reverse, TagOctets;
    ShortTag(cls, tag);
    if tag < 31 {
      if data != null {
        data[at] := cls + tag;
      }
      return 1;
    }
    LongTag(cls, tag);
    var temp := Strip(128, tag);
    ReverseAt(temp);
    assert |temp| <= 8;
    off := |temp| + 1;
    if data != null {
      data[at] := cls + 31;
      WriteBack(data, at + 1, temp, 128);
      data[at + off - 1] := data[at + off - 1] - 128;
      assert data[at..at + off] == TagOctets(cls, tag);
    }
  }
}
