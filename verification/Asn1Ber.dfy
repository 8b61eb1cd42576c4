// The basic encoding rules of ITU-T X.690: lengths and tags in more octets than needed, and
// the indefinite form. Every encoding they allow is read as the tree it stands for.
module Asn1Ber {
  import opened Wrappers
  import opened Numbers
  import opened Asn1Header
  import opened Asn1Tlv

  // Section 8.1.2: the short form for numbers up to 30, or groups.
  ghost predicate BerTag(s: bytes, cls: nat, number: nat) {
    (number < 31 && s == [cls + number]) || TagGroups(s, cls, number)
  }

  // Section 8.1.3: one octet up to 127, or as many as announced.
  ghost predicate BerLength(s: bytes, len: nat) {
    (len < 128 && s == [len]) || LengthGroups(s, len)
  }

  // Section 8.1.5: two zero octets, which are the record of class and number zero without content.
  predicate EndOfContents(t: Atlv) {
    t.cls == 0 && t.tag == 0 && t.len == 0
  }

  /** An encoding of a tree: identifier octets, length octets and contents, which are those of
      the children one after the other in a structured record. In the indefinite form, -1 for a
      length, two zero octets come after the children. Numbers are those of the model's integers. */
  ghost predicate Ber(s: bytes, t: Atlv)
    decreases t, 1
  {
    && Plain(t) && t.cls < 256 && t.cls % 32 == 0 && t.tag < UINT && t.off <= |s|
    && (exists k :: 0 < k < t.off && BerTag(s[..k], t.cls, t.tag)
                    && if t.len >= 0 then BerLength(s[k..t.off], t.len) else s[k..t.off] == [0x80])
    && var content := s[t.off..];
       if (t.cls / 32) % 2 == 0 then
         t.len == |content| <= INT_MAX && t.value == Some(content) && t.children == []
       else if t.len >= 0 then
         t.len == |content| <= INT_MAX && t.value == None && BerAll(content, t.children)
       else
         && t.len == -1 && t.value == None && |content| >= 2 && content[|content| - 2..] == [0, 0]
         && BerAll(content[..|content| - 2], t.children)
         && forall i :: 0 <= i < |t.children| ==> !EndOfContents(t.children[i])
  }

  ghost predicate BerAll(s: bytes, ts: seq<Atlv>)
    decreases ts, 0
  {
    if ts == [] then s == []
    else exists k :: 0 <= k <= |s| && Ber(s[..k], ts[0]) && BerAll(s[k..], ts[1..])
  }

  // -------------------------------------------------------------------- headers

  lemma {:induction false} BerTagIsRead(s: bytes, cls: nat, number: nat, rest: bytes)
    requires BerTag(s, cls, number) && cls < 256 && cls % 32 == 0 && number < UINT && rest != []
    ensures ParseTag(s + rest) == Tag(cls, number, |s|)
  {
    hide Value, TagLoop, Marked;
    if !(number < 31 && s == [cls + number]) {
      var g := Groups(s[1..]);
      MarkedGroups(s[1..]);
      assert (s + rest)[1..] == Marked(g) + rest;
      assert [] + g == g;
      ValueZero(128);
      TagLoopReads(s + rest, 1, [], g, rest);
    }
  }

  lemma {:induction false} BerLengthIsRead(s: bytes, len: nat, rest: bytes)
    requires BerLength(s, len) && len <= INT_MAX
    ensures ParseLength(s + rest) == (len, |s|)
  {
    hide Value, LengthLoop;
    if !(len < 128 && s == [len]) {
      var d := Octets(s[1..]);
      assert AsBytes(d) == s[1..];
      assert (s + rest)[1..] == AsBytes(d) + rest;
      assert [] + d == d;
      ValueZero(256);
      LengthLoopReads(s + rest, |d|, 1, [], d, rest);
    }
  }

  lemma {:induction false} BerHeaderIsRead(s: bytes, t: Atlv, rest: bytes)
    requires Ber(s, t)
    ensures ParseHeader(s + rest) == Hdr(t.cls, t.tag, t.off, t.len)
  {
    hide BerTag, BerLength, ParseTag, ParseLength, BerAll;
    var k :| 0 < k < t.off && BerTag(s[..k], t.cls, t.tag)
             && if t.len >= 0 then BerLength(s[k..t.off], t.len) else s[k..t.off] == [0x80];
    var after := s[t.off..] + rest;
    assert s + rest == s[..k] + (s[k..t.off] + after);
    BerTagIsRead(s[..k], t.cls, t.tag, s[k..t.off] + after);
    assert (s + rest)[k..] == s[k..t.off] + after;
    if t.len >= 0 {
      BerLengthIsRead(s[k..t.off], t.len, after);
    } else {
      IndefiniteIsRead(after);
    }
  }

  lemma IndefiniteIsRead(rest: bytes)
    ensures ParseLength([0x80] + rest) == (-1, 1)
  {
  }

  // --------------------------------------------------------------------- records

  lemma {:induction false} BerBodyIsRead(s: bytes, t: Atlv, data: bytes, at: nat, end: nat)
    requires Ber(s, t) && at + |s| <= end <= |data| && data[at..at + |s|] == s
    ensures ParseHeader(data[at..end]) == Hdr(t.cls, t.tag, t.off, t.len) && t.off > 0 && t.len >= -1
    ensures t.len >= 0 ==> t.off + t.len == |s|
    ensures ParseBody(data, at, Hdr(t.cls, t.tag, t.off, t.len)) == Ok(t, at + |s|)
    decreases t, 1
  {
    hide ParseHeader, BerAll, ParseChildren, ParseBody, BerTag, BerLength;
    assert data[at..end] == s + data[at + |s|..end];
    BerHeaderIsRead(s, t, data[at + |s|..end]);
    var from, c := at + t.off, s[t.off..];
    Halves(s, t.off, data, at);
    if !Structured(t.cls) {
      PrimitiveBody(data, at, t, c);
    } else if t.len >= 0 {
      BerChildrenAreRead(c, t.children, data, from, from + t.len, false);
      StructuredBody(data, at, t, at + |s|);
    } else {
      Halves(c, |c| - 2, data, from);
      BerChildrenAreRead(c[..|c| - 2], t.children, data, from, |data|, true);
      StructuredBody(data, at, t, at + |s|);
    }
  }

  lemma PrimitiveBody(data: bytes, at: nat, t: Atlv, c: bytes)
    requires !Structured(t.cls) && t.off > 0 && 0 <= t.len == |c| && at + t.off + t.len <= |data|
    requires data[at + t.off..at + t.off + t.len] == c && Plain(t) && t.value == Some(c) && t.children == []
    ensures ParseBody(data, at, Hdr(t.cls, t.tag, t.off, t.len)) == Ok(t, at + t.off + t.len)
  {
  }

  lemma StructuredBody(data: bytes, at: nat, t: Atlv, next: nat)
    requires Structured(t.cls) && t.off > 0 && t.len >= -1 && at + t.off <= |data| && (t.len >= 0 ==> at + t.off + t.len <= |data|)
    requires Plain(t) && t.value == None
    requires ParseChildren(data, at + t.off, if t.len >= 0 then at + t.off + t.len else |data|, t.len < 0) == OkList(t.children, next)
    ensures ParseBody(data, at, Hdr(t.cls, t.tag, t.off, t.len)) == Ok(t, next)
  {
    hide ParseChildren;
  }

  lemma {:induction false} BerChildrenAreRead(s: bytes, ts: seq<Atlv>, data: bytes, at: nat, end: nat, indefinite: bool)
    requires BerAll(s, ts) && at + |s| <= end <= |data| && data[at..at + |s|] == s
    requires if indefinite then at + |s| == end || (at + |s| + 2 <= end && data[at + |s|..at + |s| + 2] == [0, 0]) else at + |s| == end
    requires indefinite ==> forall i :: 0 <= i < |ts| ==> !EndOfContents(ts[i])
    ensures ParseChildren(data, at, end, indefinite) == OkList(ts, if at + |s| == end then end else at + |s| + 2)
    decreases ts, 0
  {
    hide ParseHeader, Ber, ParseBody, ParseChildren;
    if ts == [] {
      ChildrenEnd(data, at, end, indefinite);
    } else {
      var k :| 0 <= k <= |s| && Ber(s[..k], ts[0]) && BerAll(s[k..], ts[1..]);
      Halves(s, k, data, at);
      BerBodyIsRead(s[..k], ts[0], data, at, end);
      BerChildrenAreRead(s[k..], ts[1..], data, at + k, end, indefinite);
      NextChild(data, at, end, indefinite, ts[0], at + k);
      WithFirst(ts, if at + |s| == end then end else at + |s| + 2);
    }
  }

  lemma Halves(s: bytes, k: nat, data: bytes, at: nat)
    requires k <= |s| && at + |s| <= |data| && data[at..at + |s|] == s
    ensures data[at..at + k] == s[..k] && data[at + k..at + |s|] == s[k..]
  {
  }

  lemma WithFirst(ts: seq<Atlv>, last: nat)
    requires ts != []
    ensures OkList([ts[0]] + ts[1..], last) == OkList(ts, last)
  {
    assert [ts[0]] + ts[1..] == ts;
  }

  lemma ChildrenEnd(data: bytes, at: nat, end: nat, indefinite: bool)
    requires at <= end <= |data|
    requires if indefinite then at == end || (at + 2 <= end && data[at..at + 2] == [0, 0]) else at == end
    ensures ParseChildren(data, at, end, indefinite) == OkList([], if at == end then end else at + 2)
  {
    hide ParseHeader, ParseBody;
    if at < end {
      assert data[at..end] == [0, 0] + data[at + 2..end];
      EndIsRead(data[at + 2..end]);
    }
  }

  lemma NextChild(data: bytes, at: nat, end: nat, indefinite: bool, t: Atlv, next: nat)
    requires at < next <= end <= |data| && t.off > 0 && t.len >= -1
    requires ParseHeader(data[at..end]) == Hdr(t.cls, t.tag, t.off, t.len)
    requires ParseBody(data, at, Hdr(t.cls, t.tag, t.off, t.len)) == Ok(t, next)
    requires indefinite ==> !EndOfContents(t)
    ensures var rest := ParseChildren(data, next, end, indefinite);
            ParseChildren(data, at, end, indefinite) == if rest.ListError? then ListError else OkList([t] + rest.tlvs, rest.at)
  {
    hide ParseHeader, ParseBody;
  }

  lemma EndIsRead(rest: bytes)
    ensures ParseHeader([0, 0] + rest) == Hdr(0, 0, 2, 0)
  {
    var s := [0, 0] + rest;
    assert s[1..] == [0] + rest;
  }

  /** Every encoding is read as the tree it stands for, however its headers are written and
      wherever its lengths are indefinite; octets after it are refused. */
  lemma BerIsRead(s: bytes, t: Atlv)
    requires Ber(s, t)
    ensures ParseDer(s) == Ok(t, |s|)
    ensures forall rest :: rest != [] ==> ParseDer(s + rest).ParseError?
  {
    hide Ber, ParseHeader, ParseBody;
    assert s[0..|s|] == s;
    BerBodyIsRead(s, t, s, 0, |s|);
    forall rest | rest != [] ensures ParseDer(s + rest).ParseError? {
      var data := s + rest;
      assert data[0..|data|] == data && data[0..|s|] == s;
      BerBodyIsRead(s, t, data, 0, |data|);
    }
  }

  // No octets are encodings of two trees.
  lemma BerIsUnique(s: bytes, t: Atlv, u: Atlv)
    requires Ber(s, t) && Ber(s, u)
    ensures t == u
  {
    BerIsRead(s, t);
    BerIsRead(s, u);
  }

  // ----------------------------------------------------------- what else is accepted

  lemma {:induction false} OpenHeader(s: bytes, t: Atlv)
    requires Ber(s + [0, 0], t) && t.len == -1
    ensures t.off <= |s| && ParseHeader(s) == Hdr(t.cls, t.tag, t.off, -1)
  {
    hide ParseHeader, BerAll, BerTag, ParseTag, ParseLength;
    var all := s + [0, 0];
    var k :| 0 < k < t.off && BerTag(all[..k], t.cls, t.tag) && all[k..t.off] == [0x80];
    assert |all[t.off..]| >= 2;
    var rest := [0x80] + s[t.off..];
    assert all[..k] == s[..k] && s == s[..k] + rest && s[k..] == rest;
    BerTagIsRead(s[..k], t.cls, t.tag, rest);
    IndefiniteIsRead(s[t.off..]);
    HeaderOf(s);
  }

  lemma {:induction false} OpenContent(s: bytes, t: Atlv)
    requires Ber(s + [0, 0], t) && t.len == -1 && t.off <= |s|
    ensures BerAll(s[t.off..], t.children) && (forall i :: 0 <= i < |t.children| ==> !EndOfContents(t.children[i]))
    ensures Structured(t.cls) && t == Parsed(t.cls, t.tag, t.off, -1, None, t.children)
  {
    hide BerAll, BerTag;
    var c := (s + [0, 0])[t.off..];
    assert c[..|c| - 2] == s[t.off..];
  }

  // The two zero octets may be missing where the data end.
  lemma EndMayBeMissing(s: bytes, t: Atlv)
    requires Ber(s + [0, 0], t) && t.len == -1
    ensures ParseDer(s) == Ok(t, |s|)
  {
    hide ParseHeader, BerAll, ParseChildren, Ber;
    OpenHeader(s, t);
    OpenContent(s, t);
    assert s[0..|s|] == s && s[t.off..|s|] == s[t.off..];
    BerChildrenAreRead(s[t.off..], t.children, s, t.off, |s|, true);
  }

  lemma HeaderOf(s: bytes)
    requires ParseTag(s).Tag? && ParseLength(s[ParseTag(s).off..]) == (-1, 1)
    ensures ParseHeader(s) == Hdr(ParseTag(s).cls, ParseTag(s).tag, ParseTag(s).off + 1, -1)
  {
  }

  // So may length octets: two are announced, and one is there ...
  lemma ShortLengthAccepted()
    ensures ParseDer([0x30, 0x82, 0x00]) == Ok(Parsed(0x20, 0x10, 3, 0, None, []), 3)
  {
    var s: bytes := [0x30, 0x82, 0x00];
    assert s[1..] == [0x82, 0x00];
    assert ParseHeader(s) == Hdr(0x20, 0x10, 3, 0);
    assert s[0..3] == s;
  }

  // ... and a record of indefinite length inside one of definite length may go on after its end.
  lemma OverrunAccepted()
    ensures var inner := Parsed(0x20, 0x10, 2, -1, None, []);
            ParseDer([0x30, 0x02, 0x30, 0x80, 0x00, 0x00]) == Ok(Parsed(0x20, 0x10, 2, 2, None, [inner]), 6)
  {
    hide ParseHeader;
    var s: bytes := [0x30, 0x02, 0x30, 0x80, 0x00, 0x00];
    assert s[0..6] == s && s[2..4] == [0x30, 0x80] && s[4..6] == [0x00, 0x00] + [];
    OverrunHeaders();
    EndIsRead([]);
    var inner := Parsed(0x20, 0x10, 2, -1, None, []);
    assert ParseBody(s, 2, Hdr(0x20, 0x10, 2, -1)) == Ok(inner, 6);
    assert ParseChildren(s, 2, 4, false) == OkList([inner] + [], 6);
  }

  lemma OverrunHeaders()
    ensures ParseHeader([0x30, 0x02, 0x30, 0x80, 0x00, 0x00]) == Hdr(0x20, 0x10, 2, 2)
    ensures ParseHeader([0x30, 0x80]) == Hdr(0x20, 0x10, 2, -1)
  {
    var s, i: bytes := [0x30, 0x02, 0x30, 0x80, 0x00, 0x00], [0x30, 0x80];
    assert s[1..] == [0x02, 0x30, 0x80, 0x00, 0x00] && i[1..] == [0x80];
  }

  // Whatever is accepted, the tree has content where its class octets say so.
  ghost predicate Formed(t: Atlv) {
    && Plain(t) && t.cls < 256 && t.cls % 32 == 0 && t.tag < UINT && t.off >= 2 && t.len >= -1
    && (if (t.cls / 32) % 2 == 0 then t.value.Some? && t.len == |t.value.value| && t.children == [] else t.value == None)
    && forall i :: 0 <= i < |t.children| ==> Formed(t.children[i])
  }

  lemma {:induction false} BodyFormed(data: bytes, at: nat, h: HeaderResult)
    requires h.Hdr? && IsClass(h.cls) && h.tag < UINT && 2 <= h.off && at + h.off <= |data| && h.len >= -1
    requires h.len >= 0 ==> at + h.off + h.len <= |data|
    requires ParseBody(data, at, h).Ok?
    ensures Formed(ParseBody(data, at, h).tlv)
    decreases |data| - at, 0
  {
    hide ParseHeader;
    if Structured(h.cls) {
      var from := at + h.off;
      ChildrenFormed(data, from, if h.len >= 0 then from + h.len else |data|, h.len < 0);
    }
  }

  lemma {:induction false} ChildrenFormed(data: bytes, at: nat, end: nat, indefinite: bool)
    requires at <= |data| && end <= |data| && ParseChildren(data, at, end, indefinite).OkList?
    ensures forall i :: 0 <= i < |ParseChildren(data, at, end, indefinite).tlvs| ==> Formed(ParseChildren(data, at, end, indefinite).tlvs[i])
    decreases |data| - at, 1
  {
    hide ParseHeader, ParseBody, Formed;
    if at < end {
      var h := ParseHeader(data[at..end]);
      HeaderTwo(data[at..end]);
      if !(indefinite && h.cls == 0 && h.tag == 0 && h.len == 0) {
        BodyFormed(data, at, h);
        ChildrenFormed(data, ParseBody(data, at, h).at, end, indefinite);
      }
    }
  }

  lemma HeaderTwo(s: bytes)
    ensures ParseHeader(s).Hdr? ==> ParseHeader(s).off >= 2
  {
    hide LengthLoop, TagLoop;
  }

  lemma WhatIsRead(s: bytes)
    requires ParseDer(s).Ok?
    ensures Formed(ParseDer(s).tlv) && ParseDer(s).at == |s|
  {
    hide ParseHeader, ParseBody, Formed;
    assert s[0..|s|] == s;
    HeaderTwo(s);
    BodyFormed(s, 0, ParseHeader(s));
  }
}
