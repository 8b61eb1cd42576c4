// Trees of tag-length-value records: how they are laid out, written and parsed.
module Asn1Tlv {
  import opened Wrappers
  import opened Asn1Header

  /** One record. A record with a value is primitive content; otherwise its content
      is that of its children, in order. off and len are the sizes of its header and
      of its content; len is -1 for the indefinite form. */
  datatype Atlv = Atlv(
    cls: nat, tag: nat, off: nat, len: int,
    value: Option<bytes>,
    children: seq<Atlv>,
    bitsEmpty: nat,
    prefixForBitString: bool,
    prefixWithZeroByte: bool)

  predicate Structured(cls: nat) {
    (cls / 32) % 2 == 1
  }

  // ---------------------------------------------------------------- writing

  // The bits at the end of a bit string that do not belong to it are written as zeros.
  function ClearTail(buf: bytes, bitsEmpty: nat): (s: bytes)
    requires bitsEmpty < 8
    ensures |s| == |buf|
  {
    if buf == [] || bitsEmpty == 0 then buf
    else
      var last := buf[|buf| - 1];
      buf[..|buf| - 1] + [last - last % MaskSize(bitsEmpty)]
  }

  // One more than the mask 0xFF >> (8 - bitsEmpty).
  function MaskSize(bitsEmpty: nat): (n: nat)
    requires bitsEmpty < 8
    ensures 1 <= n <= 128
  {
    [1, 2, 4, 8, 16, 32, 64, 128][bitsEmpty]
  }

  function ValueOctets(t: Atlv): (s: bytes)
    requires t.value.Some? && t.bitsEmpty < 8
    ensures |s| == |t.value.value| + if t.prefixForBitString || t.prefixWithZeroByte then 1 else 0
  {
    if t.prefixForBitString then [t.bitsEmpty] + ClearTail(t.value.value, t.bitsEmpty)
    else if t.prefixWithZeroByte then [0] + t.value.value
    else t.value.value
  }

  // What the sizes of a tree have to be for it to be written.
  ghost predicate Laid(t: Atlv) {
    && IsClass(t.cls) && t.tag < UINT && 0 <= t.len <= INT_MAX && t.bitsEmpty < 8
    && t.off == |Header(t.cls, t.tag, t.len)|
    && (t.value.Some? ==> t.len == |ValueOctets(t)|)
    && (t.value == None ==> (forall i :: 0 <= i < |t.children| ==> Laid(t.children[i])) && t.len == TotalSize(t.children))
  }

  function TotalSize(ts: seq<Atlv>): int {
    if ts == [] then 0 else ts[0].off + ts[0].len + TotalSize(ts[1..])
  }

  // The encoding of a record and of a list of records.
  function Der(t: Atlv): bytes
    requires Laid(t)
    decreases t, 1
  {
    Header(t.cls, t.tag, t.len) + if t.value.Some? then ValueOctets(t) else DerAll(t.children)
  }

  function DerAll(ts: seq<Atlv>): bytes
    requires forall i :: 0 <= i < |ts| ==> Laid(ts[i])
    decreases ts, 0
  {
    if ts == [] then [] else Der(ts[0]) + DerAll(ts[1..])
  }

  // The sizes are those of what is written.
  lemma {:induction false} DerSize(t: Atlv)
    requires Laid(t)
    ensures |Der(t)| == t.off + t.len
    decreases t, 1
  {
    if t.value == None {
      DerAllSize(t.children);
    }
  }

  lemma {:induction false} DerAllSize(ts: seq<Atlv>)
    requires forall i :: 0 <= i < |ts| ==> Laid(ts[i])
    ensures |DerAll(ts)| == TotalSize(ts)
    decreases ts, 0
  {
    if ts != [] {
      DerSize(ts[0]);
      DerAllSize(ts[1..]);
    }
  }

  lemma {:induction false} DerAllAppend(ts: seq<Atlv>, us: seq<Atlv>)
    requires (forall i :: 0 <= i < |ts| ==> Laid(ts[i])) && (forall i :: 0 <= i < |us| ==> Laid(us[i]))
    ensures DerAll(ts + us) == DerAll(ts) + DerAll(us)
    ensures TotalSize(ts + us) == TotalSize(ts) + TotalSize(us)
  {
    hide Der, Laid;
    if ts == [] {
      assert ts + us == us;
    } else {
      DerAllAppend(ts[1..], us);
      assert (ts + us)[1..] == ts[1..] + us;
      assert Der(ts[0]) + (DerAll(ts[1..]) + DerAll(us)) == Der(ts[0]) + DerAll(ts[1..]) + DerAll(us);
    }
  }

  // atlv_unparse_der: write a record at `at` and return the position after it
  method AtlvUnparseDer(tlv: Atlv, data: array<byte>, at: nat, end: nat) returns (at': nat)
    requires Laid(tlv) && at + tlv.off + tlv.len <= end <= data.Length
    modifies data
    ensures at' == at + tlv.off + tlv.len && data[at..at'] == Der(tlv)
    ensures forall i :: 0 <= i < data.Length && !(at <= i < at') ==> data[i] == old(data[i])
    decreases tlv, 1
  {
    hide Header, DerAll, ValueOctets, TotalSize;
    DerSize(tlv);
    var off := AtlvUnparseClsTagLen(data, at, tlv.cls, tlv.tag, tlv.len);
    assert off == tlv.off;
    ghost var header := data[at..at + off];
    if tlv.value.Some? {
      at' := WriteValue(tlv, data, at + off);
    } else {
      at' := WriteChildren(tlv.children, data, at + off, end);
    }
    assert data[at..at + off] == header;
    assert data[at..at'] == data[at..at + off] + data[at + off..at'];
  }

  method WriteChildren(ts: seq<Atlv>, data: array<byte>, at: nat, end: nat) returns (at': nat)
    requires (forall i :: 0 <= i < |ts| ==> Laid(ts[i])) && at + TotalSize(ts) <= end <= data.Length
    modifies data
    ensures at <= at' == at + TotalSize(ts) && data[at..at'] == DerAll(ts)
    ensures forall i :: 0 <= i < data.Length && !(at <= i < at') ==> data[i] == old(data[i])
    decreases ts, 0
  {
    hide Der, Laid, DerAll, TotalSize;
    DerAllSize(ts);
    DerNone();
    at' := at;
    var k := 0;
    assert ts[..0] == [] && ts[0..] == ts;
    while k < |ts|
      invariant 0 <= k <= |ts|
      invariant at <= at' <= end && at' + TotalSize(ts[k..]) == at + TotalSize(ts)
      invariant data[at..at'] == DerAll(ts[..k])
      invariant forall i :: 0 <= i < data.Length && !(at <= i < at') ==> data[i] == old(data[i])
    {
      var ctlv := ts[k];
      DerAllNext(ts, k);
      ghost var before, from := data[at..at'], at';
      var exp := at' + ctlv.len + ctlv.off;
      label Before:
      at' := AtlvUnparseDer(ctlv, data, at', end);
      assert exp == at';
      assert forall i :: at <= i < from ==> data[i] == old@Before(data[i]);
      assert data[at..from] == before;
      assert data[at..at'] == data[at..from] + data[from..at'];
      k := k + 1;
    }
    assert ts[..k] == ts && ts[k..] == [];
  }

  lemma DerNone()
    ensures DerAll([]) == [] && TotalSize([]) == 0
  {
  }

  lemma DerAllNext(ts: seq<Atlv>, k: nat)
    requires k < |ts| && forall i :: 0 <= i < |ts| ==> Laid(ts[i])
    ensures DerAll(ts[..k + 1]) == DerAll(ts[..k]) + Der(ts[k])
    ensures TotalSize(ts[k..]) == ts[k].off + ts[k].len + TotalSize(ts[k + 1..])
    ensures TotalSize(ts[k + 1..]) >= 0 && ts[k].off + ts[k].len >= 0
  {
    hide Der, Laid, DerAll;
    assert ts[k..][1..] == ts[k + 1..] && ts[..k + 1] == ts[..k] + [ts[k]];
    DerAllAppend(ts[..k], [ts[k]]);
    DerAllOne(ts[k]);
    DerAllSize(ts[k + 1..]);
    DerSize(ts[k]);
  }

  lemma DerAllOne(t: Atlv)
    requires Laid(t)
    ensures DerAll([t]) == Der(t)
  {
    assert [t][1..] == [];
  }

  // The value of a primitive record, with its prefix byte if it has one.
  method WriteValue(tlv: Atlv, data: array<byte>, at: nat) returns (p: nat)
    requires tlv.value.Some? && tlv.bitsEmpty < 8 && at + |ValueOctets(tlv)| <= data.Length
    modifies data
    ensures p == at + |ValueOctets(tlv)| && data[at..p] == ValueOctets(tlv)
    ensures forall i :: 0 <= i < data.Length && !(at <= i < p) ==> data[i] == old(data[i])
  {
    hide ClearTail;
    var buf := tlv.value.value;
    p := at;
    if tlv.prefixForBitString {
      data[p] := tlv.bitsEmpty;
      Memcpy(data, p + 1, buf);
      ClearLast(data, p + 1, |buf|, tlv.bitsEmpty);
      p := p + |buf| + 1;
      assert data[at..p] == [data[at]] + data[at + 1..p];
    } else if tlv.prefixWithZeroByte {
      data[p] := 0;
      Memcpy(data, p + 1, buf);
      p := p + |buf| + 1;
      assert data[at..p] == [data[at]] + data[at + 1..p];
    } else {
      Memcpy(data, p, buf);
      p := p + |buf|;
    }
  }

  // The unused bits of the last octet become zero.
  method ClearLast(data: array<byte>, at: nat, n: nat, bitsEmpty: nat)
    requires at + n <= data.Length && bitsEmpty < 8
    modifies data
    ensures data[at..at + n] == ClearTail(old(data[at..at + n]), bitsEmpty)
    ensures forall i :: 0 <= i < data.Length && !(at <= i < at + n) ==> data[i] == old(data[i])
  {
    hide MaskSize;
    if n > 0 && bitsEmpty > 0 {
      data[at + n - 1] := data[at + n - 1] - data[at + n - 1] % MaskSize(bitsEmpty);
    }
  }

  method Memcpy(data: array<byte>, at: nat, buf: bytes)
    requires at + |buf| <= data.Length
    modifies data
    ensures data[at..at + |buf|] == buf
    ensures forall i :: 0 <= i < data.Length && !(at <= i < at + |buf|) ==> data[i] == old(data[i])
  {
    forall i | 0 <= i < |buf| {
      data[at + i] := buf[i];
    }
  }

  // atlv_unparse_to_bytes: the buffer is exactly filled
  method AtlvUnparseToBytes(tlv: Atlv) returns (data: array<byte>)
    requires Laid(tlv)
    ensures fresh(data) && data.Length == tlv.off + tlv.len && data[..] == Der(tlv)
  {
    var len := tlv.off + tlv.len;
    data := new byte[len](_ => 0);
    var at := AtlvUnparseDer(tlv, data, 0, len);
    assert at == len;
    assert data[..] == data[0..at];
  }

  // ---------------------------------------------------------------- parsing

  // A record as the parser makes it: no encoding instructions.
  predicate Plain(t: Atlv) {
    t.bitsEmpty == 0 && !t.prefixForBitString && !t.prefixWithZeroByte
  }

  function Parsed(cls: nat, tag: nat, off: nat, len: int, value: Option<bytes>, children: seq<Atlv>): Atlv {
    Atlv(cls, tag, off, len, value, children, 0, false, false)
  }

  datatype ParseResult = ParseError | Ok(tlv: Atlv, at: nat)
  datatype ParseListResult = ListError | OkList(tlvs: seq<Atlv>, at: nat)

  // atlv_parse_der_tag, from a header already read at `at`. The content of an indefinite
  // record runs to its end-of-contents marker, wherever in the data that is.
  function ParseBody(data: bytes, at: nat, h: HeaderResult): (r: ParseResult)
    requires h.Hdr? && 0 < h.off && at + h.off <= |data| && h.len >= -1
    requires h.len >= 0 ==> at + h.off + h.len <= |data|
    ensures r.Ok? ==> at < r.at <= |data|
    decreases |data| - at, 0
  {
    var from := at + h.off;
    if !Structured(h.cls) then
      if h.len < 0 then ParseError
      else Ok(Parsed(h.cls, h.tag, h.off, h.len, Some(data[from..from + h.len]), []), from + h.len)
    else
      match ParseChildren(data, from, if h.len >= 0 then from + h.len else |data|, h.len < 0)
      case ListError => ParseError
      case OkList(children, end) => Ok(Parsed(h.cls, h.tag, h.off, h.len, None, children), end)
  }

  // The loop over the content of a structured record.
  function ParseChildren(data: bytes, at: nat, end: nat, indefinite: bool): (r: ParseListResult)
    requires at <= |data| && end <= |data|
    ensures r.OkList? ==> at <= r.at <= |data|
    decreases |data| - at, 1
  {
    if at >= end then OkList([], at)
    else
      var h := ParseHeader(data[at..end]);
      if h.HeaderError? then ListError
      else if indefinite && h.cls == 0 && h.tag == 0 && h.len == 0 then OkList([], at + h.off)
      else
        match ParseBody(data, at, h)
        case ParseError => ListError
        case Ok(child, next) =>
          match ParseChildren(data, next, end, indefinite)
          case ListError => ListError
          case OkList(rest, last) => OkList([child] + rest, last)
  }

  // atlv_parse_der: one record and nothing after it
  function ParseDer(data: bytes): ParseResult {
    var h := ParseHeader(data);
    if h.HeaderError? then ParseError
    else
      assert data[0..|data|] == data;
      match ParseBody(data, 0, h)
      case ParseError => ParseError
      case Ok(tlv, at) => if at != |data| then ParseError else Ok(tlv, at)
  }

  // The parser in the form of the source: a cursor that advances through the data.
  method AtlvParseDerTag(cls: nat, tag: nat, off: nat, len: int, data: bytes, at: nat) returns (tlv: Option<Atlv>, at': nat)
    requires 0 < off && at + off <= |data| && len >= -1 && (len >= 0 ==> at + off + len <= |data|)
    ensures tlv == None <==> ParseBody(data, at, Hdr(cls, tag, off, len)).ParseError?
    ensures tlv.Some? ==> ParseBody(data, at, Hdr(cls, tag, off, len)) == Ok(tlv.value, at')
    decreases |data| - at, 0
  {
    hide ParseHeader, ParseChildren;
    at' := at;
    if len < 0 && !Structured(cls) {
      return None, at';
    }
    at' := at' + off;
    if Structured(cls) {
      var end := |data|;
      if len >= 0 {
        end := at' + len;
      }
      var children;
      children, at' := AtlvParseContent(data, at', end, len < 0);
      if children == None {
        return None, at';
      }
      tlv := Some(Parsed(cls, tag, off, len, None, children.value));
    } else {
      tlv := Some(Parsed(cls, tag, off, len, Some(data[at'..at' + len]), []));
      at' := at' + len;
    }
  }

  // Its loop over the content of a structured record.
  method AtlvParseContent(data: bytes, at: nat, end: nat, indefinite: bool) returns (children: Option<seq<Atlv>>, at': nat)
    requires at <= |data| && end <= |data|
    ensures children == None <==> ParseChildren(data, at, end, indefinite).ListError?
    ensures children.Some? ==> ParseChildren(data, at, end, indefinite) == OkList(children.value, at')
    decreases |data| - at, 1
  {
    hide ParseHeader, ParseBody;
    at' := at;
    var found: seq<Atlv> := [];
    ghost var all := ParseChildren(data, at', end, indefinite);
    PrependedNone(all);
    while at' < end
      invariant at <= at' <= |data|
      invariant all == Prepended(found, ParseChildren(data, at', end, indefinite))
      decreases |data| - at'
    {
      var ok, ccls, ctag, coff, clen := AtlvParseClsTagLen(data, at', end);
      if !ok {
        return None, at';
      }
      if indefinite && ccls == 0 && ctag == 0 && clen == 0 {
        assert found + [] == found;
        return Some(found), at' + coff;
      }
      var child, next := AtlvParseDerTag(ccls, ctag, coff, clen, data, at');
      if child == None {
        return None, at';
      }
      PrependedMore(found, child.value, ParseChildren(data, next, end, indefinite));
      found := found + [child.value];
      at' := next;
    }
    assert found + [] == found;
    return Some(found), at';
  }

  lemma PrependedNone(r: ParseListResult)
    ensures Prepended([], r) == r
  {
    if r.OkList? {
      assert [] + r.tlvs == r.tlvs;
    }
  }

  function Prepended(front: seq<Atlv>, r: ParseListResult): ParseListResult {
    match r
    case ListError => ListError
    case OkList(tlvs, at) => OkList(front + tlvs, at)
  }

  lemma PrependedMore(front: seq<Atlv>, t: Atlv, r: ParseListResult)
    ensures Prepended(front, Prepended([t], r)) == Prepended(front + [t], r)
  {
    if r.OkList? {
      assert front + ([t] + r.tlvs) == front + [t] + r.tlvs;
    }
  }

  method AtlvParseDer(data: bytes) returns (tlv: Option<Atlv>)
    ensures tlv == None <==> ParseDer(data).ParseError?
    ensures tlv.Some? ==> ParseDer(data) == Ok(tlv.value, |data|)
  {
    assert data[0..|data|] == data;
    var ok, cls, tag, off, len := AtlvParseClsTagLen(data, 0, |data|);
    if !ok {
      return None;
    }
    var at;
    tlv, at := AtlvParseDerTag(cls, tag, off, len, data, 0);
    if tlv.Some? && at != |data| {
      tlv := None;
    }
  }
}
