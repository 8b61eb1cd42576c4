// Trees of records and the octets that encode them are each other's inverse.
module Asn1RoundTrip {
  import opened Wrappers
  import opened Asn1Header
  import opened Asn1Tlv

  // ------------------------------------------- parsing what has been written

  // The structured bit of every class octet says what kind of content follows.
  ghost predicate Consistent(t: Atlv) {
    && (t.value.Some? <==> !Structured(t.cls))
    && (t.value == None ==> forall i :: 0 <= i < |t.children| ==> Consistent(t.children[i]))
  }

  // The record as its reader sees it: the octets written for its value are the value.
  ghost function AsRead(t: Atlv): Atlv
    requires Laid(t)
    decreases t, 1
  {
    if t.value.Some? then Parsed(t.cls, t.tag, t.off, t.len, Some(ValueOctets(t)), [])
    else Parsed(t.cls, t.tag, t.off, t.len, None, AllAsRead(t.children))
  }

  ghost function AllAsRead(ts: seq<Atlv>): (rs: seq<Atlv>)
    requires forall i :: 0 <= i < |ts| ==> Laid(ts[i])
    ensures |rs| == |ts|
    decreases ts, 0
  {
    if ts == [] then [] else [AsRead(ts[0])] + AllAsRead(ts[1..])
  }

  lemma HeaderAt(t: Atlv, data: bytes, at: nat, end: nat)
    requires Laid(t) && at + t.off + t.len <= end <= |data| && data[at..at + t.off + t.len] == Der(t)
    ensures ParseHeader(data[at..end]) == Hdr(t.cls, t.tag, t.off, t.len)
    ensures t.value.Some? ==> data[at + t.off..at + t.off + t.len] == ValueOctets(t)
    ensures t.value == None ==> data[at + t.off..at + t.off + t.len] == DerAll(t.children)
  {
    hide Header, DerAll, ValueOctets, ParseHeader;
    DerSize(t);
    var content := if t.value.Some? then ValueOctets(t) else DerAll(t.children);
    TwoParts(data, at, end, Header(t.cls, t.tag, t.len), content);
    HeaderReadsBack(t.cls, t.tag, t.len, data[at + t.off..end]);
  }

  lemma TwoParts(data: bytes, at: nat, end: nat, a: bytes, b: bytes)
    requires at + |a| + |b| <= end <= |data| && data[at..at + |a| + |b|] == a + b
    ensures data[at..end] == a + data[at + |a|..end] && data[at + |a|..at + |a| + |b|] == b
  {
    var all := data[at..at + |a| + |b|];
    assert data[at..at + |a|] == all[..|a|];
    assert data[at + |a|..at + |a| + |b|] == all[|a|..];
    assert data[at..end] == data[at..at + |a|] + data[at + |a|..end];
  }

  lemma {:induction false} BodyReadsBack(t: Atlv, data: bytes, at: nat, end: nat)
    requires Laid(t) && Consistent(t)
    requires at + t.off + t.len <= end <= |data| && data[at..at + t.off + t.len] == Der(t)
    ensures ParseHeader(data[at..end]) == Hdr(t.cls, t.tag, t.off, t.len)
    ensures ParseBody(data, at, Hdr(t.cls, t.tag, t.off, t.len)) == Ok(AsRead(t), at + t.off + t.len)
    decreases t, 1
  {
    hide Header, ParseHeader, Der, DerAll;
    HeaderAt(t, data, at, end);
    if t.value == None {
      ChildrenReadBack(t.children, data, at + t.off, at + t.off + t.len);
    }
  }

  lemma {:induction false} ChildrenReadBack(ts: seq<Atlv>, data: bytes, at: nat, end: nat)
    requires forall i :: 0 <= i < |ts| ==> Laid(ts[i]) && Consistent(ts[i])
    requires at <= end <= |data| && data[at..end] == DerAll(ts)
    ensures ParseChildren(data, at, end, false) == OkList(AllAsRead(ts), end)
    decreases ts, 0
  {
    hide Header, ParseHeader, Der, Laid;
    DerAllSize(ts);
    if ts != [] {
      var t := ts[0];
      var next := at + t.off + t.len;
      DerSize(t);
      LaidSizes(t);
      DerAllSize(ts[1..]);
      assert data[at..next] == data[at..end][..next - at] == Der(t);
      assert data[next..end] == data[at..end][next - at..] == DerAll(ts[1..]);
      BodyReadsBack(t, data, at, end);
      ChildrenReadBack(ts[1..], data, next, end);
    }
  }

  lemma LaidSizes(t: Atlv)
    requires Laid(t)
    ensures t.off > 0 && t.len >= 0 && t.off + t.len > 0
  {
  }

  // Writing a tree and parsing the octets rebuilds the tree and consumes everything.
  lemma ParseOfDer(t: Atlv)
    requires Laid(t) && Consistent(t)
    ensures ParseDer(Der(t)) == Ok(AsRead(t), t.off + t.len)
  {
    hide Laid, Consistent, Der, AsRead, ParseHeader, Header, ParseBody;
    LaidSizes(t);
    DerSize(t);
    assert Der(t)[0..t.off + t.len] == Der(t);
    BodyReadsBack(t, Der(t), 0, |Der(t)|);
  }

  // A tree the parser could have made is read back as it is.
  ghost predicate PlainTree(t: Atlv) {
    && Plain(t)
    && (t.value.Some? ==> t.children == [])
    && forall i :: 0 <= i < |t.children| ==> PlainTree(t.children[i])
  }

  lemma {:induction false} AsReadPlain(t: Atlv)
    requires Laid(t) && PlainTree(t)
    ensures AsRead(t) == t
    decreases t, 1
  {
    if t.value == None {
      AllAsReadPlain(t.children);
    }
  }

  lemma {:induction false} AllAsReadPlain(ts: seq<Atlv>)
    requires forall i :: 0 <= i < |ts| ==> Laid(ts[i]) && PlainTree(ts[i])
    ensures AllAsRead(ts) == ts
    decreases ts, 0
  {
    if ts != [] {
      AsReadPlain(ts[0]);
      AllAsReadPlain(ts[1..]);
    }
  }

  lemma ParseOfPlainDer(t: Atlv)
    requires Laid(t) && Consistent(t) && PlainTree(t)
    ensures ParseDer(Der(t)) == Ok(t, |Der(t)|)
  {
    DerSize(t);
    ParseOfDer(t);
    AsReadPlain(t);
  }

  // ------------------------------------------- writing what has been parsed

  ghost predicate Definite(t: Atlv) {
    t.len >= 0 && forall i :: 0 <= i < |t.children| ==> Definite(t.children[i])
  }

  // Every header of the tree, as it stands in the data, is minimal.
  ghost predicate MinimalTree(data: bytes, at: nat, end: nat, t: Atlv)
    requires at <= end <= |data|
    decreases t, 1
  {
    && ParseHeader(data[at..end]).Hdr? && MinimalHeader(data[at..end])
    && 0 <= t.len && at + t.off + t.len <= end
    && MinimalList(data, at + t.off, at + t.off + t.len, t.children)
  }

  ghost predicate MinimalList(data: bytes, at: nat, end: nat, ts: seq<Atlv>)
    requires at <= end <= |data|
    decreases ts, 0
  {
    ts == [] ||
    (0 <= ts[0].len && at + ts[0].off + ts[0].len <= end && MinimalTree(data, at, end, ts[0])
     && MinimalList(data, at + ts[0].off + ts[0].len, end, ts[1..]))
  }

  ghost predicate Rewrites(data: bytes, at: nat, t: Atlv) {
    Laid(t) && at + t.off + t.len <= |data| && Der(t) == data[at..at + t.off + t.len]
  }

  ghost predicate RewritesAll(data: bytes, at: nat, end: nat, ts: seq<Atlv>) {
    (forall i :: 0 <= i < |ts| ==> Laid(ts[i])) && at <= end <= |data| && DerAll(ts) == data[at..end]
  }

  // Where a record of definite length ends, and what it was parsed into.
  lemma {:induction false} BodyRewrites(data: bytes, at: nat, end: nat, t: Atlv)
    requires at <= end <= |data| && Definite(t)
    requires ParseHeader(data[at..end]).Hdr? && ParseBody(data, at, ParseHeader(data[at..end])).Ok?
    requires ParseBody(data, at, ParseHeader(data[at..end])).tlv == t
    ensures ParseBody(data, at, ParseHeader(data[at..end])).at == at + t.off + t.len <= end
    ensures MinimalTree(data, at, end, t) <==> Rewrites(data, at, t)
    decreases t, 1
  {
    hide ParseHeader, Header, MinimalHeader, Rewrites, RewritesAll;
    var h := ParseHeader(data[at..end]);
    var from, last := at + t.off, at + t.off + t.len;
    HeaderBounds(data[at..end]);
    MinimalHeaderIff(data[at..end]);
    assert data[at..end][..t.off] == data[at..from];
    if t.value == None {
      ChildrenRewrite(data, from, last, t.children);
    }
    RewritesIff(data, at, t, h);
  }

  lemma HeaderBounds(s: bytes)
    requires ParseHeader(s).Hdr?
    ensures var r := ParseHeader(s); IsClass(r.cls) && r.tag < UINT && 0 < r.off && -1 <= r.len <= INT_MAX
    ensures ParseHeader(s).len >= 0 ==> ParseHeader(s).off + ParseHeader(s).len <= |s|
  {
  }

  // A parsed record is written back as it was exactly when its header and its content are.
  lemma RewritesIff(data: bytes, at: nat, t: Atlv, h: HeaderResult)
    requires h == Hdr(t.cls, t.tag, t.off, t.len) && Plain(t)
    requires IsClass(t.cls) && t.tag < UINT && 0 < t.off && 0 <= t.len <= INT_MAX
    requires at + t.off + t.len <= |data|
    requires t.value.Some? ==> t.value.value == data[at + t.off..at + t.off + t.len]
    requires t.value == None ==> TotalSize(t.children) == t.len
    ensures Rewrites(data, at, t) <==>
              && data[at..at + t.off] == Header(t.cls, t.tag, t.len)
              && (t.value == None ==> RewritesAll(data, at + t.off, at + t.off + t.len, t.children))
  {
    hide Header, DerAll;
    var from, last := at + t.off, at + t.off + t.len;
    assert data[at..last] == data[at..from] + data[from..last];
    if Laid(t) && Der(t) == data[at..last] {
      assert data[at..from] == Der(t)[..t.off];
      assert data[from..last] == Der(t)[t.off..];
    }
  }

  lemma {:induction false} ChildrenRewrite(data: bytes, at: nat, end: nat, ts: seq<Atlv>)
    requires at <= end <= |data| && forall i :: 0 <= i < |ts| ==> Definite(ts[i])
    requires ParseChildren(data, at, end, false).OkList? && ParseChildren(data, at, end, false).tlvs == ts
    ensures ParseChildren(data, at, end, false).at == end && TotalSize(ts) == end - at
    ensures MinimalList(data, at, end, ts) <==> RewritesAll(data, at, end, ts)
    decreases ts, 0
  {
    hide ParseHeader, Header, MinimalHeader, ParseBody;
    if at < end {
      var t := ts[0];
      var next := at + t.off + t.len;
      HeaderBounds(data[at..end]);
      BodyRewrites(data, at, end, t);
      ChildrenRewrite(data, next, end, ts[1..]);
      RewritesSplit(data, at, end, ts);
    }
  }

  lemma RewritesSplit(data: bytes, at: nat, end: nat, ts: seq<Atlv>)
    requires ts != [] && 0 <= ts[0].off && 0 <= ts[0].len && at + ts[0].off + ts[0].len <= end <= |data|
    ensures RewritesAll(data, at, end, ts) <==>
              Rewrites(data, at, ts[0]) && RewritesAll(data, at + ts[0].off + ts[0].len, end, ts[1..])
  {
    hide Header;
    var next := at + ts[0].off + ts[0].len;
    assert data[at..end] == data[at..next] + data[next..end];
    if RewritesAll(data, at, end, ts) {
      DerSize(ts[0]);
      assert data[at..next] == data[at..end][..next - at];
      assert data[next..end] == data[at..end][next - at..];
    }
    if Rewrites(data, at, ts[0]) && RewritesAll(data, next, end, ts[1..]) {
      forall i | 0 <= i < |ts| ensures Laid(ts[i]) {
        assert i > 0 ==> ts[i] == ts[1..][i - 1];
      }
    }
  }

  // An accepted input of definite lengths is given back by writing its parse exactly
  // when all its headers are minimal.
  lemma DerOfParse(data: bytes)
    requires ParseDer(data).Ok? && Definite(ParseDer(data).tlv)
    ensures var t := ParseDer(data).tlv;
            MinimalTree(data, 0, |data|, t) <==> Laid(t) && Der(t) == data
  {
    var t := ParseDer(data).tlv;
    assert data[0..|data|] == data;
    BodyRewrites(data, 0, |data|, t);
    if Laid(t) && Der(t) == data {
      DerSize(t);
    }
  }
}
