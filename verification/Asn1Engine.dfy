// The loops of the encoder and the decoder, and whole encodings and decodings.
module Asn1Engine {
  import opened Wrappers
  import opened Asn1Header
  import opened Asn1Tlv
  import opened Asn1RoundTrip
  import opened Asn1Schema
  import opened Asn1Layout
  import opened Asn1Codec
  import opened Asn1Octets

  // ---------------------------------------------------------------- building

  method AnodeBuildAnything(node: Anode, want: bool) returns (tlv: Option<Atlv>)
    requires NodeOk(node)
    ensures tlv == Build(node, want)
    ensures tlv.Some? && Shaped(node) && Fits(tlv.value) ==> Laid(tlv.value) && Encodes(Der(tlv.value), node, want)
    decreases node, 1
  {
    hide HeaderSize, Encodes, Laid, Shaped, Der;
    if Shaped(node) && Build(node, want).Some? && Fits(Build(node, want).value) {
      BuiltEncodes(node, want);
    }
    if node.def.kind.Any? {
      return node.parsed;
    }
    if Container(node.def.kind) {
      tlv := AnodeBuildStructured(node, want);
    } else {
      tlv := BuildLeaf(node);
    }
    if tlv == None {
      return;
    }
    tlv := Some(Wrapped(node.def, tlv.value));
  }

  method AnodeBuildStructured(node: Anode, want: bool) returns (tlv: Option<Atlv>)
    requires NodeOk(node) && Container(node.def.kind)
    ensures tlv == BuildStructured(node, want)
    decreases node, 0
  {
    hide Build, WithHeader, Sized, BuildChildren, TotalSize;
    var childWant := want && !node.def.kind.SequenceOf?;
    BuildsNone(childWant);
    var children: seq<Atlv>, len := [], 0;
    var k := 0;
    ghost var all := BuildChildren(node.children, childWant);
    assert node.children[0..] == node.children;
    while k < |node.children|
      invariant 0 <= k <= |node.children|
      invariant children + BuildChildren(node.children[k..], childWant) == all
      invariant len + TotalSize(BuildChildren(node.children[k..], childWant)) == TotalSize(all)
    {
      var ctlv := AnodeBuildAnything(node.children[k], childWant);
      BuildsNext(node.children, k, childWant);
      if ctlv.Some? {
        children := children + [ctlv.value];
        len := len + ctlv.value.off + ctlv.value.len;
      }
      k := k + 1;
    }
    assert children == all && len == TotalSize(all);
    if children == [] && !(want && !node.def.option) {
      return None;
    }
    BuiltSize(children);
    tlv := Some(WithHeader(node.def, Blank(None, children), len));
  }

  lemma {:induction false} BuildsNone(want: bool)
    ensures BuildChildren([], want) == [] && TotalSize([]) == 0
  {
  }

  lemma {:induction false} BuildsNext(ns: seq<Anode>, k: nat, want: bool)
    requires k < |ns| && forall i :: 0 <= i < |ns| ==> NodeOk(ns[i])
    ensures var t, rest := Build(ns[k], want), BuildChildren(ns[k + 1..], want);
            var all := BuildChildren(ns[k..], want);
            if t == None then all == rest
            else all == [t.value] + rest && TotalSize(all) == t.value.off + t.value.len + TotalSize(rest)
  {
    hide Build, NodeOk, Sized;
    assert ns[k..][1..] == ns[k + 1..];
  }

  // ---------------------------------------------------------------- decoding

  method AnodeDecodeOneWithoutTag(node: Anode, tlv: Atlv, tagged: bool) returns (done: Option<Anode>)
    ensures done == DecodeOneWithoutTag(node, tlv, tagged)
    decreases tlv, 2
  {
    hide DecodeStructured, DecodePrimitive;
    if Explicit(node.def, tagged) {
      if tlv.cls % 256 < 128 || tlv.value.Some? || |tlv.children| != 1 {
        return None;
      }
      done := AnodeDecodeOneWithoutTag(node, tlv.children[0], false);
    } else if Structured(tlv.cls) {
      done := AnodeDecodeStructured(node, tlv);
    } else {
      done := DecodePrimitive(node, tlv);
    }
    if done.Some? {
      done := Some(done.value.(parsed := Some(tlv)));
    }
  }

  method AnodeDecodeStructured(node: Anode, tlv: Atlv) returns (done: Option<Anode>)
    ensures done == DecodeStructured(node, tlv)
    decreases tlv, 1
  {
    hide DecodeAnything, DecodeElements, Ascending;
    if node.def.kind.Any? || StringKind(node.def.kind) {
      return Some(node);
    } else if node.def.kind.Sequence? || node.def.kind.Set? {
      if node.def.kind.Set? {
        var ascending := TagsAscend(tlv.children);
        if !ascending {
          return None;
        }
      }
      if node.children == [] {
        return None;
      }
      var children := AnodeDecodeAnything(node.children, tlv.children);
      return if children == None then None else Some(node.(children := children.value));
    } else if node.def.kind.SequenceOf? && node.children != [] {
      var children := AnodeDecodeSequenceOf(node.children[0], tlv.children);
      return
        if children == None then None
        else if children.value == [] then Some(node)
        else Some(node.(children := [children.value[0]] + node.children[1..] + children.value[1..]));
    }
    return None;
  }

  // The tags of the content of a SET are compared with the one before.
  method TagsAscend(tlvs: seq<Atlv>) returns (ok: bool)
    ensures ok <==> Ascending(tlvs)
  {
    var i, tag := 0, 0;
    while i < |tlvs|
      invariant 0 <= i <= |tlvs| && (i > 0 ==> tag == tlvs[i - 1].tag)
      invariant Ascending(tlvs[..i])
    {
      if i > 0 && tag > tlvs[i].tag {
        return false;
      }
      tag := tlvs[i].tag;
      i := i + 1;
    }
    assert tlvs[..i] == tlvs;
    return true;
  }

  // One node for every record of a SEQUENCE OF.
  method AnodeDecodeSequenceOf(child: Anode, tlvs: seq<Atlv>) returns (done: Option<seq<Anode>>)
    ensures done == DecodeElements(child, tlvs)
    decreases tlvs, 1
  {
    hide DecodeOneWithoutTag, Clone, DecodeElements;
    var ds: seq<Anode>, i := [], 0;
    ElementsStart(child, tlvs);
    AfterEnds([], DecodeElements(child, tlvs));
    while i < |tlvs|
      invariant 0 <= i <= |tlvs| && |ds| == i
      invariant i > 0 ==> After(ds, DecodeOthers(Clone(ds[0]), tlvs[i..])) == DecodeElements(child, tlvs)
    {
      var other := if i == 0 then child else Clone(ds[0]);
      assert i > 0 ==> tlvs[i..][1..] == tlvs[i + 1..];
      if !TagMatches(other, tlvs[i]) {
        return None;
      }
      var d := AnodeDecodeOneWithoutTag(other, tlvs[i], true);
      if d == None {
        return None;
      }
      if i > 0 {
        AfterMore(ds, d.value, DecodeOthers(Clone(ds[0]), tlvs[i + 1..]));
      }
      assert i == 0 ==> ds + [d.value] == [d.value];
      ds := ds + [d.value];
      i := i + 1;
    }
    AfterEnds(ds, None);
    return Some(ds);
  }

  lemma {:induction false} ElementsStart(child: Anode, tlvs: seq<Atlv>)
    ensures tlvs == [] ==> DecodeElements(child, tlvs) == Some([])
    ensures tlvs != [] ==>
              var d := DecodeOne(child, tlvs[0]);
              DecodeElements(child, tlvs) == if d == None then None else After([d.value], DecodeOthers(Clone(d.value), tlvs[1..]))
  {
    hide DecodeOne, DecodeOthers, Clone;
  }

  function After(front: seq<Anode>, r: Option<seq<Anode>>): Option<seq<Anode>> {
    if r == None then None else Some(front + r.value)
  }

  lemma {:induction false} AfterEnds(front: seq<Anode>, r: Option<seq<Anode>>)
    ensures After([], r) == r && After(front, Some([])) == Some(front)
  {
    if r.Some? {
      assert [] + r.value == r.value;
    }
    assert front + [] == front;
  }

  lemma {:induction false} AfterMore(front: seq<Anode>, d: Anode, r: Option<seq<Anode>>)
    ensures After(front, After([d], r)) == After(front + [d], r)
  {
    if r.Some? {
      assert front + ([d] + r.value) == front + [d] + r.value;
    }
  }

  // Walk the nodes and the records together; what is left over at the end has to be optional.
  method AnodeDecodeAnything(nodes: seq<Anode>, tlvs: seq<Atlv>) returns (done: Option<seq<Anode>>)
    ensures done == DecodeAnything(nodes, tlvs)
    decreases tlvs, 4
  {
    hide DecodeOneWithoutTag, TagMatches, MayBeAbsent, DecodeAnything;
    var ds: seq<Anode>, at, k := [], 0, 0;
    assert nodes[0..] == nodes && tlvs[0..] == tlvs;
    AfterEnds([], DecodeAnything(nodes, tlvs));
    while k < |tlvs|
      invariant 0 <= at <= |nodes| && 0 <= k <= |tlvs|
      invariant After(ds, DecodeAnything(nodes[at..], tlvs[k..])) == DecodeAnything(nodes, tlvs)
      decreases |tlvs| - k, |nodes| - at
    {
      if at == |nodes| {
        NoNodes(tlvs[k..]);
        return None;
      }
      RecordNext(nodes, at, tlvs, k);
      if !TagMatches(nodes[at], tlvs[k]) {
        if !MayBeAbsent(nodes[at]) || at + 1 == |nodes| {
          return None;
        }
        AfterMore(ds, Absent(nodes[at]), DecodeAnything(nodes[at + 1..], tlvs[k..]));
        ds := ds + [Absent(nodes[at])];
        at := at + 1;
        continue;
      }
      var d := AnodeDecodeOneWithoutTag(nodes[at], tlvs[k], true);
      if d == None {
        return None;
      }
      AfterMore(ds, d.value, DecodeAnything(nodes[at + 1..], tlvs[k + 1..]));
      ds := ds + [d.value];
      at, k := at + 1, k + 1;
    }
    assert tlvs[k..] == [];
    while at < |nodes|
      invariant 0 <= at <= |nodes|
      invariant After(ds, DecodeAnything(nodes[at..], [])) == DecodeAnything(nodes, tlvs)
    {
      AbsentNext(nodes, at);
      if !MayBeAbsent(nodes[at]) {
        return None;
      }
      AfterMore(ds, Absent(nodes[at]), DecodeAnything(nodes[at + 1..], []));
      ds := ds + [Absent(nodes[at])];
      at := at + 1;
    }
    assert nodes[at..] == [];
    NoNodes([]);
    AfterEnds(ds, None);
    return Some(ds);
  }

  lemma NoNodes(us: seq<Atlv>)
    ensures DecodeAnything([], us) == if us == [] then Some([]) else None
  {
  }

  // What is done with the next record.
  lemma {:induction false} RecordNext(ns: seq<Anode>, at: nat, ts: seq<Atlv>, k: nat)
    requires at < |ns| && k < |ts|
    ensures DecodeAnything(ns[at..], ts[k..]) ==
              if TagMatches(ns[at], ts[k]) then
                var d := DecodeOneWithoutTag(ns[at], ts[k], true);
                if d == None then None else After([d.value], DecodeAnything(ns[at + 1..], ts[k + 1..]))
              else if !MayBeAbsent(ns[at]) || at + 1 == |ns| then None
              else After([Absent(ns[at])], DecodeAnything(ns[at + 1..], ts[k..]))
  {
    hide DecodeOneWithoutTag, TagMatches, MayBeAbsent;
    assert ns[at..][0] == ns[at] && ts[k..][0] == ts[k];
    assert ns[at..][1..] == ns[at + 1..] && ts[k..][1..] == ts[k + 1..];
  }

  lemma {:induction false} AbsentNext(ns: seq<Anode>, k: nat)
    requires k < |ns|
    ensures DecodeAnything(ns[k..], []) ==
              if MayBeAbsent(ns[k]) then After([Absent(ns[k])], DecodeAnything(ns[k + 1..], [])) else None
  {
    hide MayBeAbsent;
    var r, rest := DecodeAnything(ns[k..], []), DecodeAnything(ns[k + 1..], []);
    assert ns[k..][0] == ns[k];
    assert ns[k..][1..] == ns[k + 1..];
    if r.Some? {
      assert MayBeAbsent(ns[k]);
      assert rest.Some?;
      assert r.value == [Absent(ns[k])] + rest.value;
    }
  }

  // ------------------------------------------------------- whole encodings

  /** What the definitions ask of values: of the value of a leaf, and of the number of
      elements of a SEQUENCE OF. */
  datatype Checks = Checks(leaf: (Def, bytes) -> bool, count: (Def, nat) -> bool)

  // anode_validate_anything
  predicate Validate(n: Anode, checks: Checks)
    decreases n, 1
  {
    if n.def.kind.Sequence? || n.def.kind.Set? then
      (n.def.option && !Have(n)) || ValidateAll(n.children, checks, false)
    else if n.def.kind.SequenceOf? then
      && ValidateAll(n.children, checks, true)
      && ((Given(n.children) == 0 && n.def.option) || checks.count(n.def, Given(n.children)))
    else if n.value.Some? && !n.def.kind.Any? then checks.leaf(n.def, n.value.value)
    else (n.parsed.Some? && (n.def.kind.Any? || StringKind(n.def.kind))) || MayBeAbsent(n)
  }

  predicate ValidateAll(ns: seq<Anode>, checks: Checks, onlyGiven: bool)
    decreases ns, 0
  {
    ns == [] || (((onlyGiven && !Have(ns[0])) || Validate(ns[0], checks)) && ValidateAll(ns[1..], checks, onlyGiven))
  }

  function Given(ns: seq<Anode>): nat {
    if ns == [] then 0 else (if Have(ns[0]) then 1 else 0) + Given(ns[1..])
  }

  // egg_asn1x_clear: no values, and of a SEQUENCE OF only the first element
  function Clear(n: Anode): Anode
    decreases n, 1
  {
    var children := ClearAll(n.children);
    n.(value := None, parsed := None,
       children := if n.def.kind.SequenceOf? && children != [] then children[..1] else children)
  }

  function ClearAll(ns: seq<Anode>): (cs: seq<Anode>)
    ensures |cs| == |ns|
    decreases ns, 0
  {
    if ns == [] then [] else [Clear(ns[0])] + ClearAll(ns[1..])
  }

  ghost predicate Encodable(asn: Anode) {
    Ready(asn) && NodeOk(asn) && (Build(asn, true).Some? ==> Fits(Build(asn, true).value))
  }

  // egg_asn1x_encode: the octets fill the buffer that is allocated for them
  method EggAsn1xEncode(asn: Anode, checks: Checks) returns (data: array?<byte>)
    requires Encodable(asn)
    ensures data != null <==> Validate(asn, checks) && Build(asn, true).Some?
    ensures data != null ==> Laid(Build(asn, true).value) && data[..] == Der(Build(asn, true).value)
    ensures data != null && Shaped(asn) ==> forall s :: Encodes(s, asn, true) <==> s == data[..]
  {
    hide Validate, Laid, Build, Consistent, Encodes, Shaped, Der, Present;
    if !Validate(asn, checks) {
      return null;
    }
    var tlv := AnodeBuildAnything(asn, true);
    if tlv == None {
      return null;
    }
    BuiltIsLaid(asn, true);
    if Shaped(asn) {
      BuiltEncodes(asn, true);
    }
    data := AtlvUnparseToBytes(tlv.value);
  }

  // egg_asn1x_decode_full as a function of the tree and the octets
  function DecodeFull(asn: Anode, data: bytes, checks: Checks): Option<Anode> {
    match ParseDer(data)
    case ParseError => None
    case Ok(tlv, at) =>
      match DecodeAnything([Clear(asn)], [tlv])
      case None => None
      case Some(ds) => if Validate(ds[0], checks) then Some(ds[0]) else None
  }

  method EggAsn1xDecodeFull(asn: Anode, data: bytes, checks: Checks) returns (done: Option<Anode>)
    ensures done == DecodeFull(asn, data, checks)
  {
    hide Validate, ParseDer, DecodeAnything, Clear;
    var tlv := AtlvParseDer(data);
    if tlv == None {
      return None;
    }
    var ds := AnodeDecodeAnything([Clear(asn)], [tlv.value]);
    if ds == None || !Validate(ds.value[0], checks) {
      return None;
    }
    return Some(ds.value[0]);
  }

  // ------------------------------------------------------------- round trip

  // The values, as DER puts them, pass validation: what is not encoded counts as empty.
  ghost predicate Passes(n: Anode, want: bool, checks: Checks)
    requires Shaped(n)
    decreases n, 1
  {
    if Leaf(n.def.kind) then
      if n.value.Some? then checks.leaf(n.def, Canonical(n).value) else MayBeAbsent(n)
    else if n.def.kind.Any? then n.parsed.Some? || MayBeAbsent(n)
    else if n.def.kind.SequenceOf? then
      && ElementsPass(n.children, checks)
      && ((Encoded(n.children) == 0 && n.def.option) || checks.count(n.def, Encoded(n.children)))
    else (n.def.option && !Present(n, want)) || AllPass(n.children, want, checks)
  }

  ghost predicate AllPass(ns: seq<Anode>, want: bool, checks: Checks)
    requires AllShaped(ns)
    decreases ns, 0
  {
    ns == [] || (Passes(ns[0], want, checks) && AllPass(ns[1..], want, checks))
  }

  ghost predicate ElementsPass(ns: seq<Anode>, checks: Checks)
    requires AllShaped(ns)
    decreases ns, 0
  {
    ns == [] || ((Present(ns[0], false) ==> Passes(ns[0], false, checks)) && ElementsPass(ns[1..], checks))
  }

  // How many elements are encoded.
  function Encoded(ns: seq<Anode>): nat {
    if ns == [] then 0 else (if Present(ns[0], false) then 1 else 0) + Encoded(ns[1..])
  }

  lemma {:induction false} HeldPasses(d: Anode, n: Anode, want: bool, checks: Checks)
    requires Shaped(n) && Holds(d, n, want)
    ensures Validate(d, checks) <==> Passes(n, want, checks)
    decreases n, 1
  {
    hide AllHold, ElementsHold, Elements, ValidateAll, AllPass, ElementsPass, Given, Encoded, AnyPresent, HaveAny;
    if Leaf(n.def.kind) || n.def.kind.Any? {
    } else if n.def.kind.SequenceOf? {
      OnlyElements(d.children, checks);
      ElementsHeldPass(Elements(d.children), n.children, checks);
    } else {
      AllHeldPass(d.children, n.children, want, checks);
    }
  }

  lemma {:induction false} AllHeldPass(ds: seq<Anode>, ns: seq<Anode>, want: bool, checks: Checks)
    requires AllShaped(ns) && AllHold(ds, ns, want)
    ensures ValidateAll(ds, checks, false) <==> AllPass(ns, want, checks)
    decreases ns, 0
  {
    hide Validate, Passes, Shaped, Holds;
    if ns != [] {
      HeldPasses(ds[0], ns[0], want, checks);
      AllHeldPass(ds[1..], ns[1..], want, checks);
    }
  }

  // Empty nodes between the elements are neither validated nor counted.
  lemma {:induction false} OnlyElements(ds: seq<Anode>, checks: Checks)
    ensures ValidateAll(ds, checks, true) <==> ValidateAll(Elements(ds), checks, false)
    ensures Given(ds) == |Elements(ds)|
  {
    hide Have, Validate;
    if ds != [] {
      OnlyElements(ds[1..], checks);
      if Have(ds[0]) {
        assert Elements(ds)[1..] == Elements(ds[1..]);
      }
    }
  }

  lemma {:induction false} ElementsHeldPass(ds: seq<Anode>, ns: seq<Anode>, checks: Checks)
    requires AllShaped(ns) && ElementsHold(ds, ns)
    ensures |ds| == Encoded(ns)
    ensures ValidateAll(ds, checks, false) <==> ElementsPass(ns, checks)
    decreases ns, 0
  {
    hide Validate, Passes, Shaped, Holds, Present;
    if ns != [] {
      if Present(ns[0], false) {
        HeldPasses(ds[0], ns[0], false, checks);
        ElementsHeldPass(ds[1..], ns[1..], checks);
      } else {
        ElementsHeldPass(ds, ns[1..], checks);
      }
    }
  }

  // Clearing leaves nothing and changes no definitions.
  lemma {:induction false} Cleared(m: Anode, n: Anode)
    requires SameSchema(m, n)
    ensures SameSchema(Clear(m), n) && !Have(Clear(m))
    decreases m, 1
  {
    ClearedAll(m.children);
    NoneIn(ClearAll(m.children));
    NoneIn(Clear(m).children);
    forall i | 0 <= i < |m.children| ensures SameSchema(Clear(m.children[i]), if n.def.kind.SequenceOf? then n.children[0] else n.children[i]) {
      Cleared(m.children[i], if n.def.kind.SequenceOf? then n.children[0] else n.children[i]);
    }
  }

  lemma {:induction false} ClearedAll(ms: seq<Anode>)
    ensures forall i :: 0 <= i < |ms| ==> ClearAll(ms)[i] == Clear(ms[i]) && !Have(ClearAll(ms)[i])
    decreases ms, 0
  {
    if ms != [] {
      ClearedAll(ms[0].children);
      var cs := Clear(ms[0]).children;
      assert forall i :: 0 <= i < |cs| ==> cs[i] == ClearAll(ms[0].children)[i];
      NoneIn(cs);
      ClearedAll(ms[1..]);
    }
  }

  lemma {:induction false} NoneIn(ms: seq<Anode>)
    requires forall i :: 0 <= i < |ms| ==> !Have(ms[i])
    ensures !HaveAny(ms)
  {
    hide Have;
    if ms != [] {
      NoneIn(ms[1..]);
    }
  }

  /** Decoding an encoding, into any tree of the same schema, gives the same values back
      exactly when what is encoded is readable and the values pass validation in the form
      DER gives them. */
  lemma RoundTrip(asn: Anode, target: Anode, checks: Checks)
    requires Shaped(asn) && Present(asn, true) && Encodable(asn) && SameSchema(target, asn)
    ensures Build(asn, true).Some? && Laid(Build(asn, true).value)
    ensures var r := DecodeFull(target, Der(Build(asn, true).value), checks);
            r.Some? && Holds(r.value, asn, true) <==> Readable(asn, true) && Passes(asn, true, checks)
  {
    hide Laid, Consistent, Build, Readable, Passes, Shaped, Holds, Validate, ParseDer, DecodeOne, AsRead, Clear, SameSchema, NodeOk, Ready, Present, Have;
    BuiltPresent(asn, true);
    BuiltIsLaid(asn, true);
    var t := Build(asn, true).value;
    ParseOfDer(t);
    ReadTag([t]);
    Cleared(target, asn);
    OneReadsBack(asn, Clear(target), true);
    OneRecord(Clear(target), AsRead(t));
    var r := DecodeOne(Clear(target), AsRead(t));
    if r.Some? && Holds(r.value, asn, true) {
      HeldPasses(r.value, asn, true, checks);
    }
  }

  lemma {:induction false} OneRecord(m: Anode, u: Atlv)
    ensures var r := DecodeOne(m, u);
            DecodeAnything([m], [u]) == if r == None then None else Some([r.value])
  {
    hide DecodeOneWithoutTag;
    assert [m][1..] == [] && [u][1..] == [];
    assert DecodeAnything([], []) == Some([]);
    var r := DecodeOne(m, u);
    if r.Some? {
      assert [r.value] + [] == [r.value];
    }
  }

  // A record with an explicit tag of class APPLICATION or UNIVERSAL is never decoded.
  lemma NeverDecoded(asn: Anode, target: Anode, checks: Checks)
    requires Shaped(asn) && Present(asn, true) && Encodable(asn) && SameSchema(target, asn)
    requires !asn.def.kind.Any? && Explicit(asn.def, true) && asn.def.tagging.value.cls < 128
    ensures Build(asn, true).Some? && Laid(Build(asn, true).value)
    ensures DecodeFull(target, Der(Build(asn, true).value), checks) == None
  {
    hide Laid, Consistent, Build, Validate, ParseDer, DecodeOneWithoutTag, AsRead, Clear, SameSchema, NodeOk, Ready, Present, Have, Record, Wrapped;
    BuiltPresent(asn, true);
    BuiltIsLaid(asn, true);
    BuildsRecord(asn, true);
    var t := Build(asn, true).value;
    ParseOfDer(t);
    ReadTag([t]);
    Cleared(target, asn);
    SameDef(Clear(target), asn);
    NeverReadsBack(asn, Clear(target), Record(asn, true).value);
    OneRecord(Clear(target), AsRead(t));
  }

  lemma {:induction false} SameDef(m: Anode, n: Anode)
    requires SameSchema(m, n)
    ensures m.def == n.def
  {
  }

  function ExampleNode(kind: Kind, value: Option<bytes>, children: seq<Anode>): Anode {
    Anode(Def(kind, None, false, false), value, None, 0, false, children)
  }

  // A SEQUENCE of an INTEGER and of a list of INTEGERs, which is empty ...
  function ExampleFields(): seq<Anode> {
    [ExampleNode(Integer, Some([5]), []), ExampleNode(SequenceOf, None, [ExampleNode(Integer, None, [])])]
  }

  // ... as the only element of a SEQUENCE OF.
  function ExampleList(): Anode {
    ExampleNode(SequenceOf, None, [ExampleNode(Sequence, None, ExampleFields())])
  }

  lemma ExampleEmptyList()
    ensures var list := ExampleFields()[1]; Shaped(list) && !Present(list, false) && !Have(list)
    ensures var list := ExampleFields()[1]; Validate(list, Checks((d, v) => true, (d, k) => true))
  {
    var j := ExampleNode(Integer, None, []);
    var list := ExampleFields()[1];
    assert list.children == [j] && [j][1..] == [];
    assert !Present(j, false) && !Have(j) && !AnyPresent([], false) && !HaveAny([]);
    assert !AnyPresent([j], false) && !HaveAny([j]);
  }

  lemma ExampleElement()
    ensures var element := ExampleNode(Sequence, None, ExampleFields());
            Shaped(element) && Present(element, false) && !Readable(element, false)
            && Have(element) && Validate(element, Checks((d, v) => true, (d, k) => true))
  {
    ExampleEmptyList();
    var fields, checks := ExampleFields(), Checks((d, v) => true, (d, k) => true);
    var list, element := fields[1], ExampleNode(Sequence, None, fields);
    assert fields[1..] == [list] && [list][1..] == [];
    assert Shaped(fields[0]) && Present(fields[0], false) && Validate(fields[0], checks);
    assert !MayBeAbsent(list) && !FieldsReadable([list], false);
    assert !FieldsReadable(fields, false) && !ContentReadable(element, false);
    assert ValidateAll([list], checks, false) && ValidateAll(fields, checks, false);
  }

  // It passes validation, but nothing is written for the empty list, which is not optional,
  // and so the element cannot be read back.
  lemma DroppedExample()
    ensures var n := ExampleList();
            && Shaped(n) && Present(n, true) && Validate(n, Checks((d, v) => true, (d, k) => true))
            && !Readable(n, true)
  {
    hide ExampleFields;
    ExampleElement();
    var n, checks := ExampleList(), Checks((d, v) => true, (d, k) => true);
    var element := n.children[0];
    assert n.children == [element] && [element][1..] == [];
    assert ValidateAll([element], checks, true) && !ElementsReadable([element]);
    assert !ContentReadable(n, true);
    SameItself(element);
  }

  lemma {:induction false} SameItself(n: Anode)
    requires Shaped(n)
    ensures SameSchema(n, n)
  {
    forall i | 0 <= i < |n.children| ensures SameSchema(n.children[i], n.children[i]) {
      SameItself(n.children[i]);
    }
  }

  // -------------------------------------------------- values kept as a record only

  // A string type whose constructed form is left as it is; the record inside an explicit tag.
  predicate IsString(k: Kind) {
    k == OctetString || k == GeneralString || k == NumericString || k == Ia5String || k == TeletexString
    || k == PrintableString || k == UniversalString || k == BmpString || k == Utf8String || k == VisibleString
  }

  function Inner(d: Def, t: Atlv): Atlv
    requires d.tagging.Some? && d.tagging.value.explicit ==> t.children != []
  {
    if d.tagging.Some? && d.tagging.value.explicit then t.children[0] else t
  }

  // A string that comes in pieces is accepted: it has no value of its own, but its record.
  lemma ConstructedString(asn: Anode, data: bytes, checks: Checks)
    requires ParseDer(data).Ok? && IsString(asn.def.kind) && TagMatches(asn, ParseDer(data).tlv)
    requires var t := ParseDer(data).tlv;
             && (asn.def.tagging.Some? && asn.def.tagging.value.explicit ==> t.cls % 256 >= 128 && t.value == None && |t.children| == 1)
             && (Inner(asn.def, t).cls / 32) % 2 == 1
    ensures DecodeFull(asn, data, checks) == Some(Clear(asn).(value := None, parsed := Some(ParseDer(data).tlv)))
  {
    hide ParseDer, Clear, DecodeOneWithoutTag, DecodeAnything;
    var t := ParseDer(data).tlv;
    var m := Clear(asn);
    ClearedLeaf(asn);
    StringTakes(m, t);
    OneRecord(m, t);
  }

  lemma ClearedLeaf(asn: Anode)
    ensures Clear(asn).def == asn.def && Clear(asn).value == None && Clear(asn).parsed == None
  {
  }

  lemma {:induction false} StringTakes(m: Anode, t: Atlv)
    requires IsString(m.def.kind)
    ensures Structured(t.cls) ==> DecodeOneWithoutTag(m, t, false) == Some(m.(parsed := Some(t)))
    ensures !Explicit(m.def, true) && Structured(t.cls) ==> DecodeOneWithoutTag(m, t, true) == Some(m.(parsed := Some(t)))
    ensures Explicit(m.def, true) && t.cls % 256 >= 128 && t.value == None && |t.children| == 1 && Structured(t.children[0].cls) ==>
              DecodeOneWithoutTag(m, t, true) == Some(m.(parsed := Some(t)))
  {
    if |t.children| == 1 {
      var c := t.children[0];
      assert Structured(c.cls) ==> DecodeOneWithoutTag(m, c, false) == Some(m.(parsed := Some(c)));
    }
  }

  // An ANY takes any record, and what it has is the record.
  lemma AnyRecord(asn: Anode, data: bytes, checks: Checks)
    requires ParseDer(data).Ok? && asn.def.kind.Any? && asn.def.tagging == None
    ensures DecodeFull(asn, data, checks) == Some(Clear(asn).(parsed := Some(ParseDer(data).tlv)))
  {
    hide ParseDer, Clear, DecodeOneWithoutTag, DecodeAnything, StringKind;
    var t := ParseDer(data).tlv;
    ClearedLeaf(asn);
    AnyTakes(Clear(asn), t);
    OneRecord(Clear(asn), t);
  }
}
