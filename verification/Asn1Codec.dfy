// Decoding what was encoded gives the values back, exactly when no field that is there can
// be taken for another and nothing that has to be there was left out.
module Asn1Codec {
  import opened Wrappers
  import opened Numbers
  import opened Asn1Header
  import opened Asn1Tlv
  import opened Asn1RoundTrip
  import opened Asn1Schema
  import opened Asn1Layout

  // Another tree of the same schema, whatever values it has. Of a SEQUENCE OF the first
  // child is the template of all elements.
  ghost predicate SameSchema(m: Anode, n: Anode) {
    && m.def == n.def
    && if n.def.kind.SequenceOf? then
         m.children != [] && n.children != [] && forall i :: 0 <= i < |m.children| ==> SameSchema(m.children[i], n.children[0])
       else
         |m.children| == |n.children| && forall i :: 0 <= i < |n.children| ==> SameSchema(m.children[i], n.children[i])
  }

  ghost predicate AllSame(ms: seq<Anode>, ns: seq<Anode>) {
    |ms| == |ns| && forall i :: 0 <= i < |ns| ==> SameSchema(ms[i], ns[i])
  }

  // A tree of primitive leaves, SEQUENCEs, SETs, SEQUENCEs OF and ANYs, any of them optional
  // and with a tag of its own. The record of an ANY is one that can be written.
  ghost predicate Shaped(n: Anode): (ok: bool)
    ensures ok ==> NodeOk(n)
  {
    && DefOk(n.def) && n.bitsEmpty < 8
    && if Leaf(n.def.kind) then n.children == []
       else if n.def.kind.Any? then n.children == [] && (n.parsed.Some? ==> Sized(n.parsed.value) && Written(n.parsed.value))
       else
         && n.children != []
         && (forall i :: 0 <= i < |n.children| ==> Shaped(n.children[i]))
         && (n.def.kind.SequenceOf? ==> forall i :: 0 <= i < |n.children| ==> SameSchema(n.children[i], n.children[0]))
  }

  ghost predicate AllShaped(ns: seq<Anode>): (ok: bool)
    ensures ok ==> forall i :: 0 <= i < |ns| ==> NodeOk(ns[i])
  {
    forall i :: 0 <= i < |ns| ==> Shaped(ns[i])
  }

  lemma {:induction false} ShapedReady(n: Anode)
    requires Shaped(n)
    ensures Ready(n)
  {
    if Container(n.def.kind) {
      forall i | 0 <= i < |n.children| ensures Ready(n.children[i]) {
        ShapedReady(n.children[i]);
      }
    }
  }

  // Whether the node is encoded: a leaf if it has a value, an ANY if it has a record, others
  // if something in them is, or if they are wanted even when empty. Elements of a SEQUENCE OF are not wanted, and
  // nothing in them is.
  predicate Present(n: Anode, want: bool)
    decreases n, 1
  {
    if n.def.kind.Any? then n.parsed.Some?
    else if !Container(n.def.kind) then n.value.Some?
    else (want && !n.def.option) || AnyPresent(n.children, want && !n.def.kind.SequenceOf?)
  }

  predicate AnyPresent(ns: seq<Anode>, want: bool)
    decreases ns, 0
  {
    ns != [] && (Present(ns[0], want) || AnyPresent(ns[1..], want))
  }

  // The value as DER puts it: spare bits of a bit string are zeros, and an integer that
  // is guaranteed to be unsigned does not have its sign bit set.
  function Canonical(n: Anode): Option<bytes>
    requires n.bitsEmpty < 8
  {
    if n.value == None then None
    else if n.def.kind.BitString? then Some(ClearTail(n.value.value, n.bitsEmpty))
    else if n.def.kind.Integer? && n.guaranteeUnsigned && HighBit(n.value.value) then Some([0] + n.value.value)
    else n.value
  }

  // The children something was decoded into.
  function Elements(ds: seq<Anode>): seq<Anode> {
    if ds == [] then [] else if Have(ds[0]) then [ds[0]] + Elements(ds[1..]) else Elements(ds[1..])
  }

  // `d` carries the values of `n`, and has something exactly where `n` was encoded.
  ghost predicate Holds(d: Anode, n: Anode, want: bool)
    requires Shaped(n)
    decreases n, 1
  {
    && d.def == n.def && (Have(d) <==> Present(n, want))
    && if Leaf(n.def.kind) then
         d.value == Canonical(n) && (n.def.kind.BitString? && n.value.Some? ==> d.bitsEmpty == n.bitsEmpty)
       else if n.def.kind.Any? then
         d.parsed == if n.parsed.Some? then Some(AsRead(n.parsed.value)) else None
       else if n.def.kind.SequenceOf? then ElementsHold(Elements(d.children), n.children)
       else AllHold(d.children, n.children, want)
  }

  ghost predicate AllHold(ds: seq<Anode>, ns: seq<Anode>, want: bool)
    requires AllShaped(ns)
    decreases ns, 0
  {
    |ds| == |ns| && (ns != [] ==> Holds(ds[0], ns[0], want) && AllHold(ds[1..], ns[1..], want))
  }

  // One for each element that was encoded.
  ghost predicate ElementsHold(ds: seq<Anode>, ns: seq<Anode>)
    requires AllShaped(ns)
    decreases ns, 0
  {
    if ns == [] then ds == []
    else if Present(ns[0], false) then ds != [] && Holds(ds[0], ns[0], false) && ElementsHold(ds[1..], ns[1..])
    else ElementsHold(ds, ns[1..])
  }

  function OuterTag(n: Anode): Option<nat> {
    CalcTag(n.def, true)
  }

  // The tag of the record of a node that is encoded: an ANY has that of the record it was given.
  function RecordTag(n: Anode): Option<nat> {
    if n.def.kind.Any? then (if n.parsed.Some? then Some(n.parsed.value.tag) else None) else OuterTag(n)
  }

  function FirstPresent(ns: seq<Anode>, want: bool): Option<Anode> {
    if ns == [] then None else if Present(ns[0], want) then Some(ns[0]) else FirstPresent(ns[1..], want)
  }

  // The tags of the fields that are encoded.
  function PresentTags(ns: seq<Anode>, want: bool): seq<nat> {
    if ns == [] then []
    else if Present(ns[0], want) && RecordTag(ns[0]).Some? then [RecordTag(ns[0]).value] + PresentTags(ns[1..], want)
    else PresentTags(ns[1..], want)
  }

  predicate Sorted(tags: seq<nat>) {
    forall i, j :: 0 <= i < j < |tags| ==> tags[i] <= tags[j]
  }

  // What can be read back of a node that is encoded: an explicit tag is not one of the
  // classes APPLICATION and UNIVERSAL, the record of an ANY with a tag of its own has that
  // tag, the fields of a SET come in the order of their tags, no field that has to be there is
  // missing, and none that is missing would take the record of the next one that is there.
  ghost predicate Readable(n: Anode, want: bool)
    decreases n, 2
  {
    if n.def.kind.Any? then n.parsed.Some? && AnyReadable(n.def, n.parsed.value)
    else (Explicit(n.def, true) ==> n.def.tagging.value.cls >= 128) && ContentReadable(n, want)
  }

  // The record of an ANY stands in for the tag its definition asks for: it has to have it.
  predicate AnyReadable(d: Def, t: Atlv) {
    && (d.tagging.Some? ==> t.tag == d.tagging.value.number)
    && (d.tagging.Some? && d.tagging.value.explicit ==> t.cls % 256 >= 128 && t.value == None && |t.children| == 1)
  }

  // An absent field takes the record of the next one when it waits for that tag, or for any.
  predicate Takes(n: Anode, next: Anode) {
    OuterTag(n) == None || OuterTag(n) == RecordTag(next)
  }

  ghost predicate ContentReadable(n: Anode, want: bool)
    decreases n, 1
  {
    if Leaf(n.def.kind) || n.def.kind.Any? then true
    else if n.def.kind.SequenceOf? then ElementsReadable(n.children)
    else FieldsReadable(n.children, want) && (n.def.kind.Set? ==> Sorted(PresentTags(n.children, want)))
  }

  ghost predicate FieldsReadable(ns: seq<Anode>, want: bool)
    decreases ns, 0
  {
    ns == [] ||
    ((if Present(ns[0], want) then Readable(ns[0], want)
      else
        && MayBeAbsent(ns[0])
        && var next := FirstPresent(ns[1..], want); next.Some? ==> !Takes(ns[0], next.value))
     && FieldsReadable(ns[1..], want))
  }

  ghost predicate ElementsReadable(ns: seq<Anode>)
    decreases ns, 0
  {
    ns == [] || ((Present(ns[0], false) ==> Readable(ns[0], false)) && ElementsReadable(ns[1..]))
  }

  // ------------------------------------------------ what building puts there

  lemma {:induction false} BuiltPresent(n: Anode, want: bool)
    requires Shaped(n)
    ensures Build(n, want).Some? <==> Present(n, want)
    ensures Present(n, want) ==> RecordTag(n) == Some(Build(n, want).value.tag)
    decreases n, 1
  {
    hide Header, HeaderSize, BuildChildren, AnyPresent, TotalSize;
    if Container(n.def.kind) {
      AnyBuilt(n.children, want && !n.def.kind.SequenceOf?);
    }
  }

  lemma {:induction false} AnyBuilt(ns: seq<Anode>, want: bool)
    requires AllShaped(ns)
    ensures BuildChildren(ns, want) != [] <==> AnyPresent(ns, want)
    decreases ns, 0
  {
    hide Build, Present, Shaped;
    if ns != [] {
      BuiltPresent(ns[0], want);
      AnyBuilt(ns[1..], want);
    }
  }

  // The records of a list of nodes are those of the nodes that are present.
  lemma {:induction false} FirstBuilt(ns: seq<Anode>, want: bool)
    requires AllShaped(ns)
    ensures BuildChildren(ns, want) == [] <==> FirstPresent(ns, want) == None
    ensures FirstPresent(ns, want).Some? ==> RecordTag(FirstPresent(ns, want).value) == Some(BuildChildren(ns, want)[0].tag)
  {
    hide Build, Present, Shaped;
    if ns != [] {
      BuiltPresent(ns[0], want);
      FirstBuilt(ns[1..], want);
    }
  }

  lemma {:induction false} TagsBuilt(ns: seq<Anode>, want: bool)
    requires AllShaped(ns)
    ensures |PresentTags(ns, want)| == |BuildChildren(ns, want)|
    ensures forall i :: 0 <= i < |PresentTags(ns, want)| ==> PresentTags(ns, want)[i] == BuildChildren(ns, want)[i].tag
  {
    hide Build, Present, Shaped;
    if ns != [] {
      BuiltPresent(ns[0], want);
      TagsBuilt(ns[1..], want);
    }
  }

  // ------------------------------------------------------------ primitive leaves

  // What the reader is given for a leaf.
  lemma {:induction false} LeafAsRead(n: Anode)
    requires Shaped(n) && Leaf(n.def.kind) && n.value.Some? && Laid(BuildLeaf(n).value)
    ensures var u := AsRead(BuildLeaf(n).value);
            !Structured(u.cls)
            && u.value == Some((if n.def.kind.BitString? then [n.bitsEmpty] else []) + Canonical(n).value)
  {
    hide Header, HeaderSize, CalcTag, TotalSize, ClearTail;
    var t := BuildLeaf(n).value;
    assert AsRead(t).value == Some(ValueOctets(t));
    assert [] + Canonical(n).value == Canonical(n).value;
  }

  // The spare bits are read as zeros.
  lemma {:induction false} ClearedTail(n: Anode)
    requires n.bitsEmpty < 8 && n.value.Some? && n.def.kind.BitString?
    ensures Canonical(n).Some?
    ensures var v := Canonical(n).value; v != [] ==> v[|v| - 1] % MaskSize(n.bitsEmpty) == 0
  {
    var buf := n.value.value;
    if buf != [] {
      WithoutRest(buf[|buf| - 1], MaskSize(n.bitsEmpty));
    }
  }

  lemma WithoutRest(x: nat, k: nat)
    requires k > 0
    ensures (x - x % k) % k == 0
  {
    DivModOf(x, k);
    MulLe(k, 0, x / k);
    ModIs(k, k * (x / k), x / k, 0);
  }

  lemma {:induction false} LeafReadsBack(n: Anode, m: Anode, want: bool, tagged: bool)
    requires Shaped(n) && Leaf(n.def.kind) && n.value.Some? && m.def == n.def && m.children == []
    requires Laid(BuildLeaf(n).value) && !Explicit(n.def, tagged)
    ensures ReadsBack(DecodeOneWithoutTag(m, AsRead(BuildLeaf(n).value), tagged), n, want)
  {
    hide AsRead, WithHeader, Laid, DecodeStructured, CalcTag, ClearTail, HighBit, HaveAny;
    LeafAsRead(n);
    var octets := AsRead(BuildLeaf(n).value).value.value;
    if n.def.kind.BitString? {
      ClearedTail(n);
      assert octets[1..] == Canonical(n).value;
    } else {
      assert [] + Canonical(n).value == Canonical(n).value;
    }
  }

  // ------------------------------------------------------------------- records

  ghost predicate ReadsBack(r: Option<Anode>, n: Anode, want: bool)
    requires Shaped(n)
  {
    r.Some? && Holds(r.value, n, want)
  }

  ghost predicate AllReadBack(r: Option<seq<Anode>>, ns: seq<Anode>, want: bool)
    requires AllShaped(ns)
  {
    r.Some? && AllHold(r.value, ns, want)
  }

  ghost predicate ElementsReadBack(r: Option<seq<Anode>>, ns: seq<Anode>)
    requires AllShaped(ns)
  {
    r.Some? && ElementsHold(r.value, ns)
  }

  // An explicitly tagged record is read by reading the one inside it.
  lemma {:induction false} WrappedReadsBack(n: Anode, m: Anode, t: Atlv)
    requires Shaped(n) && m.def == n.def && Sized(t) && Written(t) && Fits(Wrapped(n.def, t))
    requires Laid(Wrapped(n.def, t)) && (Explicit(n.def, true) ==> n.def.tagging.value.cls >= 128)
    ensures var inner := DecodeOneWithoutTag(m, AsRead(t), !Explicit(n.def, true));
            var outer := DecodeOneWithoutTag(m, AsRead(Wrapped(n.def, t)), true);
            outer == if inner == None then None else Some(inner.value.(parsed := Some(AsRead(Wrapped(n.def, t)))))
  {
    hide Header, HeaderSize, DecodeStructured, DecodePrimitive, CalcTag, TotalSize;
    if Explicit(n.def, true) {
      var w := Wrapped(n.def, t);
      assert AllAsRead([t]) == [AsRead(t)] by {
        assert [t][1..] == [];
      }
      assert AsRead(w) == Parsed(w.cls, w.tag, w.off, w.len, None, [AsRead(t)]);
    }
  }

  // ... but never when its class is APPLICATION or UNIVERSAL.
  lemma {:induction false} NeverReadsBack(n: Anode, m: Anode, t: Atlv)
    requires DefOk(n.def) && m.def == n.def && Sized(t) && Laid(Wrapped(n.def, t))
    requires Explicit(n.def, true) && n.def.tagging.value.cls < 128
    ensures DecodeOneWithoutTag(m, AsRead(Wrapped(n.def, t)), true) == None
  {
    hide Header, HeaderSize, DecodeStructured, DecodePrimitive, CalcTag, TotalSize;
  }

  // Which record was used is not one of the values.
  lemma {:induction false} HoldsApart(r: Option<Anode>, t: Atlv, n: Anode, want: bool)
    requires Shaped(n) && !n.def.kind.Any? && Present(n, want) && (r.Some? ==> r.value.parsed.Some?)
    ensures r.Some? ==> (Holds(r.value.(parsed := Some(t)), n, want) <==> Holds(r.value, n, want))
  {
    hide Present, HaveAny, ElementsHold, AllHold;
  }

  // An ANY takes the record as it is.
  lemma {:induction false} AnyReadsBack(n: Anode, m: Anode, want: bool)
    requires Shaped(n) && n.def.kind.Any? && n.parsed.Some? && SameSchema(m, n) && !Have(m)
    ensures TagMatches(m, AsRead(n.parsed.value)) <==> (n.def.tagging.Some? ==> n.parsed.value.tag == n.def.tagging.value.number)
    ensures TagMatches(m, AsRead(n.parsed.value)) ==>
              (ReadsBack(DecodeOneWithoutTag(m, AsRead(n.parsed.value), true), n, want) <==> Readable(n, want))
  {
    hide Header, TotalSize, ValueOctets, AllAsRead, DecodeOneWithoutTag;
    var t, u := n.parsed.value, AsRead(n.parsed.value);
    assert u.tag == t.tag && u.cls == t.cls && |u.children| == (if t.value.Some? then 0 else |t.children|);
    assert u.value.Some? <==> t.value.Some?;
    AnyTakes(m, u);
  }

  lemma {:induction false} AnyTakes(m: Anode, u: Atlv)
    requires m.def.kind.Any?
    ensures DecodeOneWithoutTag(m, u, false) == Some(m.(parsed := Some(u)))
    ensures DecodeOneWithoutTag(m, u, true) ==
              if Explicit(m.def, true) && (u.cls % 256 < 128 || u.value.Some? || |u.children| != 1) then None
              else Some(m.(parsed := Some(u)))
  {
    if Explicit(m.def, true) && u.cls % 256 >= 128 && u.value == None && |u.children| == 1 {
      AnyTakes(m, u.children[0]);
    }
  }

  // The tag an ANY waits for is part of what makes it readable.
  lemma {:induction false} OneReadsBack(n: Anode, m: Anode, want: bool)
    requires Shaped(n) && SameSchema(m, n) && !Have(m) && Present(n, want)
    requires Build(n, want).Some? && Fits(Build(n, want).value) && Laid(Build(n, want).value)
    ensures ReadsBack(DecodeOne(m, AsRead(Build(n, want).value)), n, want) <==> Readable(n, want)
    ensures !TagMatches(m, AsRead(Build(n, want).value)) ==> !Readable(n, want)
    decreases n, 4
  {
    hide Laid, Consistent, Header, DecodeOneWithoutTag, Holds, NodeOk, Have, ContentReadable;
    BuiltPresent(n, want);
    SameTag(m, n);
    if n.def.kind.Any? {
      AnyReadsBack(n, m, want);
    }
    if TagMatches(m, AsRead(Build(n, want).value)) {
      NodeReadsBack(n, m, want);
    }
  }

  // The record of a node without its explicit tag.
  ghost function Record(n: Anode, want: bool): Option<Atlv>
    requires Shaped(n) && !n.def.kind.Any?
  {
    if Leaf(n.def.kind) then BuildLeaf(n) else BuildStructured(n, want)
  }

  lemma {:induction false} BuildsRecord(n: Anode, want: bool)
    requires Shaped(n) && !n.def.kind.Any?
    ensures Record(n, want).Some? <==> Present(n, want)
    ensures Present(n, want) ==> Sized(Record(n, want).value) && Build(n, want) == Some(Wrapped(n.def, Record(n, want).value))
  {
    hide BuildStructured;
    BuiltPresent(n, want);
  }

  lemma {:induction false} RecordIsWritten(n: Anode, want: bool)
    requires Shaped(n) && !n.def.kind.Any? && Record(n, want).Some? && Fits(Record(n, want).value)
    ensures Written(Record(n, want).value)
  {
    hide Laid, Consistent, Header, WithHeader, NodeOk;
    ShapedReady(n);
    if Leaf(n.def.kind) {
      LeafIsLaid(n);
    } else {
      StructuredIsLaid(n, want);
    }
  }

  // ------------------------------------------------- trees with nothing in them

  // A tree with nothing in it stands for one that is not encoded.
  lemma {:induction false} BlankHolds(m: Anode, n: Anode, want: bool)
    requires Shaped(n) && SameSchema(m, n) && !Have(m) && !Present(n, want)
    ensures Holds(m, n, want)
    decreases n, 1
  {
    if n.def.kind.SequenceOf? {
      BlankElements(m.children);
      NoElements(n.children);
    } else if Container(n.def.kind) {
      AllBlankHold(m.children, n.children, want);
    }
  }

  lemma {:induction false} AllBlankHold(ms: seq<Anode>, ns: seq<Anode>, want: bool)
    requires AllShaped(ns) && AllSame(ms, ns) && !HaveAny(ms) && !AnyPresent(ns, want)
    ensures AllHold(ms, ns, want)
    decreases ns, 0
  {
    hide Have, Present, Holds, SameSchema, Shaped;
    if ns != [] {
      BlankHolds(ms[0], ns[0], want);
      AllBlankHold(ms[1..], ns[1..], want);
    }
  }

  lemma {:induction false} BlankElements(ms: seq<Anode>)
    ensures !HaveAny(ms) <==> Elements(ms) == []
  {
    hide Have;
    if ms != [] {
      BlankElements(ms[1..]);
    }
  }

  lemma {:induction false} NoElements(ns: seq<Anode>)
    requires AllShaped(ns) && !AnyPresent(ns, false)
    ensures ElementsHold([], ns)
  {
    hide Present, Shaped;
    if ns != [] {
      NoElements(ns[1..]);
    }
  }

  lemma {:induction false} ElementsAppend(ds: seq<Anode>, es: seq<Anode>)
    ensures Elements(ds + es) == Elements(ds) + Elements(es)
  {
    hide Have;
    if ds == [] {
      assert ds + es == es;
    } else {
      assert (ds + es)[0] == ds[0] && (ds + es)[1..] == ds[1..] + es;
      ElementsAppend(ds[1..], es);
    }
  }

  lemma {:induction false} ElementsAll(ds: seq<Anode>)
    requires forall i :: 0 <= i < |ds| ==> Have(ds[i])
    ensures Elements(ds) == ds
  {
    hide Have;
    if ds != [] {
      ElementsAll(ds[1..]);
    }
  }

  lemma {:induction false} DecodedHas(m: Anode, u: Atlv, tagged: bool)
    ensures var r := DecodeOneWithoutTag(m, u, tagged); r.Some? ==> r.value.parsed == Some(u) && Have(r.value)
  {
    hide DecodeStructured, DecodePrimitive, HaveAny;
  }

  lemma {:induction false} OthersHave(clone: Anode, us: seq<Atlv>)
    requires DecodeOthers(clone, us).Some?
    ensures forall i :: 0 <= i < |DecodeOthers(clone, us).value| ==> Have(DecodeOthers(clone, us).value[i])
    decreases us
  {
    hide DecodeOneWithoutTag, Have;
    if us != [] {
      DecodedHas(clone, us[0], true);
      OthersHave(clone, us[1..]);
    }
  }

  lemma {:induction false} ElementsHave(m: Anode, us: seq<Atlv>)
    requires DecodeElements(m, us).Some?
    ensures forall i :: 0 <= i < |DecodeElements(m, us).value| ==> Have(DecodeElements(m, us).value[i])
  {
    hide DecodeOneWithoutTag, Have, Clone;
    if us != [] {
      DecodedHas(m, us[0], true);
      OthersHave(Clone(DecodeOne(m, us[0]).value), us[1..]);
    }
  }

  // Clones have nothing in them.
  lemma {:induction false} CloneBlank(d: Anode, n: Anode)
    requires SameSchema(d, n)
    ensures SameSchema(Clone(d), n) && !Have(Clone(d))
    decreases d, 1
  {
    CloneAllBlank(d.children);
    forall i | 0 <= i < |d.children| ensures SameSchema(Clone(d.children[i]), if n.def.kind.SequenceOf? then n.children[0] else n.children[i]) {
      CloneBlank(d.children[i], if n.def.kind.SequenceOf? then n.children[0] else n.children[i]);
    }
  }

  lemma {:induction false} CloneAllBlank(ds: seq<Anode>)
    ensures !HaveAny(CloneAll(ds)) && |CloneAll(ds)| == |ds|
    ensures forall i :: 0 <= i < |ds| ==> CloneAll(ds)[i] == Clone(ds[i])
    decreases ds, 0
  {
    if ds != [] {
      CloneAllBlank(ds[0].children);
      CloneAllBlank(ds[1..]);
    }
  }

  // Two trees of the schema of a third are of the same schema.
  lemma {:induction false} SameVia(m: Anode, n: Anode, t: Anode)
    requires SameSchema(m, t) && SameSchema(n, t)
    ensures SameSchema(m, n)
    decreases t
  {
    if t.def.kind.SequenceOf? {
      forall i | 0 <= i < |m.children| ensures SameSchema(m.children[i], n.children[0]) {
        SameVia(m.children[i], n.children[0], t.children[0]);
      }
    } else {
      forall i | 0 <= i < |t.children| ensures SameSchema(m.children[i], n.children[i]) {
        SameVia(m.children[i], n.children[i], t.children[i]);
      }
    }
  }

  // Decoding keeps to the schema.
  lemma {:induction false} DecodedSame(m: Anode, n: Anode, u: Atlv, tagged: bool)
    requires SameSchema(m, n) && DecodeOneWithoutTag(m, u, tagged).Some?
    ensures SameSchema(DecodeOneWithoutTag(m, u, tagged).value, n)
    decreases u, 2
  {
    hide DecodePrimitive, DecodeStructured;
    if Explicit(m.def, tagged) {
      DecodedSame(m, n, u.children[0], false);
    } else if Structured(u.cls) {
      StructuredSame(m, n, u);
    } else {
      PrimitiveSame(m, n, u);
    }
  }

  lemma {:induction false} PrimitiveSame(m: Anode, n: Anode, u: Atlv)
    requires SameSchema(m, n) && DecodePrimitive(m, u).Some?
    ensures SameSchema(DecodePrimitive(m, u).value, n)
  {
  }

  lemma {:induction false} StructuredSame(m: Anode, n: Anode, u: Atlv)
    requires SameSchema(m, n) && DecodeStructured(m, u).Some?
    ensures SameSchema(DecodeStructured(m, u).value, n)
    decreases u, 1
  {
    hide DecodeAnything, DecodeElements, Ascending;
    if m.def.kind.Any? || StringKind(m.def.kind) {
    } else if m.def.kind.SequenceOf? {
      var ds := DecodeElements(m.children[0], u.children).value;
      ElementsSame(m.children[0], n.children[0], u.children);
      if ds != [] {
        var all := [ds[0]] + m.children[1..] + ds[1..];
        forall i | 0 <= i < |all| ensures SameSchema(all[i], n.children[0]) {
          assert all[i] == if i == 0 then ds[0] else if i < |m.children| then m.children[i] else ds[i - |m.children| + 1];
        }
      }
    } else {
      AnythingSame(m.children, n.children, u.children);
    }
  }

  lemma {:induction false} ElementsSame(m: Anode, n: Anode, us: seq<Atlv>)
    requires SameSchema(m, n) && DecodeElements(m, us).Some?
    ensures forall i :: 0 <= i < |DecodeElements(m, us).value| ==> SameSchema(DecodeElements(m, us).value[i], n)
    decreases us, 0
  {
    hide SameSchema, DecodeOneWithoutTag, Clone;
    if us != [] {
      DecodedSame(m, n, us[0], true);
      CloneBlank(DecodeOne(m, us[0]).value, n);
      OthersSame(Clone(DecodeOne(m, us[0]).value), n, us[1..]);
    }
  }

  lemma {:induction false} OthersSame(m: Anode, n: Anode, us: seq<Atlv>)
    requires SameSchema(m, n) && DecodeOthers(m, us).Some?
    ensures forall i :: 0 <= i < |DecodeOthers(m, us).value| ==> SameSchema(DecodeOthers(m, us).value[i], n)
    decreases us, 0
  {
    hide SameSchema, DecodeOneWithoutTag;
    if us != [] {
      DecodedSame(m, n, us[0], true);
      OthersSame(m, n, us[1..]);
    }
  }

  lemma {:induction false} AnythingSame(ms: seq<Anode>, ns: seq<Anode>, us: seq<Atlv>)
    requires AllSame(ms, ns) && DecodeAnything(ms, us).Some?
    ensures AllSame(DecodeAnything(ms, us).value, ns)
    decreases us, 0, |ms|
  {
    hide DecodeOneWithoutTag, TagMatches;
    var ds := DecodeAnything(ms, us).value;
    if us == [] {
      forall i | 0 <= i < |ns| ensures SameSchema(ds[i], ns[i]) {
        assert SameSchema(ms[i], ns[i]);
      }
    } else if !TagMatches(ms[0], us[0]) {
      AnythingSame(ms[1..], ns[1..], us);
      assert SameSchema(ms[0], ns[0]);
      AllSameCons(Absent(ms[0]), DecodeAnything(ms[1..], us).value, ns);
    } else {
      DecodedSame(ms[0], ns[0], us[0], true);
      AnythingSame(ms[1..], ns[1..], us[1..]);
      AllSameCons(DecodeOneWithoutTag(ms[0], us[0], true).value, DecodeAnything(ms[1..], us[1..]).value, ns);
    }
  }

  lemma {:induction false} AllSameCons(d: Anode, ds: seq<Anode>, ns: seq<Anode>)
    requires ns != [] && SameSchema(d, ns[0]) && AllSame(ds, ns[1..])
    ensures AllSame([d] + ds, ns)
  {
    hide SameSchema;
    forall i | 0 <= i < |ns| ensures SameSchema(([d] + ds)[i], ns[i]) {
      assert i > 0 ==> ns[i] == ns[1..][i - 1];
    }
  }

  // ------------------------------------------------------------- reading back

  // A record is read back into any empty tree of the same schema, and it gives the values
  // of the node it was built from exactly when the node is readable.
  lemma {:induction false} NodeReadsBack(n: Anode, m: Anode, want: bool)
    requires Shaped(n) && SameSchema(m, n) && !Have(m) && Present(n, want)
    requires Build(n, want).Some? && Fits(Build(n, want).value) && Laid(Build(n, want).value)
    requires n.def.kind.Any? ==> TagMatches(m, AsRead(Build(n, want).value))
    ensures ReadsBack(DecodeOneWithoutTag(m, AsRead(Build(n, want).value), true), n, want) <==> Readable(n, want)
    decreases n, 3
  {
    hide Laid, Consistent, Header, AsRead, DecodeOneWithoutTag, Holds, NodeOk, Record, Wrapped, Present, Have, FieldsReadable, ElementsReadable, PresentTags;
    if n.def.kind.Any? {
      AnyReadsBack(n, m, want);
      return;
    }
    BuildsRecord(n, want);
    var t := Record(n, want).value;
    WrappedFits(n.def, t);
    RecordIsWritten(n, want);
    if Explicit(n.def, true) && n.def.tagging.value.cls < 128 {
      NeverReadsBack(n, m, t);
    } else {
      WrappedReadsBack(n, m, t);
      RecordReadsBack(n, m, want, !Explicit(n.def, true));
      DecodedHas(m, AsRead(t), !Explicit(n.def, true));
      HoldsApart(DecodeOneWithoutTag(m, AsRead(t), !Explicit(n.def, true)), AsRead(Wrapped(n.def, t)), n, want);
    }
  }

  lemma {:induction false} RecordReadsBack(n: Anode, m: Anode, want: bool, tagged: bool)
    requires Shaped(n) && !n.def.kind.Any? && SameSchema(m, n) && !Have(m) && Present(n, want) && !Explicit(n.def, tagged)
    requires Record(n, want).Some? && Fits(Record(n, want).value) && Laid(Record(n, want).value)
    ensures ReadsBack(DecodeOneWithoutTag(m, AsRead(Record(n, want).value), tagged), n, want) <==> ContentReadable(n, want)
    decreases n, 2
  {
    hide Header, HeaderSize, Laid, Holds, FieldsReadable, ElementsReadable, DecodeOneWithoutTag, AsRead, AllAsRead, TotalSize;
    if Leaf(n.def.kind) {
      LeafReadsBack(n, m, want, tagged);
    } else {
      var inner := want && !n.def.kind.SequenceOf?;
      var ts := BuildChildren(n.children, inner);
      ChildrenReady(n.children);
      BuiltSize(ts);
      ContentFits(n, want);
      ChildrenAreLaid(n.children, inner);
      ChildrenFit(ts);
      if n.def.kind.SequenceOf? {
        ElementsReadsBack(n.children, m.children[0], n.children[0]);
        SequenceOfReadsBack(n, m, want, tagged);
      } else {
        ListReadsBack(n.children, m.children, inner);
        if n.def.kind.Set? {
          InTagOrder(n.children, inner, ts);
        }
        SequenceReadsBack(n, m, want, tagged);
      }
    }
  }

  lemma {:induction false} ChildrenReady(ns: seq<Anode>)
    requires AllShaped(ns)
    ensures forall i :: 0 <= i < |ns| ==> Ready(ns[i])
  {
    forall i | 0 <= i < |ns| ensures Ready(ns[i]) {
      ShapedReady(ns[i]);
    }
  }

  lemma {:induction false} ContentFits(n: Anode, want: bool)
    requires Shaped(n) && Container(n.def.kind) && Record(n, want).Some? && Fits(Record(n, want).value)
    ensures TotalSize(BuildChildren(n.children, want && !n.def.kind.SequenceOf?)) <= INT_MAX
  {
    hide Header, TotalSize;
  }

  lemma {:induction false} ChildrenFit(ts: seq<Atlv>)
    requires forall i :: 0 <= i < |ts| ==> Sized(ts[i])
    requires TotalSize(ts) <= INT_MAX
    ensures forall i :: 0 <= i < |ts| ==> Fits(ts[i])
  {
    if ts != [] {
      BuiltSize(ts[1..]);
      ChildrenFit(ts[1..]);
      assert forall i :: 0 < i < |ts| ==> ts[i] == ts[1..][i - 1];
    }
  }

  // The records of a SET are in order when the tags of the fields are.
  lemma {:induction false} InTagOrder(ns: seq<Anode>, want: bool, ts: seq<Atlv>)
    requires AllShaped(ns) && ts == BuildChildren(ns, want) && forall i :: 0 <= i < |ts| ==> Laid(ts[i])
    ensures Ascending(AllAsRead(ts)) <==> Sorted(PresentTags(ns, want))
  {
    hide Laid, PresentTags, BuildChildren;
    var tags, us := PresentTags(ns, want), AllAsRead(ts);
    TagsBuilt(ns, want);
    ReadTags(ts);
    if Ascending(us) {
      forall i, j | 0 <= i < j < |tags| ensures tags[i] <= tags[j] {
        AscendingApart(us, i, j);
      }
    }
  }

  lemma {:induction false} AscendingApart(us: seq<Atlv>, i: nat, j: nat)
    requires Ascending(us) && i < j < |us|
    ensures us[i].tag <= us[j].tag
    decreases j - i
  {
    if i + 1 < j {
      AscendingApart(us, i + 1, j);
    }
    assert us[i].tag <= us[i + 1].tag;
  }

  lemma {:induction false} ReadTags(ts: seq<Atlv>)
    requires forall i :: 0 <= i < |ts| ==> Laid(ts[i])
    ensures forall i :: 0 <= i < |ts| ==> AllAsRead(ts)[i] == AsRead(ts[i]) && AllAsRead(ts)[i].tag == ts[i].tag
  {
    hide Laid;
    if ts != [] {
      ReadTags(ts[1..]);
    }
  }

  // A SEQUENCE is read by reading its fields, and so is a SET whose records are in order.
  lemma {:induction false} SequenceReadsBack(n: Anode, m: Anode, want: bool, tagged: bool)
    requires Shaped(n) && SameSchema(m, n) && (n.def.kind.Sequence? || n.def.kind.Set?) && !Explicit(n.def, tagged)
    requires Present(n, want) && Record(n, want).Some? && Laid(Record(n, want).value)
    requires forall i :: 0 <= i < |BuildChildren(n.children, want)| ==> Laid(BuildChildren(n.children, want)[i])
    ensures var us := AllAsRead(BuildChildren(n.children, want));
            ReadsBack(DecodeOneWithoutTag(m, AsRead(Record(n, want).value), tagged), n, want) <==>
              (n.def.kind.Set? ==> Ascending(us)) && AllReadBack(DecodeAnything(m.children, us), n.children, want)
  {
    hide Laid, Header, HeaderSize, AllAsRead, DecodeAnything, CalcTag, Ascending, AllHold, Present, HaveAny;
  }

  // A SEQUENCE OF is read by reading its elements.
  lemma {:induction false} SequenceOfReadsBack(n: Anode, m: Anode, want: bool, tagged: bool)
    requires Shaped(n) && SameSchema(m, n) && n.def.kind.SequenceOf? && !Have(m) && !Explicit(n.def, tagged)
    requires Present(n, want) && Record(n, want).Some? && Laid(Record(n, want).value)
    requires forall i :: 0 <= i < |BuildChildren(n.children, false)| ==> Laid(BuildChildren(n.children, false)[i])
    ensures var us := AllAsRead(BuildChildren(n.children, false));
            ReadsBack(DecodeOneWithoutTag(m, AsRead(Record(n, want).value), tagged), n, want) <==>
              ElementsReadBack(DecodeElements(m.children[0], us), n.children)
  {
    hide Laid, Header, HeaderSize, AllAsRead, DecodeElements, CalcTag, Ascending, ElementsHold, Present, HaveAny, Elements;
    var us := AllAsRead(BuildChildren(n.children, false));
    var r := DecodeElements(m.children[0], us);
    BlankElements(m.children);
    if r.Some? {
      ElementsHave(m.children[0], us);
      if r.value != [] {
        GrownElements(m.children, r.value);
      }
    }
  }

  // The elements are those decoded, wherever the empty nodes between them are.
  lemma {:induction false} GrownElements(ms: seq<Anode>, ds: seq<Anode>)
    requires ms != [] && ds != [] && !HaveAny(ms) && forall i :: 0 <= i < |ds| ==> Have(ds[i])
    ensures Elements([ds[0]] + ms[1..] + ds[1..]) == ds
  {
    hide Have, HaveAny, Elements;
    BlankTail(ms);
    ElementsAppend([ds[0]] + ms[1..], ds[1..]);
    ElementsAppend([ds[0]], ms[1..]);
    ElementsAll([ds[0]]);
    ElementsAll(ds[1..]);
    assert [ds[0]] + [] + ds[1..] == ds;
  }

  lemma {:induction false} BlankTail(ms: seq<Anode>)
    requires ms != [] && !HaveAny(ms)
    ensures Elements(ms[1..]) == []
  {
    hide Have;
    BlankElements(ms[1..]);
  }

  lemma {:induction false} ElementsReadsBack(ns: seq<Anode>, m: Anode, t: Anode)
    requires AllShaped(ns) && SameSchema(m, t) && !Have(m) && forall i :: 0 <= i < |ns| ==> SameSchema(ns[i], t)
    requires var ts := BuildChildren(ns, false); forall i :: 0 <= i < |ts| ==> Laid(ts[i]) && Fits(ts[i])
    ensures ElementsReadBack(DecodeElements(m, AllAsRead(BuildChildren(ns, false))), ns) <==> ElementsReadable(ns)
    decreases ns, 0
  {
    hide Laid, Build, AsRead, DecodeOneWithoutTag, Holds, SameSchema, NodeOk, Shaped, Readable, Have, Clone, DecodeOthers, Present;
    if ns != [] {
      BuiltPresent(ns[0], false);
      if Present(ns[0], false) {
        BuildsHead(ns, false);
        assert BuildChildren(ns, false)[0] == Build(ns[0], false).value;
        var u, rest := AsRead(Build(ns[0], false).value), BuildChildren(ns[1..], false);
        ReadTag(BuildChildren(ns, false));
        SameVia(m, ns[0], t);
        OneReadsBack(ns[0], m, false);
        var d := DecodeOne(m, u);
        if d.Some? {
          DecodedSame(m, t, u, true);
          CloneBlank(d.value, t);
          OthersReadBack(ns[1..], Clone(d.value), t);
        }
        FirstIsRead(m, u, AllAsRead(rest), ns);
      } else {
        BuildsNothing(ns, false);
        ElementsReadsBack(ns[1..], m, t);
      }
    }
  }

  lemma {:induction false} SameTag(m: Anode, n: Anode)
    requires SameSchema(m, n)
    ensures OuterTag(m) == OuterTag(n)
  {
  }

  lemma {:induction false} FirstIsRead(m: Anode, u: Atlv, us: seq<Atlv>, ns: seq<Anode>)
    requires ns != [] && AllShaped(ns) && Present(ns[0], false)
    ensures var d := DecodeOne(m, u);
            ElementsReadBack(DecodeElements(m, [u] + us), ns) <==>
              ReadsBack(d, ns[0], false) && ElementsReadBack(DecodeOthers(Clone(d.value), us), ns[1..])
  {
    hide Holds, Shaped, DecodeOne, Clone, DecodeOthers, Present, ElementsHold;
    assert ([u] + us)[1..] == us;
    var d := DecodeOne(m, u);
    if d.Some? && DecodeOthers(Clone(d.value), us).Some? {
      ElementsHoldCons(d.value, DecodeOthers(Clone(d.value), us).value, ns);
    }
  }

  lemma {:induction false} ElementsHoldCons(d: Anode, ds: seq<Anode>, ns: seq<Anode>)
    requires ns != [] && AllShaped(ns) && Present(ns[0], false)
    ensures ElementsHold([d] + ds, ns) <==> Holds(d, ns[0], false) && ElementsHold(ds, ns[1..])
  {
    hide Holds, Shaped, Present;
    assert ([d] + ds)[1..] == ds;
  }

  lemma {:induction false} OthersReadBack(ns: seq<Anode>, m: Anode, t: Anode)
    requires AllShaped(ns) && SameSchema(m, t) && !Have(m) && forall i :: 0 <= i < |ns| ==> SameSchema(ns[i], t)
    requires var ts := BuildChildren(ns, false); forall i :: 0 <= i < |ts| ==> Laid(ts[i]) && Fits(ts[i])
    ensures ElementsReadBack(DecodeOthers(m, AllAsRead(BuildChildren(ns, false))), ns) <==> ElementsReadable(ns)
    decreases ns, 0
  {
    hide Laid, Build, AsRead, DecodeOneWithoutTag, Holds, SameSchema, NodeOk, Shaped, Readable, Have, Present;
    if ns != [] {
      BuiltPresent(ns[0], false);
      if Present(ns[0], false) {
        BuildsHead(ns, false);
        assert BuildChildren(ns, false)[0] == Build(ns[0], false).value;
        var u, rest := AsRead(Build(ns[0], false).value), BuildChildren(ns[1..], false);
        ReadTag(BuildChildren(ns, false));
        SameVia(m, ns[0], t);
        OneReadsBack(ns[0], m, false);
        OthersReadBack(ns[1..], m, t);
        NextIsRead(m, u, AllAsRead(rest), ns);
      } else {
        BuildsNothing(ns, false);
        OthersReadBack(ns[1..], m, t);
      }
    }
  }

  lemma {:induction false} NextIsRead(m: Anode, u: Atlv, us: seq<Atlv>, ns: seq<Anode>)
    requires ns != [] && AllShaped(ns) && Present(ns[0], false)
    ensures ElementsReadBack(DecodeOthers(m, [u] + us), ns) <==>
              ReadsBack(DecodeOne(m, u), ns[0], false) && ElementsReadBack(DecodeOthers(m, us), ns[1..])
  {
    hide Holds, Shaped, DecodeOne, Present, ElementsHold;
    assert ([u] + us)[1..] == us;
    var d := DecodeOne(m, u);
    if d.Some? && DecodeOthers(m, us).Some? {
      ElementsHoldCons(d.value, DecodeOthers(m, us).value, ns);
    }
  }

  lemma {:induction false} ListReadsBack(ns: seq<Anode>, ms: seq<Anode>, want: bool)
    requires AllShaped(ns) && AllSame(ms, ns) && !HaveAny(ms)
    requires var ts := BuildChildren(ns, want); forall i :: 0 <= i < |ts| ==> Laid(ts[i]) && Fits(ts[i])
    ensures AllReadBack(DecodeAnything(ms, AllAsRead(BuildChildren(ns, want))), ns, want) <==> FieldsReadable(ns, want)
    decreases ns, 0
  {
    hide Laid, Build, AsRead, DecodeOneWithoutTag, DecodeAnything, Holds, SameSchema, NodeOk, Shaped, Readable, Have, Present;
    var ts := BuildChildren(ns, want);
    FirstBuilt(ns, want);
    if ts == [] {
      NoneLeft(ns, ms, want);
    } else {
      BuiltPresent(ns[0], want);
      if Present(ns[0], want) {
        BuildsHead(ns, want);
        var t, rest := Build(ns[0], want).value, BuildChildren(ns[1..], want);
        ReadTag(ts);
        OneReadsBack(ns[0], ms[0], want);
        ListReadsBack(ns[1..], ms[1..], want);
        if TagMatches(ms[0], AsRead(t)) {
          PresentIsRead(ns, ms, AsRead(t), AllAsRead(rest), want);
        } else {
          PresentIsSkipped(ns, ms, AllAsRead(ts), want);
        }
      } else {
        ReadTag(ts);
        BuildsNothing(ns, want);
        FirstBuilt(ns[1..], want);
        SameTag(ms[0], ns[0]);
        if Takes(ns[0], FirstPresent(ns[1..], want).value) {
          AbsentIsGiven(ns, ms, AllAsRead(ts), want);
        } else {
          ListReadsBack(ns[1..], ms[1..], want);
          AbsentIsSkipped(ns, ms, AllAsRead(ts), want);
        }
      }
    }
  }

  lemma {:induction false} BuildsHead(ns: seq<Anode>, want: bool)
    requires ns != [] && AllShaped(ns) && Build(ns[0], want).Some?
    ensures var rest := BuildChildren(ns[1..], want);
            BuildChildren(ns, want) == [Build(ns[0], want).value] + rest
            && forall i :: 0 <= i < |rest| ==> rest[i] == BuildChildren(ns, want)[i + 1]
  {
    hide Build, NodeOk, Sized, Shaped;
  }

  lemma {:induction false} BuildsNothing(ns: seq<Anode>, want: bool)
    requires ns != [] && AllShaped(ns) && Build(ns[0], want) == None
    ensures BuildChildren(ns, want) == BuildChildren(ns[1..], want)
    ensures BuildChildren(ns, want) != [] ==> |ns| > 1
  {
    hide NodeOk;
    assert Shaped(ns[0]);
  }

  lemma {:induction false} ReadTag(ts: seq<Atlv>)
    requires ts != [] && forall i :: 0 <= i < |ts| ==> Laid(ts[i])
    ensures AllAsRead(ts) == [AsRead(ts[0])] + AllAsRead(ts[1..]) && AllAsRead(ts)[0].tag == ts[0].tag
  {
    hide Laid;
  }

  // No records: every field has to be one that may be absent.
  lemma {:induction false} NoneLeft(ns: seq<Anode>, ms: seq<Anode>, want: bool)
    requires AllShaped(ns) && AllSame(ms, ns) && !HaveAny(ms) && FirstPresent(ns, want) == None
    ensures AllReadBack(DecodeAnything(ms, []), ns, want) <==> FieldsReadable(ns, want)
  {
    hide Holds, Have, Present, Shaped, SameSchema, Readable, AllHold;
    NonePresent(ns, want);
    AllBlankHold(ms, ns, want);
    BlankKept(ms);
    OptionalOnly(ns, want);
    assert forall i :: 0 <= i < |ns| ==> (MayBeAbsent(ms[i]) <==> MayBeAbsent(ns[i])) by {
      forall i | 0 <= i < |ns| ensures MayBeAbsent(ms[i]) <==> MayBeAbsent(ns[i]) {
        SameMayBeAbsent(ms[i], ns[i]);
      }
    }
  }

  lemma {:induction false} SameMayBeAbsent(m: Anode, n: Anode)
    requires SameSchema(m, n)
    ensures MayBeAbsent(m) <==> MayBeAbsent(n)
  {
  }

  lemma {:induction false} NonePresent(ns: seq<Anode>, want: bool)
    requires FirstPresent(ns, want) == None
    ensures !AnyPresent(ns, want)
  {
    hide Present;
    if ns != [] {
      NonePresent(ns[1..], want);
    }
  }

  lemma {:induction false} OptionalOnly(ns: seq<Anode>, want: bool)
    requires !AnyPresent(ns, want)
    ensures FieldsReadable(ns, want) <==> forall i :: 0 <= i < |ns| ==> MayBeAbsent(ns[i])
    ensures FirstPresent(ns, want) == None
  {
    hide Present, MayBeAbsent, Readable;
    if ns != [] {
      OptionalOnly(ns[1..], want);
      assert forall i :: 0 < i < |ns| ==> ns[i] == ns[1..][i - 1];
    }
  }

  // A node with nothing in it stays as it is when it is passed over.
  lemma {:induction false} BlankKept(ms: seq<Anode>)
    requires !HaveAny(ms)
    ensures forall i :: 0 <= i < |ms| ==> Absent(ms[i]) == ms[i]
    ensures DecodeAnything(ms, []) == if forall i :: 0 <= i < |ms| ==> MayBeAbsent(ms[i]) then Some(ms) else None
  {
    hide MayBeAbsent;
    forall i | 0 <= i < |ms| ensures Absent(ms[i]) == ms[i] {
      BlankAt(ms, i);
    }
    if forall i :: 0 <= i < |ms| ==> MayBeAbsent(ms[i]) {
      assert DecodeAnything(ms, []).value == ms;
    }
  }

  lemma {:induction false} BlankAt(ms: seq<Anode>, i: nat)
    requires !HaveAny(ms) && i < |ms|
    ensures ms[i].value == None && ms[i].parsed == None && !Have(ms[i])
  {
    if i > 0 {
      BlankAt(ms[1..], i - 1);
    }
  }

  lemma {:induction false} PresentIsRead(ns: seq<Anode>, ms: seq<Anode>, u: Atlv, us: seq<Atlv>, want: bool)
    requires AllShaped(ns) && |ms| == |ns| && ns != [] && TagMatches(ms[0], u)
    ensures AllReadBack(DecodeAnything(ms, [u] + us), ns, want) <==>
              ReadsBack(DecodeOne(ms[0], u), ns[0], want) && AllReadBack(DecodeAnything(ms[1..], us), ns[1..], want)
  {
    hide Holds, Shaped, AllHold, DecodeOneWithoutTag;
    assert ([u] + us)[1..] == us;
    var d, ds := DecodeOneWithoutTag(ms[0], u, true), DecodeAnything(ms[1..], us);
    if d.Some? && ds.Some? {
      AllHoldCons(d.value, ds.value, ns, want);
    }
  }

  lemma {:induction false} AllHoldCons(d: Anode, ds: seq<Anode>, ns: seq<Anode>, want: bool)
    requires ns != [] && AllShaped(ns)
    ensures AllHold([d] + ds, ns, want) <==> Holds(d, ns[0], want) && AllHold(ds, ns[1..], want)
  {
    hide Holds, Shaped;
    assert ([d] + ds)[1..] == ds;
  }

  lemma {:induction false} AbsentIsSkipped(ns: seq<Anode>, ms: seq<Anode>, us: seq<Atlv>, want: bool)
    requires AllShaped(ns) && AllSame(ms, ns) && !HaveAny(ms) && |ns| > 1 && !Present(ns[0], want)
    requires us != [] && !TagMatches(ms[0], us[0])
    ensures AllReadBack(DecodeAnything(ms, us), ns, want) <==>
              MayBeAbsent(ns[0]) && AllReadBack(DecodeAnything(ms[1..], us), ns[1..], want)
  {
    hide AllHold, DecodeOneWithoutTag, Holds, Shaped, SameSchema, Have, Present;
    assert SameSchema(ms[0], ns[0]);
    SameMayBeAbsent(ms[0], ns[0]);
    BlankAt(ms, 0);
    BlankHolds(ms[0], ns[0], want);
    var ds := DecodeAnything(ms[1..], us);
    if ds.Some? {
      AllHoldCons(Absent(ms[0]), ds.value, ns, want);
    }
  }

  lemma {:induction false} FirstHolds(r: Option<seq<Anode>>, ns: seq<Anode>, want: bool)
    requires AllShaped(ns) && ns != [] && AllReadBack(r, ns, want)
    ensures r.value != [] && (Have(r.value[0]) <==> Present(ns[0], want))
  {
    hide Present, HaveAny;
    assert AllHold(r.value, ns, want) && Holds(r.value[0], ns[0], want);
  }

  // A field that is there is passed over: it ends up with nothing.
  lemma {:induction false} PresentIsSkipped(ns: seq<Anode>, ms: seq<Anode>, us: seq<Atlv>, want: bool)
    requires AllShaped(ns) && |ms| == |ns| && ns != [] && !HaveAny(ms) && Present(ns[0], want)
    requires us != [] && !TagMatches(ms[0], us[0])
    ensures !AllReadBack(DecodeAnything(ms, us), ns, want)
  {
    hide DecodeOneWithoutTag, Shaped, Present, Have, AllHold, TagMatches;
    var r := DecodeAnything(ms, us);
    BlankAt(ms, 0);
    if AllReadBack(r, ns, want) {
      assert r.value[0] == Absent(ms[0]) == ms[0];
      FirstHolds(r, ns, want);
    }
  }

  // A field that is not there is given the record of another one.
  lemma {:induction false} AbsentIsGiven(ns: seq<Anode>, ms: seq<Anode>, us: seq<Atlv>, want: bool)
    requires AllShaped(ns) && |ms| == |ns| && ns != [] && !Present(ns[0], want)
    requires us != [] && TagMatches(ms[0], us[0])
    ensures !AllReadBack(DecodeAnything(ms, us), ns, want)
  {
    hide DecodeOneWithoutTag, Shaped, Present, Have, AllHold;
    DecodedHas(ms[0], us[0], true);
    var r := DecodeAnything(ms, us);
    if AllReadBack(r, ns, want) {
      assert r.value[0] == DecodeOneWithoutTag(ms[0], us[0], true).value;
      FirstHolds(r, ns, want);
    }
  }

  // ---------------------------------------------------- when a field is confused

  // How many nodes have been given a record.
  ghost function Used(ds: seq<Anode>): nat {
    if ds == [] then 0 else (if ds[0].parsed.Some? then 1 else 0) + Used(ds[1..])
  }

  lemma {:induction false} NoneUsed(ds: seq<Anode>)
    requires forall i :: 0 <= i < |ds| ==> ds[i].parsed == None
    ensures Used(ds) == 0
  {
    if ds != [] {
      NoneUsed(ds[1..]);
    }
  }

  // Decoding gives every record to one node, and whatever has a value or must be there
  // has been given one.
  lemma {:induction false} EveryRecordUsed(ms: seq<Anode>, us: seq<Atlv>)
    requires DecodeAnything(ms, us).Some?
    ensures var ds := DecodeAnything(ms, us).value;
            && Used(ds) == |us| && |ds| == |ms|
            && forall i :: 0 <= i < |ms| && (!MayBeAbsent(ms[i]) || ds[i].value.Some?) ==> ds[i].parsed.Some?
    decreases us, |ms|
  {
    hide DecodeStructured, DecodePrimitive, CalcTag;
    var ds := DecodeAnything(ms, us).value;
    if us == [] {
      NoneUsed(ds);
    } else if TagMatches(ms[0], us[0]) {
      EveryRecordUsed(ms[1..], us[1..]);
      assert ds[1..] == DecodeAnything(ms[1..], us[1..]).value;
    } else {
      EveryRecordUsed(ms[1..], us);
      assert ds[1..] == DecodeAnything(ms[1..], us).value;
    }
  }

  // There are as many records as nodes that are present.
  lemma {:induction false} PresentUsed(ds: seq<Anode>, ns: seq<Anode>, want: bool)
    requires AllShaped(ns) && |ds| == |ns|
    requires forall i :: 0 <= i < |ns| && Present(ns[i], want) ==> ds[i].parsed.Some?
    ensures |BuildChildren(ns, want)| <= Used(ds)
  {
    hide Build, Shaped, NodeOk, Present;
    if ns != [] {
      BuiltPresent(ns[0], want);
      assert forall i :: 0 <= i < |ns| - 1 ==> ns[1..][i] == ns[i + 1] && ds[1..][i] == ds[i + 1];
      PresentUsed(ds[1..], ns[1..], want);
    }
  }

  // An absent field that takes the record of a later one leaves too few for the others:
  // when decoding succeeds all the same, a field that was encoded is left without one.
  lemma {:induction false} MistakenFor(ns: seq<Anode>, ms: seq<Anode>, us: seq<Atlv>, want: bool) returns (i: nat)
    requires AllShaped(ns) && |ms| == |ns| && ns != [] && !Present(ns[0], want)
    requires us != [] && |us| == |BuildChildren(ns, want)| && TagMatches(ms[0], us[0])
    requires DecodeAnything(ms, us).Some?
    ensures i < |ns| && Present(ns[i], want) && DecodeAnything(ms, us).value[i].parsed == None
  {
    hide DecodeOneWithoutTag, NodeOk, Build, Present, Shaped;
    var ds := DecodeAnything(ms, us).value;
    if forall k :: 0 <= k < |ns| && Present(ns[k], want) ==> ds[k].parsed.Some? {
      EveryRecordUsed(ms[1..], us[1..]);
      assert ds[1..] == DecodeAnything(ms[1..], us[1..]).value;
      BuiltPresent(ns[0], want);
      BuildsNothing(ns, want);
      assert forall k :: 0 <= k < |ns| - 1 ==> ns[1..][k] == ns[k + 1] && ds[1..][k] == ds[k + 1];
      PresentUsed(ds[1..], ns[1..], want);
      assert false;
    }
    i :| 0 <= i < |ns| && Present(ns[i], want) && ds[i].parsed == None;
  }
}
