// What a node has after a record was decoded into it, said of the record and of the node.
module Asn1Reading {
  import opened Wrappers
  import opened Numbers
  import opened Asn1Tlv
  import opened Asn1Schema
  import opened Asn1Octets
  import opened Asn1Engine

  // The tag a node waits for: the one it has of its own, or the one in the identifier octet of
  // its type. An ANY without one takes every tag.
  ghost predicate Waits(n: Anode, tag: nat) {
    if n.def.tagging.Some? then tag == n.def.tagging.value.number
    else n.def.kind.Any? || exists octet: nat :: UsualOctet(n.def.kind, octet) && octet % 32 == tag
  }

  // Primitive content is the value. A bit string has the number of its spare bits in front, less
  // than eight, and they are zeros.
  ghost predicate PrimitiveReads(d: Anode, n: Anode, t: Atlv) {
    && !Container(n.def.kind) && t.value.Some?
    && var c := t.value.value;
       if n.def.kind.BitString? then
         && c != [] && c[0] < 8 && (|c| > 1 ==> c[|c| - 1] % Pow(2, c[0]) == 0)
         && d == n.(value := Some(c[1..]), bitsEmpty := c[0], parsed := Some(t))
       else d == n.(value := Some(c), parsed := Some(t))
  }

  /** `d` is what `n` becomes when it is given the record `t`. A record with an explicit tag is
      that of another class than UNIVERSAL and APPLICATION and has one record in it, which is
      read instead. The content of a string that comes in pieces, and that of an ANY, is left in
      the record. A SEQUENCE and a SET hand their records to their fields, a SEQUENCE OF has one
      node for each of them. */
  ghost predicate Reads(d: Anode, n: Anode, t: Atlv, tagged: bool)
    decreases t, 3
  {
    if tagged && n.def.tagging.Some? && n.def.tagging.value.explicit then
      && t.cls % 256 >= 0x80 && t.value == None && |t.children| == 1
      && d.parsed == Some(t) && exists inner :: Reads(inner, n, t.children[0], false) && d == inner.(parsed := Some(t))
    else if n.def.kind.Any? then d == n.(parsed := Some(t))
    else if (t.cls / 0x20) % 2 == 0 then PrimitiveReads(d, n, t)
    else if IsString(n.def.kind) then d == n.(parsed := Some(t))
    else if n.def.kind.Sequence? || n.def.kind.Set? then
      && (n.def.kind.Set? ==> forall i :: 1 <= i < |t.children| ==> t.children[i - 1].tag <= t.children[i].tag)
      && n.children != [] && d == n.(children := d.children, parsed := Some(t))
      && FieldsRead(d.children, n.children, t.children, 0)
    else if n.def.kind.SequenceOf? then
      && n.children != []
      && if t.children == [] then d == n.(parsed := Some(t))
         else
           && |d.children| == |n.children| + |t.children| - 1
           && d == n.(children := [d.children[0]] + n.children[1..] + d.children[|n.children|..], parsed := Some(t))
           && ElementsRead([d.children[0]] + d.children[|n.children|..], n.children[0], t.children)
    else false
  }

  /** The nodes in their order, the records from `p` on in theirs: a node that waits for the tag of
      the next record takes it, and any other has to be one that may be absent, and is left with
      nothing. In the end there are no records left. */
  ghost predicate FieldsRead(ds: seq<Anode>, ns: seq<Anode>, ts: seq<Atlv>, p: nat)
    decreases ts, 2
  {
    exists at: seq<nat> :: Walk(ds, ns, ts, p, at)
  }

  // at[i] records are used up before node i.
  ghost predicate Walk(ds: seq<Anode>, ns: seq<Anode>, ts: seq<Atlv>, p: nat, at: seq<nat>)
    decreases ts, 1
  {
    && |ds| == |ns| && |at| == |ns| + 1 && at[0] == p && at[|ns|] == |ts|
    && forall i :: 0 <= i < |ns| ==> FieldReads(ds[i], ns[i], ts, at[i], at[i + 1])
  }

  ghost predicate FieldReads(d: Anode, n: Anode, ts: seq<Atlv>, p: nat, q: nat)
    decreases ts, 0
  {
    if p < |ts| && Waits(n, ts[p].tag) then q == p + 1 && Reads(d, n, ts[p], true)
    else q == p && (n.def.option || n.def.default) && d == n.(value := None, parsed := None)
  }

  // The first record goes to the node that is there, the others to copies of it without values.
  ghost predicate ElementsRead(ds: seq<Anode>, n: Anode, ts: seq<Atlv>)
    decreases ts, 1
  {
    |ds| == |ts| && forall i :: 0 <= i < |ts| ==> ElementReads(ds[i], if i == 0 then n else Clone(ds[0]), ts, i)
  }

  ghost predicate ElementReads(d: Anode, n: Anode, ts: seq<Atlv>, i: nat)
    requires i < |ts|
    decreases ts, 0
  {
    Waits(n, ts[i].tag) && Reads(d, n, ts[i], true)
  }

  // A copy has the definitions and nothing else.
  ghost predicate WithoutValues(c: Anode, n: Anode) {
    && c.def == n.def && c.value == None && c.parsed == None && c.bitsEmpty == 0 && !c.guaranteeUnsigned
    && |c.children| == |n.children| && forall i :: 0 <= i < |n.children| ==> WithoutValues(c.children[i], n.children[i])
  }

  // A cleared tree has no values, and one element in every SEQUENCE OF.
  ghost predicate IsCleared(c: Anode, n: Anode) {
    && c.def == n.def && c.value == None && c.parsed == None && c.bitsEmpty == n.bitsEmpty && c.guaranteeUnsigned == n.guaranteeUnsigned
    && |c.children| == (if n.def.kind.SequenceOf? && |n.children| > 1 then 1 else |n.children|)
    && forall i :: 0 <= i < |c.children| ==> IsCleared(c.children[i], n.children[i])
  }

  lemma {:induction false} ClearIs(n: Anode)
    ensures IsCleared(Clear(n), n)
  {
    ClearedAll(n.children);
    forall i | 0 <= i < |Clear(n).children| ensures IsCleared(Clear(n).children[i], n.children[i]) {
      ClearIs(n.children[i]);
    }
  }

  lemma {:induction false} CloneIs(n: Anode)
    ensures WithoutValues(Clone(n), n)
  {
    CloneAllIs(n.children);
    forall i | 0 <= i < |n.children| ensures WithoutValues(Clone(n).children[i], n.children[i]) {
      CloneIs(n.children[i]);
    }
  }

  lemma {:induction false} CloneAllIs(ns: seq<Anode>)
    ensures |CloneAll(ns)| == |ns| && forall i :: 0 <= i < |ns| ==> CloneAll(ns)[i] == Clone(ns[i])
  {
    if ns != [] {
      CloneAllIs(ns[1..]);
    }
  }

  // ------------------------------------------------------------------ the decoder

  lemma {:induction false} UsualWaits(k: Kind, tag: nat)
    requires !k.Any?
    ensures (exists octet: nat :: UsualOctet(k, octet) && octet % 32 == tag) <==> UniversalTag(k) == Some(tag)
  {
    hide UsualOctet, UniversalTag, Container;
    UsualTag(k, 0);
    var octet := UniversalTag(k).value + if Container(k) then 0x20 else 0;
    UsualTag(k, octet);
    if o: nat :| UsualOctet(k, o) && o % 32 == tag {
      UsualTag(k, o);
    }
  }

  lemma {:induction false} WaitsIff(n: Anode, t: Atlv)
    ensures TagMatches(n, t) <==> Waits(n, t.tag)
  {
    hide UsualOctet;
    if n.def.tagging == None && !n.def.kind.Any? {
      UsualWaits(n.def.kind, t.tag);
    }
  }

  lemma {:induction false} PrimitiveIff(d: Anode, n: Anode, t: Atlv)
    requires !n.def.kind.Any?
    ensures PrimitiveReads(d, n, t) <==> DecodePrimitive(n, t).Some? && d == DecodePrimitive(n, t).value.(parsed := Some(t))
  {
    hide MaskSize, Pow;
    if n.def.kind.BitString? && t.value.Some? && t.value.value != [] && t.value.value[0] < 8 {
      MaskIsPower(t.value.value[0]);
    }
  }

  lemma {:induction false} ReadsIff(d: Anode, n: Anode, t: Atlv, tagged: bool)
    ensures DecodeOneWithoutTag(n, t, tagged) == Some(d) <==> Reads(d, n, t, tagged)
    decreases t, 2
  {
    hide DecodePrimitive, DecodeStructured, PrimitiveReads, FieldsRead, ElementsRead, IsString;
    if Explicit(n.def, tagged) {
      if t.cls % 256 >= 128 && t.value == None && |t.children| == 1 {
        forall inner ensures DecodeOneWithoutTag(n, t.children[0], false) == Some(inner) <==> Reads(inner, n, t.children[0], false) {
          ReadsIff(inner, n, t.children[0], false);
        }
      }
    } else if n.def.kind.Any? {
      AnyIff(n, t);
    } else if Structured(t.cls) {
      StructuredIff(d, n, t, tagged);
    } else {
      PrimitiveIff(d, n, t);
    }
  }

  lemma AnyIff(n: Anode, t: Atlv)
    requires n.def.kind.Any?
    ensures DecodeStructured(n, t) == Some(n) && DecodePrimitive(n, t) == Some(n)
  {
  }

  lemma {:induction false} StructuredIff(d: Anode, n: Anode, t: Atlv, tagged: bool)
    requires !n.def.kind.Any? && Structured(t.cls) && !Explicit(n.def, tagged)
    ensures Reads(d, n, t, tagged) <==> DecodeStructured(n, t).Some? && d == DecodeStructured(n, t).value.(parsed := Some(t))
    decreases t, 1
  {
    hide DecodeAnything, DecodeElements, FieldsRead, ElementsRead;
    if IsString(n.def.kind) {
    } else if n.def.kind.Sequence? || n.def.kind.Set? {
      assert t.children[0..] == t.children;
      FieldsIff(d.children, n.children, t.children, 0);
      AscendingNext(t.children);
    } else if n.def.kind.SequenceOf? && n.children != [] {
      ListIff(d, n, t, tagged);
    }
  }

  lemma AscendingNext(ts: seq<Atlv>)
    ensures Ascending(ts) <==> forall i :: 1 <= i < |ts| ==> ts[i - 1].tag <= ts[i].tag
  {
    if Ascending(ts) {
      forall i | 1 <= i < |ts| ensures ts[i - 1].tag <= ts[i].tag {
        var k := i - 1;
        assert i == k + 1;
      }
    }
  }

  lemma {:induction false} ListIff(d: Anode, n: Anode, t: Atlv, tagged: bool)
    requires n.def.kind.SequenceOf? && n.children != [] && Structured(t.cls) && !Explicit(n.def, tagged)
    ensures Reads(d, n, t, tagged) <==> DecodeStructured(n, t).Some? && d == DecodeStructured(n, t).value.(parsed := Some(t))
    decreases t, 0
  {
    hide DecodeElements, FieldsRead, ElementsRead;
    var ts, r := t.children, DecodeElements(n.children[0], t.children);
    if ts == [] {
      assert DecodeElements(n.children[0], []) == Some([]) by {
        ElementsStart(n.children[0], []);
      }
    } else {
      if r.Some? {
        var es := r.value;
        ElementsIff(es, n.children[0], ts);
        ElementCount(es, n.children[0], ts);
        var all := [es[0]] + n.children[1..] + es[1..];
        assert all[|n.children|..] == es[1..] && [all[0]] + es[1..] == es;
      }
      if Reads(d, n, t, tagged) {
        ElementsIff([d.children[0]] + d.children[|n.children|..], n.children[0], ts);
      }
    }
  }

  lemma ElementCount(ds: seq<Anode>, n: Anode, ts: seq<Atlv>)
    requires ElementsRead(ds, n, ts)
    ensures |ds| == |ts|
  {
  }

  lemma {:induction false} FieldsCons(ds: seq<Anode>, ns: seq<Anode>, ts: seq<Atlv>, p: nat, q: nat)
    requires ns != [] && |ds| == |ns| && FieldReads(ds[0], ns[0], ts, p, q)
    ensures FieldsRead(ds, ns, ts, p) <==> FieldsRead(ds[1..], ns[1..], ts, q)
  {
    hide Reads, Waits;
    if at: seq<nat> :| Walk(ds, ns, ts, p, at) {
      assert FieldReads(ds[0], ns[0], ts, at[0], at[1]);
      var rest := at[1..];
      forall i | 0 <= i < |ns| - 1 ensures FieldReads(ds[1..][i], ns[1..][i], ts, rest[i], rest[i + 1]) {
        assert FieldReads(ds[i + 1], ns[i + 1], ts, at[i + 1], at[i + 2]);
      }
      assert Walk(ds[1..], ns[1..], ts, q, rest);
    }
    if rest: seq<nat> :| Walk(ds[1..], ns[1..], ts, q, rest) {
      var at := [p] + rest;
      forall i | 0 <= i < |ns| ensures FieldReads(ds[i], ns[i], ts, at[i], at[i + 1]) {
        if i > 0 {
          assert FieldReads(ds[1..][i - 1], ns[1..][i - 1], ts, rest[i - 1], rest[i]);
        }
      }
      assert Walk(ds, ns, ts, p, at);
    }
  }

  lemma {:induction false} FieldsNone(ts: seq<Atlv>, p: nat)
    ensures FieldsRead([], [], ts, p) <==> p == |ts|
  {
    if p == |ts| {
      assert Walk([], [], ts, p, [p]);
    }
  }

  lemma {:induction false} FieldsNot(ds: seq<Anode>, ns: seq<Anode>, ts: seq<Atlv>, p: nat)
    requires ns != [] && |ds| == |ns| && FieldsRead(ds, ns, ts, p)
    ensures exists q: nat :: FieldReads(ds[0], ns[0], ts, p, q)
  {
    hide Reads, Waits;
    var at: seq<nat> :| Walk(ds, ns, ts, p, at);
    assert FieldReads(ds[0], ns[0], ts, at[0], at[1]);
  }

  lemma {:induction false} FieldsIff(ds: seq<Anode>, ns: seq<Anode>, ts: seq<Atlv>, p: nat)
    requires p <= |ts|
    ensures FieldsRead(ds, ns, ts, p) <==> DecodeAnything(ns, ts[p..]) == Some(ds)
    decreases ts, 1, |ns|
  {
    hide Reads, Waits, FieldsRead, DecodeOneWithoutTag, TagMatches;
    if ns == [] {
      if ds == [] {
        FieldsNone(ts, p);
      }
      NoNodes(ts[p..]);
      if FieldsRead(ds, ns, ts, p) {
        FieldsLength(ds, ns, ts, p);
      }
    } else if |ds| == |ns| {
      assert ds == [ds[0]] + ds[1..];
      if p < |ts| && Waits(ns[0], ts[p].tag) {
        WaitsIff(ns[0], ts[p]);
        ReadsIff(ds[0], ns[0], ts[p], true);
        FieldsIff(ds[1..], ns[1..], ts, p + 1);
        TakesNext(ns, ts, p);
        if FieldReads(ds[0], ns[0], ts, p, p + 1) {
          FieldsCons(ds, ns, ts, p, p + 1);
        }
      } else {
        FieldsIff(ds[1..], ns[1..], ts, p);
        PassesNext(ns, ts, p);
        if FieldReads(ds[0], ns[0], ts, p, p) {
          FieldsCons(ds, ns, ts, p, p);
        }
      }
      if FieldsRead(ds, ns, ts, p) {
        FieldsNot(ds, ns, ts, p);
      }
    } else {
      if FieldsRead(ds, ns, ts, p) {
        FieldsLength(ds, ns, ts, p);
      }
    }
  }

  lemma {:induction false} FieldsLength(ds: seq<Anode>, ns: seq<Anode>, ts: seq<Atlv>, p: nat)
    requires FieldsRead(ds, ns, ts, p)
    ensures |ds| == |ns|
  {
    hide Reads, Waits;
    var at: seq<nat> :| Walk(ds, ns, ts, p, at);
  }

  lemma TakesNext(ns: seq<Anode>, ts: seq<Atlv>, p: nat)
    requires ns != [] && p < |ts| && TagMatches(ns[0], ts[p])
    ensures var d, rest := DecodeOneWithoutTag(ns[0], ts[p], true), DecodeAnything(ns[1..], ts[p + 1..]);
            DecodeAnything(ns, ts[p..]) == if d == None || rest == None then None else Some([d.value] + rest.value)
  {
    hide DecodeOneWithoutTag, TagMatches, DecodeAnything, MayBeAbsent;
    assert ns[0..] == ns;
    RecordNext(ns, 0, ts, p);
  }

  lemma PassesNext(ns: seq<Anode>, ts: seq<Atlv>, p: nat)
    requires ns != [] && p <= |ts| && (p < |ts| ==> !Waits(ns[0], ts[p].tag))
    ensures var rest := DecodeAnything(ns[1..], ts[p..]);
            DecodeAnything(ns, ts[p..]) ==
              if !(ns[0].def.option || ns[0].def.default) || rest == None then None
              else Some([ns[0].(value := None, parsed := None)] + rest.value)
  {
    hide DecodeOneWithoutTag, TagMatches, Waits, DecodeAnything;
    assert ns[0..] == ns;
    if p < |ts| {
      WaitsIff(ns[0], ts[p]);
      NoNodes(ts[p..]);
      RecordNext(ns, 0, ts, p);
    } else {
      assert ts[p..] == [];
      AbsentNext(ns, 0);
    }
  }

  lemma {:induction false} ElementsIff(ds: seq<Anode>, n: Anode, ts: seq<Atlv>)
    ensures ElementsRead(ds, n, ts) <==> DecodeElements(n, ts) == Some(ds)
    decreases ts, 1
  {
    hide Reads, Waits, DecodeOneWithoutTag, DecodeOthers, TagMatches, Clone;
    ElementsStart(n, ts);
    if ts != [] && |ds| == |ts| {
      ReadsIff(ds[0], n, ts[0], true);
      WaitsIff(n, ts[0]);
      OthersIff(ds[1..], Clone(ds[0]), ts[1..]);
      assert ds == [ds[0]] + ds[1..];
      if ElementsRead(ds, n, ts) {
        assert ElementReads(ds[0], n, ts, 0);
        assert forall i :: 0 < i < |ts| ==> ElementReads(ds[i], Clone(ds[0]), ts, i);
      }
    } else if ts != [] {
      OthersCount(n, ts);
    }
  }

  lemma {:induction false} OthersCount(n: Anode, ts: seq<Atlv>)
    ensures DecodeElements(n, ts).Some? ==> |DecodeElements(n, ts).value| == |ts|
  {
    hide DecodeOne, Clone;
    if ts != [] && DecodeOne(n, ts[0]).Some? {
      EachOther(Clone(DecodeOne(n, ts[0]).value), ts[1..]);
    }
  }

  lemma {:induction false} EachOther(c: Anode, ts: seq<Atlv>)
    ensures DecodeOthers(c, ts).Some? ==> |DecodeOthers(c, ts).value| == |ts|
  {
    hide DecodeOne;
    if ts != [] {
      EachOther(c, ts[1..]);
    }
  }

  lemma {:induction false} OthersIff(ds: seq<Anode>, c: Anode, ts: seq<Atlv>)
    ensures DecodeOthers(c, ts) == Some(ds) <==> |ds| == |ts| && forall i :: 0 <= i < |ts| ==> ElementReads(ds[i], c, ts, i)
    decreases ts, 1
  {
    hide Reads, Waits, DecodeOneWithoutTag, TagMatches;
    EachOther(c, ts);
    if ts != [] && |ds| == |ts| {
      ReadsIff(ds[0], c, ts[0], true);
      WaitsIff(c, ts[0]);
      OthersIff(ds[1..], c, ts[1..]);
      assert ds == [ds[0]] + ds[1..];
      assert forall i :: 0 <= i < |ts| - 1 ==> (ElementReads(ds[1..][i], c, ts[1..], i) <==> ElementReads(ds[i + 1], c, ts, i + 1));
      assert forall i :: 0 < i < |ts| ==> (ElementReads(ds[i], c, ts, i) <==> ElementReads(ds[1..][i - 1], c, ts[1..], i - 1));
    }
  }

  /** Decoding succeeds with a tree exactly when the octets are one record that the cleared node
      waits for, the tree is what the node becomes when it is given that record, and the tree
      passes validation. */
  lemma DecodeFullIff(asn: Anode, data: bytes, checks: Checks, d: Anode)
    ensures DecodeFull(asn, data, checks) == Some(d) <==>
              && ParseDer(data).Ok?
              && var t := ParseDer(data).tlv;
                 Waits(asn, t.tag) && Reads(d, Clear(asn), t, true) && Validate(d, checks)
  {
    hide ParseDer, Reads, Waits, Validate, Clear, TagMatches, DecodeOneWithoutTag;
    if ParseDer(data).Ok? {
      var t := ParseDer(data).tlv;
      OneRecord(Clear(asn), t);
      ReadsIff(d, Clear(asn), t, true);
      WaitsIff(Clear(asn), t);
      ClearedLeaf(asn);
      SameWaits(Clear(asn), asn, t.tag);
    }
  }

  lemma SameWaits(m: Anode, n: Anode, tag: nat)
    requires m.def == n.def
    ensures Waits(m, tag) <==> Waits(n, tag)
  {
  }
}
