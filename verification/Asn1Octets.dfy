// The octets of an encoding, as ITU-T X.690 describes them: which identifier octets, which length
// octets and which contents a node has. The encoder writes these octets and no others.
module Asn1Octets {
  import opened Wrappers
  import opened Numbers
  import opened Asn1Header
  import opened Asn1Tlv
  import opened Asn1RoundTrip
  import opened Asn1Schema
  import opened Asn1Layout
  import opened Asn1Codec

  // ------------------------------------------------- identifier and length octets

  // Section 8.1.2: class and form in front of the number, which from 31 on is written in groups
  // of seven bits. All groups but the last have the high bit set, and the first is not zero.
  ghost predicate Identifier(s: bytes, form: nat, number: nat) {
    if number < 31 then s == [form + number] else TagGroups(s, form, number) && s[1] % 128 != 0
  }

  // Sections 8.1.3 and 10.1: one octet, or the number of octets that follow and the length in
  // the least number of them.
  ghost predicate LengthIs(s: bytes, len: nat) {
    if len < 128 then s == [len]
    else LengthGroups(s, len) && s[1] != 0
  }

  // A record: identifier octets, length octets, contents.
  ghost predicate RecordOf(s: bytes, form: nat, number: nat, content: bytes) {
    exists i, l :: Identifier(i, form, number) && LengthIs(l, |content|) && s == i + l + content
  }

  // --------------------------------------------------------------------- contents

  // ITU-T X.680 section 8.6: the identifier octet of a type without a tag of its own. SEQUENCE
  // and SET are constructed.
  predicate UsualOctet(k: Kind, octet: nat) {
    match octet
    case 0x01 => k.Boolean?
    case 0x02 => k.Integer?
    case 0x03 => k.BitString?
    case 0x04 => k.OctetString?
    case 0x05 => k.Null?
    case 0x06 => k.ObjectId?
    case 0x0A => k.Enumerated?
    case 0x0C => k.Utf8String?
    case 0x12 => k.NumericString?
    case 0x13 => k.PrintableString?
    case 0x14 => k.TeletexString?
    case 0x16 => k.Ia5String?
    case 0x17 => k.UtcTime?
    case 0x18 => k.GeneralizedTime?
    case 0x1A => k.VisibleString?
    case 0x1B => k.GeneralString?
    case 0x1C => k.UniversalString?
    case 0x1E => k.BmpString?
    case 0x30 => k.Sequence? || k.SequenceOf?
    case 0x31 => k.Set?
    case _ => false
  }

  // The contents of a leaf. A bit string has the number of its spare bits in front, and they are
  // zeros; an integer known to be unsigned gets a zero octet in front of a sign bit.
  ghost predicate LeafContent(c: bytes, n: Anode) {
    && n.value.Some?
    && var v := n.value.value;
       if n.def.kind.BitString? then
         && |c| == 1 + |v| && c[0] == n.bitsEmpty
         && (forall i :: 0 <= i < |v| - 1 ==> c[1 + i] == v[i])
         && (v != [] ==>
               var last, was := c[|v|], v[|v| - 1];
               last % Pow(2, n.bitsEmpty) == 0 && last / Pow(2, n.bitsEmpty) == was / Pow(2, n.bitsEmpty))
       else if n.def.kind.Integer? && n.guaranteeUnsigned && v != [] && v[0] >= 128 then c == [0] + v
       else c == v
  }

  // The contents of a node: those of a leaf, or the records of its children. Elements of a
  // SEQUENCE OF with nothing in them are not wanted.
  ghost predicate Contents(c: bytes, n: Anode, want: bool)
    requires Shaped(n) && !n.def.kind.Any?
    decreases n, 1
  {
    if Leaf(n.def.kind) then LeafContent(c, n)
    else AllEncode(c, n.children, want && !n.def.kind.SequenceOf?)
  }

  /** The octets of a node: the usual record; or its contents under the tag it has of its own,
      constructed or not as they are; or the usual record inside one with an explicit tag, which
      is always constructed. An ANY has the record it was given. */
  ghost predicate Encodes(s: bytes, n: Anode, want: bool)
    requires Shaped(n)
    decreases n, 2
  {
    if n.def.kind.Any? then n.parsed.Some? && s == Der(n.parsed.value)
    else if n.def.tagging == None then exists c :: Contents(c, n, want) && UsualRecord(s, n.def.kind, c)
    else
      var own := n.def.tagging.value;
      if own.explicit then
        exists c, inner :: Contents(c, n, want) && UsualRecord(inner, n.def.kind, c) && RecordOf(s, own.cls + 0x20, own.number, inner)
      else
        exists c :: Contents(c, n, want) && RecordOf(s, own.cls + if Container(n.def.kind) then 0x20 else 0, own.number, c)
  }

  // The usual number is below 31, so that there is one identifier octet.
  ghost predicate UsualRecord(s: bytes, k: Kind, c: bytes) {
    exists octet, l :: UsualOctet(k, octet) && LengthIs(l, |c|) && s == [octet] + l + c
  }

  // The records of the nodes that are present, one after the other.
  ghost predicate AllEncode(s: bytes, ns: seq<Anode>, want: bool)
    requires AllShaped(ns)
    decreases ns, 0
  {
    if ns == [] then s == []
    else if Present(ns[0], want) then
      exists k :: 0 <= k <= |s| && Encodes(s[..k], ns[0], want) && AllEncode(s[k..], ns[1..], want)
    else AllEncode(s, ns[1..], want)
  }

  // ------------------------------------------------------ headers, one way and back

  lemma {:induction false} IdentifierIff(s: bytes, form: nat, number: nat)
    requires IsClass(form) && number < UINT
    ensures Identifier(s, form, number) <==> s == TagOctets(form, number)
  {
    hide Value, Digits, Marked;
    if number >= 31 {
      var d := Digits(128, number);
      DigitsValue(128, number);
      if Identifier(s, form, number) {
        var g := Groups(s[1..]);
        MarkedGroups(s[1..]);
        MinimalUnique(128, g, d);
        assert s == [s[0]] + s[1..];
      }
      if s == TagOctets(form, number) {
        MarkedIs(d);
        assert s[1..] == Marked(d);
      }
    }
  }

  lemma {:induction false} MarkedIs(g: seq<nat>)
    requires DigitsBelow(128, g)
    ensures var m := Marked(g); Groups(m) == g && forall i :: 0 <= i < |g| ==> (m[i] >= 128 <==> i < |g| - 1)
  {
  }

  lemma {:induction false} LengthIff(s: bytes, len: nat)
    requires len <= INT_MAX
    ensures LengthIs(s, len) <==> s == LengthOctets(len)
  {
    hide Value, Digits;
    if len >= 128 {
      var d := Digits(256, len);
      DigitsValue(256, len);
      LongLength(len);
      if LengthIs(s, len) {
        var g := Octets(s[1..]);
        MinimalUnique(256, g, d);
        assert AsBytes(g) == s[1..];
        assert s == [s[0]] + s[1..];
      }
      if s == LengthOctets(len) {
        assert s[1..] == AsBytes(d);
        assert Octets(AsBytes(d)) == d;
      }
    }
  }

  lemma {:induction false} RecordIff(s: bytes, form: nat, number: nat, content: bytes)
    requires IsClass(form) && number < UINT && |content| <= INT_MAX
    ensures RecordOf(s, form, number, content) <==> s == Header(form, number, |content|) + content
  {
    hide Identifier, LengthIs, TagOctets, LengthOctets;
    IdentifierIff(TagOctets(form, number), form, number);
    LengthIff(LengthOctets(|content|), |content|);
    if RecordOf(s, form, number, content) {
      var i, l :| Identifier(i, form, number) && LengthIs(l, |content|) && s == i + l + content;
      IdentifierIff(i, form, number);
      LengthIff(l, |content|);
    }
  }

  // The table of the encoder, with the form in front of the number.
  lemma {:induction false} UsualTag(k: Kind, octet: nat)
    requires !k.Any?
    ensures UniversalTag(k).Some? && UniversalTag(k).value < 31
    ensures UsualOctet(k, octet) <==> octet == UniversalTag(k).value + if Container(k) then 0x20 else 0
  {
  }

  lemma {:induction false} UsualIff(s: bytes, k: Kind, c: bytes)
    requires !k.Any? && |c| <= INT_MAX
    ensures UniversalTag(k).Some? && UniversalTag(k).value < 31
    ensures var form := if Container(k) then 0x20 else 0;
            UsualRecord(s, k, c) <==> s == Header(form, UniversalTag(k).value, |c|) + c
  {
    hide LengthIs, LengthOctets, UsualOctet, UniversalTag, Container;
    UsualTag(k, 0);
    var octet := UniversalTag(k).value + if Container(k) then 0x20 else 0;
    UsualTag(k, octet);
    LengthIff(LengthOctets(|c|), |c|);
    if UsualRecord(s, k, c) {
      var o, l :| UsualOctet(k, o) && LengthIs(l, |c|) && s == [o] + l + c;
      UsualTag(k, o);
      LengthIff(l, |c|);
    }
  }

  // ------------------------------------------------------ contents, one way and back

  ghost function ContentOf(t: Atlv): bytes
    requires Laid(t)
  {
    if t.value.Some? then ValueOctets(t) else DerAll(t.children)
  }

  // The spare bits of the last octet are cleared, the others stay.
  lemma {:induction false} ClearedLast(b: nat, x: nat, y: nat)
    requires b < 8
    ensures MaskSize(b) == Pow(2, b)
    ensures y % Pow(2, b) == 0 && y / Pow(2, b) == x / Pow(2, b) <==> y == x - x % MaskSize(b)
  {
    MaskIsPower(b);
    var p := Pow(2, b);
    DivModOf(x, p);
    DivModOf(y, p);
    if y == x - x % p {
      ModIs(p, y, x / p, 0);
    }
  }

  lemma MaskIsPower(b: nat)
    requires b < 8
    ensures MaskSize(b) == Pow(2, b)
  {
    assert Pow(2, 0) == 1 && Pow(2, 1) == 2 && Pow(2, 2) == 4 && Pow(2, 3) == 8;
    assert Pow(2, 4) == 16 && Pow(2, 5) == 32 && Pow(2, 6) == 64 && Pow(2, 7) == 128;
  }

  lemma {:induction false} BitsIff(c: bytes, n: Anode)
    requires n.bitsEmpty < 8 && n.def.kind.BitString? && n.value.Some?
    ensures LeafContent(c, n) <==> c == [n.bitsEmpty] + ClearTail(n.value.value, n.bitsEmpty)
  {
    hide MaskSize, Pow;
    var v, b := n.value.value, n.bitsEmpty;
    var want := [b] + ClearTail(v, b);
    if v != [] {
      var x := v[|v| - 1];
      ClearedLast(b, x, want[|v|]);
      NoSpare(b);
      if |c| == |want| {
        ClearedLast(b, x, c[|v|]);
        assert c == [c[0]] + c[1..|v|] + [c[|v|]];
        assert want == [want[0]] + v[..|v| - 1] + [want[|v|]];
        assert LeafContent(c, n) ==> c[1..|v|] == v[..|v| - 1];
      }
    }
  }

  lemma NoSpare(b: nat)
    ensures b < 8 && b == 0 ==> MaskSize(b) == 1
  {
  }

  lemma {:induction false} LeafIff(c: bytes, n: Anode)
    requires DefOk(n.def) && Leaf(n.def.kind) && n.bitsEmpty < 8 && n.value.Some? && Laid(BuildLeaf(n).value)
    ensures LeafContent(c, n) <==> c == ContentOf(BuildLeaf(n).value)
  {
    hide Header, HeaderSize, CalcTag, TotalSize, ClearTail;
    if n.def.kind.BitString? {
      BitsIff(c, n);
    }
  }

  lemma {:induction false} ContentsIff(c: bytes, n: Anode, want: bool)
    requires Shaped(n) && !n.def.kind.Any? && Record(n, want).Some? && Laid(Record(n, want).value) && Fits(Record(n, want).value)
    ensures Contents(c, n, want) <==> c == ContentOf(Record(n, want).value)
    decreases n, 1
  {
    hide Header, HeaderSize, CalcTag, NodeOk, LeafContent, TotalSize, DerAll;
    if Leaf(n.def.kind) {
      LeafIff(c, n);
    } else {
      var w := want && !n.def.kind.SequenceOf?;
      PartsFit(n.children, w);
      AllIff(c, n.children, w);
    }
  }

  // What is in a record that fits, fits.
  lemma {:induction false} PartsFit(ns: seq<Anode>, want: bool)
    requires AllShaped(ns) && TotalSize(BuildChildren(ns, want)) <= INT_MAX
    ensures forall i :: 0 <= i < |BuildChildren(ns, want)| ==> Fits(BuildChildren(ns, want)[i])
  {
    EachFits(BuildChildren(ns, want));
  }

  lemma {:induction false} EachFits(ts: seq<Atlv>)
    requires (forall i :: 0 <= i < |ts| ==> Sized(ts[i])) && TotalSize(ts) <= INT_MAX
    ensures forall i :: 0 <= i < |ts| ==> Fits(ts[i])
  {
    if ts != [] {
      BuiltSize(ts[1..]);
      EachFits(ts[1..]);
      assert forall i :: 0 < i < |ts| ==> ts[i] == ts[1..][i - 1];
    }
  }

  lemma {:induction false} AllIff(s: bytes, ns: seq<Anode>, want: bool)
    requires AllShaped(ns)
    requires var ts := BuildChildren(ns, want); forall i :: 0 <= i < |ts| ==> Laid(ts[i]) && Fits(ts[i])
    ensures AllEncode(s, ns, want) <==> s == DerAll(BuildChildren(ns, want))
    decreases ns, 0
  {
    hide Laid, Build, Shaped, Encodes, NodeOk, Der, Present, Fits;
    if ns != [] {
      BuiltPresent(ns[0], want);
      if Present(ns[0], want) {
        BuildsHead(ns, want);
        var t, rest := Build(ns[0], want).value, BuildChildren(ns[1..], want);
        assert t == BuildChildren(ns, want)[0];
        forall k | 0 <= k <= |s|
          ensures Encodes(s[..k], ns[0], want) <==> s[..k] == Der(t)
          ensures AllEncode(s[k..], ns[1..], want) <==> s[k..] == DerAll(rest)
        {
          EncodesIff(s[..k], ns[0], want);
          AllIff(s[k..], ns[1..], want);
        }
        assert DerAll([t] + rest) == Der(t) + DerAll(rest) by {
          assert ([t] + rest)[1..] == rest;
        }
        if s == Der(t) + DerAll(rest) {
          var k := |Der(t)|;
          assert s[..k] == Der(t) && s[k..] == DerAll(rest);
        }
        if AllEncode(s, ns, want) {
          var k :| 0 <= k <= |s| && Encodes(s[..k], ns[0], want) && AllEncode(s[k..], ns[1..], want);
          assert s == s[..k] + s[k..];
        }
      } else {
        BuildsNothing(ns, want);
        AllIff(s, ns[1..], want);
      }
    }
  }

  // The record inside the explicit tag, if there is one, is the one that is built.
  lemma {:induction false} RecordOctets(n: Anode, want: bool)
    requires Shaped(n) && !n.def.kind.Any? && Record(n, want).Some? && Laid(Record(n, want).value)
    ensures var t := Record(n, want).value;
            var form := if Container(n.def.kind) then 0x20 else 0;
            && CalcTag(n.def, !Explicit(n.def, true)).Some?
            && |ContentOf(t)| == t.len && Der(t) == Header(t.cls, t.tag, |ContentOf(t)|) + ContentOf(t)
            && (n.def.tagging == None || n.def.tagging.value.explicit ==> t.cls == form && Some(t.tag) == UniversalTag(n.def.kind))
            && (n.def.tagging.Some? && !n.def.tagging.value.explicit ==>
                  t.cls == n.def.tagging.value.cls + form && t.tag == n.def.tagging.value.number)
  {
    hide Header, HeaderSize, UniversalTag, NodeOk, BuildChildren, TotalSize;
    var t := Record(n, want).value;
    if t.value == None {
      DerAllSize(t.children);
    }
    UsualTag(n.def.kind, 0);
  }

  lemma {:induction false} WrappedOctets(d: Def, t: Atlv)
    requires DefOk(d) && Sized(t) && Laid(t) && Laid(Wrapped(d, t))
    ensures d.tagging.Some? && d.tagging.value.explicit ==>
              var own := d.tagging.value;
              |Der(t)| <= INT_MAX && Der(Wrapped(d, t)) == Header(own.cls + 0x20, own.number, |Der(t)|) + Der(t)
    ensures !(d.tagging.Some? && d.tagging.value.explicit) ==> Wrapped(d, t) == t
  {
    hide Header, HeaderSize;
    if Explicit(d, true) {
      DerSize(t);
      DerAllOne(t);
    }
  }

  lemma {:induction false} UsualNode(s: bytes, n: Anode, want: bool, c0: bytes)
    requires Shaped(n) && !n.def.kind.Any? && n.def.tagging == None && |c0| <= INT_MAX
    requires forall c :: Contents(c, n, want) <==> c == c0
    ensures UniversalTag(n.def.kind).Some?
    ensures Encodes(s, n, want) <==> s == Header(if Container(n.def.kind) then 0x20 else 0, UniversalTag(n.def.kind).value, |c0|) + c0
  {
    hide Header, Shaped, Contents, UsualRecord, RecordOf, Container, UniversalTag;
    UsualIff(s, n.def.kind, c0);
  }

  lemma {:induction false} ImplicitNode(s: bytes, n: Anode, want: bool, c0: bytes)
    requires Shaped(n) && !n.def.kind.Any? && |c0| <= INT_MAX
    requires n.def.tagging.Some? && !n.def.tagging.value.explicit
    requires forall c :: Contents(c, n, want) <==> c == c0
    ensures IsClass(n.def.tagging.value.cls + if Container(n.def.kind) then 0x20 else 0)
    ensures var own := n.def.tagging.value;
            Encodes(s, n, want) <==> s == Header(own.cls + if Container(n.def.kind) then 0x20 else 0, own.number, |c0|) + c0
  {
    hide Header, Contents, UsualRecord, RecordOf, Container;
    var own := n.def.tagging.value;
    RecordIff(s, own.cls + if Container(n.def.kind) then 0x20 else 0, own.number, c0);
    assert Contents(c0, n, want);
  }

  lemma {:induction false} ExplicitNode(s: bytes, n: Anode, want: bool, c0: bytes, inner: bytes)
    requires Shaped(n) && !n.def.kind.Any? && |c0| <= INT_MAX && |inner| <= INT_MAX
    requires n.def.tagging.Some? && n.def.tagging.value.explicit && UniversalTag(n.def.kind).Some?
    requires forall c :: Contents(c, n, want) <==> c == c0
    requires inner == Header(if Container(n.def.kind) then 0x20 else 0, UniversalTag(n.def.kind).value, |c0|) + c0
    ensures IsClass(n.def.tagging.value.cls + 0x20)
    ensures var own := n.def.tagging.value; Encodes(s, n, want) <==> s == Header(own.cls + 0x20, own.number, |inner|) + inner
  {
    hide Header, Contents, UsualRecord, RecordOf, Container, UniversalTag;
    var own := n.def.tagging.value;
    RecordIff(s, own.cls + 0x20, own.number, inner);
    forall x ensures UsualRecord(x, n.def.kind, c0) <==> x == inner {
      UsualIff(x, n.def.kind, c0);
    }
    assert Contents(c0, n, want) && UsualRecord(inner, n.def.kind, c0);
  }

  /** A node that is encoded has one encoding, and that is what is written for it. */
  lemma {:induction false} EncodesIff(s: bytes, n: Anode, want: bool)
    requires Shaped(n) && Present(n, want)
    requires Build(n, want).Some? && Laid(Build(n, want).value) && Fits(Build(n, want).value)
    ensures Encodes(s, n, want) <==> s == Der(Build(n, want).value)
    decreases n, 2
  {
    hide Laid, Header, NodeOk, Shaped, Contents, UsualRecord, RecordOf,
      Der, Container, Record, ContentOf, BuildLeaf, BuildStructured, Wrapped, UniversalTag, CalcTag, Encodes, Consistent;
    if n.def.kind.Any? {
      AnyEncodes(s, n, want);
    } else {
      ShapedDef(n);
      BuildsRecord(n, want);
      var t := Record(n, want).value;
      WrappedFits(n.def, t);
      RecordIsWritten(n, want);
      RecordOctets(n, want);
      WrappedOctets(n.def, t);
      var c0 := ContentOf(t);
      forall c ensures Contents(c, n, want) <==> c == c0 {
        ContentsIff(c, n, want);
      }
      if n.def.tagging == None {
        UsualNode(s, n, want, c0);
      } else if n.def.tagging.value.explicit {
        ExplicitNode(s, n, want, c0, Der(t));
      } else {
        ImplicitNode(s, n, want, c0);
      }
    }
  }

  lemma BuiltEncodes(n: Anode, want: bool)
    requires Shaped(n) && Build(n, want).Some? && Fits(Build(n, want).value)
    ensures Laid(Build(n, want).value)
    ensures forall s :: Encodes(s, n, want) <==> s == Der(Build(n, want).value)
  {
    hide Laid, Shaped, NodeOk, Der, Build, Encodes, Consistent, Present;
    BuiltPresent(n, want);
    ShapedReady(n);
    BuiltIsLaid(n, want);
    forall s ensures Encodes(s, n, want) <==> s == Der(Build(n, want).value) {
      EncodesIff(s, n, want);
    }
  }

  lemma ShapedDef(n: Anode)
    requires Shaped(n)
    ensures DefOk(n.def)
  {
  }

  lemma {:induction false} AnyEncodes(s: bytes, n: Anode, want: bool)
    requires Shaped(n) && n.def.kind.Any? && n.parsed.Some?
    ensures Laid(n.parsed.value) && (Encodes(s, n, want) <==> s == Der(n.parsed.value))
  {
  }
}
