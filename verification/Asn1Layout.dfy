// The two passes agree: the sizes computed while building are those of what is written.
module Asn1Layout {
  import opened Wrappers
  import opened Asn1Header
  import opened Asn1Tlv
  import opened Asn1RoundTrip
  import opened Asn1Schema

  // What a node may hold: records given for ANY parts have sizes and headers of their own
  // that are in order.
  ghost predicate Ready(n: Anode) {
    && DefOk(n.def) && n.bitsEmpty < 8
    && (n.def.kind.Any? && n.parsed.Some? ==> Sized(n.parsed.value) && Laid(n.parsed.value) && Consistent(n.parsed.value))
    && forall i :: 0 <= i < |n.children| ==> Ready(n.children[i])
  }

  lemma {:induction false} ReadyOk(n: Anode)
    requires Ready(n)
    ensures NodeOk(n)
  {
    forall i | 0 <= i < |n.children| ensures NodeOk(n.children[i]) {
      ReadyOk(n.children[i]);
    }
  }

  ghost predicate Fits(t: Atlv) {
    t.off + t.len <= INT_MAX
  }

  ghost predicate Written(t: Atlv) {
    Laid(t) && Consistent(t)
  }

  // Whatever is built can be written into a buffer of off + len bytes, which it fills:
  // all sizes at all levels are those of the octets.
  lemma {:induction false} BuiltIsLaid(n: Anode, want: bool)
    requires Ready(n) && NodeOk(n) && Build(n, want).Some? && Fits(Build(n, want).value)
    ensures Written(Build(n, want).value)
    decreases n, 2
  {
    hide Laid, Consistent, Header;
    if !n.def.kind.Any? {
      if Container(n.def.kind) {
        var t := BuildStructured(n, want).value;
        assert Fits(t) by { WrappedFits(n.def, t); }
        StructuredIsLaid(n, want);
        WrappedIsLaid(n.def, t);
      } else {
        var t := BuildLeaf(n).value;
        assert Fits(t) by { WrappedFits(n.def, t); }
        LeafIsLaid(n);
        WrappedIsLaid(n.def, t);
      }
    }
  }

  lemma {:induction false} WrappedFits(d: Def, t: Atlv)
    requires DefOk(d) && Sized(t) && Fits(Wrapped(d, t))
    ensures Fits(t)
  {
  }

  lemma {:induction false} LeafIsLaid(n: Anode)
    requires DefOk(n.def) && Leaf(n.def.kind) && n.bitsEmpty < 8 && BuildLeaf(n).Some? && Fits(BuildLeaf(n).value)
    ensures Written(BuildLeaf(n).value)
  {
    hide Header;
  }

  lemma {:induction false} WrappedIsLaid(d: Def, t: Atlv)
    requires DefOk(d) && Sized(t) && Written(t) && Fits(Wrapped(d, t))
    ensures Written(Wrapped(d, t))
  {
    hide Header;
    if Explicit(d, true) {
      assert [t][1..] == [];
      assert TotalSize([t]) == t.off + t.len + TotalSize([]);
    }
  }

  lemma {:induction false} StructuredIsLaid(n: Anode, want: bool)
    requires Ready(n) && NodeOk(n) && Container(n.def.kind)
    requires BuildStructured(n, want).Some? && Fits(BuildStructured(n, want).value)
    ensures Written(BuildStructured(n, want).value)
    decreases n, 1
  {
    hide Header, Written, Laid, Consistent;
    var built := BuildChildren(n.children, want && !n.def.kind.SequenceOf?);
    BuiltSize(built);
    ChildrenAreLaid(n.children, want && !n.def.kind.SequenceOf?);
    RecordIsLaid(n.def, built);
  }

  lemma {:induction false} RecordIsLaid(d: Def, ts: seq<Atlv>)
    requires DefOk(d) && Container(d.kind) && 0 <= TotalSize(ts)
    requires forall i :: 0 <= i < |ts| ==> Written(ts[i])
    requires Fits(WithHeader(d, Blank(None, ts), TotalSize(ts)))
    ensures Written(WithHeader(d, Blank(None, ts), TotalSize(ts)))
  {
    hide Header, TotalSize, HeaderSize, Structured, CalcTag, BuildClass;
    assert CalcTag(d, !Explicit(d, true)).value < UINT by { BuildTag(d); }
  }

  lemma {:induction false} BuildTag(d: Def)
    requires DefOk(d) && !d.kind.Any?
    ensures CalcTag(d, !Explicit(d, true)).Some? && CalcTag(d, !Explicit(d, true)).value < UINT
  {
  }

  lemma {:induction false} ChildrenAreLaid(ns: seq<Anode>, want: bool)
    requires forall i :: 0 <= i < |ns| ==> Ready(ns[i]) && NodeOk(ns[i])
    requires TotalSize(BuildChildren(ns, want)) <= INT_MAX
    ensures forall i :: 0 <= i < |BuildChildren(ns, want)| ==> Written(BuildChildren(ns, want)[i])
    decreases ns, 0
  {
    hide Laid, Consistent;
    if ns != [] {
      var t, rest := Build(ns[0], want), BuildChildren(ns[1..], want);
      BuiltSize(rest);
      if t.Some? {
        var ts := [t.value] + rest;
        assert ts[1..] == rest;
        assert TotalSize(ts) == t.value.off + t.value.len + TotalSize(rest);
        BuiltIsLaid(ns[0], want);
      } else {
        assert [] + rest == rest;
      }
      ChildrenAreLaid(ns[1..], want);
    }
  }
}
