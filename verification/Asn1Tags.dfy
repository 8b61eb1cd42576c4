// Which schemas can be decoded whatever the values are.
module Asn1Tags {
  import opened Wrappers
  import opened Asn1Header
  import opened Asn1Tlv
  import opened Asn1Schema
  import opened Asn1Codec

  // SEQUENCEs and SETs of leaves, some of them optional, and of required SEQUENCEs and SETs.
  ghost predicate Fields(n: Anode): (ok: bool)
    ensures ok ==> Shaped(n)
  {
    && DefOk(n.def) && n.bitsEmpty < 8
    && if Leaf(n.def.kind) then n.children == []
       else
         && (n.def.kind.Sequence? || n.def.kind.Set?) && !MayBeAbsent(n) && n.children != []
         && forall i :: 0 <= i < |n.children| ==> Fields(n.children[i])
  }

  ghost predicate AllFields(ns: seq<Anode>) {
    forall i :: 0 <= i < |ns| ==> Fields(ns[i])
  }

  // Every required leaf has a value.
  ghost predicate Filled(n: Anode) {
    if Leaf(n.def.kind) then n.value.Some? || MayBeAbsent(n)
    else forall i :: 0 <= i < |n.children| ==> Filled(n.children[i])
  }

  ghost predicate AllFilled(ns: seq<Anode>) {
    forall i :: 0 <= i < |ns| ==> Filled(ns[i])
  }

  ghost predicate OptionalRun(ns: seq<Anode>, i: nat, j: nat)
    requires i <= j <= |ns|
  {
    forall k :: i <= k < j ==> MayBeAbsent(ns[k])
  }

  // In every run of optional fields and the field after it the tags differ.
  ghost predicate RunsDiffer(ns: seq<Anode>) {
    forall i, j :: 0 <= i < j < |ns| && OptionalRun(ns, i, j) ==> OuterTag(ns[i]) != OuterTag(ns[j])
  }

  // The tags of all fields ascend.
  ghost predicate TagsAscend(ns: seq<Anode>) {
    forall i, j :: 0 <= i < j < |ns| && OuterTag(ns[i]).Some? && OuterTag(ns[j]).Some? ==>
                     OuterTag(ns[i]).value <= OuterTag(ns[j]).value
  }

  ghost predicate Unambiguous(n: Anode) {
    && (Explicit(n.def, true) ==> n.def.tagging.value.cls >= 128)
    && (!Leaf(n.def.kind) ==>
          && RunsDiffer(n.children) && (n.def.kind.Set? ==> TagsAscend(n.children))
          && forall i :: 0 <= i < |n.children| ==> Unambiguous(n.children[i]))
  }

  // A field is encoded unless it is an optional leaf without a value.
  lemma {:induction false} FieldPresent(n: Anode)
    requires Fields(n) && Filled(n)
    ensures Present(n, true) <==> !Leaf(n.def.kind) || n.value.Some?
    ensures !Present(n, true) ==> MayBeAbsent(n)
  {
  }

  // ------------------------------------------ unambiguous schemas are never confused

  lemma {:induction false} NeverConfused(n: Anode)
    requires Fields(n) && Filled(n) && Unambiguous(n)
    ensures Readable(n, true)
    decreases n, 1
  {
    if !Leaf(n.def.kind) {
      NeverAnyConfused(n.children);
      if n.def.kind.Set? {
        AscendingPresent(n.children);
      }
    }
  }

  lemma {:induction false} NeverAnyConfused(ns: seq<Anode>)
    requires AllFields(ns) && AllFilled(ns) && RunsDiffer(ns) && forall i :: 0 <= i < |ns| ==> Unambiguous(ns[i])
    ensures FieldsReadable(ns, true)
    decreases ns, 0
  {
    hide Readable, Present, RunsDiffer, Unambiguous, Fields, Filled;
    if ns != [] {
      var rest := ns[1..];
      RunsTail(ns);
      NeverAnyConfused(rest);
      FieldPresent(ns[0]);
      if Present(ns[0], true) {
        NeverConfused(ns[0]);
      } else if FirstPresent(rest, true).Some? {
        AbsentNotTaking(ns);
      }
    }
  }

  lemma {:induction false} AbsentNotTaking(ns: seq<Anode>)
    requires ns != [] && AllFields(ns) && AllFilled(ns) && RunsDiffer(ns)
    requires !Present(ns[0], true) && FirstPresent(ns[1..], true).Some?
    ensures MayBeAbsent(ns[0]) && !Takes(ns[0], FirstPresent(ns[1..], true).value)
  {
    hide Present, Unambiguous;
    var rest := ns[1..];
    FieldPresent(ns[0]);
    var j := FirstAt(rest);
    assert OptionalRun(ns, 0, j + 1) by {
      assert forall k :: 1 <= k < j + 1 ==> ns[k] == rest[k - 1];
    }
  }

  lemma {:induction false} RunsTail(ns: seq<Anode>)
    requires ns != [] && RunsDiffer(ns)
    ensures RunsDiffer(ns[1..])
  {
    var rest := ns[1..];
    forall i, j | 0 <= i < j < |rest| && OptionalRun(rest, i, j) ensures OuterTag(rest[i]) != OuterTag(rest[j]) {
      assert OptionalRun(ns, i + 1, j + 1) by {
        assert forall k :: i + 1 <= k < j + 1 ==> ns[k] == rest[k - 1];
      }
      assert rest[i] == ns[i + 1] && rest[j] == ns[j + 1];
    }
  }

  // Where the first present node is; the ones before it are optional.
  lemma {:induction false} FirstAt(ns: seq<Anode>) returns (j: nat)
    requires AllFields(ns) && AllFilled(ns) && FirstPresent(ns, true).Some?
    ensures j < |ns| && FirstPresent(ns, true) == Some(ns[j]) && forall k :: 0 <= k < j ==> MayBeAbsent(ns[k])
  {
    hide Present;
    FieldPresent(ns[0]);
    if Present(ns[0], true) {
      j := 0;
    } else {
      var i := FirstAt(ns[1..]);
      j := i + 1;
      assert forall k :: 1 <= k < j ==> ns[k] == ns[1..][k - 1];
    }
  }

  // The tags of the fields that are there are among those of all fields.
  lemma {:induction false} AscendingPresent(ns: seq<Anode>)
    requires TagsAscend(ns) && AllFields(ns)
    ensures Sorted(PresentTags(ns, true))
    ensures forall k :: 0 <= k < |PresentTags(ns, true)| ==>
              exists i :: 0 <= i < |ns| && OuterTag(ns[i]) == Some(PresentTags(ns, true)[k])
  {
    hide Present;
    if ns != [] {
      var tags := PresentTags(ns[1..], true);
      assert TagsAscend(ns[1..]) by {
        assert forall i :: 0 <= i < |ns| - 1 ==> ns[1..][i] == ns[i + 1];
      }
      AscendingPresent(ns[1..]);
      forall k | 0 <= k < |tags| ensures exists i :: 0 < i < |ns| && OuterTag(ns[i]) == Some(tags[k]) {
        var i :| 0 <= i < |ns| - 1 && OuterTag(ns[1..][i]) == Some(tags[k]);
        assert ns[i + 1] == ns[1..][i];
      }
    }
  }

  // ------------------------------------- ambiguous schemas are, with some values

  // The tree with a value in every leaf.
  function Full(n: Anode): Anode
    decreases n, 1
  {
    n.(value := if n.value.Some? then n.value else Some([]), children := AllFull(n.children))
  }

  function AllFull(ns: seq<Anode>): (vs: seq<Anode>)
    ensures |vs| == |ns| && forall i :: 0 <= i < |ns| ==> vs[i] == Full(ns[i])
    decreases ns, 0
  {
    if ns == [] then [] else [Full(ns[0])] + AllFull(ns[1..])
  }

  lemma {:induction false} FullOk(n: Anode)
    requires Fields(n)
    ensures Fields(Full(n)) && Filled(Full(n)) && SameSchema(Full(n), n) && Present(Full(n), true)
    decreases n
  {
    forall i | 0 <= i < |n.children| ensures Fields(Full(n.children[i])) && Filled(Full(n.children[i])) && SameSchema(Full(n.children[i]), n.children[i]) {
      FullOk(n.children[i]);
    }
  }

  // A tree of the same schema, with all its values, that is not readable.
  ghost predicate Spoilt(v: Anode, n: Anode) {
    Fields(v) && Filled(v) && SameSchema(v, n) && !Readable(v, true)
  }

  lemma {:induction false} SpoiltByFields(n: Anode, vs: seq<Anode>)
    requires Fields(n) && !Leaf(n.def.kind) && AllFields(vs) && AllFilled(vs) && AllSame(vs, n.children) && !FieldsReadable(vs, true)
    ensures var v := Full(n).(children := vs); Spoilt(v, n) && Present(v, true)
  {
    var v := Full(n).(children := vs);
    assert v.children == vs && v.def == n.def;
    assert !ContentReadable(v, true);
  }

  lemma {:induction false} SpoiltByTags(n: Anode)
    requires Fields(n) && n.def.kind.Set? && !Sorted(PresentTags(AllFull(n.children), true))
    ensures Spoilt(Full(n), n)
  {
    FullOk(n);
    var v := Full(n);
    assert v.children == AllFull(n.children) && v.def == n.def;
    assert !ContentReadable(v, true);
  }

  lemma {:induction false} SomeConfusion(n: Anode) returns (v: Anode)
    requires Fields(n) && !Unambiguous(n)
    ensures Spoilt(v, n) && Present(v, true)
  {
    hide RunsDiffer, OptionalRun, TagsAscend, FieldsReadable, PresentTags, AllFull, Present;
    v := Full(n);
    FullOk(n);
    if Explicit(n.def, true) && n.def.tagging.value.cls < 128 {
      return;
    }
    if !RunsDiffer(n.children) {
      var children := ConfusedRun(n.children);
      v := v.(children := children);
      SpoiltByFields(n, children);
    } else if n.def.kind.Set? && !TagsAscend(n.children) {
      TagsOfAll(n.children);
      SpoiltByTags(n);
    } else {
      var c :| 0 <= c < |n.children| && !Unambiguous(n.children[c]);
      var d := SomeConfusion(n.children[c]);
      var children := OneSpoilt(n.children, c, d);
      v := v.(children := children);
      SpoiltByFields(n, children);
    }
  }

  lemma {:induction false} OneSpoilt(ns: seq<Anode>, c: nat, d: Anode) returns (vs: seq<Anode>)
    requires AllFields(ns) && c < |ns| && Spoilt(d, ns[c]) && Present(d, true)
    ensures AllFields(vs) && AllFilled(vs) && AllSame(vs, ns) && !FieldsReadable(vs, true)
  {
    hide Readable, Fields, Filled, SameSchema, Present;
    vs := AllFull(ns)[c := d];
    forall k | 0 <= k < |ns| ensures Fields(vs[k]) && Filled(vs[k]) && SameSchema(vs[k], ns[k]) {
      FullOk(ns[k]);
    }
    assert vs[c..][0] == d;
    ConfusedFrom(vs, c);
  }

  lemma {:induction false} ConfusedRun(ns: seq<Anode>) returns (vs: seq<Anode>)
    requires AllFields(ns) && !RunsDiffer(ns)
    ensures AllFields(vs) && AllFilled(vs) && AllSame(vs, ns) && !FieldsReadable(vs, true)
  {
    hide FieldsReadable, Fields, Filled, SameSchema;
    var i, j :| 0 <= i < j < |ns| && OptionalRun(ns, i, j) && OuterTag(ns[i]) == OuterTag(ns[j]);
    vs := Emptied(ns, i, j);
    OnlyLeaves(ns, i, j);
    EmptiedOk(ns, i, j);
    FullTag(ns[j]);
    EmptiedConfused(vs, i, j);
  }

  lemma {:induction false} EmptiedConfused(vs: seq<Anode>, i: nat, j: nat)
    requires i < j < |vs| && Present(vs[j], true) && forall k :: i <= k < j ==> !Present(vs[k], true)
    requires OuterTag(vs[i]) == OuterTag(vs[j]) && !vs[j].def.kind.Any?
    ensures !FieldsReadable(vs, true)
  {
    hide Readable, Present;
    FirstOf(vs, i + 1, j);
    assert vs[i..][0] == vs[i] && vs[i..][1..] == vs[i + 1..];
    ConfusedFrom(vs, i);
  }

  lemma {:induction false} OnlyLeaves(ns: seq<Anode>, i: nat, j: nat)
    requires AllFields(ns) && i <= j <= |ns| && OptionalRun(ns, i, j)
    ensures forall k :: i <= k < j ==> Leaf(ns[k].def.kind)
  {
    assert forall k :: i <= k < j ==> Fields(ns[k]) && MayBeAbsent(ns[k]);
  }

  // Fields i to j - 1 without values and all others with them.
  function Emptied(ns: seq<Anode>, i: nat, j: nat): (vs: seq<Anode>)
    requires i < j < |ns|
    ensures |vs| == |ns|
  {
    seq(|ns|, k requires 0 <= k < |ns| => if i <= k < j then ns[k].(value := None) else Full(ns[k]))
  }

  lemma {:induction false} EmptiedOk(ns: seq<Anode>, i: nat, j: nat)
    requires AllFields(ns) && i < j < |ns| && OptionalRun(ns, i, j) && forall k :: i <= k < j ==> Leaf(ns[k].def.kind)
    ensures AllFields(Emptied(ns, i, j)) && AllFilled(Emptied(ns, i, j)) && AllSame(Emptied(ns, i, j), ns)
    ensures Present(Emptied(ns, i, j)[j], true) && forall k :: i <= k < j ==> !Present(Emptied(ns, i, j)[k], true)
  {
    hide Full;
    var vs := Emptied(ns, i, j);
    forall k | 0 <= k < |ns| ensures Fields(vs[k]) && Filled(vs[k]) && SameSchema(vs[k], ns[k]) {
      FullOk(ns[k]);
    }
    FullOk(ns[j]);
  }

  lemma {:induction false} FirstOf(ns: seq<Anode>, i: nat, j: nat)
    requires i <= j < |ns| && Present(ns[j], true) && forall k :: i <= k < j ==> !Present(ns[k], true)
    ensures FirstPresent(ns[i..], true) == Some(ns[j])
    decreases j - i
  {
    hide Present;
    if i < j {
      FirstOf(ns, i + 1, j);
      assert ns[i..][1..] == ns[i + 1..];
    }
  }

  lemma {:induction false} ConfusedFrom(ns: seq<Anode>, i: nat)
    requires i <= |ns| && !FieldsReadable(ns[i..], true)
    ensures !FieldsReadable(ns, true)
    decreases i
  {
    hide Readable, Present;
    if i == 0 {
      assert ns[0..] == ns;
    } else {
      assert ns[i - 1..][1..] == ns[i..];
      ConfusedFrom(ns, i - 1);
    }
  }

  // When all fields are there, their tags are those of the schema.
  lemma {:induction false} TagsOfAll(ns: seq<Anode>)
    requires AllFields(ns)
    ensures |PresentTags(AllFull(ns), true)| == |ns|
    ensures forall i :: 0 <= i < |ns| ==> OuterTag(ns[i]) == Some(PresentTags(AllFull(ns), true)[i])
    ensures !TagsAscend(ns) ==> !Sorted(PresentTags(AllFull(ns), true))
  {
    hide Present, Full, Fields;
    if ns != [] {
      FullOk(ns[0]);
      FullTag(ns[0]);
      TagsOfAll(ns[1..]);
      assert forall i :: 0 < i < |ns| ==> ns[i] == ns[1..][i - 1];
    }
  }

  lemma {:induction false} FullTag(n: Anode)
    requires Fields(n)
    ensures OuterTag(n).Some? && OuterTag(Full(n)) == OuterTag(n) && !Full(n).def.kind.Any?
  {
  }

  /** A schema of such fields gives all its values back, whatever they are, exactly when it
      is unambiguous. */
  lemma {:induction false} UnambiguousIff(n: Anode)
    requires Fields(n)
    ensures Unambiguous(n) <==> forall v :: Fields(v) && Filled(v) && SameSchema(v, n) ==> Readable(v, true)
  {
    if Unambiguous(n) {
      forall v | Fields(v) && Filled(v) && SameSchema(v, n) ensures Readable(v, true) {
        SameUnambiguous(v, n);
        NeverConfused(v);
      }
    } else {
      var v := SomeConfusion(n);
      assert Fields(v) && Filled(v) && SameSchema(v, n) && !Readable(v, true);
    }
  }

  lemma {:induction false} SameUnambiguous(v: Anode, n: Anode)
    requires Fields(v) && SameSchema(v, n) && Unambiguous(n)
    ensures Unambiguous(v)
  {
    if !Leaf(n.def.kind) {
      assert forall i :: 0 <= i < |v.children| ==> OuterTag(v.children[i]) == OuterTag(n.children[i]);
      forall i, j | 0 <= i < j < |v.children| && OptionalRun(v.children, i, j)
        ensures OuterTag(v.children[i]) != OuterTag(v.children[j])
      {
        assert OptionalRun(n.children, i, j);
      }
      forall i | 0 <= i < |v.children| ensures Unambiguous(v.children[i]) {
        SameUnambiguous(v.children[i], n.children[i]);
      }
    }
  }
}
