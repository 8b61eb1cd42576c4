// Builders, attribute sets and single attributes that share reference-counted values.
module Attributes {
  import opened Wrappers
  import opened AttributesModel

  function Empty(typ: nat): (a: Attr)
    ensures a.typ == typ && a.value == None && a.length == Some(0)
  {
    Attr(typ, None, Some(0))
  }

  // The attribute that data make when there are n values already; no length makes an
  // invalid attribute.
  function NewAttr(typ: nat, value: Option<bytes>, invalid: bool, n: nat): (a: Attr)
    ensures a.typ == typ && (invalid ==> a.value == None && a.length == None)
    ensures !invalid ==> if value.Some? then a.value == Some(n) && a.length == Some(|value.value|) else a.value == None && a.length == Some(0)
  {
    if invalid then Attr(typ, None, None)
    else if value == None then Empty(typ)
    else Attr(typ, Some(n), Some(|value.value|))
  }

  /** All the memory there is: values, and whatever can hold attributes. A pointer is a
      position in one of the two. */
  class Gck {
    var values: seq<Memory>
    var holders: seq<Holder>

    constructor ()
      ensures Valid() && values == [] && holders == []
    {
      values := [];
      holders := [];
    }

    // In the middle of an operation: `hand` are the references it has in hand.
    ghost predicate Balanced(hand: multiset<nat>)
      reads this
    {
      Counted(values, Total(holders) + hand) && HoldersSound(values, holders) && forall v :: v in hand ==> v < |values|
    }

    ghost predicate Valid()
      reads this
    {
      Balanced(multiset{})
    }

    predicate IsBuilder(b: nat)
      reads this
    {
      b < |holders| && holders[b].Builder?
    }

    predicate IsAttributes(s: nat)
      reads this
    {
      s < |holders| && holders[s].Attributes?
    }

    function Attrs(b: nat): seq<Attr>
      requires b < |holders|
      reads this
    {
      AttrsOf(holders[b])
    }

    // ---------------------------------------------------------------- values

    // value_new
    method ValueNew(data: bytes, ghost hand: multiset<nat>) returns (v: nat)
      requires Balanced(hand)
      modifies this`values
      ensures v == |old(values)| && values == old(values) + [Memory(data, 1, false)]
      ensures Balanced(hand + multiset{v})
    {
      hide Total, HoldersSound;
      v := |values|;
      NotHeld(values, holders);
      values := values + [Memory(data, 1, false)];
      SoundAfter(old(values), values, holders);
    }

    // value_ref: a value that somebody holds is never one that was freed
    method ValueRef(v: nat, ghost hand: multiset<nat>)
      requires Balanced(hand) && v < |values| && v in Total(holders) + hand
      modifies this`values
      ensures values == old(values)[v := old(values[v]).(refs := old(values[v].refs) + 1)]
      ensures Balanced(hand + multiset{v})
    {
      var previous := values[v].refs;
      assert previous > 0 && !values[v].freed;
      values := values[v := values[v].(refs := previous + 1)];
      SoundAfter(old(values), values, holders);
    }

    // value_unref: the last reference frees the value
    method ValueUnref(v: nat, ghost hand: multiset<nat>)
      requires Balanced(hand + multiset{v}) && v < |values|
      modifies this`values
      ensures SameData(old(values), values) && |values| == |old(values)|
      ensures Balanced(hand)
    {
      hide Counted, HoldersSound, Total;
      CountedLess(values, Total(holders), hand, v);
      var refs := values[v].refs - 1;
      values := values[v := values[v].(refs := refs, freed := refs == 0)];
      SoundAfter(old(values), values, holders);
      assert forall w :: w in hand ==> w in hand + multiset{v};
    }

    // ------------------------------------------------------------- attributes

    // The attribute at i takes over what is in hand for it, and what it had is in hand.
    method Put(b: nat, i: nat, a: Attr, ghost hand: multiset<nat>)
      requires IsBuilder(b) && i < |Attrs(b)| && Sound(values, a) && Balanced(hand + One(a))
      modifies this`holders
      ensures holders == old(holders)[b := Builder(old(Attrs(b))[i := a], old(holders[b]).refs)]
      ensures Balanced(hand + One(old(Attrs(b))[i]))
    {
      hide Owned, Counted, Total, One, HoldersSound, Sound;
      ghost var attrs := Attrs(b);
      SoundList(values, holders, b);
      holders := holders[b := Builder(holders[b].attrs[i := a], holders[b].refs)];
      OwnedUpdate(attrs, i, a);
      TotalUpdate(old(holders), b, holders[b]);
      Taken(Total(old(holders)), Total(holders), Owned(attrs), Owned(attrs[i := a]), One(attrs[i]), One(a), hand);
      HandBound(values, attrs, i);
      HandMoves(hand, One(a), One(attrs[i]), |values|);
      SoundPut(values, old(holders), b, attrs[i := a], holders[b]);
    }

    method Push(b: nat, a: Attr, ghost hand: multiset<nat>)
      requires IsBuilder(b) && Sound(values, a) && Balanced(hand + One(a))
      modifies this`holders
      ensures holders == old(holders)[b := Builder(old(Attrs(b)) + [a], old(holders[b]).refs)]
      ensures Balanced(hand)
    {
      hide Owned, Counted;
      ghost var attrs := Attrs(b);
      holders := holders[b := Builder(holders[b].attrs + [a], holders[b].refs)];
      OwnedSnoc(attrs, a);
      TotalUpdate(old(holders), b, holders[b]);
      Given(Total(old(holders)), Total(holders), Owned(attrs), One(a), hand);
      assert forall v :: v in hand ==> v in hand + One(a);
      SoundPut(values, old(holders), b, attrs + [a], holders[b]);
    }

    // find_attribute
    method FindAttribute(b: nat, typ: nat) returns (found: Option<nat>)
      requires b < |holders|
      ensures found == Find(Attrs(b), typ)
    {
      var attrs := Attrs(b);
      var i := 0;
      while i < |attrs|
        invariant 0 <= i <= |attrs| && forall j :: 0 <= j < i ==> attrs[j].typ != typ
      {
        if attrs[i].typ == typ {
          FindIs(attrs, typ, i);
          return Some(i);
        }
        i := i + 1;
      }
      return None;
    }

    // builder_clear: an attribute lets go of its value
    method ClearAttr(b: nat, i: nat)
      requires IsBuilder(b) && i < |Attrs(b)| && Valid()
      modifies this
      ensures Valid() && SameData(old(values), values) && |values| == |old(values)|
      ensures holders == old(holders)[b := Builder(old(Attrs(b))[i := Empty(old(Attrs(b))[i].typ)], old(holders[b]).refs)]
    {
      hide Counted, Total, HoldersSound;
      var attr := Attrs(b)[i];
      NoHand(multiset{}, Empty(attr.typ));
      Put(b, i, Empty(attr.typ), multiset{});
      if attr.value.Some? {
        assert attr.value.value in multiset{} + One(attr);
        ValueUnref(attr.value.value, multiset{});
      } else {
        assert multiset{} + One(attr) == multiset{};
      }
    }

    // builder_clear_or_push
    method ClearOrPush(b: nat, typ: nat) returns (i: nat)
      requires IsBuilder(b) && Valid()
      modifies this
      ensures Valid() && SameData(old(values), values) && |values| == |old(values)|
      ensures holders == old(holders)[b := Builder(WithSet(old(Attrs(b)), Empty(typ)), old(holders[b]).refs)]
      ensures i < |WithSet(old(Attrs(b)), Empty(typ))| && Some(i) == Find(WithSet(old(Attrs(b)), Empty(typ)), typ)
    {
      hide Balanced;
      SetChangesFirst(Attrs(b), Empty(typ));
      var found := FindAttribute(b, typ);
      if found == None {
        i := |Attrs(b)|;
        NoHand(multiset{}, Empty(typ));
        Push(b, Empty(typ), multiset{});
        FindIs(Attrs(b), typ, i);
      } else {
        i := found.value;
        ClearAttr(b, i);
      }
    }

    // The place for a new value: at the end, or where the first of the type is or was.
    method Place(b: nat, typ: nat, performingSet: bool) returns (i: nat)
      requires IsBuilder(b) && Valid()
      modifies this
      ensures Valid() && SameData(old(values), values) && |values| == |old(values)|
      ensures holders == old(holders)[b := Builder(With(old(Attrs(b)), Empty(typ), performingSet), old(holders[b]).refs)]
      ensures i < |With(old(Attrs(b)), Empty(typ), performingSet)| && With(old(Attrs(b)), Empty(typ), performingSet)[i] == Empty(typ)
      ensures forall a: Attr :: a.typ == typ ==>
                With(old(Attrs(b)), Empty(typ), performingSet)[i := a] == With(old(Attrs(b)), a, performingSet)
    {
      hide Balanced;
      if performingSet {
        SetChangesFirst(Attrs(b), Empty(typ));
        i := ClearOrPush(b, typ);
      } else {
        i := |Attrs(b)|;
        NoHand(multiset{}, Empty(typ));
        Push(b, Empty(typ), multiset{});
      }
    }

    // The attribute at i, which holds nothing, is given what is in hand.
    method Fill(b: nat, i: nat, a: Attr)
      requires IsBuilder(b) && i < |Attrs(b)| && Attrs(b)[i].value == None && Sound(values, a) && Balanced(multiset{} + One(a))
      modifies this`holders
      ensures Valid() && holders == old(holders)[b := Builder(old(Attrs(b))[i := a], old(holders[b]).refs)]
    {
      NoHand(multiset{}, Attrs(b)[i]);
      Put(b, i, a, multiset{});
    }

    // gck_builder_add_data and set_data, and the empty and invalid forms of them
    method Data(b: nat, typ: nat, value: Option<bytes>, invalid: bool, performingSet: bool) returns (ghost a: Attr)
      requires IsBuilder(b) && Valid()
      modifies this
      ensures Valid() && SameData(old(values), values)
      ensures holders == old(holders)[b := Builder(With(old(Attrs(b)), a, performingSet), old(holders[b]).refs)]
      ensures a == NewAttr(typ, value, invalid, |old(values)|)
      ensures if invalid || value == None then |values| == |old(values)|
              else |values| == |old(values)| + 1 && values[|old(values)|].data == value.value
    {
      hide Balanced;
      var i := Place(b, typ, performingSet);
      if invalid {
        a := Attr(typ, None, None);
        NoHand(multiset{}, a);
        Fill(b, i, Attr(typ, None, None));
      } else if value == None {
        a := Empty(typ);
      } else {
        var v := ValueNew(value.value, multiset{});
        a := Attr(typ, Some(v), Some(|value.value|));
        Fill(b, i, Attr(typ, Some(v), Some(|value.value|)));
      }
    }

    // What a copy is made from: an attribute of the builder itself that is being set has
    // been emptied before it is read.
    function Source(b: nat, c: nat, k: nat, performingSet: bool): Attr
      requires b < |holders| && c < |holders| && k < |Attrs(c)|
      reads this
    {
      var attr := Attrs(c)[k];
      if performingSet && c == b && Find(Attrs(b), attr.typ) == Some(k) then Empty(attr.typ) else attr
    }

    // builder_copy: the value is shared, not copied. When an attribute of the builder itself
    // is added, and this moves the array, the attribute is read where it no longer is.
    method CopyAttr(b: nat, c: nat, k: nat, performingSet: bool, moves: bool) returns (dangles: bool)
      requires IsBuilder(b) && c < |holders| && k < |Attrs(c)| && Valid()
      modifies this
      ensures dangles <==> c == b && !performingSet && moves
      ensures Valid() && SameData(old(values), values) && |values| == |old(values)|
      ensures !dangles ==>
                holders == old(holders)[b := Builder(With(old(Attrs(b)), old(Source(b, c, k, performingSet)), performingSet), old(holders[b]).refs)]
    {
      hide Balanced, With, Source;
      ghost var own := Attrs(b);
      var typ := Attrs(c)[k].typ;
      SourceAfter(this, b, c, k, performingSet);
      var i := Place(b, typ, performingSet);
      if c == b && !performingSet && moves {
        return true;
      }
      var attr := Attrs(c)[k];
      RefAttr(c, k);
      if attr.length == None {
        Fill(b, i, Attr(attr.typ, None, None));
      } else if attr.value.Some? {
        Fill(b, i, Attr(attr.typ, attr.value, attr.length));
      } else {
        NoHand(multiset{}, attr);
      }
      return false;
    }

    // One more reference to the value of an attribute, if it has one.
    method RefAttr(c: nat, k: nat)
      requires c < |holders| && k < |Attrs(c)| && Valid()
      modifies this`values
      ensures SameData(old(values), values) && |values| == |old(values)|
      ensures Sound(values, Attrs(c)[k]) && Balanced(multiset{} + One(Attrs(c)[k]))
    {
      hide Balanced;
      var attr := Attrs(c)[k];
      HolderSound(this, c, k);
      if attr.value.Some? {
        HolderHolds(this, c, k);
        ValueRef(attr.value.value, multiset{});
        SoundSame(old(values), values, attr);
      } else {
        NoHand(multiset{}, attr);
      }
    }

    // gck_builder_add_all and set_all
    method CopyAll(b: nat, s: nat, performingSet: bool)
      requires IsBuilder(b) && IsAttributes(s) && Valid()
      modifies this
      ensures Valid() && SameData(old(values), values) && |values| == |old(values)|
      ensures holders == old(holders)[b := Builder(WithAll(old(Attrs(b)), old(Attrs(s)), performingSet), old(holders[b]).refs)]
    {
      hide Balanced, With;
      var i := 0;
      ghost var start, more, all := holders, Attrs(s), WithAll(Attrs(b), Attrs(s), performingSet);
      assert more[0..] == more && start[b := holders[b]] == start;
      while i < |Attrs(s)|
        invariant IsBuilder(b) && IsAttributes(s) && Attrs(s) == more && 0 <= i <= |more| && Valid()
        invariant SameData(old(values), values) && |values| == |old(values)|
        invariant holders == start[b := Builder(Attrs(b), start[b].refs)]
        invariant WithAll(Attrs(b), more[i..], performingSet) == all
      {
        assert more[i..][0] == more[i] && more[i..][1..] == more[i + 1..];
        var dangles := CopyAttr(b, s, i, performingSet, false);
        i := i + 1;
      }
    }

    // gck_builder_add_exceptv
    method AddExcept(b: nat, s: nat, types: seq<nat>)
      requires IsBuilder(b) && IsAttributes(s) && Valid()
      modifies this
      ensures Valid() && SameData(old(values), values) && |values| == |old(values)|
      ensures holders == old(holders)[b := Builder(old(Attrs(b)) + Except(old(Attrs(s)), types), old(holders[b]).refs)]
      ensures Others(old(Attrs(s)), types, Except(old(Attrs(s)), types))
    {
      hide Balanced, Except, Find, WithSet, Others;
      ExceptOthers(Attrs(s), types);
      var i := 0;
      ghost var start, first, more := holders, Attrs(b), Attrs(s);
      assert more[0..] == more && start[b := holders[b]] == start;
      ExceptNext(more, types, |more|);
      while i < |Attrs(s)|
        invariant IsBuilder(b) && IsAttributes(s) && Attrs(s) == more && 0 <= i <= |more| && Valid()
        invariant SameData(old(values), values) && |values| == |old(values)|
        invariant holders == start[b := Builder(Attrs(b), start[b].refs)]
        invariant Attrs(b) + Except(more[i..], types) == first + Except(more, types)
      {
        ExceptNext(more, types, i);
        ghost var now := Attrs(b);
        var j := 0;
        while j < |types| && types[j] != Attrs(s)[i].typ
          invariant 0 <= j <= |types| && forall k :: 0 <= k < j ==> types[k] != Attrs(s)[i].typ
        {
          j := j + 1;
        }
        if j == |types| {
          var dangles := CopyAttr(b, s, i, false, false);
          assert now + ([more[i]] + Except(more[i + 1..], types)) == Attrs(b) + Except(more[i + 1..], types);
        } else {
          assert [] + Except(more[i + 1..], types) == Except(more[i + 1..], types);
        }
        i := i + 1;
      }
      assert Attrs(b) + [] == Attrs(b);
    }

    // gck_builder_add_onlyv
    method AddOnly(b: nat, s: nat, types: seq<nat>)
      requires IsBuilder(b) && IsAttributes(s) && Valid()
      modifies this
      ensures Valid() && SameData(old(values), values) && |values| == |old(values)|
      ensures holders == old(holders)[b := Builder(old(Attrs(b)) + Only(old(Attrs(s)), types), old(holders[b]).refs)]
      ensures Chosen(old(Attrs(s)), types, Only(old(Attrs(s)), types))
    {
      hide Balanced, Times, Chosen;
      OnlyChosen(Attrs(s), types);
      var i := 0;
      ghost var start, first, more := holders, Attrs(b), Attrs(s);
      assert more[0..] == more && start[b := holders[b]] == start;
      while i < |Attrs(s)|
        invariant IsBuilder(b) && IsAttributes(s) && Attrs(s) == more && 0 <= i <= |more| && Valid()
        invariant SameData(old(values), values) && |values| == |old(values)|
        invariant holders == start[b := Builder(Attrs(b), start[b].refs)]
        invariant Attrs(b) + Only(more[i..], types) == first + Only(more, types)
      {
        assert more[i..][0] == more[i] && more[i..][1..] == more[i + 1..];
        ghost var now := Attrs(b);
        AddTimes(b, s, i, types);
        assert now + (Times(more[i], types) + Only(more[i + 1..], types)) == Attrs(b) + Only(more[i + 1..], types);
        i := i + 1;
      }
      assert Attrs(b) + [] == Attrs(b);
    }

    // One attribute, once for each time its type is asked for.
    method AddTimes(b: nat, s: nat, i: nat, types: seq<nat>)
      requires IsBuilder(b) && IsAttributes(s) && i < |Attrs(s)| && Valid()
      modifies this
      ensures Valid() && SameData(old(values), values) && |values| == |old(values)|
      ensures holders == old(holders)[b := Builder(old(Attrs(b)) + Times(old(Attrs(s))[i], types), old(holders[b]).refs)]
    {
      hide Balanced;
      var j := 0;
      ghost var start, first, a := holders, Attrs(b), Attrs(s)[i];
      assert types[0..] == types && start[b := holders[b]] == start;
      while j < |types|
        invariant IsBuilder(b) && IsAttributes(s) && Attrs(s) == old(Attrs(s)) && 0 <= j <= |types| && Valid()
        invariant SameData(old(values), values) && |values| == |old(values)|
        invariant holders == start[b := Builder(Attrs(b), start[b].refs)]
        invariant Attrs(b) + Times(a, types[j..]) == first + Times(a, types)
      {
        assert types[j..][0] == types[j] && types[j..][1..] == types[j + 1..];
        if Attrs(s)[i].typ == types[j] {
          var dangles := CopyAttr(b, s, i, false, false);
        }
        j := j + 1;
      }
      assert Attrs(b) + [] == Attrs(b);
    }

    // ------------------------------------------------- builders, sets and singles

    // gck_builder_new
    method BuilderNew() returns (b: nat)
      requires Valid()
      modifies this`holders
      ensures Valid() && b == |old(holders)| && holders == old(holders) + [Builder([], 1)]
    {
      hide Balanced, Owned;
      OwnedNone();
      assert multiset{} + Owned([]) == multiset{};
      b := Add(Builder([], 1), multiset{});
    }

    // A new holder takes over what is in hand for its attributes.
    method Add(h: Holder, ghost hand: multiset<nat>) returns (b: nat)
      requires AllSound(values, AttrsOf(h)) && Balanced(hand + Owned(AttrsOf(h)))
      modifies this`holders
      ensures Balanced(hand) && b == |old(holders)| && holders == old(holders) + [h]
    {
      hide Total, Owned, Counted, AllSound;
      TotalSnoc(holders, h);
      b := |holders|;
      holders := holders + [h];
      assert Total(old(holders)) + Owned(AttrsOf(h)) + hand == Total(old(holders)) + (hand + Owned(AttrsOf(h)));
      assert forall v :: v in hand ==> v in hand + Owned(AttrsOf(h));
    }

    // A holder is replaced by one with other attributes; the difference is in hand.
    method Replace(b: nat, h: Holder, ghost hand: multiset<nat>)
      requires b < |holders| && AllSound(values, AttrsOf(h)) && Balanced(hand + Owned(AttrsOf(h)))
      modifies this`holders
      ensures Balanced(hand + Owned(old(Attrs(b)))) && holders == old(holders)[b := h]
    {
      hide Owned, Counted, Total;
      ghost var attrs := Attrs(b);
      assert AllSound(values, attrs);
      OwnedBound(values, attrs);
      TotalUpdate(holders, b, h);
      holders := holders[b := h];
      Moved(Total(old(holders)), Total(holders), Owned(attrs), Owned(AttrsOf(h)), hand);
      assert forall v :: v in hand ==> v in hand + Owned(AttrsOf(h));
      SoundPut(values, old(holders), b, AttrsOf(h), h);
    }

    // gck_builder_end: the attributes go over to a set as they are
    method BuilderEnd(b: nat) returns (s: nat)
      requires IsBuilder(b) && Valid()
      modifies this`holders
      ensures Valid() && s == |old(holders)|
      ensures holders == old(holders)[b := Builder([], old(holders[b]).refs)] + [Attributes(old(Attrs(b)), 1)]
    {
      hide Balanced, Owned;
      ghost var own := Owned(Attrs(b));
      var attrs := Attrs(b);
      OwnedNone();
      SoundHere(this, b);
      assert multiset{} + Owned([]) == multiset{};
      Replace(b, Builder([], holders[b].refs), multiset{});
      s := Add(Attributes(attrs, 1), multiset{});
    }

    // gck_builder_clear: every attribute lets go of its value, then they are gone
    method BuilderClear(b: nat)
      requires IsBuilder(b) && Valid()
      modifies this
      ensures Valid() && SameData(old(values), values) && |values| == |old(values)|
      ensures holders == old(holders)[b := Builder([], old(holders[b]).refs)]
    {
      Release(b, Builder([], holders[b].refs));
    }

    // Everything a holder holds is let go of, one attribute after the other.
    method Release(b: nat, h: Holder)
      requires b < |holders| && AttrsOf(h) == [] && Valid()
      modifies this
      ensures Valid() && SameData(old(values), values) && |values| == |old(values)| && holders == old(holders)[b := h]
    {
      hide Balanced, Owned;
      var attrs := Attrs(b);
      OwnedNone();
      assert multiset{} + Owned([]) == multiset{} && multiset{} + Owned(attrs) == Owned(attrs);
      SoundHere(this, b);
      Replace(b, h, multiset{});
      var i := 0;
      assert attrs[0..] == attrs;
      while i < |attrs|
        invariant 0 <= i <= |attrs| && Balanced(Owned(attrs[i..])) && AllSound(values, attrs)
        invariant SameData(old(values), values) && |values| == |old(values)| && holders == old(holders)[b := h]
      {
        assert attrs[i..] == [attrs[i]] + attrs[i + 1..];
        OwnedCons(attrs[i], attrs[i + 1..]);
        assert Sound(values, attrs[i]);
        if attrs[i].value.Some? {
          assert Owned(attrs[i..]) == Owned(attrs[i + 1..]) + multiset{attrs[i].value.value};
          ghost var before := values;
          ValueUnref(attrs[i].value.value, Owned(attrs[i + 1..]));
          AllSoundSame(before, values, attrs);
        } else {
          assert Owned(attrs[i..]) == Owned(attrs[i + 1..]);
        }
        i := i + 1;
      }
      assert attrs[i..] == [];
    }

    // gck_builder_copy: a new builder that shares all the values
    method BuilderCopy(b: nat) returns (c: nat)
      requires IsBuilder(b) && Valid()
      modifies this
      ensures Valid() && SameData(old(values), values) && |values| == |old(values)|
      ensures c == |old(holders)| && holders == old(holders) + [Builder(old(Attrs(b)), 1)]
    {
      hide Balanced;
      c := BuilderNew();
      ghost var start, attrs := old(holders), Attrs(b);
      var i := 0;
      while i < |Attrs(b)|
        invariant IsBuilder(b) && Attrs(b) == attrs && 0 <= i <= |attrs| && Valid()
        invariant SameData(old(values), values) && |values| == |old(values)|
        invariant holders == start + [Builder(attrs[..i], 1)]
      {
        var dangles := CopyAttr(c, b, i, false, false);
        assert attrs[..i] + [attrs[i]] == attrs[..i + 1];
        assert (start + [Builder(attrs[..i], 1)])[c := Builder(attrs[..i + 1], 1)] == start + [Builder(attrs[..i + 1], 1)];
        i := i + 1;
      }
      assert attrs[..i] == attrs;
    }

    // gck_builder_ref and gck_attributes_ref
    method Ref(b: nat)
      requires (IsBuilder(b) || IsAttributes(b)) && holders[b].refs > 0 && Valid()
      modifies this`holders
      ensures Valid() && holders == old(holders)[b := old(holders[b]).(refs := old(holders[b].refs) + 1)]
    {
      Recount(b, holders[b].refs + 1);
    }

    method Recount(b: nat, refs: nat)
      requires (IsBuilder(b) || IsAttributes(b)) && Valid()
      modifies this`holders
      ensures Valid() && holders == old(holders)[b := old(holders[b]).(refs := refs)]
    {
      hide Owned, Counted;
      TotalUpdate(holders, b, holders[b].(refs := refs));
      Same(Total(holders[b := holders[b].(refs := refs)]), Total(holders), Owned(Attrs(b)));
      SoundPut(values, holders, b, Attrs(b), holders[b].(refs := refs));
      holders := holders[b := holders[b].(refs := refs)];
    }

    // gck_builder_unref and gck_attributes_unref: the last one lets go of everything
    method Unref(b: nat)
      requires (IsBuilder(b) || IsAttributes(b)) && holders[b].refs > 0 && Valid()
      modifies this
      ensures Valid() && SameData(old(values), values) && |values| == |old(values)|
      ensures holders == old(holders)[b := if old(holders[b].refs) == 1 then Gone
                                           else old(holders[b]).(refs := old(holders[b].refs) - 1)]
    {
      if holders[b].refs == 1 {
        Release(b, Gone);
      } else {
        Recount(b, holders[b].refs - 1);
      }
    }

    // gck_attribute_init
    method AttributeInit(typ: nat, value: Option<bytes>, invalid: bool) returns (l: nat)
      requires Valid()
      modifies this
      ensures Valid() && SameData(old(values), values) && l == |old(holders)| && |holders| == l + 1 && holders[..l] == old(holders)
      ensures holders[l] == Loose(NewAttr(typ, value, invalid, |old(values)|))
      ensures if invalid || value == None then |values| == |old(values)|
              else |values| == |old(values)| + 1 && values[|old(values)|].data == value.value
    {
      hide Balanced;
      var a := if invalid then Attr(typ, None, None) else Empty(typ);
      if !invalid && value.Some? {
        var v := ValueNew(value.value, multiset{});
        a := Attr(typ, Some(v), Some(|value.value|));
      } else {
        NoHand(multiset{}, a);
      }
      OwnedOne(a);
      l := Add(Loose(a), multiset{});
    }

    // gck_attribute_init_copy
    method AttributeInitCopy(c: nat, k: nat) returns (l: nat)
      requires c < |holders| && k < |Attrs(c)| && Valid()
      modifies this
      ensures Valid() && SameData(old(values), values) && |values| == |old(values)|
      ensures l == |old(holders)| && holders == old(holders) + [Loose(old(Attrs(c))[k])]
    {
      hide Balanced;
      var attr := Attrs(c)[k];
      RefAttr(c, k);
      OwnedOne(attr);
      l := Add(Loose(Attr(attr.typ, attr.value, attr.length)), multiset{});
    }

    // gck_attribute_clear: the type stays
    method AttributeClear(l: nat)
      requires l < |holders| && holders[l].Loose? && Valid()
      modifies this
      ensures Valid() && SameData(old(values), values) && |values| == |old(values)|
      ensures holders == old(holders)[l := Loose(Empty(old(holders[l]).attr.typ))]
    {
      hide Balanced;
      var attr := holders[l].attr;
      OwnedOne(attr);
      OwnedOne(Empty(attr.typ));
      NoHand(multiset{}, Empty(attr.typ));
      HolderSound(this, l, 0);
      Replace(l, Loose(Empty(attr.typ)), multiset{});
      if attr.value.Some? {
        ValueUnref(attr.value.value, multiset{});
      } else {
        NoHand(multiset{}, attr);
      }
    }
  }

  // What is there once the place for the copy has been made.
  lemma SourceAfter(gck: Gck, b: nat, c: nat, k: nat, performingSet: bool)
    requires gck.IsBuilder(b) && c < |gck.holders| && k < |gck.Attrs(c)|
    ensures var attr, own := gck.Attrs(c)[k], gck.Attrs(b);
            var now := With(own, Empty(attr.typ), performingSet);
            && gck.Source(b, c, k, performingSet).typ == attr.typ
            && (c == b ==> k < |now| && now[k] == gck.Source(b, c, k, performingSet))
            && (c != b ==> attr == gck.Source(b, c, k, performingSet))
  {
    SetChangesFirst(gck.Attrs(b), Empty(gck.Attrs(c)[k].typ));
  }

  lemma OwnedNone()
    ensures Owned([]) == multiset{}
  {
  }

  lemma OwnedOne(a: Attr)
    ensures Owned([a]) == One(a)
  {
    OwnedSnoc([], a);
    assert [] + [a] == [a];
  }

  lemma SoundHere(gck: Gck, b: nat)
    requires gck.Valid() && b < |gck.holders|
    ensures AllSound(gck.values, AttrsOf(gck.holders[b]))
  {
  }

  lemma AllSoundSame(before: seq<Memory>, after: seq<Memory>, attrs: seq<Attr>)
    requires AllSound(before, attrs) && SameData(before, after)
    ensures AllSound(after, attrs)
  {
  }

  lemma Same(total: multiset<nat>, total': multiset<nat>, own: multiset<nat>)
    requires total + own == total' + own
    ensures total == total'
  {
    forall v: nat ensures total[v] == total'[v] {
      assert (total + own)[v] == (total' + own)[v];
    }
  }

  lemma Moved(total: multiset<nat>, total': multiset<nat>, own: multiset<nat>, own': multiset<nat>, hand: multiset<nat>)
    requires total' + own == total + own'
    ensures total' + (hand + own) == total + (hand + own')
  {
    forall v: nat ensures (total' + (hand + own))[v] == (total + (hand + own'))[v] {
      assert (total' + own)[v] == (total + own')[v];
    }
  }

  lemma NoHand(hand: multiset<nat>, a: Attr)
    requires a.value == None
    ensures hand + One(a) == hand
  {
  }

  lemma SoundSame(before: seq<Memory>, after: seq<Memory>, a: Attr)
    requires Sound(before, a) && SameData(before, after)
    ensures Sound(after, a)
  {
  }

  lemma HolderSound(gck: Gck, c: nat, k: nat)
    requires gck.Valid() && c < |gck.holders| && k < |gck.Attrs(c)|
    ensures Sound(gck.values, gck.Attrs(c)[k])
  {
    assert AllSound(gck.values, AttrsOf(gck.holders[c]));
  }

  lemma HolderHolds(gck: Gck, c: nat, k: nat)
    requires c < |gck.holders| && k < |gck.Attrs(c)| && gck.Attrs(c)[k].value.Some?
    ensures gck.Attrs(c)[k].value.value in Total(gck.holders) + multiset{}
  {
    OwnedWithin(gck.holders, c);
    HeldBy(gck.Attrs(c), k);
  }

  lemma CountedLess(values: seq<Memory>, held: multiset<nat>, hand: multiset<nat>, v: nat)
    requires v < |values| && Counted(values, held + (hand + multiset{v}))
    ensures values[v].refs > 0
    ensures var refs := values[v].refs - 1;
            Counted(values[v := values[v].(refs := refs, freed := refs == 0)], held + hand)
  {
    assert held + (hand + multiset{v}) == (held + hand) + multiset{v};
  }

  lemma {:induction false} NotHeld(values: seq<Memory>, hs: seq<Holder>)
    requires HoldersSound(values, hs)
    ensures forall v :: v in Total(hs) ==> v < |values|
    decreases |hs|
  {
    hide Owned;
    if hs != [] {
      var front, last := hs[..|hs| - 1], hs[|hs| - 1];
      assert HoldersSound(values, front);
      NotHeld(values, front);
      OwnedBound(values, AttrsOf(last));
    }
  }

  lemma {:induction false} OwnedBound(values: seq<Memory>, attrs: seq<Attr>)
    requires AllSound(values, attrs)
    ensures forall v :: v in Owned(attrs) ==> v < |values|
    decreases |attrs|
  {
    if attrs != [] {
      OwnedBound(values, attrs[..|attrs| - 1]);
      assert Sound(values, attrs[|attrs| - 1]);
    }
  }

  lemma HandBound(values: seq<Memory>, attrs: seq<Attr>, i: nat)
    requires AllSound(values, attrs) && i < |attrs|
    ensures forall v :: v in One(attrs[i]) ==> v < |values|
  {
    assert Sound(values, attrs[i]);
  }

  lemma HandMoves(hand: multiset<nat>, from: multiset<nat>, to: multiset<nat>, n: nat)
    requires (forall v :: v in hand + from ==> v < n) && (forall v :: v in to ==> v < n)
    ensures forall v :: v in hand + to ==> v < n
  {
    forall v | v in hand + to ensures v < n {
      assert v in hand ==> v in hand + from;
    }
  }

  lemma SoundList(values: seq<Memory>, hs: seq<Holder>, b: nat)
    requires HoldersSound(values, hs) && b < |hs|
    ensures AllSound(values, AttrsOf(hs[b]))
  {
  }

  lemma SoundPut(values: seq<Memory>, hs: seq<Holder>, b: nat, attrs: seq<Attr>, h: Holder)
    requires HoldersSound(values, hs) && b < |hs| && AttrsOf(h) == attrs && AllSound(values, attrs)
    ensures HoldersSound(values, hs[b := h])
  {
  }

  // Moving references from one place to another leaves the total as it was.
  lemma Taken(total: multiset<nat>, total': multiset<nat>, own: multiset<nat>, own': multiset<nat>,
              was: multiset<nat>, now: multiset<nat>, hand: multiset<nat>)
    requires total' + own == total + own' && own' + was == own + now
    ensures total' + (hand + was) == total + (hand + now)
  {
    forall v: nat ensures (total' + (hand + was))[v] == (total + (hand + now))[v] {
      assert (total' + own)[v] == (total + own')[v] && (own' + was)[v] == (own + now)[v];
    }
  }

  lemma Given(total: multiset<nat>, total': multiset<nat>, own: multiset<nat>, now: multiset<nat>, hand: multiset<nat>)
    requires total' + own == total + (own + now)
    ensures total' + hand == total + (hand + now)
  {
    forall v: nat ensures (total' + hand)[v] == (total + (hand + now))[v] {
      assert (total' + own)[v] == (total + (own + now))[v];
    }
  }
}
