// Whole runs of operations on builders, sets and attributes.
module AttributesRun {
  import opened Wrappers
  import opened AttributesModel
  import opened Attributes

  /** A call; b, c, s and l are positions of holders, `moves` says whether an array has to move. */
  datatype Call =
    | NewBuilder
    | AddData(b: nat, typ: nat, value: Option<bytes>, invalid: bool)
    | SetData(b: nat, typ: nat, value: Option<bytes>, invalid: bool)
    | AddAttribute(b: nat, c: nat, k: nat, moves: bool)
    | AddAll(b: nat, s: nat)
    | SetAll(b: nat, s: nat)
    | AddOnlyTypes(b: nat, s: nat, types: seq<nat>)
    | AddExceptTypes(b: nat, s: nat, types: seq<nat>)
    | End(b: nat)
    | Clear(b: nat)
    | Copy(b: nat)
    | Reference(b: nat)
    | Unreference(b: nat)
    | Init(typ: nat, value: Option<bytes>, invalid: bool)
    | InitCopy(c: nat, k: nat)
    | ClearAttribute(l: nat)

  /** What there is: the holders, and the contents of all values there ever were. */
  datatype World = World(holders: seq<Holder>, data: seq<bytes>)

  predicate IsBuilder(hs: seq<Holder>, b: nat) {
    b < |hs| && hs[b].Builder?
  }

  predicate IsAttributes(hs: seq<Holder>, s: nat) {
    s < |hs| && hs[s].Attributes?
  }

  predicate IsCounted(hs: seq<Holder>, b: nat) {
    (IsBuilder(hs, b) || IsAttributes(hs, b)) && hs[b].refs > 0
  }

  // What a caller has to see to: arguments that are there, of the right kind, and no
  // attribute of a builder itself when adding it moves the array.
  predicate Allowed(call: Call, hs: seq<Holder>) {
    match call
    case NewBuilder => true
    case AddData(b, _, _, _) => IsBuilder(hs, b)
    case SetData(b, _, _, _) => IsBuilder(hs, b)
    case AddAttribute(b, c, k, moves) => IsBuilder(hs, b) && c < |hs| && k < |AttrsOf(hs[c])| && (c == b ==> !moves)
    case AddAll(b, s) => IsBuilder(hs, b) && IsAttributes(hs, s)
    case SetAll(b, s) => IsBuilder(hs, b) && IsAttributes(hs, s)
    case AddOnlyTypes(b, s, _) => IsBuilder(hs, b) && IsAttributes(hs, s)
    case AddExceptTypes(b, s, _) => IsBuilder(hs, b) && IsAttributes(hs, s)
    case End(b) => IsBuilder(hs, b)
    case Clear(b) => IsBuilder(hs, b)
    case Copy(b) => IsBuilder(hs, b)
    case Reference(b) => IsCounted(hs, b)
    case Unreference(b) => IsCounted(hs, b)
    case Init(_, _, _) => true
    case InitCopy(c, k) => c < |hs| && k < |AttrsOf(hs[c])|
    case ClearAttribute(l) => l < |hs| && hs[l].Loose?
  }

  // The builder b gets other attributes.
  function Rebuilt(hs: seq<Holder>, b: nat, attrs: seq<Attr>): seq<Holder>
    requires IsBuilder(hs, b)
  {
    hs[b := Builder(attrs, hs[b].refs)]
  }

  // What a call makes of the holders when there were n values before it.
  function Holders(call: Call, hs: seq<Holder>, n: nat): seq<Holder>
    requires Allowed(call, hs)
  {
    match call
    case NewBuilder => hs + [Builder([], 1)]
    case AddData(b, typ, value, invalid) => Rebuilt(hs, b, AttrsOf(hs[b]) + [NewAttr(typ, value, invalid, n)])
    case SetData(b, typ, value, invalid) => Rebuilt(hs, b, WithSet(AttrsOf(hs[b]), NewAttr(typ, value, invalid, n)))
    case AddAttribute(b, c, k, _) => Rebuilt(hs, b, AttrsOf(hs[b]) + [AttrsOf(hs[c])[k]])
    case AddAll(b, s) => Rebuilt(hs, b, AttrsOf(hs[b]) + AttrsOf(hs[s]))
    case SetAll(b, s) => Rebuilt(hs, b, WithAll(AttrsOf(hs[b]), AttrsOf(hs[s]), true))
    case AddOnlyTypes(b, s, types) => Rebuilt(hs, b, AttrsOf(hs[b]) + Only(AttrsOf(hs[s]), types))
    case AddExceptTypes(b, s, types) => Rebuilt(hs, b, AttrsOf(hs[b]) + Except(AttrsOf(hs[s]), types))
    case End(b) => Rebuilt(hs, b, []) + [Attributes(AttrsOf(hs[b]), 1)]
    case Clear(b) => Rebuilt(hs, b, [])
    case Copy(b) => hs + [Builder(AttrsOf(hs[b]), 1)]
    case Reference(b) => hs[b := hs[b].(refs := hs[b].refs + 1)]
    case Unreference(b) => hs[b := if hs[b].refs == 1 then Gone else hs[b].(refs := hs[b].refs - 1)]
    case Init(typ, value, invalid) => hs + [Loose(NewAttr(typ, value, invalid, n))]
    case InitCopy(c, k) => hs + [Loose(AttrsOf(hs[c])[k])]
    case ClearAttribute(l) => hs[l := Loose(Empty(hs[l].attr.typ))]
  }

  // Only calls that are given data make a value; all others share those there are.
  function NewData(call: Call): seq<bytes> {
    match call
    case AddData(_, _, value, invalid) => Given(value, invalid)
    case SetData(_, _, value, invalid) => Given(value, invalid)
    case Init(_, value, invalid) => Given(value, invalid)
    case _ => []
  }

  function Given(value: Option<bytes>, invalid: bool): seq<bytes> {
    if !invalid && value.Some? then [value.value] else []
  }

  /** What a sequence of calls makes of an empty world; those that are not allowed are left out. */
  function After(calls: seq<Call>): World {
    if calls == [] then World([], [])
    else
      var call, w := calls[|calls| - 1], After(calls[..|calls| - 1]);
      if Allowed(call, w.holders) then World(Holders(call, w.holders, |w.data|), w.data + NewData(call)) else w
  }

  // What lets go of its last reference is gone.
  ghost predicate AllCounted(hs: seq<Holder>) {
    forall b :: 0 <= b < |hs| && (hs[b].Builder? || hs[b].Attributes?) ==> hs[b].refs > 0
  }

  lemma {:induction false} NoneUncounted(calls: seq<Call>)
    ensures AllCounted(After(calls).holders)
  {
    hide AllCounted, Allowed, Holders, NewData;
    if calls == [] {
      NothingUncounted();
    } else {
      var call, w := calls[|calls| - 1], After(calls[..|calls| - 1]);
      NoneUncounted(calls[..|calls| - 1]);
      if Allowed(call, w.holders) {
        StillCounted(call, w.holders, |w.data|);
      }
    }
  }

  lemma NothingUncounted()
    ensures AllCounted([])
  {
  }

  lemma StillCounted(call: Call, hs: seq<Holder>, n: nat)
    requires Allowed(call, hs) && AllCounted(hs)
    ensures AllCounted(Holders(call, hs, n))
  {
    hide WithAll, WithSet, Only, Except, NewAttr, AttrsOf;
  }

  // So every builder and every set there is can be referenced and let go of.
  lemma ReferencesAllowed(calls: seq<Call>, b: nat)
    ensures var hs := After(calls).holders;
            var there := b < |hs| && (hs[b].Builder? || hs[b].Attributes?);
            && (there <==> After(calls + [Reference(b)]) != After(calls))
            && (there <==> After(calls + [Unreference(b)]) != After(calls))
  {
    hide After, Holders;
    var w := After(calls);
    NoneUncounted(calls);
    AfterOne(calls, Reference(b));
    AfterOne(calls, Unreference(b));
    if IsCounted(w.holders, b) {
      CountChanges(w.holders, b, |w.data|);
    }
  }

  lemma CountChanges(hs: seq<Holder>, b: nat, n: nat)
    requires IsCounted(hs, b)
    ensures Holders(Reference(b), hs, n) != hs && Holders(Unreference(b), hs, n) != hs
  {
    assert Holders(Reference(b), hs, n)[b] != hs[b] && Holders(Unreference(b), hs, n)[b] != hs[b];
  }

  lemma AfterOne(calls: seq<Call>, call: Call)
    ensures var w := After(calls);
            After(calls + [call]) ==
              if Allowed(call, w.holders) then World(Holders(call, w.holders, |w.data|), w.data + NewData(call)) else w
  {
    hide Allowed, Holders, NewData;
    assert (calls + [call])[..|calls|] == calls;
  }

  // The values contain what they were given.
  ghost predicate Contains(values: seq<Memory>, data: seq<bytes>) {
    |values| == |data| && forall v :: 0 <= v < |data| ==> values[v].data == data[v]
  }

  lemma ContainsMore(before: seq<Memory>, after: seq<Memory>, data: seq<bytes>, more: seq<bytes>)
    requires Contains(before, data) && SameData(before, after) && |after| == |before| + |more|
    requires forall v :: |before| <= v < |after| ==> after[v].data == more[v - |before|]
    ensures Contains(after, data + more)
  {
  }

  method Perform(gck: Gck, call: Call)
    requires gck.Valid() && Allowed(call, gck.holders)
    modifies gck
    ensures gck.Valid() && gck.holders == Holders(call, old(gck.holders), |old(gck.values)|)
    ensures SameData(old(gck.values), gck.values) && |gck.values| == |old(gck.values)| + |NewData(call)|
    ensures forall v :: |old(gck.values)| <= v < |gck.values| ==> gck.values[v].data == NewData(call)[v - |old(gck.values)|]
  {
    hide Gck.Balanced, WithAll, WithSet, Except, Only, SameData;
    match call
    case NewBuilder =>
      var b := gck.BuilderNew();
      NothingNew(gck.values);
    case AddData(b, typ, value, invalid) =>
      ghost var a := gck.Data(b, typ, value, invalid, false);
    case SetData(b, typ, value, invalid) =>
      ghost var a := gck.Data(b, typ, value, invalid, true);
    case AddAttribute(b, c, k, moves) =>
      var dangles := gck.CopyAttr(b, c, k, false, moves);
    case AddAll(b, s) =>
      AddAllAppends(gck.Attrs(b), gck.Attrs(s));
      gck.CopyAll(b, s, false);
    case SetAll(b, s) =>
      gck.CopyAll(b, s, true);
    case AddOnlyTypes(b, s, types) =>
      gck.AddOnly(b, s, types);
    case AddExceptTypes(b, s, types) =>
      gck.AddExcept(b, s, types);
    case End(b) =>
      NothingNew(gck.values);
      var s := gck.BuilderEnd(b);
    case Clear(b) =>
      gck.BuilderClear(b);
    case Copy(b) =>
      var c := gck.BuilderCopy(b);
    case Reference(b) =>
      NothingNew(gck.values);
      gck.Ref(b);
    case Unreference(b) =>
      gck.Unref(b);
    case Init(typ, value, invalid) =>
      var l := gck.AttributeInit(typ, value, invalid);
      assert gck.holders == gck.holders[..l] + [gck.holders[l]];
    case InitCopy(c, k) =>
      var l := gck.AttributeInitCopy(c, k);
    case ClearAttribute(l) =>
      gck.AttributeClear(l);
  }

  lemma NothingNew(values: seq<Memory>)
    ensures SameData(values, values)
  {
  }

  /** After any sequence of calls the holders have the attributes that the calls gave them,
      the values contain what was given, and the references of a value are the places
      where an attribute holds it: it is freed exactly when there are none. */
  method Run(calls: seq<Call>) returns (gck: Gck)
    ensures fresh(gck) && gck.Valid()
    ensures gck.holders == After(calls).holders && Contains(gck.values, After(calls).data)
    ensures forall v :: 0 <= v < |gck.values| ==>
              && gck.values[v].refs == |Places(gck.holders, v)|
              && (gck.values[v].freed <==> Places(gck.holders, v) == {})
  {
    hide Holders, Allowed, Gck.Balanced, Places;
    gck := new Gck();
    var k := 0;
    while k < |calls|
      invariant 0 <= k <= |calls| && fresh(gck) && gck.Valid()
      invariant gck.holders == After(calls[..k]).holders && Contains(gck.values, After(calls[..k]).data)
    {
      assert calls[..k + 1][..k] == calls[..k];
      if Allowed(calls[k], gck.holders) {
        ghost var before := gck.values;
        Perform(gck, calls[k]);
        ContainsMore(before, gck.values, After(calls[..k]).data, NewData(calls[k]));
      }
      k := k + 1;
    }
    assert calls[..k] == calls;
    forall v | 0 <= v < |gck.values|
      ensures gck.values[v].refs == |Places(gck.holders, v)| && (gck.values[v].freed <==> Places(gck.holders, v) == {})
    {
      CountsPlaces(gck, v);
    }
  }

  lemma CountsPlaces(gck: Gck, v: nat)
    requires gck.Valid() && v < |gck.values|
    ensures gck.values[v].refs == |Places(gck.holders, v)|
    ensures gck.values[v].freed <==> Places(gck.holders, v) == {}
  {
    hide Total, HoldersSound, Places;
    assert Total(gck.holders) + multiset{} == Total(gck.holders);
    TotalCount(gck.holders, v);
  }

  /** Where a value is held: a holder, and a position among its attributes. */
  ghost function Places(hs: seq<Holder>, v: nat): set<(int, int)> {
    set b, k | 0 <= b < |hs| && 0 <= k < |AttrsOf(hs[b])| && AttrsOf(hs[b])[k].value == Some(v) :: (b, k)
  }

  // The total counts the places.
  lemma {:induction false} TotalCount(hs: seq<Holder>, v: nat)
    ensures Total(hs)[v] == |Places(hs, v)|
    decreases |hs|
  {
    hide Places, Owned, Holding;
    if hs == [] {
      NoPlaces(v);
    } else {
      TotalCount(hs[..|hs| - 1], v);
      OwnedCount(AttrsOf(hs[|hs| - 1]), v);
      PlacesNext(hs, v);
    }
  }

  lemma NoPlaces(v: nat)
    ensures Places([], v) == {}
  {
  }

  lemma PlacesNext(hs: seq<Holder>, v: nat)
    requires hs != []
    ensures |Places(hs, v)| == |Places(hs[..|hs| - 1], v)| + |Holding(AttrsOf(hs[|hs| - 1]), v)|
  {
    var n := |hs| - 1;
    var front, here := Places(hs[..n], v), Paired(n, Holding(AttrsOf(hs[n]), v));
    PairedSize(n, Holding(AttrsOf(hs[n]), v));
    assert Places(hs, v) == front + here;
    assert front !! here;
  }

  ghost function Paired<T>(b: int, ks: set<T>): set<(int, T)> {
    set k | k in ks :: (b, k)
  }

  lemma {:induction false} PairedSize<T>(b: int, ks: set<T>)
    ensures |Paired(b, ks)| == |ks|
    decreases |ks|
  {
    if ks == {} {
      assert Paired(b, ks) == {};
    } else {
      var k :| k in ks;
      PairedSize(b, ks - {k});
      assert Paired(b, ks) == Paired(b, ks - {k}) + {(b, k)};
    }
  }

  // The number of references of a value is the number of attributes that hold it.
  lemma {:induction false} OwnedCount(attrs: seq<Attr>, v: nat)
    ensures Owned(attrs)[v] == |Holding(attrs, v)|
    decreases |attrs|
  {
    if attrs != [] {
      OwnedCount(attrs[..|attrs| - 1], v);
      HoldingNext(attrs, v);
    }
  }

  lemma HoldingNext(attrs: seq<Attr>, v: nat)
    requires attrs != []
    ensures |Holding(attrs, v)| == |Holding(attrs[..|attrs| - 1], v)| + One(attrs[|attrs| - 1])[v]
  {
    var n := |attrs| - 1;
    var front := attrs[..n];
    if attrs[n].value == Some(v) {
      assert Holding(attrs, v) == Holding(front, v) + {n};
    } else {
      assert Holding(attrs, v) == Holding(front, v);
    }
  }

  ghost function Holding(attrs: seq<Attr>, v: nat): set<int> {
    set k | 0 <= k < |attrs| && attrs[k].value == Some(v)
  }
}
