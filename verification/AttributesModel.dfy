// Attributes, who holds them, and the values they share.
module AttributesModel {
  import opened Wrappers

  /** An attribute: a type, the value memory it holds, if any, and a length. No length is
      the mark of an invalid attribute. */
  datatype Attr = Attr(typ: nat, value: Option<nat>, length: Option<nat>)

  /** Value memory with the count of references at its front. */
  datatype Memory = Memory(data: bytes, refs: nat, freed: bool)

  /** Whatever can hold attributes; builders and sets are counted themselves. */
  datatype Holder =
    | Builder(attrs: seq<Attr>, refs: nat)
    | Attributes(attrs: seq<Attr>, refs: nat)
    | Loose(attr: Attr)
    | Gone

  function AttrsOf(h: Holder): seq<Attr> {
    match h
    case Builder(attrs, _) => attrs
    case Attributes(attrs, _) => attrs
    case Loose(attr) => [attr]
    case Gone => []
  }

  // ------------------------------------------------------------ who holds what

  function One(a: Attr): multiset<nat> {
    if a.value.Some? then multiset{a.value.value} else multiset{}
  }

  // The values some attributes hold, as often as they hold them.
  function Owned(attrs: seq<Attr>): multiset<nat> {
    if attrs == [] then multiset{} else Owned(attrs[..|attrs| - 1]) + One(attrs[|attrs| - 1])
  }

  function Total(hs: seq<Holder>): multiset<nat> {
    if hs == [] then multiset{} else Total(hs[..|hs| - 1]) + Owned(AttrsOf(hs[|hs| - 1]))
  }

  lemma OwnedSnoc(attrs: seq<Attr>, a: Attr)
    ensures Owned(attrs + [a]) == Owned(attrs) + One(a)
  {
    assert (attrs + [a])[..|attrs|] == attrs;
  }

  lemma {:induction false} OwnedUpdate(attrs: seq<Attr>, i: nat, a: Attr)
    requires i < |attrs|
    ensures Owned(attrs[i := a]) + One(attrs[i]) == Owned(attrs) + One(a)
    decreases |attrs|
  {
    hide One;
    var n := |attrs| - 1;
    var front, last := attrs[..n], attrs[n];
    if i < n {
      OwnedUpdate(front, i, a);
      assert attrs[i := a] == front[i := a] + [last];
      OwnedSnoc(front[i := a], last);
      Exchange(Owned(front[i := a]), One(attrs[i]), Owned(front), One(a), One(last));
    } else {
      assert attrs[i := a] == front + [a];
      OwnedSnoc(front, a);
    }
  }

  lemma Exchange(a: multiset<nat>, b: multiset<nat>, c: multiset<nat>, d: multiset<nat>, more: multiset<nat>)
    requires a + b == c + d
    ensures a + more + b == c + more + d
  {
    assert a + more + b == a + b + more;
  }

  lemma TotalSnoc(hs: seq<Holder>, h: Holder)
    ensures Total(hs + [h]) == Total(hs) + Owned(AttrsOf(h))
  {
    assert (hs + [h])[..|hs|] == hs;
  }

  lemma {:induction false} TotalUpdate(hs: seq<Holder>, b: nat, h: Holder)
    requires b < |hs|
    ensures Total(hs[b := h]) + Owned(AttrsOf(hs[b])) == Total(hs) + Owned(AttrsOf(h))
    decreases |hs|
  {
    hide Owned, AttrsOf;
    var n := |hs| - 1;
    var front, last := hs[..n], hs[n];
    if b < n {
      TotalUpdate(front, b, h);
      assert hs[b := h] == front[b := h] + [last];
      TotalSnoc(front[b := h], last);
      Exchange(Total(front[b := h]), Owned(AttrsOf(hs[b])), Total(front), Owned(AttrsOf(h)), Owned(AttrsOf(last)));
    } else {
      assert hs[b := h] == front + [h];
      TotalSnoc(front, h);
    }
  }

  lemma {:induction false} OwnedWithin(hs: seq<Holder>, b: nat)
    requires b < |hs|
    ensures Owned(AttrsOf(hs[b])) <= Total(hs)
    decreases |hs|
  {
    if b < |hs| - 1 {
      OwnedWithin(hs[..|hs| - 1], b);
    }
  }

  lemma {:induction false} HeldBy(attrs: seq<Attr>, i: nat)
    requires i < |attrs| && attrs[i].value.Some?
    ensures attrs[i].value.value in Owned(attrs)
    decreases |attrs|
  {
    if i < |attrs| - 1 {
      HeldBy(attrs[..|attrs| - 1], i);
    }
  }

  // Every count is the number of attributes that hold the value, in whatever holder, and
  // in the hands of the operation that is going on; a value is freed when nothing holds it.
  ghost predicate Counted(values: seq<Memory>, held: multiset<nat>) {
    forall v :: 0 <= v < |values| ==> values[v].refs == held[v] && (values[v].freed <==> values[v].refs == 0)
  }

  // The length of an attribute is that of its value; without one it is empty or invalid.
  ghost predicate Sound(values: seq<Memory>, a: Attr) {
    match a.value
    case Some(v) => v < |values| && a.length == Some(|values[v].data|)
    case None => a.length == None || a.length == Some(0)
  }

  ghost predicate AllSound(values: seq<Memory>, attrs: seq<Attr>) {
    forall i :: 0 <= i < |attrs| ==> Sound(values, attrs[i])
  }

  ghost predicate HoldersSound(values: seq<Memory>, hs: seq<Holder>) {
    forall b :: 0 <= b < |hs| ==> AllSound(values, AttrsOf(hs[b]))
  }

  // Values only come and go: what they contain never changes.
  ghost predicate SameData(before: seq<Memory>, after: seq<Memory>) {
    |before| <= |after| && forall v :: 0 <= v < |before| ==> after[v].data == before[v].data
  }

  lemma SoundAfter(before: seq<Memory>, after: seq<Memory>, hs: seq<Holder>)
    requires HoldersSound(before, hs) && SameData(before, after)
    ensures HoldersSound(after, hs)
  {
    forall b | 0 <= b < |hs| ensures AllSound(after, AttrsOf(hs[b])) {
      assert AllSound(before, AttrsOf(hs[b]));
    }
  }

  // ------------------------------------------------------ finding, adding, setting

  function Find(attrs: seq<Attr>, typ: nat): (r: Option<nat>)
    ensures r.Some? ==> r.value < |attrs| && attrs[r.value].typ == typ
    ensures r.Some? ==> forall i :: 0 <= i < r.value ==> attrs[i].typ != typ
    ensures r == None ==> forall i :: 0 <= i < |attrs| ==> attrs[i].typ != typ
  {
    if attrs == [] then None
    else if attrs[0].typ == typ then Some(0)
    else
      match Find(attrs[1..], typ)
      case None =>
        assert forall i :: 0 < i < |attrs| ==> attrs[i] == attrs[1..][i - 1];
        None
      case Some(i) =>
        assert forall j :: 0 < j < |attrs| ==> attrs[j] == attrs[1..][j - 1];
        Some(i + 1)
  }

  lemma FindIs(attrs: seq<Attr>, typ: nat, i: nat)
    requires i < |attrs| && attrs[i].typ == typ && forall j :: 0 <= j < i ==> attrs[j].typ != typ
    ensures Find(attrs, typ) == Some(i)
  {
  }

  // What setting an attribute makes of a list.
  function WithSet(attrs: seq<Attr>, a: Attr): seq<Attr> {
    match Find(attrs, a.typ)
    case None => attrs + [a]
    case Some(i) => attrs[i := a]
  }

  function With(attrs: seq<Attr>, a: Attr, performingSet: bool): seq<Attr> {
    if performingSet then WithSet(attrs, a) else attrs + [a]
  }

  // Setting changes the first attribute of its type and nothing else; if there is none
  // it adds one at the end. Afterwards it is the one that is found.
  lemma SetChangesFirst(attrs: seq<Attr>, a: Attr)
    ensures var after := WithSet(attrs, a);
            && |attrs| <= |after| <= |attrs| + 1
            && (forall i :: 0 <= i < |attrs| && Find(attrs, a.typ) != Some(i) ==> after[i] == attrs[i])
            && Find(after, a.typ).Some? && after[Find(after, a.typ).value] == a
            && (forall t :: t != a.typ ==> Find(after, t) == Find(attrs, t))
            && (Find(attrs, a.typ).Some? ==> |after| == |attrs| && Find(after, a.typ) == Find(attrs, a.typ))
  {
    var after := WithSet(attrs, a);
    var i := if Find(attrs, a.typ).Some? then Find(attrs, a.typ).value else |attrs|;
    FindIs(after, a.typ, i);
    forall t | t != a.typ ensures Find(after, t) == Find(attrs, t) {
      if Find(attrs, t).Some? {
        FindIs(after, t, Find(attrs, t).value);
      } else if Find(after, t).Some? {
        assert false;
      }
    }
  }

  // Adding never changes what is found for a type that is there already; it is only found
  // itself when it is the first of its type.
  lemma AddKeepsFind(attrs: seq<Attr>, a: Attr, t: nat)
    ensures Find(attrs, t).Some? ==> Find(attrs + [a], t) == Find(attrs, t)
                                     && (attrs + [a])[Find(attrs, t).value] == attrs[Find(attrs, t).value]
    ensures Find(attrs, t) == None ==> Find(attrs + [a], t) == if a.typ == t then Some(|attrs|) else None
  {
    var after := attrs + [a];
    if Find(attrs, t).Some? {
      FindIs(after, t, Find(attrs, t).value);
    } else if a.typ == t {
      FindIs(after, t, |attrs|);
    }
  }

  // Copying a list of attributes one after the other.
  function WithAll(attrs: seq<Attr>, more: seq<Attr>, performingSet: bool): seq<Attr>
    decreases |more|
  {
    if more == [] then attrs else WithAll(With(attrs, more[0], performingSet), more[1..], performingSet)
  }

  lemma {:induction false} AddAllAppends(attrs: seq<Attr>, more: seq<Attr>)
    ensures WithAll(attrs, more, false) == attrs + more
    decreases |more|
  {
    if more == [] {
      assert attrs + [] == attrs;
    } else {
      AddAllAppends(attrs + [more[0]], more[1..]);
      assert attrs + [more[0]] + more[1..] == attrs + more;
    }
  }

  // Setting a whole list: for every type in it the last one of the list is found, and all
  // other types are found as before.
  lemma {:induction false} SetAllFinds(attrs: seq<Attr>, more: seq<Attr>, t: nat)
    ensures var after := WithAll(attrs, more, true);
            if LastOf(more, t).Some? then Find(after, t).Some? && after[Find(after, t).value] == LastOf(more, t).value
            else Find(after, t) == Find(attrs, t)
                 && (Find(attrs, t).Some? ==> after[Find(attrs, t).value] == attrs[Find(attrs, t).value])
    decreases |more|
  {
    hide Find, WithSet;
    if more != [] {
      SetChangesFirst(attrs, more[0]);
      SetAllFinds(WithSet(attrs, more[0]), more[1..], t);
    }
  }

  function LastOf(more: seq<Attr>, t: nat): (r: Option<Attr>)
    ensures r.Some? ==> r.value in more && r.value.typ == t
  {
    if more == [] then None
    else if LastOf(more[1..], t).Some? then LastOf(more[1..], t)
    else if more[0].typ == t then Some(more[0])
    else None
  }

  // The attributes of the types that are not left out.
  function Except(attrs: seq<Attr>, types: seq<nat>): seq<Attr> {
    if attrs == [] then [] else (if attrs[0].typ in types then [] else [attrs[0]]) + Except(attrs[1..], types)
  }

  lemma ExceptNext(attrs: seq<Attr>, types: seq<nat>, i: nat)
    requires i <= |attrs|
    ensures i == |attrs| ==> Except(attrs[i..], types) == []
    ensures i < |attrs| ==>
              Except(attrs[i..], types) == (if attrs[i].typ in types then [] else [attrs[i]]) + Except(attrs[i + 1..], types)
  {
    assert i < |attrs| ==> attrs[i..][1..] == attrs[i + 1..];
  }

  // The attributes of the types that are asked for, as often as they are.
  function Only(attrs: seq<Attr>, types: seq<nat>): seq<Attr> {
    if attrs == [] then [] else Times(attrs[0], types) + Only(attrs[1..], types)
  }

  function Times(a: Attr, types: seq<nat>): seq<Attr> {
    if types == [] then [] else (if types[0] == a.typ then [a] else []) + Times(a, types[1..])
  }

  ghost predicate Ascending(ps: seq<nat>) {
    forall j, k :: 0 <= j < k < |ps| ==> ps[j] <= ps[k]
  }

  // The attributes at these positions, one after the other.
  ghost predicate PickedAt(attrs: seq<Attr>, ps: seq<nat>, added: seq<Attr>) {
    |added| == |ps| && forall k :: 0 <= k < |ps| ==> ps[k] < |attrs| && added[k] == attrs[ps[k]]
  }

  // In the order of the set, each attribute as often as its type is among the types.
  ghost predicate Chosen(attrs: seq<Attr>, types: seq<nat>, added: seq<Attr>) {
    exists ps: seq<nat> :: ChosenAt(attrs, types, added, ps)
  }

  ghost predicate ChosenAt(attrs: seq<Attr>, types: seq<nat>, added: seq<Attr>, ps: seq<nat>) {
    && Ascending(ps) && PickedAt(attrs, ps, added)
    && forall i :: 0 <= i < |attrs| ==> multiset(ps)[i] == multiset(types)[attrs[i].typ]
  }

  // In the order of the set, each attribute once unless its type is among the types.
  ghost predicate Others(attrs: seq<Attr>, types: seq<nat>, added: seq<Attr>) {
    exists ps: seq<nat> :: OthersAt(attrs, types, added, ps)
  }

  ghost predicate OthersAt(attrs: seq<Attr>, types: seq<nat>, added: seq<Attr>, ps: seq<nat>) {
    && Ascending(ps) && PickedAt(attrs, ps, added)
    && forall i :: 0 <= i < |attrs| ==> multiset(ps)[i] == if attrs[i].typ in types then 0 else 1
  }

  // Some copies of the first position, and then those of the rest.
  lemma PickedMore(attrs: seq<Attr>, n: nat, ps: seq<nat>, more: seq<Attr>) returns (qs: seq<nat>)
    requires attrs != [] && Ascending(ps) && PickedAt(attrs[1..], ps, more)
    ensures Ascending(qs) && PickedAt(attrs, qs, Repeat(attrs[0], n) + more)
    ensures multiset(qs)[0] == n && forall i :: 0 < i < |attrs| ==> multiset(qs)[i] == multiset(ps)[i - 1]
  {
    var later := seq(|ps|, k requires 0 <= k < |ps| => ps[k] + 1);
    qs := Repeat<nat>(0, n) + later;
    assert multiset(qs) == multiset(Repeat<nat>(0, n)) + multiset(later);
    forall i: nat ensures multiset(qs)[i] == if i == 0 then n else multiset(ps)[i - 1] {
      RepeatCount<nat>(0, n, i);
      ShiftCount(ps, later, i);
    }
    PickedLater(attrs, n, ps, later, more);
  }

  lemma PickedLater(attrs: seq<Attr>, n: nat, ps: seq<nat>, later: seq<nat>, more: seq<Attr>)
    requires attrs != [] && Ascending(ps) && PickedAt(attrs[1..], ps, more)
    requires |later| == |ps| && forall k :: 0 <= k < |ps| ==> later[k] == ps[k] + 1
    ensures Ascending(Repeat(0, n) + later) && PickedAt(attrs, Repeat(0, n) + later, Repeat(attrs[0], n) + more)
  {
  }

  lemma {:induction false} ShiftCount(ps: seq<nat>, later: seq<nat>, i: nat)
    requires |later| == |ps| && forall k :: 0 <= k < |ps| ==> later[k] == ps[k] + 1
    ensures multiset(later)[i] == if i == 0 then 0 else multiset(ps)[i - 1]
  {
    if ps != [] {
      var n := |ps| - 1;
      ShiftCount(ps[..n], later[..n], i);
      assert ps == ps[..n] + [ps[n]] && later == later[..n] + [later[n]];
    }
  }

  lemma {:induction false} TimesRepeats(a: Attr, types: seq<nat>)
    ensures Times(a, types) == Repeat(a, multiset(types)[a.typ])
  {
    if types != [] {
      TimesRepeats(a, types[1..]);
      assert types == [types[0]] + types[1..];
      if types[0] == a.typ {
        assert Repeat(a, multiset(types)[a.typ]) == [a] + Repeat(a, multiset(types[1..])[a.typ]);
      }
    }
  }

  lemma {:induction false} OnlyChosen(attrs: seq<Attr>, types: seq<nat>)
    ensures Chosen(attrs, types, Only(attrs, types))
  {
    hide Times, ChosenAt;
    if attrs == [] {
      var ps: seq<nat> := [];
      NonePicked(types);
      assert ChosenAt(attrs, types, [], ps);
    } else {
      OnlyChosen(attrs[1..], types);
      TimesRepeats(attrs[0], types);
      var ps: seq<nat> :| ChosenAt(attrs[1..], types, Only(attrs[1..], types), ps);
      ChosenMore(attrs, types, Only(attrs[1..], types), ps);
    }
  }

  lemma NonePicked(types: seq<nat>)
    ensures ChosenAt([], types, [], []) && OthersAt([], types, [], [])
  {
  }

  lemma ChosenMore(attrs: seq<Attr>, types: seq<nat>, more: seq<Attr>, ps: seq<nat>)
    requires attrs != [] && ChosenAt(attrs[1..], types, more, ps)
    ensures Chosen(attrs, types, Repeat(attrs[0], multiset(types)[attrs[0].typ]) + more)
  {
    hide Ascending, PickedAt, Repeat;
    var qs := PickedMore(attrs, multiset(types)[attrs[0].typ], ps, more);
    assert forall i :: 0 < i < |attrs| ==> attrs[i] == attrs[1..][i - 1];
    assert ChosenAt(attrs, types, Repeat(attrs[0], multiset(types)[attrs[0].typ]) + more, qs);
  }

  lemma {:induction false} ExceptOthers(attrs: seq<Attr>, types: seq<nat>)
    ensures Others(attrs, types, Except(attrs, types))
  {
    hide OthersAt;
    if attrs == [] {
      var ps: seq<nat> := [];
      NonePicked(types);
      assert OthersAt(attrs, types, [], ps);
    } else {
      ExceptOthers(attrs[1..], types);
      var ps: seq<nat> :| OthersAt(attrs[1..], types, Except(attrs[1..], types), ps);
      OthersMore(attrs, types, Except(attrs[1..], types), ps);
      OnceOrNot(attrs[0], attrs[0].typ in types, Except(attrs[1..], types));
    }
  }

  lemma OthersMore(attrs: seq<Attr>, types: seq<nat>, more: seq<Attr>, ps: seq<nat>)
    requires attrs != [] && OthersAt(attrs[1..], types, more, ps)
    ensures Others(attrs, types, Repeat(attrs[0], if attrs[0].typ in types then 0 else 1) + more)
  {
    hide Ascending, PickedAt, Repeat;
    var n := if attrs[0].typ in types then 0 else 1;
    var qs := PickedMore(attrs, n, ps, more);
    assert forall i :: 0 < i < |attrs| ==> attrs[i] == attrs[1..][i - 1];
    assert OthersAt(attrs, types, Repeat(attrs[0], n) + more, qs);
  }

  lemma OnceOrNot(a: Attr, left: bool, more: seq<Attr>)
    ensures Repeat(a, if left then 0 else 1) + more == if left then more else [a] + more
  {
    assert Repeat(a, 0) == [] && Repeat(a, 1) == [a];
    assert [] + more == more;
  }

  // In short: what is added are attributes of the set with a type that is asked for, as
  // often as the set has them times how often the type is asked for.
  lemma {:induction false} OnlyMany(attrs: seq<Attr>, types: seq<nat>, a: Attr)
    ensures a in Only(attrs, types) <==> a in attrs && a.typ in types
    ensures multiset(Only(attrs, types))[a] == multiset(attrs)[a] * multiset(types)[a.typ]
  {
    hide Times, Repeat;
    if attrs != [] {
      var first, rest := Repeat(attrs[0], multiset(types)[attrs[0].typ]), Only(attrs[1..], types);
      OnlyMany(attrs[1..], types, a);
      TimesRepeats(attrs[0], types);
      RepeatCount(attrs[0], multiset(types)[attrs[0].typ], a);
      assert attrs == [attrs[0]] + attrs[1..];
      assert multiset(first + rest)[a] == multiset(first)[a] + multiset(rest)[a];
      OneMore(multiset(attrs[1..])[a], multiset(types)[a.typ]);
    }
  }

  lemma OneMore(m: nat, n: nat)
    ensures (m + 1) * n == m * n + n
  {
  }

  lemma {:induction false} OwnedCons(a: Attr, attrs: seq<Attr>)
    ensures Owned([a] + attrs) == One(a) + Owned(attrs)
    decreases |attrs|
  {
    hide One;
    if attrs == [] {
      assert [a] + attrs == [] + [a];
      OwnedSnoc([], a);
    } else {
      var front, last := attrs[..|attrs| - 1], attrs[|attrs| - 1];
      OwnedCons(a, front);
      assert [a] + attrs == ([a] + front) + [last];
      OwnedSnoc([a] + front, last);
    }
  }
}
