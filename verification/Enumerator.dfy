// The enumerator proper: batches of results drawn from a chain of enumerators.
module Enumerator {
  import opened Wrappers
  import opened EnumeratorModel
  import opened EnumeratorState
  import opened EnumeratorChain

  ghost predicate Runnable(s: GckEnumeratorState)
    reads s
  {
    s.Orderly(s.handler) && s.objectClass
  }

  ghost function ViewOf(s: GckEnumeratorState): View
    requires Runnable(s)
    reads s
  {
    View(s.Ready(), s.Groups(s.handler), s.attrTypes)
  }

  ghost function NextOf(ss: seq<GckEnumeratorState>, i: nat): GckEnumeratorState? {
    if i + 1 < |ss| then ss[i + 1] else null
  }

  // The checked-out states ss hang together by their `chained` fields, belong to the
  // enumerators es, and are worth vs.
  ghost predicate Chain(ss: seq<GckEnumeratorState>, es: seq<GckEnumerator>, vs: seq<View>)
    reads ss
  {
    && |vs| == |ss| == |es| && Distinct(ss)
    && forall i :: 0 <= i < |ss| ==> ChainAt(ss[i], NextOf(ss, i), es[i], vs[i])
  }

  ghost predicate ChainAt(s: GckEnumeratorState, next: GckEnumeratorState?, e: GckEnumerator, v: View)
    reads s
  {
    s.chained == next && s.enumerator == e && Runnable(s) && ViewOf(s) == v
  }

  // One state of the chain is run for `want` objects.
  method RunView(state: GckEnumeratorState, want: nat)
    requires Runnable(state) && want > 0
    modifies state
    ensures Runnable(state) && state.chained == old(state.chained) && state.enumerator == old(state.enumerator)
    ensures ViewOf(state) == Run(old(ViewOf(state)), want)
  {
    hide FetchAll, Seen, Unseen, GckEnumeratorState.Groups, GckEnumeratorState.Ready, GckEnumeratorState.Orderly;
    state.wantObjects := want;
    state.RunState();
  }

  // The other states are not touched.
  method RunOne(state: GckEnumeratorState, want: nat, ghost ss: seq<GckEnumeratorState>, ghost es: seq<GckEnumerator>, ghost vs: seq<View>, ghost i: nat)
    returns (ready: nat, next: GckEnumeratorState?)
    requires Chain(ss, es, vs) && i < |ss| && state == ss[i] && want > 0
    modifies state
    ensures Chain(ss, es, vs[i := Run(vs[i], want)])
    ensures ready == |Run(vs[i], want).ready| && next == NextOf(ss, i)
  {
    hide Run, ViewOf, Runnable;
    assert forall k :: 0 <= k < |ss| ==> ChainAt(ss[k], NextOf(ss, k), es[k], vs[k]);
    RunView(state, want);
    ready := ReadyCount(state);
    next := state.chained;
  }

  method ReadyCount(state: GckEnumeratorState) returns (n: nat)
    requires Runnable(state)
    ensures n == |ViewOf(state).ready|
  {
    n := if state.results.Some? then |state.results.value| else 0;
  }

  // perform_enumerate_next
  method PerformEnumerateNext(first: GckEnumeratorState, want: nat, ghost ss: seq<GckEnumeratorState>, ghost es: seq<GckEnumerator>, ghost vs: seq<View>)
    requires Chain(ss, es, vs) && ss != [] && first == ss[0] && want > 0
    modifies ss
    ensures Chain(ss, es, Performed(vs, want))
  {
    hide Performed, Run, Chain;
    ChainLengths(ss, es, vs);
    var count := 0;
    var state: GckEnumeratorState? := first;
    ghost var i, ws := 0, vs;
    assert vs[..0] + Performed(vs[0..], want) == Performed(vs, want) by {
      assert vs[0..] == vs;
    }
    while state != null
      invariant 0 <= i <= |ss| && |ws| == |vs| && Chain(ss, es, ws)
      invariant state == if i < |ss| then ss[i] else null
      invariant count < want
      invariant ws[..i] + Performed(ws[i..], want - count) == Performed(vs, want)
      decreases |ss| - i
    {
      var ready, next;
      PerformedMore(ws, i, want - count);
      ready, next := RunOne(state, want - count, ss, es, ws, i);
      ws := ws[i := Run(ws[i], want - count)];
      count := count + ready;
      if count >= want {
        return;
      }
      i := i + 1;
      state := next;
    }
    PerformedAll(ws, want - count);
  }

  lemma PerformedAll(ws: seq<View>, want: nat)
    ensures ws[..|ws|] + Performed(ws[|ws|..], want) == ws
  {
  }

  lemma ChainLengths(ss: seq<GckEnumeratorState>, es: seq<GckEnumerator>, vs: seq<View>)
    requires Chain(ss, es, vs)
    ensures |ss| == |es| == |vs|
  {
  }

  // Take the first result that is ready in this state, if there is one.
  method PopView(state: GckEnumeratorState) returns (r: Option<Result>)
    requires Runnable(state)
    modifies state
    ensures Runnable(state) && state.chained == old(state.chained) && state.enumerator == old(state.enumerator)
    ensures var was := old(ViewOf(state));
            && (was.ready == [] ==> r == None && ViewOf(state) == was)
            && (was.ready != [] ==> r == Some(was.ready[0]) && ViewOf(state) == was.(ready := was.ready[1..]))
  {
    if state.results == None || state.results.value == [] {
      return None;
    }
    r := Some(state.results.value[0]);
    state.results := Some(state.results.value[1..]);
  }

  method PopResult(state: GckEnumeratorState, ghost ss: seq<GckEnumeratorState>, ghost es: seq<GckEnumerator>, ghost vs: seq<View>, ghost i: nat)
    returns (r: Option<Result>, next: GckEnumeratorState?)
    requires Chain(ss, es, vs) && i < |ss| && state == ss[i]
    modifies state
    ensures next == NextOf(ss, i)
    ensures vs[i].ready == [] ==> r == None && Chain(ss, es, vs)
    ensures vs[i].ready != [] ==> r == Some(vs[i].ready[0]) && Chain(ss, es, Popped(vs, i))
  {
    hide ViewOf, Runnable;
    assert forall k :: 0 <= k < |ss| ==> ChainAt(ss[k], NextOf(ss, k), es[k], vs[k]);
    r := PopView(state);
    next := state.chained;
  }

  // extract_result
  method ExtractResult(state: GckEnumeratorState, ghost ss: seq<GckEnumeratorState>, ghost es: seq<GckEnumerator>, ghost vs: seq<View>, ghost i: nat)
    returns (r: Option<Result>, ghost j: nat)
    requires Chain(ss, es, vs) && i < |ss| && state == ss[i]
    modifies ss
    ensures i <= j <= |vs| && forall k :: i <= k < j ==> vs[k].ready == []
    ensures r == None ==> j == |vs| && Chain(ss, es, vs)
    ensures r.Some? ==> j < |vs| && vs[j].ready != [] && r.value == vs[j].ready[0] && Chain(ss, es, Popped(vs, j))
    decreases |ss| - i
  {
    hide Chain, Popped;
    ChainLengths(ss, es, vs);
    var next;
    r, next := PopResult(state, ss, es, vs, i);
    if r == None {
      if next != null {
        r, j := ExtractResult(next, ss, es, vs, i + 1);
      } else {
        j := |vs|;
      }
    } else {
      j := i;
    }
  }

  // extract_results
  method ExtractResults(state: GckEnumeratorState, want: nat, ghost ss: seq<GckEnumeratorState>, ghost es: seq<GckEnumerator>, ghost vs: seq<View>)
    returns (list: seq<Result>, left: nat)
    requires Chain(ss, es, vs) && ss != [] && state == ss[0]
    modifies ss
    ensures list == Extracted(vs, want).list && Chain(ss, es, Extracted(vs, want).views)
    ensures left + |list| == want
  {
    hide Extracted, Chain, Popped, Reverse;
    ghost var b := Extracted(vs, 0);
    var objects := [];
    var i := 0;
    ExtractedNone(vs);
    ReverseNone();
    while i < want
      invariant 0 <= i <= want && |b.list| == i && b == Extracted(vs, i) && Chain(ss, es, b.views)
      invariant objects == Reverse(b.list)
    {
      var r;
      ghost var j;
      r, j := ExtractResult(state, ss, es, b.views, 0);
      if r == None {
        ExtractedEnd(vs, i, want);
        break;
      }
      ExtractedMore(vs, i, j);
      ReverseSnoc(b.list, r.value);
      b := Extracted(vs, i + 1);
      objects := [r.value] + objects;
      i := i + 1;
    }
    left := want - i;
    list := Reverse(objects);
    ReverseTwice(b.list);
  }

  lemma ReverseNone()
    ensures Reverse<Result>([]) == []
  {
  }

  // What a checked-out chain does for gck_enumerator_next_n.
  method TakeBatch(state: GckEnumeratorState, want: nat, ghost ss: seq<GckEnumeratorState>, ghost es: seq<GckEnumerator>, ghost vs: seq<View>)
    returns (list: seq<Result>)
    requires Chain(ss, es, vs) && ss != [] && state == ss[0]
    modifies ss
    ensures list == Drawn(vs, want).list && Chain(ss, es, Drawn(vs, want).views)
  {
    hide Performed, Extracted, Chain;
    var left;
    list, left := ExtractResults(state, want, ss, es, vs);
    if left > 0 {
      ghost var v1 := Extracted(vs, want).views;
      PerformEnumerateNext(state, left, ss, es, v1);
      var more, rest := ExtractResults(state, left, ss, es, Performed(v1, left));
      list := list + more;
    }
  }

  // ... and for an asynchronous call.
  method TakeAsync(state: GckEnumeratorState, want: nat, ghost ss: seq<GckEnumeratorState>, ghost es: seq<GckEnumerator>, ghost vs: seq<View>)
    returns (list: seq<Result>)
    requires Chain(ss, es, vs) && ss != [] && state == ss[0] && want > 0
    modifies ss
    ensures list == DrawnAsync(vs, want).list && Chain(ss, es, DrawnAsync(vs, want).views)
  {
    hide Performed, Extracted, Chain;
    PerformEnumerateNext(state, want, ss, es, vs);
    var left;
    list, left := ExtractResults(state, want, ss, es, Performed(vs, want));
  }

  // extract_result from the head of the chain
  method ExtractOne(state: GckEnumeratorState, ghost ss: seq<GckEnumeratorState>, ghost es: seq<GckEnumerator>, ghost vs: seq<View>)
    returns (r: Option<Result>)
    requires Chain(ss, es, vs) && ss != [] && state == ss[0]
    modifies ss
    ensures AsList(r) == Extracted(vs, 1).list && Chain(ss, es, Extracted(vs, 1).views)
  {
    hide Chain, Extracted, Popped;
    ghost var j;
    ExtractedNone(vs);
    r, j := ExtractResult(state, ss, es, vs, 0);
    if r == None {
      ExtractedEnd(vs, 0, 1);
    } else {
      ExtractedMore(vs, 0, j);
    }
  }

  function AsList(r: Option<Result>): seq<Result> {
    if r.Some? then [r.value] else []
  }

  // ... and for gck_enumerator_next.
  method TakeSingle(state: GckEnumeratorState, ghost ss: seq<GckEnumeratorState>, ghost es: seq<GckEnumerator>, ghost vs: seq<View>)
    returns (result: Option<Result>)
    requires Chain(ss, es, vs) && ss != [] && state == ss[0]
    modifies ss
    ensures AsList(result) == Drawn(vs, 1).list && Chain(ss, es, Drawn(vs, 1).views)
  {
    hide Performed, Extracted, Chain;
    result := ExtractOne(state, ss, es, vs);
    if result == None {
      ghost var v1 := Extracted(vs, 1).views;
      PerformEnumerateNext(state, 1, ss, es, v1);
      result := ExtractOne(state, ss, es, Performed(v1, 1));
    }
  }

  /** An enumerator between calls holds its state; during a call the state is checked out. */
  class GckEnumerator {
    var theState: GckEnumeratorState?
    var chained: GckEnumerator?
    var attrTypes: Option<seq<nat>>
    // the attribute types the class of objects caches by default
    var defaultTypes: Option<seq<nat>>
  }

  ghost predicate Linked(es: seq<GckEnumerator>)
    reads es`chained
  {
    && (forall i, j :: 0 <= i < j < |es| ==> es[i] != es[j])
    && (forall i, j :: 0 <= i < |es| && j == i + 1 && j < |es| ==> es[i].chained == es[j])
    && (es != [] ==> es[|es| - 1].chained == null)
  }

  // The attribute types an enumerator asks for; a state keeps its own when there are none.
  function TypesOf(e: GckEnumerator, own: seq<nat>): seq<nat>
    reads e`attrTypes, e`defaultTypes
  {
    Asked(e.attrTypes, e.defaultTypes, own)
  }

  function Asked(attrTypes: Option<seq<nat>>, defaultTypes: Option<seq<nat>>, own: seq<nat>): seq<nat> {
    if attrTypes.Some? then attrTypes.value
    else if defaultTypes.Some? then defaultTypes.value
    else own
  }

  ghost predicate IdleAt(e: GckEnumerator, s: GckEnumeratorState)
    reads e`theState, s
  {
    e.theState == s && s.chained == null && s.enumerator == null && s.Orderly(s.handler)
  }

  ghost function IdleView(e: GckEnumerator, s: GckEnumeratorState): View
    requires IdleAt(e, s)
    reads e`theState, e`attrTypes, e`defaultTypes, s
  {
    View(s.Ready(), s.Groups(s.handler), TypesOf(e, s.attrTypes))
  }

  // Between calls: every enumerator holds its own state, and they are worth vs.
  ghost predicate Idle(es: seq<GckEnumerator>, ss: seq<GckEnumeratorState>, vs: seq<View>)
    reads es, ss
  {
    && Linked(es) && es != [] && |vs| == |ss| == |es| && Distinct(ss)
    && forall i :: 0 <= i < |es| ==> IdleAt(es[i], ss[i]) && IdleView(es[i], ss[i]) == vs[i]
  }

  // During a call: every enumerator waits for its state, which fetches what it asks for.
  ghost predicate Waiting(es: seq<GckEnumerator>, vs: seq<View>)
    reads es
  {
    && Linked(es) && |vs| == |es|
    && forall k :: 0 <= k < |es| ==> es[k].theState == null && vs[k].attrTypes == TypesOf(es[k], vs[k].attrTypes)
  }

  ghost predicate OutAt(e: GckEnumerator, s: GckEnumeratorState, next: GckEnumeratorState?, v: View)
    reads e, s
  {
    e.theState == null && ChainAt(s, next, e, v) && v.attrTypes == TypesOf(e, v.attrTypes)
  }

  method SetClass(state: GckEnumeratorState)
    requires state.Orderly(state.handler)
    modifies state`objectClass
    ensures state.objectClass && state.Orderly(state.handler)
    ensures state.Groups(state.handler) == old(state.Groups(state.handler))
  {
    hide FoundBy, InToken, SlotGroups, ModuleGroups, WithGroup;
    state.objectClass := true;
  }

  // The part of check_out_enumerator_state done under the enumerator's own lock.
  method TakeState(self: GckEnumerator, chainedState: GckEnumeratorState?) returns (state: GckEnumeratorState)
    requires self.theState != null && IdleAt(self, self.theState)
    modifies self`theState, self.theState
    ensures state == old(self.theState) && OutAt(self, state, chainedState, old(IdleView(self, self.theState)))
  {
    hide GckEnumeratorState.Groups, GckEnumeratorState.Shape, GckEnumeratorState.Ready, GckEnumeratorState.Found;
    state := self.theState;
    SetClass(state);
    self.theState := null;
    state.enumerator := self;
    assert state.chained == null;
    state.chained := chainedState;
    if self.attrTypes.Some? {
      state.attrTypes := self.attrTypes.value;
    } else if self.defaultTypes.Some? {
      state.attrTypes := self.defaultTypes.value;
    }
  }

  // check_out_enumerator_state
  method CheckOut(self: GckEnumerator, ghost es: seq<GckEnumerator>, ghost ss: seq<GckEnumeratorState>, ghost vs: seq<View>, ghost i: nat)
    returns (state: GckEnumeratorState)
    requires Linked(es) && |vs| == |ss| == |es| && Distinct(ss) && i < |es| && self == es[i]
    requires forall k :: i <= k < |es| ==> IdleAt(es[k], ss[k]) && IdleView(es[k], ss[k]) == vs[k]
    modifies es[i..]`theState, ss[i..]
    ensures state == ss[i]
    ensures forall k :: i <= k < |es| ==> OutAt(es[k], ss[k], NextOf(ss, k), vs[k])
    decreases |es| - i
  {
    hide IdleView, OutAt, TypesOf;
    var chainedState: GckEnumeratorState? := null;
    assert i + 1 < |es| ==> es[i].chained == es[i + 1];
    if self.chained != null {
      assert es[i..][1..] == es[i + 1..] && ss[i..][1..] == ss[i + 1..];
      chainedState := CheckOut(self.chained, es, ss, vs, i + 1);
    }
    state := TakeState(self, chainedState);
  }

  method PutState(state: GckEnumeratorState, ghost e: GckEnumerator, ghost next: GckEnumeratorState?, ghost v: View)
    returns (self: GckEnumerator, chained: GckEnumeratorState?)
    requires OutAt(e, state, next, v)
    modifies e`theState, state
    ensures self == e && chained == next && IdleAt(e, state) && IdleView(e, state) == v
  {
    hide GckEnumeratorState.Groups, GckEnumeratorState.Shape, GckEnumeratorState.Ready, GckEnumeratorState.Found;
    self := state.enumerator as GckEnumerator;
    state.enumerator := null;
    assert self.theState == null;
    self.theState := state;
    chained := state.chained;
    state.chained := null;
  }

  // check_in_enumerator_state
  method CheckIn(state: GckEnumeratorState, ghost es: seq<GckEnumerator>, ghost ss: seq<GckEnumeratorState>, ghost vs: seq<View>, ghost i: nat)
    requires Linked(es) && |vs| == |ss| == |es| && Distinct(ss) && i < |es| && state == ss[i]
    requires forall k :: i <= k < |es| ==> OutAt(es[k], ss[k], NextOf(ss, k), vs[k])
    modifies es[i..]`theState, ss[i..]
    ensures forall k :: i <= k < |es| ==> IdleAt(es[k], ss[k]) && IdleView(es[k], ss[k]) == vs[k]
    decreases |es| - i
  {
    hide IdleView, OutAt, TypesOf, IdleAt;
    var self, chained := PutState(state, es[i], NextOf(ss, i), vs[i]);
    if chained != null {
      assert es[i..][1..] == es[i + 1..] && ss[i..][1..] == ss[i + 1..];
      CheckIn(chained, es, ss, vs, i + 1);
    }
  }

  lemma OutWaiting(es: seq<GckEnumerator>, ss: seq<GckEnumeratorState>, vs: seq<View>)
    requires Linked(es) && |vs| == |ss| == |es| && Distinct(ss)
    requires forall k :: 0 <= k < |es| ==> OutAt(es[k], ss[k], NextOf(ss, k), vs[k])
    ensures Chain(ss, es, vs) && Waiting(es, vs)
  {
  }

  method Begin(self: GckEnumerator, ghost es: seq<GckEnumerator>, ghost ss: seq<GckEnumeratorState>, ghost vs: seq<View>)
    returns (state: GckEnumeratorState)
    requires Idle(es, ss, vs) && self == es[0]
    modifies es`theState, ss
    ensures ss != [] && state == ss[0] && Chain(ss, es, vs) && Waiting(es, vs)
  {
    hide IdleView, OutAt, Chain, Waiting;
    assert es[0..] == es && ss[0..] == ss;
    state := CheckOut(self, es, ss, vs, 0);
    OutWaiting(es, ss, vs);
  }

  method End(state: GckEnumeratorState, ghost es: seq<GckEnumerator>, ghost ss: seq<GckEnumeratorState>, ghost vs: seq<View>)
    requires Chain(ss, es, vs) && Waiting(es, vs) && ss != [] && state == ss[0]
    modifies es`theState, ss
    ensures Idle(es, ss, vs)
  {
    hide IdleView, OutAt, IdleAt, Chain, Waiting;
    assert es[0..] == es && ss[0..] == ss;
    WaitingOut(es, ss, vs);
    CheckIn(state, es, ss, vs, 0);
  }

  lemma WaitingOut(es: seq<GckEnumerator>, ss: seq<GckEnumeratorState>, vs: seq<View>)
    requires Chain(ss, es, vs) && Waiting(es, vs)
    ensures Linked(es) && |vs| == |ss| == |es| && Distinct(ss)
    ensures forall k :: 0 <= k < |es| ==> OutAt(es[k], ss[k], NextOf(ss, k), vs[k])
  {
  }

  lemma StillWaiting(es: seq<GckEnumerator>, vs: seq<View>, ws: seq<View>)
    requires Waiting(es, vs) && SameTypes(vs, ws)
    ensures Waiting(es, ws)
  {
  }

  // Whatever a call does, the states go back to enumerators that ask for the same.
  lemma GivenWaiting(es: seq<GckEnumerator>, vs: seq<View>, call: Call)
    requires Waiting(es, vs)
    ensures Waiting(es, Given(vs, call).views)
  {
    hide Given, Waiting, AllRemaining, Steps;
    CallKeeps(vs, call);
    StillWaiting(es, vs, Given(vs, call).views);
  }

  lemma AllSourced(vs: seq<View>, call: Call)
    ensures forall r :: r in Given(vs, call).list ==> Sourced(vs, r)
  {
    forall r | r in Given(vs, call).list ensures Sourced(vs, r) {
      CallSourced(vs, call, r);
    }
  }

  // gck_enumerator_next_n
  method NextN(self: GckEnumerator, maxObjects: int, ghost es: seq<GckEnumerator>, ghost ss: seq<GckEnumeratorState>, ghost vs: seq<View>)
    returns (list: seq<Result>)
    requires Idle(es, ss, vs) && self == es[0] && (maxObjects == -1 || maxObjects > 0)
    modifies es, ss
    ensures var b := Given(vs, CallNextN(maxObjects)); list == b.list && Idle(es, ss, b.views)
    ensures forall r :: r in list ==> Sourced(vs, r)
  {
    hide Waiting, Drawn, Chain, Idle, Sourced;
    FirstIdle(es, ss, vs);
    GivenIs(vs, CallNextN(maxObjects));
    var state := Begin(self, es, ss, vs);
    list := TakeBatch(state, Wanted(maxObjects), ss, es, vs);
    GivenWaiting(es, vs, CallNextN(maxObjects));
    End(state, es, ss, Given(vs, CallNextN(maxObjects)).views);
    AllSourced(vs, CallNextN(maxObjects));
  }

  lemma GivenIs(vs: seq<View>, call: Call)
    ensures Given(vs, call) == if call.CallNextAsync? then DrawnAsync(vs, Wants(call)) else Drawn(vs, Wants(call))
  {
  }

  lemma FirstIdle(es: seq<GckEnumerator>, ss: seq<GckEnumeratorState>, vs: seq<View>)
    requires Idle(es, ss, vs)
    ensures es != [] && |es| == |ss| == |vs|
  {
  }

  // gck_enumerator_next: at most one object, or none at the end
  method Next(self: GckEnumerator, ghost es: seq<GckEnumerator>, ghost ss: seq<GckEnumeratorState>, ghost vs: seq<View>)
    returns (result: Option<Result>)
    requires Idle(es, ss, vs) && self == es[0]
    modifies es, ss
    ensures var b := Given(vs, CallNext); AsList(result) == b.list && Idle(es, ss, b.views)
    ensures result.Some? ==> Sourced(vs, result.value)
  {
    hide Waiting, Drawn, Chain, Idle, Sourced;
    FirstIdle(es, ss, vs);
    var state := Begin(self, es, ss, vs);
    result := TakeSingle(state, ss, es, vs);
    GivenWaiting(es, vs, CallNext);
    End(state, es, ss, Given(vs, CallNext).views);
    AllSourced(vs, CallNext);
    assert result.Some? ==> result.value in AsList(result);
  }

  // gck_enumerator_next_async followed by gck_enumerator_next_finish
  method NextAsync(self: GckEnumerator, maxObjects: int, ghost es: seq<GckEnumerator>, ghost ss: seq<GckEnumeratorState>, ghost vs: seq<View>)
    returns (list: seq<Result>)
    requires Idle(es, ss, vs) && self == es[0] && (maxObjects == -1 || maxObjects > 0)
    modifies es, ss
    ensures var b := Given(vs, CallNextAsync(maxObjects)); list == b.list && Idle(es, ss, b.views)
    ensures forall r :: r in list ==> Sourced(vs, r)
  {
    hide Waiting, DrawnAsync, Chain, Idle, Sourced;
    FirstIdle(es, ss, vs);
    var state := Begin(self, es, ss, vs);
    list := TakeAsync(state, Wanted(maxObjects), ss, es, vs);
    GivenWaiting(es, vs, CallNextAsync(maxObjects));
    End(state, es, ss, Given(vs, CallNextAsync(maxObjects)).views);
    AllSourced(vs, CallNextAsync(maxObjects));
  }

  // What any call gives.
  method Make(self: GckEnumerator, call: Call, ghost es: seq<GckEnumerator>, ghost ss: seq<GckEnumeratorState>, ghost vs: seq<View>)
    returns (list: seq<Result>)
    requires Idle(es, ss, vs) && self == es[0] && Allowed(call)
    modifies es, ss
    ensures list == Given(vs, call).list && Idle(es, ss, Given(vs, call).views)
  {
    hide Given, Idle;
    match call {
      case CallNext =>
        var r := Next(self, es, ss, vs);
        list := AsList(r);
      case CallNextN(maxObjects) =>
        list := NextN(self, maxObjects, es, ss, vs);
      case CallNextAsync(maxObjects) =>
        list := NextAsync(self, maxObjects, es, ss, vs);
    }
  }

  lemma GivenNext(vs: seq<View>, calls: seq<Call>, k: nat)
    requires k < |calls|
    ensures calls[..k + 1] == calls[..k] + [calls[k]]
    ensures var b := GivenAll(vs, calls[..k]);
            var c := Given(b.views, calls[k]);
            GivenAll(vs, calls[..k + 1]) == Batch(b.list + c.list, c.views)
  {
    hide Given;
    assert calls[..k + 1][..k] == calls[..k];
  }

  /** Any sequence of calls with any batch sizes gives exactly `GivenAll`. When no attribute
      fetch fails these are the objects to come, in order, each once, as many as were asked
      for or there are. Whatever fails, they come in order if and only if `RunKeepsOrder`, as
      it always is with a lone enumerator; every object is handed out once, and all of them
      are if there are enough calls. */
  method Enumerate(self: GckEnumerator, calls: seq<Call>, ghost es: seq<GckEnumerator>, ghost ss: seq<GckEnumeratorState>, ghost vs: seq<View>)
    returns (all: seq<Result>)
    requires Idle(es, ss, vs) && self == es[0]
    requires forall k :: 0 <= k < |calls| ==> Allowed(calls[k])
    modifies es, ss
    ensures all == GivenAll(vs, calls).list && Idle(es, ss, GivenAll(vs, calls).views)
    ensures Ordered(vs) && AllFetchable(vs) ==> all == AllRemaining(vs)[..Min(Total(calls), |AllRemaining(vs)|)]
    ensures Ordered(vs) && NoneTwice(AllRemaining(vs)) ==> (all <= AllRemaining(vs) <==> RunKeepsOrder(vs, calls))
    ensures |vs| == 1 ==> AllRemaining(vs) == all + AllRemaining(GivenAll(vs, calls).views)
    ensures multiset(AllRemaining(vs)) == multiset(all) + multiset(AllRemaining(GivenAll(vs, calls).views))
    ensures |calls| >= Steps(vs) ==> AllRemaining(GivenAll(vs, calls).views) == []
    ensures forall r :: r in all ==> Sourced(vs, r)
  {
    hide Idle, GivenAll, Given, Ordered, AllFetchable, AllRemaining, RunKeepsOrder, Steps, NoneTwice, Sourced;
    all := [];
    GivenNone(vs);
    for k := 0 to |calls|
      invariant all == GivenAll(vs, calls[..k]).list && Idle(es, ss, GivenAll(vs, calls[..k]).views)
    {
      GivenNext(vs, calls, k);
      var list := Make(self, calls[k], es, ss, GivenAll(vs, calls[..k]).views);
      all := all + list;
    }
    assert calls[..|calls|] == calls;
    RunKeepsAll(vs, calls);
    AllInOrder(vs, calls);
    forall r | r in all ensures Sourced(vs, r) {
      RunSourced(vs, calls, r);
    }
  }

  lemma GivenNone(vs: seq<View>)
    ensures GivenAll(vs, []) == Batch([], vs)
  {
  }

  lemma AllInOrder(vs: seq<View>, calls: seq<Call>)
    ensures var all := GivenAll(vs, calls).list;
            && (Ordered(vs) && AllFetchable(vs) ==> all == AllRemaining(vs)[..Min(Total(calls), |AllRemaining(vs)|)])
            && (Ordered(vs) && NoneTwice(AllRemaining(vs)) ==> (all <= AllRemaining(vs) <==> RunKeepsOrder(vs, calls)))
            && (|vs| == 1 ==> AllRemaining(vs) == all + AllRemaining(GivenAll(vs, calls).views))
  {
    hide GivenAll, Ordered, AllFetchable, AllRemaining, RunKeepsOrder, NoneTwice;
    if |vs| == 1 {
      RunAlone(vs, calls);
    }
    if Ordered(vs) {
      RunInOrder(vs, calls);
      if AllFetchable(vs) {
        RunGivesAll(vs, calls);
      }
    }
  }

  // _gck_enumerator_new_for_modules
  method NewForModules(modules: seq<Module>, options: SessionOptions, uri: UriData) returns (self: GckEnumerator, ghost s: GckEnumeratorState)
    ensures fresh(self) && fresh(s) && s.attrTypes == []
    ensures Idle([self], [s], [View([], ModuleGroups(modules, uri, options), [])])
  {
    hide Idle, FoundBy, SlotGroups, ModuleGroups, InToken;
    self := new GckEnumerator;
    var state := new GckEnumeratorState(options, uri, InModulesState);
    state.modules := modules;
    self.theState, self.chained, self.attrTypes, self.defaultTypes := state, null, None, None;
    s := state;
    NoGroups(uri, state.options);
    assert IdleView(self, s) == View([], ModuleGroups(modules, uri, options), []);
    IdleOne(self, s);
  }

  lemma IdleOne(e: GckEnumerator, s: GckEnumeratorState)
    requires IdleAt(e, s) && e.chained == null
    ensures Idle([e], [s], [IdleView(e, s)])
  {
    hide IdleAt, IdleView;
  }

  // _gck_enumerator_new_for_slots
  method NewForSlots(slots: seq<Slot>, options: SessionOptions, uri: UriData) returns (self: GckEnumerator, ghost s: GckEnumeratorState)
    ensures fresh(self) && fresh(s) && s.attrTypes == []
    ensures Idle([self], [s], [View([], SlotGroups(slots, uri, options), [])])
  {
    hide Idle, FoundBy, SlotGroups, ModuleGroups, InToken;
    self := new GckEnumerator;
    var state := new GckEnumeratorState(options, uri, InSlotsState);
    state.slots := slots;
    self.theState, self.chained, self.attrTypes, self.defaultTypes := state, null, None, None;
    s := state;
    NoGroups(uri, state.options);
    assert IdleView(self, s) == View([], SlotGroups(slots, uri, options), []);
    IdleOne(self, s);
  }

  // The assertions of state_session.
  ghost predicate SessionAsserts(s: GckEnumeratorState)
    reads s
  {
    s.funcs && s.session.Some? && s.tokenInfo.Some?
  }

  // _gck_enumerator_new_for_session: the enumerator can run, and be cleaned up, exactly
  // when the token can be described; otherwise the first handler fails an assertion, in
  // whichever direction it is run
  method NewForSession(session: Session, loggedIn: bool, uri: UriData) returns (self: GckEnumerator, ghost s: GckEnumeratorState)
    ensures fresh(self) && fresh(s) && self.theState == s && s.handler == InSessionState && s.attrTypes == []
    ensures s.Shape(InSessionState) <==> session.slot.token.Some?
    ensures SessionAsserts(s) <==> session.slot.token.Some?
    ensures session.slot.token.Some? ==> Idle([self], [s], [View([], WithGroup(FoundBy(session, loggedIn), []), [])])
  {
    hide Idle, FoundBy, WithGroup, GckEnumeratorState.Groups, SlotGroups, ModuleGroups, InToken;
    self := new GckEnumerator;
    var state := new GckEnumeratorState(SessionOptions(false, false), uri, InSessionState);
    state.session, state.loggedIn := Some(session), loggedIn;
    state.slot, state.tokenInfo, state.funcs := Some(session.slot), session.slot.token, true;
    self.theState, self.chained, self.attrTypes, self.defaultTypes := state, null, None, None;
    s := state;
    if session.slot.token.Some? {
      SessionIdle(self, s, session, loggedIn);
    }
  }

  lemma SessionIdle(self: GckEnumerator, s: GckEnumeratorState, session: Session, loggedIn: bool)
    requires self.theState == s && self.chained == null && self.attrTypes == None && self.defaultTypes == None
    requires s.chained == null && s.enumerator == null && s.handler == InSessionState && s.Shape(InSessionState)
    requires s.session == Some(session) && s.loggedIn == loggedIn && !s.options.loginUser && s.attrTypes == []
    requires s.found == None && s.results == None && s.slots == [] && s.modules == []
    ensures Idle([self], [s], [View([], WithGroup(FoundBy(session, loggedIn), []), [])])
  {
    hide Idle, FoundBy, WithGroup;
    NoGroups(s.uri, s.options);
    assert [] + FoundBy(session, loggedIn) == FoundBy(session, loggedIn);
    assert IdleView(self, s) == View([], WithGroup(FoundBy(session, loggedIn), []), []);
    IdleOne(self, s);
  }

  // The enumerator at the front is put in front of another chain.
  lemma Rechained(self: GckEnumerator, s: GckEnumeratorState, v: View, es: seq<GckEnumerator>, ss: seq<GckEnumeratorState>, vs: seq<View>)
    requires IdleAt(self, s) && IdleView(self, s) == v && Idle(es, ss, vs) && self.chained == es[0] && self !in es && s !in ss
    ensures Idle([self] + es, [s] + ss, [v] + vs)
  {
    hide IdleView;
    var es', ss', vs' := [self] + es, [s] + ss, [v] + vs;
    forall i | 0 <= i < |es'| ensures IdleAt(es'[i], ss'[i]) && IdleView(es'[i], ss'[i]) == vs'[i] {
      if i > 0 {
        assert es'[i] == es[i - 1] && ss'[i] == ss[i - 1] && vs'[i] == vs[i - 1];
      }
    }
  }

  lemma FirstOfIdle(self: GckEnumerator, s: GckEnumeratorState, v: View, es: seq<GckEnumerator>, ss: seq<GckEnumeratorState>, vs: seq<View>)
    requires Idle([self] + es, [s] + ss, [v] + vs)
    ensures IdleAt(self, s) && IdleView(self, s) == v && |es| == |ss| == |vs| && self !in es
    ensures es != [] ==> Idle(es, ss, vs)
  {
    hide IdleView, IdleAt, Linked, Distinct;
    var es', ss', vs' := [self] + es, [s] + ss, [v] + vs;
    assert IdleAt(es'[0], ss'[0]) && IdleView(es'[0], ss'[0]) == vs'[0];
    LinkedTail(self, es);
    DistinctTail(s, ss);
    forall i | 0 <= i < |es| ensures IdleAt(es[i], ss[i]) && IdleView(es[i], ss[i]) == vs[i] {
      assert es[i] == es'[i + 1] && ss[i] == ss'[i + 1] && vs[i] == vs'[i + 1];
    }
  }

  lemma LinkedTail(self: GckEnumerator, es: seq<GckEnumerator>)
    requires Linked([self] + es)
    ensures Linked(es) && self !in es
  {
    var es' := [self] + es;
    assert forall i :: 0 <= i < |es| ==> es[i] == es'[i + 1] && es'[0] != es'[i + 1];
  }

  lemma DistinctTail<T>(x: T, s: seq<T>)
    requires Distinct([x] + s)
    ensures Distinct(s)
  {
    assert forall i :: 0 <= i < |s| ==> s[i] == ([x] + s)[i + 1];
  }

  lemma ChainAdds(v: View, vs: seq<View>)
    ensures v.ready == [] && Ordered(vs) && NothingReady(vs) ==> Ordered([v] + vs)
    ensures AllRemaining([v] + vs) == v.ready + Left(v) + AllRemaining(vs)
  {
    hide Left;
    var vs' := [v] + vs;
    assert vs'[1..] == vs;
  }

  // gck_enumerator_set_chained: the chain es0 that was there is dropped, and the chain es, or
  // none, comes after the enumerator; the dropped chain can be run on its own.
  method SetChained(self: GckEnumerator, chained: GckEnumerator?, ghost s: GckEnumeratorState, ghost v: View,
                    ghost es0: seq<GckEnumerator>, ghost ss0: seq<GckEnumeratorState>, ghost vs0: seq<View>,
                    ghost es: seq<GckEnumerator>, ghost ss: seq<GckEnumeratorState>, ghost vs: seq<View>)
    requires Idle([self] + es0, [s] + ss0, [v] + vs0)
    requires if chained == null then es == [] && ss == [] && vs == [] else Idle(es, ss, vs) && chained == es[0]
    requires self !in es && s !in ss
    modifies self`chained
    ensures Idle([self] + es, [s] + ss, [v] + vs)
    ensures es0 != [] ==> Idle(es0, ss0, vs0)
    ensures v.ready == [] && Ordered(vs) && NothingReady(vs) ==> Ordered([v] + vs)
    ensures AllRemaining([v] + vs) == v.ready + Left(v) + AllRemaining(vs)
  {
    hide Idle, IdleView, Left, AllRemaining, Ordered;
    FirstOfIdle(self, s, v, es0, ss0, vs0);
    self.chained := chained;
    ChainAdds(v, vs);
    if chained == null {
      IdleOne(self, s);
      assert [self] + es == [self] && [s] + ss == [s] && [v] + vs == [v];
    } else {
      Rechained(self, s, v, es, ss, vs);
    }
  }

  // An empty list of types is copied as none.
  function Copied(attrTypes: Option<seq<nat>>): Option<seq<nat>> {
    if attrTypes == Some([]) then None else attrTypes
  }

  // gck_enumerator_set_object_type_full: from the next call on the enumerator asks for the
  // types given, or for those its class caches; with neither its state keeps the ones it had.
  method SetObjectType(self: GckEnumerator, defaultTypes: Option<seq<nat>>, attrTypes: Option<seq<nat>>,
                       ghost es: seq<GckEnumerator>, ghost ss: seq<GckEnumeratorState>, ghost vs: seq<View>, ghost i: nat)
    requires Idle(es, ss, vs) && i < |es| && self == es[i]
    modifies self`attrTypes, self`defaultTypes
    ensures Idle(es, ss, vs[i := vs[i].(attrTypes := Asked(Copied(attrTypes), defaultTypes, ss[i].attrTypes))])
  {
    hide GckEnumeratorState.Groups, GckEnumeratorState.Orderly, GckEnumeratorState.Ready, Asked;
    assert forall k :: 0 <= k < |es| && k != i ==> es[k] != self;
    self.defaultTypes := defaultTypes;
    self.attrTypes := Copied(attrTypes);
  }

  lemma {:induction false} FetchNothing(rs: seq<Result>)
    ensures FetchAll(rs, []) == rs && Fetchable(rs, [])
  {
    if rs != [] {
      FetchNothing(rs[1..]);
      assert rs == [rs[0]] + rs[1..];
    }
  }

  lemma TwoViews(gs: seq<seq<Result>>, hs: seq<seq<Result>>)
    ensures var vs := [View([], gs, [])] + [View([], hs, [])];
            Ordered(vs) && AllFetchable(vs) && NothingReady(vs) && AllRemaining(vs) == Flat(gs) + Flat(hs)
  {
    hide FetchAll, Fetchable, Flat, AllRemaining;
    var v, w := View([], gs, []), View([], hs, []);
    FetchNothing(Flat(gs));
    FetchNothing(Flat(hs));
    NoViews();
    HeadOf(w, []);
    HeadOf(v, [w]);
    assert [w] + [] == [w] && [v] + [w] == [v, w];
  }

  /** Two enumerators over modules, one chained to the other: any sequence of calls gives
      the objects of all matching tokens of the first, then those of the second. */
  method EnumerateTwo(first: seq<Module>, second: seq<Module>, options: SessionOptions, uri: UriData, calls: seq<Call>)
    returns (all: seq<Result>)
    requires forall k :: 0 <= k < |calls| ==> Allowed(calls[k])
    ensures var objects := InModules(first, uri, options) + InModules(second, uri, options);
            all == objects[..Min(Total(calls), |objects|)]
  {
    hide Idle, InModules, ModuleGroups, Flat, Ordered, AllFetchable, AllRemaining, NothingReady, Total, GivenAll, RunKeepsOrder, Steps;
    ghost var gs, hs := ModuleGroups(first, uri, options), ModuleGroups(second, uri, options);
    ghost var v, w := View([], gs, []), View([], hs, []);
    ModuleGroupsAll(first, uri, options);
    ModuleGroupsAll(second, uri, options);
    var e, s := NewForModules(first, options, uri);
    var f, t := NewForModules(second, options, uri);
    assert [e] + [] == [e] && [s] + [] == [s] && [v] + [] == [v];
    SetChained(e, f, s, v, [], [], [], [f], [t], [w]);
    TwoViews(gs, hs);
    all := Enumerate(e, calls, [e] + [f], [s] + [t], [v] + [w]);
  }

  // An object of some slot of the modules, with the attributes asked for.
  ghost predicate AskedFor(r: Result, modules: seq<Module>, uri: UriData, options: SessionOptions, attrTypes: seq<nat>) {
    && Attributed(r, attrTypes)
    && exists m, k :: 0 <= m < |modules| && 0 <= k < |modules[m].slots| && ObjectOf(r, modules[m].slots[k], uri, options)
  }

  /** One enumerator over modules that asks for attributes: whatever fails, the results are
      objects of the modules in order, without those that refuse, each with the attributes
      asked for, and with enough calls they are all there. */
  method EnumerateModules(modules: seq<Module>, options: SessionOptions, uri: UriData, attrTypes: seq<nat>, calls: seq<Call>)
    returns (all: seq<Result>)
    requires forall k :: 0 <= k < |calls| ==> Allowed(calls[k])
    ensures exists whole ::
              && FetchedFrom(InModules(modules, uri, options), attrTypes, whole) && all <= whole
              && (|calls| >= 2 * |InModules(modules, uri, options)| ==> all == whole)
    ensures forall r :: r in all ==> AskedFor(r, modules, uri, options, attrTypes)
  {
    hide Idle, InModules, ModuleGroups, Flat, Ordered, AllFetchable, AllRemaining, Total, GivenAll, RunKeepsOrder, Steps, Sourced, FetchedFrom, AskedFor;
    var e, s := NewForModules(modules, options, uri);
    ghost var gs := ModuleGroups(modules, uri, options);
    SetObjectType(e, None, Some(attrTypes), [e], [s], [View([], gs, [])], 0);
    ghost var vs := [View([], gs, attrTypes)];
    assert [View([], gs, [])][0 := vs[0]] == vs;
    all := Enumerate(e, calls, [e], [s], vs);
    OneView(modules, uri, options, attrTypes, vs);
    assert FetchedFrom(InModules(modules, uri, options), attrTypes, AllRemaining(vs));
    assert AllRemaining(GivenAll(vs, calls).views) == [] ==> all + [] == all;
    forall r | r in all ensures AskedFor(r, modules, uri, options, attrTypes) {
      SourcedWanted(modules, uri, options, attrTypes, vs, r);
    }
  }

  lemma OneView(modules: seq<Module>, uri: UriData, options: SessionOptions, attrTypes: seq<nat>, vs: seq<View>)
    requires vs == [View([], ModuleGroups(modules, uri, options), attrTypes)]
    ensures FetchedFrom(InModules(modules, uri, options), attrTypes, AllRemaining(vs))
    ensures Steps(vs) == 2 * |InModules(modules, uri, options)|
  {
    hide InModules, ModuleGroups, Flat, FetchAll, FetchedFrom;
    var objects := InModules(modules, uri, options);
    ModuleGroupsAll(modules, uri, options);
    NoViews();
    HeadOf(vs[0], []);
    assert [vs[0]] + [] == vs;
    forall i | 0 <= i < |objects| ensures objects[i].attrs == None {
      InModulesIff(modules, uri, options, objects[i]);
    }
    FetchAllFrom(objects, attrTypes);
    assert [] + Left(vs[0]) + [] == Left(vs[0]);
  }

  lemma SourcedWanted(modules: seq<Module>, uri: UriData, options: SessionOptions, attrTypes: seq<nat>, vs: seq<View>, r: Result)
    requires vs == [View([], ModuleGroups(modules, uri, options), attrTypes)] && Sourced(vs, r)
    ensures AskedFor(r, modules, uri, options, attrTypes)
  {
    hide InModules, ModuleGroups, Flat, Attributed;
    ModuleGroupsAll(modules, uri, options);
    assert SourcedIn(vs[0], r);
    var p :| p in Flat(vs[0].groups) && if attrTypes == [] then r == p else SameObject(r, p) && Attributed(r, attrTypes);
    InModulesIff(modules, uri, options, p);
    NothingAsked(r);
    var m, k :| 0 <= m < |modules| && 0 <= k < |modules[m].slots| && ObjectOf(p, modules[m].slots[k], uri, options);
    SameOrigin(r, p, modules[m].slots[k], uri, options);
  }

  lemma NothingAsked(r: Result)
    ensures r.attrs == None ==> Attributed(r, [])
  {
  }

  lemma SameOrigin(r: Result, p: Result, slot: Slot, uri: UriData, options: SessionOptions)
    requires SameObject(r, p) && ObjectOf(p, slot, uri, options)
    ensures ObjectOf(r, slot, uri, options)
  {
  }

  // A token with the objects `handles`, of which all but the first give their attributes.
  function ExampleSlot(handles: seq<nat>): Slot {
    Slot(0, Some(TokenInfo(None, None, None, None)), map[false := 1], true,
         Answers([Objects(handles)]), Answers([Objects(handles)]), map[2 := map[], 3 := map[], 4 := map[]])
  }

  function ExampleResult(handle: nat, handles: seq<nat>): Result {
    Result(handle, Session(ExampleSlot(handles), 1), None)
  }

  function ExampleResults(handles: seq<nat>): seq<Result> {
    seq(|handles|, i requires 0 <= i < |handles| => ExampleResult(handles[i], handles))
  }

  lemma ExampleGroups(handles: seq<nat>, slots: seq<Slot>)
    requires handles != []
    ensures SlotGroups([ExampleSlot(handles)] + slots, UriData(false, None), SessionOptions(false, false))
            == [ExampleResults(handles)] + SlotGroups(slots, UriData(false, None), SessionOptions(false, false))
  {
    var slot := ExampleSlot(handles);
    assert ([slot] + slots)[1..] == slots;
    assert [Objects(handles)][1..] == [] && handles + [] == handles;
    assert Collected([Objects(handles)]) == handles;
    assert InToken(slot, SessionOptions(false, false)) == AsResults(handles, Session(slot, 1));
    assert AsResults(handles, Session(slot, 1)) == ExampleResults(handles);
  }

  function ExampleModules(spread: bool): seq<Module> {
    [Module(if spread then [ExampleSlot([1]), ExampleSlot([2, 4])] else [ExampleSlot([1, 2, 4])])]
  }

  lemma OneModule(slots: seq<Slot>, uri: UriData, options: SessionOptions)
    ensures ModuleGroups([Module(slots)], uri, options) == SlotGroups(slots, uri, options)
  {
    hide SlotGroups;
    assert [Module(slots)][1..] == [];
  }

  lemma ExampleModulesGroups(spread: bool)
    ensures ModuleGroups(ExampleModules(spread), UriData(false, None), SessionOptions(false, false))
            == if spread then [[ExampleResult(1, [1])], [ExampleResult(2, [2, 4]), ExampleResult(4, [2, 4])]]
               else [[ExampleResult(1, [1, 2, 4]), ExampleResult(2, [1, 2, 4]), ExampleResult(4, [1, 2, 4])]]
    ensures ModuleGroups([Module([ExampleSlot([3])])], UriData(false, None), SessionOptions(false, false)) == [[ExampleResult(3, [3])]]
  {
    hide ExampleSlot, SlotGroups, ModuleGroups;
    var uri, options := UriData(false, None), SessionOptions(false, false);
    NoGroups(uri, options);
    OneModule(ExampleModules(spread)[0].slots, uri, options);
    OneModule([ExampleSlot([3])], uri, options);
    assert [ExampleSlot([3])] + [] == [ExampleSlot([3])];
    ExampleGroups([3], []);
    assert ExampleResults([3]) == [ExampleResult(3, [3])];
    if spread {
      assert [ExampleSlot([1])] + [ExampleSlot([2, 4])] == [ExampleSlot([1]), ExampleSlot([2, 4])];
      assert [ExampleSlot([2, 4])] + [] == [ExampleSlot([2, 4])];
      ExampleGroups([1], [ExampleSlot([2, 4])]);
      ExampleGroups([2, 4], []);
      assert ExampleResults([1]) == [ExampleResult(1, [1])];
      assert ExampleResults([2, 4]) == [ExampleResult(2, [2, 4]), ExampleResult(4, [2, 4])];
    } else {
      assert [ExampleSlot([1, 2, 4])] + [] == [ExampleSlot([1, 2, 4])];
      ExampleGroups([1, 2, 4], []);
      assert ExampleResults([1, 2, 4]) == [ExampleResult(1, [1, 2, 4]), ExampleResult(2, [1, 2, 4]), ExampleResult(4, [1, 2, 4])];
    }
  }

  function HandlesOf(rs: seq<Result>): seq<nat> {
    seq(|rs|, i requires 0 <= i < |rs| => rs[i].handle)
  }

  /** Two enumerators over modules, one chained to the other, that ask for an attribute the
      object 1 does not give. With the objects 1, 2 and 4 in one token a batch of two is 2
      and the object 3 of the second enumerator, and 4 comes too late; with the object 1 in a
      token of its own the batches are in order. */
  method OvertakenRun(spread: bool) returns (first: seq<Result>, second: seq<Result>)
    ensures HandlesOf(first) == if spread then [2, 4] else [2, 3]
    ensures HandlesOf(second) == if spread then [3] else [4]
  {
    hide Idle, ModuleGroups, ExampleSlot, ExampleModules, Given, AllRemaining, Ordered, NothingReady;
    var uri, options := UriData(false, None), SessionOptions(false, false);
    ghost var gs, hs := ModuleGroups(ExampleModules(spread), uri, options), ModuleGroups([Module([ExampleSlot([3])])], uri, options);
    ghost var v, w := View([], gs, [0]), View([], hs, [0]);
    var e, s := NewForModules(ExampleModules(spread), options, uri);
    var f, t := NewForModules([Module([ExampleSlot([3])])], options, uri);
    SetObjectType(e, None, Some([0]), [e], [s], [View([], gs, [])], 0);
    SetObjectType(f, None, Some([0]), [f], [t], [View([], hs, [])], 0);
    assert [View([], gs, [])][0 := v] == [v] == [v] + [] && [View([], hs, [])][0 := w] == [w];
    assert [e] + [] == [e] && [s] + [] == [s];
    SetChained(e, f, s, v, [], [], [], [f], [t], [w]);
    ghost var vs := [v] + [w];
    first := NextN(e, 2, [e] + [f], [s] + [t], vs);
    second := NextN(e, 2, [e] + [f], [s] + [t], Given(vs, CallNextN(2)).views);
    ExampleBatches(spread, v, w);
  }

  lemma ExampleBatches(spread: bool, v: View, w: View)
    requires v == View([], ModuleGroups(ExampleModules(spread), UriData(false, None), SessionOptions(false, false)), [0])
    requires w == View([], ModuleGroups([Module([ExampleSlot([3])])], UriData(false, None), SessionOptions(false, false)), [0])
    ensures var b := Given([v] + [w], CallNextN(2));
            && HandlesOf(b.list) == (if spread then [2, 4] else [2, 3])
            && HandlesOf(Given(b.views, CallNextN(2)).list) == (if spread then [3] else [4])
  {
    hide ModuleGroups, ExampleModules, Given, AllRemaining, Ordered, CallKeepsOrder;
    var bad := ExampleResult(1, if spread then [1] else [1, 2, 4]);
    var good := ExampleResult(2, if spread then [2, 4] else [1, 2, 4]);
    var late := ExampleResult(4, if spread then [2, 4] else [1, 2, 4]);
    var other := ExampleResult(3, [3]);
    ExampleModulesGroups(spread);
    assert [v] + [w] == ExampleChain(bad, good, late, other, [0], spread);
    OvertakenExample(bad, good, late, other, [0], spread);
  }
}
