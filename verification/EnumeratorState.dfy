// The six-state machine that walks modules, slots, sessions and searches. Every
// state can be run forward, towards more results, or backward, to unwind it.
module EnumeratorState {
  import opened Wrappers
  import opened EnumeratorModel

  datatype Handler = InModulesState | InSlotsState | InSlotState | InSessionState | InFindState | InResultsState

  // How far a state is from the start state.
  function Rank(h: Handler): nat {
    match h
    case InSlotState => 5
    case InSessionState => 4
    case InFindState => 3
    case InResultsState => 2
    case InSlotsState => 1
    case InModulesState => 0
  }

  // The order in which states unwind.
  function Depth(h: Handler): nat {
    match h
    case InModulesState => 0
    case InSlotsState => 1
    case InSlotState => 2
    case InSessionState => 3
    case InFindState => 4
    case InResultsState => 5
  }

  // One object more has been looked at.
  lemma FetchUpTo(found: seq<Result>, count: nat, attrTypes: seq<nat>, ready: seq<Result>)
    requires count <= |found|
    ensures found[0..] == found && ready + FetchAll(found[..0], attrTypes) == ready
    ensures count < |found| ==>
              && ready + FetchAll(found[..count + 1], attrTypes)
                 == ready + FetchAll(found[..count], attrTypes) + FetchAll([found[count]], attrTypes)
              && found[count..][1..] == found[count + 1..] && found[count..][0] == found[count]
  {
    if count < |found| {
      assert found[..count + 1] == found[..count] + [found[count]];
      FetchAllAppend(found[..count], [found[count]], attrTypes);
    }
  }

  // What the first slot has comes before what the others have.
  lemma FirstSlot(found: seq<Result>, slots: seq<Slot>, uri: UriData, options: SessionOptions, later: seq<seq<Result>>)
    requires slots != [] && found == []
    ensures WithGroup(found + [], SlotGroups(slots, uri, options) + later) ==
              WithGroup(found + (if TokenMatches(uri, slots[0].token) then InToken(slots[0], options) else []),
                        SlotGroups(slots[1..], uri, options) + later)
  {
    hide InToken, TokenMatches;
    var first := if TokenMatches(uri, slots[0].token) then InToken(slots[0], options) else [];
    var rest := SlotGroups(slots[1..], uri, options);
    assert found + first == first && found + [] == [];
    assert [first] + rest + later == [first] + (rest + later);
  }

  lemma NoGroups(uri: UriData, options: SessionOptions)
    ensures SlotGroups([], uri, options) == [] && ModuleGroups([], uri, options) == []
    ensures forall gs: seq<seq<Result>> :: [] + gs == gs && gs + [] == gs
  {
  }

  // A batch out of the first group.
  lemma FirstGroup(f: seq<Result>, gs: seq<seq<Result>>, want: nat)
    requires want > 0
    ensures var all := WithGroup(f, gs);
            if |f| >= want then Seen(all, want) == f[..want] && Unseen(all, want) == WithGroup(f[want..], gs)
            else Seen(all, want) == f + Seen(gs, want) && Unseen(all, want) == Unseen(gs, want)
  {
    if f != [] {
      assert ([f] + gs)[1..] == gs;
    } else {
      assert f + Seen(gs, want) == Seen(gs, want);
    }
  }

  class GckEnumeratorState {
    var enumerator: object?
    var chained: GckEnumeratorState?
    var wantObjects: int
    var handler: Handler
    var uri: UriData
    var options: SessionOptions
    var objectClass: bool
    var attrTypes: seq<nat>

    var modules: seq<Module>
    var slots: seq<Slot>
    var slot: Option<Slot>
    var tokenInfo: Option<TokenInfo>
    var funcs: bool
    var session: Option<Session>
    var loggedIn: bool
    var found: Option<seq<Result>>
    var results: Option<seq<Result>>

    constructor (options: SessionOptions, uri: UriData, handler: Handler)
      ensures enumerator == null && chained == null && this.handler == handler
      ensures this.options == options && this.uri == uri && attrTypes == []
      ensures modules == [] && slots == [] && slot == None && tokenInfo == None && !funcs
      ensures session == None && found == None && results == None
    {
      enumerator, chained, wantObjects, this.handler := null, null, 0, handler;
      this.options, this.uri, objectClass, attrTypes := options, uri, false, [];
      modules, slots, slot, tokenInfo, funcs := [], [], None, None, false;
      session, loggedIn, found, results := None, false, None, None;
    }

    // Which per-slot fields are set in state h.
    ghost predicate Shape(h: Handler)
      reads this`slots, this`slot, this`tokenInfo, this`funcs, this`session, this`found, this`objectClass
    {
      && (h.InModulesState? ==> slots == [])
      && (Depth(h) >= 2 <==> slot.Some?)
      && (slot.Some? <==> tokenInfo.Some?) && (slot.Some? <==> funcs)
      && (Depth(h) >= 3 <==> session.Some?)
      && (session.Some? ==> slot == Some(session.value.slot))
      && (h.InResultsState? ==> found.Some? && objectClass)
    }

    // Only the results state leaves found objects to be looked at.
    ghost predicate Orderly(h: Handler)
      reads this`slots, this`slot, this`tokenInfo, this`funcs, this`session, this`found, this`objectClass
    {
      Shape(h) && (!h.InResultsState? ==> Found() == [])
    }

    ghost function Found(): seq<Result>
      reads this`found
    {
      if found.Some? then found.value else []
    }

    ghost function Ready(): seq<Result>
      reads this`results
    {
      if results.Some? then results.value else []
    }

    // What the search of the current slot will still yield.
    ghost function Current(h: Handler): seq<Result>
      requires Shape(h)
      reads this`slots, this`slot, this`tokenInfo, this`funcs, this`session, this`found, this`objectClass, this`options, this`loggedIn
    {
      match h
      case InSlotState => InToken(slot.value, options)
      case InSessionState => FoundBy(session.value, loggedIn || (options.loginUser && slot.value.loginOk))
      case InFindState => FoundBy(session.value, loggedIn)
      case _ => []
    }

    // Everything not yet looked at by the results state, by token.
    ghost function Groups(h: Handler): seq<seq<Result>>
      requires Shape(h)
      reads this`slots, this`slot, this`tokenInfo, this`funcs, this`session, this`found, this`objectClass, this`options, this`loggedIn, this`modules, this`uri
    {
      WithGroup(Found() + Current(h), SlotGroups(slots, uri, options) + ModuleGroups(modules, uri, options))
    }

    method StateModules(forward: bool) returns (next: Option<Handler>)
      requires Shape(InModulesState) && forward
      modifies this`modules, this`slots
      ensures next == None ==> modules == old(modules) == [] && slots == old(slots)
      ensures next.Some? ==> next.value == InSlotsState && |modules| < |old(modules)| && Shape(next.value)
      ensures next.Some? ==> Groups(next.value) == old(Groups(InModulesState))
    {
      hide FoundBy, InToken, SlotGroups, TokenMatches;
      assert slots == [];
      NoGroups(uri, options);
      if modules == [] {
        return None;
      }
      var current := modules[0];
      modules := modules[1..];
      slots := current.slots;
      return Some(InSlotsState);
    }

    method StateSlots(forward: bool) returns (next: Option<Handler>)
      requires Shape(InSlotsState) && handler == InSlotsState
      modifies this`handler, this`slots, this`slot, this`tokenInfo, this`funcs, this`session, this`loggedIn
      modifies this`found, this`results
      ensures next.Some? && Shape(next.value) && found == old(found) && results == old(results)
      ensures !forward ==> next.value == InModulesState && handler == old(handler)
      ensures forward && Found() == [] ==> Groups(next.value) == old(Groups(InSlotsState))
      ensures forward ==> if old(slots) == [] then next.value == InModulesState
                          else |slots| < |old(slots)| && (next.value == InSlotsState || next.value == InSlotState)
      decreases forward, 2 * Depth(InSlotsState)
    {
      hide InToken, ModuleGroups, TokenInfoMatches, SlotGroups;
      assert slot == None;
      NoGroups(uri, options);
      if forward {
        if slots == [] {
          RewindState(InModulesState);
          return Some(InModulesState);
        }
        if Found() == [] {
          FirstSlot(Found(), slots, uri, options, ModuleGroups(modules, uri, options));
        }
        var current := slots[0];
        slots := slots[1..];
        var token := current.token;
        if token == None {
          return Some(InSlotsState);
        }
        var matched;
        if uri.anyUnrecognized {
          matched := false;
        } else if uri.tokenInfo.Some? {
          matched := TokenInfoMatches(uri.tokenInfo.value, token.value);
        } else {
          matched := true;
        }
        if !matched {
          return Some(InSlotsState);
        }
        funcs := true;
        slot := Some(current);
        tokenInfo := token;
        return Some(InSlotState);
      } else {
        slots := [];
        return Some(InModulesState);
      }
    }

    method StateSlot(forward: bool) returns (next: Option<Handler>)
      requires Shape(InSlotState) && handler == InSlotState
      modifies this`handler, this`slots, this`slot, this`tokenInfo, this`funcs, this`session, this`loggedIn
      modifies this`found, this`results
      ensures next.Some? && Shape(next.value) && slots == old(slots)
      ensures found == old(found) && results == old(results)
      ensures !forward ==> next.value == InSlotsState && handler == old(handler)
      ensures forward ==> Groups(next.value) == old(Groups(InSlotState))
      ensures forward ==> next.value == InSessionState || next.value == InSlotsState
      decreases forward, 2 * Depth(InSlotState)
    {
      assert slot.Some? && funcs && session == None;
      if forward {
        var flags := options.readWrite;
        if flags !in slot.value.open {
          RewindState(InSlotsState);
          return Some(InSlotsState);
        }
        session := Some(Session(slot.value, slot.value.open[flags]));
        loggedIn := false;
        return Some(InSessionState);
      } else {
        slot := None;
        funcs := false;
        tokenInfo := None;
        return Some(InSlotsState);
      }
    }

    method StateSession(forward: bool) returns (next: Option<Handler>)
      requires Shape(InSessionState)
      modifies this`session, this`loggedIn
      ensures next.Some? && Shape(next.value)
      ensures !forward ==> next.value == InSlotState && session == None && loggedIn == old(loggedIn)
      ensures forward ==> next.value == InFindState && Groups(next.value) == old(Groups(InSessionState))
      ensures forward ==> session == old(session) && loggedIn == (old(loggedIn) || (options.loginUser && slot.value.loginOk))
    {
      assert funcs && session.Some? && tokenInfo.Some?;
      if forward {
        if !options.loginUser {
          return Some(InFindState);
        }
        // The enumeration goes on even when authentication fails.
        loggedIn := loggedIn || slot.value.loginOk;
        return Some(InFindState);
      } else {
        session := None;
        return Some(InSlotState);
      }
    }

    method StateFind(forward: bool) returns (next: Option<Handler>)
      requires Shape(InFindState) && (forward ==> wantObjects > 0 && objectClass)
      modifies this`found
      ensures next.Some?
      ensures !forward ==> next.value == InSessionState && found == old(found)
      ensures forward ==> next.value == InResultsState && Shape(next.value)
      ensures forward ==> Groups(next.value) == old(Groups(InFindState))
    {
      hide SlotGroups, ModuleGroups, InToken, Collected, AsResults;
      if !forward {
        return Some(InSessionState);
      }
      assert session.Some? && wantObjects > 0 && funcs;
      if found == None {
        found := Some([]);
      }
      var search := SearchOf(session.value.slot, loggedIn);
      if search.Answers? {
        Gather(search.answers);
      }
      assert Found() + [] == Found() == old(Found()) + FoundBy(session.value, loggedIn);
      return Some(InResultsState);
    }

    // Queue what the calls to C_FindObjects yield, until one fails or yields nothing.
    method Gather(all: seq<FindAnswer>)
      requires found.Some? && session.Some?
      modifies this`found
      ensures found.Some? && found.value == old(found.value) + AsResults(Collected(all), session.value)
    {
      var answers := all;
      while answers != [] && answers[0].Objects? && answers[0].handles != []
        invariant found.Some?
        invariant found.value + AsResults(Collected(answers), session.value)
                  == old(found.value) + AsResults(Collected(all), session.value)
        decreases |answers|
      {
        AsResultsAppend(answers[0].handles, Collected(answers[1..]), session.value);
        PushTail(answers[0].handles);
        answers := answers[1..];
      }
    }

    method PushTail(handles: seq<nat>)
      requires found.Some? && session.Some?
      modifies this`found
      ensures found.Some? && found.value == old(found.value) + AsResults(handles, session.value)
    {
      for i := 0 to |handles|
        invariant found.Some? && found.value == old(found.value) + AsResults(handles[..i], session.value)
      {
        assert handles[..i + 1] == handles[..i] + [handles[i]];
        AsResultsAppend(handles[..i], [handles[i]], session.value);
        found := Some(found.value + [Result(handles[i], session.value, None)]);
      }
      assert handles[..|handles|] == handles;
    }

    lemma AsResultsAppend(h: seq<nat>, k: seq<nat>, s: Session)
      ensures AsResults(h + k, s) == AsResults(h, s) + AsResults(k, s)
    {
    }

    // Move one object from `found` to `results`, fetching its attributes on the way.
    method TakeOne()
      requires found.Some? && found.value != [] && results.Some?
      modifies this`found, this`results
      ensures found.Some? && found.value == old(found.value)[1..]
      ensures results.Some? && results.value == old(results.value) + FetchAll([old(found.value)[0]], attrTypes)
    {
      var result := found.value[0];
      found := Some(found.value[1..]);
      FetchOne(result, attrTypes);
      if attrTypes == [] {
        results := Some(results.value + [result]);
        return;
      }
      var fetched := Fetch(result, attrTypes);
      if fetched.Some? {
        results := Some(results.value + [fetched.value]);
      }
    }

    // Fill `results` from `found`. An object whose attributes cannot be had still
    // counts towards the batch. When `found` runs out, the next slot is wanted.
    method StateResults(forward: bool) returns (next: Option<Handler>)
      requires Shape(InResultsState) && handler == InResultsState && (forward ==> wantObjects >= 0)
      modifies this`handler, this`slots, this`slot, this`tokenInfo, this`funcs, this`session, this`loggedIn
      modifies this`found, this`results
      ensures !forward ==> next == Some(InFindState) && Shape(InFindState) && handler == old(handler)
      ensures !forward ==> found == old(found) && results == old(results) && slots == old(slots)
      ensures forward ==> next == None || next == Some(InSlotsState)
      ensures forward ==> slots == old(slots) && Orderly(if next.Some? then InSlotsState else InResultsState)
      ensures forward && next == None ==>
                && handler == old(handler)
                && 0 <= wantObjects <= |old(Found())| && Found() == old(Found())[wantObjects..]
                && Ready() == old(Ready()) + FetchAll(old(Found())[..wantObjects], attrTypes)
      ensures forward && next.Some? ==>
                && |old(Found())| < wantObjects && Found() == []
                && Ready() == old(Ready()) + FetchAll(old(Found()), attrTypes)
      decreases forward, 2 * Depth(InResultsState)
    {
      hide FetchAll, FoundBy, SlotGroups, ModuleGroups, InToken;
      assert funcs && objectClass && found.Some?;
      if !forward {
        return Some(InFindState);
      }
      if results == None {
        results := Some([]);
      }
      var count := 0;
      FetchUpTo(Found(), 0, attrTypes, Ready());
      while count < wantObjects
        invariant results.Some? && found.Some? && handler == InResultsState && Shape(InResultsState)
        invariant slots == old(slots)
        invariant 0 <= count <= |old(Found())| && (count <= wantObjects || count == 0)
        invariant found.value == old(Found())[count..]
        invariant results.value == old(Ready()) + FetchAll(old(Found())[..count], attrTypes)
        decreases wantObjects - count
      {
        if found.value == [] {
          RewindState(InSlotsState);
          assert old(Found())[..count] == old(Found());
          return Some(InSlotsState);
        }
        FetchUpTo(old(Found()), count, attrTypes, old(Ready()));
        TakeOne();
        count := count + 1;
      }
      return None;
    }

    method RewindState(target: Handler)
      requires Shape(handler) && Depth(target) <= Depth(handler)
      modifies this`handler, this`slots, this`slot, this`tokenInfo, this`funcs, this`session, this`loggedIn
      modifies this`found, this`results
      ensures handler == target && Shape(target) && found == old(found) && results == old(results)
      ensures target != InModulesState ==> slots == old(slots)
      decreases false, 2 * Depth(handler) + 2
    {
      while handler != target
        invariant Shape(handler) && Depth(target) <= Depth(handler) <= old(Depth(handler))
        invariant target != InModulesState ==> slots == old(slots)
        invariant found == old(found) && results == old(results)
        decreases Depth(handler)
      {
        var next := StepBack();
        handler := next;
      }
    }

    // (args->handler) (args, FALSE)
    method StepBack() returns (next: Handler)
      requires Shape(handler) && handler != InModulesState
      modifies this`handler, this`slots, this`slot, this`tokenInfo, this`funcs, this`session, this`loggedIn
      modifies this`found, this`results
      ensures Shape(next) && Depth(next) == Depth(handler) - 1 && handler == old(handler)
      ensures handler != InSlotsState ==> slots == old(slots)
      ensures found == old(found) && results == old(results)
      decreases false, 2 * Depth(handler) + 1
    {
      var r: Option<Handler>;
      match handler {
        case InSlotsState => r := StateSlots(false);
        case InSlotState => r := StateSlot(false);
        case InSessionState => r := StateSession(false);
        case InFindState => r := StateFind(false);
        case InResultsState => r := StateResults(false);
      }
      next := r.value;
    }

    // One round of the loop in perform_enumerate_next: (state->handler) (state, TRUE). It may
    // look at objects, which count towards the batch.
    method StepForward() returns (next: Option<Handler>, ghost looked: seq<Result>)
      requires Orderly(handler) && wantObjects > 0 && objectClass
      modifies this`handler, this`modules, this`slots, this`slot, this`tokenInfo, this`funcs, this`session, this`loggedIn
      modifies this`found, this`results
      ensures Orderly(After(next)) && (next == None ==> handler == old(handler))
      ensures Ready() == old(Ready()) + FetchAll(looked, attrTypes)
      ensures next == None ==>
                && Seen(old(Groups(handler)), wantObjects) == looked
                && Unseen(old(Groups(handler)), wantObjects) == Groups(handler)
      ensures next.Some? ==>
                && Seen(old(Groups(handler)), wantObjects) == looked + Seen(Groups(next.value), wantObjects)
                && Unseen(old(Groups(handler)), wantObjects) == Unseen(Groups(next.value), wantObjects)
      ensures next.Some? ==>
                || |modules| < |old(modules)|
                || (|modules| == |old(modules)| && |slots| < |old(slots)|)
                || (|modules| == |old(modules)| && |slots| == |old(slots)| && Rank(next.value) < Rank(old(handler)))
    {
      hide Groups, Shape, FetchAll, Seen, Unseen;
      looked := [];
      FetchNone();
      match handler {
        case InModulesState =>
          NothingInModules();
          next := StateModules(true);
        case InSlotsState =>
          next := StateSlots(true);
          MeasureFacts(next.value);
        case InSlotState => next := StateSlot(true);
        case InSessionState => next := StateSession(true);
        case InFindState => next := StateFind(true);
        case InResultsState => next, looked := ResultsRound();
      }
    }

    lemma MeasureFacts(h: Handler)
      requires Shape(h)
      ensures h == InModulesState ==> slots == []
    {
    }

    method ResultsRound() returns (next: Option<Handler>, ghost looked: seq<Result>)
      requires Orderly(InResultsState) && handler == InResultsState && wantObjects > 0
      modifies this`handler, this`slots, this`slot, this`tokenInfo, this`funcs, this`session, this`loggedIn
      modifies this`found, this`results
      ensures Orderly(After(next)) && (next == None ==> handler == old(handler))
      ensures next == None || next == Some(InSlotsState)
      ensures slots == old(slots)
      ensures Ready() == old(Ready()) + FetchAll(looked, attrTypes)
      ensures next == None ==>
                && Seen(old(Groups(handler)), wantObjects) == looked
                && Unseen(old(Groups(handler)), wantObjects) == Groups(handler)
      ensures next.Some? ==>
                && Seen(old(Groups(handler)), wantObjects) == looked + Seen(Groups(next.value), wantObjects)
                && Unseen(old(Groups(handler)), wantObjects) == Unseen(Groups(next.value), wantObjects)
    {
      hide SlotGroups, ModuleGroups, InToken, FoundBy, FetchAll, Seen, Unseen;
      ghost var f, later := Found(), SlotGroups(slots, uri, options) + ModuleGroups(modules, uri, options);
      FirstGroup(f, later, wantObjects);
      assert f + [] == f;
      next := StateResults(true);
      assert Found() + [] == Found();
      looked := if next.Some? then f else f[..wantObjects];
    }

    ghost function After(next: Option<Handler>): Handler
      reads this`handler
    {
      if next.Some? then next.value else handler
    }

    lemma NothingInModules()
      requires Orderly(InModulesState) && wantObjects > 0
      ensures modules == [] ==>
                && Groups(InModulesState) == []
                && Seen([], wantObjects) == [] && Unseen([], wantObjects) == []
    {
    }

    // The inner loop of perform_enumerate_next: run until there is no next state.
    method RunState()
      requires Orderly(handler) && wantObjects > 0 && objectClass
      modifies this`handler, this`modules, this`slots, this`slot, this`tokenInfo, this`funcs, this`session, this`loggedIn
      modifies this`found, this`results
      ensures Orderly(handler)
      ensures Ready() == old(Ready()) + FetchAll(Seen(old(Groups(handler)), wantObjects), attrTypes)
      ensures Groups(handler) == Unseen(old(Groups(handler)), wantObjects)
    {
      hide Groups, Ready, FetchAll, Shape, Seen, Unseen;
      ghost var all, looked := Groups(handler), [];
      FetchNone();
      while true
        invariant Orderly(handler)
        invariant Ready() == old(Ready()) + FetchAll(looked, attrTypes)
        invariant Seen(all, wantObjects) == looked + Seen(Groups(handler), wantObjects)
        invariant Unseen(all, wantObjects) == Unseen(Groups(handler), wantObjects)
        decreases |modules|, |slots|, Rank(handler)
      {
        var next;
        ghost var more;
        next, more := StepForward();
        FetchAllAppend(looked, more, attrTypes);
        looked := looked + more;
        if next == None {
          return;
        }
        handler := next.value;
      }
    }

    lemma FetchNone()
      ensures FetchAll([], attrTypes) == []
    {
    }

    // cleanup_state: unwind to the start state and drop every per-slot field and queue.
    method CleanupState()
      requires Shape(handler)
      modifies this`handler, this`modules, this`slots, this`slot, this`tokenInfo, this`funcs, this`session, this`loggedIn
      modifies this`found, this`results, this`objectClass
      ensures handler == InModulesState && modules == [] && slots == [] && slot == None && tokenInfo == None && !funcs
      ensures session == None && found == None && results == None && !objectClass
      ensures Orderly(handler) && Ready() == [] && Groups(handler) == []
    {
      RewindState(InModulesState);
      assert slots == [] && slot == None && tokenInfo == None && !funcs && session == None;
      found := None;
      results := None;
      modules := [];
      objectClass := false;
    }
  }
}
