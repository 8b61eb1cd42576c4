// What an enumerator looks through: PKCS#11 modules as fixed answers, and the
// objects a complete enumeration is expected to yield.
module EnumeratorModel {
  import opened Wrappers

  // PKCS#11 hands out non-zero session handles.
  type SessionHandle = x: nat | x > 0 witness 1

  datatype TokenInfo = TokenInfo(name: Option<string>, manufacturerId: Option<string>, model: Option<string>, serialNumber: Option<string>)

  datatype UriData = UriData(anyUnrecognized: bool, tokenInfo: Option<TokenInfo>)

  datatype SessionOptions = SessionOptions(readWrite: bool, loginUser: bool)

  /** One answer of C_FindObjects: some handles (none of them ends the search) or an error. */
  datatype FindAnswer = Objects(handles: seq<nat>) | FindFailed

  /** How C_FindObjectsInit and the calls after it answer. */
  datatype Search = InitFailed | Answers(answers: seq<FindAnswer>)

  /** A slot, and how its module answers about it. `open` is keyed by whether a
      read-write session was asked for; objects missing from `attributes` refuse
      C_GetAttributeValue. */
  datatype Slot = Slot(
    id: nat,
    token: Option<TokenInfo>,
    open: map<bool, SessionHandle>,
    loginOk: bool,
    publicSearch: Search,
    userSearch: Search,
    attributes: map<nat, map<nat, seq<byte>>>)

  datatype Module = Module(slots: seq<Slot>)

  datatype Session = Session(slot: Slot, handle: SessionHandle)

  datatype Result = Result(handle: nat, session: Session, attrs: Option<seq<Option<seq<byte>>>>)

  predicate InfoStringMatches(pattern: Option<string>, value: Option<string>) {
    pattern == None || (value.Some? && pattern.value == value.value)
  }

  predicate TokenInfoMatches(pattern: TokenInfo, info: TokenInfo) {
    && InfoStringMatches(pattern.name, info.name)
    && InfoStringMatches(pattern.manufacturerId, info.manufacturerId)
    && InfoStringMatches(pattern.model, info.model)
    && InfoStringMatches(pattern.serialNumber, info.serialNumber)
  }

  predicate TokenMatches(uri: UriData, token: Option<TokenInfo>) {
    && token.Some?
    && !uri.anyUnrecognized
    && (uri.tokenInfo.Some? ==> TokenInfoMatches(uri.tokenInfo.value, token.value))
  }

  // The handles a search yields before it ends or fails.
  function Collected(answers: seq<FindAnswer>): seq<nat> {
    if answers == [] || answers[0].FindFailed? || answers[0].handles == [] then []
    else answers[0].handles + Collected(answers[1..])
  }

  function SearchOf(slot: Slot, loggedIn: bool): Search {
    if loggedIn then slot.userSearch else slot.publicSearch
  }

  function AsResults(handles: seq<nat>, session: Session): seq<Result> {
    seq(|handles|, i requires 0 <= i < |handles| => Result(handles[i], session, None))
  }

  function FoundBy(session: Session, loggedIn: bool): seq<Result> {
    match SearchOf(session.slot, loggedIn)
    case InitFailed => []
    case Answers(answers) => AsResults(Collected(answers), session)
  }

  // Everything a slot with a matching token has to offer.
  function InToken(slot: Slot, options: SessionOptions): seq<Result> {
    if options.readWrite in slot.open
    then FoundBy(Session(slot, slot.open[options.readWrite]), options.loginUser && slot.loginOk)
    else []
  }

  function InSlots(slots: seq<Slot>, uri: UriData, options: SessionOptions): seq<Result> {
    if slots == [] then []
    else (if TokenMatches(uri, slots[0].token) then InToken(slots[0], options) else []) + InSlots(slots[1..], uri, options)
  }

  function InModules(modules: seq<Module>, uri: UriData, options: SessionOptions): seq<Result> {
    if modules == [] then []
    else InSlots(modules[0].slots, uri, options) + InModules(modules[1..], uri, options)
  }

  // Objects come in groups, one for each token that has any: a batch is cut within a group.
  function WithGroup(g: seq<Result>, gs: seq<seq<Result>>): seq<seq<Result>> {
    if g == [] then gs else [g] + gs
  }

  function SlotGroups(slots: seq<Slot>, uri: UriData, options: SessionOptions): seq<seq<Result>> {
    if slots == [] then []
    else WithGroup(if TokenMatches(uri, slots[0].token) then InToken(slots[0], options) else [], SlotGroups(slots[1..], uri, options))
  }

  function ModuleGroups(modules: seq<Module>, uri: UriData, options: SessionOptions): seq<seq<Result>> {
    if modules == [] then []
    else SlotGroups(modules[0].slots, uri, options) + ModuleGroups(modules[1..], uri, options)
  }

  function Flat(gs: seq<seq<Result>>): seq<Result> {
    if gs == [] then [] else gs[0] + Flat(gs[1..])
  }

  lemma FlatHead(g: seq<Result>, gs: seq<seq<Result>>)
    ensures Flat([g] + gs) == g + Flat(gs) && Flat([]) == []
  {
    assert ([g] + gs)[1..] == gs;
  }

  lemma {:induction false} FlatAppend(gs: seq<seq<Result>>, hs: seq<seq<Result>>)
    ensures Flat(gs + hs) == Flat(gs) + Flat(hs)
  {
    hide Flat;
    if gs == [] {
      FlatHead([], []);
      assert gs + hs == hs && [] + Flat(hs) == Flat(hs);
    } else {
      FlatAppend(gs[1..], hs);
      FlatHead(gs[0], gs[1..]);
      FlatHead(gs[0], gs[1..] + hs);
      assert gs == [gs[0]] + gs[1..] && gs + hs == [gs[0]] + (gs[1..] + hs);
    }
  }

  lemma FlatGroup(g: seq<Result>, gs: seq<seq<Result>>)
    ensures Flat(WithGroup(g, gs)) == g + Flat(gs)
  {
    FlatHead(g, gs);
  }

  // The groups are the objects of every slot with a matching token, in order.
  lemma {:induction false} SlotGroupsAll(slots: seq<Slot>, uri: UriData, options: SessionOptions)
    ensures Flat(SlotGroups(slots, uri, options)) == InSlots(slots, uri, options)
  {
    hide TokenMatches, InToken;
    if slots != [] {
      SlotGroupsAll(slots[1..], uri, options);
      FlatGroup(if TokenMatches(uri, slots[0].token) then InToken(slots[0], options) else [], SlotGroups(slots[1..], uri, options));
    }
  }

  lemma {:induction false} ModuleGroupsAll(modules: seq<Module>, uri: UriData, options: SessionOptions)
    ensures Flat(ModuleGroups(modules, uri, options)) == InModules(modules, uri, options)
  {
    if modules != [] {
      ModuleGroupsAll(modules[1..], uri, options);
      SlotGroupsAll(modules[0].slots, uri, options);
      FlatAppend(SlotGroups(modules[0].slots, uri, options), ModuleGroups(modules[1..], uri, options));
    }
  }

  // What is looked at when `want` objects are wanted: whole groups, up to the first that has
  // as many as are wanted, and of that one just as many.
  function Seen(gs: seq<seq<Result>>, want: nat): seq<Result> {
    if gs == [] then []
    else if |gs[0]| >= want then gs[0][..want]
    else gs[0] + Seen(gs[1..], want)
  }

  // The groups that leaves.
  function Unseen(gs: seq<seq<Result>>, want: nat): seq<seq<Result>> {
    if gs == [] then []
    else if |gs[0]| >= want then WithGroup(gs[0][want..], gs[1..])
    else Unseen(gs[1..], want)
  }

  lemma {:induction false} SeenUnseen(gs: seq<seq<Result>>, want: nat)
    ensures Flat(gs) == Seen(gs, want) + Flat(Unseen(gs, want))
    ensures Unseen(gs, want) == [] || |Seen(gs, want)| >= want
    ensures want == 1 ==> Seen(gs, want) == Flat(gs)[..if Flat(gs) == [] then 0 else 1]
    ensures want > 0 && Flat(gs) != [] ==> Seen(gs, want) != []
  {
    if gs != [] {
      if |gs[0]| >= want {
        FlatGroup(gs[0][want..], gs[1..]);
        assert gs[0] == gs[0][..want] + gs[0][want..];
      } else {
        SeenUnseen(gs[1..], want);
      }
    }
  }

  // The object as it is handed out: with the attributes asked for, if any were.
  function Fetch(r: Result, attrTypes: seq<nat>): Option<Result> {
    if attrTypes == [] then Some(r)
    else if r.handle !in r.session.slot.attributes then None
    else Some(r.(attrs := Some(Values(r.session.slot.attributes[r.handle], attrTypes))))
  }

  function Values(have: map<nat, seq<byte>>, attrTypes: seq<nat>): seq<Option<seq<byte>>> {
    seq(|attrTypes|, i requires 0 <= i < |attrTypes| => if attrTypes[i] in have then Some(have[attrTypes[i]]) else None)
  }

  // Objects whose attributes cannot be had are passed over.
  function FetchAll(rs: seq<Result>, attrTypes: seq<nat>): seq<Result> {
    if rs == [] then []
    else (match Fetch(rs[0], attrTypes) case Some(r) => [r] case None => []) + FetchAll(rs[1..], attrTypes)
  }

  ghost predicate Fetchable(rs: seq<Result>, attrTypes: seq<nat>) {
    forall i :: 0 <= i < |rs| ==> Fetch(rs[i], attrTypes).Some?
  }

  lemma {:induction false} FetchAllAppend(rs: seq<Result>, ts: seq<Result>, attrTypes: seq<nat>)
    ensures FetchAll(rs + ts, attrTypes) == FetchAll(rs, attrTypes) + FetchAll(ts, attrTypes)
  {
    if rs == [] {
      assert rs + ts == ts;
    } else {
      var one := match Fetch(rs[0], attrTypes) case Some(r) => [r] case None => [];
      FetchAllAppend(rs[1..], ts, attrTypes);
      assert (rs + ts)[1..] == rs[1..] + ts && (rs + ts)[0] == rs[0];
      assert FetchAll(rs + ts, attrTypes) == one + FetchAll((rs + ts)[1..], attrTypes);
      assert FetchAll(rs, attrTypes) == one + FetchAll(rs[1..], attrTypes);
    }
  }

  lemma {:induction false} FetchableAll(rs: seq<Result>, attrTypes: seq<nat>)
    requires Fetchable(rs, attrTypes)
    ensures |FetchAll(rs, attrTypes)| == |rs|
  {
    if rs != [] {
      FetchableAll(rs[1..], attrTypes);
    }
  }

  lemma FetchOne(r: Result, attrTypes: seq<nat>)
    ensures FetchAll([r], attrTypes) == match Fetch(r, attrTypes) case Some(x) => [x] case None => []
  {
    assert [r][1..] == [];
  }

  // ------------------------------------------- which objects there are, and in what order

  // The handle is among those the search yields before it ends or fails.
  predicate Finds(search: Search, handle: nat) {
    search.Answers? &&
    exists a :: 0 <= a < |search.answers| && FoundIn(search.answers, a, handle)
  }

  predicate FoundIn(answers: seq<FindAnswer>, a: nat, handle: nat)
    requires a < |answers|
  {
    && (forall k :: 0 <= k <= a ==> answers[k].Objects? && answers[k].handles != [])
    && handle in answers[a].handles
  }

  // Every field that is given is that of the token.
  predicate Describes(pattern: TokenInfo, token: TokenInfo) {
    && (pattern.name.Some? ==> token.name == pattern.name)
    && (pattern.manufacturerId.Some? ==> token.manufacturerId == pattern.manufacturerId)
    && (pattern.model.Some? ==> token.model == pattern.model)
    && (pattern.serialNumber.Some? ==> token.serialNumber == pattern.serialNumber)
  }

  // An object of a slot: its token is the one asked for, the session was opened as asked for,
  // and the search is that of the user exactly if a login was asked for and succeeded.
  predicate ObjectOf(r: Result, slot: Slot, uri: UriData, options: SessionOptions) {
    && slot.token.Some? && !uri.anyUnrecognized && (uri.tokenInfo.Some? ==> Describes(uri.tokenInfo.value, slot.token.value))
    && options.readWrite in slot.open && r.session == Session(slot, slot.open[options.readWrite])
    && Finds(if options.loginUser && slot.loginOk then slot.userSearch else slot.publicSearch, r.handle)
  }

  lemma {:induction false} CollectedIff(answers: seq<FindAnswer>, handle: nat)
    ensures handle in Collected(answers) <==> exists a :: 0 <= a < |answers| && FoundIn(answers, a, handle)
  {
    if answers != [] && answers[0].Objects? && answers[0].handles != [] {
      CollectedIff(answers[1..], handle);
      if handle in answers[0].handles {
        assert FoundIn(answers, 0, handle);
      }
      if a :| 0 <= a < |answers| - 1 && FoundIn(answers[1..], a, handle) {
        assert FoundIn(answers, a + 1, handle) by {
          assert forall k :: 1 <= k <= a + 1 ==> answers[k] == answers[1..][k - 1];
        }
      }
      if a :| 0 < a < |answers| && FoundIn(answers, a, handle) {
        assert FoundIn(answers[1..], a - 1, handle);
      }
    }
  }

  lemma InTokenIff(slot: Slot, uri: UriData, options: SessionOptions, r: Result)
    ensures TokenMatches(uri, slot.token) && r in InToken(slot, options) <==> ObjectOf(r, slot, uri, options) && r.attrs == None
  {
    hide Collected, FoundIn;
    if options.readWrite in slot.open {
      var session := Session(slot, slot.open[options.readWrite]);
      var search := if options.loginUser && slot.loginOk then slot.userSearch else slot.publicSearch;
      if search.Answers? {
        var handles := Collected(search.answers);
        CollectedIff(search.answers, r.handle);
        var rs := AsResults(handles, session);
        assert FoundBy(session, options.loginUser && slot.loginOk) == rs;
        if r.session == session && r.attrs == None && r.handle in handles {
          var i :| 0 <= i < |handles| && handles[i] == r.handle;
          assert rs[i] == r;
        }
      }
    }
  }

  lemma {:induction false} InSlotsIff(slots: seq<Slot>, uri: UriData, options: SessionOptions, r: Result)
    ensures r in InSlots(slots, uri, options) <==>
              r.attrs == None && exists k :: 0 <= k < |slots| && ObjectOf(r, slots[k], uri, options)
  {
    hide TokenMatches, InToken, ObjectOf;
    if slots != [] {
      InTokenIff(slots[0], uri, options, r);
      InSlotsIff(slots[1..], uri, options, r);
      assert forall k :: 0 < k < |slots| ==> slots[k] == slots[1..][k - 1];
    }
  }

  /** The objects of some modules are exactly those of their slots. */
  lemma {:induction false} InModulesIff(modules: seq<Module>, uri: UriData, options: SessionOptions, r: Result)
    ensures r in InModules(modules, uri, options) <==>
              r.attrs == None && exists m, k :: 0 <= m < |modules| && 0 <= k < |modules[m].slots|
                                                && ObjectOf(r, modules[m].slots[k], uri, options)
  {
    hide InSlots, ObjectOf;
    if modules != [] {
      InSlotsIff(modules[0].slots, uri, options, r);
      InModulesIff(modules[1..], uri, options, r);
      assert forall m :: 0 < m < |modules| ==> modules[m] == modules[1..][m - 1];
    }
  }

  // Module by module, slot by slot, and in a slot as the search yields them.
  lemma InSlotsHead(slot: Slot, slots: seq<Slot>, uri: UriData, options: SessionOptions)
    ensures InSlots([slot] + slots, uri, options) == InSlots([slot], uri, options) + InSlots(slots, uri, options)
    ensures InSlots([], uri, options) == []
  {
    hide TokenMatches, InToken;
    assert ([slot] + slots)[1..] == slots && [slot][1..] == [];
  }

  lemma {:induction false} InSlotsAppend(slots: seq<Slot>, more: seq<Slot>, uri: UriData, options: SessionOptions)
    ensures InSlots(slots + more, uri, options) == InSlots(slots, uri, options) + InSlots(more, uri, options)
  {
    hide InSlots;
    if slots == [] {
      NoSlots(uri, options);
      assert slots + more == more && [] + InSlots(more, uri, options) == InSlots(more, uri, options);
    } else {
      InSlotsAppend(slots[1..], more, uri, options);
      InSlotsHead(slots[0], slots[1..], uri, options);
      InSlotsHead(slots[0], slots[1..] + more, uri, options);
      assert slots == [slots[0]] + slots[1..] && slots + more == [slots[0]] + (slots[1..] + more);
    }
  }

  lemma NoSlots(uri: UriData, options: SessionOptions)
    ensures InSlots([], uri, options) == [] && InModules([], uri, options) == []
  {
  }

  lemma InModulesHead(module': Module, modules: seq<Module>, uri: UriData, options: SessionOptions)
    ensures InModules([module'] + modules, uri, options) == InSlots(module'.slots, uri, options) + InModules(modules, uri, options)
  {
    hide InSlots;
    assert ([module'] + modules)[1..] == modules;
  }

  lemma {:induction false} InModulesAppend(modules: seq<Module>, more: seq<Module>, uri: UriData, options: SessionOptions)
    ensures InModules(modules + more, uri, options) == InModules(modules, uri, options) + InModules(more, uri, options)
  {
    hide InSlots, InModules;
    NoSlots(uri, options);
    if modules == [] {
      assert modules + more == more && [] + InModules(more, uri, options) == InModules(more, uri, options);
    } else {
      InModulesAppend(modules[1..], more, uri, options);
      InModulesHead(modules[0], modules[1..], uri, options);
      InModulesHead(modules[0], modules[1..] + more, uri, options);
      assert modules == [modules[0]] + modules[1..] && modules + more == [modules[0]] + (modules[1..] + more);
    }
  }

  lemma InOneSlot(slot: Slot, uri: UriData, options: SessionOptions, answers: seq<FindAnswer>)
    requires (if options.loginUser && slot.loginOk then slot.userSearch else slot.publicSearch) == Answers(answers)
    ensures var rs := InSlots([slot], uri, options);
            rs != [] ==> |rs| == |Collected(answers)| && forall i :: 0 <= i < |rs| ==> rs[i].handle == Collected(answers)[i]
  {
    hide Collected;
    assert [slot][1..] == [];
  }

  // What a search yields goes on until an answer that has none.
  lemma {:induction false} CollectedAppend(handles: seq<nat>, answers: seq<FindAnswer>)
    requires handles != []
    ensures Collected([Objects(handles)] + answers) == handles + Collected(answers)
    ensures Collected([Objects([])] + answers) == [] && Collected([FindFailed] + answers) == []
  {
    assert ([Objects(handles)] + answers)[1..] == answers;
  }

  // ------------------------------------------------------ what is handed out with an object

  // The values of the attributes asked for, each where its type is; none for those the
  // object does not have.
  ghost predicate Attributed(r: Result, attrTypes: seq<nat>) {
    if attrTypes == [] then r.attrs == None
    else
      && r.handle in r.session.slot.attributes && r.attrs.Some? && |r.attrs.value| == |attrTypes|
      && forall i :: 0 <= i < |attrTypes| ==>
           var have := r.session.slot.attributes[r.handle];
           if attrTypes[i] in have then r.attrs.value[i] == Some(have[attrTypes[i]]) else r.attrs.value[i] == None
  }

  ghost predicate SameObject(r: Result, p: Result) {
    r.handle == p.handle && r.session == p.session
  }

  // Attributes are asked for and the object gives none.
  predicate Refuses(p: Result, attrTypes: seq<nat>) {
    attrTypes != [] && p.handle !in p.session.slot.attributes
  }

  // In the same order, the objects that do not refuse, with what was asked for.
  ghost predicate FetchedFrom(rs: seq<Result>, attrTypes: seq<nat>, out: seq<Result>) {
    exists ps: seq<nat> :: FetchedAt(rs, attrTypes, out, ps)
  }

  lemma FetchIs(p: Result, attrTypes: seq<nat>)
    requires p.attrs == None
    ensures Refuses(p, attrTypes) <==> Fetch(p, attrTypes) == None
    ensures Fetch(p, attrTypes).Some? ==>
              SameObject(Fetch(p, attrTypes).value, p) && Attributed(Fetch(p, attrTypes).value, attrTypes)
  {
  }

  lemma {:induction false} FetchAllFrom(rs: seq<Result>, attrTypes: seq<nat>)
    requires forall i :: 0 <= i < |rs| ==> rs[i].attrs == None
    ensures FetchedFrom(rs, attrTypes, FetchAll(rs, attrTypes))
  {
    hide Fetch, Attributed, Refuses, SameObject;
    if rs == [] {
      assert FetchedAt(rs, attrTypes, [], []);
    } else {
      FetchIs(rs[0], attrTypes);
      FetchAllFrom(rs[1..], attrTypes);
      var out := FetchAll(rs[1..], attrTypes);
      var ps: seq<nat> :| FetchedAt(rs[1..], attrTypes, out, ps);
      if Fetch(rs[0], attrTypes) == None {
        FetchedSkip(rs, attrTypes, out, ps);
        assert [] + out == out;
      } else {
        FetchedTake(rs, attrTypes, out, ps, Fetch(rs[0], attrTypes).value);
      }
    }
  }

  // The objects at these positions, all that do not refuse.
  ghost predicate FetchedAt(rs: seq<Result>, attrTypes: seq<nat>, out: seq<Result>, ps: seq<nat>) {
    && |ps| == |out|
    && (forall j, k :: 0 <= j < k < |ps| ==> ps[j] < ps[k])
    && (forall k :: 0 <= k < |ps| ==> ps[k] < |rs| && SameObject(out[k], rs[ps[k]]) && Attributed(out[k], attrTypes))
    && (forall i :: 0 <= i < |rs| ==> (i in ps <==> !Refuses(rs[i], attrTypes)))
  }

  function Later(ps: seq<nat>): (qs: seq<nat>)
    ensures |qs| == |ps| && (forall k :: 0 <= k < |ps| ==> qs[k] == ps[k] + 1)
  {
    seq(|ps|, k requires 0 <= k < |ps| => ps[k] + 1)
  }

  lemma LaterIn(ps: seq<nat>, i: nat)
    ensures i in Later(ps) <==> i > 0 && i - 1 in ps
    ensures i in [0] + Later(ps) <==> i == 0 || i - 1 in ps
  {
    hide Later;
    if i in Later(ps) {
      var k :| 0 <= k < |ps| && Later(ps)[k] == i;
      assert ps[k] == i - 1;
    }
    if i > 0 && i - 1 in ps {
      var k :| 0 <= k < |ps| && ps[k] == i - 1;
      assert Later(ps)[k] == i;
    }
  }

  // Which positions these are, one further on.
  lemma LaterMembers(rs: seq<Result>, attrTypes: seq<nat>, ps: seq<nat>, taken: bool)
    requires rs != [] && (taken <==> !Refuses(rs[0], attrTypes))
    requires forall i :: 0 <= i < |rs| - 1 ==> (i in ps <==> !Refuses(rs[1..][i], attrTypes))
    ensures forall i :: 0 <= i < |rs| ==> (i in (if taken then [0] + Later(ps) else Later(ps)) <==> !Refuses(rs[i], attrTypes))
  {
    hide Refuses, Later;
    forall i | 0 <= i < |rs| ensures i in (if taken then [0] + Later(ps) else Later(ps)) <==> !Refuses(rs[i], attrTypes) {
      LaterIn(ps, i);
      assert i > 0 ==> rs[i] == rs[1..][i - 1];
    }
  }

  lemma FetchedSkip(rs: seq<Result>, attrTypes: seq<nat>, out: seq<Result>, ps: seq<nat>)
    requires rs != [] && FetchedAt(rs[1..], attrTypes, out, ps) && Refuses(rs[0], attrTypes)
    ensures FetchedAt(rs, attrTypes, out, Later(ps))
  {
    hide Attributed, Refuses, SameObject, Later;
    var qs := Later(ps);
    LaterMembers(rs, attrTypes, ps, false);
    assert forall k :: 0 <= k < |ps| ==> rs[qs[k]] == rs[1..][ps[k]];
  }

  lemma LaterAscends(ps: seq<nat>)
    requires forall j, k :: 0 <= j < k < |ps| ==> ps[j] < ps[k]
    ensures var qs := [0] + Later(ps); |qs| == |ps| + 1 && forall j, k :: 0 <= j < k < |qs| ==> qs[j] < qs[k]
  {
    hide Later;
  }

  lemma LaterFrom(rs: seq<Result>, out: seq<Result>, ps: seq<nat>, first: Result, k: nat)
    requires rs != [] && |ps| == |out| && 0 < k <= |ps| && ps[k - 1] < |rs| - 1
    ensures var qs := [0] + Later(ps);
            qs[k] == ps[k - 1] + 1 && ([first] + out)[k] == out[k - 1] && rs[qs[k]] == rs[1..][ps[k - 1]]
  {
    hide Later;
  }

  lemma FetchedTake(rs: seq<Result>, attrTypes: seq<nat>, out: seq<Result>, ps: seq<nat>, first: Result)
    requires rs != [] && FetchedAt(rs[1..], attrTypes, out, ps)
    requires !Refuses(rs[0], attrTypes) && SameObject(first, rs[0]) && Attributed(first, attrTypes)
    ensures FetchedAt(rs, attrTypes, [first] + out, [0] + Later(ps))
  {
    hide Attributed, Refuses, SameObject, Later;
    var qs, all := [0] + Later(ps), [first] + out;
    LaterMembers(rs, attrTypes, ps, true);
    LaterAscends(ps);
    forall k | 0 <= k < |qs| ensures qs[k] < |rs| && SameObject(all[k], rs[qs[k]]) && Attributed(all[k], attrTypes) {
      if k > 0 {
        LaterFrom(rs, out, ps, first, k);
      }
    }
  }

  // Where the cut is when `want` objects are wanted.
  lemma {:induction false} SeenSplit(gs: seq<seq<Result>>, want: nat) returns (k: nat)
    ensures k <= |gs| && forall i :: 0 <= i < k ==> |gs[i]| < want
    ensures k == |gs| ==> Seen(gs, want) == Flat(gs) && Unseen(gs, want) == []
    ensures k < |gs| ==> |gs[k]| >= want && Seen(gs, want) == Flat(gs[..k]) + gs[k][..want]
    ensures k < |gs| ==> Unseen(gs, want) == (if |gs[k]| == want then [] else [gs[k][want..]]) + gs[k + 1..]
  {
    hide Flat, Seen, Unseen;
    FlatHead([], []);
    SeenHead(gs, want);
    if gs == [] {
      k := 0;
    } else if |gs[0]| >= want {
      k := 0;
      assert gs[..0] == [] && [] + gs[0][..want] == gs[0][..want];
    } else {
      var j := SeenSplit(gs[1..], want);
      k := j + 1;
      SplitLater(gs, j);
    }
  }

  lemma SeenHead(gs: seq<seq<Result>>, want: nat)
    ensures gs == [] ==> Seen(gs, want) == [] && Unseen(gs, want) == []
    ensures gs != [] && |gs[0]| >= want ==>
              && Seen(gs, want) == gs[0][..want]
              && Unseen(gs, want) == (if |gs[0]| == want then [] else [gs[0][want..]]) + gs[1..]
    ensures gs != [] && |gs[0]| < want ==> Seen(gs, want) == gs[0] + Seen(gs[1..], want) && Unseen(gs, want) == Unseen(gs[1..], want)
  {
    if gs != [] {
      assert [] + gs[1..] == gs[1..];
    }
  }

  lemma SplitLater(gs: seq<seq<Result>>, j: nat)
    requires j < |gs|
    ensures forall i :: 0 < i < |gs| ==> gs[i] == gs[1..][i - 1]
    ensures gs[..j + 1] == [gs[0]] + gs[1..][..j] && Flat(gs[..j + 1]) == gs[0] + Flat(gs[1..][..j])
    ensures j < |gs| - 1 ==> gs[1..][j + 1..] == gs[j + 2..]
    ensures Flat(gs) == gs[0] + Flat(gs[1..])
  {
    FlatHead(gs[0], gs[1..][..j]);
    assert gs[..j + 1] == [gs[0]] + gs[1..][..j];
  }
}
