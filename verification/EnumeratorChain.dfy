// A chain of enumerator states as values: what each has ready to hand out and what it has
// not looked at yet, and what every call does to them.
module EnumeratorChain {
  import opened Wrappers
  import opened EnumeratorModel

  const G_MAXINT: nat := 0x7FFF_FFFF

  datatype View = View(ready: seq<Result>, groups: seq<seq<Result>>, attrTypes: seq<nat>)

  // What the state will fetch if it looks at everything.
  function Left(v: View): seq<Result> {
    FetchAll(Flat(v.groups), v.attrTypes)
  }

  // What extract_result hands out, in order, without looking any further.
  function AllReady(vs: seq<View>): seq<Result> {
    if vs == [] then [] else vs[0].ready + AllReady(vs[1..])
  }

  // Every object still to come: for each state in turn what is ready, then what is left.
  function AllRemaining(vs: seq<View>): seq<Result> {
    if vs == [] then [] else vs[0].ready + Left(vs[0]) + AllRemaining(vs[1..])
  }

  // A state has results ready only once those before it have nothing more to give.
  ghost predicate Ordered(vs: seq<View>) {
    forall i, j :: 0 <= i < j < |vs| && vs[j].ready != [] ==> Left(vs[i]) == []
  }

  ghost predicate AllFetchable(vs: seq<View>) {
    forall i :: 0 <= i < |vs| ==> Fetchable(Flat(vs[i].groups), vs[i].attrTypes)
  }

  // What a state fetches when it is run for `want` objects.
  function Fetched(v: View, want: nat): seq<Result> {
    FetchAll(Seen(v.groups, want), v.attrTypes)
  }

  function Run(v: View, want: nat): View {
    View(v.ready + Fetched(v, want), Unseen(v.groups, want), v.attrTypes)
  }

  // What the loop of perform_enumerate_next does to a chain: the states run in turn until
  // enough results are ready.
  function Performed(vs: seq<View>, want: nat): seq<View> {
    if vs == [] then []
    else
      var v := Run(vs[0], want);
      if |v.ready| >= want then [v] + vs[1..]
      else [v] + Performed(vs[1..], want - |v.ready|)
  }

  /** What is handed out, and the chain afterwards. */
  datatype Batch = Batch(list: seq<Result>, views: seq<View>)

  // What extract_results does: up to `want` of the results that are ready.
  function Extracted(vs: seq<View>, want: nat): Batch {
    if vs == [] then Batch([], [])
    else if |vs[0].ready| >= want then Batch(vs[0].ready[..want], [vs[0].(ready := vs[0].ready[want..])] + vs[1..])
    else
      var rest := Extracted(vs[1..], want - |vs[0].ready|);
      Batch(vs[0].ready + rest.list, [vs[0].(ready := [])] + rest.views)
  }

  // gck_enumerator_next_n, and with one object gck_enumerator_next: results left over from
  // a previous run come first.
  function Drawn(vs: seq<View>, want: nat): Batch {
    var over := Extracted(vs, want);
    if |over.list| >= want then over
    else
      var more := DrawnAsync(over.views, want - |over.list|);
      Batch(over.list + more.list, more.views)
  }

  // gck_enumerator_next_async starts by looking further.
  function DrawnAsync(vs: seq<View>, want: nat): Batch {
    Extracted(Performed(vs, want), want)
  }

  /** One call a client may make. */
  datatype Call = CallNext | CallNextN(maxObjects: int) | CallNextAsync(maxObjects: int)

  function Wanted(maxObjects: int): (n: nat)
    ensures n > 0
  {
    if maxObjects <= 0 then G_MAXINT else maxObjects
  }

  // How many objects a call asks for.
  function Wants(call: Call): (n: nat)
    ensures n > 0
  {
    if call.CallNext? then 1 else Wanted(call.maxObjects)
  }

  predicate Allowed(call: Call) {
    call.CallNext? || call.maxObjects == -1 || call.maxObjects > 0
  }

  function Given(vs: seq<View>, call: Call): Batch {
    if call.CallNextAsync? then DrawnAsync(vs, Wants(call)) else Drawn(vs, Wants(call))
  }

  // What a sequence of calls gives altogether.
  function GivenAll(vs: seq<View>, calls: seq<Call>): Batch {
    if calls == [] then Batch([], vs)
    else
      var before := GivenAll(vs, calls[..|calls| - 1]);
      var last := Given(before.views, calls[|calls| - 1]);
      Batch(before.list + last.list, last.views)
  }

  function Total(calls: seq<Call>): nat {
    if calls == [] then 0 else Total(calls[..|calls| - 1]) + Wants(calls[|calls| - 1])
  }

  function Min(a: nat, b: nat): nat {
    if a <= b then a else b
  }

  // The state would keep objects for later that it could fetch.
  predicate Withholds(v: View, want: nat) {
    Left(Run(v, want)) != []
  }

  // Some state would have something to hand out.
  predicate Yields(vs: seq<View>, want: nat) {
    vs != [] && (vs[0].ready != [] || Fetched(vs[0], want) != [] || Yields(vs[1..], want))
  }

  // When looking further keeps to the order: no state comes short of what is still wanted of
  // it while withholding objects, unless the states after it have nothing to hand out.
  predicate KeepsOrder(vs: seq<View>, want: nat) {
    vs == [] ||
    var n := |vs[0].ready| + |Fetched(vs[0], want)|;
    n >= want || (KeepsOrder(vs[1..], want - n) && (Withholds(vs[0], want) ==> !Yields(vs[1..], want - n)))
  }

  predicate CallKeepsOrder(vs: seq<View>, call: Call) {
    if call.CallNextAsync? then KeepsOrder(vs, Wants(call))
    else
      var over := Extracted(vs, Wants(call));
      |over.list| >= Wants(call) || KeepsOrder(over.views, Wants(call) - |over.list|)
  }

  predicate RunKeepsOrder(vs: seq<View>, calls: seq<Call>) {
    calls != [] ==>
      && RunKeepsOrder(vs, calls[..|calls| - 1])
      && CallKeepsOrder(GivenAll(vs, calls[..|calls| - 1]).views, calls[|calls| - 1])
  }

  ghost predicate NoneTwice(rs: seq<Result>) {
    forall i, j :: 0 <= i < j < |rs| ==> rs[i] != rs[j]
  }

  // What a run of one state keeps.
  lemma RunKeeps(v: View, want: nat)
    ensures v.ready + Left(v) == Run(v, want).ready + Left(Run(v, want))
    ensures Left(v) == Fetched(v, want) + Left(Run(v, want))
  {
    hide FetchAll, Seen, Unseen, Flat;
    SeenUnseen(v.groups, want);
    FetchAllAppend(Seen(v.groups, want), Flat(Unseen(v.groups, want)), v.attrTypes);
    assert v.ready + (Fetched(v, want) + Left(Run(v, want))) == v.ready + Fetched(v, want) + Left(Run(v, want));
  }

  // When every fetch succeeds a run comes short only at the end.
  lemma RunFetchable(v: View, want: nat)
    requires Fetchable(Flat(v.groups), v.attrTypes)
    ensures Fetchable(Flat(Run(v, want).groups), v.attrTypes)
    ensures |Fetched(v, want)| >= want || Left(Run(v, want)) == []
  {
    hide FetchAll, Seen, Unseen, Flat, Fetch;
    SeenUnseen(v.groups, want);
    var seen, rest := Seen(v.groups, want), Flat(Unseen(v.groups, want));
    assert forall i :: 0 <= i < |rest| ==> rest[i] == (seen + rest)[|seen| + i];
    assert forall i :: 0 <= i < |seen| ==> seen[i] == (seen + rest)[i];
    FetchableAll(seen, v.attrTypes);
    NothingToFetch(v.attrTypes);
  }

  lemma NothingToFetch(attrTypes: seq<nat>)
    ensures Flat([]) == [] && FetchAll([], attrTypes) == []
  {
  }

  // A state that comes short while it withholds objects failed to fetch one.
  lemma ShortByFailure(v: View, want: nat)
    requires |Fetched(v, want)| < want && Withholds(v, want)
    ensures !Fetchable(Seen(v.groups, want), v.attrTypes)
  {
    hide FetchAll, Seen, Unseen, Flat, Fetchable;
    SeenUnseen(v.groups, want);
    NothingToFetch(v.attrTypes);
    if Fetchable(Seen(v.groups, want), v.attrTypes) {
      FetchableAll(Seen(v.groups, want), v.attrTypes);
      assert false;
    }
  }

  lemma HeadOf(v: View, vs: seq<View>)
    ensures ([v] + vs)[0] == v && ([v] + vs)[1..] == vs
    ensures AllReady([v] + vs) == v.ready + AllReady(vs)
    ensures AllRemaining([v] + vs) == v.ready + Left(v) + AllRemaining(vs)
    ensures AllFetchable([v] + vs) <==> Fetchable(Flat(v.groups), v.attrTypes) && AllFetchable(vs)
    ensures Steps([v] + vs) == |v.ready| + 2 * |Flat(v.groups)| + Steps(vs)
  {
    hide Fetchable, Left, Flat;
    var ws := [v] + vs;
    assert ws[1..] == vs;
    assert forall i :: 0 < i < |ws| ==> ws[i] == vs[i - 1];
    assert forall i :: 0 <= i < |vs| ==> vs[i] == ws[i + 1];
  }

  ghost predicate NothingReady(vs: seq<View>) {
    forall i :: 0 <= i < |vs| ==> vs[i].ready == []
  }

  lemma OrderedCons(v: View, vs: seq<View>)
    ensures Ordered([v] + vs) <==> Ordered(vs) && (Left(v) == [] || NothingReady(vs))
  {
    hide Left;
    var ws := [v] + vs;
    assert forall i :: 0 <= i < |vs| ==> ws[i + 1] == vs[i];
    if Ordered(ws) {
      forall i, j | 0 <= i < j < |vs| && vs[j].ready != [] ensures Left(vs[i]) == [] {
        assert ws[j + 1].ready != [];
      }
      if Left(v) != [] {
        forall j | 0 <= j < |vs| ensures vs[j].ready == [] {
          assert Left(ws[0]) == [] || ws[j + 1].ready == [];
        }
      }
    }
  }

  lemma {:induction false} NoneReady(vs: seq<View>)
    ensures NothingReady(vs) <==> AllReady(vs) == []
  {
    if vs != [] {
      NoneReady(vs[1..]);
      assert forall i :: 1 <= i < |vs| ==> vs[i] == vs[1..][i - 1];
    }
  }

  lemma Split(vs: seq<View>)
    requires vs != []
    ensures vs == [vs[0]] + vs[1..]
  {
  }

  // One more state of the chain is run.
  lemma PerformedMore(vs: seq<View>, i: nat, want: nat)
    requires i < |vs|
    ensures var v := Run(vs[i], want);
            var ws := vs[i := v];
            vs[..i] + Performed(vs[i..], want)
            == if |v.ready| >= want then ws else ws[..i + 1] + Performed(ws[i + 1..], want - |v.ready|)
  {
    hide Run;
    var v := Run(vs[i], want);
    var ws := vs[i := v];
    assert vs[i..][0] == vs[i] && vs[i..][1..] == ws[i + 1..] && ws[..i + 1] == vs[..i] + [v];
    assert ws == vs[..i] + [v] + ws[i + 1..];
  }

  // Nothing is lost, repeated or reordered by looking further.
  lemma {:induction false} PerformedKeeps(vs: seq<View>, want: nat)
    ensures AllRemaining(Performed(vs, want)) == AllRemaining(vs)
  {
    hide Run, Left;
    if vs != [] {
      var v := Run(vs[0], want);
      RunKeeps(vs[0], want);
      HeadOf(v, vs[1..]);
      if |v.ready| < want {
        PerformedKeeps(vs[1..], want - |v.ready|);
        HeadOf(v, Performed(vs[1..], want - |v.ready|));
      }
    }
  }

  lemma {:induction false} YieldsReady(vs: seq<View>, want: nat)
    requires want > 0
    ensures Yields(vs, want) <==> AllReady(Performed(vs, want)) != []
  {
    hide Fetched, AllReady, AllRemaining, AllFetchable, Steps, Left, Flat;
    NoViews();
    if vs != [] {
      var v := Run(vs[0], want);
      HeadOf(v, vs[1..]);
      if |v.ready| < want {
        HeadOf(v, Performed(vs[1..], want - |v.ready|));
        if v.ready == [] {
          YieldsReady(vs[1..], want);
        }
      }
    }
  }

  // Exactly when looking further for any number of objects leaves the chain in order.
  lemma {:induction false} BatchOrdered(vs: seq<View>, want: nat)
    requires Ordered(vs) && want > 0
    ensures Ordered(Performed(vs, want)) <==> KeepsOrder(vs, want)
  {
    hide Left, Ordered, Fetched, Yields, AllReady, NothingReady;
    if vs == [] {
      NoViews();
    } else {
      var v := Run(vs[0], want);
      Split(vs);
      OrderedCons(vs[0], vs[1..]);
      RunKeeps(vs[0], want);
      if |v.ready| >= want {
        OrderedCons(v, vs[1..]);
      } else {
        var rest := Performed(vs[1..], want - |v.ready|);
        OrderedCons(v, rest);
        BatchOrdered(vs[1..], want - |v.ready|);
        YieldsReady(vs[1..], want - |v.ready|);
        NoneReady(rest);
      }
    }
  }

  lemma NoViews()
    ensures Ordered([]) && AllFetchable([]) && AllReady([]) == AllRemaining([]) == []
  {
  }

  // When every fetch succeeds, looking further keeps the chain ordered and makes enough
  // results ready, unless nothing at all is left to be looked at.
  lemma {:induction false} PerformOrdered(vs: seq<View>, want: nat)
    requires AllFetchable(vs) && want > 0
    ensures KeepsOrder(vs, want) && AllFetchable(Performed(vs, want))
    ensures |AllReady(Performed(vs, want))| >= want || AllReady(Performed(vs, want)) == AllRemaining(vs)
  {
    hide Left, Fetchable, Fetched, AllReady, AllRemaining, AllFetchable, Yields, Flat, Unseen;
    NoViews();
    if vs != [] {
      var v := Run(vs[0], want);
      Split(vs);
      HeadOf(vs[0], vs[1..]);
      RunFetchable(vs[0], want);
      RunKeeps(vs[0], want);
      if |v.ready| >= want {
        HeadOf(v, vs[1..]);
      } else {
        var rest := Performed(vs[1..], want - |v.ready|);
        PerformOrdered(vs[1..], want - |v.ready|);
        HeadOf(v, rest);
        assert v.ready + [] == v.ready;
      }
    }
  }

  // What is fetched does not change while results are drawn.
  ghost predicate SameTypes(vs: seq<View>, ws: seq<View>) {
    |vs| == |ws| && forall k :: 0 <= k < |vs| ==> vs[k].attrTypes == ws[k].attrTypes
  }

  lemma {:induction false} PerformedTypes(vs: seq<View>, want: nat)
    ensures SameTypes(vs, Performed(vs, want))
  {
    if vs != [] && |Run(vs[0], want).ready| < want {
      PerformedTypes(vs[1..], want - |Run(vs[0], want).ready|);
    }
  }

  lemma {:induction false} ExtractedTypes(vs: seq<View>, want: nat)
    ensures SameTypes(vs, Extracted(vs, want).views)
  {
    if vs != [] && |vs[0].ready| < want {
      ExtractedTypes(vs[1..], want - |vs[0].ready|);
    }
  }

  // What is handed out is what was ready, up to the number wanted.
  lemma {:induction false} ExtractedReady(vs: seq<View>, want: nat)
    ensures var b := Extracted(vs, want);
            && AllReady(vs) == b.list + AllReady(b.views)
            && |b.list| <= want && (|b.list| < want ==> AllReady(b.views) == [])
            && Steps(vs) == |b.list| + Steps(b.views)
            && (AllFetchable(vs) ==> AllFetchable(b.views))
            && multiset(AllRemaining(vs)) == multiset(b.list) + multiset(AllRemaining(b.views))
  {
    hide Left, AllFetchable, AllReady, AllRemaining, Steps, Flat, Fetchable;
    NoViews();
    if vs != [] {
      var r := vs[0].ready;
      Split(vs);
      HeadOf(vs[0], vs[1..]);
      if |r| >= want {
        var v := vs[0].(ready := r[want..]);
        SameLeft(vs[0], v);
        HeadOf(v, vs[1..]);
        assert r == r[..want] + r[want..];
        Regrouped(r[..want], r[want..], Left(v), AllRemaining(vs[1..]));
        Regrouped(r[..want], r[want..], [], AllReady(vs[1..]));
      } else {
        var b := Extracted(vs[1..], want - |r|);
        var v := vs[0].(ready := []);
        SameLeft(vs[0], v);
        ExtractedReady(vs[1..], want - |r|);
        HeadOf(v, b.views);
        Bagged(r, Left(v), b.list, AllRemaining(b.views), AllRemaining(vs[1..]));
        Regrouped(r, b.list, [], AllReady(b.views));
      }
    }
  }

  // Handing out the first result that is ready.
  function Popped(vs: seq<View>, j: nat): seq<View>
    requires j < |vs| && vs[j].ready != []
  {
    vs[j := vs[j].(ready := vs[j].ready[1..])]
  }

  ghost predicate NextReady(vs: seq<View>, j: nat) {
    j < |vs| && vs[j].ready != [] && forall i :: 0 <= i < j ==> vs[i].ready == []
  }

  lemma {:induction false} ExtractedNone(vs: seq<View>)
    ensures Extracted(vs, 0) == Batch([], vs)
  {
    if vs != [] {
      Split(vs);
      assert vs[0].(ready := vs[0].ready[0..]) == vs[0];
    }
  }

  // A first state with no more than is wanted gives all it has.
  lemma ExtractedAll(vs: seq<View>, k: nat)
    requires vs != [] && |vs[0].ready| <= k
    ensures var rest := Extracted(vs[1..], k - |vs[0].ready|);
            Extracted(vs, k) == Batch(vs[0].ready + rest.list, [vs[0].(ready := [])] + rest.views)
  {
    var r := vs[0].ready;
    if |r| == k {
      ExtractedNone(vs[1..]);
      assert r[..k] == r && r + [] == r && r[k..] == [];
    }
  }

  // One more result is handed out.
  lemma {:induction false} ExtractedMore(vs: seq<View>, k: nat, j: nat)
    requires |Extracted(vs, k).list| == k && NextReady(Extracted(vs, k).views, j)
    ensures var b := Extracted(vs, k);
            Extracted(vs, k + 1) == Batch(b.list + [b.views[j].ready[0]], Popped(b.views, j))
  {
    var b := Extracted(vs, k);
    if vs != [] {
      var r := vs[0].ready;
      if |r| > k {
        assert b.views[0].ready == r[k..];
        assert r[..k + 1] == r[..k] + [r[k]] && r[k..][1..] == r[k + 1..];
      } else {
        ExtractedAll(vs, k);
        ExtractedAll(vs, k + 1);
        NextAfter(vs[0].(ready := []), Extracted(vs[1..], k - |r|).views, j);
        ExtractedMore(vs[1..], k - |r|, j - 1);
      }
    }
  }

  lemma NextAfter(v: View, vs: seq<View>, j: nat)
    requires NextReady([v] + vs, j) && v.ready == []
    ensures 0 < j && NextReady(vs, j - 1) && Popped([v] + vs, j) == [v] + Popped(vs, j - 1)
  {
    assert forall i :: 0 <= i < |vs| ==> vs[i] == ([v] + vs)[i + 1];
  }

  lemma {:induction false} ExtractedEnd(vs: seq<View>, k: nat, want: nat)
    requires |Extracted(vs, k).list| == k <= want && NothingReady(Extracted(vs, k).views)
    ensures Extracted(vs, want) == Extracted(vs, k)
  {
    var b := Extracted(vs, k);
    if vs != [] {
      var r := vs[0].ready;
      assert b.views[0].ready == [];
      if |r| < want {
        ExtractedAll(vs, k);
        var rest := Extracted(vs[1..], k - |r|);
        assert forall i :: 0 <= i < |rest.views| ==> rest.views[i] == b.views[i + 1];
        ExtractedEnd(vs[1..], k - |r|, want - |r|);
      }
    }
  }

  lemma SameLeft(v: View, w: View)
    requires v.groups == w.groups && v.attrTypes == w.attrTypes
    ensures Left(v) == Left(w) && [] + Left(v) == Left(v)
  {
  }

  lemma Regrouped(a: seq<Result>, b: seq<Result>, c: seq<Result>, d: seq<Result>)
    ensures a + b + c + d == a + (b + c + d) && b + [] == b && a + b + d == a + (b + d)
  {
  }

  lemma Bagged(r: seq<Result>, left: seq<Result>, list: seq<Result>, after: seq<Result>, before: seq<Result>)
    requires multiset(before) == multiset(list) + multiset(after)
    ensures multiset(r + left + before) == multiset(r + list) + multiset([] + left + after)
  {
  }

  // A chain in order hands out the objects that come next, and stays in order.
  lemma {:induction false} ExtractedOrdered(vs: seq<View>, want: nat)
    requires Ordered(vs)
    ensures Ordered(Extracted(vs, want).views)
    ensures AllRemaining(vs) == Extracted(vs, want).list + AllRemaining(Extracted(vs, want).views)
  {
    hide Left, Ordered, NothingReady, AllReady, AllRemaining;
    NoViews();
    if vs != [] {
      var r := vs[0].ready;
      Split(vs);
      HeadOf(vs[0], vs[1..]);
      OrderedCons(vs[0], vs[1..]);
      if |r| >= want {
        var v := vs[0].(ready := r[want..]);
        SameLeft(vs[0], v);
        HeadOf(v, vs[1..]);
        OrderedCons(v, vs[1..]);
        assert r == r[..want] + r[want..];
        Regrouped(r[..want], r[want..], Left(v), AllRemaining(vs[1..]));
      } else {
        var b := Extracted(vs[1..], want - |r|);
        var v := vs[0].(ready := []);
        SameLeft(vs[0], v);
        ExtractedOrdered(vs[1..], want - |r|);
        ExtractedReady(vs[1..], want - |r|);
        NoneReady(vs[1..]);
        NoneReady(b.views);
        HeadOf(v, b.views);
        OrderedCons(v, b.views);
        InBetween(r, Left(v), b.list, AllRemaining(b.views));
      }
    }
  }

  lemma InBetween(r: seq<Result>, left: seq<Result>, list: seq<Result>, after: seq<Result>)
    ensures left == [] || list == [] ==> r + left + (list + after) == (r + list) + ([] + left + after)
  {
    assert [] + left == left;
    if left == [] {
      assert r + left == r && left + after == after;
    } else if list == [] {
      assert r + list == r && list + after == after;
    }
  }

  lemma PrefixAfter(a: seq<Result>, b: seq<Result>, c: seq<Result>)
    ensures a + b <= a + c <==> b <= c
  {
    if a + b <= a + c {
      assert forall i :: 0 <= i < |b| ==> b[i] == (a + b)[|a| + i] == (a + c)[|a| + i] == c[i];
    }
  }

  lemma NoneTwiceAfter(a: seq<Result>, b: seq<Result>)
    requires NoneTwice(a + b)
    ensures NoneTwice(b) && forall x :: x in a ==> x !in b
  {
    assert forall i :: 0 <= i < |b| ==> b[i] == (a + b)[|a| + i];
    assert forall i :: 0 <= i < |a| ==> a[i] == (a + b)[i];
  }

  // Objects of the first state are withheld and others are handed out.
  lemma Overtaken(left: seq<Result>, list: seq<Result>, before: seq<Result>, after: seq<Result>)
    requires NoneTwice(left + before) && multiset(before) == multiset(list) + multiset(after)
    requires left != [] && list != []
    ensures !(list <= left + before)
  {
    NoneTwiceAfter(left, before);
    assert list[0] in list && list[0] in multiset(list);
    assert list[0] in multiset(before) && list[0] in before;
    assert left[0] in left && (left + before)[0] == left[0];
  }

  // Exactly when what a call that looks further hands out is what comes next.
  lemma {:induction false} AsyncInOrder(vs: seq<View>, want: nat)
    requires want > 0
    ensures var b := DrawnAsync(vs, want);
            && (KeepsOrder(vs, want) ==> AllRemaining(vs) == b.list + AllRemaining(b.views))
            && (NoneTwice(AllRemaining(vs)) && b.list <= AllRemaining(vs) ==> KeepsOrder(vs, want))
  {
    hide Left, Fetched, Yields, AllReady, AllRemaining, NoneTwice;
    NoViews();
    if vs != [] {
      var v := Run(vs[0], want);
      Split(vs);
      HeadOf(vs[0], vs[1..]);
      RunKeeps(vs[0], want);
      if |v.ready| >= want {
        var w := v.(ready := v.ready[want..]);
        SameLeft(v, w);
        HeadOf(v, vs[1..]);
        HeadOf(w, vs[1..]);
        assert v.ready == v.ready[..want] + v.ready[want..];
        Regrouped(v.ready[..want], v.ready[want..], Left(v), AllRemaining(vs[1..]));
      } else {
        var more := want - |v.ready|;
        var b := DrawnAsync(vs[1..], more);
        HeadOf(v, Performed(vs[1..], more));
        SameLeft(v, v.(ready := []));
        HeadOf(v.(ready := []), b.views);
        AsyncInOrder(vs[1..], more);
        AsyncYields(vs[1..], more);
        RestInOrder(v.ready, Left(v), b.list, AllRemaining(vs[1..]), AllRemaining(b.views));
      }
    }
  }

  lemma AsyncYields(vs: seq<View>, want: nat)
    requires want > 0
    ensures var b := DrawnAsync(vs, want);
            && (b.list != [] <==> Yields(vs, want))
            && multiset(AllRemaining(vs)) == multiset(b.list) + multiset(AllRemaining(b.views))
  {
    hide Yields, Performed, Extracted, AllReady, AllRemaining;
    YieldsReady(vs, want);
    PerformedKeeps(vs, want);
    ExtractedReady(Performed(vs, want), want);
  }

  lemma RestInOrder(r: seq<Result>, left: seq<Result>, list: seq<Result>, before: seq<Result>, after: seq<Result>)
    requires multiset(before) == multiset(list) + multiset(after)
    ensures before == list + after && (left == [] || list == []) ==> r + left + before == (r + list) + ([] + left + after)
    ensures NoneTwice(r + left + before) && r + list <= r + left + before ==>
              NoneTwice(before) && list <= before && (left == [] || list == [])
  {
    hide NoneTwice;
    InBetween(r, left, list, after);
    assert r + left + before == r + (left + before);
    PrefixAfter(r, list, left + before);
    if NoneTwice(r + left + before) && r + list <= r + left + before {
      NoneTwiceAfter(r, left + before);
      NoneTwiceAfter(left, before);
      if left != [] && list != [] {
        Overtaken(left, list, before, after);
      }
      if left == [] {
        assert left + before == before;
      }
    }
  }

  // Exactly when one call hands out the objects that come next.
  lemma CallInOrder(vs: seq<View>, call: Call)
    requires Ordered(vs)
    ensures var b := Given(vs, call);
            && (CallKeepsOrder(vs, call) ==> Ordered(b.views) && AllRemaining(vs) == b.list + AllRemaining(b.views))
            && (NoneTwice(AllRemaining(vs)) && b.list <= AllRemaining(vs) ==> CallKeepsOrder(vs, call))
  {
    hide Extracted, Performed, KeepsOrder, Ordered, AllRemaining, NoneTwice;
    var want := Wants(call);
    if call.CallNextAsync? {
      AsyncInOrder(vs, want);
      BatchOrdered(vs, want);
      if KeepsOrder(vs, want) {
        ExtractedOrdered(Performed(vs, want), want);
      }
    } else {
      var over := Extracted(vs, want);
      ExtractedOrdered(vs, want);
      if |over.list| < want {
        var more := want - |over.list|;
        var b := DrawnAsync(over.views, more);
        AsyncInOrder(over.views, more);
        BatchOrdered(over.views, more);
        if KeepsOrder(over.views, more) {
          ExtractedOrdered(Performed(over.views, more), more);
          assert over.list + (b.list + AllRemaining(b.views)) == over.list + b.list + AllRemaining(b.views);
        }
        PrefixAfter(over.list, b.list, AllRemaining(over.views));
        if NoneTwice(AllRemaining(vs)) {
          NoneTwiceAfter(over.list, AllRemaining(over.views));
        }
      }
    }
  }

  // How many calls can at most still find something to do: every object not looked at may
  // have to be looked at and then handed out.
  function Steps(vs: seq<View>): nat {
    if vs == [] then 0 else |vs[0].ready| + 2 * |Flat(vs[0].groups)| + Steps(vs[1..])
  }

  lemma {:induction false} NoSteps(vs: seq<View>)
    requires Steps(vs) == 0
    ensures AllRemaining(vs) == []
  {
    if vs != [] {
      NoSteps(vs[1..]);
      assert Flat(vs[0].groups) == [] && vs[0].ready == [];
    }
  }

  lemma {:induction false} FetchAllShorter(rs: seq<Result>, attrTypes: seq<nat>)
    ensures |FetchAll(rs, attrTypes)| <= |rs|
  {
    if rs != [] {
      FetchAllShorter(rs[1..], attrTypes);
    }
  }

  // Looking further does something, or something is ready, or there is nothing to do.
  lemma {:induction false} PerformedSteps(vs: seq<View>, want: nat)
    requires want > 0
    ensures var ws := Performed(vs, want);
            && Steps(ws) <= Steps(vs)
            && (Steps(ws) < Steps(vs) || AllReady(ws) != [] || Steps(vs) == 0)
  {
    hide Steps, AllReady, FetchAll, Flat, Seen, Unseen;
    if vs == [] {
      NoneToDo();
    } else {
      var v := Run(vs[0], want);
      Split(vs);
      HeadOf(vs[0], vs[1..]);
      HeadOf(v, vs[1..]);
      SeenUnseen(vs[0].groups, want);
      FetchAllShorter(Seen(vs[0].groups, want), vs[0].attrTypes);
      if |v.ready| < want {
        PerformedSteps(vs[1..], want - |v.ready|);
        HeadOf(v, Performed(vs[1..], want - |v.ready|));
      }
    }
  }

  lemma NoneToDo()
    ensures Steps([]) == 0
  {
  }

  // What every call keeps, whatever fails.
  ghost predicate Kept(vs: seq<View>, b: Batch, want: nat) {
    && SameTypes(vs, b.views) && |b.list| <= want
    && multiset(AllRemaining(vs)) == multiset(b.list) + multiset(AllRemaining(b.views))
    && (Steps(b.views) < Steps(vs) || Steps(b.views) == 0)
  }

  lemma AsyncKeeps(vs: seq<View>, want: nat)
    requires want > 0
    ensures Kept(vs, DrawnAsync(vs, want), want)
  {
    hide Performed, Extracted, AllReady, AllRemaining, Steps;
    var ws := Performed(vs, want);
    PerformedKeeps(vs, want);
    PerformedTypes(vs, want);
    PerformedSteps(vs, want);
    ExtractedReady(ws, want);
    ExtractedTypes(ws, want);
  }

  lemma CallKeeps(vs: seq<View>, call: Call)
    ensures Kept(vs, Given(vs, call), Wants(call))
  {
    hide Performed, Extracted, AllReady, AllRemaining, Steps;
    var want := Wants(call);
    if call.CallNextAsync? {
      AsyncKeeps(vs, want);
    } else {
      var over := Extracted(vs, want);
      ExtractedReady(vs, want);
      ExtractedTypes(vs, want);
      if |over.list| < want {
        AsyncKeeps(over.views, want - |over.list|);
      }
    }
  }

  // When every fetch succeeds, a call keeps to the order and comes back short only at the end.
  lemma CallFetchable(vs: seq<View>, call: Call)
    requires AllFetchable(vs)
    ensures var b := Given(vs, call);
            && CallKeepsOrder(vs, call) && AllFetchable(b.views)
            && (|b.list| == Wants(call) || AllRemaining(b.views) == [])
  {
    hide Performed, Extracted, AllReady, AllRemaining, Steps, AllFetchable, KeepsOrder;
    var want := Wants(call);
    if call.CallNextAsync? {
      AsyncFetchable(vs, want);
    } else {
      var over := Extracted(vs, want);
      ExtractedReady(vs, want);
      if |over.list| < want {
        AsyncFetchable(over.views, want - |over.list|);
      }
    }
  }

  lemma AsyncFetchable(vs: seq<View>, want: nat)
    requires AllFetchable(vs) && want > 0
    ensures var b := DrawnAsync(vs, want);
            && KeepsOrder(vs, want) && AllFetchable(b.views)
            && (|b.list| == want || AllRemaining(b.views) == [])
  {
    hide Performed, Extracted, AllReady, AllRemaining, Steps, AllFetchable, KeepsOrder;
    var ws := Performed(vs, want);
    var b := DrawnAsync(vs, want);
    PerformOrdered(vs, want);
    PerformedKeeps(vs, want);
    ExtractedReady(ws, want);
    if |b.list| < want {
      assert b.list + [] == b.list;
      assert |multiset(AllRemaining(ws))| == |b.list| + |AllRemaining(b.views)|;
    }
  }

  // A lone enumerator keeps to the order, whatever fails.
  lemma CallAlone(vs: seq<View>, call: Call)
    requires |vs| == 1
    ensures CallKeepsOrder(vs, call) && Ordered(vs)
  {
    ExtractedTypes(vs, Wants(call));
  }

  // What a sequence of calls has given: nothing is lost or repeated, and enough calls leave
  // nothing, whatever fails.
  lemma {:induction false} RunKeepsAll(vs: seq<View>, calls: seq<Call>)
    ensures var b := GivenAll(vs, calls);
            && SameTypes(vs, b.views) && |b.list| <= Total(calls)
            && multiset(AllRemaining(vs)) == multiset(b.list) + multiset(AllRemaining(b.views))
            && (Steps(b.views) + |calls| <= Steps(vs) || Steps(b.views) == 0)
            && (|calls| >= Steps(vs) ==> AllRemaining(b.views) == [])
  {
    hide Given, AllRemaining, Steps;
    if calls != [] {
      var n := |calls| - 1;
      var before := GivenAll(vs, calls[..n]);
      RunKeepsAll(vs, calls[..n]);
      CallKeeps(before.views, calls[n]);
    }
    if Steps(GivenAll(vs, calls).views) == 0 {
      NoSteps(GivenAll(vs, calls).views);
    }
  }

  /** Exactly when everything a sequence of calls hands out comes in order, whatever fails.
      An object that turns up twice can hide that others came too late. */
  lemma {:induction false} RunInOrder(vs: seq<View>, calls: seq<Call>)
    requires Ordered(vs)
    ensures var b := GivenAll(vs, calls);
            && (RunKeepsOrder(vs, calls) ==> Ordered(b.views) && AllRemaining(vs) == b.list + AllRemaining(b.views))
            && (NoneTwice(AllRemaining(vs)) ==> (b.list <= AllRemaining(vs) <==> RunKeepsOrder(vs, calls)))
  {
    hide Given, AllRemaining, Ordered, CallKeepsOrder, NoneTwice;
    if calls == [] {
      assert [] + AllRemaining(vs) == AllRemaining(vs);
    } else {
      var n := |calls| - 1;
      var before := GivenAll(vs, calls[..n]);
      var last := Given(before.views, calls[n]);
      RunInOrder(vs, calls[..n]);
      if RunKeepsOrder(vs, calls[..n]) {
        CallInOrder(before.views, calls[n]);
        PrefixAfter(before.list, last.list, AllRemaining(before.views));
        RunGoesOn(before.list, last.list, AllRemaining(last.views));
        if NoneTwice(AllRemaining(vs)) {
          NoneTwiceAfter(before.list, AllRemaining(before.views));
        }
      }
    }
  }

  lemma RunGoesOn(a: seq<Result>, b: seq<Result>, c: seq<Result>)
    ensures a + (b + c) == a + b + c && b <= b + c
  {
  }

  // A lone enumerator, and any chain when every fetch succeeds.
  lemma {:induction false} RunAlone(vs: seq<View>, calls: seq<Call>)
    requires |vs| == 1
    ensures Ordered(vs) && RunKeepsOrder(vs, calls)
  {
    hide Given, CallKeepsOrder;
    if calls != [] {
      var n := |calls| - 1;
      RunAlone(vs, calls[..n]);
      RunKeepsAll(vs, calls[..n]);
      CallAlone(GivenAll(vs, calls[..n]).views, calls[n]);
    }
  }

  lemma {:induction false} RunFetchesAll(vs: seq<View>, calls: seq<Call>)
    requires AllFetchable(vs)
    ensures var b := GivenAll(vs, calls);
            && RunKeepsOrder(vs, calls) && AllFetchable(b.views)
            && (|b.list| == Total(calls) || AllRemaining(b.views) == [])
  {
    hide Given, CallKeepsOrder, AllFetchable, AllRemaining, Steps;
    if calls != [] {
      var n := |calls| - 1;
      var before := GivenAll(vs, calls[..n]);
      RunFetchesAll(vs, calls[..n]);
      CallFetchable(before.views, calls[n]);
      CallKeeps(before.views, calls[n]);
      NothingMore(before.views, calls[n]);
    }
  }

  lemma NothingMore(vs: seq<View>, call: Call)
    ensures AllRemaining(vs) == [] ==> AllRemaining(Given(vs, call).views) == []
  {
    hide AllRemaining, Steps, Given;
    CallKeeps(vs, call);
    if AllRemaining(vs) == [] {
      var b := Given(vs, call);
      assert |multiset(AllRemaining(vs))| == |b.list| + |AllRemaining(b.views)|;
    }
  }

  // All of a run when every fetch succeeds: as many objects as were asked for or there are.
  lemma RunGivesAll(vs: seq<View>, calls: seq<Call>)
    requires Ordered(vs) && AllFetchable(vs)
    ensures GivenAll(vs, calls).list == AllRemaining(vs)[..Min(Total(calls), |AllRemaining(vs)|)]
  {
    hide AllFetchable, AllRemaining, Ordered, RunKeepsOrder, Steps, GivenAll, Total;
    RunFetchesAll(vs, calls);
    RunInOrder(vs, calls);
    RunKeepsAll(vs, calls);
  }

  // A result that is handed out was ready, or it is an object some state had not looked at,
  // with the attributes that state asks for.
  ghost predicate Sourced(vs: seq<View>, r: Result) {
    exists i :: 0 <= i < |vs| && (r in vs[i].ready || SourcedIn(vs[i], r))
  }

  ghost predicate SourcedIn(v: View, r: Result) {
    exists p :: p in Flat(v.groups) && if v.attrTypes == [] then r == p else SameObject(r, p) && Attributed(r, v.attrTypes)
  }

  lemma {:induction false} FetchedSource(rs: seq<Result>, attrTypes: seq<nat>, r: Result)
    requires r in FetchAll(rs, attrTypes)
    ensures exists p :: p in rs && if attrTypes == [] then r == p else SameObject(r, p) && Attributed(r, attrTypes)
  {
    if Fetch(rs[0], attrTypes) == Some(r) {
      assert rs[0] in rs;
    } else {
      FetchedSource(rs[1..], attrTypes, r);
    }
  }

  lemma {:induction false} RemainingSourced(vs: seq<View>, r: Result)
    requires r in AllRemaining(vs)
    ensures Sourced(vs, r)
  {
    hide FetchAll, Flat, SourcedIn;
    if r in Left(vs[0]) {
      LeftSourced(vs[0], r);
    } else if r in AllRemaining(vs[1..]) {
      RemainingSourced(vs[1..], r);
      var i :| 0 <= i < |vs| - 1 && (r in vs[1..][i].ready || SourcedIn(vs[1..][i], r));
      assert vs[i + 1] == vs[1..][i];
    } else {
      assert r in vs[0].ready;
    }
  }

  lemma LeftSourced(v: View, r: Result)
    requires r in Left(v)
    ensures SourcedIn(v, r)
  {
    FetchedSource(Flat(v.groups), v.attrTypes, r);
  }

  lemma RunSourced(vs: seq<View>, calls: seq<Call>, r: Result)
    requires r in GivenAll(vs, calls).list
    ensures Sourced(vs, r)
  {
    hide GivenAll, AllRemaining, Sourced, Steps, Total;
    RunKeepsAll(vs, calls);
    assert r in multiset(GivenAll(vs, calls).list);
    assert r in multiset(AllRemaining(vs));
    RemainingSourced(vs, r);
  }

  lemma CallSourced(vs: seq<View>, call: Call, r: Result)
    requires r in Given(vs, call).list
    ensures Sourced(vs, r)
  {
    hide Given, AllRemaining, Sourced, Steps;
    CallKeeps(vs, call);
    assert r in multiset(Given(vs, call).list);
    assert r in multiset(AllRemaining(vs));
    RemainingSourced(vs, r);
  }

  // gck_enumerator_next draws one object: only the next object of each state matters.
  predicate FetchableNext(v: View) {
    Flat(v.groups) != [] && Fetch(Flat(v.groups)[0], v.attrTypes).Some?
  }

  // The state keeps objects for later but cannot hand one out now.
  predicate Stalls(v: View) {
    !FetchableNext(v) && Left(v) != []
  }

  predicate NextYields(vs: seq<View>) {
    vs != [] && (FetchableNext(vs[0]) || NextYields(vs[1..]))
  }

  predicate NextKeepsOrder(vs: seq<View>) {
    vs == [] || FetchableNext(vs[0]) || (NextKeepsOrder(vs[1..]) && (Stalls(vs[0]) ==> !NextYields(vs[1..])))
  }

  lemma NextFetched(v: View)
    ensures Fetched(v, 1) == if FetchableNext(v) then [Fetch(Flat(v.groups)[0], v.attrTypes).value] else []
    ensures !FetchableNext(v) ==> (Withholds(v, 1) <==> Stalls(v))
  {
    hide Fetch, Seen, Unseen, Flat;
    SeenUnseen(v.groups, 1);
    RunKeeps(v, 1);
    if Flat(v.groups) != [] {
      FetchOne(Flat(v.groups)[0], v.attrTypes);
      assert Flat(v.groups)[..1] == [Flat(v.groups)[0]];
    }
  }

  lemma {:induction false} NextOrdered(vs: seq<View>)
    requires NothingReady(vs)
    ensures (Yields(vs, 1) <==> NextYields(vs)) && (KeepsOrder(vs, 1) <==> NextKeepsOrder(vs))
  {
    hide Fetched, FetchableNext, Stalls, Withholds;
    if vs != [] {
      NextFetched(vs[0]);
      NextOrdered(vs[1..]);
    }
  }

  // The first object of the first of two enumerators cannot be fetched, two others can, and
  // the second enumerator has one. When all three are in one token a batch of two leaves the
  // last of them behind and goes on to the second enumerator; when the first object is in a
  // token of its own the batch is filled from the next token.
  function ExampleChain(bad: Result, good: Result, late: Result, other: Result, attrTypes: seq<nat>, spread: bool): seq<View> {
    [View([], if spread then [[bad], [good, late]] else [[bad, good, late]], attrTypes), View([], [[other]], attrTypes)]
  }

  lemma SeenOne(x: Result, want: nat)
    requires want > 0
    ensures Seen([[x]], want) == [x] && Unseen([[x]], want) == [] && Flat([[x]]) == [x] && Flat([]) == []
    ensures Seen([], want) == [] && Unseen([], want) == []
  {
    assert [[x]][1..] == [] && [x] + [] == [x];
  }

  lemma PerformedTwo(v: View, w: View, want: nat)
    ensures var first := Run(v, want);
            Performed([v, w], want) == [first, if |first.ready| >= want then w else Run(w, want - |first.ready|)]
  {
    hide Run;
    var first := Run(v, want);
    assert [v, w][1..] == [w] && [w][1..] == [];
    if |first.ready| < want {
      var second := Run(w, want - |first.ready|);
      assert Performed([w], want - |first.ready|) == [second];
    }
  }

  lemma ExtractedTwo(v: View, w: View, want: nat)
    requires |v.ready| + |w.ready| <= want
    ensures Extracted([v, w], want) == Batch(v.ready + w.ready, [v.(ready := []), w.(ready := [])])
  {
    assert [v, w][1..] == [w] && [w][1..] == [];
    ExtractedAll([v, w], want);
    ExtractedAll([w], want - |v.ready|);
    assert w.ready + [] == w.ready;
  }

  lemma KeepsOrderTwo(v: View, w: View, want: nat)
    requires v.ready == [] && w.ready == []
    ensures var n := |Fetched(v, want)|;
            KeepsOrder([v, w], want) <==> n >= want || (Withholds(v, want) ==> Fetched(w, want - n) == [])
  {
    hide Fetched, Withholds;
    assert [v, w][1..] == [w] && [w][1..] == [];
    var n := |Fetched(v, want)|;
    if n < want {
      assert !Yields([], want - n) && KeepsOrder([], 0);
      assert Yields([w], want - n) <==> Fetched(w, want - n) != [];
      assert [w][1..] == [] ==> KeepsOrder([w], want - n);
    }
  }

  // A batch of two from two states with nothing ready.
  lemma BatchOfTwo(v: View, w: View)
    requires v.ready == [] && w.ready == []
    ensures var first := Fetched(v, 2);
            |first| == 2 ==>
              && Given([v, w], CallNextN(2)) == Batch(first, [View([], Unseen(v.groups, 2), v.attrTypes), w])
              && CallKeepsOrder([v, w], CallNextN(2))
    ensures var first := Fetched(v, 2);
            |first| < 2 && |first| + |Fetched(w, 2 - |first|)| <= 2 ==>
              && Given([v, w], CallNextN(2)) ==
                   Batch(first + Fetched(w, 2 - |first|),
                         [View([], Unseen(v.groups, 2), v.attrTypes), View([], Unseen(w.groups, 2 - |first|), w.attrTypes)])
              && (CallKeepsOrder([v, w], CallNextN(2)) <==> (Withholds(v, 2) ==> Fetched(w, 2 - |first|) == []))
  {
    hide Fetched, Unseen, Withholds, KeepsOrder, Performed, Extracted;
    var first := Fetched(v, 2);
    KeepsOrderTwo(v, w, 2);
    ExtractedTwo(v, w, 2);
    assert v.(ready := []) == v && w.(ready := []) == w && [] + first == first;
    PerformedTwo(v, w, 2);
    if |first| == 2 {
      ExtractedTwo(Run(v, 2), w, 2);
      assert first + [] == first;
    } else if |first| < 2 && |first| + |Fetched(w, 2 - |first|)| <= 2 {
      ExtractedTwo(Run(v, 2), Run(w, 2 - |first|), 2);
      assert [] + Fetched(w, 2 - |first|) == Fetched(w, 2 - |first|);
    }
  }

  lemma FirstExample(bad: Result, good: Result, late: Result, attrTypes: seq<nat>, spread: bool)
    requires Fetch(bad, attrTypes) == None && Fetch(good, attrTypes).Some? && Fetch(late, attrTypes).Some?
    ensures var v := View([], if spread then [[bad], [good, late]] else [[bad, good, late]], attrTypes);
            var g, l := Fetch(good, attrTypes).value, Fetch(late, attrTypes).value;
            && Left(v) == [g, l] && Fetched(v, 2) == (if spread then [g, l] else [g])
            && Unseen(v.groups, 2) == (if spread then [] else [[late]])
  {
    hide Fetch, FetchAll;
    var gs := if spread then [[bad], [good, late]] else [[bad, good, late]];
    FetchOne(bad, attrTypes);
    FetchOne(good, attrTypes);
    FetchOne(late, attrTypes);
    FetchAllAppend([bad], [good], attrTypes);
    FetchAllAppend([bad] + [good], [late], attrTypes);
    var g, l := Fetch(good, attrTypes).value, Fetch(late, attrTypes).value;
    assert [bad] + [good] == [bad, good] && [bad, good] + [late] == [bad, good, late];
    assert [] + [g] == [g] && [g] + [l] == [g, l];
    assert FetchAll([bad, good], attrTypes) == [g] && FetchAll([bad, good, late], attrTypes) == [g, l];
    if spread {
      assert gs[1..] == [[good, late]] && gs[1..][1..] == [];
      assert [good, late][..2] == [good, late] && [good, late][2..] == [] && [bad] + [good, late] == [bad, good, late];
      assert Flat([[good, late]]) == [good, late] && Seen([[good, late]], 2) == [good, late] && Unseen([[good, late]], 2) == [];
    } else {
      assert gs[1..] == [] && [bad, good, late] + [] == [bad, good, late] && [[late]] + [] == [[late]];
      assert [bad, good, late][..2] == [bad, good] && [bad, good, late][2..] == [late];
      assert gs[0] == [bad, good, late] && Flat(gs) == [bad, good, late];
      assert Seen(gs, 2) == [bad, good];
      assert Unseen(gs, 2) == [[late]];
    }
  }

  lemma OneExample(x: Result, want: nat, attrTypes: seq<nat>)
    requires Fetch(x, attrTypes).Some? && want > 0
    ensures var v := View([], [[x]], attrTypes);
            Fetched(v, want) == [Fetch(x, attrTypes).value] == Left(v) && Unseen(v.groups, want) == []
    ensures var v := View([], [], attrTypes);
            Fetched(v, want) == [] == Left(v)
  {
    hide Fetch;
    SeenOne(x, want);
    FetchOne(x, attrTypes);
    NothingToFetch(attrTypes);
  }

  lemma ExampleToCome(bad: Result, good: Result, late: Result, other: Result, attrTypes: seq<nat>, spread: bool)
    requires Fetch(bad, attrTypes) == None && Fetch(good, attrTypes).Some? && Fetch(late, attrTypes).Some? && Fetch(other, attrTypes).Some?
    ensures var vs := ExampleChain(bad, good, late, other, attrTypes, spread);
            var g, l, o := Fetch(good, attrTypes).value, Fetch(late, attrTypes).value, Fetch(other, attrTypes).value;
            Ordered(vs) && AllRemaining(vs) == [g, l, o]
  {
    hide Fetch, Fetched, Unseen, Left, AllRemaining, FetchAll, Flat, Seen, Steps, AllFetchable;
    var vs := ExampleChain(bad, good, late, other, attrTypes, spread);
    var g, l, o := Fetch(good, attrTypes).value, Fetch(late, attrTypes).value, Fetch(other, attrTypes).value;
    FirstExample(bad, good, late, attrTypes, spread);
    OneExample(other, 1, attrTypes);
    NoViews();
    HeadOf(vs[1], []);
    HeadOf(vs[0], [vs[1]]);
    assert vs == [vs[0]] + [vs[1]] && [vs[1]] + [] == [vs[1]];
    assert [] + [g, l] + [o] == [g, l, o] && [] + [o] + [] == [o];
  }

  lemma OvertakenExample(bad: Result, good: Result, late: Result, other: Result, attrTypes: seq<nat>, spread: bool)
    requires Fetch(bad, attrTypes) == None && Fetch(good, attrTypes).Some? && Fetch(late, attrTypes).Some? && Fetch(other, attrTypes).Some?
    ensures var vs := ExampleChain(bad, good, late, other, attrTypes, spread);
            var g, l, o := Fetch(good, attrTypes).value, Fetch(late, attrTypes).value, Fetch(other, attrTypes).value;
            var b := Given(vs, CallNextN(2));
            && Ordered(vs) && AllRemaining(vs) == [g, l, o]
            && b.list == (if spread then [g, l] else [g, o])
            && Given(b.views, CallNextN(2)).list == (if spread then [o] else [l])
            && (CallKeepsOrder(vs, CallNextN(2)) <==> spread)
  {
    hide Fetch, Fetched, Unseen, Left, Given, CallKeepsOrder, AllRemaining, FetchAll, Flat, Seen, Ordered;
    var vs := ExampleChain(bad, good, late, other, attrTypes, spread);
    var g, l, o := Fetch(good, attrTypes).value, Fetch(late, attrTypes).value, Fetch(other, attrTypes).value;
    ExampleToCome(bad, good, late, other, attrTypes, spread);
    FirstExample(bad, good, late, attrTypes, spread);
    OneExample(other, 1, attrTypes);
    OneExample(other, 2, attrTypes);
    BatchOfTwo(vs[0], vs[1]);
    if spread {
      BatchOfTwo(View([], [], attrTypes), vs[1]);
      assert [] + [o] == [o];
    } else {
      RunKeeps(vs[0], 2);
      OneExample(late, 2, attrTypes);
      OneExample(late, 1, attrTypes);
      BatchOfTwo(View([], [[late]], attrTypes), View([], [], attrTypes));
      assert [g] + [o] == [g, o] && [l] + [] == [l];
    }
  }
}
