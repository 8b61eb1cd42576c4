// The tables schemas are compiled into: a tree in preorder, with a flag for "has children"
// and a flag for "has a next sibling".
module Asn1Defs {
  import opened Wrappers

  datatype Entry = Entry(name: Option<string>, value: Option<string>, kind: nat, flags: nat, down: bool, right: bool)

  datatype Tree = Tree(entry: Entry, children: seq<Tree>)

  predicate HasType(e: Entry) {
    e.kind > 0 || e.flags > 0 || e.down || e.right
  }

  // Not the terminator of a table.
  predicate Real(e: Entry) {
    e.name.Some? || e.value.Some? || HasType(e)
  }

  // Only the entry of nothing ends a table.
  lemma Terminator(e: Entry)
    ensures Real(e) <==> e != Entry(None, None, 0, 0, false, false)
    ensures HasType(e) <==> e.(name := None, value := None) != Entry(None, None, 0, 0, false, false)
  {
  }

  // ---------------------------------------------------------- tables and trees

  datatype Read<T> = Bad | Got(it: T, end: nat)

  // The tree whose preorder starts at position p, and the position after it.
  function ReadTree(defs: seq<Entry>, p: nat): (r: Read<Tree>)
    ensures r.Got? ==> p < r.end <= |defs| && r.it.entry == defs[p]
    decreases |defs| - p, 0
  {
    if p >= |defs| || !Real(defs[p]) then Bad
    else if !defs[p].down then Got(Tree(defs[p], []), p + 1)
    else
      match ReadList(defs, p + 1)
      case Bad => Bad
      case Got(children, end) => Got(Tree(defs[p], children), end)
  }

  // A list of siblings: the last one has no right flag.
  function ReadList(defs: seq<Entry>, p: nat): (r: Read<seq<Tree>>)
    ensures r.Got? ==> p < r.end <= |defs| && r.it != []
    decreases |defs| - p, 1
  {
    match ReadTree(defs, p)
    case Bad => Bad
    case Got(t, next) =>
      if !defs[p].right then Got([t], next)
      else
        match ReadList(defs, next)
        case Bad => Bad
        case Got(ts, end) => Got([t] + ts, end)
  }

  // The table of a tree.
  function Flatten(t: Tree): seq<Entry>
    decreases t, 1
  {
    [t.entry] + FlattenAll(t.children)
  }

  function FlattenAll(ts: seq<Tree>): seq<Entry>
    decreases ts, 0
  {
    if ts == [] then [] else Flatten(ts[0]) + FlattenAll(ts[1..])
  }

  // The flags of a tree say which nodes have children and which have siblings after them.
  ghost predicate Flagged(t: Tree) {
    && Real(t.entry) && (t.entry.down <==> t.children != [])
    && AllFlagged(t.children)
  }

  ghost predicate AllFlagged(ts: seq<Tree>) {
    forall i :: 0 <= i < |ts| ==> Flagged(ts[i]) && (ts[i].entry.right <==> i < |ts| - 1)
  }

  // Reading takes exactly the table of the tree that is read.
  lemma {:induction false} ReadIsFlat(defs: seq<Entry>, p: nat)
    requires ReadTree(defs, p).Got?
    ensures var r := ReadTree(defs, p); Flagged(r.it) && Flatten(r.it) == defs[p..r.end]
    decreases |defs| - p, 0
  {
    if defs[p].down {
      ListIsFlat(defs, p + 1);
    }
  }

  lemma {:induction false} ListIsFlat(defs: seq<Entry>, p: nat)
    requires ReadList(defs, p).Got?
    ensures var r := ReadList(defs, p); AllFlagged(r.it) && FlattenAll(r.it) == defs[p..r.end]
    decreases |defs| - p, 1
  {
    hide Flagged, Flatten;
    var t := ReadTree(defs, p);
    ReadIsFlat(defs, p);
    if defs[p].right {
      ListIsFlat(defs, t.end);
    } else {
      assert [t.it][1..] == [];
      assert Flatten(t.it) + [] == Flatten(t.it);
    }
  }

  // The table of a flagged tree is read as that tree, whatever comes after it.
  lemma {:induction false} FlatIsRead(t: Tree, defs: seq<Entry>, p: nat)
    requires Flagged(t) && p + |Flatten(t)| <= |defs| && defs[p..p + |Flatten(t)|] == Flatten(t)
    ensures ReadTree(defs, p) == Got(t, p + |Flatten(t)|)
    decreases t, 1
  {
    var s := Flatten(t);
    assert defs[p] == defs[p..p + |s|][0];
    assert defs[p + 1..p + |s|] == s[1..] == FlattenAll(t.children);
    if t.children != [] {
      ListIsRead(t.children, defs, p + 1);
    }
  }

  lemma {:induction false} ListIsRead(ts: seq<Tree>, defs: seq<Entry>, p: nat)
    requires ts != [] && AllFlagged(ts) && p + |FlattenAll(ts)| <= |defs| && defs[p..p + |FlattenAll(ts)|] == FlattenAll(ts)
    ensures ReadList(defs, p) == Got(ts, p + |FlattenAll(ts)|)
    decreases ts, 0
  {
    hide Flagged, Flatten, ReadTree, FlattenAll;
    var next := p + |Flatten(ts[0])|;
    FlatSplit(ts, defs, p);
    FlatIsRead(ts[0], defs, p);
    if |ts| > 1 {
      ListIsRead(ts[1..], defs, next);
      assert ts == [ts[0]] + ts[1..];
    } else {
      assert ts == [ts[0]];
    }
  }

  lemma FlatSplit(ts: seq<Tree>, defs: seq<Entry>, p: nat)
    requires ts != [] && p + |FlattenAll(ts)| <= |defs| && defs[p..p + |FlattenAll(ts)|] == FlattenAll(ts)
    ensures var next, end := p + |Flatten(ts[0])|, p + |FlattenAll(ts)|;
            && next <= end && defs[p..next] == Flatten(ts[0])
            && end == next + |FlattenAll(ts[1..])| && defs[next..end] == FlattenAll(ts[1..])
            && (|ts| == 1 ==> next == end)
  {
    hide Flatten;
    var s, first := FlattenAll(ts), Flatten(ts[0]);
    var next := p + |first|;
    assert defs[p..next] == s[..|first|];
    assert defs[next..p + |s|] == s[|first|..];
  }

  // --------------------------------------------------------- walking the table

  // The position after `depth` lists of siblings.
  function Skip(defs: seq<Entry>, p: nat, depth: nat): Option<nat>
    decreases depth
  {
    if depth == 0 then Some(p)
    else
      match ReadList(defs, p)
      case Bad => None
      case Got(_, end) => Skip(defs, end, depth - 1)
  }

  // Passing one entry opens a list of children and closes a list of siblings as its flags say.
  lemma SkipOne(defs: seq<Entry>, p: nat, depth: nat)
    requires depth > 0 && Skip(defs, p, depth).Some?
    ensures p < |defs|
    ensures var e := defs[p];
            Skip(defs, p + 1, depth + (if e.down then 1 else 0) - (if e.right then 0 else 1)) == Skip(defs, p, depth)
  {
    hide Real;
    var e, t := defs[p], ReadTree(defs, p);
    if e.down {
      assert ReadList(defs, p + 1).Got? && ReadList(defs, p + 1).end == t.end;
    }
  }

  // adef_next_sibling lands one subtree ahead.
  method AdefNextSibling(defs: seq<Entry>, def: nat) returns (next: Option<nat>)
    requires ReadList(defs, def).Got?
    ensures next == if defs[def].right then Some(ReadTree(defs, def).end) else None
    ensures next.Some? ==> ReadList(defs, next.value).Got?
                           && ReadList(defs, def).it == [ReadTree(defs, def).it] + ReadList(defs, next.value).it
    ensures next == None ==> ReadList(defs, def).it == [ReadTree(defs, def).it]
  {
    hide Real;
    assert Real(defs[def]);
    if !defs[def].right {
      return None;
    }
    ghost var end := ReadTree(defs, def).end;
    var at := def;
    if defs[def].down {
      var depth := 1;
      while depth > 0
        invariant depth >= 0 && def <= at < |defs|
        invariant Skip(defs, at + 1, depth) == Some(end)
        decreases |defs| - at
      {
        SkipOne(defs, at + 1, depth);
        at := at + 1;
        if defs[at].down {
          depth := depth + 1;
        }
        if !defs[at].right {
          depth := depth - 1;
        }
      }
    }
    at := at + 1;
    assert at == end;
    ListHead(defs, at);
    assert ReadTree(defs, at).Got? && Real(defs[at]);
    return Some(at);
  }

  // adef_first_child
  method AdefFirstChild(defs: seq<Entry>, def: nat) returns (child: Option<nat>)
    requires ReadTree(defs, def).Got?
    ensures child == None <==> ReadTree(defs, def).it.children == []
    ensures child.Some? ==> ReadList(defs, child.value).Got? && ReadList(defs, child.value).it == ReadTree(defs, def).it.children
  {
    if !defs[def].down {
      return None;
    }
    return Some(def + 1);
  }

  function FirstTree(ts: seq<Tree>, matches: Entry -> bool): (r: Option<Tree>)
    ensures r.Some? ==> r.value in ts && matches(r.value.entry)
  {
    if ts == [] then None else if matches(ts[0].entry) then Some(ts[0]) else FirstTree(ts[1..], matches)
  }

  lemma {:induction false} FirstTreeNone(ts: seq<Tree>, matches: Entry -> bool)
    ensures FirstTree(ts, matches) == None <==> forall i :: 0 <= i < |ts| ==> !matches(ts[i].entry)
  {
    if ts != [] {
      FirstTreeNone(ts[1..], matches);
      assert forall i :: 0 < i < |ts| ==> ts[i] == ts[1..][i - 1];
    }
  }

  lemma FirstStep(ts: seq<Tree>, i: nat, matches: Entry -> bool)
    requires i < |ts|
    ensures ts[i..][0] == ts[i]
    ensures FirstTree(ts[i..], matches) == if matches(ts[i].entry) then Some(ts[i]) else FirstTree(ts[i + 1..], matches)
    ensures [ts[i]] + ts[i + 1..] == ts[i..]
    ensures FirstTree([], matches) == None
  {
    assert ts[i..][1..] == ts[i + 1..];
  }

  // lookup_def_of_type and the search of egg_asn1x_create: the first child that matches,
  // of all the children and nothing else.
  method FirstMatch(defs: seq<Entry>, def: nat, matches: Entry -> bool) returns (found: Option<nat>)
    requires ReadTree(defs, def).Got?
    ensures var t := FirstTree(ReadTree(defs, def).it.children, matches);
            (found == None <==> t == None)
            && (found.Some? ==> ReadTree(defs, found.value).Got? && ReadTree(defs, found.value).it == t.value)
  {
    hide ReadTree, ReadList, FirstTree;
    ghost var children := ReadTree(defs, def).it.children;
    ghost var i := 0;
    found := AdefFirstChild(defs, def);
    assert children[0..] == children;
    while found.Some?
      invariant 0 <= i <= |children|
      invariant FirstTree(children, matches) == FirstTree(children[i..], matches)
      invariant found == None ==> children[i..] == []
      invariant found.Some? ==> ReadList(defs, found.value).Got? && ReadList(defs, found.value).it == children[i..]
      decreases |children| - i
    {
      ListHead(defs, found.value);
      FirstStep(children, i, matches);
      if matches(defs[found.value]) {
        return;
      }
      found := AdefNextSibling(defs, found.value);
      i := i + 1;
    }
  }

  lemma ListHead(defs: seq<Entry>, p: nat)
    requires ReadList(defs, p).Got?
    ensures ReadTree(defs, p).Got? && ReadList(defs, p).it != [] && ReadList(defs, p).it[0] == ReadTree(defs, p).it
  {
  }
}
