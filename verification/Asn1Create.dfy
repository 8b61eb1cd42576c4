// Turning a table into a tree of linked nodes.
module Asn1Create {
  import opened Wrappers
  import opened Asn1Defs

  // ------------------------------------------------ where the children are

  // The positions of the trees of a list of siblings.
  function Starts(defs: seq<Entry>, p: nat): (ps: seq<nat>)
    requires ReadList(defs, p).Got?
    ensures |ps| == |ReadList(defs, p).it| && ps[0] == p
    decreases |defs| - p
  {
    if !defs[p].right then [p] else [p] + Starts(defs, ReadTree(defs, p).end)
  }

  function ChildPositions(defs: seq<Entry>, j: nat): (ps: seq<nat>)
    ensures ReadTree(defs, j).Got? ==> |ps| == |ReadTree(defs, j).it.children| && (ps == [] <==> !defs[j].down)
    ensures ps != [] ==> ps[0] == j + 1
  {
    if ReadTree(defs, j).Got? && defs[j].down then Starts(defs, j + 1) else []
  }

  // A sibling that is not the last one ends where the next one starts.
  lemma {:induction false} StartsAt(defs: seq<Entry>, p: nat, x: nat)
    requires ReadList(defs, p).Got? && x < |Starts(defs, p)|
    ensures var ps := Starts(defs, p);
            && p <= ps[x] && ReadTree(defs, ps[x]).Got? && ReadTree(defs, ps[x]).it == ReadList(defs, p).it[x]
            && (defs[ps[x]].right <==> x + 1 < |ps|)
            && ReadTree(defs, ps[x]).end == if x + 1 < |ps| then ps[x + 1] else ReadList(defs, p).end
    decreases |defs| - p
  {
    hide Real;
    if x > 0 {
      StartsAt(defs, ReadTree(defs, p).end, x - 1);
    }
  }

  lemma ChildAt(defs: seq<Entry>, j: nat, x: nat)
    requires ReadTree(defs, j).Got? && x < |ChildPositions(defs, j)|
    ensures var ps := ChildPositions(defs, j);
            && j < ps[x] && ReadTree(defs, ps[x]).Got? && ReadTree(defs, ps[x]).it == ReadTree(defs, j).it.children[x]
            && (defs[ps[x]].right <==> x + 1 < |ps|)
            && ReadTree(defs, ps[x]).end == if x + 1 < |ps| then ps[x + 1] else ReadTree(defs, j).end
  {
    hide Real;
    StartsAt(defs, j + 1, x);
  }

  // --------------------------------------------------- how far the tree is built

  type Kids = map<nat, seq<nat>>

  // The nodes there are, p to n - 1, each with the positions of the children it has been
  // given. Nodes that are not on the path to where children are added have all of theirs.
  ghost predicate Nodes(defs: seq<Entry>, p: nat, n: nat, path: seq<nat>, kids: Kids) {
    && (forall j :: j in kids <==> p <= j < n)
    && (forall j :: j in kids ==> NodeAt(defs, n, path, kids[j], j))
  }

  ghost predicate NodeAt(defs: seq<Entry>, n: nat, path: seq<nat>, cs: seq<nat>, j: nat) {
    && ReadTree(defs, j).Got? && cs <= ChildPositions(defs, j)
    && (j !in path ==> cs == ChildPositions(defs, j))
    && forall x :: 0 <= x < |cs| ==> j < cs[x] < n
  }

  // A path from the root downwards: each node is the newest child of the one before.
  ghost predicate Path(p: nat, path: seq<nat>, kids: Kids) {
    path == [] ||
    (Last(path) in kids &&
     if |path| == 1 then Last(path) == p
     else Path(p, Front(path), kids) && Newest(kids, Last(Front(path)), Last(path)))
  }

  ghost predicate Newest(kids: Kids, q: nat, j: nat) {
    q < j && q in kids && kids[q] != [] && kids[q][|kids[q]| - 1] == j
  }

  function Last(path: seq<nat>): nat
    requires path != []
  {
    path[|path| - 1]
  }

  function Front(path: seq<nat>): seq<nat>
    requires path != []
  {
    path[..|path| - 1]
  }

  ghost predicate Growing(defs: seq<Entry>, p: nat, n: nat, path: seq<nat>, kids: Kids) {
    Nodes(defs, p, n, path, kids) && Path(p, path, kids)
  }

  // The next node to be made belongs to the last node of the path.
  ghost predicate Next(defs: seq<Entry>, p: nat, n: nat, path: seq<nat>, kids: Kids) {
    && Growing(defs, p, n, path, kids) && path != []
    && var cs := ChildPositions(defs, Last(path)); var k := |kids[Last(path)]|;
       k < |cs| && cs[k] == n
  }

  // The last node of the path has been given all its children, and its table ends here.
  ghost predicate Complete(defs: seq<Entry>, p: nat, n: nat, path: seq<nat>, kids: Kids) {
    && Growing(defs, p, n, path, kids) && path != []
    && kids[Last(path)] == ChildPositions(defs, Last(path)) && ReadTree(defs, Last(path)).end == n
  }

  function WithChild(kids: Kids, q: nat, n: nat): Kids
    requires q in kids
  {
    kids[q := kids[q] + [n]][n := []]
  }

  // The path stays one when only nodes from its last one on are given children.
  lemma {:induction false} PathKept(p: nat, path: seq<nat>, kids: Kids, kids': Kids)
    requires Path(p, path, kids) && (path != [] ==> Last(path) in kids')
    requires forall j :: j in kids && path != [] && j < Last(path) ==> j in kids' && kids'[j] == kids[j]
    ensures Path(p, path, kids')
    decreases |path|
  {
    if |path| > 1 {
      PathKept(p, Front(path), kids, kids');
    }
  }

  // A new node is the last of the path and has no children.
  lemma NewNode(defs: seq<Entry>, p: nat, n: nat, path: seq<nat>, kids: Kids)
    requires Next(defs, p, n, path, kids)
    ensures Growing(defs, p, n + 1, path + [n], WithChild(kids, Last(path), n))
    ensures ReadTree(defs, n).Got?
  {
    hide ReadTree, ChildPositions, Nodes, Path, WithChild;
    NewNodes(defs, p, n, path, kids);
    NewPath(defs, p, n, path, kids);
  }

  lemma NewNodes(defs: seq<Entry>, p: nat, n: nat, path: seq<nat>, kids: Kids)
    requires Next(defs, p, n, path, kids)
    ensures Nodes(defs, p, n + 1, path + [n], WithChild(kids, Last(path), n)) && ReadTree(defs, n).Got?
  {
    hide ReadTree, ChildPositions, NodeAt, Path;
    var q := Last(path);
    NextIn(defs, p, n, path, kids);
    var kids' := WithChild(kids, q, n);
    ChildAt(defs, q, |kids[q]|);
    forall j | j in kids' ensures NodeAt(defs, n + 1, path + [n], kids'[j], j) {
      if j == n {
        NoChildren(defs, n, path);
      } else if j == q {
        OneMoreChild(defs, n, path, kids[q], q);
      } else {
        StillAt(defs, n, path, kids[j], j);
      }
    }
  }

  lemma NextIn(defs: seq<Entry>, p: nat, n: nat, path: seq<nat>, kids: Kids)
    requires Growing(defs, p, n, path, kids) && path != []
    ensures Last(path) in kids && p <= Last(path) < n && NodeAt(defs, n, path, kids[Last(path)], Last(path))
    ensures ReadTree(defs, Last(path)).Got?
  {
    hide ReadTree, ChildPositions;
  }

  lemma NoChildren(defs: seq<Entry>, n: nat, path: seq<nat>)
    requires ReadTree(defs, n).Got?
    ensures NodeAt(defs, n + 1, path + [n], [], n)
  {
    hide ReadTree, ChildPositions;
  }

  lemma OneMoreChild(defs: seq<Entry>, n: nat, path: seq<nat>, cs: seq<nat>, q: nat)
    requires NodeAt(defs, n, path, cs, q) && path != [] && q == Last(path) && q < n
    requires |cs| < |ChildPositions(defs, q)| && ChildPositions(defs, q)[|cs|] == n
    ensures NodeAt(defs, n + 1, path + [n], cs + [n], q)
  {
    hide ReadTree, ChildPositions;
    assert cs + [n] == ChildPositions(defs, q)[..|cs| + 1];
    assert q in path + [n];
  }

  lemma StillAt(defs: seq<Entry>, n: nat, path: seq<nat>, cs: seq<nat>, j: nat)
    requires NodeAt(defs, n, path, cs, j)
    ensures NodeAt(defs, n + 1, path + [n], cs, j)
  {
    hide ReadTree, ChildPositions;
  }

  lemma NewPath(defs: seq<Entry>, p: nat, n: nat, path: seq<nat>, kids: Kids)
    requires Growing(defs, p, n, path, kids) && path != []
    ensures Path(p, path + [n], WithChild(kids, Last(path), n))
  {
    hide ReadTree, ChildPositions, Nodes;
    NextIn(defs, p, n, path, kids);
    PathKept(p, path, kids, WithChild(kids, Last(path), n));
    assert Front(path + [n]) == path;
  }

  // A new node with children is next given the first of them; one without is complete.
  lemma LeafOrNot(defs: seq<Entry>, p: nat, n: nat, path: seq<nat>, kids: Kids)
    requires p <= n && Growing(defs, p, n + 1, path, kids) && path != [] && Last(path) == n && kids[n] == []
    ensures if defs[n].down then Next(defs, p, n + 1, path, kids) else Complete(defs, p, n + 1, path, kids)
  {
    hide Nodes, Path;
    NextIn(defs, p, n + 1, path, kids);
  }

  // A complete node with a sibling after it is followed by that one; a complete last child
  // completes its parent.
  lemma Climb(defs: seq<Entry>, p: nat, n: nat, path: seq<nat>, kids: Kids)
    requires Complete(defs, p, n, path, kids)
    ensures Last(path) < |defs|
    ensures var up := Front(path);
            && Growing(defs, p, n, up, kids)
            && (up != [] ==> if defs[Last(path)].right then Next(defs, p, n, up, kids) else Complete(defs, p, n, up, kids))
  {
    hide ReadTree, ChildPositions, Nodes;
    var up, q := Front(path), Last(path);
    NextIn(defs, p, n, path, kids);
    NodesUp(defs, p, n, path, kids);
    Within(defs, q);
    if up != [] {
      var u := Last(up);
      NextIn(defs, p, n, up, kids);
      ChildOfPath(defs, n, up, kids, u, q);
    }
  }

  lemma Within(defs: seq<Entry>, j: nat)
    requires ReadTree(defs, j).Got?
    ensures j < |defs|
  {
  }

  lemma NodesUp(defs: seq<Entry>, p: nat, n: nat, path: seq<nat>, kids: Kids)
    requires Complete(defs, p, n, path, kids)
    ensures Nodes(defs, p, n, Front(path), kids)
  {
    hide ReadTree, ChildPositions, Path;
    assert path == Front(path) + [Last(path)];
  }

  lemma ChildOfPath(defs: seq<Entry>, n: nat, up: seq<nat>, kids: Kids, u: nat, q: nat)
    requires Newest(kids, u, q) && NodeAt(defs, n, up, kids[u], u)
    ensures var k, cs := |kids[u]|, ChildPositions(defs, u);
            && ReadTree(defs, u).Got? && ReadTree(defs, q).Got? && k <= |cs|
            && (if defs[q].right then k < |cs| && cs[k] == ReadTree(defs, q).end
                else kids[u] == cs && ReadTree(defs, u).end == ReadTree(defs, q).end)
  {
    hide ReadTree, ChildPositions;
    var x := |kids[u]| - 1;
    ChildAt(defs, u, x);
    assert ChildPositions(defs, u)[x] == kids[u][x] == q;
  }

  // ------------------------------------------------------------- linked nodes

  class GNode {
    const def: nat
    var parent: GNode?
    var children: seq<GNode>

    constructor (def: nat)
      ensures this.def == def && parent == null && children == []
    {
      this.def := def;
      parent := null;
      children := [];
    }
  }

  // The nodes made for the positions, linked both ways as `kids` says.
  ghost predicate Linked(p: nat, kids: Kids, at: map<nat, GNode>)
    reads at.Values
  {
    && at.Keys == kids.Keys
    && (forall i, j :: i in at && j in at && at[i] == at[j] ==> i == j)
    && (forall j :: j in at ==> at[j].def == j && |at[j].children| == |kids[j]|)
    && (forall j, x :: j in at && 0 <= x < |kids[j]| ==>
          kids[j][x] in at && at[j].children[x] == at[kids[j][x]] && at[kids[j][x]].parent == at[j])
    && (p in at ==> at[p].parent == null)
  }

  lemma ValuesWith(at: map<nat, GNode>, n: nat, node: GNode)
    requires n !in at
    ensures at[n := node].Values == at.Values + {node}
  {
    var at' := at[n := node];
    assert forall j :: j in at' ==> at'[j] == if j == n then node else at[j];
    assert at'[n] == node;
    assert forall j :: j in at ==> at'[j] == at[j] && j in at';
  }

  // g_node_append of a new node
  method AppendNew(parent: GNode, n: nat, ghost p: nat, ghost q: nat, ghost kids: Kids, ghost at: map<nat, GNode>)
    returns (node: GNode)
    requires Linked(p, kids, at) && q in at && at[q] == parent && n !in at && n != p
    requires forall j, x :: j in kids && 0 <= x < |kids[j]| ==> kids[j][x] != n
    modifies parent`children
    ensures fresh(node) && node.def == n && at[n := node].Values == at.Values + {node}
    ensures at[n := node].Keys == WithChild(kids, q, n).Keys
    ensures Linked(p, WithChild(kids, q, n), at[n := node])
  {
    node := new GNode(n);
    parent.children := parent.children + [node];
    node.parent := parent;
    ghost var kids', at' := WithChild(kids, q, n), at[n := node];
    ValuesWith(at, n, node);
    forall j, x | j in at' && 0 <= x < |kids'[j]|
      ensures kids'[j][x] in at' && at'[j].children[x] == at'[kids'[j][x]] && at'[kids'[j][x]].parent == at'[j]
    {
      if j == q && x == |kids[q]| {
        assert kids'[j][x] == n;
      } else {
        assert j in at && x < |kids[j]| && kids'[j][x] == kids[j][x];
        assert at[kids[j][x]] != node;
      }
    }
  }

  // Where the next node goes: the ghost `up` is the path to it, empty when the tree is done.
  ghost predicate Above(defs: seq<Entry>, p: nat, n: nat, parent: GNode?, up: seq<nat>, kids: Kids, at: map<nat, GNode>) {
    if up == [] then
      parent == null && Growing(defs, p, n, up, kids) && ReadTree(defs, p).Got? && ReadTree(defs, p).end == n
    else
      Next(defs, p, n, up, kids) && Last(up) in at && parent == at[Last(up)]
  }

  lemma InValues(at: map<nat, GNode>, j: nat)
    requires j in at
    ensures at[j] in at.Values
  {
  }

  lemma NotYet(defs: seq<Entry>, p: nat, n: nat, path: seq<nat>, kids: Kids)
    requires Growing(defs, p, n, path, kids) && path != []
    ensures n !in kids && Last(path) in kids && forall j, x :: j in kids && 0 <= x < |kids[j]| ==> kids[j][x] != n
  {
    hide ChildPositions, ReadTree;
  }

  lemma ParentLink(defs: seq<Entry>, p: nat, n: nat, path: seq<nat>, kids: Kids, at: map<nat, GNode>)
    requires Linked(p, kids, at) && Growing(defs, p, n, path, kids) && path != []
    ensures Last(path) in at && at[Last(path)].def == Last(path) && path[0] == p
    ensures |path| > 1 ==> Last(Front(path)) in at
    ensures at[Last(path)].parent == if |path| == 1 then null else at[Last(Front(path))]
  {
    hide Nodes;
    PathStarts(p, path, kids);
    if |path| > 1 {
      var q := Last(Front(path));
      assert at[kids[q][|kids[q]| - 1]].parent == at[q];
    }
  }

  lemma {:induction false} PathStarts(p: nat, path: seq<nat>, kids: Kids)
    requires Path(p, path, kids) && path != []
    ensures path[0] == p
    decreases |path|
  {
    if |path| > 1 {
      PathStarts(p, Front(path), kids);
    }
  }

  // Climb until there is a node with a sibling still to come.
  method ClimbUp(defs: seq<Entry>, node: GNode, ghost p: nat, ghost n: nat, ghost path: seq<nat>, ghost kids: Kids,
                 ghost at: map<nat, GNode>) returns (parent: GNode?, ghost up: seq<nat>)
    requires Linked(p, kids, at) && Complete(defs, p, n, path, kids) && Last(path) in at && at[Last(path)] == node
    requires !defs[Last(path)].right
    ensures Above(defs, p, n, parent, up, kids, at)
  {
    hide ReadTree, Growing, ChildPositions;
    ParentLink(defs, p, n, path, kids, at);
    Climb(defs, p, n, path, kids);
    RootEnds(defs, p, n, path, kids);
    parent := node.parent;
    up := Front(path);
    while parent != null
      invariant if up == [] then Above(defs, p, n, parent, up, kids, at)
                else Complete(defs, p, n, up, kids) && Last(up) in at && parent == at[Last(up)]
      decreases |up|
    {
      ParentLink(defs, p, n, up, kids, at);
      Climb(defs, p, n, up, kids);
      RootEnds(defs, p, n, up, kids);
      var right := defs[parent.def].right;
      parent := parent.parent;
      up := Front(up);
      if right {
        break;
      }
    }
  }

  // The node that the node after the newest one belongs to.
  method NextParent(defs: seq<Entry>, node: GNode, def: nat, ghost p: nat, ghost path: seq<nat>, ghost kids: Kids,
                    ghost at: map<nat, GNode>) returns (parent: GNode?, ghost up: seq<nat>)
    requires Linked(p, kids, at) && Growing(defs, p, def + 1, path, kids) && p <= def < |defs|
    requires path != [] && Last(path) == def && def in at && def in kids && kids[def] == [] && at[def] == node
    requires defs[p].down && ReadTree(defs, p).Got?
    ensures Above(defs, p, def + 1, parent, up, kids, at)
  {
    hide ReadTree, Growing, ChildPositions, Linked;
    LeafOrNot(defs, p, def, path, kids);
    ParentLink(defs, p, def + 1, path, kids, at);
    if defs[def].down {
      parent, up := node, path;
    } else if defs[def].right {
      Climb(defs, p, def + 1, path, kids);
      assert node.parent != null;
      parent, up := node.parent, Front(path);
    } else {
      parent, up := ClimbUp(defs, node, p, def + 1, path, kids, at);
    }
  }

  lemma RootEnds(defs: seq<Entry>, p: nat, n: nat, path: seq<nat>, kids: Kids)
    requires Complete(defs, p, n, path, kids)
    ensures |path| == 1 ==> ReadTree(defs, p).Got? && ReadTree(defs, p).end == n
  {
  }

  // The loop of egg_asn1x_create that builds the nodes.
  method BuildNodes(defs: seq<Entry>, p: nat) returns (root: GNode, ghost at: map<nat, GNode>)
    requires ReadTree(defs, p).Got?
    ensures fresh(at.Values) && p in at && at[p] == root
    ensures exists kids :: Growing(defs, p, ReadTree(defs, p).end, [], kids) && Linked(p, kids, at)
  {
    hide ReadTree, Growing, ChildPositions, Linked;
    root := new GNode(p);
    at := map[p := root];
    ghost var kids: Kids := map[p := []];
    ghost var path: seq<nat> := [p];
    assert Growing(defs, p, p + 1, path, kids) && Linked(p, kids, at) by {
      Start(defs, p, root);
    }
    var def, node := p, root;
    if defs[p].down {
      while true
        invariant def < |defs| && p <= def && fresh(at.Values) && p in at && at[p] == root
        invariant Growing(defs, p, def + 1, path, kids) && Linked(p, kids, at) && at.Keys == kids.Keys
        invariant path != [] && Last(path) == def && def in at && def in kids && kids[def] == [] && at[def] == node
        decreases |defs| - def
      {
        ghost var up;
        var parent;
        parent, up := NextParent(defs, node, def, p, path, kids, at);
        if parent == null {
          assert Growing(defs, p, ReadTree(defs, p).end, [], kids);
          break;
        }
        NewNode(defs, p, def + 1, up, kids);
        NotYet(defs, p, def + 1, up, kids);
        InValues(at, Last(up));
        def := def + 1;
        node := AppendNew(parent, def, p, Last(up), kids, at);
        path, kids, at := up + [def], WithChild(kids, Last(up), def), at[def := node];
      }
    } else {
      LeafOrNot(defs, p, p, path, kids);
      RootEnds(defs, p, p + 1, path, kids);
      Climb(defs, p, p + 1, path, kids);
      assert Front(path) == [];
    }
  }

  lemma Start(defs: seq<Entry>, p: nat, root: GNode)
    requires ReadTree(defs, p).Got? && root.def == p && root.parent == null && root.children == []
    ensures Growing(defs, p, p + 1, [p], map[p := []]) && Linked(p, map[p := []], map[p := root])
  {
    hide ReadTree, ChildPositions;
  }

  // -------------------------------------------------------------- the result

  // The nodes under `node` form the tree t: same entries, same children in the same order.
  ghost predicate Shape(defs: seq<Entry>, nodes: set<GNode>, node: GNode, t: Tree)
    requires node in nodes
    reads nodes
    decreases t
  {
    && node.def < |defs| && defs[node.def] == t.entry && |node.children| == |t.children|
    && forall i :: 0 <= i < |t.children| ==>
         node.children[i] in nodes && node.children[i].parent == node && Shape(defs, nodes, node.children[i], t.children[i])
  }

  lemma {:induction false} ShapeOf(defs: seq<Entry>, p: nat, n: nat, kids: Kids, at: map<nat, GNode>, j: nat)
    requires Growing(defs, p, n, [], kids) && Linked(p, kids, at) && j in at && at[j] in at.Values
    ensures ReadTree(defs, j).Got? && Shape(defs, at.Values, at[j], ReadTree(defs, j).it)
    decreases n - j
  {
    hide Path, ReadTree, ChildPositions;
    assert p <= j < n && j in kids;
    var t, cs := ReadTree(defs, j).it, ChildPositions(defs, j);
    forall i | 0 <= i < |t.children|
      ensures at[j].children[i] in at.Values && at[j].children[i].parent == at[j]
              && Shape(defs, at.Values, at[j].children[i], t.children[i])
    {
      ChildAt(defs, j, i);
      assert kids[j][i] == cs[i] && cs[i] in at;
      InValues(at, cs[i]);
      ShapeOf(defs, p, n, kids, at, cs[i]);
    }
  }

  // The linked nodes form the tree t, whose table stands at the root's own definition.
  ghost predicate Made(defs: seq<Entry>, nodes: set<GNode>, root: GNode, t: Tree)
    reads nodes
  {
    && root in nodes && root.parent == null && Shape(defs, nodes, root, t)
    && Flagged(t) && root.def + |Flatten(t)| <= |defs| && defs[root.def..root.def + |Flatten(t)|] == Flatten(t)
  }

  // egg_asn1x_create for an identifier: the tree that is built is the one whose table
  // stands at the first definition of that name, and its preorder is that slice.
  method EggAsn1xCreate(defs: seq<Entry>, name: string) returns (root: GNode?, ghost nodes: set<GNode>)
    requires ReadTree(defs, 0).Got?
    ensures var t := FirstTree(ReadTree(defs, 0).it.children, (e: Entry) => e.name == Some(name));
            (root == null <==> t == None || !HasType(t.value.entry))
            && (root != null ==> fresh(nodes) && Made(defs, nodes, root, t.value))
  {
    hide ReadTree, Growing, Linked, Shape, Flatten;
    nodes := {};
    var def := FirstMatch(defs, 0, (e: Entry) => e.name == Some(name));
    if def == None || !HasType(defs[def.value]) {
      return null, {};
    }
    ghost var at;
    root, at := BuildNodes(defs, def.value);
    InValues(at, def.value);
    ghost var t := ReadTree(defs, def.value);
    ghost var kids :| Growing(defs, def.value, t.end, [], kids) && Linked(def.value, kids, at);
    RootOf(defs, def.value, kids, at);
    ShapeOf(defs, def.value, t.end, kids, at, def.value);
    ReadIsFlat(defs, def.value);
    nodes := at.Values;
  }

  lemma RootOf(defs: seq<Entry>, p: nat, kids: Kids, at: map<nat, GNode>)
    requires Linked(p, kids, at) && p in at
    ensures at[p].parent == null && at[p].def == p
  {
  }
}
