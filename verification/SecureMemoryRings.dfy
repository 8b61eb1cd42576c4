// The two circular doubly linked rings of cells, used and unused.
module SecureMemoryRings {
  import opened Wrappers
  import opened SecureMemoryModel

  ghost function Succ(r: seq<Cell>, i: nat): Cell
    requires i < |r|
  {
    if i + 1 < |r| then r[i + 1] else r[0]
  }

  ghost function Pred(r: seq<Cell>, i: nat): Cell
    requires i < |r|
  {
    if i > 0 then r[i - 1] else r[|r| - 1]
  }

  // head is the ring whose cells, in next order, are r.
  ghost predicate Ring(head: Cell?, r: seq<Cell>)
    reads r`next, r`prev
  {
    && (r == [] <==> head == null)
    && (r != [] ==> head == r[0])
    && (forall i, j :: 0 <= i < j < |r| ==> r[i] != r[j])
    && (forall i {:trigger r[i].next} :: 0 <= i < |r| ==> r[i].next == Succ(r, i))
    && (forall i {:trigger r[i].prev} :: 0 <= i < |r| ==> r[i].prev == Pred(r, i))
  }

  // The cell becomes the head, in front of the old head's successor.
  ghost function Inserted(r: seq<Cell>, cell: Cell): seq<Cell> {
    if r == [] then [cell] else [cell] + r[1..] + [r[0]]
  }

  ghost function Removed(r: seq<Cell>, k: nat): seq<Cell>
    requires k < |r|
  {
    r[..k] + r[k + 1..]
  }

  lemma InsertedMembers(r: seq<Cell>, cell: Cell)
    ensures forall c :: c in Inserted(r, cell) <==> c in r || c == cell
    ensures |Inserted(r, cell)| == |r| + 1
  {
    if r != [] {
      assert r == [r[0]] + r[1..];
    }
  }

  lemma RemovedMembers(r: seq<Cell>, k: nat)
    requires k < |r| && Distinct(r)
    ensures forall c :: c in Removed(r, k) <==> c in r && c != r[k]
    ensures |Removed(r, k)| == |r| - 1
  {
    assert r == r[..k] + [r[k]] + r[k + 1..];
  }

  lemma RingIsDistinct(head: Cell?, r: seq<Cell>)
    requires Ring(head, r)
    ensures Distinct(r)
  {
  }

  lemma NotApart(r: seq<Cell>, q: seq<Cell>, k: nat)
    requires k < |r| && Apart(r, q)
    ensures r[k] !in q
  {
  }

  lemma RemovedApart(r: seq<Cell>, k: nat, q: seq<Cell>)
    requires k < |r| && Apart(r, q) && Apart(q, r)
    ensures Apart(Removed(r, k), q) && Apart(q, Removed(r, k))
  {
    var s := Removed(r, k);
    assert forall i :: 0 <= i < |s| ==> s[i] == r[if i < k then i else i + 1];
  }

  lemma InsertedApart(r: seq<Cell>, cell: Cell, q: seq<Cell>)
    requires Apart(r, q) && Apart(q, r) && cell !in q
    ensures Apart(Inserted(r, cell), q) && Apart(q, Inserted(r, cell))
  {
    var s := Inserted(r, cell);
    assert forall i :: 0 <= i < |s| ==> s[i] == if i == 0 then cell else if i < |r| then r[i] else r[0];
  }

  ghost predicate Apart(r: seq<Cell>, q: seq<Cell>) {
    forall i, j :: 0 <= i < |r| && 0 <= j < |q| ==> r[i] != q[j]
  }

  // Taking out r[k] makes its two neighbours each other's neighbours.
  lemma NeighborsRemoved(r: seq<Cell>, k: nat, i: nat)
    requires k < |r| && i < |Removed(r, k)| && forall i, j :: 0 <= i < j < |r| ==> r[i] != r[j]
    ensures var j := if i < k then i else i + 1;
            && j < |r| && Removed(r, k)[i] == r[j] && r[j] != r[k]
            && Succ(Removed(r, k), i) == (if r[j] == Pred(r, k) then Succ(r, k) else Succ(r, j))
            && Pred(Removed(r, k), i) == (if r[j] == Succ(r, k) then Pred(r, k) else Pred(r, j))
  {
  }

  // The cell goes in front of the old head's successor.
  method Link(ring: Cell?, cell: Cell, ghost r: seq<Cell>)
    requires Ring(ring, r) && cell !in r && cell.next == null && cell.prev == null
    modifies r`next, r`prev, cell`next, cell`prev
    ensures Ring(cell, Inserted(r, cell))
  {
    assert cell != ring;
    if ring != null {
      cell.next := ring.next;
      cell.prev := ring;
      cell.next.prev := cell;
      cell.prev.next := cell;
    } else {
      cell.next := cell;
      cell.prev := cell;
    }
    assert cell.next.prev == cell;
    assert cell.prev.next == cell;
  }

  method InsertCellRing(ring: Cell?, cell: Cell, ghost r: seq<Cell>, ghost otherRing: Cell?, ghost q: seq<Cell>)
    returns (ring': Cell?)
    requires Ring(ring, r) && cell !in r && Ring(otherRing, q) && Apart(r, q) && cell !in q
    requires cell.next == null && cell.prev == null
    modifies r`next, r`prev, cell`next, cell`prev
    ensures Ring(ring', Inserted(r, cell)) && ring' == cell
    ensures Ring(otherRing, q)
  {
    hide Ring, Inserted;
    Link(ring, cell, r);
    ring' := cell;
  }

  // What the links of a cell are, and whether it is the only one.
  lemma Linked(ring: Cell?, r: seq<Cell>, k: nat)
    requires Ring(ring, r) && k < |r|
    ensures Distinct(r) && ring == r[0] && r[k].next == Succ(r, k) && r[k].prev == Pred(r, k)
    ensures Succ(r, k).prev == r[k] && Pred(r, k).next == r[k]
    ensures (r[k] == ring <==> k == 0) && (Succ(r, k) == r[k] <==> |r| == 1) && (Pred(r, k) == r[k] <==> |r| == 1)
    ensures k == 0 && |r| > 1 ==> Succ(r, k) == r[1]
  {
  }

  lemma RingRemoved(head: Cell?, r: seq<Cell>, k: nat)
    requires Distinct(r) && k < |r|
    requires head == if k > 0 then r[0] else if |r| > 1 then r[1] else null
    requires forall i :: 0 <= i < |r| && i != k ==>
               && r[i].next == (if r[i] == Pred(r, k) then Succ(r, k) else Succ(r, i))
               && r[i].prev == (if r[i] == Succ(r, k) then Pred(r, k) else Pred(r, i))
    ensures Ring(head, Removed(r, k))
  {
    hide Succ, Pred;
    var r' := Removed(r, k);
    RemovedDistinct(r, k);
    forall i | 0 <= i < |r'| ensures r'[i].next == Succ(r', i) && r'[i].prev == Pred(r', i) {
      NeighborsRemoved(r, k, i);
    }
  }

  // The neighbours of r[k] become each other's neighbours.
  method Unlink(cell: Cell, ghost ring: Cell?, ghost r: seq<Cell>, ghost k: nat)
    requires Ring(ring, r) && k < |r| && r[k] == cell
    modifies r`next, r`prev
    ensures cell.next == null && cell.prev == null
    ensures forall i :: 0 <= i < |r| && i != k ==>
              && r[i].next == (if r[i] == Pred(r, k) then Succ(r, k) else Succ(r, i))
              && r[i].prev == (if r[i] == Succ(r, k) then Pred(r, k) else Pred(r, i))
  {
    cell.next.prev := cell.prev;
    cell.prev.next := cell.next;
    cell.next := null;
    cell.prev := null;
  }

  method RemoveCellRing(ring: Cell?, cell: Cell, ghost r: seq<Cell>, ghost k: nat, ghost otherRing: Cell?, ghost q: seq<Cell>)
    returns (ring': Cell?)
    requires Ring(ring, r) && k < |r| && r[k] == cell && Ring(otherRing, q) && Apart(r, q)
    modifies r`next, r`prev
    ensures Ring(ring', Removed(r, k))
    ensures cell.next == null && cell.prev == null
    ensures Ring(otherRing, q)
  {
    hide Ring, Removed, Succ, Pred;
    Linked(ring, r, k);
    assert ring != null && cell.next != null && cell.prev != null;
    assert cell.next.prev == cell;
    assert cell.prev.next == cell;
    ring' := ring;
    if cell == ring {
      if cell.next == cell {
        assert cell.prev == cell;
        ring' := null;
      } else {
        assert cell.prev != cell;
        ring' := cell.next;
      }
    }
    Unlink(cell, ring, r, k);
    RingRemoved(ring', r, k);
    assert ring' != cell;
  }

  lemma RingLinks(head: Cell?, r: seq<Cell>, c: Cell)
    requires Ring(head, r) && c in r
    ensures c.next != null && c.prev != null && c.next.prev == c && c.prev.next == c
  {
    var k :| 0 <= k < |r| && r[k] == c;
    var n, p := if k + 1 < |r| then k + 1 else 0, if k > 0 then k - 1 else |r| - 1;
    assert r[n].prev == c && r[p].next == c;
  }

  ghost function SumWords(r: seq<Cell>): nat
    reads r`nWords
  {
    if r == [] then 0 else r[0].nWords + SumWords(r[1..])
  }

  lemma {:induction false} SumWordsAppend(r: seq<Cell>, q: seq<Cell>)
    ensures SumWords(r + q) == SumWords(r) + SumWords(q)
  {
    if r == [] {
      assert r + q == q;
    } else {
      SumWordsAppend(r[1..], q);
      assert (r + q)[1..] == r[1..] + q;
    }
  }

  // The order of the cells does not matter for how many words they have.
  lemma {:induction false} SumWordsPermuted(r: seq<Cell>, q: seq<Cell>)
    requires Distinct(r) && Distinct(q) && forall c :: c in r <==> c in q
    ensures SumWords(r) == SumWords(q)
    decreases |r|
  {
    hide Removed;
    assert q != [] ==> q[0] in q;
    if r != [] {
      assert r[0] in r;
      var k :| 0 <= k < |q| && q[k] == r[0];
      SumWithout(q, k);
      SumWithout(r, 0);
      RemovedMembers(q, k);
      RemovedMembers(r, 0);
      RemovedDistinct(q, k);
      RemovedDistinct(r, 0);
      SumWordsPermuted(Removed(r, 0), Removed(q, k));
    }
  }

  lemma SumWithout(r: seq<Cell>, k: nat)
    requires k < |r|
    ensures SumWords(r) == r[k].nWords + SumWords(Removed(r, k)) && |Removed(r, k)| == |r| - 1
  {
    assert r == r[..k] + ([r[k]] + r[k + 1..]);
    SumWordsAppend(r[..k], [r[k]] + r[k + 1..]);
    SumWordsAppend([r[k]], r[k + 1..]);
    SumWordsAppend(r[..k], r[k + 1..]);
    assert [r[k]][1..] == [];
  }

  lemma RemovedDistinct(q: seq<Cell>, k: nat)
    requires Distinct(q) && k < |q|
    ensures Distinct(Removed(q, k))
  {
  }

  // records_for_ring: the number of words the cells of a ring account for.
  method WordsInRing(ring: Cell?, ghost r: seq<Cell>) returns (total: nat)
    requires Ring(ring, r)
    ensures total == SumWords(r)
  {
    total := 0;
    if ring != null {
      var cell := ring;
      ghost var k := 0;
      while true
        invariant 0 <= k < |r| && r[k] == cell
        invariant total == SumWords(r[..k])
        decreases |r| - k
      {
        assert r[..k + 1] == r[..k] + [cell];
        assert [cell][1..] == [];
        SumWordsAppend(r[..k], [cell]);
        total := total + cell.nWords;
        cell := cell.next;
        if cell == ring {
          assert r[..k + 1] == r;
          break;
        }
        k := k + 1;
      }
    }
  }
}
