// One block of secure memory, with the operations that carve it up.
module SecureMemory {
  import opened Wrappers
  import opened SecureMemoryModel
  import opened SecureMemoryRings

  function SizeToWords(length: nat): (n: nat)
    ensures 8 * n >= length && 8 * n < length + 8
  {
    (if length % WORD != 0 then 1 else 0) + length / WORD
  }

  // The free cell number i is taken for a request: the words that are needed when more than
  // four of them would be left over, otherwise all of it.
  ghost predicate Taken(s: seq<Seg>, i: nat, length: nat, tag: string, s': seq<Seg>) {
    var n := SizeToWords(length) + 2;
    && i < |s| && i < |s'| && s[i].req == 0 && n <= s[i].n
    && if s[i].n > n + 4
       then s' == Carved(s, i, n, s'[i].cell)[i := Seg(s'[i].cell, s[i].words, n, length, Some(tag))]
       else s' == s[i := s[i].(req := length, tag := Some(tag))]
  }

  // Some free cell has n words.
  ghost predicate RoomIn(s: seq<Seg>, n: nat) {
    exists j :: 0 <= j < |s| && s[j].req == 0 && n <= s[j].n
  }

  // The cell number i has n words, or it has together with a free cell after it.
  ghost predicate Growable(s: seq<Seg>, i: nat, n: nat) {
    i < |s| && (n <= s[i].n || (i + 1 < |s| && s[i + 1].req == 0 && n <= s[i].n + s[i + 1].n))
  }

  // When both together are too small, joining them makes no room and no difference.
  lemma MergedInVain(s: seq<Seg>, i: nat, c: Cell, n: nat)
    requires i + 1 < |s| && s[i].req > 0 && s[i + 1].req == 0 && s[i].n + s[i + 1].n < n && NoFreePair(s)
    ensures !Growable(Merged(s, i, c), i, n) && !Growable(s, i, n)
    ensures RoomIn(Merged(s, i, c), n) <==> RoomIn(s, n)
  {
    var s' := Merged(s, i, c);
    assert s' == s[..i] + [MergedSeg(s, i, c)] + s[i + 2..];
    assert i + 2 < |s| ==> s'[i + 1] == s[i + 2] && s[i + 2].req > 0;
    if RoomIn(s, n) {
      var j :| 0 <= j < |s| && s[j].req == 0 && n <= s[j].n;
      assert s'[if j < i then j else j - 1] == s[j];
    }
    if RoomIn(s', n) {
      var j :| 0 <= j < |s'| && s'[j].req == 0 && n <= s'[j].n;
      assert s[if j < i then j else j + 1] == s'[j];
    }
  }

  lemma GrowableNow(s: seq<Seg>, i: nat, n: nat)
    requires i < |s|
    ensures Growable(s, i, n) <==> n <= s[i].n || (i + 1 < |s| && s[i + 1].req == 0 && n <= s[i].n + s[i + 1].n)
  {
  }

  lemma StolenAt(s: seq<Seg>, i: nat, k: nat)
    requires i + 1 < |s| && k <= s[i + 1].n
    ensures |Stolen(s, i, k)| == |s| && Stolen(s, i, k)[i] == s[i].(n := s[i].n + k)
  {
  }

  lemma QuietGuards(n: nat, m: seq<Byte>, from: nat, to: nat)
    requires PointersWritten(Repeat(ZERO, n), m, from, to)
    ensures forall b :: 0 <= b < |m| ==> Quiet(m[b])
  {
  }

  // Cell c is the one that segment x describes.
  ghost predicate CoupledAt(x: Seg)
    reads x.cell`words, x.cell`nWords, x.cell`requested, x.cell`tag
  {
    x.cell.words == x.words && x.cell.nWords == x.n && x.cell.requested == x.req && x.cell.tag == x.tag
  }

  ghost predicate Within(s: seq<Seg>, cells: set<Cell>) {
    forall i :: 0 <= i < |s| ==> s[i].cell in cells
  }

  ghost predicate HasCell(s: seq<Seg>, c: Cell) {
    exists i :: 0 <= i < |s| && s[i].cell == c
  }

  // The used ring holds exactly the used cells, the unused ring exactly the free ones.
  ghost predicate Members(s: seq<Seg>, used: seq<Cell>, unused: seq<Cell>) {
    && (forall i :: 0 <= i < |s| ==> (s[i].req > 0 <==> s[i].cell in used))
    && (forall i :: 0 <= i < |s| ==> (s[i].req == 0 <==> s[i].cell in unused))
    && (forall k :: 0 <= k < |used| ==> HasCell(s, used[k]))
    && (forall k :: 0 <= k < |unused| ==> HasCell(s, unused[k]))
  }

  ghost predicate NoFreePairBut(s: seq<Seg>, i: nat) {
    forall k, l :: 0 <= k < |s| && l == k + 1 && l < |s| && k != i && l != i ==> s[k].req > 0 || s[l].req > 0
  }

  ghost predicate MembersBut(s: seq<Seg>, used: seq<Cell>, unused: seq<Cell>, i: nat) {
    && (forall k :: 0 <= k < |s| && k != i ==> (s[k].req > 0 <==> s[k].cell in used))
    && (forall k :: 0 <= k < |s| && k != i ==> (s[k].req == 0 <==> s[k].cell in unused))
    && (i < |s| ==> s[i].cell !in used)
    && (forall k :: 0 <= k < |used| ==> HasCell(s, used[k]))
    && (forall k :: 0 <= k < |unused| ==> HasCell(s, unused[k]))
  }

  lemma MembersOccupied(s: seq<Seg>, used: seq<Cell>, unused: seq<Cell>, i: nat, x: Seg, used': seq<Cell>, unused': seq<Cell>)
    requires i < |s| && MembersBut(s, used, unused, i) && DistinctCells(s)
    requires x.cell == s[i].cell && x.req > 0
    requires forall c :: c in used' <==> c in used || c == s[i].cell
    requires forall c :: c in unused' <==> c in unused && c != s[i].cell
    requires NoFreePairBut(s, i)
    ensures Members(s[i := x], used', unused') && NoFreePair(s[i := x])
  {
    var t := s[i := x];
    forall c | HasCell(s, c) ensures HasCell(t, c) {
      var k :| 0 <= k < |s| && s[k].cell == c;
      assert t[k].cell == c;
    }
    assert s[i] in s && HasCell(s, s[i].cell);
    forall k | 0 <= k < |used'| ensures HasCell(t, used'[k]) {
      assert used'[k] in used';
    }
    forall k | 0 <= k < |unused'| ensures HasCell(t, unused'[k]) {
      assert unused'[k] in unused';
    }
  }

  lemma MembersCarved(s: seq<Seg>, used: seq<Cell>, unused: seq<Cell>, i: nat, n: nat, other: Cell)
    requires i < |s| && s[i].req == 0 && n <= s[i].n
    requires Members(s, used, unused) && NoFreePair(s)
    requires other !in used && other !in unused
    ensures MembersBut(Carved(s, i, n, other), used, unused, i) && NoFreePairBut(Carved(s, i, n, other), i)
  {
    var t := Carved(s, i, n, other);
    CarvedAt(s, i, n, other);
    HasCellCarved(s, i, n, other);
    hide HasCell, Carved;
    forall k | 0 <= k < |used| ensures HasCell(t, used[k]) {
      assert HasCell(s, used[k]);
    }
    forall k | 0 <= k < |unused| ensures HasCell(t, unused[k]) {
      assert HasCell(s, unused[k]);
    }
  }

  lemma CarvedAt(s: seq<Seg>, i: nat, n: nat, other: Cell)
    requires i < |s| && n <= s[i].n
    ensures var t := Carved(s, i, n, other);
            && |t| == |s| + 1 && t[i].cell == other && t[i + 1].cell == s[i].cell && t[i + 1].req == 0
            && forall j :: 0 <= j < |t| && j != i && j != i + 1 ==> t[j] == s[if j < i then j else j - 1]
  {
    var t := Carved(s, i, n, other);
    assert forall j :: i + 2 <= j < |t| ==> t[j] == s[j - 1];
  }

  lemma HasCellCarved(s: seq<Seg>, i: nat, n: nat, other: Cell)
    requires i < |s| && n <= s[i].n
    ensures forall c :: HasCell(s, c) ==> HasCell(Carved(s, i, n, other), c)
  {
    var t := Carved(s, i, n, other);
    CarvedAt(s, i, n, other);
    hide Carved;
    forall c | HasCell(s, c) ensures HasCell(t, c) {
      var k :| 0 <= k < |s| && s[k].cell == c;
      var j := if k < i then k else k + 1;
      assert t[j].cell == c;
    }
  }

  lemma MembersReleased(s: seq<Seg>, n: nat, m: seq<Byte>, used: seq<Cell>, unused: seq<Cell>, i: nat, used': seq<Cell>)
    requires i < |s| && Members(s, used, unused) && Layout(s, m, n) && NoFreePair(s)
    requires forall c :: c in used' <==> c in used && c != s[i].cell
    ensures MembersBut(s[i := s[i].(req := 0, tag := None)], used', unused, i)
    ensures NoFreePairBut(s[i := s[i].(req := 0, tag := None)], i)
  {
    hide SegMem;
    var t := s[i := s[i].(req := 0, tag := None)];
    forall c | HasCell(s, c) ensures HasCell(t, c) {
      var k :| 0 <= k < |s| && s[k].cell == c;
      assert t[k].cell == c;
    }
    forall k | 0 <= k < |used'| ensures HasCell(t, used'[k]) {
      assert used'[k] in used';
    }
  }

  lemma MembersSettled(s: seq<Seg>, used: seq<Cell>, unused: seq<Cell>, i: nat, unused': seq<Cell>)
    requires i < |s| && s[i].req == 0 && MembersBut(s, used, unused, i) && NoFreePairBut(s, i) && DistinctCells(s)
    requires i > 0 ==> s[i - 1].req > 0
    requires i + 1 < |s| ==> s[i + 1].req > 0
    requires forall c :: c in unused' <==> c in unused || c == s[i].cell
    ensures Members(s, used, unused') && NoFreePair(s)
  {
    forall k | 0 <= k < |unused'| ensures HasCell(s, unused'[k]) {
      assert unused'[k] in unused';
    }
  }

  // Merging numbers i and i + 1 drops one of their cells from the free ones; number o is the open one.
  lemma MembersMerged(s: seq<Seg>, used: seq<Cell>, unused: seq<Cell>, i: nat, o: nat, keep: Cell, unused': seq<Cell>)
    requires i + 1 < |s| && (o == i || o == i + 1) && s[i].req == 0 && s[i + 1].req == 0
    requires MembersBut(s, used, unused, o) && DistinctCells(s) && NoFreePairBut(s, o)
    requires keep == s[if o == i then i + 1 else i].cell
    requires forall c :: c in unused' <==> c in unused && c != s[o].cell
    ensures MembersBut(Merged(s, i, keep), used, unused', i)
    ensures NoFreePairBut(Merged(s, i, keep), i)
    ensures keep in unused' && keep !in used
  {
    hide HasCell;
    var t := Merged(s, i, keep);
    MergedAt(s, i, keep);
    HasCellMerged(s, i, o, keep);
    forall k | 0 <= k < |unused'| ensures HasCell(t, unused'[k]) {
      assert unused'[k] in unused' && unused'[k] in unused;
    }
    forall k | 0 <= k < |used| ensures HasCell(t, used[k]) {
      assert used[k] in used && used[k] != s[o].cell;
    }
  }

  lemma MergedAt(s: seq<Seg>, i: nat, keep: Cell)
    requires i + 1 < |s|
    ensures var t := Merged(s, i, keep);
            |t| == |s| - 1
            && forall j :: 0 <= j < |t| ==> t[j] == if j < i then s[j] else if j == i then MergedSeg(s, i, keep) else s[j + 1]
  {
  }

  lemma HasCellMerged(s: seq<Seg>, i: nat, o: nat, keep: Cell)
    requires i + 1 < |s| && (o == i || o == i + 1)
    requires keep == s[if o == i then i + 1 else i].cell
    ensures forall c :: HasCell(s, c) && c != s[o].cell ==> HasCell(Merged(s, i, keep), c)
  {
    var t := Merged(s, i, keep);
    assert forall j :: i + 1 <= j < |t| ==> t[j] == s[j + 1];
    forall c | HasCell(s, c) && c != s[o].cell ensures HasCell(t, c) {
      var k :| 0 <= k < |s| && s[k].cell == c;
      assert t[if k <= i then k else k - 1].cell == c;
    }
  }

  // A used cell swallows the free cell after it.
  lemma EatenAt(s: seq<Seg>, i: nat)
    requires i + 1 < |s|
    ensures var t := Merged(s, i, s[i].cell);
            |t| == |s| - 1
            && (forall j :: 0 <= j < i ==> t[j] == s[j])
            && t[i].req == s[i].req && t[i].cell == s[i].cell
            && (forall j :: i < j < |t| ==> t[j] == s[j + 1])
  {
  }

  lemma PairsEaten(s: seq<Seg>, i: nat)
    requires i + 1 < |s| && s[i].req > 0 && NoFreePair(s)
    ensures NoFreePair(Merged(s, i, s[i].cell))
  {
    EatenAt(s, i);
    hide Merged;
    var t := Merged(s, i, s[i].cell);
    forall k, l | 0 <= k < |t| && l == k + 1 && l < |t| ensures t[k].req > 0 || t[l].req > 0 {
      if k < i {
        assert t[k] == s[k] && t[l].req == s[l].req;
      } else if k > i {
        assert t[k] == s[k + 1] && t[l] == s[l + 1];
      }
    }
  }

  lemma MembersEaten(s: seq<Seg>, used: seq<Cell>, unused: seq<Cell>, i: nat, unused': seq<Cell>)
    requires i + 1 < |s| && s[i].req > 0 && s[i + 1].req == 0
    requires Members(s, used, unused) && DistinctCells(s) && NoFreePair(s)
    requires forall c :: c in unused' <==> c in unused && c != s[i + 1].cell
    ensures Members(Merged(s, i, s[i].cell), used, unused') && NoFreePair(Merged(s, i, s[i].cell))
  {
    hide HasCell, Merged, NoFreePair;
    var t := Merged(s, i, s[i].cell);
    EatenAt(s, i);
    PairsEaten(s, i);
    HasCellMerged(s, i, i + 1, s[i].cell);
    forall k | 0 <= k < |t|
      ensures (t[k].req > 0 <==> t[k].cell in used) && (t[k].req == 0 <==> t[k].cell in unused')
    {
      if k < i {
        assert t[k] == s[k];
      } else if k > i {
        assert t[k] == s[k + 1];
      }
    }
    forall k | 0 <= k < |unused'| ensures HasCell(t, unused'[k]) {
      assert unused'[k] in unused' && unused'[k] in unused;
    }
    forall k | 0 <= k < |used| ensures HasCell(t, used[k]) {
      assert used[k] in used && used[k] != s[i + 1].cell;
    }
  }

  // Descriptions change, but cells and who uses them do not.
  lemma MembersSame(s: seq<Seg>, t: seq<Seg>, used: seq<Cell>, unused: seq<Cell>)
    requires Members(s, used, unused) && NoFreePair(s) && |t| == |s|
    requires forall k :: 0 <= k < |s| ==> t[k].cell == s[k].cell && (t[k].req == 0 <==> s[k].req == 0)
    ensures Members(t, used, unused) && NoFreePair(t)
  {
    forall c | HasCell(s, c) ensures HasCell(t, c) {
      var k :| 0 <= k < |s| && s[k].cell == c;
      assert t[k].cell == c;
    }
  }

  lemma MembersOne(x: Seg)
    requires x.req == 0
    ensures Members([x], [], [x.cell])
  {
    assert [x][0].cell == x.cell;
    assert HasCell([x], x.cell);
  }

  ghost function CellSeq(s: seq<Seg>): seq<Cell> {
    if s == [] then [] else [s[0].cell] + CellSeq(s[1..])
  }

  lemma {:induction false} CellSeqAt(s: seq<Seg>)
    ensures |CellSeq(s)| == |s| && forall i :: 0 <= i < |s| ==> CellSeq(s)[i] == s[i].cell
    ensures DistinctCells(s) ==> Distinct(CellSeq(s))
  {
    if s != [] {
      CellSeqAt(s[1..]);
      assert forall i :: 1 <= i < |s| ==> CellSeq(s)[i] == CellSeq(s[1..])[i - 1] == s[1..][i - 1].cell;
    }
  }

  lemma {:induction false} TilingWords(s: seq<Seg>, from: nat, to: nat)
    requires Tiled(s, from, to) && forall i :: 0 <= i < |s| ==> CoupledAt(s[i])
    ensures SumWords(CellSeq(s)) + from == to
  {
    if s != [] {
      assert CoupledAt(s[0]);
      assert CellSeq(s)[1..] == CellSeq(s[1..]);
      TilingWords(s[1..], from + s[0].n, to);
    }
  }

  ghost function UsedCells(s: seq<Seg>): set<Cell> {
    if s == [] then {}
    else UsedCells(s[1..]) + if s[0].req > 0 then {s[0].cell} else {}
  }

  lemma {:induction false} UsedCellsAt(s: seq<Seg>)
    ensures forall c :: c in UsedCells(s) <==> exists i :: 0 <= i < |s| && s[i].req > 0 && s[i].cell == c
  {
    if s != [] {
      UsedCellsAt(s[1..]);
      assert forall i :: 1 <= i < |s| ==> s[i] == s[1..][i - 1];
      assert forall i :: 0 <= i < |s[1..]| ==> s[1..][i] == s[i + 1];
    }
  }

  lemma {:induction false} CountLive(s: seq<Seg>, m: seq<Byte>, from: nat, to: nat)
    requires Fits(s, m) && Tiled(s, from, to) && DistinctCells(s)
    ensures |Live(s, m)| == |UsedCells(s)|
  {
    hide DistinctCells, Ordered, Live, Tiled, UsedCells;
    if s == [] {
      LiveNone(m);
    } else {
      CountTail(s, m, from, to);
      CountLive(s[1..], m, from + s[0].n, to);
    }
  }

  lemma SetPlusOne<T>(x: T, s: set<T>)
    requires x !in s
    ensures |s + {x}| == |s| + 1
  {
  }

  lemma {:induction false} UsedCellAt(s: seq<Seg>, c: Cell) returns (i: nat)
    requires c in UsedCells(s)
    ensures i < |s| && s[i].req > 0 && s[i].cell == c
  {
    if c in UsedCells(s[1..]) {
      i := UsedCellAt(s[1..], c);
      i := i + 1;
    } else {
      i := 0;
    }
  }

  lemma LiveNone(m: seq<Byte>)
    ensures Fits([], m) && Live([], m) == map[] && UsedCells([]) == {}
  {
  }

  lemma CountTail(s: seq<Seg>, m: seq<Byte>, from: nat, to: nat)
    requires Fits(s, m) && Tiled(s, from, to) && DistinctCells(s) && s != []
    ensures Fits(s[1..], m) && Tiled(s[1..], from + s[0].n, to) && DistinctCells(s[1..])
    ensures |Live(s, m)| == |Live(s[1..], m)| + if s[0].req > 0 then 1 else 0
    ensures |UsedCells(s)| == |UsedCells(s[1..])| + if s[0].req > 0 then 1 else 0
  {
    hide Live, UsedCells, Tiled, DistinctCells, Ordered;
    TailFits(s, m, from, to);
    LiveTail(s, m, from, to);
    UsedTail(s);
  }

  lemma TailFits(s: seq<Seg>, m: seq<Byte>, from: nat, to: nat)
    requires Fits(s, m) && Tiled(s, from, to) && DistinctCells(s) && s != []
    ensures Fits(s[1..], m) && Tiled(s[1..], from + s[0].n, to) && DistinctCells(s[1..])
  {
  }

  lemma FirstNotInTail(s: seq<Seg>, m: seq<Byte>, from: nat, to: nat)
    requires Fits(s, m) && Tiled(s, from, to) && s != [] && Fits(s[1..], m)
    ensures s[0].words + 1 !in Live(s[1..], m)
  {
    hide Live;
    TiledOrdered(s, from, to);
    if s[0].words + 1 in Live(s[1..], m) {
      var k := LiveFind(s[1..], m, s[0].words + 1);
      assert false;
    }
  }

  lemma LiveTail(s: seq<Seg>, m: seq<Byte>, from: nat, to: nat)
    requires Fits(s, m) && Tiled(s, from, to) && s != [] && Fits(s[1..], m)
    ensures |Live(s, m)| == |Live(s[1..], m)| + if s[0].req > 0 then 1 else 0
  {
    hide Tiled, Payload;
    FirstNotInTail(s, m, from, to);
    if s[0].req > 0 {
      MapPlusOne(s[0].words + 1, Record(s[0], m)[s[0].words + 1], Live(s[1..], m));
    } else {
      assert Live(s, m) == Live(s[1..], m);
    }
  }

  lemma UsedTail(s: seq<Seg>)
    requires DistinctCells(s) && s != []
    ensures |UsedCells(s)| == |UsedCells(s[1..])| + if s[0].req > 0 then 1 else 0
  {
    UsedCellsAt(s[1..]);
    if s[0].req > 0 {
      SetPlusOne(s[0].cell, UsedCells(s[1..]));
    }
  }

  lemma MapPlusOne<K, V>(k: K, v: V, m: map<K, V>)
    requires k !in m
    ensures |map[k := v] + m| == |m| + 1
  {
    assert (map[k := v] + m).Keys == m.Keys + {k};
    assert |(map[k := v] + m).Keys| == |m.Keys| + 1;
  }

  lemma LiveCount(s: seq<Seg>, m: seq<Byte>, n: nat)
    requires Layout(s, m, n)
    ensures Fits(s, m) && |Live(s, m)| == |UsedCells(s)|
  {
    LayoutFits(s, m, n);
    CountLive(s, m, 0, n);
  }

  lemma {:induction false} SeqToSet(r: seq<Cell>)
    requires Distinct(r)
    ensures |set c | c in r| == |r|
  {
    if r != [] {
      SeqToSet(r[1..]);
      assert (set c | c in r) == (set c | c in r[1..]) + {r[0]};
    }
  }

  lemma OkIs(x: Seg, length: nat)
    requires SegOk(x)
    ensures x.n >= 3
    ensures forall tag: Option<string> :: tag.Some? && 0 < length <= (x.n - 2) * WORD ==> SegOk(x.(req := length, tag := tag))
  {
  }

  lemma DoesNotFit(x: Seg, length: nat)
    requires SegOk(x) && x.n < SizeToWords(length) + 2
    ensures x.req < length
  {
  }

  class Block {
    const mem: array<Byte>
    const nWords: nat
    var nUsed: nat
    var usedCells: Cell?
    var unusedCells: Cell?

    ghost var segs: seq<Seg>
    ghost var used: seq<Cell>
    ghost var unused: seq<Cell>
    ghost var cells: set<Cell>

    ghost predicate Rings()
      reads this`usedCells, this`unusedCells, this`used, this`unused, this`nUsed
      reads used`next, used`prev, unused`next, unused`prev
    {
      && Ring(usedCells, used) && Ring(unusedCells, unused) && nUsed == |used|
      && Apart(unused, used) && Apart(used, unused)
    }

    // The metadata objects say what the segments say, except perhaps for number `but`,
    // whose size and tag fields may be unsettled.
    ghost predicate Coupled(but: int)
      requires Within(segs, cells)
      reads this`segs, this`cells, cells`words, cells`nWords, cells`requested, cells`tag
    {
      && (forall i :: 0 <= i < |segs| && i != but ==> CoupledAt(segs[i]))
      && (0 <= but < |segs| ==> segs[but].cell.words == segs[but].words && segs[but].cell.nWords == segs[but].n)
    }

    ghost predicate Valid()
      reads this, mem, cells, used, unused
    {
      && nWords > 0
      && Within(segs, cells)
      && Layout(segs, mem[..], nWords)
      && NoFreePair(segs)
      && Coupled(-1)
      && Members(segs, used, unused)
      && Rings()
    }

    // Valid, except that the free cell number i is on its way in or out: its size and
    // tag fields are unsettled, it may be off the unused ring, and it may lie next
    // to another free cell.
    ghost predicate Open(i: nat)
      reads this, mem, cells, used, unused
    {
      && i < |segs| && segs[i].req == 0
      && nWords > 0
      && Within(segs, cells)
      && Layout(segs, mem[..], nWords)
      && NoFreePairBut(segs, i)
      && Coupled(i)
      && MembersBut(segs, used, unused, i)
      && Rings()
      && (segs[i].cell !in unused ==> segs[i].cell.next == null && segs[i].cell.prev == null)
    }

    /** The allocations clients hold in this block. */
    ghost function Allocations(): map<nat, Alloc>
      requires Layout(segs, mem[..], nWords)
      reads this, mem
    {
      LayoutFits(segs, mem[..], nWords);
      Live(segs, mem[..])
    }

    // sec_block_create, once its pages (zeroed) and its first cell have been obtained.
    constructor (n: nat)
      requires n >= 3
      ensures Valid() && fresh(mem) && fresh(cells) && nWords == n
      ensures Allocations() == map[] && nUsed == 0
    {
      mem := new Byte[WORD * n](_ => ZERO);
      nWords := n;
      nUsed, usedCells, unusedCells := 0, null, null;
      segs, used, unused, cells := [], [], [], {};
      new;
      var cell := new Cell();
      FirstCell(cell);
    }

    // One free cell that covers the whole block.
    method FirstCell(cell: Cell)
      requires nWords >= 3 && mem.Length == WORD * nWords && mem[..] == Repeat(ZERO, WORD * nWords)
      requires nUsed == 0 && usedCells == null && unusedCells == null
      requires cell.next == null && cell.prev == null && cell.requested == 0 && cell.tag == None
      modifies this, mem, cell
      ensures Valid() && cells == {cell} && Allocations() == map[] && nUsed == 0
    {
      hide Layout, Allocations, Valid, HoldsPtr, Ring, PointersWritten, TwoWordsWritten, Repeat, Inserted;
      cell.words := 0;
      cell.nWords := nWords;
      WriteGuards(cell);
      QuietGuards(mem.Length, mem[..], 0, nWords);
      LonelyRings(cell);
      unusedCells := InsertCellRing(unusedCells, cell, [], usedCells, []);
      used, unused, cells := [], [cell], {cell};
      segs := [Seg(cell, 0, nWords, 0, None)];
      FirstIsValid(cell);
    }

    lemma FirstIsValid(cell: Cell)
      requires nWords >= 3 && mem.Length == WORD * nWords && segs == [Seg(cell, 0, nWords, 0, None)] && CoupledAt(segs[0])
      requires HoldsPtr(mem[..], 0, cell) && HoldsPtr(mem[..], nWords - 1, cell) && forall b :: 0 <= b < |mem[..]| ==> Quiet(mem[..][b])
      requires cells == {cell} && nUsed == 0 && used == [] && unused == [cell]
      requires Ring(usedCells, used) && Ring(unusedCells, unused)
      ensures Valid() && Allocations() == map[]
    {
      hide HoldsPtr, Ring, HasCell, Layout, Live;
      OneCellLayout(mem[..], nWords, cell);
      MembersOne(segs[0]);
    }

    lemma LonelyRings(cell: Cell)
      ensures Ring(null, []) && Inserted([], cell) == [cell]
    {
    }

    method WriteGuards(cell: Cell)
      requires cell.nWords >= 1 && WORD * (cell.words + cell.nWords) <= mem.Length
      modifies mem
      ensures HoldsPtr(mem[..], cell.words, cell) && HoldsPtr(mem[..], cell.words + cell.nWords - 1, cell)
      ensures TwoWordsWritten(old(mem[..]), mem[..], cell.words, cell.words + cell.nWords - 1)
      ensures PointersWritten(old(mem[..]), mem[..], cell.words, cell.words + cell.nWords)
    {
      forall b | WORD * cell.words <= b < WORD * (cell.words + 1) {
        mem[b] := Ptr(cell, b - WORD * cell.words);
      }
      var last := cell.words + cell.nWords - 1;
      forall b | WORD * last <= b < WORD * (last + 1) {
        mem[b] := Ptr(cell, b - WORD * last);
      }
    }

    // sec_clear_noaccess, sec_clear_undefined and the memset that ends an allocation
    method Clear(memory: nat, from: nat, to: nat)
      requires from <= to && WORD * memory + to <= mem.Length
      modifies mem
      ensures Cleared(old(mem[..]), mem[..], memory, from, to)
    {
      forall b | WORD * memory + from <= b < WORD * memory + to {
        mem[b] := ZERO;
      }
    }

    // Take a cell off the unused ring, if it is on it.
    method LeaveUnused(cell: Cell)
      requires Rings() && (cell !in unused ==> cell.next == null && cell.prev == null)
      modifies this`unusedCells, this`unused, unused`next, unused`prev
      ensures Rings() && cell.next == null && cell.prev == null
      ensures forall c :: c in unused <==> c in old(unused) && c != cell
    {
      hide Ring, Removed, Apart;
      if cell in unused {
        RingLinks(unusedCells, unused, cell);
      }
      if cell.next != null {
        RingIsDistinct(unusedCells, unused);
        ghost var k :| 0 <= k < |unused| && unused[k] == cell;
        unusedCells := RemoveCellRing(unusedCells, cell, unused, k, usedCells, used);
        RemovedMembers(unused, k);
        RemovedApart(unused, k, used);
        unused := Removed(unused, k);
      }
    }

    method JoinUsed(cell: Cell)
      requires Rings() && cell !in used && cell !in unused && cell.next == null && cell.prev == null
      modifies this`nUsed, this`usedCells, this`used, used`next, used`prev, cell`next, cell`prev
      ensures Rings()
      ensures forall c :: c in used <==> c in old(used) || c == cell
    {
      hide Ring, Inserted, Apart;
      nUsed := nUsed + 1;
      usedCells := InsertCellRing(usedCells, cell, used, unusedCells, unused);
      InsertedMembers(used, cell);
      InsertedApart(used, cell, unused);
      used := Inserted(used, cell);
    }

    // Move a free cell from the unused ring, if it is on it, to the used ring.
    method EnterUsed(cell: Cell, ghost i: nat)
      requires Within(segs, cells) && Coupled(i) && Rings()
      requires cell !in used && (cell !in unused ==> cell.next == null && cell.prev == null)
      modifies this`nUsed, this`usedCells, this`used, used`next, used`prev
      modifies this`unusedCells, this`unused, unused`next, unused`prev, cell`next, cell`prev
      ensures Within(segs, cells) && Coupled(i) && Rings()
      ensures forall c :: c in unused <==> c in old(unused) && c != cell
      ensures forall c :: c in used <==> c in old(used) || c == cell
    {
      LeaveUnused(cell);
      JoinUsed(cell);
    }

    // Write the client's request into the metadata of cell number i and zero its bytes.
    method Assign(cell: Cell, tag: string, length: nat, ghost i: nat) returns (memory: nat)
      requires Within(segs, cells) && Layout(segs, mem[..], nWords) && Coupled(i) && Rings()
      requires i < |segs| && segs[i].cell == cell && segs[i].req == 0
      requires length > 0 && SizeToWords(length) + 2 <= segs[i].n
      modifies this`segs, mem, cell`tag, cell`requested
      ensures segs == old(segs)[i := old(segs[i]).(req := length, tag := Some(tag))]
      ensures Within(segs, cells) && Layout(segs, mem[..], nWords) && Coupled(-1) && Rings()
      ensures memory == old(segs[i].words) + 1 && memory !in old(Allocations())
      ensures PointersStay(old(mem[..]), mem[..], WORD * memory, WORD * memory + length)
      ensures Allocations() == old(Allocations())[memory := Alloc(length, Some(tag), Repeat(ZERO, length))]
    {
      hide Rings, Live, PointersStay;
      cell.tag := Some(tag);
      cell.requested := length;
      memory := cell.words + 1;
      Clear(memory, 0, length);
      ClearedStay(old(mem[..]), mem[..], memory, 0, length);
      ghost var x := segs[i].(req := length, tag := Some(tag));
      OccupyStep(segs, old(mem[..]), nWords, i, x, mem[..]);
      segs := segs[i := x];
    }

    // The tail of sec_alloc: cell number i becomes a used cell.
    method Occupy(cell: Cell, tag: string, length: nat, ghost i: nat) returns (memory: nat)
      requires Open(i) && segs[i].cell == cell
      requires length > 0 && SizeToWords(length) + 2 <= segs[i].n
      modifies this, mem, cells
      ensures Valid() && cells == old(cells)
      ensures segs == old(segs)[i := old(segs[i]).(req := length, tag := Some(tag))]
      ensures PointersStay(old(mem[..]), mem[..], WORD * memory, WORD * memory + length)
      ensures memory == old(segs[i].words) + 1 && memory !in old(Allocations())
      ensures Allocations() == old(Allocations())[memory := Alloc(length, Some(tag), Repeat(ZERO, length))]
    {
      hide Rings, Layout, Coupled, Live, PointersStay;
      ghost var m := mem[..];
      FreshInBlock(i);
      assert forall c :: c in used || c in unused ==> c in cells;
      EnterUsed(cell, i);
      assert mem[..] == m;
      memory := Assign(cell, tag, length, i);
      MembersOccupied(old(segs), old(used), old(unused), i, segs[i], used, unused);
    }

    // The metadata half of a split: other takes the first n words of cell.
    method SplitExtent(cell: Cell, other: Cell, n: nat, ghost i: nat)
      requires Within(segs, cells) && Coupled(-1) && Rings() && DistinctCells(segs)
      requires i < |segs| && segs[i].cell == cell && segs[i].req == 0 && n <= segs[i].n
      requires other !in cells && other.requested == 0 && other.tag == None && segs[i].tag == None
      modifies this`segs, this`cells, other`words, other`nWords, cell`words, cell`nWords
      ensures segs == Carved(old(segs), i, n, other) && cells == old(cells) + {other}
      ensures Within(segs, cells) && Coupled(-1) && Rings()
    {
      hide Rings;
      other.nWords := n;
      other.words := cell.words;
      cell.nWords := cell.nWords - n;
      cell.words := cell.words + n;
      segs := Carved(segs, i, n, other);
      cells := cells + {other};
      forall j | 0 <= j < |segs|
        ensures CoupledAt(segs[j]) && segs[j].cell in cells
      {
        if j < i {
          assert segs[j] == old(segs)[j];
        } else if j > i + 1 {
          assert segs[j] == old(segs)[j - 1];
        }
      }
    }

    // Cut the first n words off the free cell number i; they become cell number i.
    method CarveCell(cell: Cell, other: Cell, n: nat, ghost i: nat)
      requires Within(segs, cells) && Layout(segs, mem[..], nWords) && Coupled(-1) && Rings()
      requires i < |segs| && segs[i].cell == cell && segs[i].req == 0
      requires 3 <= n && n + WASTE < segs[i].n
      requires other !in cells && other.requested == 0 && other.tag == None
      modifies this`segs, this`cells, mem, other`words, other`nWords, cell`words, cell`nWords
      ensures segs == Carved(old(segs), i, n, other) && cells == old(cells) + {other}
      ensures Within(segs, cells) && Layout(segs, mem[..], nWords) && Coupled(-1) && Rings()
      ensures Allocations() == old(Allocations()) && PointersStay(old(mem[..]), mem[..], 0, 0)
    {
      hide Rings, Layout, Live, HoldsPtr, PointersWritten, PointersStay;
      ghost var x, y := Carved(segs, i, n, other)[i], Carved(segs, i, n, other)[i + 1];
      FreshInBlock(i);
      SplitExtent(cell, other, n, i);
      assert CoupledAt(x) && CoupledAt(y);
      GuardPair(other, cell);
      WrittenStay(old(mem[..]), mem[..], x.words, y.words + y.n);
      CarveLocal(old(segs), old(mem[..]), nWords, i, n, other, mem[..]);
      CarveStep(old(segs), old(mem[..]), nWords, i, n, other, mem[..]);
    }

    // Write the guards of two adjacent cells.
    method GuardPair(x: Cell, y: Cell)
      requires x.nWords >= 3 && y.nWords >= 3 && y.words == x.words + x.nWords
      requires WORD * (y.words + y.nWords) <= mem.Length
      modifies mem
      ensures HoldsPtr(mem[..], x.words, x) && HoldsPtr(mem[..], x.words + x.nWords - 1, x)
      ensures HoldsPtr(mem[..], y.words, y) && HoldsPtr(mem[..], y.words + y.nWords - 1, y)
      ensures PointersWritten(old(mem[..]), mem[..], x.words, y.words + y.nWords)
    {
      WriteGuards(x);
      WriteGuards(y);
    }

    lemma FreshInBlock(i: nat)
      requires Layout(segs, mem[..], nWords) && i < |segs|
      ensures mem.Length == WORD * nWords && segs[i].words + segs[i].n <= nWords && SegOk(segs[i])
      ensures DistinctCells(segs)
      ensures i + 1 < |segs| ==> segs[i + 1].words == segs[i].words + segs[i].n
    {
      TiledOrdered(segs, 0, nWords);
      NextStart(segs, 0, nWords, i);
    }

    lemma ValidFacts(i: nat)
      requires Valid() && i < |segs|
      ensures Layout(segs, mem[..], nWords) && DistinctCells(segs) && SegOk(segs[i])
      ensures Members(segs, used, unused) && NoFreePair(segs)
    {
    }

    method Carve(cell: Cell, n: nat, ghost i: nat) returns (other: Cell)
      requires Valid() && i < |segs| && segs[i].cell == cell && segs[i].req == 0
      requires 3 <= n && n + WASTE < segs[i].n
      modifies this`segs, this`cells, mem, cell`words, cell`nWords
      ensures fresh(other) && cells == old(cells) + {other}
      ensures segs == Carved(old(segs), i, n, other)
      ensures Open(i) && Allocations() == old(Allocations()) && PointersStay(old(mem[..]), mem[..], 0, 0)
    {
      hide PointersStay, Layout, Rings, Members, MembersBut, NoFreePair, NoFreePairBut, Carved, Live;
      other := new Cell();
      ValidFacts(i);
      CarveCell(cell, other, n, i);
      CarvedAt(old(segs), i, n, other);
      MembersCarved(old(segs), used, unused, i, n, other);
    }

    // First fit along the unused ring.
    method FindUnused(n: nat) returns (cell: Cell?)
      requires Valid() && unusedCells != null
      ensures cell == null ==> forall i :: 0 <= i < |segs| && segs[i].req == 0 ==> segs[i].n < n
      ensures cell != null ==> exists i :: 0 <= i < |segs| && segs[i].cell == cell && segs[i].req == 0 && segs[i].n >= n
    {
      cell := unusedCells;
      ghost var k := 0;
      while cell.nWords < n
        invariant cell != null && 0 <= k < |unused| && unused[k] == cell
        invariant forall j :: 0 <= j < k ==> unused[j].nWords < n
        decreases |unused| - k
      {
        cell := cell.next;
        if cell == unusedCells {
          assert k == |unused| - 1;
          return null;
        }
        k := k + 1;
      }
      assert HasCell(segs, unused[k]);
    }

    method SecAlloc(tag: string, length: nat, poolOk: bool) returns (memory: Option<nat>)
      requires Valid() && length > 0
      modifies this, mem, cells
      ensures Valid() && fresh(cells - old(cells))
      ensures memory == None ==> Allocations() == old(Allocations()) && segs == old(segs) && mem[..] == old(mem[..])
      ensures memory == None ==>
                !poolOk || forall i :: 0 <= i < |segs| && segs[i].req == 0 ==> segs[i].n < SizeToWords(length) + 2
      ensures (forall i :: 0 <= i < |old(segs)| && old(segs)[i].req == 0 ==> old(segs)[i].n < SizeToWords(length) + 2)
                ==> memory == None
      ensures memory.Some? ==>
                && memory.value !in old(Allocations())
                && Allocations() == old(Allocations())[memory.value := Alloc(length, Some(tag), Repeat(ZERO, length))]
      ensures memory.Some? ==>
                && PointersStay(old(mem[..]), mem[..], WORD * memory.value, WORD * memory.value + length)
                && exists i: nat :: i < |segs| && Taken(old(segs), i, length, tag, segs) && memory.value == segs[i].words + 1
    {
      hide Layout, Coupled, Members, NoFreePair, Rings, Open, PointersStay;
      if unusedCells == null {
        NoneUnused();
        return None;
      }
      var n := SizeToWords(length) + 2;
      var cell := FindUnused(n);
      if cell == null {
        return None;
      }
      ghost var i :| 0 <= i < |segs| && segs[i].cell == cell && segs[i].req == 0 && segs[i].n >= n;
      ValidOpen(i);
      if cell.nWords > n + WASTE {
        if !poolOk {
          return None;
        }
        cell := Carve(cell, n, i);
      }
      ghost var m := mem[..];
      var address := Occupy(cell, tag, length, i);
      if old(segs)[i].n <= n + WASTE {
        assert m == old(mem[..]);
      } else {
        StayStay(old(mem[..]), m, mem[..], WORD * address, WORD * address + length);
      }
      assert Taken(old(segs), i, length, tag, segs);
      memory := Some(address);
    }

    // Read the cell pointer stored in a word.
    method CellAt(word: nat, ghost i: nat) returns (cell: Cell)
      requires Layout(segs, mem[..], nWords) && i < |segs|
      requires word == segs[i].words || word == segs[i].words + segs[i].n - 1
      ensures cell == segs[i].cell
      ensures HoldsPtr(mem[..], segs[i].words, cell) && HoldsPtr(mem[..], segs[i].words + segs[i].n - 1, cell)
    {
      assert SegMem(mem[..], segs[i]);
      assert mem[WORD * word] == mem[..][WORD * word] == Ptr(segs[i].cell, 0);
      cell := mem[WORD * word].cell;
    }

    method SecNeighborBefore(cell: Cell, ghost i: nat) returns (other: Cell?)
      requires Layout(segs, mem[..], nWords) && i < |segs| && segs[i].words == cell.words
      ensures other == if i == 0 then null else segs[i - 1].cell
    {
      Neighbours(segs, nWords, i);
      if cell.words == 0 {
        return null;
      }
      other := CellAt(cell.words - 1, i - 1);
    }

    method SecNeighborAfter(cell: Cell, ghost i: nat) returns (other: Cell?)
      requires Layout(segs, mem[..], nWords) && i < |segs|
      requires segs[i].words == cell.words && segs[i].n == cell.nWords
      ensures other == if i + 1 == |segs| then null else segs[i + 1].cell
    {
      Neighbours(segs, nWords, i);
      if cell.words + cell.nWords >= nWords {
        return null;
      }
      other := CellAt(cell.words + cell.nWords, i + 1);
    }

    method LeaveUsed(cell: Cell)
      requires Rings() && cell in used
      modifies this`nUsed, this`usedCells, this`used, used`next, used`prev
      ensures Rings() && cell.next == null && cell.prev == null && cell !in used && cell !in unused
      ensures forall c :: c in used <==> c in old(used) && c != cell
    {
      hide Ring, Removed, Apart;
      RingIsDistinct(usedCells, used);
      ghost var k :| 0 <= k < |used| && used[k] == cell;
      NotApart(used, unused, k);
      usedCells := RemoveCellRing(usedCells, cell, used, k, unusedCells, unused);
      RemovedMembers(used, k);
      RemovedApart(used, k, unused);
      used := Removed(used, k);
      nUsed := nUsed - 1;
    }

    method JoinUnused(cell: Cell)
      requires Rings() && cell !in used && cell !in unused && cell.next == null && cell.prev == null
      modifies this`unusedCells, this`unused, unused`next, unused`prev, cell`next, cell`prev
      ensures Rings()
      ensures forall c :: c in unused <==> c in old(unused) || c == cell
    {
      hide Ring, Inserted, Apart;
      unusedCells := InsertCellRing(unusedCells, cell, unused, usedCells, used);
      InsertedMembers(unused, cell);
      InsertedApart(unused, cell, used);
      unused := Inserted(unused, cell);
    }

    // Zero the bytes of the used cell number i, which thereby becomes free.
    method Wipe(cell: Cell, memory: nat, ghost i: nat)
      requires Within(segs, cells) && Layout(segs, mem[..], nWords) && Coupled(-1) && Rings()
      requires i < |segs| && segs[i].cell == cell && segs[i].req > 0 && memory == segs[i].words + 1
      modifies this`segs, mem
      ensures segs == old(segs)[i := old(segs)[i].(req := 0, tag := None)]
      ensures Within(segs, cells) && Layout(segs, mem[..], nWords) && Coupled(i) && Rings()
      ensures Allocations() == old(Allocations()) - {memory}
      ensures PointersStay(old(mem[..]), mem[..], WORD * memory, WORD * memory + old(segs)[i].req)
    {
      hide Live, Rings, PointersStay;
      FreshInBlock(i);
      assert CoupledAt(segs[i]);
      Clear(memory, 0, cell.requested);
      ClearedStay(old(mem[..]), mem[..], memory, 0, cell.requested);
      ReleaseStep(segs, old(mem[..]), nWords, i, mem[..]);
      segs := segs[i := segs[i].(req := 0, tag := None)];
    }

    method ExitUsed(cell: Cell)
      requires Within(segs, cells) && Coupled(-1) && Rings() && cell in used
      modifies this`nUsed, this`usedCells, this`used, used`next, used`prev
      ensures Within(segs, cells) && Coupled(-1) && Rings()
      ensures cell.next == null && cell.prev == null && cell !in used && cell !in unused
      ensures forall c :: c in used <==> c in old(used) && c != cell
    {
      LeaveUsed(cell);
    }

    method Release(cell: Cell, memory: nat, ghost i: nat)
      requires Valid() && i < |segs| && segs[i].cell == cell && segs[i].req > 0 && memory == segs[i].words + 1
      modifies this, mem, used`next, used`prev
      ensures Open(i) && segs == old(segs)[i := old(segs)[i].(req := 0, tag := None)]
      ensures cells == old(cells) && unused == old(unused) && cell !in unused
      ensures Allocations() == old(Allocations()) - {memory}
      ensures PointersStay(old(mem[..]), mem[..], WORD * memory, WORD * memory + old(segs)[i].req)
    {
      hide Layout, Rings, Coupled, Live, PointersStay;
      assert cell in used;
      ghost var m := mem[..];
      ExitUsed(cell);
      assert mem[..] == m;
      Wipe(cell, memory, i);
      MembersReleased(old(segs), nWords, m, old(used), unused, i, used);
    }

    // Numbers i and i + 1 become one cell, described by the first or the second of
    // the two; the other's metadata is given back to the pool.
    method MergeExtent(keep: Cell, dropped: Cell, first: bool, ghost i: nat, ghost o: int)
      requires Within(segs, cells) && Coupled(o) && Rings() && DistinctCells(segs)
      requires i + 1 < |segs| && (o == i || o == i + 1 || o == -1)
      requires if first then keep == segs[i].cell && dropped == segs[i + 1].cell
               else keep == segs[i + 1].cell && dropped == segs[i].cell
      requires first || o == i
      modifies this`segs, this`cells, keep`words, keep`nWords
      ensures segs == Merged(old(segs), i, keep) && cells == old(cells) - {dropped}
      ensures Within(segs, cells) && Coupled(if o < 0 then -1 else i) && Rings()
    {
      hide Rings;
      assert o == i || CoupledAt(segs[i]);
      assert o == i + 1 || CoupledAt(segs[i + 1]);
      keep.nWords := keep.nWords + dropped.nWords;
      if !first {
        keep.words := dropped.words;
      }
      segs := Merged(segs, i, keep);
      cells := cells - {dropped};
      forall j | 0 <= j < |segs|
        ensures segs[j].cell in cells && (j != i ==> CoupledAt(segs[j]))
      {
        if j < i {
          assert segs[j] == old(segs)[j];
        } else if j > i {
          assert segs[j] == old(segs)[j + 1];
        }
      }
    }

    // Write the merged cell's guards.
    method MergeCells(keep: Cell, dropped: Cell, first: bool, ghost i: nat, ghost o: int)
      requires Within(segs, cells) && Coupled(o) && Rings() && Layout(segs, mem[..], nWords)
      requires i + 1 < |segs| && (o == i || o == i + 1 || o == -1) && segs[i + 1].req == 0
      requires if first then keep == segs[i].cell && dropped == segs[i + 1].cell
               else keep == segs[i + 1].cell && dropped == segs[i].cell
      requires first || o == i
      modifies this`segs, this`cells, mem, keep`words, keep`nWords
      ensures segs == Merged(old(segs), i, keep) && cells == old(cells) - {dropped}
      ensures Within(segs, cells) && Layout(segs, mem[..], nWords) && Coupled(if o < 0 then -1 else i) && Rings()
      ensures Allocations() == old(Allocations()) && PointersStay(old(mem[..]), mem[..], 0, 0)
    {
      hide Rings, Layout, Live, HoldsPtr, TwoWordsWritten, PointersWritten, PointersStay;
      FreshInBlock(i);
      FreshInBlock(i + 1);
      ghost var z := MergedSeg(segs, i, keep);
      MergeExtent(keep, dropped, first, i, o);
      assert segs[i] == z && keep.words == z.words && keep.nWords == z.n;
      WriteGuards(keep);
      WrittenStay(old(mem[..]), mem[..], keep.words, keep.words + keep.nWords);
      assert MergeWritten(old(segs), old(mem[..]), i, keep, mem[..]);
      MergeStep(old(segs), old(mem[..]), nWords, i, keep, mem[..]);
    }

    // Find the previous unallocated neighbour, and merge with it.
    method MergeBefore(cell: Cell, ghost i: nat) returns (kept: Cell, ghost k: nat)
      requires Open(i) && segs[i].cell == cell && cell !in unused
      modifies this`segs, this`cells, mem, cells`words, cells`nWords
      ensures cells <= old(cells)
      ensures Open(k) && segs[k].cell == kept
      ensures k == FirstFree(old(segs), i) && segs == JoinedBefore(old(segs), i)
      ensures k > 0 ==> segs[k - 1].req > 0
      ensures Allocations() == old(Allocations()) && PointersStay(old(mem[..]), mem[..], 0, 0)
    {
      hide Rings, Layout, Live, MembersBut, NoFreePairBut;
      OpenFacts(i);
      var other := SecNeighborBefore(cell, i);
      if other != null && other.requested == 0 {
        BeforeFacts(i, other);
        MergeCells(other, cell, true, i - 1, i);
        MembersMerged(old(segs), used, unused, i - 1, i, other, unused);
        return other, i - 1;
      }
      kept, k := cell, i;
    }

    lemma OpenFacts(i: nat)
      requires Open(i)
      ensures segs[i].words == segs[i].cell.words && segs[i].n == segs[i].cell.nWords && segs[i].cell !in used
      ensures forall j :: 0 <= j < |segs| && j != i ==> (segs[j].cell.requested == 0 <==> segs[j].req == 0)
      ensures DistinctCells(segs) && segs[i].cell in cells
    {
    }

    lemma BeforeFacts(i: nat, other: Cell)
      requires Open(i) && i > 0 && other == segs[i - 1].cell && other.requested == 0
      requires segs[i].cell !in unused
      ensures segs[i - 1].req == 0 && other.tag == None && other.next != null && other.prev != null
      ensures forall c :: c in unused <==> c in unused && c != segs[i].cell
      ensures i > 1 ==> segs[i - 2].req > 0
    {
    }

    // Find the next unallocated neighbour, and merge with it.
    method MergeAfter(cell: Cell, ghost i: nat) returns (kept: Cell, ghost k: nat)
      requires Open(i) && segs[i].cell == cell && (i > 0 ==> segs[i - 1].req > 0)
      modifies this, mem, cells
      ensures cells <= old(cells)
      ensures Open(k) && segs[k].cell == kept
      ensures k == i && segs == JoinedAfter(old(segs), i)
      ensures k > 0 ==> segs[k - 1].req > 0
      ensures k + 1 < |segs| ==> segs[k + 1].req > 0
      ensures Allocations() == old(Allocations()) && PointersStay(old(mem[..]), mem[..], 0, 0)
    {
      hide Rings, Layout, Live, MembersBut, NoFreePairBut, Coupled;
      OpenFacts(i);
      var other := SecNeighborAfter(cell, i);
      if other != null && other.requested == 0 {
        AfterFacts(i, other);
        ghost var m := mem[..];
        Unring(cell, i);
        assert mem[..] == m;
        MergeCells(other, cell, false, i, i);
        MembersMerged(old(segs), used, old(unused), i, i, other, unused);
        return other, i;
      }
      kept, k := cell, i;
    }

    // Take the cell off the unused ring, if it is on it; nothing else moves.
    method Unring(cell: Cell, ghost o: int)
      requires Within(segs, cells) && Coupled(o) && Rings()
      requires cell !in unused ==> cell.next == null && cell.prev == null
      modifies this`unusedCells, this`unused, unused`next, unused`prev
      ensures Within(segs, cells) && Coupled(o) && Rings() && cell.next == null && cell.prev == null
      ensures forall c :: c in unused <==> c in old(unused) && c != cell
    {
      hide Rings;
      UnringFacts(cell);
      if cell.next != null {
        LeaveUnused(cell);
      }
    }

    lemma UnringFacts(cell: Cell)
      requires Rings()
      ensures cell in unused ==> cell.next != null && cell.prev != null
    {
    }

    lemma AfterFacts(i: nat, other: Cell)
      requires Open(i) && i + 1 < |segs| && other == segs[i + 1].cell && other.requested == 0
      ensures segs[i + 1].req == 0 && other.tag == None && other.next != null && other.prev != null
      ensures i + 2 < |segs| ==> segs[i + 2].req > 0
      ensures forall c :: c in unused ==> c in cells
      ensures forall c :: c in used ==> c in cells
    {
      var k :| 0 <= k < |unused| && unused[k] == other;
      forall c | c in unused ensures c in cells {
        var j :| 0 <= j < |unused| && unused[j] == c;
        assert HasCell(segs, unused[j]);
      }
      forall c | c in used ensures c in cells {
        var j :| 0 <= j < |used| && used[j] == c;
        assert HasCell(segs, used[j]);
      }
    }

    // Put the cell on the unused ring, unless it is there already.
    method Rering(cell: Cell, ghost o: int)
      requires Within(segs, cells) && Coupled(o) && Rings() && cell !in used
      requires cell !in unused ==> cell.next == null && cell.prev == null
      modifies this`unusedCells, this`unused, unused`next, unused`prev, cell`next, cell`prev
      ensures Within(segs, cells) && Coupled(o) && Rings()
      ensures forall c :: c in unused <==> c in old(unused) || c == cell
    {
      hide Rings;
      UnringFacts(cell);
      if cell.next == null {
        JoinUnused(cell);
      }
    }

    method ClearRequest(cell: Cell, ghost i: nat)
      requires Within(segs, cells) && Coupled(i) && Rings() && DistinctCells(segs)
      requires i < |segs| && segs[i].cell == cell && segs[i].req == 0 && segs[i].tag == None
      modifies cell`tag, cell`requested
      ensures Within(segs, cells) && Coupled(-1) && Rings()
    {
      hide Rings;
      cell.tag := None;
      cell.requested := 0;
    }

    method Settle(cell: Cell, ghost i: nat)
      requires Open(i) && segs[i].cell == cell
      requires i > 0 ==> segs[i - 1].req > 0
      requires i + 1 < |segs| ==> segs[i + 1].req > 0
      modifies this`unusedCells, this`unused, cells
      ensures Valid() && segs == old(segs) && Allocations() == old(Allocations())
    {
      hide Rings, Layout, Live, MembersBut, NoFreePairBut, Coupled;
      OpenFacts(i);
      SettleFacts(i);
      ghost var m := mem[..];
      Rering(cell, i);
      ClearRequest(cell, i);
      assert mem[..] == m;
      MembersSettled(segs, used, old(unused), i, unused);
    }

    lemma SettleFacts(i: nat)
      requires Open(i)
      ensures SegOk(segs[i])
      ensures forall c :: c in unused ==> c in cells
      ensures forall c :: c in used ==> c in cells
    {
      forall c | c in unused ensures c in cells {
        var j :| 0 <= j < |unused| && unused[j] == c;
        assert HasCell(segs, unused[j]);
      }
      forall c | c in used ensures c in cells {
        var j :| 0 <= j < |used| && used[j] == c;
        assert HasCell(segs, used[j]);
      }
    }

    method SecFree(memory: nat) returns (ghost i: nat)
      requires Valid() && memory in Allocations()
      modifies this, mem, cells
      ensures Valid() && cells <= old(cells)
      ensures Allocations() == old(Allocations()) - {memory}
      ensures i < |old(segs)| && old(segs)[i].words + 1 == memory && segs == Freed(old(segs), i)
      ensures PointersStay(old(mem[..]), mem[..], WORD * memory, WORD * memory + old(segs)[i].req)
    {
      hide Rings, Layout, Live, Members, NoFreePair, Open, PointersStay, JoinedBefore, JoinedAfter;
      FitsNow();
      i := LookUp(segs, mem[..], nWords, memory);
      RingsWithin();
      var word := memory - 1;
      assert mem[..][WORD * word] == mem[WORD * word];
      var cell := mem[WORD * word].cell;
      assert CoupledAt(segs[i]);
      assert word < nWords && cell in cells && cell.requested > 0 && cell.tag != None;
      Release(cell, memory, i);
      ghost var m := mem[..];
      var kept: Cell;
      ghost var k: nat;
      kept, k := MergeBefore(cell, i);
      ghost var m1 := mem[..];
      kept, k := MergeAfter(kept, k);
      StayStay(m, m1, mem[..], 0, 0);
      StayStay(old(mem[..]), m, mem[..], WORD * memory, WORD * memory + old(segs)[i].req);
      Settle(kept, k);
    }

    lemma FitsNow()
      requires Layout(segs, mem[..], nWords)
      ensures Fits(segs, mem[..]) && Allocations() == Live(segs, mem[..]) && mem.Length == WORD * nWords
    {
      LayoutFits(segs, mem[..], nWords);
    }

    lemma LayoutNow()
      requires Valid()
      ensures Layout(segs, mem[..], nWords)
    {
    }

    lemma RingsWithin()
      requires Valid()
      ensures forall c :: c in unused ==> c in cells
      ensures forall c :: c in used ==> c in cells
    {
      forall c | c in unused ensures c in cells {
        var j :| 0 <= j < |unused| && unused[j] == c;
        assert HasCell(segs, unused[j]);
      }
      forall c | c in used ensures c in cells {
        var j :| 0 <= j < |used| && used[j] == c;
        assert HasCell(segs, used[j]);
      }
    }

    // sec_realloc: eat the whole neighbour.
    method EatNeighbor(cell: Cell, other: Cell, ghost i: nat)
      requires Valid() && i + 1 < |segs| && segs[i].cell == cell && segs[i + 1].cell == other
      requires segs[i].req > 0 && segs[i + 1].req == 0
      modifies this, mem, cells
      ensures Valid() && segs == Merged(old(segs), i, cell) && cells <= old(cells)
      ensures Allocations() == old(Allocations())
    {
      hide Rings, Layout, Live, Members, NoFreePair, Coupled;
      RingsWithin();
      FreshInBlock(i);
      ValidOpen(i + 1);
      ghost var m := mem[..];
      Unring(other, -1);
      assert mem[..] == m;
      MergeCells(cell, other, true, i, -1);
      MembersEaten(old(segs), used, old(unused), i, unused);
    }

    method StealExtent(cell: Cell, other: Cell, k: nat, ghost i: nat)
      requires Within(segs, cells) && Coupled(-1) && Rings() && DistinctCells(segs)
      requires i + 1 < |segs| && segs[i].cell == cell && segs[i + 1].cell == other && k <= segs[i + 1].n
      modifies this`segs, other`words, other`nWords, cell`nWords
      ensures segs == Stolen(old(segs), i, k)
      ensures Within(segs, cells) && Coupled(-1) && Rings()
      ensures CoupledAt(segs[i]) && CoupledAt(segs[i + 1])
    {
      hide Rings;
      assert CoupledAt(segs[i]) && CoupledAt(segs[i + 1]);
      other.words := other.words + k;
      other.nWords := other.nWords - k;
      cell.nWords := cell.nWords + k;
      StolenDistinct(segs, i, k);
      segs := Stolen(segs, i, k);
      forall j | 0 <= j < |segs|
        ensures segs[j].cell in cells && CoupledAt(segs[j])
      {
        if j != i && j != i + 1 {
          assert segs[j] == old(segs)[j];
        }
      }
    }

    // sec_realloc: steal k words from the neighbour.
    method StealFromNeighbor(cell: Cell, other: Cell, k: nat, ghost i: nat)
      requires Valid() && i + 1 < |segs| && segs[i].cell == cell && segs[i + 1].cell == other
      requires segs[i].req > 0 && segs[i + 1].req == 0 && k + WASTE < segs[i + 1].n
      modifies this`segs, mem, other`words, other`nWords, cell`nWords
      ensures Valid() && segs == Stolen(old(segs), i, k)
      ensures Allocations() == old(Allocations())
    {
      hide Rings, Layout, Live, Members, NoFreePair, Coupled, HoldsPtr, PointersWritten, Stolen;
      FreshInBlock(i);
      FreshInBlock(i + 1);
      StolenDistinct(segs, i, k);
      StealExtent(cell, other, k, i);
      GuardSteal(cell, other);
      StealStep(old(segs), old(mem[..]), nWords, i, k, mem[..]);
      MembersSame(old(segs), segs, used, unused);
    }

    // Write the guards of two adjacent cells, the second one first.
    method GuardSteal(x: Cell, y: Cell)
      requires x.nWords >= 3 && y.nWords >= 3 && y.words == x.words + x.nWords
      requires WORD * (y.words + y.nWords) <= mem.Length
      modifies mem
      ensures HoldsPtr(mem[..], x.words, x) && HoldsPtr(mem[..], x.words + x.nWords - 1, x)
      ensures HoldsPtr(mem[..], y.words, y) && HoldsPtr(mem[..], y.words + y.nWords - 1, y)
      ensures forall b :: 0 <= b < mem.Length && mem[..][b] != old(mem[..])[b] ==>
                            InWord(b, x.words) || InWord(b, x.words + x.nWords - 1)
                            || InWord(b, y.words) || InWord(b, y.words + y.nWords - 1)
    {
      WriteGuards(y);
      WriteGuards(x);
    }

    // A client, or memcpy, writes into an allocation.
    method Write(memory: nat, offset: nat, data: seq<Byte>)
      requires Valid() && memory in Allocations()
      requires offset + |data| <= Allocations()[memory].requested
      modifies mem
      ensures Valid() && segs == old(segs)
      ensures memory in old(Allocations()) && |old(Allocations())[memory].bytes| == old(Allocations())[memory].requested
      ensures Allocations() == old(Allocations())[memory := Overwritten(old(Allocations())[memory], offset, data)]
    {
      hide Rings, Layout, Live, Members, NoFreePair, Payload, Overwritten;
      FitsNow();
      ghost var i := LookUp(segs, mem[..], nWords, memory);
      assert CoupledAt(segs[i]);
      forall b | WORD * memory + offset <= b < WORD * memory + offset + |data| {
        mem[b] := data[b - WORD * memory - offset];
      }
      ResizeStep(segs, old(mem[..]), nWords, i, segs[i], offset, offset + |data|, mem[..]);
      assert segs[i := segs[i]] == segs;
      PayloadOverwritten(old(mem[..]), mem[..], segs[i], offset, data);
    }

    // The used cell number i is given a new size and tag; from..to of its bytes are cleared.
    method Resize(cell: Cell, tag: Option<string>, length: nat, from: nat, to: nat, ghost i: nat)
      returns (ghost was: Alloc, ghost now: Alloc)
      requires Valid() && i < |segs| && segs[i].cell == cell && segs[i].req > 0
      requires length > 0 && length <= (segs[i].n - 2) * WORD && tag.Some?
      requires ResizeRange(segs[i].req, length, from, to)
      modifies this`segs, mem, cell`requested, cell`tag
      ensures Valid() && segs == old(segs)[i := old(segs)[i].(req := length, tag := tag)]
      ensures var p := old(segs)[i].words + 1; p in old(Allocations()) && was == old(Allocations())[p]
      ensures Allocations() == old(Allocations())[old(segs)[i].words + 1 := now]
      ensures Resized(was, now, length, tag, from < to)
      ensures now.tag == tag && now.requested == length && WORD * (old(segs)[i].words + 1) + length <= mem.Length
      ensures from >= length || from == to ==>
                now.bytes == old(mem[..])[WORD * (old(segs)[i].words + 1)..WORD * (old(segs)[i].words + 1) + length]
    {
      hide Rings, Layout, Live, Members, NoFreePair, Coupled, SegMem, Cleared, Resized, Payload, SegOk;
      FitsNow();
      FreshInBlock(i);
      OkIs(segs[i], length);
      ghost var x := segs[i].(req := length, tag := tag);
      SetRequest(cell, tag, length, i);
      Clear(cell.words + 1, from, to);
      was, now := ResizeAll(old(segs), old(mem[..]), nWords, i, x, from, to, mem[..]);
      MembersSame(old(segs), segs, used, unused);
    }

    method SetRequest(cell: Cell, tag: Option<string>, length: nat, ghost i: nat)
      requires Within(segs, cells) && Coupled(-1) && Rings() && DistinctCells(segs)
      requires i < |segs| && segs[i].cell == cell
      modifies this`segs, cell`requested, cell`tag
      ensures segs == old(segs)[i := old(segs)[i].(req := length, tag := tag)] && cell.words == segs[i].words
      ensures Within(segs, cells) && Coupled(-1) && Rings()
    {
      hide Rings;
      assert CoupledAt(segs[i]);
      cell.requested := length;
      cell.tag := tag;
      segs := segs[i := segs[i].(req := length, tag := tag)];
    }

    lemma SegMemAt(i: nat)
      requires Layout(segs, mem[..], nWords) && i < |segs|
      ensures SegMem(mem[..], segs[i]) && SegOk(segs[i])
    {
    }

    lemma FreePairsNow()
      requires Valid()
      ensures NoFreePair(segs)
    {
    }

    // Take what is needed from free cells that follow cell number i.
    method GrowInto(cell: Cell, n: nat, ghost i: nat)
      requires Valid() && i < |segs| && segs[i].cell == cell && segs[i].req > 0
      modifies this, mem, cells
      ensures Valid() && cells <= old(cells) && Allocations() == old(Allocations())
      ensures i < |segs| && segs[i].cell == cell
      ensures segs[i] == old(segs)[i].(n := segs[i].n) && segs[i].n >= old(segs)[i].n
      ensures segs[i].n >= n <==> Growable(old(segs), i, n)
      ensures segs[i].n < n ==> (RoomIn(segs, n) <==> RoomIn(old(segs), n))
    {
      hide Rings, Layout, Live, Members, NoFreePair, RoomIn, Merged, Stolen, Growable;
      GrowableNow(segs, i, n);
      while cell.nWords < n
        invariant Valid() && cells <= old(cells) && Allocations() == old(Allocations())
        invariant i < |segs| && segs[i].cell == cell
        invariant segs[i] == old(segs)[i].(n := segs[i].n) && segs[i].n >= old(segs)[i].n
        invariant segs[i].n >= n ==> Growable(old(segs), i, n)
        invariant segs[i].n < n ==> (Growable(segs, i, n) <==> Growable(old(segs), i, n)) && (RoomIn(segs, n) <==> RoomIn(old(segs), n))
        decreases |segs|, n - cell.nWords
      {
        ghost var s := segs;
        GrowableNow(s, i, n);
        FreePairsNow();
        assert CoupledAt(segs[i]);
        var other := SecNeighborAfter(cell, i);
        if other == null || other.requested != 0 {
          break;
        }
        assert CoupledAt(segs[i + 1]);
        if n - cell.nWords + WASTE >= other.nWords {
          EatNeighbor(cell, other, i);
          MergedAt(s, i, cell);
          if s[i].n + s[i + 1].n < n {
            MergedInVain(s, i, cell, n);
          }
        } else {
          StealFromNeighbor(cell, other, n - cell.nWords, i);
          StolenAt(s, i, n - s[i].n);
        }
        assert CoupledAt(segs[i]);
      }
    }

    /** Where the cell has the words the request is resized in place, and what it gains is
        what memory held there; otherwise the cell grows or moves, and what it gains is zero. */
    method SecRealloc(tag: string, memory: nat, length: nat, poolOk: bool) returns (alloc: Option<nat>, ghost i: nat, ghost now: Alloc)
      requires Valid() && memory in Allocations() && length > 0
      modifies this, mem, cells
      ensures Valid() && fresh(cells - old(cells))
      ensures i < |old(segs)| && old(segs)[i].words + 1 == memory
      ensures alloc == None ==>
                && Allocations() == old(Allocations())
                && old(segs)[i].n < SizeToWords(length) + 2 && old(Allocations())[memory].requested < length
                && !Growable(old(segs), i, SizeToWords(length) + 2) && (!poolOk || !RoomIn(old(segs), SizeToWords(length) + 2))
                && (RoomIn(segs, SizeToWords(length) + 2) <==> RoomIn(old(segs), SizeToWords(length) + 2))
      ensures alloc.Some? ==> Growable(old(segs), i, SizeToWords(length) + 2) || RoomIn(old(segs), SizeToWords(length) + 2)
      ensures alloc.Some? ==>
                && Allocations() == (old(Allocations()) - {memory})[alloc.value := now]
                && (alloc.value == memory || alloc.value !in old(Allocations()))
                && Resized(old(Allocations())[memory], now, length, now.tag, false)
      ensures alloc.Some? && SizeToWords(length) + 2 <= old(segs)[i].n ==>
                && alloc.value == memory && WORD * memory + length <= mem.Length
                && now == Alloc(length, old(Allocations())[memory].tag, old(mem[..])[WORD * memory..WORD * memory + length])
      ensures alloc.Some? && SizeToWords(length) + 2 <= old(segs)[i].n && old(Allocations())[memory].requested <= length ==>
                var was := old(Allocations())[memory];
                && WORD * memory + length <= mem.Length
                && (Resized(was, now, length, was.tag, true)
                    <==> NoPointer(old(mem[..]), WORD * memory + was.requested, WORD * memory + length))
      ensures alloc.Some? && SizeToWords(length) + 2 > old(segs)[i].n ==>
                Resized(old(Allocations())[memory], now, length, Some(tag), true)
    {
      hide Rings, Layout, Live, Members, NoFreePair, Coupled, Resized, NoPointer, RoomIn, Growable;
      FitsNow();
      i := LookUp(segs, mem[..], nWords, memory);
      CoupledNow(i);
      var word := memory - 1;
      assert mem[..][WORD * word] == mem[WORD * word];
      var cell := mem[WORD * word].cell;
      assert word < nWords && cell.requested > 0 && cell.tag != None;
      var valid := cell.requested;
      var n := SizeToWords(length) + 2;
      ghost var was: Alloc;
      GrowableNow(segs, i, n);
      if n <= cell.nWords {
        ghost var kept := cell.tag;
        was, now := Resize(cell, cell.tag, length, if length < valid then length else 0, if length < valid then valid else 0, i);
        WeakenResized(was, now, length, kept, length < valid);
        if length >= valid {
          SlackZeroIff(was, now, old(mem[..]), memory);
        }
        return Some(cell.words + 1), i, now;
      }
      DoesNotFit(segs[i], length);
      alloc, now := GrowOrMove(cell, tag, memory, length, poolOk, i);
      if alloc.Some? {
        WeakenResized(old(Allocations())[memory], now, length, Some(tag), true);
      }
    }

    // The cell does not have the words: it takes them from what follows, or moves.
    method GrowOrMove(cell: Cell, tag: string, memory: nat, length: nat, poolOk: bool, ghost i: nat)
      returns (alloc: Option<nat>, ghost now: Alloc)
      requires Valid() && memory in Allocations() && length > 0
      requires i < |segs| && segs[i].cell == cell && segs[i].words + 1 == memory && 0 < segs[i].req < length
      requires Allocations()[memory].requested == segs[i].req == |Allocations()[memory].bytes|
      modifies this, mem, cells
      ensures Valid() && fresh(cells - old(cells))
      ensures alloc == None ==>
                && Allocations() == old(Allocations())
                && !Growable(old(segs), i, SizeToWords(length) + 2) && (!poolOk || !RoomIn(old(segs), SizeToWords(length) + 2))
                && (RoomIn(segs, SizeToWords(length) + 2) <==> RoomIn(old(segs), SizeToWords(length) + 2))
      ensures alloc.Some? ==> Growable(old(segs), i, SizeToWords(length) + 2) || RoomIn(old(segs), SizeToWords(length) + 2)
      ensures alloc.Some? ==>
                && Allocations() == (old(Allocations()) - {memory})[alloc.value := now]
                && (alloc.value == memory || alloc.value !in old(Allocations()))
                && Resized(old(Allocations())[memory], now, length, Some(tag), true)
    {
      hide Rings, Layout, Live, Members, NoFreePair, Coupled, Resized, RoomIn, Growable;
      CoupledNow(i);
      var valid := cell.requested;
      var n := SizeToWords(length) + 2;
      GrowInto(cell, n, i);
      CoupledNow(i);
      if cell.nWords >= n {
        ghost var was;
        was, now := Resize(cell, Some(tag), length, valid, length, i);
        return Some(cell.words + 1), now;
      }
      alloc, now := MoveWithin(tag, memory, length, valid, poolOk);
    }

    // The last resort: a new cell, the bytes copied into it, and the old one freed.
    method MoveWithin(tag: string, memory: nat, length: nat, valid: nat, poolOk: bool) returns (alloc: Option<nat>, ghost now: Alloc)
      requires Valid() && memory in Allocations() && valid == Allocations()[memory].requested == |Allocations()[memory].bytes| < length
      modifies this, mem, cells
      ensures Valid() && fresh(cells - old(cells))
      ensures alloc == None ==>
                && Allocations() == old(Allocations())
                && segs == old(segs) && (!poolOk || !RoomIn(segs, SizeToWords(length) + 2))
      ensures alloc.Some? ==> RoomIn(old(segs), SizeToWords(length) + 2)
      ensures alloc.Some? ==>
                && Allocations() == (old(Allocations()) - {memory})[alloc.value := now] && alloc.value !in old(Allocations())
                && Resized(old(Allocations())[memory], now, length, Some(tag), true)
    {
      hide Rings, Layout, Live, Members, NoFreePair, Coupled, Resized, PointersStay, Taken, Freed;
      now := Allocations()[memory];
      alloc := SecAlloc(tag, length, poolOk);
      if alloc.Some? {
        CopyBytes(alloc.value, memory, valid);
        now := Allocations()[alloc.value];
        MovedResized(old(Allocations())[memory], length, Some(tag));
        ghost var freed := SecFree(memory);
      }
    }

    lemma CoupledNow(i: nat)
      requires Valid() && i < |segs|
      ensures CoupledAt(segs[i]) && segs[i].cell in cells && SegOk(segs[i])
    {
    }

    // memcpy between two allocations
    method CopyBytes(dest: nat, src: nat, n: nat)
      requires Valid() && src in Allocations() && dest in Allocations() && src != dest
      requires n == Allocations()[src].requested && n <= Allocations()[dest].requested
      modifies mem
      ensures Valid() && segs == old(segs)
      ensures src in old(Allocations()) && dest in old(Allocations())
      ensures |old(Allocations())[src].bytes| == n <= |old(Allocations())[dest].bytes|
      ensures Allocations() == old(Allocations())[dest := Overwritten(old(Allocations())[dest], 0, old(Allocations())[src].bytes)]
    {
      hide Rings, Layout, Live, Members, NoFreePair, Coupled;
      var data := Read(src, n);
      Write(dest, 0, data);
    }

    method Read(memory: nat, n: nat) returns (data: seq<Byte>)
      requires Valid() && memory in Allocations() && n == Allocations()[memory].requested
      ensures data == Allocations()[memory].bytes && |data| == n
    {
      hide Rings, Layout, Live, Members, NoFreePair, Coupled;
      FitsNow();
      ghost var i := LookUp(segs, mem[..], nWords, memory);
      data := mem[WORD * memory..WORD * memory + n];
      assert data == Payload(mem[..], segs[i]);
    }

    method SecAllocated(memory: nat) returns (requested: nat)
      requires Valid() && memory in Allocations()
      ensures requested == Allocations()[memory].requested
    {
      hide Rings, Layout, Live, Members, NoFreePair, Coupled;
      FitsNow();
      ghost var i := LookUp(segs, mem[..], nWords, memory);
      CoupledNow(i);
      assert mem[..][WORD * (memory - 1)] == mem[WORD * (memory - 1)];
      requested := mem[WORD * (memory - 1)].cell.requested;
    }

    // Walk the block; the answer is no as soon as one of the assertions would fail.
    method SecValidate() returns (ok: bool)
      requires Valid()
      ensures ok
    {
      var word := 0;
      ghost var i := 0;
      FirstWord();
      while true
        invariant i < |segs| && word == segs[i].words
        decreases |segs| - i
      {
        WordFacts(i);
        if !(word < nWords && mem[WORD * word].Ptr?) {
          return false;
        }
        var cell := mem[WORD * word].cell;
        assert cell in cells;
        var guarded := CheckGuards(cell, i);
        if !guarded || cell.next == null || cell.prev == null {
          return false;
        }
        if cell.next.prev != cell || cell.prev.next != cell {
          return false;
        }
        if cell.requested > 0 {
          if cell.tag == None || cell.requested > (cell.nWords - 2) * WORD {
            return false;
          }
        } else if cell.tag != None {
          return false;
        }
        word := word + cell.nWords;
        if word == nWords {
          return true;
        }
        i := i + 1;
      }
    }

    method CheckGuards(cell: Cell, ghost i: nat) returns (ok: bool)
      requires Layout(segs, mem[..], nWords) && i < |segs| && segs[i].cell == cell
      requires cell.words == segs[i].words && cell.nWords == segs[i].n
      ensures ok
    {
      hide Layout, Clean, Tiled;
      SegMemAt(i);
      var first, last := WORD * cell.words, WORD * (cell.words + cell.nWords - 1);
      ok := (forall k :: 0 <= k < WORD ==> mem[first + k] == Ptr(cell, k))
            && (forall k :: 0 <= k < WORD ==> mem[last + k] == Ptr(cell, k));
    }

    lemma FirstWord()
      requires Valid()
      ensures |segs| > 0 && segs[0].words == 0
    {
    }

    lemma WordFacts(i: nat)
      requires Valid() && i < |segs|
      ensures segs[i].words < nWords && mem.Length == WORD * nWords
      ensures mem[WORD * segs[i].words] == Ptr(segs[i].cell, 0) && CoupledAt(segs[i]) && SegOk(segs[i])
      ensures segs[i].cell in cells
      ensures var c := segs[i].cell; c.next != null && c.prev != null && c.next.prev == c && c.prev.next == c
      ensures segs[i].words + segs[i].n == nWords <==> i + 1 == |segs|
      ensures i + 1 < |segs| ==> segs[i + 1].words == segs[i].words + segs[i].n
    {
      hide HasCell, Clean;
      Neighbours(segs, nWords, i);
      SegMemAt(i);
      assert mem[..][WORD * segs[i].words] == Ptr(segs[i].cell, 0);
      var c := segs[i].cell;
      if segs[i].req > 0 {
        RingLinks(usedCells, used, c);
      } else {
        RingLinks(unusedCells, unused, c);
      }
    }

    // sec_block_destroy relies on this.
    lemma NothingUsed()
      requires Valid() && nUsed == 0
      ensures usedCells == null && |segs| == 1 && segs[0].req == 0 && segs[0].words == 0 && segs[0].n == nWords
      ensures unused == [segs[0].cell] && Allocations() == map[]
    {
      assert forall i :: 0 <= i < |segs| ==> segs[i].cell !in used;
      OneFreeCell(segs, mem[..], nWords);
      FitsNow();
      assert segs == [segs[0]];
      LiveOne(segs[0], mem[..]);
      assert segs[0].cell in unused;
      assert forall k :: 0 <= k < |unused| ==> HasCell(segs, unused[k]) && unused[k] == segs[0].cell;
      RingIsDistinct(unusedCells, unused);
      if |unused| > 1 {
        DistinctAt(unused, 0, 1);
      }
    }

    // egg_secure_records: the two rings account for all memory.
    method RecordedWords() returns (total: nat)
      requires Valid()
      ensures total == nWords
    {
      var free := WordsInRing(unusedCells, unused);
      total := WordsInRing(usedCells, used);
      total := free + total;
      RingsAreCells();
      SumWordsAppend(unused, used);
      SumWordsPermuted(unused + used, CellSeq(segs));
      TilingWords(segs, 0, nWords);
    }

    lemma RingsAreCells()
      requires Valid()
      ensures Distinct(unused + used) && Distinct(CellSeq(segs))
      ensures forall c :: c in unused + used <==> c in CellSeq(segs)
    {
      hide SegMem, SegOk, Coupled;
      CellSeqAt(segs);
      forall c | c in unused + used ensures c in CellSeq(segs) {
        if c in used {
          var k :| 0 <= k < |used| && used[k] == c;
          assert HasCell(segs, used[k]);
        } else {
          var k :| 0 <= k < |unused| && unused[k] == c;
          assert HasCell(segs, unused[k]);
        }
      }
    }

    // sec_block_destroy: nothing is used, so one free cell is all there is to give back.
    method SecBlockDestroy() returns (released: nat)
      requires Valid() && nUsed == 0
      modifies this`unusedCells, this`unused, cells
      ensures unusedCells == null && usedCells == null && released == 1
    {
      hide Layout, Coupled, Members;
      RingsWithin();
      NothingUsed();
      released := 0;
      while unusedCells != null
        invariant Ring(unusedCells, unused) && Ring(usedCells, []) && forall c :: c in unused ==> c in old(cells)
        invariant |unused| + released == 1
        decreases |unused|
      {
        var cell := unusedCells;
        unusedCells := RemoveCellRing(unusedCells, cell, unused, 0, usedCells, []);
        unused := Removed(unused, 0);
        released := released + 1;
      }
    }

    // n_used counts the allocations clients hold.
    lemma UsedCount()
      requires Valid()
      ensures |Allocations()| == nUsed
    {
      hide SegMem, SegOk, Coupled, Live;
      FitsNow();
      LiveCount(segs, mem[..], nWords);
      UsedCellsAt(segs);
      SeqToSet(used);
      forall c | c in used ensures c in UsedCells(segs) {
        var k :| 0 <= k < |used| && used[k] == c;
        assert HasCell(segs, used[k]);
        var i :| 0 <= i < |segs| && segs[i].cell == c;
      }
      forall c | c in UsedCells(segs) ensures c in used {
        var i := UsedCellAt(segs, c);
      }
      assert UsedCells(segs) == set c | c in used;
    }

    lemma NoneUnused()
      requires Valid() && unusedCells == null
      ensures forall i :: 0 <= i < |segs| ==> segs[i].req > 0
    {
    }

    lemma ValidOpen(i: nat)
      requires Valid() && i < |segs| && segs[i].req == 0
      ensures Open(i) && CoupledAt(segs[i])
      ensures segs[i].tag == None && segs[i].cell.prev != null
    {
    }
  }

  lemma TakenWhole(s: seq<Seg>, i: nat, k: nat, length: nat, tag: string, s': seq<Seg>)
    requires Taken(s, i, length, tag, s') && k < |s| && s[k].req == 0 && s[k].n <= SizeToWords(length) + 2 + WASTE
    requires forall j :: 0 <= j < |s| && j != k ==> s[j].req > 0
    ensures i == k && s' == s[k := s[k].(req := length, tag := Some(tag))]
  {
  }

  lemma TakenFront(s: seq<Seg>, i: nat, k: nat, length: nat, tag: string, s': seq<Seg>)
    requires Taken(s, i, length, tag, s') && k < |s| && s[k].req == 0 && s[k].n > SizeToWords(length) + 2 + WASTE
    requires forall j :: 0 <= j < |s| && j != k ==> s[j].req > 0
    ensures i == k && |s'| == |s| + 1 && forall j :: 0 <= j < k ==> s'[j] == s[j]
    ensures s'[k].words == s[k].words && s'[k].n == SizeToWords(length) + 2 && s'[k].req == length
    ensures k + 1 < |s'| && s'[k + 1] == Seg(s[k].cell, s[k].words + s'[k].n, s[k].n - s'[k].n, 0, None)
  {
  }

  // A used cell, and a free one of n words at w.
  ghost predicate UsedThenFree(s: seq<Seg>, w: nat, n: nat) {
    && |s| == 2 && s[0].req > 0 && s[0].words == 0 && s[1].words == w > 0
    && s[1].n == n && s[1].req == 0 && s[1].tag == None
  }

  lemma FreedSecond(s: seq<Seg>, i: nat, w: nat)
    requires |s| == 3 && s[0].req > 0 && s[0].words == 0 && s[1].req > 0 && s[1].words == w > 0 && s[2].req == 0
    requires s[2].words > w && i < 3 && s[i].words == w
    ensures i == 1 && UsedThenFree(Freed(s, i), w, s[1].n + s[2].n)
  {
  }

  lemma GuardAt(s: seq<Seg>, m: seq<Byte>, n: nat, i: nat)
    requires Layout(s, m, n) && i < |s|
    ensures WORD * s[i].words < |m| && m[WORD * s[i].words].Ptr?
  {
    assert SegMem(m, s[i]);
  }

  // A block of the default size with all but its last eight words in use.
  method FillBlock() returns (block: Block)
    ensures fresh(block) && block.Valid() && fresh(block.mem) && fresh(block.cells) && UsedThenFree(block.segs, 2040, 8)
  {
    hide Block.Valid, Block.Allocations, Layout, Carved, Taken, PointersStay, Repeat;
    block := new Block(2048);
    block.NothingUsed();
    ghost var s := block.segs;
    var filler := block.SecAlloc("filler", 2038 * WORD, true);
    ghost var i: nat :| i < |block.segs| && Taken(s, i, 2038 * WORD, "filler", block.segs);
    TakenFront(s, i, 0, 2038 * WORD, "filler", block.segs);
  }

  // Three of the eight free words are used and freed: the guard of the cell after them stays.
  method LeaveGuard(block: Block, w: nat)
    requires block.Valid() && UsedThenFree(block.segs, w, 8)
    modifies block, block.mem, block.cells
    ensures block.Valid() && fresh(block.cells - old(block.cells)) && UsedThenFree(block.segs, w, 8)
    ensures WORD * (w + 3) < block.mem.Length && block.mem[WORD * (w + 3)].Ptr?
  {
    hide Block.Valid, Block.Allocations, Layout, Carved, Taken, Freed, Repeat;
    ghost var s := block.segs;
    var p := block.SecAlloc("used", WORD, true);
    ghost var i: nat :| i < |block.segs| && Taken(s, i, WORD, "used", block.segs) && p.value == block.segs[i].words + 1;
    TakenFront(s, i, 1, WORD, "used", block.segs);
    ghost var m := block.mem[..];
    block.LayoutNow();
    GuardAt(block.segs, m, block.nWords, 2);
    s := block.segs;
    i := block.SecFree(p.value);
    FreedSecond(s, i, w);
    assert block.mem[..][WORD * (w + 3)].Ptr?;
  }

  /** A resize that hands a guard to its client: a client takes sixteen bytes of the eight
      words and gets all of them, because WASTE lets nothing be split off, and then asks
      for twenty-four. */
  method StaleSlack() returns (block: Block, memory: nat, ghost was: Alloc, ghost now: Alloc)
    ensures block.Valid() && memory in block.Allocations() && block.Allocations()[memory] == now
    ensures was.requested == 16 && now.requested == 24 == |now.bytes| && now.bytes[16].Ptr?
    ensures Resized(was, now, 24, was.tag, false) && !Resized(was, now, 24, was.tag, true)
  {
    hide Block.Valid, Block.Allocations, Layout, Carved, Taken, Repeat, Resized;
    block := FillBlock();
    LeaveGuard(block, 2040);
    ghost var s := block.segs;
    ghost var m := block.mem[..];
    var p := block.SecAlloc("client", 2 * WORD, true);
    ghost var i: nat :| i < |block.segs| && Taken(s, i, 2 * WORD, "client", block.segs) && p.value == block.segs[i].words + 1;
    TakenWhole(s, i, 1, 2 * WORD, "client", block.segs);
    block.LayoutNow();
    was := block.Allocations()[p.value];
    m := block.mem[..];
    s := block.segs;
    var alloc;
    alloc, i, now := block.SecRealloc("client", p.value, 3 * WORD, true);
    memory := p.value;
    assert i == 1;
    assert m[WORD * 2043].Ptr? && now.bytes[16] == m[WORD * 2043];
  }
}
