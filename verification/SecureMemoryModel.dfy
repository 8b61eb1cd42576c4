// The value-level theory behind the secure allocator: how cells tile a block of
// words, what their guard words and slack bytes may hold, and which client
// allocations a tiling represents.
module SecureMemoryModel {
  import opened Wrappers

  // sizeof (void *), and how many surplus words an allocation may swallow.
  const WORD: nat := 8
  const WASTE: nat := 4

  /** Metadata of one cell; it lives outside the block it describes. */
  class Cell {
    var words: nat
    var nWords: nat
    var requested: nat
    var tag: Option<string>
    var next: Cell?
    var prev: Cell?

    // pool_alloc hands out zeroed items
    constructor ()
      ensures words == 0 && nWords == 0 && requested == 0
      ensures tag == None && next == null && prev == null
    {
      words, nWords, requested, tag, next, prev := 0, 0, 0, None, null, null;
    }
  }

  /** One byte of the block: plain data, or the k-th byte of a pointer to a cell. */
  datatype Byte = Plain(v: byte) | Ptr(cell: Cell, k: nat)

  const ZERO: Byte := Plain(0)

  // What may be left in memory that no client owns.
  predicate Quiet(b: Byte) {
    b == ZERO || b.Ptr?
  }

  /** A cell as a value: who describes it, where it lies, and what was asked for. */
  datatype Seg = Seg(cell: Cell, words: nat, n: nat, req: nat, tag: Option<string>)

  /** What a client holds: a size, a tag and the bytes it may use. */
  datatype Alloc = Alloc(requested: nat, tag: Option<string>, bytes: seq<Byte>)

  ghost predicate HoldsPtr(m: seq<Byte>, w: nat, c: Cell) {
    && WORD * (w + 1) <= |m|
    && forall b :: WORD * w <= b < WORD * (w + 1) ==> m[b] == Ptr(c, b - WORD * w)
  }

  ghost predicate InPayload(x: Seg, b: int) {
    WORD * (x.words + 1) <= b < WORD * (x.words + 1) + x.req
  }

  ghost predicate Clean(m: seq<Byte>, x: Seg)
    requires WORD * (x.words + x.n) <= |m|
  {
    forall b :: WORD * x.words <= b < WORD * (x.words + x.n) && !InPayload(x, b) ==> Quiet(m[b])
  }

  // Both end words point back to the metadata, and nothing a client wrote
  // survives outside the requested range.
  ghost predicate SegMem(m: seq<Byte>, x: Seg) {
    && x.n >= 3
    && WORD * (x.words + x.n) <= |m|
    && HoldsPtr(m, x.words, x.cell)
    && HoldsPtr(m, x.words + x.n - 1, x.cell)
    && Clean(m, x)
  }

  ghost predicate SegOk(x: Seg) {
    && x.n >= 3
    && (x.req == 0 <==> x.tag == None)
    && x.req <= (x.n - 2) * WORD
  }

  // The segments lie side by side and cover exactly the words [from, to).
  ghost predicate Tiled(s: seq<Seg>, from: nat, to: nat) {
    if s == [] then from == to
    else s[0].words == from && s[0].n > 0 && Tiled(s[1..], from + s[0].n, to)
  }

  ghost predicate Ordered(s: seq<Seg>, from: nat, to: nat) {
    && (forall i :: 0 <= i < |s| ==> from <= s[i].words && s[i].n > 0 && s[i].words + s[i].n <= to)
    && (forall i, j :: 0 <= i < j < |s| ==> s[i].words + s[i].n <= s[j].words)
  }

  ghost predicate NoFreePair(s: seq<Seg>) {
    forall i, j :: 0 <= i < |s| && j == i + 1 && j < |s| ==> s[i].req > 0 || s[j].req > 0
  }

  ghost predicate DistinctCells(s: seq<Seg>) {
    forall i, j :: 0 <= i < j < |s| ==> s[i].cell != s[j].cell
  }

  // Everything except the coalescing rule.
  ghost predicate Layout(s: seq<Seg>, m: seq<Byte>, n: nat) {
    && |m| == WORD * n
    && Tiled(s, 0, n)
    && DistinctCells(s)
    && (forall i :: 0 <= i < |s| ==> SegOk(s[i]) && SegMem(m, s[i]))
  }

  function Payload(m: seq<Byte>, x: Seg): seq<Byte>
    requires WORD * (x.words + 1) + x.req <= |m|
  {
    m[WORD * (x.words + 1)..WORD * (x.words + 1) + x.req]
  }

  ghost predicate Fits(s: seq<Seg>, m: seq<Byte>) {
    forall i :: 0 <= i < |s| ==> WORD * (s[i].words + 1) + s[i].req <= |m|
  }

  /** The allocations a tiling represents, keyed by the address (in words) handed to the client. */
  ghost function Live(s: seq<Seg>, m: seq<Byte>): map<nat, Alloc>
    requires Fits(s, m)
  {
    if s == [] then map[]
    else Record(s[0], m) + Live(s[1..], m)
  }

  ghost function Record(x: Seg, m: seq<Byte>): map<nat, Alloc>
    requires WORD * (x.words + 1) + x.req <= |m|
  {
    if x.req == 0 then map[] else map[x.words + 1 := Alloc(x.req, x.tag, Payload(m, x))]
  }

  lemma MapAssoc<K, V>(a: map<K, V>, b: map<K, V>, c: map<K, V>)
    ensures a + (b + c) == a + b + c
  {
  }

  lemma MapMiddle<K, V>(a: map<K, V>, b: map<K, V>, c: map<K, V>, b': map<K, V>, p: K)
    requires p !in a && p !in c && b.Keys <= {p} && b'.Keys <= {p}
    ensures a + b' + c == (a + b + c - {p}) + b'
    ensures p in a + b + c <==> p in b
    ensures p in b ==> (a + b + c)[p] == b[p]
  {
  }

  lemma {:induction false} LiveAppend(s: seq<Seg>, t: seq<Seg>, m: seq<Byte>)
    requires Fits(s, m) && Fits(t, m)
    ensures Fits(s + t, m)
    ensures Live(s + t, m) == Live(s, m) + Live(t, m)
  {
    if s == [] {
      assert s + t == t;
    } else {
      assert (s + t)[1..] == s[1..] + t;
      assert (s + t)[0] == s[0];
      LiveAppend(s[1..], t, m);
      MapAssoc(Record(s[0], m), Live(s[1..], m), Live(t, m));
    }
  }

  // A live address belongs to exactly one used segment, and is recorded faithfully.
  lemma {:induction false} LiveAt(s: seq<Seg>, m: seq<Byte>, from: nat, to: nat, i: nat)
    requires Fits(s, m) && Ordered(s, from, to) && i < |s| && s[i].req > 0
    ensures s[i].words + 1 in Live(s, m)
    ensures Live(s, m)[s[i].words + 1] == Alloc(s[i].req, s[i].tag, Payload(m, s[i]))
  {
    if i > 0 {
      LiveAt(s[1..], m, from, to, i - 1);
    } else if s[0].words + 1 in Live(s[1..], m) {
      var k := LiveFind(s[1..], m, s[0].words + 1);
      assert false;
    }
  }

  lemma {:induction false} LiveFind(s: seq<Seg>, m: seq<Byte>, p: nat) returns (i: nat)
    requires Fits(s, m) && p in Live(s, m)
    ensures i < |s| && s[i].req > 0 && s[i].words + 1 == p
  {
    if p in Live(s[1..], m) {
      i := LiveFind(s[1..], m, p);
      i := i + 1;
    } else {
      i := 0;
    }
  }

  lemma {:induction false} LiveFrame(s: seq<Seg>, m: seq<Byte>, m': seq<Byte>)
    requires Fits(s, m) && |m'| == |m|
    requires forall i, b :: 0 <= i < |s| && InPayload(s[i], b) ==> m[b] == m'[b]
    ensures Fits(s, m') && Live(s, m') == Live(s, m)
  {
    if s != [] {
      assert forall i, b :: 0 <= i < |s[1..]| && InPayload(s[1..][i], b) ==> InPayload(s[i + 1], b);
      LiveFrame(s[1..], m, m');
      assert forall b :: InPayload(s[0], b) ==> m[b] == m'[b];
      assert Payload(m, s[0]) == Payload(m', s[0]);
    }
  }

  ghost function Splice(s: seq<Seg>, i: nat, j: nat, mid: seq<Seg>): seq<Seg>
    requires i <= j <= |s|
  {
    s[..i] + mid + s[j..]
  }

  lemma {:induction false} TiledOrdered(s: seq<Seg>, from: nat, to: nat)
    requires Tiled(s, from, to)
    ensures from <= to && Ordered(s, from, to)
  {
    if s != [] {
      TiledOrdered(s[1..], from + s[0].n, to);
      assert forall i :: 1 <= i < |s| ==> s[i] == s[1..][i - 1];
    }
  }

  lemma {:induction false} TiledJoin(s: seq<Seg>, t: seq<Seg>, from: nat, at: nat, to: nat)
    requires Tiled(s, from, at) && Tiled(t, at, to)
    ensures Tiled(s + t, from, to)
  {
    if s == [] {
      assert s + t == t;
    } else {
      TiledJoin(s[1..], t, from + s[0].n, at, to);
      assert (s + t)[1..] == s[1..] + t;
    }
  }

  // Where the k-th segment begins (the end of the block when k is past the last one).
  ghost function Start(s: seq<Seg>, to: nat, k: nat): nat
    requires k <= |s|
  {
    if k < |s| then s[k].words else to
  }

  lemma {:induction false} TiledCut(s: seq<Seg>, from: nat, to: nat, k: nat)
    requires Tiled(s, from, to) && k <= |s|
    ensures Tiled(s[..k], from, Start(s, to, k)) && Tiled(s[k..], Start(s, to, k), to)
  {
    if k > 0 {
      TiledCut(s[1..], from + s[0].n, to, k - 1);
      assert s[..k][1..] == s[1..][..k - 1];
      assert s[1..][k - 1..] == s[k..];
    }
  }

  // Replacing the segments [i, j) by others that tile the same words.
  lemma TiledSplice(s: seq<Seg>, n: nat, i: nat, j: nat, mid: seq<Seg>)
    requires Tiled(s, 0, n) && i <= j <= |s|
    requires Tiled(mid, Start(s, n, i), Start(s, n, j))
    ensures Tiled(Splice(s, i, j, mid), 0, n)
  {
    TiledCut(s, 0, n, i);
    TiledCut(s, 0, n, j);
    TiledJoin(s[..i], mid, 0, Start(s, n, i), Start(s, n, j));
    TiledJoin(s[..i] + mid, s[j..], 0, Start(s, n, j), n);
  }

  // What a step may touch: the segments [i, j) become mid, and only bytes of that stretch change.
  ghost predicate LocalStep(s: seq<Seg>, m: seq<Byte>, n: nat, i: nat, j: nat, mid: seq<Seg>, m': seq<Byte>) {
    && i <= j <= |s|
    && Tiled(mid, Start(s, n, i), Start(s, n, j))
    && |m'| == |m|
    && (forall b :: 0 <= b < |m| && !(WORD * Start(s, n, i) <= b < WORD * Start(s, n, j)) ==> m'[b] == m[b])
    && (forall k :: 0 <= k < |mid| ==> SegOk(mid[k]) && SegMem(m', mid[k]))
    && DistinctCells(Splice(s, i, j, mid))
  }

  lemma SegMemFrame(m: seq<Byte>, m': seq<Byte>, x: Seg)
    requires SegMem(m, x) && |m'| == |m|
    requires forall b :: WORD * x.words <= b < WORD * (x.words + x.n) ==> m'[b] == m[b]
    ensures SegMem(m', x)
  {
  }

  // Segments outside the changed stretch keep their bytes.
  lemma OutsideKept(s: seq<Seg>, m: seq<Byte>, n: nat, i: nat, j: nat, mid: seq<Seg>, m': seq<Byte>, k: nat)
    requires Layout(s, m, n) && LocalStep(s, m, n, i, j, mid, m')
    requires k < |s| && (k < i || k >= j)
    ensures SegOk(s[k]) && SegMem(m', s[k])
    ensures forall b :: InPayload(s[k], b) ==> m'[b] == m[b]
  {
    TiledOrdered(s, 0, n);
    assert k < i && i < |s| ==> s[k].words + s[k].n <= s[i].words;
    assert k > j ==> s[j].words + s[j].n <= s[k].words;
    SegMemFrame(m, m', s[k]);
  }

  lemma LayoutSpliceSegs(s: seq<Seg>, m: seq<Byte>, n: nat, i: nat, j: nat, mid: seq<Seg>, m': seq<Byte>)
    requires Layout(s, m, n) && LocalStep(s, m, n, i, j, mid, m')
    ensures Layout(Splice(s, i, j, mid), m', n)
  {
    hide SegMem, SegOk;
    var s' := Splice(s, i, j, mid);
    TiledSplice(s, n, i, j, mid);
    forall k | 0 <= k < |s'|
      ensures SegOk(s'[k]) && SegMem(m', s'[k])
    {
      if k < i {
        assert s'[k] == s[k];
        OutsideKept(s, m, n, i, j, mid, m', k);
      } else if k < i + |mid| {
        assert s'[k] == mid[k - i];
      } else {
        assert s'[k] == s[k - i - |mid| + j];
        OutsideKept(s, m, n, i, j, mid, m', k - i - |mid| + j);
      }
    }
  }

  lemma LayoutFits(s: seq<Seg>, m: seq<Byte>, n: nat)
    requires Layout(s, m, n)
    ensures Fits(s, m)
  {
  }

  // A local step keeps the whole layout, and leaves every other allocation as it was.
  lemma LayoutSplice(s: seq<Seg>, m: seq<Byte>, n: nat, i: nat, j: nat, mid: seq<Seg>, m': seq<Byte>)
    requires Layout(s, m, n) && LocalStep(s, m, n, i, j, mid, m')
    ensures Layout(Splice(s, i, j, mid), m', n)
    ensures Fits(s[..i], m) && Fits(mid, m') && Fits(s[j..], m)
    ensures Fits(Splice(s, i, j, mid), m')
    ensures Live(Splice(s, i, j, mid), m') == Live(s[..i], m) + Live(mid, m') + Live(s[j..], m)
  {
    LayoutSpliceSegs(s, m, n, i, j, mid, m');
    LayoutFits(s, m, n);
    LayoutFits(Splice(s, i, j, mid), m', n);
    forall k | 0 <= k < |s| && (k < i || k >= j)
      ensures forall b :: InPayload(s[k], b) ==> m'[b] == m[b]
    {
      OutsideKept(s, m, n, i, j, mid, m', k);
    }
    assert Fits(mid, m') by {
      forall k | 0 <= k < |mid| ensures WORD * (mid[k].words + 1) + mid[k].req <= |m'| {
        assert SegOk(mid[k]) && SegMem(m', mid[k]);
      }
    }
    LiveFrame(s[..i], m, m');
    LiveFrame(s[j..], m, m');
    LiveAppend(s[..i], mid, m');
    LiveAppend(s[..i] + mid, s[j..], m');
  }

  // An address that starts at word `at` of the block is not handed out by cells elsewhere.
  lemma NotElsewhere(s: seq<Seg>, m: seq<Byte>, n: nat, i: nat, j: nat)
    requires Tiled(s, 0, n) && Fits(s, m) && i < j <= |s|
    ensures Fits(s[..i], m) && s[i].words + 1 !in Live(s[..i], m)
    ensures Fits(s[j..], m) && s[i].words + 1 !in Live(s[j..], m)
  {
    TiledOrdered(s, 0, n);
    var p := s[i].words + 1;
    if p in Live(s[..i], m) {
      var k := LiveFind(s[..i], m, p);
      assert false;
    }
    if p in Live(s[j..], m) {
      var k := LiveFind(s[j..], m, p);
      assert false;
    }
  }

  lemma LiveThree(s: seq<Seg>, m: seq<Byte>, i: nat, j: nat)
    requires Fits(s, m) && i <= j <= |s|
    ensures Fits(s[..i], m) && Fits(s[i..j], m) && Fits(s[j..], m)
    ensures Live(s, m) == Live(s[..i], m) + Live(s[i..j], m) + Live(s[j..], m)
  {
    hide Live;
    var a, b, c := s[..i], s[i..j], s[j..];
    assert Fits(a, m) && Fits(b, m) && Fits(c, m);
    LiveAppend(a, b, m);
    LiveAppend(a + b, c, m);
    assert s == a + b + c;
  }

  // A local step over cells that hold at most the allocation at their front
  // changes that allocation and nothing else.
  lemma LiveUpdate(s: seq<Seg>, m: seq<Byte>, n: nat, i: nat, j: nat, mid: seq<Seg>, m': seq<Byte>)
    requires Layout(s, m, n) && i < j && LocalStep(s, m, n, i, j, mid, m')
    requires Fits(s[i..j], m) && Live(s[i..j], m).Keys <= {s[i].words + 1}
    requires Fits(mid, m') && Live(mid, m').Keys <= {s[i].words + 1}
    ensures Layout(Splice(s, i, j, mid), m', n)
    ensures Fits(s, m) && Fits(Splice(s, i, j, mid), m')
    ensures Live(Splice(s, i, j, mid), m') == (Live(s, m) - {s[i].words + 1}) + Live(mid, m')
    ensures s[i].words + 1 in Live(s, m) <==> s[i].words + 1 in Live(s[i..j], m)
    ensures s[i].words + 1 in Live(s, m) ==> Live(s, m)[s[i].words + 1] == Live(s[i..j], m)[s[i].words + 1]
  {
    LayoutFits(s, m, n);
    LayoutSplice(s, m, n, i, j, mid, m');
    NotElsewhere(s, m, n, i, j);
    LiveThree(s, m, i, j);
    MapMiddle(Live(s[..i], m), Live(s[i..j], m), Live(s[j..], m), Live(mid, m'), s[i].words + 1);
  }

  lemma LiveOne(x: Seg, m: seq<Byte>)
    requires WORD * (x.words + 1) + x.req <= |m|
    ensures Fits([x], m) && Live([x], m) == Record(x, m)
  {
    assert [x][1..] == [];
    assert Live([x], m) == Record(x, m) + map[];
  }

  lemma LiveTwo(x: Seg, y: Seg, m: seq<Byte>)
    requires WORD * (x.words + 1) + x.req <= |m| && WORD * (y.words + 1) + y.req <= |m|
    requires x.req == 0 || y.req == 0
    ensures Fits([x, y], m) && Live([x, y], m) == Record(x, m) + Record(y, m)
  {
    assert [x, y][1..] == [y];
    LiveOne(y, m);
  }

  // One cell is exchanged for a description of the same words.
  lemma LiveReplace(s: seq<Seg>, m: seq<Byte>, n: nat, i: nat, x: Seg, m': seq<Byte>)
    requires Layout(s, m, n) && i < |s| && |m'| == |m|
    requires x.cell == s[i].cell && x.words == s[i].words && x.n == s[i].n && SegOk(x) && SegMem(m', x)
    requires forall b :: 0 <= b < |m| && !(WORD * x.words <= b < WORD * (x.words + x.n)) ==> m'[b] == m[b]
    ensures Layout(s[i := x], m', n)
    ensures Fits(s, m) && Fits(s[i := x], m')
    ensures Live(s[i := x], m') == (Live(s, m) - {x.words + 1}) + Record(x, m')
    ensures x.words + 1 in Live(s, m) <==> s[i].req > 0
    ensures s[i].req > 0 ==> Live(s, m)[x.words + 1] == Alloc(s[i].req, s[i].tag, Payload(m, s[i]))
  {
    LayoutFits(s, m, n);
    assert s[i..i + 1] == [s[i]];
    LiveOne(s[i], m);
    LiveOne(x, m');
    assert s[i := x] == Splice(s, i, i + 1, [x]);
    NextStart(s, 0, n, i);
    assert Tiled([x][1..], Start(s, n, i + 1), Start(s, n, i + 1));
    LiveUpdate(s, m, n, i, i + 1, [x], m');
  }

  // The cell that follows number i begins where it ends.
  lemma {:induction false} NextStart(s: seq<Seg>, from: nat, to: nat, i: nat)
    requires Tiled(s, from, to) && i < |s|
    ensures Start(s, to, i + 1) == s[i].words + s[i].n
  {
    if i > 0 {
      NextStart(s[1..], from + s[0].n, to, i - 1);
    } else {
      assert Tiled(s[1..], from + s[0].n, to);
    }
  }

  // A free cell becomes a zeroed allocation.
  lemma OccupyStep(s: seq<Seg>, m: seq<Byte>, n: nat, i: nat, x: Seg, m': seq<Byte>)
    requires Layout(s, m, n) && i < |s| && s[i].req == 0 && |m'| == |m|
    requires x == s[i].(req := x.req, tag := x.tag) && x.req > 0 && SegOk(x)
    requires forall b :: 0 <= b < |m| ==> m'[b] == if InPayload(x, b) then ZERO else m[b]
    ensures Layout(s[i := x], m', n)
    ensures Fits(s, m) && Fits(s[i := x], m')
    ensures x.words + 1 !in Live(s, m)
    ensures Live(s[i := x], m') == Live(s, m)[x.words + 1 := Alloc(x.req, x.tag, Repeat(ZERO, x.req))]
  {
    hide SegMem, Live, Payload;
    SegMemOf(s, m, n, i);
    OccupiedMem(s[i], m, x, m');
    LiveReplace(s, m, n, i, x, m');
  }

  lemma SegMemOf(s: seq<Seg>, m: seq<Byte>, n: nat, i: nat)
    requires Layout(s, m, n) && i < |s|
    ensures SegMem(m, s[i]) && SegOk(s[i]) && WORD * (s[i].words + s[i].n) <= |m|
  {
  }

  lemma OccupiedMem(y: Seg, m: seq<Byte>, x: Seg, m': seq<Byte>)
    requires SegMem(m, y) && x == y.(req := x.req, tag := x.tag) && SegOk(x) && |m'| == |m|
    requires y.req == 0 && forall b :: 0 <= b < |m| ==> m'[b] == if InPayload(x, b) then ZERO else m[b]
    ensures SegMem(m', x) && WORD * (x.words + 1) + x.req <= |m'| && Payload(m', x) == Repeat(ZERO, x.req)
    ensures forall b :: 0 <= b < |m| && !(WORD * x.words <= b < WORD * (x.words + x.n)) ==> m'[b] == m[b]
  {
  }

  // Only pointers were written, and only into the words [from, to).
  ghost predicate PointersWritten(m: seq<Byte>, m': seq<Byte>, from: nat, to: nat) {
    && |m'| == |m|
    && forall b :: 0 <= b < |m| && m'[b] != m[b] ==> WORD * from <= b < WORD * to && m'[b].Ptr?
  }

  // What was part of a pointer is still part of one, except where bytes were cleared.
  ghost predicate PointersStay(m: seq<Byte>, m': seq<Byte>, from: int, to: int) {
    && |m'| == |m|
    && forall b :: 0 <= b < |m| && m[b].Ptr? && !(from <= b < to) ==> m'[b].Ptr?
  }

  lemma WrittenStay(m: seq<Byte>, m': seq<Byte>, from: nat, to: nat)
    requires PointersWritten(m, m', from, to)
    ensures PointersStay(m, m', 0, 0)
  {
    forall b | 0 <= b < |m| && m[b].Ptr? ensures m'[b].Ptr? {
    }
  }

  lemma ClearedStay(m: seq<Byte>, m': seq<Byte>, w: nat, from: nat, to: nat)
    requires Cleared(m, m', w, from, to)
    ensures PointersStay(m, m', WORD * w + from, WORD * w + to)
  {
  }

  lemma StayStay(m: seq<Byte>, m1: seq<Byte>, m2: seq<Byte>, from: int, to: int)
    requires
      || (PointersStay(m, m1, from, to) && PointersStay(m1, m2, 0, 0))
      || (PointersStay(m, m1, 0, 0) && PointersStay(m1, m2, from, to))
    ensures PointersStay(m, m2, from, to)
  {
  }

  lemma WrittenOutside(m: seq<Byte>, m': seq<Byte>, from: nat, to: nat)
    requires PointersWritten(m, m', from, to)
    ensures |m'| == |m| && forall b :: 0 <= b < |m| && !(WORD * from <= b < WORD * to) ==> m'[b] == m[b]
  {
  }

  // A free cell with fresh guards written inside it becomes two free cells.
  lemma CarveMem(m: seq<Byte>, m': seq<Byte>, z: Seg, x: Seg, y: Seg)
    requires SegMem(m, z) && z.req == 0 && x.req == 0 && y.req == 0
    requires x.words == z.words && x.n + y.n == z.n && y.words == z.words + x.n && x.n >= 3 && y.n >= 3
    requires PointersWritten(m, m', z.words, z.words + z.n)
    requires HoldsPtr(m', x.words, x.cell) && HoldsPtr(m', x.words + x.n - 1, x.cell)
    requires HoldsPtr(m', y.words, y.cell) && HoldsPtr(m', y.words + y.n - 1, y.cell)
    ensures SegMem(m', x) && SegMem(m', y)
  {
  }

  lemma TiledTwo(x: Seg, y: Seg)
    requires x.n > 0 && y.n > 0 && y.words == x.words + x.n
    ensures Tiled([x, y], x.words, y.words + y.n)
  {
    assert [x, y][1..] == [y] && [y][1..] == [];
  }

  lemma CarveLocal(s: seq<Seg>, m: seq<Byte>, n: nat, i: nat, k: nat, other: Cell, m': seq<Byte>)
    requires Layout(s, m, n) && i < |s| && s[i].req == 0 && 3 <= k && k + 3 <= s[i].n
    requires forall j :: 0 <= j < |s| ==> s[j].cell != other
    requires PointersWritten(m, m', s[i].words, s[i].words + s[i].n)
    requires HoldsPtr(m', s[i].words, other) && HoldsPtr(m', s[i].words + k - 1, other)
    requires HoldsPtr(m', s[i].words + k, s[i].cell) && HoldsPtr(m', s[i].words + s[i].n - 1, s[i].cell)
    ensures LocalStep(s, m, n, i, i + 1, CarvedMid(s, i, k, other), m')
  {
    hide SegMem, HoldsPtr, DistinctCells, PointersWritten;
    var mid := CarvedMid(s, i, k, other);
    NextStart(s, 0, n, i);
    TiledTwo(mid[0], mid[1]);
    SegMemOf(s, m, n, i);
    CarveMem(m, m', s[i], mid[0], mid[1]);
    WrittenOutside(m, m', s[i].words, s[i].words + s[i].n);
    CarvedDistinct(s, i, k, other);
  }

  // A free cell is cut in two.
  lemma CarveStep(s: seq<Seg>, m: seq<Byte>, n: nat, i: nat, k: nat, other: Cell, m': seq<Byte>)
    requires Layout(s, m, n) && i < |s| && s[i].req == 0 && k <= s[i].n
    requires LocalStep(s, m, n, i, i + 1, CarvedMid(s, i, k, other), m')
    ensures Layout(Carved(s, i, k, other), m', n)
    ensures Fits(s, m) && Fits(Carved(s, i, k, other), m')
    ensures Live(Carved(s, i, k, other), m') == Live(s, m)
  {
    LayoutFits(s, m, n);
    var mid := CarvedMid(s, i, k, other);
    assert s[i..i + 1] == [s[i]];
    LiveOne(s[i], m);
    assert SegMem(m', mid[0]) && SegMem(m', mid[1]);
    LiveTwo(mid[0], mid[1], m');
    LiveUpdate(s, m, n, i, i + 1, mid, m');
  }

  ghost function CarvedMid(s: seq<Seg>, i: nat, k: nat, other: Cell): seq<Seg>
    requires i < |s| && k <= s[i].n
  {
    [Seg(other, s[i].words, k, 0, None), Seg(s[i].cell, s[i].words + k, s[i].n - k, 0, None)]
  }

  ghost function Carved(s: seq<Seg>, i: nat, k: nat, other: Cell): seq<Seg>
    requires i < |s| && k <= s[i].n
  {
    Splice(s, i, i + 1, CarvedMid(s, i, k, other))
  }

  lemma CarvedDistinct(s: seq<Seg>, i: nat, k: nat, other: Cell)
    requires DistinctCells(s) && i < |s| && k <= s[i].n
    requires forall j :: 0 <= j < |s| ==> s[j].cell != other
    ensures DistinctCells(Carved(s, i, k, other))
  {
    var t := Carved(s, i, k, other);
    assert forall j :: i + 2 <= j < |t| ==> t[j] == s[j - 1];
  }

  // Two neighbours, the second one free, become one cell described by c.
  ghost function Merged(s: seq<Seg>, i: nat, c: Cell): seq<Seg>
    requires i + 1 < |s|
  {
    Splice(s, i, i + 2, [MergedSeg(s, i, c)])
  }

  ghost function MergedSeg(s: seq<Seg>, i: nat, c: Cell): Seg
    requires i + 1 < |s|
  {
    Seg(c, s[i].words, s[i].n + s[i + 1].n, s[i].req, s[i].tag)
  }

  // The free cell number i joins the one before it if that is free as well, and then
  // the one after it.
  ghost function FirstFree(s: seq<Seg>, i: nat): (k: nat)
    ensures k <= i
  {
    if 0 < i <= |s| && s[i - 1].req == 0 then i - 1 else i
  }

  ghost function JoinedBefore(s: seq<Seg>, i: nat): (t: seq<Seg>)
    requires i < |s|
    ensures FirstFree(s, i) < |t|
  {
    if FirstFree(s, i) < i then Merged(s, i - 1, s[i - 1].cell) else s
  }

  ghost function JoinedAfter(s: seq<Seg>, k: nat): seq<Seg>
    requires k < |s|
  {
    if k + 1 < |s| && s[k + 1].req == 0 then Merged(s, k, s[k + 1].cell) else s
  }

  /** The cells of a block after the used cell number i is freed. */
  ghost function Freed(s: seq<Seg>, i: nat): seq<Seg>
    requires i < |s|
  {
    var t := s[i := s[i].(req := 0, tag := None)];
    JoinedAfter(JoinedBefore(t, i), FirstFree(t, i))
  }

  ghost predicate InWord(b: int, w: nat) {
    WORD * w <= b < WORD * (w + 1)
  }

  // Only the words `first` and `last` were written.
  ghost predicate TwoWordsWritten(m: seq<Byte>, m': seq<Byte>, first: nat, last: nat) {
    && |m'| == |m|
    && (forall b :: 0 <= b < |m| && !InWord(b, first) && !InWord(b, last) ==> m'[b] == m[b])
  }

  lemma MergeMem(m: seq<Byte>, m': seq<Byte>, x: Seg, y: Seg, z: Seg)
    requires SegMem(m, x) && SegMem(m, y) && y.req == 0 && y.words == x.words + x.n && SegOk(x)
    requires z == x.(cell := z.cell, n := x.n + y.n)
    requires TwoWordsWritten(m, m', z.words, z.words + z.n - 1)
    requires HoldsPtr(m', z.words, z.cell) && HoldsPtr(m', z.words + z.n - 1, z.cell)
    ensures SegMem(m', z) && SegOk(z) && Record(z, m') == Record(x, m)
  {
    assert forall b :: InPayload(x, b) ==> m'[b] == m[b];
    assert Payload(m', z) == Payload(m, x);
  }

  lemma MergedDistinct(s: seq<Seg>, i: nat, c: Cell)
    requires DistinctCells(s) && i + 1 < |s| && (c == s[i].cell || c == s[i + 1].cell)
    ensures DistinctCells(Merged(s, i, c))
  {
    var t := Merged(s, i, c);
    assert forall j :: i + 1 <= j < |t| ==> t[j] == s[j + 1];
  }

  ghost predicate MergeWritten(s: seq<Seg>, m: seq<Byte>, i: nat, c: Cell, m': seq<Byte>)
    requires i + 1 < |s|
  {
    var z := MergedSeg(s, i, c);
    && z.n >= 1
    && TwoWordsWritten(m, m', z.words, z.words + z.n - 1)
    && HoldsPtr(m', z.words, c) && HoldsPtr(m', z.words + z.n - 1, c)
  }

  lemma MergeReady(s: seq<Seg>, m: seq<Byte>, n: nat, i: nat, c: Cell, m': seq<Byte>)
    requires Layout(s, m, n) && i + 1 < |s| && s[i + 1].req == 0 && (c == s[i].cell || c == s[i + 1].cell)
    requires MergeWritten(s, m, i, c, m')
    ensures LocalStep(s, m, n, i, i + 2, [MergedSeg(s, i, c)], m')
    ensures WORD * (s[i].words + 1) + s[i].req <= |m| && WORD * (s[i + 1].words + 1) <= |m| && |m'| == |m|
    ensures Record(MergedSeg(s, i, c), m') == Record(s[i], m)
  {
    hide Clean, HoldsPtr, TwoWordsWritten;
    var x, y, z := s[i], s[i + 1], MergedSeg(s, i, c);
    NextStart(s, 0, n, i);
    NextStart(s, 0, n, i + 1);
    assert SegOk(x) && SegMem(m, x) && SegMem(m, y);
    MergeMem(m, m', x, y, z);
    MergedDistinct(s, i, c);
    MergeLocal(s, m, n, i, z, m');
  }

  lemma MergeStep(s: seq<Seg>, m: seq<Byte>, n: nat, i: nat, c: Cell, m': seq<Byte>)
    requires Layout(s, m, n) && i + 1 < |s| && s[i + 1].req == 0 && (c == s[i].cell || c == s[i + 1].cell)
    requires MergeWritten(s, m, i, c, m')
    ensures Layout(Merged(s, i, c), m', n)
    ensures Fits(s, m) && Fits(Merged(s, i, c), m')
    ensures Live(Merged(s, i, c), m') == Live(s, m)
  {
    hide Layout, LocalStep, SegMem, MergeWritten, Live;
    var x, y, z := s[i], s[i + 1], MergedSeg(s, i, c);
    LayoutFits(s, m, n);
    MergeReady(s, m, n, i, c, m');
    assert s[i..i + 2] == [x, y];
    LiveTwo(x, y, m);
    LiveOne(z, m');
    assert Live(s[i..i + 2], m) == Record(x, m);
    LiveUpdate(s, m, n, i, i + 2, [z], m');
  }

  lemma MergeLocal(s: seq<Seg>, m: seq<Byte>, n: nat, i: nat, z: Seg, m': seq<Byte>)
    requires i + 1 < |s| && z.words == s[i].words && z.n == s[i].n + s[i + 1].n && |m| == WORD * n
    requires Start(s, n, i + 2) == z.words + z.n && z.n > 0 && Start(s, n, i) == z.words
    requires TwoWordsWritten(m, m', z.words, z.words + z.n - 1)
    requires SegOk(z) && SegMem(m', z) && DistinctCells(Splice(s, i, i + 2, [z]))
    ensures LocalStep(s, m, n, i, i + 2, [z], m')
  {
    assert [z][1..] == [];
    assert Tiled([z], z.words, z.words + z.n);
  }

  // A used cell gives its bytes back.
  lemma ReleaseStep(s: seq<Seg>, m: seq<Byte>, n: nat, i: nat, m': seq<Byte>)
    requires Layout(s, m, n) && i < |s| && s[i].req > 0 && |m'| == |m|
    requires forall b :: 0 <= b < |m| ==> m'[b] == if InPayload(s[i], b) then ZERO else m[b]
    ensures Layout(s[i := s[i].(req := 0, tag := None)], m', n)
    ensures Fits(s, m) && Fits(s[i := s[i].(req := 0, tag := None)], m')
    ensures Live(s[i := s[i].(req := 0, tag := None)], m') == Live(s, m) - {s[i].words + 1}
  {
    var x := s[i].(req := 0, tag := None);
    assert SegOk(s[i]) && SegMem(m, s[i]);
    assert SegMem(m', x);
    LiveReplace(s, m, n, i, x, m');
  }

  // A live address names one used cell, whose guard lies in the word before it.
  lemma LookUp(s: seq<Seg>, m: seq<Byte>, n: nat, p: nat) returns (i: nat)
    requires Layout(s, m, n) && Fits(s, m) && p in Live(s, m)
    ensures i < |s| && s[i].req > 0 && s[i].words + 1 == p
    ensures p + s[i].n - 1 <= n && SegOk(s[i]) && SegMem(m, s[i])
    ensures WORD * p <= |m| && m[WORD * (p - 1)] == Ptr(s[i].cell, 0)
    ensures Live(s, m)[p] == Alloc(s[i].req, s[i].tag, Payload(m, s[i]))
  {
    i := LiveFind(s, m, p);
    TiledOrdered(s, 0, n);
    LiveAt(s, m, 0, n, i);
    assert SegOk(s[i]) && SegMem(m, s[i]);
  }

  lemma Neighbours(s: seq<Seg>, n: nat, i: nat)
    requires Tiled(s, 0, n) && i < |s|
    ensures s[i].words == 0 <==> i == 0
    ensures i > 0 ==> s[i - 1].words + s[i - 1].n == s[i].words
    ensures s[i].words + s[i].n <= n
    ensures s[i].words + s[i].n == n <==> i + 1 == |s|
    ensures i + 1 < |s| ==> s[i + 1].words == s[i].words + s[i].n
  {
    TiledOrdered(s, 0, n);
    NextStart(s, 0, n, i);
    if i > 0 {
      NextStart(s, 0, n, i - 1);
    }
  }

  // Bytes of a payload are overwritten, from `from` to `to` (counted from its start).
  ghost predicate PayloadWritten(m: seq<Byte>, m': seq<Byte>, x: Seg, from: nat, to: nat) {
    && |m'| == |m|
    && forall b :: 0 <= b < |m| && !(WORD * (x.words + 1) + from <= b < WORD * (x.words + 1) + to) ==> m'[b] == m[b]
  }

  // A used cell changes its size or its bytes, within its words.
  lemma ResizeStep(s: seq<Seg>, m: seq<Byte>, n: nat, i: nat, x: Seg, from: nat, to: nat, m': seq<Byte>)
    requires Layout(s, m, n) && i < |s| && s[i].req > 0
    requires x == s[i].(req := x.req, tag := x.tag) && x.req > 0 && SegOk(x)
    requires from <= to <= (x.n - 2) * WORD && PayloadWritten(m, m', x, from, to)
    requires forall b :: WORD * (x.words + 1) + x.req <= b < WORD * (x.words + 1) + s[i].req ==>
               0 <= b < |m'| && Quiet(m'[b])
    requires to <= x.req || forall b :: WORD * (x.words + 1) + from <= b < WORD * (x.words + 1) + to ==> 0 <= b < |m'| && Quiet(m'[b])
    ensures Layout(s[i := x], m', n)
    ensures Fits(s, m) && Fits(s[i := x], m')
    ensures Live(s[i := x], m') == Live(s, m)[x.words + 1 := Alloc(x.req, x.tag, Payload(m', x))]
    ensures x.words + 1 in Live(s, m)
    ensures Live(s, m)[x.words + 1] == Alloc(s[i].req, s[i].tag, Payload(m, s[i]))
  {
    hide Live;
    assert SegOk(s[i]) && SegMem(m, s[i]);
    assert SegMem(m', x);
    LiveReplace(s, m, n, i, x, m');
  }

  // The used cell number i takes k words from its free neighbour.
  ghost function Stolen(s: seq<Seg>, i: nat, k: nat): seq<Seg>
    requires i + 1 < |s| && k <= s[i + 1].n
  {
    Splice(s, i, i + 2, StolenMid(s, i, k))
  }

  ghost function StolenMid(s: seq<Seg>, i: nat, k: nat): seq<Seg>
    requires i + 1 < |s| && k <= s[i + 1].n
  {
    [s[i].(n := s[i].n + k), s[i + 1].(words := s[i + 1].words + k, n := s[i + 1].n - k)]
  }

  ghost predicate StealWritten(s: seq<Seg>, m: seq<Byte>, i: nat, k: nat, m': seq<Byte>)
    requires i + 1 < |s| && k <= s[i + 1].n
  {
    var x, y := StolenMid(s, i, k)[0], StolenMid(s, i, k)[1];
    && x.n >= 1 && y.n >= 1
    && HoldsPtr(m', x.words, x.cell) && HoldsPtr(m', x.words + x.n - 1, x.cell)
    && HoldsPtr(m', y.words, y.cell) && HoldsPtr(m', y.words + y.n - 1, y.cell)
    && |m'| == |m|
    && forall b :: 0 <= b < |m| && m'[b] != m[b] ==>
                     InWord(b, x.words) || InWord(b, x.words + x.n - 1) || InWord(b, y.words) || InWord(b, y.words + y.n - 1)
  }

  lemma StealMem(s: seq<Seg>, m: seq<Byte>, i: nat, k: nat, m': seq<Byte>)
    requires i + 1 < |s| && s[i + 1].req == 0 && k + 3 <= s[i + 1].n && SegOk(s[i]) && SegOk(s[i + 1])
    requires SegMem(m, s[i]) && SegMem(m, s[i + 1]) && s[i + 1].words == s[i].words + s[i].n
    requires StealWritten(s, m, i, k, m')
    ensures |m'| == |m|
    ensures var x, y := StolenMid(s, i, k)[0], StolenMid(s, i, k)[1];
            SegOk(x) && SegOk(y) && SegMem(m', x) && SegMem(m', y) && Record(x, m') == Record(s[i], m)
    ensures forall b :: 0 <= b < |m| && !(WORD * s[i].words <= b < WORD * (s[i + 1].words + s[i + 1].n)) ==> m'[b] == m[b]
  {
    hide HoldsPtr, SegMem, Clean;
    var x, y := StolenMid(s, i, k)[0], StolenMid(s, i, k)[1];
    ExtentOf(m, s[i]);
    ExtentOf(m, s[i + 1]);
    assert forall b :: 0 <= b < |m| && m'[b] != m[b] ==>
                         InWord(b, x.words) || InWord(b, x.words + x.n - 1) || InWord(b, y.words) || InWord(b, y.words + y.n - 1);
    StealFront(m, m', s[i], s[i + 1], x);
    StealBack(m, m', s[i + 1], y);
  }

  lemma ExtentOf(m: seq<Byte>, x: Seg)
    requires SegMem(m, x)
    ensures x.n >= 3 && WORD * (x.words + x.n) <= |m|
  {
  }

  // The used cell with the words it took.
  lemma StealFront(m: seq<Byte>, m': seq<Byte>, was: Seg, next: Seg, x: Seg)
    requires SegMem(m, was) && SegMem(m, next) && next.words == was.words + was.n && next.req == 0 && SegOk(was) && |m'| == |m|
    requires x == was.(n := x.n) && was.n <= x.n && x.n + 3 <= was.n + next.n
    requires HoldsPtr(m', x.words, x.cell) && HoldsPtr(m', x.words + x.n - 1, x.cell)
    requires forall b :: WORD * x.words <= b < WORD * (x.words + x.n) && m'[b] != m[b] ==>
               InWord(b, x.words) || InWord(b, x.words + x.n - 1)
    ensures SegOk(x) && SegMem(m', x) && Record(x, m') == Record(was, m)
  {
    assert forall b :: InPayload(x, b) ==> m'[b] == m[b];
    assert Payload(m', x) == Payload(m, was);
  }

  // What is left of the free one.
  lemma StealBack(m: seq<Byte>, m': seq<Byte>, was: Seg, y: Seg)
    requires SegMem(m, was) && was.req == 0 && SegOk(was) && |m'| == |m|
    requires y == was.(words := y.words, n := y.n) && y.words >= was.words && y.words + y.n == was.words + was.n && y.n >= 3
    requires HoldsPtr(m', y.words, y.cell) && HoldsPtr(m', y.words + y.n - 1, y.cell)
    requires forall b :: WORD * y.words <= b < WORD * (y.words + y.n) && m'[b] != m[b] ==>
               InWord(b, y.words) || InWord(b, y.words + y.n - 1)
    ensures SegOk(y) && SegMem(m', y)
  {
  }

  lemma StealReady(s: seq<Seg>, m: seq<Byte>, n: nat, i: nat, k: nat, m': seq<Byte>)
    requires Layout(s, m, n) && i + 1 < |s| && s[i + 1].req == 0 && k + 3 <= s[i + 1].n
    requires StealWritten(s, m, i, k, m')
    ensures LocalStep(s, m, n, i, i + 2, StolenMid(s, i, k), m')
    ensures WORD * (s[i].words + 1) + s[i].req <= |m| && WORD * (s[i + 1].words + 1) <= |m| && |m'| == |m|
    ensures WORD * (s[i].words + 1) + s[i].req <= |m'| && WORD * (StolenMid(s, i, k)[1].words + 1) <= |m'|
    ensures Record(StolenMid(s, i, k)[0], m') == Record(s[i], m)
  {
    hide Clean, HoldsPtr, StealWritten;
    NextStart(s, 0, n, i);
    NextStart(s, 0, n, i + 1);
    assert SegOk(s[i]) && SegMem(m, s[i]) && SegOk(s[i + 1]) && SegMem(m, s[i + 1]);
    StealMem(s, m, i, k, m');
    TiledTwo(StolenMid(s, i, k)[0], StolenMid(s, i, k)[1]);
    StolenDistinct(s, i, k);
  }

  lemma StolenDistinct(s: seq<Seg>, i: nat, k: nat)
    requires DistinctCells(s) && i + 1 < |s| && k <= s[i + 1].n
    ensures DistinctCells(Stolen(s, i, k)) && |Stolen(s, i, k)| == |s|
    ensures Stolen(s, i, k)[i] == StolenMid(s, i, k)[0] && Stolen(s, i, k)[i + 1] == StolenMid(s, i, k)[1]
    ensures forall j :: 0 <= j < |s| && j != i && j != i + 1 ==> Stolen(s, i, k)[j] == s[j]
  {
  }

  lemma StealStep(s: seq<Seg>, m: seq<Byte>, n: nat, i: nat, k: nat, m': seq<Byte>)
    requires Layout(s, m, n) && i + 1 < |s| && s[i + 1].req == 0 && k + 3 <= s[i + 1].n
    requires StealWritten(s, m, i, k, m')
    ensures Layout(Stolen(s, i, k), m', n)
    ensures Fits(s, m) && Fits(Stolen(s, i, k), m')
    ensures Live(Stolen(s, i, k), m') == Live(s, m)
  {
    hide Layout, LocalStep, SegMem, StealWritten, Live;
    var x, y := s[i], s[i + 1];
    var mid := StolenMid(s, i, k);
    LayoutFits(s, m, n);
    StealReady(s, m, n, i, k, m');
    assert s[i..i + 2] == [x, y];
    LiveTwo(x, y, m);
    LiveTwo(mid[0], mid[1], m');
    assert Live(s[i..i + 2], m) == Record(x, m);
    assert Live(mid, m') == Record(x, m);
    LiveUpdate(s, m, n, i, i + 2, mid, m');
  }

  /** Allocation b is a after a resize: the common prefix is kept, and what was
      gained holds no client data (and is all zero when `zeroed`). */
  ghost predicate Resized(a: Alloc, b: Alloc, length: nat, tag: Option<string>, zeroed: bool) {
    && b.requested == length && b.tag == tag && |b.bytes| == length && |a.bytes| == a.requested
    && (forall k :: 0 <= k < length && k < a.requested ==> b.bytes[k] == a.bytes[k])
    && (forall k :: a.requested <= k < length ==> Quiet(b.bytes[k]) && (zeroed ==> b.bytes[k] == ZERO))
  }

  lemma ResizedPayload(m: seq<Byte>, m': seq<Byte>, x: Seg, y: Seg, from: nat, to: nat)
    requires SegMem(m, x) && SegOk(x) && SegOk(y) && y == x.(req := y.req, tag := y.tag)
    requires Cleared(m, m', x.words + 1, from, to) && ResizeRange(x.req, y.req, from, to)
    ensures WORD * (x.words + 1) + x.req <= |m| && WORD * (y.words + 1) + y.req <= |m'|
    ensures Resized(Alloc(x.req, x.tag, Payload(m, x)), Alloc(y.req, y.tag, Payload(m', y)), y.req, y.tag, from < to)
    ensures PayloadWritten(m, m', y, from, to) && from <= to <= (y.n - 2) * WORD
    ensures forall b :: WORD * (y.words + 1) + y.req <= b < WORD * (y.words + 1) + x.req ==> 0 <= b < |m'| && Quiet(m'[b])
    ensures to <= y.req || forall b :: WORD * (y.words + 1) + from <= b < WORD * (y.words + 1) + to ==> 0 <= b < |m'| && Quiet(m'[b])
  {
  }

  ghost predicate Cleared(m: seq<Byte>, m': seq<Byte>, w: nat, from: nat, to: nat) {
    && |m'| == |m|
    && forall b :: 0 <= b < |m| ==> m'[b] == if WORD * w + from <= b < WORD * w + to then ZERO else m[b]
  }

  lemma ClearedKeeps(m: seq<Byte>, m': seq<Byte>, x: Seg, from: nat, to: nat)
    requires Cleared(m, m', x.words + 1, from, to) && WORD * (x.words + 1) + x.req <= |m|
    ensures |m'| == |m| && (from >= x.req || from == to ==> Payload(m', x) == Payload(m, x))
  {
  }

  // The bytes a resize clears: those given up, or those gained, or none.
  ghost predicate ResizeRange(oldReq: nat, newReq: nat, from: nat, to: nat) {
    || (from == newReq && to == oldReq && from <= to)
    || (from == oldReq && to == newReq && from <= to)
    || (from == to == 0 && oldReq <= newReq)
  }

  // A used cell gets another size, and the bytes given up or gained are cleared.
  lemma ResizeAll(s: seq<Seg>, m: seq<Byte>, n: nat, i: nat, x: Seg, from: nat, to: nat, m': seq<Byte>) returns (was: Alloc, now: Alloc)
    requires Layout(s, m, n) && i < |s| && s[i].req > 0 && x == s[i].(req := x.req, tag := x.tag) && x.req > 0 && SegOk(x)
    requires Cleared(m, m', x.words + 1, from, to) && ResizeRange(s[i].req, x.req, from, to)
    ensures Layout(s[i := x], m', n) && Fits(s, m) && Fits(s[i := x], m')
    ensures x.words + 1 in Live(s, m) && was == Live(s, m)[x.words + 1]
    ensures Live(s[i := x], m') == Live(s, m)[x.words + 1 := now]
    ensures Resized(was, now, x.req, x.tag, from < to) && now.tag == x.tag && now.requested == x.req
    ensures WORD * (x.words + 1) + x.req <= |m|
    ensures from >= x.req || from == to ==> now.bytes == m[WORD * (x.words + 1)..WORD * (x.words + 1) + x.req]
  {
    hide Layout, Live, SegMem, Cleared, PayloadWritten, Resized, Payload;
    SegMemOf(s, m, n, i);
    ResizedPayload(m, m', s[i], x, from, to);
    ResizeStep(s, m, n, i, x, from, to, m');
    was := Alloc(s[i].req, s[i].tag, Payload(m, s[i]));
    now := Alloc(x.req, x.tag, Payload(m', x));
    ClearedKeeps(m, m', x, from, to);
    PayloadIs(m, x);
  }

  lemma PayloadIs(m: seq<Byte>, x: Seg)
    requires WORD * (x.words + 1) + x.req <= |m|
    ensures Payload(m, x) == m[WORD * (x.words + 1)..WORD * (x.words + 1) + x.req]
  {
  }

  // What a resize within a cell gains is zero exactly when no old guard lies there.
  lemma SlackZeroIff(a: Alloc, b: Alloc, m: seq<Byte>, p: nat)
    requires Resized(a, b, b.requested, a.tag, false) && a.requested <= b.requested
    requires WORD * p + b.requested <= |m| && b.bytes == m[WORD * p..WORD * p + b.requested]
    ensures Resized(a, b, b.requested, a.tag, true) <==> NoPointer(m, WORD * p + a.requested, WORD * p + b.requested)
  {
    assert forall k :: 0 <= k < b.requested ==> b.bytes[k] == m[WORD * p + k];
    assert forall at :: WORD * p <= at < WORD * p + b.requested ==> m[at] == b.bytes[at - WORD * p];
  }

  ghost predicate NoPointer(m: seq<Byte>, from: nat, to: nat)
    requires from <= to <= |m|
  {
    forall at :: from <= at < to ==> !m[at].Ptr?
  }

  lemma WeakenResized(a: Alloc, b: Alloc, length: nat, tag: Option<string>, zeroed: bool)
    requires Resized(a, b, length, tag, zeroed)
    ensures Resized(a, b, length, b.tag, false)
  {
  }

  // Fresh zeroed memory with the old bytes copied to its front.
  lemma MovedResized(a: Alloc, length: nat, tag: Option<string>)
    requires a.requested == |a.bytes| <= length
    ensures Resized(a, Overwritten(Alloc(length, tag, Repeat(ZERO, length)), 0, a.bytes), length, tag, true)
  {
  }

  function Overwritten(a: Alloc, offset: nat, data: seq<Byte>): Alloc
    requires offset + |data| <= |a.bytes|
  {
    a.(bytes := a.bytes[..offset] + data + a.bytes[offset + |data|..])
  }

  lemma PayloadOverwritten(m: seq<Byte>, m': seq<Byte>, x: Seg, offset: nat, data: seq<Byte>)
    requires WORD * (x.words + 1) + x.req <= |m| && |m'| == |m| && offset + |data| <= x.req
    requires forall b :: 0 <= b < |m| ==>
               m'[b] == var at := b - WORD * (x.words + 1) - offset; if 0 <= at < |data| then data[at] else m[b]
    ensures |Payload(m, x)| == x.req
    ensures Alloc(x.req, x.tag, Payload(m', x)) == Overwritten(Alloc(x.req, x.tag, Payload(m, x)), offset, data)
  {
    var was, now := Payload(m, x), Payload(m', x);
    var over := was[..offset] + data + was[offset + |data|..];
    assert |over| == x.req;
    forall k | 0 <= k < x.req ensures now[k] == over[k] {
      var b := WORD * (x.words + 1) + k;
      assert now[k] == m'[b] && was[k] == m[b];
    }
    assert now == over;
  }

  // The cell that covers a word.
  lemma {:induction false} CoveredBy(s: seq<Seg>, from: nat, to: nat, w: nat) returns (i: nat)
    requires Tiled(s, from, to) && from <= w < to
    ensures i < |s| && s[i].words <= w < s[i].words + s[i].n
  {
    if w < from + s[0].n {
      i := 0;
    } else {
      i := CoveredBy(s[1..], from + s[0].n, to, w);
      i := i + 1;
    }
  }

  // b is a byte some client may use.
  ghost predicate Owned(live: map<nat, Alloc>, b: int) {
    exists p :: p in live && WORD * p <= b < WORD * p + live[p].requested
  }

  // Whatever clients wrote, only they still hold it: every other byte is zero or part of a guard.
  lemma NothingSurvives(s: seq<Seg>, m: seq<Byte>, n: nat, b: nat)
    requires Layout(s, m, n) && Fits(s, m) && b < |m| && !Owned(Live(s, m), b)
    ensures Quiet(m[b])
  {
    var i := CoveredBy(s, 0, n, b / WORD);
    assert SegMem(m, s[i]);
    if InPayload(s[i], b) {
      PayloadOwned(s, m, n, i, b);
    }
  }

  lemma PayloadOwned(s: seq<Seg>, m: seq<Byte>, n: nat, i: nat, b: nat)
    requires Layout(s, m, n) && Fits(s, m) && i < |s| && InPayload(s[i], b)
    ensures Owned(Live(s, m), b)
  {
    TiledOrdered(s, 0, n);
    LiveAt(s, m, 0, n, i);
  }

  // Two allocations share no byte, and each lies inside the block.
  lemma PayloadsApart(s: seq<Seg>, m: seq<Byte>, n: nat, p: nat, q: nat)
    requires Layout(s, m, n) && Fits(s, m) && p in Live(s, m) && q in Live(s, m) && p < q
    ensures WORD * p + Live(s, m)[p].requested <= WORD * q
    ensures WORD * q + Live(s, m)[q].requested <= |m|
    ensures Live(s, m)[p].requested > 0 && |Live(s, m)[p].bytes| == Live(s, m)[p].requested
    ensures Live(s, m)[p].bytes == m[WORD * p..WORD * p + Live(s, m)[p].requested]
  {
    var i := LookUp(s, m, n, p);
    var j := LookUp(s, m, n, q);
    TiledOrdered(s, 0, n);
    assert i < j;
  }

  lemma PairAt(s: seq<Seg>, i: nat)
    requires NoFreePair(s) && i + 1 < |s|
    ensures s[i].req > 0 || s[i + 1].req > 0
  {
  }

  // When nothing is used, coalescing has left a single free cell.
  lemma OneFreeCell(s: seq<Seg>, m: seq<Byte>, n: nat)
    requires Layout(s, m, n) && NoFreePair(s) && n > 0
    requires forall i :: 0 <= i < |s| ==> s[i].req == 0
    ensures |s| == 1 && s[0].words == 0 && s[0].n == n
  {
    if |s| > 1 {
      PairAt(s, 0);
    }
    NextStart(s, 0, n, 0);
  }

  lemma OneCellLayout(m: seq<Byte>, n: nat, c: Cell)
    requires n >= 3 && |m| == WORD * n && HoldsPtr(m, 0, c) && HoldsPtr(m, n - 1, c)
    requires forall b :: 0 <= b < |m| ==> Quiet(m[b])
    ensures Layout([Seg(c, 0, n, 0, None)], m, n) && NoFreePair([Seg(c, 0, n, 0, None)])
    ensures Fits([Seg(c, 0, n, 0, None)], m) && Live([Seg(c, 0, n, 0, None)], m) == map[]
  {
    var x := Seg(c, 0, n, 0, None);
    assert [x][1..] == [];
    assert SegMem(m, x);
    LiveOne(x, m);
  }
}
