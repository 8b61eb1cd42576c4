// A client that allocates, writes, reads, resizes and frees at will: what it reads
// is always what it wrote.
module SecureMemoryClient {
  import opened Wrappers
  import opened SecureMemoryModel
  import opened SecureMemory
  import opened SecureMemoryBlocks

  /** One request; i names one of the pointers the client holds at the time, the rest of
      it says what the system gives. */
  datatype Op =
    | AllocOp(tag: Option<string>, length: nat, pool: nat -> bool, pages: Option<PageSize>)
    | FreeOp(i: nat)
    | ReallocOp(i: nat, tag: Option<string>, length: nat, poolOk: bool, again: nat -> bool, pages: Option<PageSize>)
    | WriteOp(i: nat, offset: nat, data: seq<byte>)
    | ReadOp(i: nat)

  /** What a request gives the client. */
  datatype Outcome = Nothing | At(p: Address) | Bytes(data: seq<Byte>)

  /** A pointer the client holds, and the bytes it knows to be there. */
  datatype Held = Held(p: Address, size: nat, known: seq<Byte>)

  // Nothing else is live, no pointer is held twice, and known bytes are intact.
  ghost predicate Remembers(held: seq<Held>, h: Heap) {
    && (forall i, j :: 0 <= i < j < |held| ==> held[i].p != held[j].p)
    && (forall i :: 0 <= i < |held| ==> Intact(held[i], h))
    && (forall b, w :: b in h && w in h[b] ==> Holds(held, Address(b, w)))
  }

  ghost predicate Holds(held: seq<Held>, p: Address) {
    exists i :: 0 <= i < |held| && held[i].p == p
  }

  ghost predicate Intact(x: Held, h: Heap) {
    IsLive(h, x.p) && Fits(x, In(h, x.p.block)[x.p.word])
  }

  ghost predicate Fits(x: Held, a: Alloc) {
    x.size == a.requested == |a.bytes| && x.known <= a.bytes
  }

  function AsBytes(data: seq<byte>): seq<Byte> {
    seq(|data|, i requires 0 <= i < |data| => Plain(data[i]))
  }

  function Without(held: seq<Held>, i: nat): seq<Held>
    requires i < |held|
  {
    held[..i] + held[i + 1..]
  }

  lemma RememberKept(held: seq<Held>, h: Heap, h': Heap)
    requires Remembers(held, h) && Kept(h, h')
    ensures Remembers(held, h')
  {
    hide Fits;
    forall i | 0 <= i < |held| ensures Intact(held[i], h') {
      assert Intact(held[i], h);
    }
  }

  lemma RememberGave(held: seq<Held>, h: Heap, h': Heap, x: Held, a: Alloc)
    requires Remembers(held, h) && Gave(h, h', x.p, a) && Fits(x, a)
    ensures Remembers(held + [x], h')
  {
    hide Fits;
    var held' := held + [x];
    forall i | 0 <= i < |held| ensures Intact(held[i], h') && held[i].p != x.p {
      assert Intact(held[i], h);
    }
    assert Intact(x, h');
    forall b, w | b in h' && w in h'[b] ensures Holds(held', Address(b, w)) {
      if Address(b, w) == x.p {
        assert held'[|held|].p == x.p;
      } else {
        assert w in In(h, b);
        HoldsMore(held, x, Address(b, w));
      }
    }
  }

  lemma HoldsMore(held: seq<Held>, x: Held, p: Address)
    requires Holds(held, p)
    ensures Holds(held + [x], p)
  {
    var i :| 0 <= i < |held| && held[i].p == p;
    assert (held + [x])[i].p == p;
  }

  lemma HoldsBut(held: seq<Held>, i: nat, p: Address)
    requires i < |held| && Holds(held, p) && p != held[i].p
    ensures Holds(Without(held, i), p)
  {
    var j :| 0 <= j < |held| && held[j].p == p;
    assert Without(held, i)[if j < i then j else j - 1].p == p;
  }

  // What is left when one pointer is given up, over the heap without its allocation.
  lemma RememberBut(held: seq<Held>, h: Heap, i: nat)
    requires Remembers(held, h) && i < |held|
    ensures forall j, k :: 0 <= j < k < |held| - 1 ==> Without(held, i)[j].p != Without(held, i)[k].p
    ensures forall j :: 0 <= j < |held| - 1 ==>
              var x := Without(held, i)[j]; x.p != held[i].p && Intact(x, h) && x.p.word in InBut(h, x.p.block, held[i].p)
  {
    hide Fits;
    var held' := Without(held, i);
    forall j | 0 <= j < |held'| ensures held'[j] == held[if j < i then j else j + 1] {
    }
  }

  lemma RememberTook(held: seq<Held>, h: Heap, h': Heap, i: nat)
    requires Remembers(held, h) && i < |held| && Took(h, h', held[i].p)
    ensures Remembers(Without(held, i), h')
  {
    hide Fits;
    var held', p := Without(held, i), held[i].p;
    RememberBut(held, h, i);
    forall j | 0 <= j < |held'| ensures Intact(held'[j], h') {
      var x := held'[j];
      assert x.p.word in InBut(h, x.p.block, p);
    }
    forall b, w | b in h' && w in h'[b] ensures Holds(held', Address(b, w)) {
      assert w in InBut(h, b, p);
      HoldsBut(held, i, Address(b, w));
    }
  }

  lemma WithoutSize(held: seq<Held>, i: nat)
    requires i < |held|
    ensures |Without(held, i)| == |held| - 1
  {
  }

  lemma RememberBecame(held: seq<Held>, h: Heap, h': Heap, i: nat, x: Held, now: Alloc)
    requires Remembers(held, h) && i < |held| && Became(h, h', held[i].p, x.p, x.size, now) && Fits(x, now)
    ensures Remembers(Without(held, i) + [x], h')
  {
    hide Fits, Without, Became, Intact, Holds;
    BecameKeeps(held, h, h', i, x, now);
    BecameHolds(held, h, h', i, x, now);
  }

  // The other pointers are as they were, and the new one is different.
  lemma BecameKeeps(held: seq<Held>, h: Heap, h': Heap, i: nat, x: Held, now: Alloc)
    requires Remembers(held, h) && i < |held| && Became(h, h', held[i].p, x.p, x.size, now) && Fits(x, now)
    ensures Intact(x, h')
    ensures forall j, k :: 0 <= j < k < |Without(held, i)| ==> Without(held, i)[j].p != Without(held, i)[k].p
    ensures forall j :: 0 <= j < |Without(held, i)| ==> Intact(Without(held, i)[j], h') && Without(held, i)[j].p != x.p
  {
    hide Fits, Resized, Without;
    var held1, p := Without(held, i), held[i].p;
    RememberBut(held, h, i);
    WithoutSize(held, i);
    forall j | 0 <= j < |held1| ensures Intact(held1[j], h') && held1[j].p != x.p {
      var y := held1[j];
      assert y.p.word in InBut(h, y.p.block, p);
    }
  }

  // All that is live is held.
  lemma BecameHolds(held: seq<Held>, h: Heap, h': Heap, i: nat, x: Held, now: Alloc)
    requires Remembers(held, h) && i < |held| && Became(h, h', held[i].p, x.p, x.size, now)
    ensures forall b, w :: b in h' && w in h'[b] ==> Holds(Without(held, i) + [x], Address(b, w))
  {
    hide Resized, Without, Intact;
    var held1, p := Without(held, i), held[i].p;
    var held' := held1 + [x];
    forall b, w | b in h' && w in h'[b] ensures Holds(held', Address(b, w)) {
      if Address(b, w) == x.p {
        assert held'[|held1|].p == x.p;
      } else {
        assert w in InBut(h, b, p);
        HoldsBut(held, i, Address(b, w));
        HoldsMore(held1, x, Address(b, w));
      }
    }
  }

  // One allocation changes in place.
  lemma RememberWrite(held: seq<Held>, h: Heap, i: nat, x: Held, now: Alloc)
    requires Remembers(held, h) && i < |held| && x.p == held[i].p && Fits(x, now)
    ensures x.p.block in h && Remembers(held[i := x], h[x.p.block := With(h[x.p.block], x.p.word, now)])
  {
    hide Fits;
    assert Intact(held[i], h);
    var held', h' := held[i := x], h[x.p.block := With(h[x.p.block], x.p.word, now)];
    forall j | 0 <= j < |held'| ensures Intact(held'[j], h') {
      assert Intact(held[j], h);
    }
    forall b, w | b in h' && w in h'[b] ensures Holds(held', Address(b, w)) {
      assert w in h[b];
      var j :| 0 <= j < |held| && held[j].p == Address(b, w);
      assert held'[j].p == Address(b, w);
    }
  }

  // Bytes beyond the known ones stay unknown unless the write reaches them.
  function KnownAfterWrite(known: seq<Byte>, offset: nat, data: seq<Byte>): seq<Byte> {
    if offset <= |known| then
      known[..offset] + data + (if offset + |data| <= |known| then known[offset + |data|..] else [])
    else known
  }

  // What is gained is zero when the allocation moved; in place it may be anything.
  function KnownAfterResize(x: Held, p: Address, length: nat): seq<Byte> {
    if length <= |x.known| then x.known[..length]
    else if p != x.p && |x.known| == x.size then x.known + Repeat(ZERO, length - x.size)
    else x.known
  }

  /** What the client holds and knows after a request, from what it was given. Requests that
      name no pointer it holds, or write outside the range it asked for, are not made. */
  function Served(op: Op, out: Outcome, held: seq<Held>): seq<Held> {
    match op
    case AllocOp(_, length, _, _) =>
      if out.At? then held + [Held(out.p, length, Repeat(ZERO, length))] else held
    case FreeOp(i) =>
      if i < |held| then Without(held, i) else held
    case WriteOp(i, offset, data) =>
      if i < |held| && offset + |data| <= held[i].size
      then held[i := held[i].(known := KnownAfterWrite(held[i].known, offset, AsBytes(data)))]
      else held
    case ReadOp(_) => held
    case ReallocOp(i, _, length, _, _, _) =>
      if i >= |held| then held
      else if length == 0 then Without(held, i)
      else if out.At? then Without(held, i) + [Held(out.p, length, KnownAfterResize(held[i], out.p, length))]
      else held
  }

  /** What the client holds and knows after all of its requests. */
  function Track(ops: seq<Op>, outs: seq<Outcome>): seq<Held>
    requires |ops| == |outs|
  {
    if ops == [] then []
    else
      var k := |ops| - 1;
      Served(ops[k], outs[k], Track(ops[..k], outs[..k]))
  }

  // An answer is right: memory comes when it can be had and is not one the client holds,
  // and reading gives what is known to be there.
  ghost predicate Answered(op: Op, out: Outcome, held: seq<Held>) {
    match op
    case AllocOp(_, length, pool, pages) =>
      && !out.Bytes?
      && (!Reasonable(length) ==> out == Nothing)
      && (Reasonable(length) && (forall k :: pool(k)) && PagesFor(pages, length) ==> out.At?)
      && (out.At? ==> !Holds(held, out.p))
    case FreeOp(_) => out == Nothing
    case WriteOp(_, _, _) => out == Nothing
    case ReadOp(i) =>
      if i < |held| then out.Bytes? && |out.data| == held[i].size && held[i].known <= out.data else out == Nothing
    case ReallocOp(i, _, length, _, again, pages) =>
      if i >= |held| || !Reasonable(length) then out == Nothing
      else
        && !out.Bytes?
        && (length <= held[i].size ==> out == At(held[i].p))
        && ((forall k :: again(k)) && PagesFor(pages, length) ==> out.At?)
        && (out.At? ==> out.p == held[i].p || !Holds(held, out.p))
  }

  // A write is seen where it went and nowhere else.
  lemma KnownAfterWriteAt(known: seq<Byte>, offset: nat, data: seq<Byte>)
    requires offset <= |known|
    ensures var k := KnownAfterWrite(known, offset, data);
            && |k| == (if offset + |data| <= |known| then |known| else offset + |data|)
            && forall j :: 0 <= j < |k| ==> k[j] == if offset <= j < offset + |data| then data[j - offset] else known[j]
  {
  }

  /** What a request changes, byte by byte: new memory is zero, a write puts its octets where it
      went, a resize keeps what was known and makes the rest zero if the memory is another. */
  lemma ServedBytes(op: Op, out: Outcome, held: seq<Held>)
    requires forall i :: 0 <= i < |held| ==> |held[i].known| <= held[i].size
    ensures op.AllocOp? && out.At? ==>
              var x := Held(out.p, op.length, seq(op.length, _ => Plain(0))); Served(op, out, held) == held + [x]
    ensures op.FreeOp? && op.i < |held| ==> Served(op, out, held) == held[..op.i] + held[op.i + 1..]
    ensures op.ReadOp? ==> Served(op, out, held) == held
    ensures op.WriteOp? && op.i < |held| && op.offset <= |held[op.i].known| && op.offset + |op.data| <= held[op.i].size ==>
              && |Served(op, out, held)| == |held|
              && var x, was := Served(op, out, held)[op.i], held[op.i];
                 && Served(op, out, held) == held[op.i := was.(known := x.known)]
                 && |x.known| == (if op.offset + |op.data| < |was.known| then |was.known| else op.offset + |op.data|)
                 && forall j :: 0 <= j < |x.known| ==>
                      x.known[j] == if op.offset <= j < op.offset + |op.data| then Plain(op.data[j - op.offset]) else was.known[j]
    ensures op.ReallocOp? && op.i < |held| && op.length == 0 ==> Served(op, out, held) == held[..op.i] + held[op.i + 1..]
    ensures op.ReallocOp? && op.i < |held| && op.length > 0 && out.At? ==>
              && |Served(op, out, held)| == |held|
              && var x, was := Served(op, out, held)[|held| - 1], held[op.i];
                 && Served(op, out, held) == held[..op.i] + held[op.i + 1..] + [x] && x.p == out.p && x.size == op.length
                 && (op.length <= |was.known| || (out.p != was.p && |was.known| == was.size) ==> |x.known| == op.length)
                 && forall j :: 0 <= j < |x.known| ==> x.known[j] == if j < |was.known| then was.known[j] else Plain(0)
  {
    match op
    case AllocOp(_, length, _, _) => assert Repeat(ZERO, length) == seq(length, _ => Plain(0));
    case WriteOp(i, offset, data) =>
      if i < |held| && offset <= |held[i].known| {
        KnownAfterWriteAt(held[i].known, offset, AsBytes(data));
      }
    case _ =>
  }

  // No resize grew an allocation where it lay.
  ghost predicate NeverStretched(ops: seq<Op>, outs: seq<Outcome>)
    requires |ops| == |outs|
  {
    forall k :: 0 <= k < |ops| ==> !Stretched(ops[k], outs[k], Track(ops[..k], outs[..k]))
  }

  predicate Stretched(op: Op, out: Outcome, held: seq<Held>) {
    op.ReallocOp? && op.i < |held| && out == At(held[op.i].p) && op.length > held[op.i].size
  }

  ghost predicate AllKnown(held: seq<Held>) {
    forall i :: 0 <= i < |held| ==> |held[i].known| == held[i].size
  }

  lemma KnowsStep(op: Op, out: Outcome, held: seq<Held>)
    requires AllKnown(held) && Answered(op, out, held) && !Stretched(op, out, held)
    ensures AllKnown(Served(op, out, held))
  {
    hide Holds;
    if op.WriteOp? && op.i < |held| && op.offset + |op.data| <= held[op.i].size {
      KnownAfterWriteAt(held[op.i].known, op.offset, AsBytes(op.data));
    }
  }

  // Then the client knows every byte it holds, so that reading gives exactly those.
  lemma {:induction false} KnowsAll(ops: seq<Op>, outs: seq<Outcome>)
    requires |ops| == |outs| && NeverStretched(ops, outs)
    requires forall k :: 0 <= k < |ops| ==> Answered(ops[k], outs[k], Track(ops[..k], outs[..k]))
    ensures AllKnown(Track(ops, outs))
  {
    hide Answered, Served, Stretched, AllKnown;
    if ops == [] {
      assert AllKnown([]) by { NoneKnown(); }
    } else {
      var k := |ops| - 1;
      assert forall j :: 0 <= j < k ==> ops[..k][..j] == ops[..j] && outs[..k][..j] == outs[..j];
      KnowsAll(ops[..k], outs[..k]);
      KnowsStep(ops[k], outs[k], Track(ops[..k], outs[..k]));
    }
  }

  lemma NoneKnown()
    ensures AllKnown([])
  {
  }

  /** Serve the requests one after another. */
  method Run(ops: seq<Op>) returns (blocks: AllBlocks, outs: seq<Outcome>, held: seq<Held>)
    ensures fresh(blocks) && blocks.Valid() && |outs| == |ops|
    ensures forall k :: 0 <= k < |ops| ==> Answered(ops[k], outs[k], Track(ops[..k], outs[..k]))
    ensures held == Track(ops, outs) && Remembers(held, blocks.live)
  {
    hide AllBlocks.Valid, Remembers, Answered, Served;
    blocks := new AllBlocks();
    held, outs := [], [];
    NothingHeld();
    for k := 0 to |ops|
      invariant fresh(blocks) && fresh(blocks.repr) && blocks.Valid() && Remembers(held, blocks.live)
      invariant |outs| == k && held == Track(ops[..k], outs)
      invariant forall j :: 0 <= j < k ==> Answered(ops[j], outs[j], Track(ops[..j], outs[..j]))
    {
      var out := Serve(blocks, ops[k], held);
      held := Served(ops[k], out, held);
      assert ops[..k + 1][..k] == ops[..k] && (outs + [out])[..k] == outs;
      assert forall j :: 0 <= j < k ==> (outs + [out])[..j] == outs[..j];
      outs := outs + [out];
    }
    assert ops[..|ops|] == ops;
  }

  lemma NothingHeld()
    ensures Remembers([], map[])
  {
  }

  method Serve(blocks: AllBlocks, op: Op, held: seq<Held>) returns (out: Outcome)
    requires blocks.Valid() && Remembers(held, blocks.live)
    modifies blocks, blocks.repr
    ensures blocks.Valid() && fresh(blocks.repr - old(blocks.repr))
    ensures Answered(op, out, held) && Remembers(Served(op, out, held), blocks.live)
  {
    hide AllBlocks.Valid, Remembers, Resized, Kept, Gave, Took, Became;
    out := Nothing;
    match op {
      case AllocOp(tag, length, pool, pages) =>
        out := ServeAlloc(blocks, tag, length, pool, pages, held);
      case FreeOp(i) =>
        if i < |held| {
          HeldIsLive(held, blocks.live, i);
          blocks.SecureFree(Some(held[i].p));
          RememberTook(held, old(blocks.live), blocks.live, i);
        }
      case WriteOp(i, offset, data) =>
        if i < |held| && offset + |data| <= held[i].size {
          ServeWrite(blocks, i, offset, data, held);
        }
      case ReadOp(i) =>
        if i < |held| {
          HeldIsLive(held, blocks.live, i);
          var data := blocks.ReadFrom(held[i].p, held[i].size);
          out := Bytes(data);
        }
      case ReallocOp(i, tag, length, poolOk, again, pages) =>
        if i < |held| {
          out := ServeRealloc(blocks, i, tag, length, poolOk, again, pages, held);
        }
    }
  }

  lemma NotHeld(held: seq<Held>, x: Held, h: Heap)
    requires Remembers(held + [x], h)
    ensures !Holds(held, x.p)
  {
    var held' := held + [x];
    forall i | 0 <= i < |held| ensures held[i].p != x.p {
      assert held'[i] == held[i] && held'[|held|] == x;
    }
  }

  method ServeAlloc(blocks: AllBlocks, tag: Option<string>, length: nat, pool: nat -> bool, pages: Option<PageSize>, held: seq<Held>)
    returns (out: Outcome)
    requires blocks.Valid() && Remembers(held, blocks.live)
    modifies blocks, blocks.repr
    ensures blocks.Valid() && fresh(blocks.repr - old(blocks.repr))
    ensures var op := AllocOp(tag, length, pool, pages); Answered(op, out, held) && Remembers(Served(op, out, held), blocks.live)
  {
    hide AllBlocks.Valid, Remembers, Kept, Gave, HasRoom, Holds;
    var memory := blocks.SecureAlloc(tag, length, pool, pages);
    if memory.Some? {
      var x := Held(memory.value, length, Repeat(ZERO, length));
      RememberGave(held, old(blocks.live), blocks.live, x, Alloc(length, Some(Named(tag)), Repeat(ZERO, length)));
      NotHeld(held, x, blocks.live);
      return At(memory.value);
    }
    RememberKept(held, old(blocks.live), blocks.live);
    return Nothing;
  }

  method ServeWrite(blocks: AllBlocks, i: nat, offset: nat, data: seq<byte>, held: seq<Held>)
    requires blocks.Valid() && Remembers(held, blocks.live) && i < |held| && offset + |data| <= held[i].size
    modifies blocks, blocks.repr
    ensures blocks.Valid() && fresh(blocks.repr - old(blocks.repr))
    ensures Remembers(Served(WriteOp(i, offset, data), Nothing, held), blocks.live)
  {
    hide AllBlocks.Valid, Remembers;
    HeldIsLive(held, blocks.live, i);
    ghost var p := held[i].p;
    ghost var was := In(blocks.live, p.block)[p.word];
    var k := blocks.FindBlock(held[i].p.block);
    blocks.WriteIn(k, held[i].p.word, offset, AsBytes(data));
    ghost var x := held[i].(known := KnownAfterWrite(held[i].known, offset, AsBytes(data)));
    RememberWrite(held, old(blocks.live), i, x, Overwritten(was, offset, AsBytes(data)));
  }

  method ServeRealloc(blocks: AllBlocks, i: nat, tag: Option<string>, length: nat, poolOk: bool, again: nat -> bool, pages: Option<PageSize>,
                      held: seq<Held>) returns (out: Outcome)
    requires blocks.Valid() && Remembers(held, blocks.live) && i < |held|
    modifies blocks, blocks.repr
    ensures blocks.Valid() && fresh(blocks.repr - old(blocks.repr))
    ensures var op := ReallocOp(i, tag, length, poolOk, again, pages); Answered(op, out, held) && Remembers(Served(op, out, held), blocks.live)
  {
    hide AllBlocks.Valid, Remembers, Resized, Kept, Took, Became, HasSlack, Holds;
    HeldIsLive(held, blocks.live, i);
    ghost var h := blocks.live;
    var memory;
    ghost var now;
    memory, now := blocks.SecureRealloc(tag, Some(held[i].p), length, poolOk, again, pages);
    if length > INSANE {
      return Nothing;
    }
    if length == 0 {
      RememberTook(held, h, blocks.live, i);
      return Nothing;
    }
    if memory == None {
      RememberKept(held, h, blocks.live);
      return Nothing;
    }
    ghost var x := Held(memory.value, length, KnownAfterResize(held[i], memory.value, length));
    ResizeIsKnown(held[i], h, blocks.live, x, now, Some(Named(tag)));
    RememberBecame(held, h, blocks.live, i, x, now);
    NewOrSame(held, i, x, blocks.live);
    return At(memory.value);
  }

  lemma NewOrSame(held: seq<Held>, i: nat, x: Held, h: Heap)
    requires i < |held| && Remembers(Without(held, i) + [x], h)
    ensures x.p == held[i].p || !Holds(held, x.p)
  {
    hide Remembers;
    NotHeld(Without(held, i), x, h);
    if Holds(held, x.p) && x.p != held[i].p {
      HoldsBut(held, i, x.p);
    }
  }

  lemma HeldIsLive(held: seq<Held>, h: Heap, i: nat)
    requires Remembers(held, h) && i < |held|
    ensures Intact(held[i], h)
  {
  }

  lemma ResizeIsKnown(y: Held, h: Heap, h': Heap, x: Held, now: Alloc, tag: Option<string>)
    requires Intact(y, h) && Became(h, h', y.p, x.p, x.size, now)
    requires x.p != y.p ==> y.size < x.size && Resized(In(h, y.p.block)[y.p.word], now, x.size, tag, true)
    requires x.known == KnownAfterResize(y, x.p, x.size)
    ensures Fits(x, now)
  {
  }
}
