// The public functions over the list of all blocks.
module SecureMemoryBlocks {
  import opened Wrappers
  import Numbers
  import opened SecureMemoryModel
  import opened SecureMemoryRings
  import opened SecureMemory

  /** Where memory is: a block and a word in it. */
  datatype Address = Address(block: Block, word: nat)

  /** The allocations that are live, block by block. */
  type Heap = map<Block, map<nat, Alloc>>

  const INSANE: nat := 0x7FFF_FFFF

  const DEFAULT_BLOCK_SIZE: nat := 16384

  /** What getpagesize returns: whole words. */
  type PageSize = n: nat | n >= WORD && n % WORD == 0 witness 4096

  // sec_block_create and sec_acquire_pages: at least the default size, in whole pages.
  function BlockSize(length: nat, page: PageSize): (size: nat)
    ensures size >= length && size >= DEFAULT_BLOCK_SIZE && size % page == 0
    ensures size < length + page || size < DEFAULT_BLOCK_SIZE + page
  {
    var least := if length < DEFAULT_BLOCK_SIZE then DEFAULT_BLOCK_SIZE else length;
    WholePages(least, page);
    (least + page - 1) / page * page
  }

  lemma WholePages(least: nat, page: nat)
    requires page > 0
    ensures var size := (least + page - 1) / page * page; least <= size < least + page && size % page == 0
  {
    var x := least + page - 1;
    Numbers.DivModOf(x, page);
    assert page * (x / page) == x / page * page;
    Numbers.ModIs(page, x / page * page, x / page, 0);
  }

  function BlockWords(length: nat, page: PageSize): (n: nat)
    ensures n >= 2048
  {
    BlockSize(length, page) / WORD
  }

  function Named(tag: Option<string>): (name: string)
    ensures tag == None ==> name == "?"
    ensures tag.Some? ==> tag == Some(name)
  {
    if tag.Some? then tag.value else "?"
  }

  // What is live in a block; nothing in one that is not there.
  ghost function In(h: Heap, b: Block): map<nat, Alloc> {
    if b in h then h[b] else map[]
  }

  function With(m: map<nat, Alloc>, word: nat, a: Alloc): map<nat, Alloc> {
    m[word := a]
  }

  ghost predicate IsLive(h: Heap, p: Address) {
    p.word in In(h, p.block)
  }

  // Blocks may have come to the list; nothing is live that was not, and nothing changed.
  ghost predicate Kept(h: Heap, h': Heap) {
    h.Keys <= h'.Keys && forall b :: b in h' ==> h'[b] == In(h, b)
  }

  // One allocation is new; nothing else changed.
  ghost predicate Gave(h: Heap, h': Heap, q: Address, a: Alloc) {
    && h.Keys <= h'.Keys && q.block in h' && !IsLive(h, q)
    && forall b :: b in h' ==> h'[b] == if b == q.block then With(In(h, b), q.word, a) else In(h, b)
  }

  ghost function InBut(h: Heap, b: Block, p: Address): map<nat, Alloc> {
    if b == p.block then In(h, b) - {p.word} else In(h, b)
  }

  // One allocation is gone, and so is its block if nothing is left in it; nothing else changed.
  ghost predicate Took(h: Heap, h': Heap, p: Address) {
    && h'.Keys <= h.Keys
    && (forall b :: b in h && b !in h' ==> b == p.block && InBut(h, b, p) == map[])
    && (forall b :: b in h' ==> h'[b] == InBut(h, b, p))
    && (p.block in h' ==> h'[p.block] != map[])
  }

  // The allocation p has become q, keeping what it had as far as `length` goes; nothing
  // else changed, and only p's block may be gone, if nothing is left in it.
  ghost predicate Became(h: Heap, h': Heap, p: Address, q: Address, length: nat, now: Alloc) {
    && IsLive(h, p) && (q == p || !IsLive(h, q)) && Resized(In(h, p.block)[p.word], now, length, now.tag, false)
    && q.block in h'
    && (forall b :: b in h && b !in h' ==> b == p.block && InBut(h, b, p) == map[])
    && (forall b :: b in h' ==> h'[b] == if b == q.block then With(InBut(h, b, p), q.word, now) else InBut(h, b, p))
  }

  predicate Reasonable(length: nat): (ok: bool)
    ensures ok <==> 1 <= length < 0x8000_0000
  {
    0 < length <= INSANE
  }

  // There are pages for a new block, and the request and its guards fit in one.
  predicate PagesFor(pages: Option<PageSize>, length: nat) {
    pages.Some? && SizeToWords(length) + 2 <= BlockWords(length, pages.value)
  }

  // A new block is never too small for what leaves the guards room in the default size; for
  // more than that it is when the last page is full or lacks less than two words of it.
  lemma PagesForIff(page: PageSize, length: nat)
    ensures length <= DEFAULT_BLOCK_SIZE - 2 * WORD ==> PagesFor(Some(page), length)
    ensures PagesFor(Some(page), length) <==> length + 2 * WORD <= BlockSize(length, page)
  {
    var size := BlockSize(length, page);
    Numbers.DivModOf(size, page);
    Numbers.DivModOf(page, WORD);
    var k, w := size / page, page / WORD;
    assert page == WORD * w && size == page * k;
    assert WORD * w * k == WORD * (w * k);
    Numbers.ModIs(WORD, size, w * k, 0);
  }

  // Some free cell of the block is big enough.
  ghost predicate HasRoom(b: Block, length: nat)
    reads b`segs
  {
    RoomIn(b.segs, SizeToWords(length) + 2)
  }

  // The cell an allocation lies in has the words for a new length.
  ghost predicate HasSlack(b: Block, word: nat, length: nat)
    reads b`segs
  {
    exists i :: 0 <= i < |b.segs| && b.segs[i].words + 1 == word && SizeToWords(length) + 2 <= b.segs[i].n
  }

  // It has, or it gets them from a free cell after it.
  ghost predicate CanGrow(b: Block, word: nat, length: nat)
    reads b`segs
  {
    exists i :: 0 <= i < |b.segs| && b.segs[i].words + 1 == word && Growable(b.segs, i, SizeToWords(length) + 2)
  }

  // No other cell begins there, and what is asked for now fits.
  lemma SlackOf(b: Block, word: nat, length: nat)
    requires b.Valid() && word in b.Allocations()
    ensures forall i :: 0 <= i < |b.segs| && b.segs[i].words + 1 == word ==>
              && (HasSlack(b, word, length) <==> SizeToWords(length) + 2 <= b.segs[i].n)
              && (CanGrow(b, word, length) <==> Growable(b.segs, i, SizeToWords(length) + 2))
    ensures length <= b.Allocations()[word].requested ==> HasSlack(b, word, length)
  {
    hide SegMem, Live, Block.Valid;
    b.LayoutNow();
    b.FitsNow();
    TiledOrdered(b.segs, 0, b.nWords);
    var i := LookUp(b.segs, b.mem[..], b.nWords, word);
  }

  // The bytes of a stretch of a block.
  function BytesAt(b: Block, word: nat, length: nat): (s: seq<Byte>)
    requires WORD * word + length <= b.mem.Length
    reads b.mem
    ensures |s| == length
  {
    b.mem[WORD * word..WORD * word + length]
  }

  lemma EmptyHasRoom(b: Block, length: nat)
    requires b.Valid() && b.nUsed == 0
    ensures HasRoom(b, length) <==> SizeToWords(length) + 2 <= b.nWords
  {
    b.NothingUsed();
    assert b.segs[0].req == 0;
  }

  // What is live in a valid block.
  ghost predicate Sound(b: Block, allocations: map<nat, Alloc>)
    reads b, b.mem, b.cells, b.used, b.unused
  {
    b.Valid() && allocations == b.Allocations()
  }

  lemma SoundIs(b: Block, allocations: map<nat, Alloc>)
    requires Sound(b, allocations)
    ensures b.Valid() && Layout(b.segs, b.mem[..], b.nWords) && allocations == b.Allocations()
  {
  }

  lemma IsSound(b: Block)
    requires b.Valid()
    ensures Layout(b.segs, b.mem[..], b.nWords) && Sound(b, b.Allocations())
    ensures (forall c :: c in b.used ==> c in b.cells) && (forall c :: c in b.unused ==> c in b.cells)
  {
    b.RingsWithin();
  }

  lemma GaveKeeps(h: Heap, h1: Heap, p: Address, q: Address, a: Alloc)
    requires Gave(h, h1, q, a) && IsLive(h, p)
    ensures p != q && IsLive(h1, p) && In(h1, p.block)[p.word] == In(h, p.block)[p.word]
    ensures q.block in h1 && q.word in h1[q.block] && h1[q.block][q.word] == a
  {
  }

  lemma GaveMore(h: Heap, h1: Heap, h2: Heap, p: Address, q: Address, a: Alloc, now: Alloc)
    requires Gave(h, h1, q, a) && IsLive(h, p) && q.block in h1 && h2 == h1[q.block := With(h1[q.block], q.word, now)]
    ensures Gave(h, h2, q, now) && IsLive(h2, p)
  {
  }

  // A new allocation and then one less: the old one has become the new one.
  lemma GaveThenTook(h: Heap, h2: Heap, h3: Heap, p: Address, q: Address, length: nat, now: Alloc)
    requires Gave(h, h2, q, now) && IsLive(h, p) && Took(h2, h3, p)
    requires Resized(In(h, p.block)[p.word], now, length, now.tag, false)
    ensures Became(h, h3, p, q, length, now)
  {
    hide Resized;
    forall b | b in h3 ensures h3[b] == if b == q.block then With(InBut(h, b, p), q.word, now) else InBut(h, b, p) {
      assert h3[b] == InBut(h2, b, p);
    }
    assert q.word in InBut(h2, q.block, p);
    assert q.block in h3;
  }

  ghost function Listed(all: seq<Block>): set<Block> {
    set b | b in all
  }

  lemma StillResized(was: Alloc, now: Alloc, length: nat)
    requires exists tag, zeroed :: Resized(was, now, length, tag, zeroed)
    ensures Resized(was, now, length, now.tag, false)
  {
  }

  lemma ListedMore(all: seq<Block>, b: Block)
    ensures Listed([b] + all) == Listed(all) + {b}
  {
  }

  lemma ListedLess(all: seq<Block>, k: nat)
    requires k < |all| && forall i, j :: 0 <= i < j < |all| ==> all[i] != all[j]
    ensures Listed(all[..k] + all[k + 1..]) == Listed(all) - {all[k]}
  {
    var rest := all[..k] + all[k + 1..];
    forall b | b in Listed(all) && b != all[k] ensures b in Listed(rest) {
      var i :| 0 <= i < |all| && all[i] == b;
      assert rest[if i < k then i else i - 1] == b;
    }
  }

  // No allocation is live exactly when none is counted.
  lemma EmptyIs(b: Block, allocations: map<nat, Alloc>)
    requires Sound(b, allocations)
    ensures b.nUsed == 0 <==> allocations == map[]
  {
    b.UsedCount();
  }

  class AllBlocks {
    var all: seq<Block>
    ghost var repr: set<object>
    ghost var live: Heap

    // A block with everything it consists of belongs to the list.
    ghost predicate Belongs(b: Block)
      reads this`repr, b
    {
      && b in repr && b.mem in repr && b.cells <= repr
      && (forall c :: c in b.used ==> c in b.cells && c in repr) && (forall c :: c in b.unused ==> c in b.cells && c in repr)
    }

    ghost predicate Apart(b: Block, c: Block)
      reads b`cells, c`cells
    {
      b != c && b.mem != c.mem && b.cells !! c.cells
    }

    ghost predicate Separate()
      reads this`all, this`repr, all
    {
      && this !in repr
      && (forall i :: 0 <= i < |all| ==> Belongs(all[i]))
      && (forall i, j :: 0 <= i < j < |all| ==> Apart(all[i], all[j]))
    }

    ghost predicate Valid()
      reads this, repr, all
    {
      && Separate() && live.Keys == Listed(all)
      && forall i :: 0 <= i < |all| ==> SoundAt(all[i])
    }

    ghost predicate SoundAt(b: Block)
      requires Belongs(b)
      reads this`repr, this`live, b, repr
    {
      b in live && Sound(b, live[b])
    }

    constructor ()
      ensures Valid() && all == [] && repr == {} && live == map[]
    {
      all := [];
      repr := {};
      live := map[];
    }

    // ------------------------------------------------------------ on one block

    method AllocIn(k: nat, tag: string, length: nat, poolOk: bool) returns (memory: Option<nat>)
      requires Valid() && k < |all| && length > 0
      modifies this`repr, this`live, repr
      ensures Valid() && all == old(all) && old(repr) <= repr && fresh(repr - old(repr))
      ensures memory == None ==> live == old(live) && forall i :: 0 <= i < |all| ==> all[i].segs == old(all[i].segs)
      ensures poolOk && old(HasRoom(all[k], length)) ==> memory.Some?
      ensures memory.Some? ==> old(HasRoom(all[k], length))
      ensures memory.Some? ==>
                && all[k] in old(live) && memory.value !in old(live)[all[k]]
                && live == old(live)[all[k] := With(old(live)[all[k]], memory.value, Alloc(length, Some(tag), Repeat(ZERO, length)))]
    {
      hide Block.Valid, Block.Allocations, Sound, Listed, Taken, PointersStay;
      assert all[k] in live by { Inside(k); }
      var b := all[k];
      SoundIs(b, live[b]);
      memory := b.SecAlloc(tag, length, poolOk);
      Touched(k);
    }

    method FreeIn(k: nat, word: nat) returns (empty: bool)
      requires Valid() && k < |all| && all[k] in live && word in live[all[k]]
      modifies this`repr, this`live, repr
      ensures Valid() && all == old(all) && old(repr) <= repr && fresh(repr - old(repr))
      ensures live == old(live)[all[k] := old(live)[all[k]] - {word}]
      ensures empty <==> all[k].nUsed == 0
      ensures empty <==> live[all[k]] == map[]
    {
      hide Block.Valid, Block.Allocations, Sound, Listed, Freed, PointersStay;
      var b := all[k];
      SoundIs(b, live[b]);
      ghost var i := b.SecFree(word);
      Touched(k);
      assert SoundAt(b);
      EmptyIs(b, live[b]);
      empty := b.nUsed == 0;
    }

    method ReallocIn(k: nat, tag: string, word: nat, length: nat, poolOk: bool) returns (alloc: Option<nat>, ghost now: Alloc)
      requires Valid() && k < |all| && all[k] in live && word in live[all[k]] && length > 0
      modifies this`repr, this`live, repr
      ensures Valid() && all == old(all) && old(repr) <= repr && fresh(repr - old(repr))
      ensures all[k] in old(live) && word in old(live)[all[k]]
      ensures alloc == None ==> live == old(live) && old(live)[all[k]][word].requested < length && !old(HasSlack(all[k], word, length))
      ensures alloc == None ==> !old(CanGrow(all[k], word, length)) && (RoomSomewhere(length) <==> old(RoomSomewhere(length)))
      ensures alloc.Some? ==> old(CanGrow(all[k], word, length)) || old(RoomSomewhere(length))
      ensures alloc.Some? ==>
                && live == old(live)[all[k] := With(old(live)[all[k]] - {word}, alloc.value, now)]
                && (alloc.value == word || alloc.value !in old(live)[all[k]])
                && Resized(old(live)[all[k]][word], now, length, now.tag, false)
      ensures length <= old(live)[all[k]][word].requested ==> old(HasSlack(all[k], word, length))
      ensures alloc.Some? && old(HasSlack(all[k], word, length)) ==>
                && alloc.value == word && WORD * word + length <= all[k].mem.Length
                && now == Alloc(length, old(live)[all[k]][word].tag, old(BytesAt(all[k], word, length)))
      ensures alloc.Some? && !old(HasSlack(all[k], word, length)) ==>
                Resized(old(live)[all[k]][word], now, length, Some(tag), true)
    {
      hide Block.Valid, Block.Allocations, Resized, Sound, Listed, HasSlack, NoPointer, RoomIn, Growable, CanGrow;
      var b := all[k];
      SoundIs(b, live[b]);
      SlackOf(b, word, length);
      ghost var i;
      alloc, i, now := b.SecRealloc(tag, word, length, poolOk);
      Touched(k);
      forall j | 0 <= j < |all| && j != k ensures all[j].segs == old(all[j].segs) {
        assert old(Apart(all[if j < k then j else k], all[if j < k then k else j]));
      }
    }

    // Writing into an allocation.
    method WriteIn(k: nat, word: nat, offset: nat, data: seq<Byte>)
      requires Valid() && k < |all| && all[k] in live && word in live[all[k]]
      requires offset + |data| <= live[all[k]][word].requested
      modifies this`repr, this`live, repr
      ensures Valid() && all == old(all) && repr == old(repr) && all[k] in old(live) && word in old(live)[all[k]]
      ensures offset + |data| <= |old(live)[all[k]][word].bytes|
      ensures live == old(live)[all[k] := With(old(live)[all[k]], word, Overwritten(old(live)[all[k]][word], offset, data))]
    {
      hide Block.Valid, Block.Allocations, Sound, Listed;
      SoundIs(all[k], live[all[k]]);
      all[k].Write(word, offset, data);
      Touched(k);
    }

    method AllocatedIn(p: Address) returns (requested: nat)
      requires Valid() && IsLive(live, p)
      ensures requested == live[p.block][p.word].requested
    {
      hide Block.Valid, Block.Allocations, Sound;
      ghost var k := Index(p.block);
      SoundIs(p.block, live[p.block]);
      requested := p.block.SecAllocated(p.word);
    }

    method ReadFrom(p: Address, n: nat) returns (data: seq<Byte>)
      requires Valid() && IsLive(live, p) && n == live[p.block][p.word].requested
      ensures data == live[p.block][p.word].bytes && |data| == n
    {
      hide Block.Valid, Block.Allocations, Sound;
      ghost var k := Index(p.block);
      SoundIs(p.block, live[p.block]);
      data := p.block.Read(p.word, n);
    }

    lemma Index(b: Block) returns (k: nat)
      requires Valid() && b in live
      ensures k < |all| && all[k] == b && Belongs(b) && SoundAt(b)
    {
      assert b in Listed(all);
      k :| 0 <= k < |all| && all[k] == b;
    }

    // ------------------------------------------------------- the list of blocks

    // sec_block_create, when there are pages for it
    method Create(nWords: nat)
      requires Valid() && nWords >= 3
      modifies this
      ensures Valid() && old(repr) <= repr && fresh(repr - old(repr))
      ensures |all| == |old(all)| + 1 && all[1..] == old(all) && all[0] !in old(live)
      ensures live == old(live)[all[0] := map[]]
      ensures forall length :: HasRoom(all[0], length) <==> SizeToWords(length) + 2 <= nWords
      ensures forall i :: 0 <= i < |old(all)| ==> old(all)[i].segs == old(all[i].segs)
    {
      hide Block.Valid, Block.Allocations, Sound, SoundAt, Apart, Belongs, Listed;
      ghost var was := repr;
      var b := new Block(nWords);
      IsSound(b);
      forall length: nat ensures HasRoom(b, length) <==> SizeToWords(length) + 2 <= nWords {
        EmptyHasRoom(b, length);
      }
      Join(b);
      assert repr == was + {b, b.mem} + b.cells;
    }

    // A block that has nothing in common with the others comes to the front of the list.
    method Join(b: Block)
      requires Valid() && b !in repr && b.mem !in repr && (forall c :: c in b.cells ==> c !in repr)
      requires (forall c :: c in b.used ==> c in b.cells) && (forall c :: c in b.unused ==> c in b.cells)
      requires Sound(b, map[])
      modifies this
      ensures Valid() && all == [b] + old(all) && b !in old(live)
      ensures repr == old(repr) + {b, b.mem} + b.cells && live == old(live)[b := map[]]
    {
      hide Block.Valid, Block.Allocations, Sound, Listed;
      assert b !in live by { NotListed(b); }
      ghost var rest := all;
      JoinSeparate(b);
      live := live[b := map[]];
      assert live.Keys == Listed(all) by { ListedMore(rest, b); }
      forall i | 0 <= i < |all| ensures SoundAt(all[i]) {
        assert i > 0 ==> all[i] == rest[i - 1] && old(SoundAt(rest[i - 1])) && Apart(all[0], all[i]);
      }
    }

    method JoinSeparate(b: Block)
      requires Separate() && b !in repr && b.mem !in repr && (forall c :: c in b.cells ==> c !in repr)
      requires (forall c :: c in b.used ==> c in b.cells) && (forall c :: c in b.unused ==> c in b.cells)
      modifies this`all, this`repr
      ensures Separate() && all == [b] + old(all) && repr == old(repr) + {b, b.mem} + b.cells
    {
      hide Block.Valid, Block.Allocations, Sound, Listed;
      repr := repr + {b, b.mem} + b.cells;
      all := [b] + all;
    }

    lemma NotListed(b: Block)
      requires Separate() && live.Keys == Listed(all) && b !in repr
      ensures b !in live
    {
    }

    // sec_block_destroy: nothing is live in the block, and it leaves the list
    method Destroy(k: nat)
      requires Valid() && k < |all| && all[k].nUsed == 0
      modifies this`all, this`live, repr
      ensures Valid() && repr == old(repr) && all == old(all[..k] + all[k + 1..]) && live == old(live) - {old(all[k])}
    {
      hide Block.Valid, Block.Allocations, Sound, Listed;
      var b := all[k];
      SoundIs(b, live[b]);
      ghost var l := live;
      var released := b.SecBlockDestroy();
      forall i | 0 <= i < |all| && i != k ensures Belongs(all[i]) && SoundAt(all[i]) {
        assert old(SoundAt(all[i])) && old(Apart(all[if i < k then i else k], all[if i < k then k else i]));
      }
      Leave(k);
    }

    method Leave(k: nat)
      requires k < |all| && this !in repr && live.Keys == Listed(all)
      requires forall i :: 0 <= i < |all| && i != k ==> Belongs(all[i]) && SoundAt(all[i])
      requires forall i, j :: 0 <= i < j < |all| ==> Apart(all[i], all[j])
      modifies this`all, this`live
      ensures Valid() && all == old(all[..k] + all[k + 1..]) && live == old(live) - {old(all[k])}
    {
      hide Block.Valid, Block.Allocations, Sound, Listed, Belongs;
      ghost var was := all;
      ListedLess(all, k);
      live := live - {all[k]};
      all := all[..k] + all[k + 1..];
      assert forall i :: 0 <= i < |all| ==> all[i] == was[if i < k then i else i + 1];
    }

    // After an operation on the block number k.
    ghost method Touched(k: nat)
      requires k < |all| && this !in repr && live.Keys == Listed(all)
      requires all[k] in repr && all[k].mem in repr && all[k].Valid()
      requires forall i :: 0 <= i < |all| && i != k ==> Belongs(all[i]) && SoundAt(all[i])
      requires forall i, j :: 0 <= i < j < |all| ==> Apart(all[i], all[j])
      modifies this`repr, this`live
      ensures Layout(all[k].segs, all[k].mem[..], all[k].nWords)
      ensures Valid() && repr == old(repr) + all[k].cells && live == old(live)[all[k] := all[k].Allocations()]
    {
      hide Block.Valid, Block.Allocations, Sound, Apart, Belongs, Listed;
      IsSound(all[k]);
      TouchedRepr(k);
      TouchedLive(k);
    }

    ghost method TouchedLive(k: nat)
      requires k < |all| && Separate() && live.Keys == Listed(all)
      requires Layout(all[k].segs, all[k].mem[..], all[k].nWords) && Sound(all[k], all[k].Allocations())
      requires forall i :: 0 <= i < |all| && i != k ==> SoundAt(all[i])
      modifies this`live
      ensures Layout(all[k].segs, all[k].mem[..], all[k].nWords)
      ensures Valid() && live == old(live)[all[k] := all[k].Allocations()]
    {
      hide Block.Valid, Block.Allocations, Sound, Belongs, Listed;
      assert all[k] in live by { Inside(k); }
      live := live[all[k] := all[k].Allocations()];
      assert live.Keys == old(live).Keys;
      forall i | 0 <= i < |all| ensures SoundAt(all[i]) {
        assert i != k ==> Apart(all[if i < k then i else k], all[if i < k then k else i]);
        assert i != k ==> old(SoundAt(all[i]));
      }
    }

    lemma Inside(k: nat)
      requires k < |all| && live.Keys == Listed(all)
      ensures all[k] in live
    {
    }

    ghost method TouchedRepr(k: nat)
      requires k < |all| && this !in repr
      requires all[k] in repr && all[k].mem in repr
      requires (forall c :: c in all[k].used ==> c in all[k].cells) && (forall c :: c in all[k].unused ==> c in all[k].cells)
      requires forall i :: 0 <= i < |all| && i != k ==> Belongs(all[i])
      requires forall i, j :: 0 <= i < j < |all| ==> Apart(all[i], all[j])
      modifies this`repr
      ensures Separate() && repr == old(repr) + all[k].cells
    {
      repr := repr + all[k].cells;
    }

    // ------------------------------------------------------- public functions

    // egg_secure_alloc_full without a fallback: `pool` says which attempts get metadata,
    // `pages` how large a page is, if there are any to be had
    method SecureAlloc(tag: Option<string>, length: nat, pool: nat -> bool, pages: Option<PageSize>) returns (memory: Option<Address>)
      requires Valid()
      modifies this, repr
      ensures Valid() && old(repr) <= repr && fresh(repr - old(repr))
      ensures if memory == None then Kept(old(live), live)
              else Gave(old(live), live, memory.value, Alloc(length, Some(Named(tag)), Repeat(ZERO, length)))
      // it succeeds only where there is room in a block or in a new one, and there it does if
      // metadata are to be had
      ensures memory.Some? ==> Reasonable(length) && (PagesFor(pages, length) || old(RoomSomewhere(length)))
      ensures Reasonable(length) && (forall k :: pool(k)) && (PagesFor(pages, length) || old(RoomSomewhere(length))) ==> memory.Some?
      // a block that was made in vain stays on the list with nothing in it
      ensures memory == None ==>
                if Reasonable(length) && pages.Some?
                then |all| == |old(all)| + 1 && all[1..] == old(all) && all[0] !in old(live) && live == old(live)[all[0] := map[]]
                else all == old(all) && live == old(live)
      ensures memory == None && Reasonable(length) && (forall k :: pool(k)) ==> !RoomSomewhere(length)
    {
      hide Valid, HasRoom;
      if length > INSANE || length == 0 {
        return None;
      }
      var k := 0;
      while k < |all|
        invariant 0 <= k <= |all| && Valid() && live == old(live) && old(repr) <= repr && fresh(repr - old(repr))
        invariant all == old(all) && forall i :: 0 <= i < |all| ==> all[i].segs == old(all[i].segs)
        invariant (forall j :: pool(j)) ==> forall i :: 0 <= i < k ==> !old(HasRoom(all[i], length))
      {
        var word := AllocIn(k, Named(tag), length, pool(k));
        if word.Some? {
          return Some(Address(all[k], word.value));
        }
        k := k + 1;
      }
      if pages == None {
        return None;
      }
      Create(BlockWords(length, pages.value));
      var word := AllocIn(0, Named(tag), length, pool(k));
      return if word.Some? then Some(Address(all[0], word.value)) else None;
    }

    lemma NoRoom(length: nat)
      requires all == []
      ensures !RoomSomewhere(length)
    {
    }

    ghost predicate RoomSomewhere(length: nat)
      reads this`all, all
    {
      exists i :: 0 <= i < |all| && HasRoom(all[i], length)
    }

    // The search for the block a pointer belongs to.
    method FindBlock(block: Block) returns (k: nat)
      requires Valid() && block in live
      ensures k < |all| && all[k] == block
    {
      hide Sound, Belongs, Apart;
      k := 0;
      ghost var at := Index(block);
      while all[k] != block
        invariant 0 <= k <= at
        decreases at - k
      {
        k := k + 1;
      }
    }

    // egg_secure_free_full: a block in which nothing is left is given back
    method SecureFree(memory: Option<Address>)
      requires Valid() && (memory.Some? ==> IsLive(live, memory.value))
      modifies this, repr
      ensures Valid() && old(repr) <= repr && fresh(repr - old(repr))
      ensures if memory == None then live == old(live) else Took(old(live), live, memory.value)
    {
      hide Valid;
      if memory == None {
        return;
      }
      var k := FindBlock(memory.value.block);
      var empty := FreeIn(k, memory.value.word);
      if empty {
        Destroy(k);
      }
    }

    // egg_secure_realloc_full: within the block if that can be done, otherwise to wherever
    // there is room; `again` says which of the later attempts get metadata
    method SecureRealloc(tag: Option<string>, memory: Option<Address>, length: nat, poolOk: bool, again: nat -> bool, pages: Option<PageSize>)
      returns (alloc: Option<Address>, ghost now: Alloc)
      requires Valid() && (memory.Some? ==> IsLive(live, memory.value))
      modifies this, repr
      ensures Valid() && old(repr) <= repr && fresh(repr - old(repr))
      ensures length > INSANE ==> alloc == None && live == old(live)
      ensures length <= INSANE && memory == None ==>
                if alloc == None then Kept(old(live), live)
                else Gave(old(live), live, alloc.value, Alloc(length, Some(Named(tag)), Repeat(ZERO, length)))
      ensures length == 0 && memory.Some? ==> alloc == None && Took(old(live), live, memory.value)
      ensures 0 < length <= INSANE && memory.Some? ==>
                if alloc == None then Kept(old(live), live)
                else Became(old(live), live, memory.value, alloc.value, length, now)
      // where its cell has the words it stays there with its tag, and what it gains is what
      // memory held; otherwise it gets the new tag, and what it gains is zero
      ensures Reasonable(length) && memory.Some? && old(HasSlack(memory.value.block, memory.value.word, length)) ==>
                && alloc == memory && WORD * memory.value.word + length <= memory.value.block.mem.Length
                && now.tag == In(old(live), memory.value.block)[memory.value.word].tag
                && now.bytes == old(BytesAt(memory.value.block, memory.value.word, length))
      ensures Reasonable(length) && memory.Some? && alloc.Some? && !old(HasSlack(memory.value.block, memory.value.word, length)) ==>
                Resized(In(old(live), memory.value.block)[memory.value.word], now, length, Some(Named(tag)), true)
      ensures Reasonable(length) && memory.Some? && length <= In(old(live), memory.value.block)[memory.value.word].requested ==>
                alloc == memory
      // it succeeds only where its cell can grow or there is room in a block or in a new one,
      // and there it does if metadata are to be had
      ensures Reasonable(length) && memory.Some? && alloc.Some? ==>
                || old(CanGrow(memory.value.block, memory.value.word, length))
                || PagesFor(pages, length) || old(RoomSomewhere(length))
      ensures Reasonable(length) && memory.Some? && (forall k :: again(k)) && (PagesFor(pages, length) || old(RoomSomewhere(length))) ==>
                alloc.Some?
      ensures Reasonable(length) && memory.Some? && old(CanGrow(memory.value.block, memory.value.word, length)) ==> alloc.Some?
    {
      hide Valid, Resized, Gave, Took, Kept, HasSlack, CanGrow, RoomSomewhere;
      now := Alloc(0, None, []);
      if length > INSANE {
        return None, now;
      }
      if memory == None {
        alloc := SecureAlloc(tag, length, again, pages);
        return;
      }
      var p := memory.value;
      if length == 0 {
        SecureFree(memory);
        return None, now;
      }
      var k := FindBlock(p.block);
      var word;
      word, now := ReallocIn(k, Named(tag), p.word, length, poolOk);
      if word.Some? {
        return Some(Address(p.block, word.value)), now;
      }
      alloc, now := MoveTo(tag, p, length, again, pages);
    }

    // A new allocation anywhere, the bytes of the old one in it, and the old one freed.
    method MoveTo(tag: Option<string>, p: Address, length: nat, again: nat -> bool, pages: Option<PageSize>)
      returns (alloc: Option<Address>, ghost now: Alloc)
      requires Valid()
      requires IsLive(live, p) && In(live, p.block)[p.word].requested < length
      modifies this, repr
      ensures Valid() && old(repr) <= repr && fresh(repr - old(repr))
      ensures if alloc == None then Kept(old(live), live) else Became(old(live), live, p, alloc.value, length, now)
      ensures alloc.Some? ==> Resized(In(old(live), p.block)[p.word], now, length, Some(Named(tag)), true)
      ensures alloc.Some? ==> PagesFor(pages, length) || old(RoomSomewhere(length))
      ensures Reasonable(length) && (forall k :: again(k)) && (PagesFor(pages, length) || old(RoomSomewhere(length))) ==> alloc.Some?
    {
      hide Valid, Resized, Gave, Took, Kept, Became, RoomSomewhere;
      now := Alloc(0, None, []);
      ghost var h := live;
      ghost var was := live[p.block][p.word];
      var previous := AllocatedIn(p);
      alloc := SecureAlloc(tag, length, again, pages);
      if alloc == None {
        return;
      }
      var q := alloc.value;
      ghost var h1, a := live, Alloc(length, Some(Named(tag)), Repeat(ZERO, length));
      GaveKeeps(h, h1, p, q, a);
      var k := FindBlock(q.block);
      var data := ReadFrom(p, previous);
      WriteIn(k, q.word, 0, data);
      MovedResized(was, length, Some(Named(tag)));
      now := Overwritten(a, 0, was.bytes);
      StillResized(was, now, length);
      GaveMore(h, h1, live, p, q, a, now);
      ghost var h2 := live;
      SecureFree(Some(p));
      GaveThenTook(h, h2, live, p, q, length, now);
    }

    // egg_secure_validate: none of its assertions fires
    method SecureValidate() returns (ok: bool)
      requires Valid()
      ensures ok
    {
      hide Block.Valid, Sound;
      ok := true;
      var k := 0;
      while k < |all|
        invariant 0 <= k <= |all| && ok
      {
        SoundIs(all[k], live[all[k]]);
        ok := all[k].SecValidate();
        k := k + 1;
      }
    }

    // In no block does a byte that a client wrote remain outside what is live.
    lemma NoTrace(b: Block, at: nat)
      requires Valid() && b in live && at < b.mem.Length
      ensures Owned(live[b], at) || Quiet(b.mem[at])
    {
      hide Sound, Block.Allocations;
      var k := Index(b);
      SoundIs(b, live[b]);
      b.FitsNow();
      if !Owned(live[b], at) {
        NothingSurvives(b.segs, b.mem[..], b.nWords, at);
      }
    }
  }

  /** A request for 16384 bytes needs 2050 words, and the block that is made for it has
      2048. So n such requests give nothing and leave n blocks with nothing in them. */
  method UselessBlocks(n: nat) returns (blocks: AllBlocks)
    ensures fresh(blocks) && blocks.Valid() && |blocks.all| == n
    ensures forall b :: b in blocks.live ==> blocks.live[b] == map[]
  {
    hide AllBlocks.Valid, AllBlocks.RoomSomewhere;
    blocks := new AllBlocks();
    assert !blocks.RoomSomewhere(16384) by { blocks.NoRoom(16384); }
    for i := 0 to n
      invariant fresh(blocks) && fresh(blocks.repr) && blocks.Valid() && |blocks.all| == i
      invariant !blocks.RoomSomewhere(16384) && forall b :: b in blocks.live ==> blocks.live[b] == map[]
    {
      var memory := blocks.SecureAlloc(None, 16384, k => true, Some(4096));
      assert memory == None;
    }
  }
}
