// The wire format of a buffer: how values are laid down and how they are read.
module BufferFormat {
  import opened Wrappers

  const NONE_MARK: nat := 0xFFFF_FFFF
  const MAX_LENGTH: nat := 0x7FFF_FFFF

  // ------------------------------------------------------------- laying down

  function Encode16(v: nat): (s: bytes)
    ensures |s| == 2
  {
    [v / 0x100 % 256, v % 256]
  }

  function Encode32(v: nat): (s: bytes)
    ensures |s| == 4
  {
    [v / 0x100_0000 % 256, v / 0x1_0000 % 256, v / 0x100 % 256, v % 256]
  }

  function Encode64(v: nat): (s: bytes)
    ensures |s| == 8
  {
    Encode32(v / 0x1_0000_0000 % 0x1_0000_0000) + Encode32(v % 0x1_0000_0000)
  }

  // A block of octets with its length, or the mark for none.
  function EncodeBlock(v: Option<bytes>): bytes {
    match v
    case None => Encode32(NONE_MARK)
    case Some(s) => Encode32(|s|) + s
  }

  function EncodeBlocks(strs: seq<bytes>): bytes {
    if strs == [] then [] else EncodeBlock(Some(strs[0])) + EncodeBlocks(strs[1..])
  }

  function EncodeStrv(strs: seq<bytes>): bytes {
    Encode32(|strs|) + EncodeBlocks(strs)
  }

  // ----------------------------------------------------------------- reading

  /** A value and the offset after it, or nothing when it is not all there. */
  datatype Read<T> = Short | Got(it: T, next: nat)

  function Read8(s: bytes, offset: nat): Read<nat> {
    if offset + 1 > |s| then Short else Got(s[offset], offset + 1)
  }

  function Decode16(s: bytes): nat
    requires |s| == 2
  {
    var hi: nat, lo: nat := s[0], s[1];
    hi * 0x100 + lo
  }

  function Read16(s: bytes, offset: nat): Read<nat> {
    if offset + 2 > |s| then Short else Got(Decode16(s[offset..offset + 2]), offset + 2)
  }

  function Decode32(s: bytes): (v: nat)
    requires |s| == 4
    ensures v < 0x1_0000_0000
  {
    var a: nat, b: nat, c: nat, d: nat := s[0], s[1], s[2], s[3];
    a * 0x100_0000 + b * 0x1_0000 + c * 0x100 + d
  }

  function Read32(s: bytes, offset: nat): (r: Read<nat>)
    ensures r.Got? ==> r.it < 0x1_0000_0000 && r.next == offset + 4 <= |s|
  {
    if offset + 4 > |s| then Short else Got(Decode32(s[offset..offset + 4]), offset + 4)
  }

  function Read64(s: bytes, offset: nat): Read<nat> {
    match Read32(s, offset)
    case Short => Short
    case Got(a, next) =>
      match Read32(s, next)
      case Short => Short
      case Got(b, end) => Got(a * 0x1_0000_0000 + b, end)
  }

  function ReadBlock(s: bytes, offset: nat): (r: Read<Option<bytes>>)
    ensures r.Got? ==> offset < r.next <= |s|
  {
    match Read32(s, offset)
    case Short => Short
    case Got(len, next) =>
      if len == NONE_MARK then Got(None, next)
      else if len >= MAX_LENGTH || next + len > |s| then Short
      else Got(Some(s[next..next + len]), next + len)
  }

  // Strings have no zero octet in them.
  function ReadString(s: bytes, offset: nat): (r: Read<Option<bytes>>)
    ensures r.Got? ==> offset < r.next <= |s|
  {
    var r := ReadBlock(s, offset);
    if r.Got? && r.it.Some? && 0 in r.it.value then Short else r
  }

  function ReadStrings(s: bytes, offset: nat, n: nat): Read<seq<Option<bytes>>>
    decreases n
  {
    if n == 0 then Got([], offset)
    else
      match ReadString(s, offset)
      case Short => Short
      case Got(str, next) =>
        match ReadStrings(s, next, n - 1)
        case Short => Short
        case Got(strs, end) => Got([str] + strs, end)
  }

  function ReadStrv(s: bytes, offset: nat): Read<seq<Option<bytes>>> {
    match Read32(s, offset)
    case Short => Short
    case Got(n, next) => ReadStrings(s, next, n)
  }

  // ------------------------------------ reading into memory that may be refused

  /** Which sizes an allocator can give memory for. */
  type Allocator = nat -> bool

  // A string is copied, with a zero after it.
  function ReadStringInto(s: bytes, offset: nat, a: Allocator): Read<Option<bytes>> {
    match ReadString(s, offset)
    case Short => Short
    case Got(str, next) => if str.Some? && !a(|str.value| + 1) then Short else Got(str, next)
  }

  function ReadStringsInto(s: bytes, offset: nat, n: nat, a: Allocator): Read<seq<Option<bytes>>>
    decreases n
  {
    if n == 0 then Got([], offset)
    else
      match ReadStringInto(s, offset, a)
      case Short => Short
      case Got(str, next) =>
        match ReadStringsInto(s, next, n - 1, a)
        case Short => Short
        case Got(strs, end) => Got([str] + strs, end)
  }

  // How many pointers are asked for: one more than there are strings, in 32 bits.
  function Pointers(n: nat): nat {
    (n + 1) % 0x1_0000_0000
  }

  function ReadStrvInto(s: bytes, offset: nat, a: Allocator): Read<seq<Option<bytes>>> {
    match Read32(s, offset)
    case Short => Short
    case Got(n, next) => if a(8 * Pointers(n)) then ReadStringsInto(s, next, n, a) else Short
  }

  // No pointers are asked for, but a first string is there.
  predicate Overruns(s: bytes, offset: nat, a: Allocator) {
    match Read32(s, offset)
    case Short => false
    case Got(n, next) => n == 0xFFFF_FFFF && a(0) && ReadString(s, next).Got?
  }

  // With memory to be had, reading is what it would be anyway.
  lemma {:induction false} IntoIsRead(s: bytes, offset: nat, n: nat, a: Allocator)
    requires forall size :: a(size)
    ensures ReadStringsInto(s, offset, n, a) == ReadStrings(s, offset, n)
    decreases n
  {
    if n > 0 && ReadString(s, offset).Got? {
      IntoIsRead(s, ReadString(s, offset).next, n - 1, a);
    }
  }

  // With less of it, what is read is what it would be anyway, or nothing.
  lemma {:induction false} IntoIsReadOrShort(s: bytes, offset: nat, n: nat, a: Allocator)
    ensures ReadStringsInto(s, offset, n, a).Got? ==> ReadStringsInto(s, offset, n, a) == ReadStrings(s, offset, n)
    decreases n
  {
    hide ReadString;
    if n > 0 && ReadString(s, offset).Got? {
      IntoIsReadOrShort(s, ReadString(s, offset).next, n - 1, a);
    }
  }

  lemma StrvIsReadOrShort(s: bytes, offset: nat, a: Allocator)
    ensures ReadStrvInto(s, offset, a).Got? ==> ReadStrvInto(s, offset, a) == ReadStrv(s, offset)
  {
    hide ReadStrings, ReadStringsInto;
    if Read32(s, offset).Got? {
      IntoIsReadOrShort(s, offset + 4, Read32(s, offset).it, a);
    }
  }

  // A vector of strings that was written is read without an overrun.
  lemma WrittenIsRead(s: bytes, offset: nat, strs: seq<bytes>, a: Allocator)
    requires At(s, offset, EncodeStrv(strs)) && Fits(Strv(strs)) && |strs| < 0xFFFF_FFFF && forall size :: a(size)
    ensures !Overruns(s, offset, a)
    ensures ReadStrvInto(s, offset, a) == Got(AllSome(strs), offset + |EncodeStrv(strs)|)
  {
    hide Encode32, Read32, EncodeBlocks, AllSome;
    ItemReadsBack(s, offset, Strv(strs));
    AtParts(s, offset, Encode32(|strs|), EncodeBlocks(strs));
    Reads32(s, offset, |strs|);
    IntoIsRead(s, offset + 4, |strs|, a);
  }

  // -------------------------------------------------------------- round trip

  /** One typed value. */
  datatype Item =
    | Byte(b: byte)
    | U16(v: nat)
    | U32(v: nat)
    | U64(v: nat)
    | Block(block: Option<bytes>)
    | Str(str: Option<bytes>)
    | Strv(strs: seq<bytes>)

  // The values each type can have.
  predicate Fits(item: Item) {
    match item
    case Byte(_) => true
    case U16(v) => v < 0x1_0000
    case U32(v) => v < 0x1_0000_0000
    case U64(v) => v < 0x1_0000_0000_0000_0000
    case Block(block) => block.Some? ==> |block.value| < MAX_LENGTH
    case Str(str) => str.Some? ==> |str.value| < MAX_LENGTH && 0 !in str.value
    case Strv(strs) => |strs| < 0x1_0000_0000 && forall i :: 0 <= i < |strs| ==> |strs[i]| < MAX_LENGTH && 0 !in strs[i]
  }

  function Encode(item: Item): bytes {
    match item
    case Byte(b) => [b]
    case U16(v) => Encode16(v)
    case U32(v) => Encode32(v)
    case U64(v) => Encode64(v)
    case Block(block) => EncodeBlock(block)
    case Str(str) => EncodeBlock(str)
    case Strv(strs) => EncodeStrv(strs)
  }

  function EncodeAll(items: seq<Item>): bytes {
    if items == [] then [] else Encode(items[0]) + EncodeAll(items[1..])
  }

  function AllSome(strs: seq<bytes>): seq<Option<bytes>> {
    if strs == [] then [] else [Some(strs[0])] + AllSome(strs[1..])
  }

  // Reading a value of the same type at the offset gives this item and the next offset.
  ghost predicate ReadsAs(s: bytes, offset: nat, item: Item, next: nat) {
    match item
    case Byte(b) => Read8(s, offset) == Got(b, next)
    case U16(v) => Read16(s, offset) == Got(v, next)
    case U32(v) => Read32(s, offset) == Got(v, next)
    case U64(v) => Read64(s, offset) == Got(v, next)
    case Block(block) => ReadBlock(s, offset) == Got(block, next)
    case Str(str) => ReadString(s, offset) == Got(str, next)
    case Strv(strs) => ReadStrv(s, offset) == Got(AllSome(strs), next)
  }

  lemma Decodes32(v: nat)
    requires v < 0x1_0000_0000
    ensures Decode32(Encode32(v)) == v
  {
    var q := v / 256;
    var r := q / 256;
    assert v / 0x1_0000 == r && v / 0x100_0000 == r / 256;
    assert v == q * 256 + v % 256 && q == r * 256 + q % 256 && r == r / 256 * 256 + r % 256;
  }

  ghost predicate At(s: bytes, offset: nat, part: bytes) {
    offset + |part| <= |s| && s[offset..offset + |part|] == part
  }

  lemma AtParts(s: bytes, offset: nat, a: bytes, b: bytes)
    requires At(s, offset, a + b)
    ensures At(s, offset, a) && At(s, offset + |a|, b)
  {
    var all := s[offset..offset + |a| + |b|];
    assert s[offset..offset + |a|] == all[..|a|];
    assert s[offset + |a|..offset + |a| + |b|] == all[|a|..];
  }

  lemma Reads32(s: bytes, offset: nat, v: nat)
    requires At(s, offset, Encode32(v)) && v < 0x1_0000_0000
    ensures Read32(s, offset) == Got(v, offset + 4)
  {
    hide Encode32, Decode32;
    Decodes32(v);
  }

  lemma Reads64(s: bytes, offset: nat, v: nat)
    requires At(s, offset, Encode64(v)) && v < 0x1_0000_0000_0000_0000
    ensures Read64(s, offset) == Got(v, offset + 8)
  {
    hide Encode32, Read32, At;
    var a, b := v / 0x1_0000_0000 % 0x1_0000_0000, v % 0x1_0000_0000;
    AtParts(s, offset, Encode32(a), Encode32(b));
    Reads32(s, offset, a);
    Reads32(s, offset + 4, b);
  }

  lemma ReadsBlock(s: bytes, offset: nat, v: Option<bytes>)
    requires At(s, offset, EncodeBlock(v)) && (v.Some? ==> |v.value| < MAX_LENGTH)
    ensures ReadBlock(s, offset) == Got(v, offset + |EncodeBlock(v)|)
  {
    hide Encode32, Read32;
    if v.Some? {
      AtParts(s, offset, Encode32(|v.value|), v.value);
      Reads32(s, offset, |v.value|);
    } else {
      Reads32(s, offset, NONE_MARK);
    }
  }

  lemma {:induction false} ReadsBlocks(s: bytes, offset: nat, strs: seq<bytes>)
    requires At(s, offset, EncodeBlocks(strs))
    requires forall i :: 0 <= i < |strs| ==> |strs[i]| < MAX_LENGTH && 0 !in strs[i]
    ensures ReadStrings(s, offset, |strs|) == Got(AllSome(strs), offset + |EncodeBlocks(strs)|)
    decreases |strs|
  {
    hide EncodeBlock, ReadBlock, At;
    if strs != [] {
      AtParts(s, offset, EncodeBlock(Some(strs[0])), EncodeBlocks(strs[1..]));
      ReadsBlock(s, offset, Some(strs[0]));
      ReadsBlocks(s, offset + |EncodeBlock(Some(strs[0]))|, strs[1..]);
    }
  }

  lemma ItemReadsBack(s: bytes, offset: nat, item: Item)
    requires Fits(item) && At(s, offset, Encode(item))
    ensures ReadsAs(s, offset, item, offset + |Encode(item)|)
  {
    hide Encode32, Encode64, EncodeBlock, EncodeBlocks, Read32, Read64, ReadBlock, ReadStrings, AllSome;
    match item
    case Byte(b) => assert s[offset] == s[offset..offset + 1][0];
    case U16(v) => assert Decode16(Encode16(v)) == v;
    case U32(v) => Reads32(s, offset, v);
    case U64(v) => Reads64(s, offset, v);
    case Block(block) => ReadsBlock(s, offset, block);
    case Str(str) => ReadsBlock(s, offset, str);
    case Strv(strs) =>
      AtParts(s, offset, Encode32(|strs|), EncodeBlocks(strs));
      Reads32(s, offset, |strs|);
      ReadsBlocks(s, offset + 4, strs);
  }

  // ------------------------------------------------------- only what was written

  lemma AtJoin(s: bytes, offset: nat, a: bytes, b: bytes)
    requires At(s, offset, a) && At(s, offset + |a|, b)
    ensures At(s, offset, a + b)
  {
    assert s[offset..offset + |a| + |b|] == s[offset..offset + |a|] + s[offset + |a|..offset + |a| + |b|];
  }

  lemma {:induction false} Encodes32(s: bytes)
    requires |s| == 4
    ensures Encode32(Decode32(s)) == s
  {
    var a: nat, b: nat, c: nat, d: nat := s[0], s[1], s[2], s[3];
    var v := Decode32(s);
    assert v == ((a * 256 + b) * 256 + c) * 256 + d;
    assert v / 256 == (a * 256 + b) * 256 + c && v % 256 == d;
    assert v / 256 / 256 == a * 256 + b && v / 256 % 256 == c;
    assert v / 0x1_0000 == v / 256 / 256 && v / 0x100_0000 == v / 256 / 256 / 256;
  }

  lemma Read32IsWritten(s: bytes, offset: nat)
    requires Read32(s, offset).Got?
    ensures At(s, offset, Encode32(Read32(s, offset).it))
  {
    hide Encode32, Decode32;
    Encodes32(s[offset..offset + 4]);
  }

  lemma Read64IsWritten(s: bytes, offset: nat)
    requires Read64(s, offset).Got?
    ensures var r := Read64(s, offset); r.it < 0x1_0000_0000_0000_0000 && At(s, offset, Encode64(r.it)) && r.next == offset + 8
  {
    hide Encode32, Read32, At;
    var a := Read32(s, offset).it;
    var b := Read32(s, offset + 4).it;
    Read32IsWritten(s, offset);
    Read32IsWritten(s, offset + 4);
    AtJoin(s, offset, Encode32(a), Encode32(b));
    var v := a * 0x1_0000_0000 + b;
    assert v / 0x1_0000_0000 == a && v % 0x1_0000_0000 == b;
  }

  lemma ReadBlockIsWritten(s: bytes, offset: nat)
    requires ReadBlock(s, offset).Got?
    ensures var r := ReadBlock(s, offset);
            Fits(Block(r.it)) && At(s, offset, EncodeBlock(r.it)) && r.next == offset + |EncodeBlock(r.it)|
  {
    hide Encode32, Read32;
    var r := ReadBlock(s, offset);
    Read32IsWritten(s, offset);
    if r.it.Some? {
      AtJoin(s, offset, Encode32(|r.it.value|), r.it.value);
    }
  }

  lemma {:induction false} ReadStringsIsWritten(s: bytes, offset: nat, strs: seq<bytes>, next: nat)
    requires ReadStrings(s, offset, |strs|) == Got(AllSome(strs), next) && offset <= |s|
    ensures At(s, offset, EncodeBlocks(strs)) && next == offset + |EncodeBlocks(strs)|
    ensures forall i :: 0 <= i < |strs| ==> |strs[i]| < MAX_LENGTH && 0 !in strs[i]
    decreases |strs|
  {
    hide EncodeBlock, ReadBlock;
    if strs != [] {
      var r := ReadString(s, offset);
      ReadBlockIsWritten(s, offset);
      var rest := ReadStrings(s, r.next, |strs| - 1);
      assert [r.it] + rest.it == [Some(strs[0])] + AllSome(strs[1..]);
      SameHead(r.it, rest.it, Some(strs[0]), AllSome(strs[1..]));
      ReadStringsIsWritten(s, r.next, strs[1..], next);
      AtJoin(s, offset, EncodeBlock(Some(strs[0])), EncodeBlocks(strs[1..]));
      assert forall i :: 0 < i < |strs| ==> strs[i] == strs[1..][i - 1];
    }
  }

  lemma SameHead<T>(x: T, xs: seq<T>, y: T, ys: seq<T>)
    requires [x] + xs == [y] + ys
    ensures x == y && xs == ys
  {
    assert ([x] + xs)[0] == x && ([y] + ys)[0] == y;
    assert ([x] + xs)[1..] == xs && ([y] + ys)[1..] == ys;
  }

  lemma {:induction false} AllSomeLength(strs: seq<bytes>)
    ensures |AllSome(strs)| == |strs|
  {
    if strs != [] {
      AllSomeLength(strs[1..]);
    }
  }

  lemma {:induction false} ReadStringsLength(s: bytes, offset: nat, n: nat)
    ensures ReadStrings(s, offset, n).Got? ==> |ReadStrings(s, offset, n).it| == n
    decreases n
  {
    hide ReadString;
    if n > 0 && ReadString(s, offset).Got? {
      ReadStringsLength(s, ReadString(s, offset).next, n - 1);
    }
  }

  /** A value is read at an offset exactly when it is one of its type and stands there as it
      would have been written. */
  lemma ItemReadIff(s: bytes, offset: nat, item: Item, next: nat)
    ensures ReadsAs(s, offset, item, next) <==>
              Fits(item) && At(s, offset, Encode(item)) && next == offset + |Encode(item)|
  {
    hide Encode32, Encode64, EncodeBlock, EncodeBlocks, Read32, Read64, ReadBlock, ReadStrings, AllSome, ReadsAs, Fits, Encode;
    if Fits(item) && At(s, offset, Encode(item)) && next == offset + |Encode(item)| {
      ItemReadsBack(s, offset, item);
    }
    if ReadsAs(s, offset, item, next) {
      ReadIsWritten(s, offset, item, next);
    }
  }

  lemma ReadIsWritten(s: bytes, offset: nat, item: Item, next: nat)
    requires ReadsAs(s, offset, item, next)
    ensures Fits(item) && At(s, offset, Encode(item)) && next == offset + |Encode(item)|
  {
    hide Encode32, Encode64, EncodeBlock, EncodeBlocks, Read32, Read64, ReadBlock, ReadStrings, AllSome, Decode16;
    match item
    case Byte(b) => assert s[offset..offset + 1] == [b];
    case U16(v) => Encodes16(s[offset..offset + 2]);
    case U32(v) => Read32IsWritten(s, offset);
    case U64(v) => Read64IsWritten(s, offset);
    case Block(block) => ReadBlockIsWritten(s, offset);
    case Str(str) => ReadBlockIsWritten(s, offset);
    case Strv(strs) =>
      Read32IsWritten(s, offset);
      ReadStringsLength(s, offset + 4, Read32(s, offset).it);
      AllSomeLength(strs);
      ReadStringsIsWritten(s, offset + 4, strs, next);
      AtJoin(s, offset, Encode32(|strs|), EncodeBlocks(strs));
  }

  lemma Encodes16(s: bytes)
    requires |s| == 2
    ensures Encode16(Decode16(s)) == s && Decode16(s) < 0x1_0000
  {
  }

  // Where the k-th item was written.
  function Position(items: seq<Item>, k: nat): nat
    requires k <= |items|
  {
    |EncodeAll(items[..k])|
  }

  lemma {:induction false} EncodeAllSplit(items: seq<Item>, k: nat)
    requires k <= |items|
    ensures EncodeAll(items) == EncodeAll(items[..k]) + EncodeAll(items[k..])
  {
    hide Encode;
    if k == 0 {
      assert items[0..] == items && items[..0] == [];
    } else {
      EncodeAllSplit(items[1..], k - 1);
      assert items[..k][1..] == items[1..][..k - 1] && items[1..][k - 1..] == items[k..];
    }
  }

  // Whatever sequence of typed values was written after `front`, each one is read back
  // where it was written, and the next offset is where the one after it was written.
  lemma AllReadBack(s: bytes, front: nat, items: seq<Item>, k: nat)
    requires At(s, front, EncodeAll(items)) && k < |items| && Fits(items[k])
    ensures ReadsAs(s, front + Position(items, k), items[k], front + Position(items, k + 1))
  {
    hide Encode, ReadsAs, At, EncodeAll, Fits;
    EncodeAllSplit(items, k);
    AtParts(s, front, EncodeAll(items[..k]), EncodeAll(items[k..]));
    NextPosition(items, k);
    AtParts(s, front + Position(items, k), Encode(items[k]), EncodeAll(items[k + 1..]));
    ItemReadsBack(s, front + Position(items, k), items[k]);
  }

  lemma NextPosition(items: seq<Item>, k: nat)
    requires k < |items|
    ensures Position(items, k + 1) == Position(items, k) + |Encode(items[k])|
    ensures EncodeAll(items[k..]) == Encode(items[k]) + EncodeAll(items[k + 1..])
  {
    hide Encode;
    EncodeAllSplit(items[..k + 1], k);
    assert items[..k + 1][..k] == items[..k] && items[..k + 1][k..] == [items[k]];
    assert [items[k]][1..] == [] && items[k..][1..] == items[k + 1..];
  }
}
