// The growing buffer that values are written to and read from.
module Buffer {
  import opened Wrappers
  import opened BufferFormat

  // The allocator that is used: one that is given, or the standard one.
  function Chosen(given: Option<Allocator>, standard: Allocator): (a: Allocator)
    ensures given == None ==> a == standard
    ensures forall own :: given == Some(own) ==> a == own
  {
    if given.Some? then given.value else standard
  }

  class EggBuffer {
    var buf: array<byte>
    var len: nat
    var allocatedLen: nat
    var failures: nat
    // nothing for memory owned elsewhere, which cannot grow
    var allocator: Option<Allocator>

    ghost predicate Valid()
      reads this
    {
      len <= allocatedLen == buf.Length
    }

    ghost function Contents(): (s: bytes)
      requires Valid()
      reads this, buf
      ensures |s| == len
    {
      buf[..len]
    }

    // The size that is asked for when `wanted` octets do not fit.
    ghost function Grown(wanted: nat): nat
      reads this
    {
      2 * allocatedLen + if wanted > 2 * allocatedLen then wanted else 0
    }

    // Room for `wanted` octets: there already or to be had.
    ghost predicate Room(wanted: nat)
      reads this
    {
      wanted < allocatedLen || (allocator.Some? && allocator.value(Grown(wanted)))
    }

    // The memory is the one there was or new.
    twostate predicate SameOrNew()
      reads this
    {
      (buf == old(buf) || fresh(buf)) && allocator == old(allocator)
    }

    // egg_buffer_init_full: without memory the buffer is empty and cannot grow
    constructor InitFull(reserve: nat, given: Option<Allocator>, standard: Allocator)
      ensures Valid() && Contents() == [] && fresh(buf)
      ensures var size := if reserve == 0 then 64 else reserve;
              if Chosen(given, standard)(size)
              then failures == 0 && allocatedLen == size && allocator == Some(Chosen(given, standard))
              else failures == 1 && allocatedLen == 0 && allocator == None
    {
      var allocator := Chosen(given, standard);
      var size := if reserve == 0 then 64 else reserve;
      var got := allocator(size);
      buf := new byte[if got then size else 0](_ => 0);
      len := 0;
      allocatedLen := if got then size else 0;
      failures := if got then 0 else 1;
      this.allocator := if got then Some(allocator) else None;
    }

    // egg_buffer_init_static
    constructor InitStatic(data: array<byte>)
      ensures Valid() && Contents() == data[..] && failures == 0 && buf == data && allocator == None
    {
      buf := data;
      len := data.Length;
      allocatedLen := data.Length;
      failures := 0;
      allocator := None;
    }

    method Reset()
      requires Valid()
      modifies this, buf
      ensures Valid() && Contents() == [] && failures == 0 && SameOrNew() && allocatedLen == old(allocatedLen)
      ensures forall i :: 0 <= i < buf.Length ==> buf[i] == 0
    {
      forall i | 0 <= i < buf.Length {
        buf[i] := 0;
      }
      len := 0;
      failures := 0;
    }

    // egg_buffer_reserve: the contents stay, and there is room for `wanted` octets
    method Reserve(wanted: nat) returns (ok: bool)
      requires Valid()
      modifies this
      ensures Valid() && SameOrNew() && len == old(len) && Contents() == old(Contents())
      ensures ok <==> old(Room(wanted))
      ensures ok ==> wanted <= allocatedLen && failures == old(failures)
      ensures ok ==> allocatedLen == if wanted < old(allocatedLen) then old(allocatedLen) else old(Grown(wanted))
      ensures !ok ==> failures == old(failures) + 1 && buf == old(buf)
    {
      if wanted < allocatedLen {
        return true;
      }
      var newLen := allocatedLen * 2;
      if wanted > newLen {
        newLen := newLen + wanted;
      }
      if allocator == None {
        failures := failures + 1;
        return false;
      }
      if !allocator.value(newLen) {
        failures := failures + 1;
        return false;
      }
      ghost var contents := Contents();
      var newBuf := new byte[newLen](_ => 0);
      forall i | 0 <= i < allocatedLen {
        newBuf[i] := buf[i];
      }
      buf := newBuf;
      allocatedLen := newLen;
      assert buf[..len] == contents;
      return true;
    }

    // egg_buffer_append
    method Append(val: bytes) returns (ok: bool)
      requires Valid()
      modifies this, buf
      ensures Valid() && SameOrNew()
      ensures ok <==> old(Room(len + |val|))
      ensures Contents() == old(Contents()) + (if ok then val else [])
      ensures failures == old(failures) + if ok then 0 else 1
    {
      ghost var contents := Contents();
      ok := Reserve(len + |val|);
      if !ok {
        return;
      }
      forall i | 0 <= i < |val| {
        buf[len + i] := val[i];
      }
      assert buf[..len] == contents && buf[len..len + |val|] == val;
      assert buf[..len + |val|] == buf[..len] + buf[len..len + |val|];
      len := len + |val|;
    }

    // egg_buffer_add_byte
    method AddByte(val: byte) returns (ok: bool)
      requires Valid()
      modifies this, buf
      ensures Valid() && SameOrNew()
      ensures ok <==> old(Room(len + 1))
      ensures Contents() == old(Contents()) + (if ok then [val] else [])
      ensures failures == old(failures) + if ok then 0 else 1
    {
      ghost var contents := Contents();
      ok := Reserve(len + 1);
      if !ok {
        return;
      }
      buf[len] := val;
      len := len + 1;
      assert buf[..len] == contents + [val];
    }

    // egg_buffer_set_uint16 and set_uint32 write over octets that are there
    method SetUint16(offset: nat, val: nat) returns (ok: bool)
      requires Valid()
      modifies this`failures, buf
      ensures Valid() && (ok <==> offset + 2 <= len) && failures == old(failures) + if ok then 0 else 1
      ensures Contents() == if ok then old(Contents()[..offset]) + Encode16(val) + old(Contents()[offset + 2..]) else old(Contents())
    {
      if len < 2 || offset > len - 2 {
        failures := failures + 1;
        return false;
      }
      buf[offset + 0] := val / 0x100 % 256;
      buf[offset + 1] := val % 256;
      return true;
    }

    method SetUint32(offset: nat, val: nat) returns (ok: bool)
      requires Valid()
      modifies this`failures, buf
      ensures Valid() && (ok <==> offset + 4 <= len) && failures == old(failures) + if ok then 0 else 1
      ensures Contents() == if ok then old(Contents()[..offset]) + Encode32(val) + old(Contents()[offset + 4..]) else old(Contents())
    {
      if len < 4 || offset > len - 4 {
        failures := failures + 1;
        return false;
      }
      buf[offset + 0] := val / 0x100_0000 % 256;
      buf[offset + 1] := val / 0x1_0000 % 256;
      buf[offset + 2] := val / 0x100 % 256;
      buf[offset + 3] := val % 256;
      return true;
    }

    // egg_buffer_add_uint16 and add_uint32 lengthen the contents and set the new octets
    method AddUint16(val: nat) returns (ok: bool)
      requires Valid()
      modifies this, buf
      ensures Valid() && SameOrNew()
      ensures ok <==> old(Room(len + 2))
      ensures Contents() == old(Contents()) + (if ok then Encode16(val) else [])
      ensures failures == old(failures) + if ok then 0 else 1
    {
      ghost var contents := Contents();
      ok := Reserve(len + 2);
      if !ok {
        return;
      }
      len := len + 2;
      assert Contents()[..len - 2] == contents;
      var done := SetUint16(len - 2, val);
    }

    method AddUint32(val: nat) returns (ok: bool)
      requires Valid()
      modifies this, buf
      ensures Valid() && SameOrNew()
      ensures ok <==> old(Room(len + 4))
      ensures Contents() == old(Contents()) + (if ok then Encode32(val) else [])
      ensures failures == old(failures) + if ok then 0 else 1
    {
      ghost var contents := Contents();
      ok := Reserve(len + 4);
      if !ok {
        return;
      }
      len := len + 4;
      assert Contents()[..len - 4] == contents;
      var done := SetUint32(len - 4, val);
    }

    // Memory is never refused.
    ghost predicate AlwaysGrows()
      reads this
    {
      allocator.Some? && forall n: nat :: allocator.value(n)
    }

    method AddUint64(val: nat) returns (ok: bool)
      requires Valid()
      modifies this, buf
      ensures Valid() && SameOrNew()
      ensures old(AlwaysGrows()) ==> ok
      ensures ok ==> Contents() == old(Contents()) + Encode64(val) && failures == old(failures)
      ensures !ok ==> old(Contents()) <= Contents() <= old(Contents()) + Encode64(val) && failures == old(failures) + 1
    {
      hide Encode32;
      ok := AddUint32(val / 0x1_0000_0000 % 0x1_0000_0000);
      if !ok {
        return;
      }
      ok := AddUint32(val % 0x1_0000_0000);
    }

    // egg_buffer_add_byte_array
    method AddByteArray(val: Option<bytes>) returns (ok: bool)
      requires Valid()
      modifies this, buf
      ensures Valid() && SameOrNew()
      ensures old(AlwaysGrows()) && Fits(Block(val)) ==> ok
      ensures ok ==> Fits(Block(val)) && Contents() == old(Contents()) + EncodeBlock(val) && failures == old(failures)
      ensures !ok ==> old(Contents()) <= Contents() <= old(Contents()) + EncodeBlock(val) && failures == old(failures) + 1
    {
      hide Encode32;
      if val == None {
        ok := AddUint32(0xFFFF_FFFF);
        return;
      }
      if |val.value| >= 0x7FFF_FFFF {
        failures := failures + 1;
        return false;
      }
      ok := AddUint32(|val.value|);
      if !ok {
        return;
      }
      ghost var contents := Contents();
      ok := Append(val.value);
      assert old(Contents()) + Encode32(|val.value|) + val.value == old(Contents()) + EncodeBlock(val);
    }

    // egg_buffer_add_string; a string that is too long is not counted as a failure
    method AddString(str: Option<bytes>) returns (ok: bool)
      requires Valid() && (str.Some? ==> 0 !in str.value)
      modifies this, buf
      ensures Valid() && SameOrNew()
      ensures old(AlwaysGrows()) && Fits(Str(str)) ==> ok
      ensures ok ==> Fits(Str(str)) && Contents() == old(Contents()) + EncodeBlock(str) && failures == old(failures)
      ensures !ok ==> old(Contents()) <= Contents() <= old(Contents()) + EncodeBlock(str)
                      && failures == old(failures) + if Fits(Str(str)) then 1 else 0
    {
      hide Encode32;
      if str == None {
        ok := AddUint32(0xFFFF_FFFF);
        return;
      }
      if |str.value| >= 0x7FFF_FFFF {
        return false;
      }
      ok := AddUint32(|str.value|);
      if !ok {
        return;
      }
      ok := Append(str.value);
      assert old(Contents()) + Encode32(|str.value|) + str.value == old(Contents()) + EncodeBlock(str);
    }

    // egg_buffer_add_stringv: their number and then the strings
    method AddStringv(strv: seq<bytes>) returns (ok: bool)
      requires Valid() && forall i :: 0 <= i < |strv| ==> 0 !in strv[i]
      modifies this, buf
      ensures Valid() && SameOrNew()
      ensures old(AlwaysGrows()) && Fits(Strv(strv)) ==> ok
      ensures ok ==> Contents() == old(Contents()) + EncodeStrv(strv) && failures == old(failures)
      ensures !ok ==> old(Contents()) <= Contents() <= old(Contents()) + EncodeStrv(strv)
    {
      hide Encode32, EncodeBlock, EncodeBlocks;
      ghost var start, grows := Contents(), AlwaysGrows();
      ok := AddUint32(|strv|);
      if !ok {
        return;
      }
      var v := 0;
      assert strv[0..] == strv && Contents() + EncodeBlocks(strv) == start + EncodeStrv(strv);
      while v < |strv|
        invariant 0 <= v <= |strv| && Valid() && SameOrNew() && failures == old(failures) && AlwaysGrows() == grows
        invariant start <= Contents() && Contents() + EncodeBlocks(strv[v..]) == start + EncodeStrv(strv)
      {
        ghost var before, first, rest := Contents(), EncodeBlock(Some(strv[v])), EncodeBlocks(strv[v + 1..]);
        BlocksFrom(strv, v);
        assert before + (first + rest) == before + first + rest;
        ok := AddString(Some(strv[v]));
        if !ok {
          return;
        }
        v := v + 1;
      }
      BlocksEnd(strv[v..]);
      return true;
    }

    // ------------------------------------------------------------- reading

    lemma PartOfContents(i: nat, j: nat)
      requires Valid() && i <= j <= len
      ensures buf[i..j] == Contents()[i..j]
    {
    }

    method GetByte(offset: nat) returns (r: Read<nat>)
      requires Valid()
      modifies this`failures
      ensures r == Read8(Contents(), offset) && failures == old(failures) + if r.Got? then 0 else 1
    {
      if len < 1 || offset > len - 1 {
        failures := failures + 1;
        return Short;
      }
      return Got(buf[offset], offset + 1);
    }

    method GetUint16(offset: nat) returns (r: Read<nat>)
      requires Valid()
      modifies this`failures
      ensures r == Read16(Contents(), offset) && failures == old(failures) + if r.Got? then 0 else 1
    {
      if len < 2 || offset > len - 2 {
        failures := failures + 1;
        return Short;
      }
      PartOfContents(offset, offset + 2);
      return Got(Decode16(buf[offset..offset + 2]), offset + 2);
    }

    method GetUint32(offset: nat) returns (r: Read<nat>)
      requires Valid()
      modifies this`failures
      ensures r == Read32(Contents(), offset) && failures == old(failures) + if r.Got? then 0 else 1
    {
      if len < 4 || offset > len - 4 {
        failures := failures + 1;
        return Short;
      }
      PartOfContents(offset, offset + 4);
      return Got(Decode32(buf[offset..offset + 4]), offset + 4);
    }

    method GetUint64(offset: nat) returns (r: Read<nat>)
      requires Valid()
      modifies this`failures
      ensures r == Read64(Contents(), offset) && failures == old(failures) + if r.Got? then 0 else 1
    {
      hide Read32;
      var a := GetUint32(offset);
      if a.Short? {
        return Short;
      }
      var b := GetUint32(a.next);
      if b.Short? {
        return Short;
      }
      return Got(a.it * 0x1_0000_0000 + b.it, b.next);
    }

    method GetByteArray(offset: nat) returns (r: Read<Option<bytes>>)
      requires Valid()
      modifies this`failures
      ensures r == ReadBlock(Contents(), offset) && failures == old(failures) + if r.Got? then 0 else 1
    {
      hide Read32;
      var n := GetUint32(offset);
      if n.Short? {
        return Short;
      }
      if n.it == 0xFFFF_FFFF {
        return Got(None, n.next);
      } else if n.it >= 0x7FFF_FFFF {
        failures := failures + 1;
        return Short;
      }
      if len < n.it || n.next > len - n.it {
        failures := failures + 1;
        return Short;
      }
      PartOfContents(n.next, n.next + n.it);
      return Got(Some(buf[n.next..n.next + n.it]), n.next + n.it);
    }

    // The allocator for what is read: the one given, the buffer's, or the standard one.
    function ForReading(given: Option<Allocator>, standard: Allocator): (a: Allocator)
      reads this`allocator
      ensures given == None && allocator == None ==> a == standard
      ensures forall own :: given == Some(own) || (given == None && allocator == Some(own)) ==> a == own
    {
      if given.Some? then given.value else Chosen(allocator, standard)
    }

    // egg_buffer_get_string; only a length that is cut short counts as a failure. The
    // caller's pointer is written when there is a string, even if there is no memory for it.
    method GetString(offset: nat, given: Option<Allocator>, standard: Allocator) returns (r: Read<Option<bytes>>, wrote: bool)
      requires Valid()
      modifies this`failures
      ensures r == ReadStringInto(Contents(), offset, ForReading(given, standard))
      ensures (wrote <==> ReadString(Contents(), offset).Got?) && (r.Got? ==> wrote && r == ReadString(Contents(), offset))
      ensures r.Got? && r.it.Some? ==> ForReading(given, standard)(|r.it.value| + 1)
      ensures failures == old(failures) + if offset + 4 <= len then 0 else 1
    {
      hide Decode32;
      var n := GetUint32(offset);
      if n.Short? {
        return Short, false;
      }
      if n.it == 0xFFFF_FFFF {
        return Got(None, n.next), true;
      } else if n.it >= 0x7FFF_FFFF {
        return Short, false;
      }
      if len < n.it || n.next > len - n.it {
        return Short, false;
      }
      PartOfContents(n.next, n.next + n.it);
      if 0 in buf[n.next..n.next + n.it] {
        return Short, false;
      }
      if !ForReading(given, standard)(n.it + 1) {
        return Short, true;
      }
      return Got(Some(buf[n.next..n.next + n.it]), n.next + n.it), true;
    }

    // egg_buffer_get_stringv: `overrun` is a write past the array of pointers
    method GetStringv(offset: nat, given: Option<Allocator>, standard: Allocator)
      returns (r: Read<seq<Option<bytes>>>, overrun: bool)
      requires Valid()
      modifies this`failures
      ensures overrun <==> Overruns(Contents(), offset, ForReading(given, standard))
      ensures !overrun ==> r == ReadStrvInto(Contents(), offset, ForReading(given, standard))
      ensures r.Got? ==> r == ReadStrv(Contents(), offset)
    {
      hide Read32, ReadString, ReadStringInto, ReadStrv;
      StrvIsReadOrShort(Contents(), offset, ForReading(given, standard));
      var a := ForReading(given, standard);
      var n := GetUint32(offset);
      if n.Short? || !a(8 * Pointers(n.it)) {
        return Short, false;
      }
      var strv := new Option<bytes>[Pointers(n.it)](_ => None);
      var i, at := 0, n.next;
      assert strv[..0] == [];
      StringsAfterNone(ReadStringsInto(Contents(), at, n.it, a));
      while i < n.it
        invariant 0 <= i <= n.it && fresh(strv) && strv.Length == Pointers(n.it) && i <= strv.Length
        invariant i > 0 ==> n.it < 0xFFFF_FFFF
        invariant i == 0 ==> at == n.next
        invariant StringsAfter(strv[..i], ReadStringsInto(Contents(), at, n.it - i, a)) == ReadStringsInto(Contents(), n.next, n.it, a)
      {
        var str, wrote := GetString(at, given, standard);
        if wrote && i >= strv.Length {
          return Short, true;
        }
        if str.Short? {
          return Short, false;
        }
        StringsAfterMore(strv[..i], str.it, ReadStringsInto(Contents(), str.next, n.it - i - 1, a));
        strv[i] := str.it;
        assert strv[..i + 1] == strv[..i] + [str.it];
        i, at := i + 1, str.next;
      }
      assert strv[..i] + [] == strv[..i];
      return Got(strv[..i], at), false;
    }
  }

  lemma BlocksFrom(strv: seq<bytes>, v: nat)
    requires v < |strv|
    ensures EncodeBlocks(strv[v..]) == EncodeBlock(Some(strv[v])) + EncodeBlocks(strv[v + 1..])
  {
    hide EncodeBlock;
    assert strv[v..][1..] == strv[v + 1..];
  }

  lemma BlocksEnd(strv: seq<bytes>)
    requires strv == []
    ensures EncodeBlocks(strv) == []
  {
  }

  function StringsAfter(front: seq<Option<bytes>>, r: Read<seq<Option<bytes>>>): Read<seq<Option<bytes>>> {
    match r
    case Short => Short
    case Got(strs, next) => Got(front + strs, next)
  }

  lemma StringsAfterNone(r: Read<seq<Option<bytes>>>)
    ensures StringsAfter([], r) == r
  {
    if r.Got? {
      assert [] + r.it == r.it;
    }
  }

  lemma StringsAfterMore(front: seq<Option<bytes>>, str: Option<bytes>, r: Read<seq<Option<bytes>>>)
    ensures StringsAfter(front, StringsAfter([str], r)) == StringsAfter(front + [str], r)
  {
    if r.Got? {
      assert front + ([str] + r.it) == front + [str] + r.it;
    }
  }

  // ---------------------------------------------------- whole sequences of values

  method AddItem(buffer: EggBuffer, item: Item) returns (ok: bool)
    requires buffer.Valid() && Fits(item)
    modifies buffer, buffer.buf
    ensures buffer.Valid() && (buffer.buf == old(buffer.buf) || fresh(buffer.buf)) && buffer.allocator == old(buffer.allocator)
    ensures old(buffer.AlwaysGrows()) ==> ok
    ensures ok ==> buffer.Contents() == old(buffer.Contents()) + Encode(item) && buffer.failures == old(buffer.failures)
    ensures !ok ==> old(buffer.Contents()) <= buffer.Contents()
  {
    hide Encode16, Encode32, Encode64, EncodeBlock, EncodeStrv;
    match item
    case Byte(b) => ok := buffer.AddByte(b);
    case U16(v) => ok := buffer.AddUint16(v);
    case U32(v) => ok := buffer.AddUint32(v);
    case U64(v) => ok := buffer.AddUint64(v);
    case Block(block) => ok := buffer.AddByteArray(block);
    case Str(str) => ok := buffer.AddString(str);
    case Strv(strs) => ok := buffer.AddStringv(strs);
  }

  // Any sequence of typed values added to a buffer that can grow: what was there stays,
  // and reading the same types in order, each from the offset the one before ended at,
  // gives the same values, with each offset the one recorded when writing.
  method AddAll(buffer: EggBuffer, items: seq<Item>) returns (offsets: seq<nat>)
    requires buffer.Valid() && buffer.AlwaysGrows() && forall k :: 0 <= k < |items| ==> Fits(items[k])
    modifies buffer, buffer.buf
    ensures buffer.Valid() && buffer.failures == old(buffer.failures)
    ensures buffer.Contents() == old(buffer.Contents()) + EncodeAll(items)
    ensures |offsets| == |items| + 1 && offsets[0] == old(buffer.len) && offsets[|items|] == buffer.len
    ensures forall k, l :: 0 <= k < |items| && l == k + 1 ==> ReadsAs(buffer.Contents(), offsets[k], items[k], offsets[l])
  {
    hide Encode, EncodeAll, Fits, ReadsAs;
    offsets := [buffer.len];
    ghost var start := buffer.Contents();
    NoItems();
    assert items[..0] == [];
    var k := 0;
    while k < |items|
      invariant 0 <= k <= |items| && buffer.Valid() && buffer.AlwaysGrows() && buffer.failures == old(buffer.failures)
      invariant buffer.buf == old(buffer.buf) || fresh(buffer.buf)
      invariant buffer.Contents() == start + EncodeAll(items[..k])
      invariant |offsets| == k + 1 && forall j :: 0 <= j <= k ==> offsets[j] == |start| + Position(items, j)
    {
      var ok := AddItem(buffer, items[k]);
      MoreItems(items, k);
      assert start + EncodeAll(items[..k]) + Encode(items[k]) == start + (EncodeAll(items[..k]) + Encode(items[k]));
      k := k + 1;
      offsets := offsets + [buffer.len];
    }
    assert items[..k] == items;
    assert At(buffer.Contents(), |start|, EncodeAll(items));
    forall k, l | 0 <= k < |items| && l == k + 1 ensures ReadsAs(buffer.Contents(), offsets[k], items[k], offsets[l]) {
      AllReadBack(buffer.Contents(), |start|, items, k);
    }
  }

  lemma NoItems()
    ensures EncodeAll([]) == []
  {
  }

  lemma MoreItems(items: seq<Item>, k: nat)
    requires k < |items|
    ensures EncodeAll(items[..k + 1]) == EncodeAll(items[..k]) + Encode(items[k])
  {
    hide Encode;
    EncodeAllSplit(items[..k + 1], k);
    assert items[..k + 1][..k] == items[..k] && items[..k + 1][k..] == [items[k]];
    assert [items[k]][1..] == [];
    assert EncodeAll([items[k]]) == Encode(items[k]) + [];
  }
}
