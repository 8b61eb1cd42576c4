// Sorting the elements of a SET OF before they are written: the records are relinked in the
// order of their octets. The list ends after that only if its last record already was the
// greatest.
module Asn1SetOf {
  import opened Wrappers

  /** A record in the list of children of another one; only its own octets matter here. */
  class Record {
    const der: bytes
    var next: Record?

    constructor (der: bytes)
      ensures this.der == der && next == null
    {
      this.der := der;
      next := null;
    }
  }

  // g_bytes_compare: the first is less
  predicate Less(a: bytes, b: bytes) {
    b != [] && (a == [] || a[0] < b[0] || (a[0] == b[0] && Less(a[1..], b[1..])))
  }

  // The first octet in which they differ decides, and a beginning is less than the whole.
  lemma {:induction false} LessIff(a: bytes, b: bytes)
    ensures Less(a, b) <==>
              exists k :: 0 <= k <= |a| && k < |b| && a[..k] == b[..k] && (k == |a| || a[k] < b[k])
  {
    if Less(a, b) {
      if a == [] || a[0] < b[0] {
        assert a[..0] == b[..0];
      } else {
        LessIff(a[1..], b[1..]);
        var k :| 0 <= k <= |a| - 1 && k < |b| - 1 && a[1..][..k] == b[1..][..k] && (k == |a| - 1 || a[1..][k] < b[1..][k]);
        assert a[..k + 1] == [a[0]] + a[1..][..k] && b[..k + 1] == [b[0]] + b[1..][..k];
      }
    }
    if k :| 0 <= k <= |a| && k < |b| && a[..k] == b[..k] && (k == |a| || a[k] < b[k]) {
      if k > 0 {
        assert a[..k][0] == a[0] && b[..k][0] == b[0];
        assert a[1..][..k - 1] == a[..k][1..] && b[1..][..k - 1] == b[..k][1..];
        LessIff(a[1..], b[1..]);
      }
    }
  }

  lemma {:induction false} LessTrans(a: bytes, b: bytes, c: bytes)
    requires !Less(b, a) && !Less(c, b)
    ensures !Less(c, a)
  {
    if a != [] && b != [] && c != [] && a[0] == b[0] == c[0] {
      LessTrans(a[1..], b[1..], c[1..]);
    }
  }

  lemma {:induction false} LessOneWay(a: bytes, b: bytes)
    requires Less(a, b)
    ensures !Less(b, a)
  {
    if a != [] && a[0] == b[0] {
      LessOneWay(a[1..], b[1..]);
    }
  }

  // g_list_sort is a stable sort: equal elements stay in the order they had.
  function Inserted(x: Record, s: seq<Record>): (r: seq<Record>)
    ensures multiset(r) == multiset(s) + multiset{x}
  {
    if s == [] then [x]
    else if Less(s[0].der, x.der) then
      assert s == [s[0]] + s[1..];
      [s[0]] + Inserted(x, s[1..])
    else [x] + s
  }

  function SortedList(s: seq<Record>): (r: seq<Record>)
    ensures multiset(r) == multiset(s)
  {
    if s == [] then []
    else
      assert s == [s[0]] + s[1..];
      Inserted(s[0], SortedList(s[1..]))
  }

  ghost predicate InOrder(s: seq<Record>) {
    forall i, j :: 0 <= i < j < |s| ==> !Less(s[j].der, s[i].der)
  }

  lemma {:induction false} InsertedInOrder(x: Record, s: seq<Record>)
    requires InOrder(s)
    ensures InOrder(Inserted(x, s))
  {
    hide Less;
    if s == [] {
    } else if Less(s[0].der, x.der) {
      var rest := Inserted(x, s[1..]);
      InsertedInOrder(x, s[1..]);
      forall j | 0 <= j < |rest| ensures !Less(rest[j].der, s[0].der) {
        assert rest[j] in multiset(rest);
        if rest[j] == x {
          LessOneWay(s[0].der, x.der);
        } else {
          assert rest[j] in s[1..];
        }
      }
    } else {
      forall j | 0 <= j < |s| ensures !Less(s[j].der, x.der) {
        if j > 0 {
          LessTrans(x.der, s[0].der, s[j].der);
        }
      }
    }
  }

  lemma {:induction false} SortedInOrder(s: seq<Record>)
    ensures InOrder(SortedList(s))
  {
    if s != [] {
      SortedInOrder(s[1..]);
      InsertedInOrder(s[0], SortedList(s[1..]));
    }
  }

  // An element ends up last exactly when all others are less.
  lemma {:induction false} InsertedLast(x: Record, s: seq<Record>)
    requires x !in s
    ensures Inserted(x, s) != []
    ensures Inserted(x, s)[|Inserted(x, s)| - 1] == x <==> forall i :: 0 <= i < |s| ==> Less(s[i].der, x.der)
  {
    hide Less;
    if s != [] {
      if Less(s[0].der, x.der) {
        InsertedLast(x, s[1..]);
        assert forall i :: 0 < i < |s| ==> s[i] == s[1..][i - 1];
      } else {
        assert ([x] + s)[|s|] == s[|s| - 1];
      }
    }
  }

  // The list of children: each record once, and an end.
  ghost predicate Linked(s: seq<Record>)
    reads s
  {
    && Distinct(s) && s != []
    && (forall i, j :: 0 <= i < |s| && j == i + 1 && j < |s| ==> s[i].next == s[j])
    && s[|s| - 1].next == null
  }

  // No walk from a record of the list to the next one ever ends or leaves the list.
  ghost predicate Endless(s: seq<Record>)
    reads s
  {
    forall i :: 0 <= i < |s| ==> s[i].next != null && s[i].next in s
  }

  // The record that was added last has more than any other, by the order of octets.
  predicate LastIsGreatest(s: seq<Record>) {
    forall i :: 0 <= i < |s| - 1 ==> Less(s[i].der, s[|s| - 1].der)
  }

  function Sorted(s: seq<Record>): seq<Record> {
    SortedList(Reverse(s))
  }

  lemma SortedFacts(s: seq<Record>)
    requires Distinct(s) && s != []
    ensures var t := Sorted(s);
            && InOrder(t) && multiset(t) == multiset(s) && |t| == |s| && Distinct(t)
            && (t[|t| - 1] == s[|s| - 1] <==> LastIsGreatest(s))
  {
    hide Reverse, SortedList, Less, InOrder;
    var t := Sorted(s);
    SameBag(s, Reverse(s));
    SortedInOrder(Reverse(s));
    assert |multiset(t)| == |multiset(s)|;
    BagDistinct(s, t);
    SortedLast(s);
  }

  lemma SortedLast(s: seq<Record>)
    requires Distinct(s) && s != []
    ensures var t := Sorted(s); t != [] && (t[|t| - 1] == s[|s| - 1] <==> LastIsGreatest(s))
  {
    hide Reverse, Less, InOrder, SortedList, Inserted, Distinct;
    var r := Reverse(s);
    ReverseAt(s);
    var x, rest := r[0], SortedList(r[1..]);
    SortedFirst(r);
    Others(s, r, rest);
    InsertedLast(x, rest);
    AllLess(s, rest, x);
  }

  lemma SortedFirst(r: seq<Record>)
    requires r != []
    ensures SortedList(r) == Inserted(r[0], SortedList(r[1..]))
    ensures multiset(SortedList(r[1..])) == multiset(r[1..])
  {
  }

  lemma AllLess(s: seq<Record>, rest: seq<Record>, x: Record)
    requires s != [] && x == s[|s| - 1]
    requires forall i :: 0 <= i < |rest| ==> exists k :: 0 <= k < |s| - 1 && rest[i] == s[k]
    requires forall i :: 0 <= i < |s| - 1 ==> s[i] in rest
    ensures LastIsGreatest(s) <==> forall i :: 0 <= i < |rest| ==> Less(rest[i].der, x.der)
  {
    hide Less;
    if LastIsGreatest(s) {
      forall i | 0 <= i < |rest| ensures Less(rest[i].der, x.der) {
        var k :| 0 <= k < |s| - 1 && rest[i] == s[k];
      }
    } else {
      var i :| 0 <= i < |s| - 1 && !Less(s[i].der, x.der);
      assert s[i] in rest;
    }
  }

  // All but the last of the children.
  lemma Others(s: seq<Record>, r: seq<Record>, rest: seq<Record>)
    requires Distinct(s) && s != [] && |r| == |s| && multiset(rest) == multiset(r[1..])
    requires forall i :: 0 <= i < |s| ==> r[i] == s[|s| - 1 - i]
    ensures r[0] == s[|s| - 1] && r[0] !in rest
    ensures forall i :: 0 <= i < |rest| ==> exists k :: 0 <= k < |s| - 1 && rest[i] == s[k]
    ensures forall i :: 0 <= i < |s| - 1 ==> s[i] in rest
  {
    forall i | 0 <= i < |rest| ensures exists k :: 0 <= k < |s| - 1 && rest[i] == s[k] {
      assert rest[i] in multiset(rest);
      var k :| 0 <= k < |r| - 1 && r[1..][k] == rest[i];
      assert rest[i] == s[|s| - 2 - k];
    }
    forall i | 0 <= i < |s| - 1 ensures s[i] in rest {
      assert r[1..][|s| - 2 - i] == s[i] && s[i] in multiset(r[1..]);
    }
  }

  lemma {:induction false} SameBag(s: seq<Record>, r: seq<Record>)
    requires r == Reverse(s)
    ensures multiset(r) == multiset(s)
  {
    if s != [] {
      SameBag(s[1..], Reverse(s[1..]));
      assert s == [s[0]] + s[1..];
    }
  }

  lemma BagDistinct(s: seq<Record>, t: seq<Record>)
    requires Distinct(s) && multiset(s) == multiset(t)
    ensures Distinct(t)
  {
    forall i, j | 0 <= i < j < |t| ensures t[i] != t[j] {
      if t[i] == t[j] {
        assert t == t[..i] + [t[i]] + t[i + 1..j] + [t[j]] + t[j + 1..];
        assert multiset(t)[t[i]] >= 2;
        OnceOnly(s, t[i]);
      }
    }
  }

  lemma {:induction false} OnceOnly(s: seq<Record>, x: Record)
    requires Distinct(s)
    ensures multiset(s)[x] <= 1
  {
    if s != [] {
      assert s == [s[0]] + s[1..];
      OnceOnly(s[1..], x);
    }
  }

  // atlv_sort_perform, for a record whose children are to be sorted: the order is that of
  // the octets, but the list ends only if the last child was the greatest already
  method AtlvSortPerform(child: Record, ghost s: seq<Record>) returns (first: Record)
    requires Linked(s) && child == s[0]
    modifies s`next
    ensures |Sorted(s)| == |s| && first == Sorted(s)[0]
    ensures InOrder(Sorted(s)) && multiset(Sorted(s)) == multiset(s)
    ensures if LastIsGreatest(s) then Linked(Sorted(s)) else Endless(s)
  {
    hide Reverse, SortedList, Less, InOrder, Distinct, Sorted, Linked, Endless, LastIsGreatest;
    IsDistinct(s);
    SortedFacts(s);
    ghost var t := Sorted(s);
    InList(s, t);
    EndOf(s, t[|t| - 1]);
    ghost var end := t[|t| - 1].next;
    first := Relink(child, s, end);
    if LastIsGreatest(s) {
      IsLinked(t);
    } else {
      NoEnd(s, t);
    }
  }

  lemma IsDistinct(s: seq<Record>)
    requires Linked(s)
    ensures Distinct(s) && s != []
  {
  }

  lemma IsLinked(t: seq<Record>)
    requires Distinct(t) && t != [] && t[|t| - 1].next == null
    requires forall i, j :: 0 <= i < |t| && j == i + 1 && j < |t| ==> t[i].next == t[j]
    ensures Linked(t)
  {
  }

  lemma NoEnd(s: seq<Record>, t: seq<Record>)
    requires t != [] && t[|t| - 1].next != null && t[|t| - 1].next in s
    requires (forall i :: 0 <= i < |t| ==> t[i] in s) && (forall i :: 0 <= i < |s| ==> s[i] in t)
    requires forall i, j :: 0 <= i < |t| && j == i + 1 && j < |t| ==> t[i].next == t[j]
    ensures Endless(s)
  {
    forall i | 0 <= i < |s| ensures s[i].next != null && s[i].next in s {
      var j :| 0 <= j < |t| && t[j] == s[i];
      assert j < |t| - 1 ==> t[j].next == t[j + 1];
    }
  }

  // Where the list went on after x.
  lemma EndOf(s: seq<Record>, x: Record)
    requires Linked(s) && x in s
    ensures x.next == null <==> x == s[|s| - 1]
    ensures x.next != null ==> x.next in s
  {
    var i :| 0 <= i < |s| && s[i] == x;
    assert i < |s| - 1 ==> s[i].next == s[i + 1];
    DistinctLast(s, i);
  }

  lemma DistinctLast(s: seq<Record>, i: nat)
    requires Distinct(s) && i < |s|
    ensures i < |s| - 1 ==> s[i] != s[|s| - 1]
  {
  }

  method Relink(child: Record, ghost s: seq<Record>, ghost end: Record?) returns (first: Record)
    requires Linked(s) && child == s[0] && Sorted(s) != [] && Distinct(Sorted(s))
    requires forall i :: 0 <= i < |Sorted(s)| ==> Sorted(s)[i] in s
    requires Sorted(s)[|Sorted(s)| - 1].next == end
    modifies s`next
    ensures first == Sorted(s)[0]
    ensures forall i, j :: 0 <= i < |Sorted(s)| && j == i + 1 && j < |Sorted(s)| ==> Sorted(s)[i].next == Sorted(s)[j]
    ensures Sorted(s)[|Sorted(s)| - 1].next == end
  {
    hide Reverse, SortedList, Less, InOrder;
    var pairs := Prepended(child, s);
    pairs := SortedList(pairs);
    first := pairs[0];
    var last := pairs[0];
    var l := 1;
    while l < |pairs|
      invariant 1 <= l <= |pairs| && last == pairs[l - 1]
      invariant forall i, j :: 0 <= i < l && j == i + 1 && j < l ==> pairs[i].next == pairs[j]
      invariant pairs[|pairs| - 1].next == end
    {
      last.next := pairs[l];
      last := pairs[l];
      l := l + 1;
    }
  }

  // The list of all children, the last one first.
  method Prepended(child: Record, ghost s: seq<Record>) returns (pairs: seq<Record>)
    requires Linked(s) && child == s[0]
    ensures pairs == Reverse(s)
  {
    hide Reverse;
    pairs := [];
    var ctlv: Record? := child;
    ghost var k := 0;
    ReverseNone();
    while ctlv != null
      invariant 0 <= k <= |s| && ctlv == (if k < |s| then s[k] else null) && pairs == Reverse(s[..k])
      decreases |s| - k
    {
      ReverseSnoc(s[..k], s[k]);
      assert s[..k + 1] == s[..k] + [s[k]];
      pairs := [ctlv] + pairs;
      ctlv := ctlv.next;
      k := k + 1;
    }
    assert s[..|s|] == s;
  }

  lemma ReverseNone()
    ensures Reverse<Record>([]) == []
  {
  }

  lemma InList(s: seq<Record>, t: seq<Record>)
    requires multiset(t) == multiset(s)
    ensures forall i :: 0 <= i < |t| ==> t[i] in s
    ensures forall i :: 0 <= i < |s| ==> s[i] in t
  {
    forall i | 0 <= i < |t| ensures t[i] in s {
      assert t[i] in multiset(t);
    }
    forall i | 0 <= i < |s| ensures s[i] in t {
      assert s[i] in multiset(s);
    }
  }

  /** The INTEGERs 1, 8 and 3, in the order they were added. */
  method EndlessExample() returns (s: seq<Record>)
    ensures |s| == 3 && s[0].der == [2, 1, 1] && s[1].der == [2, 1, 8] && s[2].der == [2, 1, 3]
    ensures Endless(s)
  {
    hide Sorted, Endless, InOrder;
    var a := new Record([2, 1, 1]);
    var b := new Record([2, 1, 8]);
    var c := new Record([2, 1, 3]);
    a.next := b;
    b.next := c;
    s := [a, b, c];
    NotLess();
    assert !LastIsGreatest(s) by {
      assert s[1] == b && s[2] == c;
    }
    var first := AtlvSortPerform(a, s);
  }

  lemma NotLess()
    ensures !Less([2, 1, 8], [2, 1, 3])
  {
    assert [2, 1, 8][1..] == [1, 8] && [2, 1, 3][1..] == [1, 3];
    assert [1, 8][1..] == [8] && [1, 3][1..] == [3];
    assert !Less([8], [3]) && !Less([1, 8], [1, 3]);
  }
}
