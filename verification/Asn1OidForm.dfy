// Which octets an object identifier has and which text octets give, after ITU-T X.690 section
// 8.19: said of the octets and of the text.
module Asn1OidForm {
  import opened Wrappers
  import opened Numbers
  import opened Asn1Header
  import opened Asn1Oid

  // The octets of an arc: groups of seven bits, all but the last of them marked.
  ghost predicate Piece(p: bytes) {
    p != [] && forall i :: 0 <= i < |p| ==> (p[i] >= 128 <==> i < |p| - 1)
  }

  // ... the first of them not empty.
  ghost predicate ArcPiece(p: bytes, n: nat) {
    Piece(p) && p[0] != 0x80 && Value(128, Groups(p)) == n
  }

  function Concat(ps: seq<bytes>): bytes {
    if ps == [] then [] else ps[0] + Concat(ps[1..])
  }

  ghost predicate ArcPieces(ps: seq<bytes>, ns: seq<nat>) {
    |ps| == |ns| && forall i :: 0 <= i < |ps| ==> ArcPiece(ps[i], ns[i])
  }

  // -------------------------------------------------------------------- writing

  lemma {:induction false} ArcPieceIff(p: bytes, n: nat)
    ensures ArcPiece(p, n) <==> p == Base128(n)
  {
    hide Value;
    var d := Digits(128, n);
    DigitsValue(128, n);
    if ArcPiece(p, n) {
      var g := Groups(p);
      MarkedGroups(p);
      if n == 0 {
        ZeroPiece(p);
      } else if g[0] == 0 {
        assert |p| == 1;
        OneGroup(g);
      } else {
        MinimalUnique(128, g, d);
      }
    }
    if p == Base128(n) {
      if n == 0 {
        assert Groups([0]) == [0];
        OneGroup([0]);
      } else {
        MarkedPiece(d);
      }
    }
  }

  lemma OneGroup(g: seq<nat>)
    ensures |g| == 1 ==> Value(128, g) == g[0]
  {
    if |g| == 1 {
      assert g == [] + [g[0]];
      ValueSnoc(128, [], g[0]);
    }
  }

  // Only one octet stands for zero.
  lemma ZeroPiece(p: bytes)
    requires ArcPiece(p, 0)
    ensures p == [0]
  {
    var g := Groups(p);
    if g[0] != 0 {
      MinimalBound(128, g);
    }
    assert |p| == 1 && p == [p[0]];
  }

  lemma MarkedPiece(d: seq<nat>)
    requires DigitsBelow(128, d) && d != [] && d[0] != 0
    ensures Piece(Marked(d)) && Marked(d)[0] != 0x80 && Groups(Marked(d)) == d
  {
  }

  lemma {:induction false} TailPieces(arcs: seq<string>, s: bytes)
    requires ArcsOk(arcs)
    ensures s == Tail(arcs) <==> exists ps :: ArcPieces(ps, Numbered(arcs)) && s == Concat(ps)
  {
    hide ArcPiece, Base128, Number;
    var ns := Numbered(arcs);
    if arcs == [] {
      assert ArcPieces([], ns) && Concat([]) == [];
    } else {
      var first, rest := Base128(ns[0]), Tail(arcs[1..]);
      TailPieces(arcs[1..], rest);
      assert Numbered(arcs[1..]) == ns[1..];
      var qs :| ArcPieces(qs, ns[1..]) && rest == Concat(qs);
      ArcPieceIff(first, ns[0]);
      var all := [first] + qs;
      assert all[1..] == qs && Concat(all) == first + rest;
      forall i | 0 <= i < |all| ensures ArcPiece(all[i], ns[i]) {
        assert i > 0 ==> all[i] == qs[i - 1] && ns[i] == ns[1..][i - 1];
      }
      assert ArcPieces(all, ns);
      if ps :| ArcPieces(ps, ns) && s == Concat(ps) {
        ArcPieceIff(ps[0], ns[0]);
        assert forall i :: 0 <= i < |ps| - 1 ==> ps[1..][i] == ps[i + 1] && ns[1..][i] == ns[i + 1];
        TailPieces(arcs[1..], Concat(ps[1..]));
        assert ArcPieces(ps[1..], ns[1..]);
      }
    }
  }

  /** A text is written exactly when it has more than two arcs and each is a number that is not
      negative in 32 bits. The first octet has the low bits of 40 times the first arc and the
      second one, and for every other arc come its groups, none empty at the front. */
  lemma WrittenIff(oid: string, s: bytes)
    ensures WriteOid(oid) == Some(s) <==>
              var arcs := Arcs(oid);
              && |arcs| > 2 && (forall i :: 0 <= i < |arcs| ==> arcs[i] != "" && Number(arcs[i]) >= 0)
              && s != [] && s[0] == (40 * Number(arcs[0]) + Number(arcs[1])) % 256
              && exists ps :: ArcPieces(ps, Numbered(arcs)[2..]) && s[1..] == Concat(ps)
  {
    hide Number, Arcs, Tail, ArcPieces;
    var arcs := Arcs(oid);
    if |arcs| > 2 && ArcsOk(arcs) && s != [] {
      TailPieces(arcs[2..], s[1..]);
      assert Numbered(arcs[2..]) == Numbered(arcs)[2..];
      assert s == [s[0]] + s[1..];
      var first: byte := (40 * Number(arcs[0]) + Number(arcs[1])) % 256;
      assert ([first] + Tail(arcs[2..]))[1..] == Tail(arcs[2..]);
    }
  }

  // What the writer makes of digits: the number they stand for, in 32 bits with a sign.
  lemma NumberIs(p: string)
    ensures !AllDigits(p) ==> Number(p) == -1
    ensures AllDigits(p) ==>
              && -0x8000_0000 <= Number(p) < 0x8000_0000
              && (Value(10, DigitsOf(p)) - Number(p)) % 0x1_0000_0000 == 0
  {
    hide Value;
    if AllDigits(p) {
      var v := Value(10, DigitsOf(p));
      var q := WrapOff(v);
      ModUnique(v - Number(p), q, 0);
    }
  }

  // The arcs have no dots in them, and are the text with dots between them, up to one at the end.
  lemma {:induction false} ArcsAre(oid: string)
    requires oid != ""
    ensures Arcs(oid) != [] && (oid == Joined(Arcs(oid)) || oid == Joined(Arcs(oid)) + ".")
    ensures forall i :: 0 <= i < |Arcs(oid)| ==> '.' !in Arcs(oid)[i]
    decreases |oid|
  {
    hide Dot, Arcs, Joined;
    var p := Dot(oid);
    var first := oid[..p];
    ArcsNext(oid);
    NoArcs();
    if p < |oid| - 1 {
      var rest := oid[p + 1..];
      ArcsAre(rest);
      JoinedCons(first, Arcs(rest));
      assert oid == first + "." + rest;
      assert first + "." + (Joined(Arcs(rest)) + ".") == first + "." + Joined(Arcs(rest)) + ".";
    } else {
      JoinedOne(first);
      assert [first] + [] == [first];
      assert oid == first || oid == first + ".";
    }
  }

  lemma NoArcs()
    ensures Arcs("") == []
  {
  }

  lemma JoinedOne(a: string)
    ensures Joined([a]) == a
  {
  }

  lemma JoinedCons(a: string, arcs: seq<string>)
    requires arcs != []
    ensures Joined([a] + arcs) == a + "." + Joined(arcs)
  {
    assert ([a] + arcs)[1..] == arcs;
  }

  // -------------------------------------------------------------------- reading

  // One more group makes less of a number: it was seen to wrap.
  ghost predicate DropsAt(before: seq<nat>, d: seq<nat>, j: nat)
    requires j < |d|
  {
    Value(128, before + d[..j + 1]) % UINT < Value(128, before + d[..j]) % UINT
  }

  ghost predicate WrapsAt(before: seq<nat>, d: seq<nat>) {
    exists j :: 0 <= j < |d| && DropsAt(before, d, j)
  }

  // The text of the later arcs.
  function ArcsText(ps: seq<bytes>): string {
    if ps == [] then "" else "." + Show(Value(128, Groups(ps[0])) % UINT) + ArcsText(ps[1..])
  }

  /** Octets cut into arcs; the last of them may be without an end, and then gives no text. */
  ghost predicate Cut(s: bytes, ps: seq<bytes>, open: bytes) {
    && s == Concat(ps) + open && (forall i :: 0 <= i < |ps| ==> Piece(ps[i]))
    && forall i :: 0 <= i < |open| ==> open[i] >= 128
  }

  ghost predicate NoneWraps(ps: seq<bytes>, open: bytes) {
    (forall i :: 0 <= i < |ps| ==> !WrapsAt([], Groups(ps[i]))) && !WrapsAt([], Groups(open))
  }

  lemma DropsNext(before: seq<nat>, d: seq<nat>, j: nat)
    requires j < |d|
    ensures j == 0 ==> (DropsAt(before, d, j) <==> Value(128, before + [d[0]]) % UINT < Value(128, before) % UINT)
    ensures j > 0 ==> (DropsAt(before, d, j) <==> DropsAt(before + [d[0]], d[1..], j - 1))
  {
    hide Value;
    if j == 0 {
      assert before + d[..0] == before && before + d[..1] == before + [d[0]];
    } else {
      assert d[..j] == [d[0]] + d[1..][..j - 1] && d[..j + 1] == [d[0]] + d[1..][..j];
      assert before + d[..j] == before + [d[0]] + d[1..][..j - 1];
      assert before + d[..j + 1] == before + [d[0]] + d[1..][..j];
    }
  }

  lemma {:induction false} WrapsNext(before: seq<nat>, d: seq<nat>)
    requires d != []
    ensures WrapsAt(before, d) <==>
              Value(128, before + [d[0]]) % UINT < Value(128, before) % UINT || WrapsAt(before + [d[0]], d[1..])
  {
    hide Value, DropsAt;
    DropsNext(before, d, 0);
    if j :| 0 <= j < |d| && DropsAt(before, d, j) {
      DropsNext(before, d, j);
    }
    if j :| 0 <= j < |d| - 1 && DropsAt(before + [d[0]], d[1..], j) {
      DropsNext(before, d, j + 1);
    }
  }

  lemma NothingWraps(before: seq<nat>)
    ensures !WrapsAt(before, [])
  {
  }

  // One octet more.
  lemma {:induction false} ReadOctet(s: bytes, before: seq<nat>)
    requires s != []
    ensures var val := Value(128, before) % UINT;
            var next := Value(128, before + [s[0] % 128]) % UINT;
            ReadArcs(s, val) ==
              if s[0] == 0x80 || next < val then None
              else if s[0] >= 128 then ReadArcs(s[1..], next)
              else After("." + Show(next), ReadArcs(s[1..], 0))
  {
    hide Value, Show;
    ValueSnoc(128, before, s[0] % 128);
    ShiftModulo(128, Value(128, before), s[0] % 128);
  }

  lemma {:induction false} ReadOpen(s: bytes, before: seq<nat>)
    requires forall i :: 0 <= i < |s| ==> s[i] >= 128
    ensures ReadArcs(s, Value(128, before) % UINT) == if 0x80 in s || WrapsAt(before, Groups(s)) then None else Some("")
    decreases |s|
  {
    hide Value, Show, WrapsAt;
    if s == [] {
      NothingWraps(before);
    } else {
      ReadOctet(s, before);
      ReadOpen(s[1..], before + [s[0] % 128]);
      WrapsNext(before, Groups(s));
      assert Groups(s)[1..] == Groups(s[1..]);
      assert 0x80 in s <==> s[0] == 0x80 || 0x80 in s[1..];
    }
  }

  lemma {:induction false} ReadPiece(p: bytes, rest: bytes, before: seq<nat>)
    requires Piece(p)
    ensures ReadArcs(p + rest, Value(128, before) % UINT) ==
              if 0x80 in p || WrapsAt(before, Groups(p)) then None
              else After("." + Show(Value(128, before + Groups(p)) % UINT), ReadArcs(rest, 0))
    decreases |p|
  {
    hide Value, Show, WrapsAt;
    var g := Groups(p);
    ReadOctet(p + rest, before);
    WrapsNext(before, g);
    assert (p + rest)[1..] == p[1..] + rest;
    assert 0x80 in p <==> p[0] == 0x80 || 0x80 in p[1..];
    assert g[1..] == Groups(p[1..]);
    if |p| == 1 {
      NothingWraps(before + [g[0]]);
      assert p[1..] + rest == rest && g == [g[0]];
    } else {
      ReadPiece(p[1..], rest, before + [g[0]]);
      assert before + [g[0]] + g[1..] == before + g;
    }
  }

  lemma {:induction false} ReadCut(s: bytes, ps: seq<bytes>, open: bytes)
    requires Cut(s, ps, open)
    ensures ReadArcs(s, 0) == if 0x80 in s || !NoneWraps(ps, open) then None else Some(ArcsText(ps))
    decreases |ps|
  {
    hide Value, Show, WrapsAt, Piece;
    ValueZero(128);
    if ps == [] {
      assert s == open;
      ReadOpen(open, []);
    } else {
      var rest := Concat(ps[1..]) + open;
      assert s == ps[0] + rest;
      ReadPiece(ps[0], rest, []);
      assert [] + Groups(ps[0]) == Groups(ps[0]);
      assert Cut(rest, ps[1..], open);
      ReadCut(rest, ps[1..], open);
      assert 0x80 in s <==> 0x80 in ps[0] || 0x80 in rest;
      assert NoneWraps(ps, open) <==> !WrapsAt([], Groups(ps[0])) && NoneWraps(ps[1..], open) by {
        NoneWrapsCons(ps, open);
      }
    }
  }

  lemma NoneWrapsCons(ps: seq<bytes>, open: bytes)
    requires ps != []
    ensures NoneWraps(ps, open) <==> !WrapsAt([], Groups(ps[0])) && NoneWraps(ps[1..], open)
  {
    hide WrapsAt, Groups;
    assert forall i :: 0 < i < |ps| ==> ps[i] == ps[1..][i - 1];
  }

  // There is a way to cut octets.
  lemma {:induction false} CutSomehow(s: bytes) returns (ps: seq<bytes>, open: bytes)
    ensures Cut(s, ps, open)
    decreases |s|
  {
    if i :| 0 <= i < |s| && s[i] < 128 && forall j :: 0 <= j < i ==> s[j] >= 128 {
      var p := s[..i + 1];
      ps, open := CutSomehow(s[i + 1..]);
      assert s == p + (Concat(ps) + open);
      var all := [p] + ps;
      assert all[1..] == ps && Concat(all) == p + Concat(ps);
      ps := all;
    } else {
      ps, open := [], s;
      AllMarked(s);
    }
  }

  lemma {:induction false} AllMarked(s: bytes)
    requires forall i :: 0 <= i < |s| && s[i] < 128 ==> exists j :: 0 <= j < i && s[j] < 128
    ensures forall i :: 0 <= i < |s| ==> s[i] >= 128
  {
    var i := 0;
    while i < |s|
      invariant 0 <= i <= |s| && forall j :: 0 <= j < i ==> s[j] >= 128
    {
      i := i + 1;
    }
  }

  /** Octets are read as a text exactly when no later octet is 0x80 and no arc is seen to wrap:
      the first octet by 40 and its rest, then of every arc the number in its groups, modulo
      2^32. */
  lemma ReadIff(data: bytes, text: string)
    requires data != []
    ensures ReadOid(data) == Some(text) <==>
              0x80 !in data[1..] && exists ps, open ::
                && Cut(data[1..], ps, open) && NoneWraps(ps, open)
                && text == Show(data[0] / 40) + "." + Show(data[0] % 40) + ArcsText(ps)
  {
    hide Show, ReadArcs, Cut, NoneWraps, ArcsText;
    var qs, tail := CutSomehow(data[1..]);
    ReadCut(data[1..], qs, tail);
    if ps, open :| Cut(data[1..], ps, open) && NoneWraps(ps, open)
                   && text == Show(data[0] / 40) + "." + Show(data[0] % 40) + ArcsText(ps) {
      ReadCut(data[1..], ps, open);
    }
  }
}
