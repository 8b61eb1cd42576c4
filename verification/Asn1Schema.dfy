// Schema nodes with values: building records from them and decoding records into them.
module Asn1Schema {
  import opened Wrappers
  import opened Numbers
  import opened Asn1Header
  import opened Asn1Tlv

  datatype Kind =
    | Integer | Enumerated | Boolean | BitString | OctetString | ObjectId | Null
    | GeneralString | NumericString | Ia5String | TeletexString | PrintableString
    | UniversalString | BmpString | Utf8String | VisibleString
    | UtcTime | GeneralizedTime
    | Sequence | Set | SequenceOf
    | Any

  /** A tag of its own: its class bits, its number, and whether it wraps the usual one. */
  datatype Tagging = Tagging(explicit: bool, cls: nat, number: nat)

  datatype Def = Def(kind: Kind, tagging: Option<Tagging>, option: bool, default: bool)

  /** A node of a prepared schema together with the value it carries. */
  datatype Anode = Anode(
    def: Def,
    value: Option<bytes>,
    parsed: Option<Atlv>,
    bitsEmpty: nat,
    guaranteeUnsigned: bool,
    children: seq<Anode>)

  predicate Container(k: Kind) {
    k.Sequence? || k.Set? || k.SequenceOf?
  }

  predicate Leaf(k: Kind) {
    !Container(k) && !k.Any?
  }

  // The types whose constructed form is accepted as it is.
  predicate StringKind(k: Kind) {
    k.GeneralString? || k.OctetString? || k.NumericString? || k.Ia5String? || k.TeletexString? || k.PrintableString?
    || k.UniversalString? || k.BmpString? || k.Utf8String? || k.VisibleString?
  }

  // A tag from the universal set; ANY has none.
  function UniversalTag(k: Kind): Option<nat> {
    match k
    case Boolean => Some(0x01)
    case Integer => Some(0x02)
    case BitString => Some(0x03)
    case OctetString => Some(0x04)
    case Null => Some(0x05)
    case ObjectId => Some(0x06)
    case Enumerated => Some(0x0A)
    case Utf8String => Some(0x0C)
    case Sequence => Some(0x10)
    case SequenceOf => Some(0x10)
    case Set => Some(0x11)
    case NumericString => Some(0x12)
    case PrintableString => Some(0x13)
    case TeletexString => Some(0x14)
    case Ia5String => Some(0x16)
    case UtcTime => Some(0x17)
    case GeneralizedTime => Some(0x18)
    case VisibleString => Some(0x1A)
    case GeneralString => Some(0x1B)
    case UniversalString => Some(0x1C)
    case BmpString => Some(0x1E)
    case Any => None
  }

  // anode_calc_tag_for_flags; `tagged` is the FLAG_TAG bit of the flags
  function CalcTag(d: Def, tagged: bool): Option<nat> {
    if tagged && d.tagging.Some? then Some(d.tagging.value.number) else UniversalTag(d.kind)
  }

  // anode_calc_explicit_for_flags
  predicate Explicit(d: Def, tagged: bool) {
    tagged && d.tagging.Some? && d.tagging.value.explicit
  }

  // ---------------------------------------------------------------- building

  // atlv_unparse_cls_tag_len without a buffer
  function HeaderSize(cls: nat, tag: nat, len: nat): (n: nat)
    requires IsClass(cls)
    ensures n > 0 && (len <= INT_MAX ==> n == |Header(cls, tag, len)|)
  {
    |TagOctets(cls, tag)| + if len < 128 then 1 else 1 + |Digits(256, len)|
  }

  predicate DefOk(d: Def) {
    d.tagging.Some? ==>
      d.tagging.value.number < UINT && d.tagging.value.cls < 256 && d.tagging.value.cls % 64 == 0
  }

  // The class of the record itself: an implicit tag lends it its own.
  function BuildClass(d: Def): (cls: nat)
    requires DefOk(d)
    ensures IsClass(cls) && (Structured(cls) <==> Container(d.kind))
  {
    var base := if Container(d.kind) then 32 else 0;
    if d.tagging.Some? && !d.tagging.value.explicit then base + d.tagging.value.cls else base
  }

  // anode_build_cls_tag_len
  function WithHeader(d: Def, t: Atlv, len: nat): Atlv
    requires DefOk(d) && !d.kind.Any?
  {
    var total := len + if t.prefixForBitString || t.prefixWithZeroByte then 1 else 0;
    var cls := BuildClass(d);
    var tag := CalcTag(d, !Explicit(d, true)).value;
    t.(cls := cls, tag := tag, len := total, off := HeaderSize(cls, tag, total))
  }

  function Blank(value: Option<bytes>, children: seq<Atlv>): Atlv {
    Atlv(0, 0, 0, 0, value, children, 0, false, false)
  }

  predicate HighBit(buf: bytes) {
    buf != [] && buf[0] >= 128
  }

  // anode_build_value, anode_build_bit_string and anode_build_integer
  function BuildLeaf(n: Anode): Option<Atlv>
    requires DefOk(n.def) && Leaf(n.def.kind)
  {
    if n.value == None then None
    else
      var t := Blank(n.value, []);
      var u :=
        if n.def.kind.BitString? then t.(bitsEmpty := n.bitsEmpty, prefixForBitString := true)
        else if n.def.kind.Integer? && n.guaranteeUnsigned && HighBit(n.value.value) then t.(prefixWithZeroByte := true)
        else t;
      Some(WithHeader(n.def, u, |n.value.value|))
  }

  // anode_build_maybe_explicit
  function Wrapped(d: Def, t: Atlv): Atlv
    requires DefOk(d) && t.off + t.len >= 0
  {
    if Explicit(d, true) then
      var len := t.off + t.len;
      var cls := d.tagging.value.cls + 32;
      Blank(None, [t]).(cls := cls, tag := d.tagging.value.number, len := len,
                        off := HeaderSize(cls, d.tagging.value.number, len))
    else t
  }

  // Sizes are never negative, at any level of a tree that is built.
  ghost predicate Sized(t: Atlv) {
    t.off >= 0 && t.len >= 0
  }

  ghost predicate NodeOk(n: Anode) {
    && DefOk(n.def)
    && (n.def.kind.Any? && n.parsed.Some? ==> Sized(n.parsed.value))
    && forall i :: 0 <= i < |n.children| ==> NodeOk(n.children[i])
  }

  // anode_build_anything
  function Build(n: Anode, want: bool): (t: Option<Atlv>)
    requires NodeOk(n)
    ensures t.Some? ==> Sized(t.value)
    decreases n, 2
  {
    if n.def.kind.Any? then n.parsed
    else
      var t := if Container(n.def.kind) then BuildStructured(n, want) else BuildLeaf(n);
      if t == None then None else Some(Wrapped(n.def, t.value))
  }

  // anode_build_structured
  function BuildStructured(n: Anode, want: bool): (t: Option<Atlv>)
    requires NodeOk(n) && Container(n.def.kind)
    ensures t.Some? ==> Sized(t.value)
    decreases n, 1
  {
    var built := BuildChildren(n.children, want && !n.def.kind.SequenceOf?);
    if built == [] && !(want && !n.def.option) then None
    else
      BuiltSize(built);
      Some(WithHeader(n.def, Blank(None, built), TotalSize(built)))
  }

  function BuildChildren(ns: seq<Anode>, want: bool): (ts: seq<Atlv>)
    requires forall i :: 0 <= i < |ns| ==> NodeOk(ns[i])
    ensures forall i :: 0 <= i < |ts| ==> Sized(ts[i])
    decreases ns, 0
  {
    if ns == [] then []
    else
      match Build(ns[0], want)
      case None => BuildChildren(ns[1..], want)
      case Some(t) => [t] + BuildChildren(ns[1..], want)
  }

  lemma {:induction false} BuiltSize(ts: seq<Atlv>)
    requires forall i :: 0 <= i < |ts| ==> Sized(ts[i])
    ensures TotalSize(ts) >= 0
  {
    if ts != [] {
      BuiltSize(ts[1..]);
    }
  }

  // egg_asn1x_have
  predicate Have(n: Anode)
    decreases n, 1
  {
    n.value.Some? || n.parsed.Some? || HaveAny(n.children)
  }

  predicate HaveAny(ns: seq<Anode>)
    decreases ns, 0
  {
    ns != [] && (Have(ns[0]) || HaveAny(ns[1..]))
  }

  // ---------------------------------------------------------------- decoding

  // anode_decode_bit_string
  function DecodeBitString(n: Anode, buf: bytes): Option<Anode> {
    if buf == [] || buf[0] >= 8 then None
    else if |buf| > 1 && buf[|buf| - 1] % MaskSize(buf[0]) != 0 then None
    else Some(n.(value := Some(buf[1..]), parsed := None, bitsEmpty := buf[0]))
  }

  // anode_decode_primitive
  function DecodePrimitive(n: Anode, t: Atlv): Option<Anode> {
    if n.def.kind.Any? then Some(n)
    else if Container(n.def.kind) || t.value == None then None
    else if n.def.kind.BitString? then DecodeBitString(n, t.value.value)
    else Some(n.(value := t.value, parsed := None))
  }

  // anode_decode_structured
  function DecodeStructured(n: Anode, t: Atlv): Option<Anode>
    decreases t, 1
  {
    if n.def.kind.Any? || StringKind(n.def.kind) then Some(n)
    else if n.def.kind.Sequence? || (n.def.kind.Set? && Ascending(t.children)) then
      if n.children == [] then None
      else
        match DecodeAnything(n.children, t.children)
        case None => None
        case Some(children) => Some(n.(children := children))
    else if n.def.kind.SequenceOf? && n.children != [] then
      match DecodeElements(n.children[0], t.children)
      case None => None
      case Some(ds) => if ds == [] then Some(n) else Some(n.(children := [ds[0]] + n.children[1..] + ds[1..]))
    else None
  }

  // The content of a SET has its tags in ascending order.
  predicate Ascending(ts: seq<Atlv>) {
    forall i, j :: 0 <= i < |ts| && j == i + 1 && j < |ts| ==> ts[i].tag <= ts[j].tag
  }

  // anode_clone: the same definitions, no values
  function Clone(n: Anode): Anode
    decreases n, 1
  {
    Anode(n.def, None, None, 0, false, CloneAll(n.children))
  }

  function CloneAll(ns: seq<Anode>): seq<Anode>
    decreases ns, 0
  {
    if ns == [] then [] else [Clone(ns[0])] + CloneAll(ns[1..])
  }

  // anode_decode_sequence_or_set_of: the first element goes to the node that is there, the
  // others to clones of that node, which by then has the children decoding gave it
  function DecodeElements(n: Anode, ts: seq<Atlv>): Option<seq<Anode>>
    decreases ts, 0
  {
    if ts == [] then Some([])
    else
      match DecodeOne(n, ts[0])
      case None => None
      case Some(d) =>
        match DecodeOthers(Clone(d), ts[1..])
        case None => None
        case Some(ds) => Some([d] + ds)
  }

  function DecodeOthers(clone: Anode, ts: seq<Atlv>): Option<seq<Anode>>
    decreases ts, 0
  {
    if ts == [] then Some([])
    else
      match DecodeOne(clone, ts[0])
      case None => None
      case Some(d) =>
        match DecodeOthers(clone, ts[1..])
        case None => None
        case Some(ds) => Some([d] + ds)
  }

  // anode_decode_one_without_tag
  function DecodeOneWithoutTag(n: Anode, t: Atlv, tagged: bool): Option<Anode>
    decreases t, 2
  {
    var r :=
      if Explicit(n.def, tagged) then
        if t.cls % 256 < 128 || t.value.Some? || |t.children| != 1 then None
        else DecodeOneWithoutTag(n, t.children[0], false)
      else if Structured(t.cls) then DecodeStructured(n, t)
      else DecodePrimitive(n, t);
    if r == None then None else Some(r.value.(parsed := Some(t)))
  }

  // The tag a node is waiting for; without one of its own it takes any.
  predicate TagMatches(n: Anode, t: Atlv) {
    CalcTag(n.def, true) == None || CalcTag(n.def, true) == Some(t.tag)
  }

  // anode_decode_one
  function DecodeOne(n: Anode, t: Atlv): Option<Anode>
    decreases t, 3
  {
    if TagMatches(n, t) then DecodeOneWithoutTag(n, t, true) else None
  }

  predicate MayBeAbsent(n: Anode) {
    n.def.option || n.def.default
  }

  // anode_clr_value
  function Absent(n: Anode): Anode {
    n.(value := None, parsed := None)
  }

  // anode_decode_anything: match records with nodes, passing over optional nodes
  function DecodeAnything(ns: seq<Anode>, ts: seq<Atlv>): (r: Option<seq<Anode>>)
    ensures r.Some? ==> |r.value| == |ns|
    decreases ts, 4, |ns|
  {
    if ts == [] then
      if forall i :: 0 <= i < |ns| ==> MayBeAbsent(ns[i])
      then Some(seq(|ns|, i requires 0 <= i < |ns| => Absent(ns[i])))
      else None
    else if ns == [] then None
    else if !TagMatches(ns[0], ts[0]) then
      if !MayBeAbsent(ns[0]) || |ns| == 1 then None
      else
        match DecodeAnything(ns[1..], ts)
        case None => None
        case Some(ds) => Some([Absent(ns[0])] + ds)
    else
      match DecodeOneWithoutTag(ns[0], ts[0], true)
      case None => None
      case Some(d) =>
        match DecodeAnything(ns[1..], ts[1..])
        case None => None
        case Some(ds) => Some([d] + ds)
  }
}
