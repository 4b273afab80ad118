/** The wire format of a value, driven by its shape: varints, zigzag, length prefixes and tagged
    unions, as the postcard wire format specification lays them down. */
module Postcard {
  import opened Wrappers
  import opened Protocol
  import Utf8

  // A value as the serialiser sees it; a struct is a chain of pairs.
  datatype Val =
    | VUnit
    | VBool(b: bool)
    | VUint(n: nat)
    | VInt(i: int)
    | VStr(s: string)
    | VBytes(bytes: seq<byte>)
    | VOption(present: bool, v: Val)
    | VPair(a: Val, b': Val)
    | VSeq(items: Vals)
    | VEnum(tag: nat, v: Val)

  datatype Vals = Nil | Cons(head: Val, tail: Vals)

  datatype Schema =
    | SUnit
    | SBool
    | SU32
    | SU64
    | SI64
    | SStr
    | SBytes
    | SOption(s: Schema)
    | SPair(a: Schema, b: Schema)
    | SSeq(s: Schema)
    | SEnum(variants: seq<Schema>)

  function Length(vs: Vals): nat {
    match vs
    case Nil => 0
    case Cons(_, tail) => 1 + Length(tail)
  }

  // The value has the shape; an absent option carries the unit.
  predicate Fits(v: Val, s: Schema)
    decreases s, 0
  {
    match s
    case SUnit => v.VUnit?
    case SBool => v.VBool?
    case SU32 => v.VUint? && v.n < TWO_32
    case SU64 => v.VUint? && v.n < TWO_64
    case SI64 => v.VInt? && -TWO_63 <= v.i < TWO_63
    case SStr => v.VStr? && |Utf8.Encode(v.s)| < TWO_64
    case SBytes => v.VBytes? && |v.bytes| < TWO_64
    case SOption(inner) => v.VOption? && (if v.present then Fits(v.v, inner) else v.v.VUnit?)
    case SPair(a, b) => v.VPair? && Fits(v.a, a) && Fits(v.b', b)
    case SSeq(item) => v.VSeq? && Length(v.items) < TWO_64 && AllFit(v.items, item)
    case SEnum(variants) => v.VEnum? && v.tag < TWO_32 && v.tag < |variants| && Fits(v.v, variants[v.tag])
  }

  predicate AllFit(vs: Vals, s: Schema)
    decreases s, 1, vs
  {
    match vs
    case Nil => true
    case Cons(head, tail) => Fits(head, s) && AllFit(tail, s)
  }

  // ---- Encoding ----

  function EncodeVarint(n: nat): (bytes: seq<byte>)
    ensures |bytes| >= 1
  {
    if n < 128 then [n] else [n % 128 + 128] + EncodeVarint(n / 128)
  }

  function ZigZag(i: int): nat {
    if i >= 0 then 2 * i else -2 * i - 1
  }

  function UnZigZag(n: nat): int {
    if n % 2 == 0 then n / 2 else -(n / 2) - 1
  }

  function Encode(v: Val): seq<byte> {
    match v
    case VUnit => []
    case VBool(b) => [if b then 1 else 0]
    case VUint(n) => EncodeVarint(n)
    case VInt(i) => EncodeVarint(ZigZag(i))
    case VStr(s) => EncodeVarint(|Utf8.Encode(s)|) + Utf8.Encode(s)
    case VBytes(bytes) => EncodeVarint(|bytes|) + bytes
    case VOption(present, inner) => if present then [1] + Encode(inner) else [0]
    case VPair(a, b) => Encode(a) + Encode(b)
    case VSeq(items) => EncodeVarint(Length(items)) + EncodeAll(items)
    case VEnum(tag, inner) => EncodeVarint(tag) + Encode(inner)
  }

  function EncodeAll(vs: Vals): seq<byte> {
    match vs
    case Nil => []
    case Cons(head, tail) => Encode(head) + EncodeAll(tail)
  }

  // ---- Decoding: the value and what is left, or None ----

  type Decoded<T> = Option<(T, seq<byte>)>

  // At most `left` bytes, the last of them at most `lastMax`.
  function DecodeVarint(bytes: seq<byte>, left: nat, lastMax: nat): Decoded<nat>
    decreases left
  {
    if left == 0 || bytes == [] then None
    else if bytes[0] < 128 then
      if left == 1 && bytes[0] > lastMax then None else Some((bytes[0], bytes[1..]))
    else
      var rest := DecodeVarint(bytes[1..], left - 1, lastMax);
      if rest.None? then None else Some((bytes[0] - 128 + 128 * rest.value.0, rest.value.1))
  }

  function DecodeU32(bytes: seq<byte>): Decoded<nat> {
    DecodeVarint(bytes, 5, 15)
  }

  function DecodeU64(bytes: seq<byte>): Decoded<nat> {
    DecodeVarint(bytes, 10, 1)
  }

  // A length, then that many bytes.
  function DecodeBytes(bytes: seq<byte>): Decoded<seq<byte>> {
    var length := DecodeU64(bytes);
    if length.None? || |length.value.1| < length.value.0 then None
    else Some((length.value.1[..length.value.0], length.value.1[length.value.0..]))
  }

  function Decode(s: Schema, bytes: seq<byte>): Decoded<Val>
    decreases s, 0
  {
    match s
    case SUnit => Some((VUnit, bytes))
    case SBool =>
      if bytes == [] || bytes[0] > 1 then None else Some((VBool(bytes[0] == 1), bytes[1..]))
    case SU32 =>
      var n := DecodeU32(bytes);
      if n.None? then None else Some((VUint(n.value.0), n.value.1))
    case SU64 =>
      var n := DecodeU64(bytes);
      if n.None? then None else Some((VUint(n.value.0), n.value.1))
    case SI64 =>
      var n := DecodeU64(bytes);
      if n.None? then None else Some((VInt(UnZigZag(n.value.0)), n.value.1))
    case SStr =>
      var b := DecodeBytes(bytes);
      if b.None? || Utf8.Decode(b.value.0).None? then None else Some((VStr(Utf8.Decode(b.value.0).value), b.value.1))
    case SBytes =>
      var b := DecodeBytes(bytes);
      if b.None? then None else Some((VBytes(b.value.0), b.value.1))
    case SOption(inner) =>
      if bytes == [] || bytes[0] > 1 then None
      else if bytes[0] == 0 then Some((VOption(false, VUnit), bytes[1..]))
      else
        var v := Decode(inner, bytes[1..]);
        if v.None? then None else Some((VOption(true, v.value.0), v.value.1))
    case SPair(a, b) =>
      var va := Decode(a, bytes);
      if va.None? then None
      else
        var vb := Decode(b, va.value.1);
        if vb.None? then None else Some((VPair(va.value.0, vb.value.0), vb.value.1))
    case SSeq(item) =>
      var n := DecodeU64(bytes);
      if n.None? then None
      else
        var vs := DecodeMany(item, n.value.0, n.value.1);
        if vs.None? then None else Some((VSeq(vs.value.0), vs.value.1))
    case SEnum(variants) =>
      var tag := DecodeU32(bytes);
      if tag.None? || tag.value.0 >= |variants| then None
      else
        var v := Decode(variants[tag.value.0], tag.value.1);
        if v.None? then None else Some((VEnum(tag.value.0, v.value.0), v.value.1))
  }

  function DecodeMany(s: Schema, n: nat, bytes: seq<byte>): Decoded<Vals>
    decreases s, n + 1
  {
    if n == 0 then Some((Nil, bytes))
    else
      var head := Decode(s, bytes);
      if head.None? then None
      else
        var tail := DecodeMany(s, n - 1, head.value.1);
        if tail.None? then None else Some((Cons(head.value.0, tail.value.0), tail.value.1))
  }

  // ---- Round trip ----

  // One more than the largest number `left` bytes can carry.
  function Capacity(left: nat, lastMax: nat): nat {
    if left == 0 then 0 else if left == 1 then (if lastMax < 128 then lastMax + 1 else 128) else 128 * Capacity(left - 1, lastMax)
  }

  lemma {:induction false} VarintRoundTrip(n: nat, left: nat, lastMax: nat, rest: seq<byte>)
    requires n < Capacity(left, lastMax)
    ensures DecodeVarint(EncodeVarint(n) + rest, left, lastMax) == Some((n, rest))
    decreases left
  {
    var bytes := EncodeVarint(n) + rest;
    if n < 128 {
      assert bytes[1..] == rest;
    } else {
      VarintRoundTrip(n / 128, left - 1, lastMax, rest);
      assert bytes[1..] == EncodeVarint(n / 128) + rest;
    }
  }

  lemma Capacities()
    ensures Capacity(5, 15) == TWO_32 && Capacity(10, 1) == TWO_64
  {
    assert Capacity(3, 1) == 0x8000 && Capacity(5, 1) == 0x2000_0000 && Capacity(7, 1) == 0x800_0000_0000;
    assert Capacity(9, 1) == 0x200_0000_0000_0000;
    assert Capacity(3, 15) == 0x4_0000;
  }

  lemma U32RoundTrip(n: nat, rest: seq<byte>)
    requires n < TWO_32
    ensures DecodeU32(EncodeVarint(n) + rest) == Some((n, rest))
  {
    Capacities();
    VarintRoundTrip(n, 5, 15, rest);
  }

  lemma U64RoundTrip(n: nat, rest: seq<byte>)
    requires n < TWO_64
    ensures DecodeU64(EncodeVarint(n) + rest) == Some((n, rest))
  {
    Capacities();
    VarintRoundTrip(n, 10, 1, rest);
  }

  lemma BytesRoundTrip(data: seq<byte>, rest: seq<byte>)
    requires |data| < TWO_64
    ensures DecodeBytes(EncodeVarint(|data|) + data + rest) == Some((data, rest))
  {
    U64RoundTrip(|data|, data + rest);
    assert EncodeVarint(|data|) + data + rest == EncodeVarint(|data|) + (data + rest);
    assert (data + rest)[..|data|] == data && (data + rest)[|data|..] == rest;
  }

  predicate IsLeaf(s: Schema) {
    !s.SOption? && !s.SPair? && !s.SSeq? && !s.SEnum?
  }

  lemma LeafRoundTrip(s: Schema, v: Val, rest: seq<byte>)
    requires Fits(v, s) && IsLeaf(s)
    ensures Decode(s, Encode(v) + rest) == Some((v, rest))
  {
    hide EncodeVarint, DecodeU32, DecodeU64, DecodeBytes, Utf8.Encode, Utf8.Decode;
    match s {
      case SUnit =>
        assert Encode(v) + rest == rest;
      case SBool =>
        assert (Encode(v) + rest)[1..] == rest;
      case SU32 =>
        U32RoundTrip(v.n, rest);
      case SU64 =>
        U64RoundTrip(v.n, rest);
      case SI64 =>
        U64RoundTrip(ZigZag(v.i), rest);
      case SStr =>
        BytesRoundTrip(Utf8.Encode(v.s), rest);
        Utf8.RoundTrip(v.s);
      case SBytes =>
        BytesRoundTrip(v.bytes, rest);
    }
  }

  // Decoding what was encoded gives the value back and stops exactly at its end, for every value
  // of every shape.
  lemma {:induction false} RoundTrip(s: Schema, v: Val, rest: seq<byte>)
    requires Fits(v, s)
    ensures Decode(s, Encode(v) + rest) == Some((v, rest))
    decreases s, 2
  {
    hide Encode, Decode, Fits;
    match s {
      case SOption(_) => OptionRoundTrip(s, v, rest);
      case SPair(_, _) => PairRoundTrip(s, v, rest);
      case SSeq(_) => SeqRoundTrip(s, v, rest);
      case SEnum(_) => EnumRoundTrip(s, v, rest);
      case _ => LeafRoundTrip(s, v, rest);
    }
  }

  lemma {:induction false} OptionRoundTrip(s: Schema, v: Val, rest: seq<byte>)
    requires s.SOption? && Fits(v, s)
    ensures Decode(s, Encode(v) + rest) == Some((v, rest))
    decreases s, 0
  {
    hide EncodeVarint, DecodeU32, DecodeU64, DecodeBytes, DecodeMany, AllFit, EncodeAll, Length, Utf8.Encode, Utf8.Decode;
    if v.present {
      RoundTrip(s.s, v.v, rest);
      assert (Encode(v) + rest)[1..] == Encode(v.v) + rest;
    } else {
      assert (Encode(v) + rest)[1..] == rest;
    }
  }

  lemma {:induction false} PairRoundTrip(s: Schema, v: Val, rest: seq<byte>)
    requires s.SPair? && Fits(v, s)
    ensures Decode(s, Encode(v) + rest) == Some((v, rest))
    decreases s, 0
  {
    assert Encode(v) + rest == Encode(v.a) + (Encode(v.b') + rest);
    RoundTrip(s.a, v.a, Encode(v.b') + rest);
    RoundTrip(s.b, v.b', rest);
  }

  lemma {:induction false} SeqRoundTrip(s: Schema, v: Val, rest: seq<byte>)
    requires s.SSeq? && Fits(v, s)
    ensures Decode(s, Encode(v) + rest) == Some((v, rest))
    decreases s, 0
  {
    hide EncodeVarint, DecodeU64, EncodeAll, DecodeMany, AllFit, Length;
    assert Encode(v) + rest == EncodeVarint(Length(v.items)) + (EncodeAll(v.items) + rest);
    U64RoundTrip(Length(v.items), EncodeAll(v.items) + rest);
    ManyRoundTrip(s.s, v.items, rest);
  }

  lemma {:induction false} EnumRoundTrip(s: Schema, v: Val, rest: seq<byte>)
    requires s.SEnum? && Fits(v, s)
    ensures Decode(s, Encode(v) + rest) == Some((v, rest))
    decreases s, 0
  {
    hide EncodeVarint, DecodeU32;
    assert Encode(v) + rest == EncodeVarint(v.tag) + (Encode(v.v) + rest);
    U32RoundTrip(v.tag, Encode(v.v) + rest);
    RoundTrip(s.variants[v.tag], v.v, rest);
  }

  lemma {:induction false} ManyRoundTrip(s: Schema, vs: Vals, rest: seq<byte>)
    requires AllFit(vs, s)
    ensures DecodeMany(s, Length(vs), EncodeAll(vs) + rest) == Some((vs, rest))
    decreases s, 3, vs
  {
    hide Encode, Decode, Fits;
    match vs {
      case Nil =>
        assert EncodeAll(vs) + rest == rest;
      case Cons(head, tail) =>
        assert EncodeAll(vs) + rest == Encode(head) + (EncodeAll(tail) + rest);
        RoundTrip(s, head, EncodeAll(tail) + rest);
        ManyRoundTrip(s, tail, rest);
    }
  }

  // ---- Lengths ----

  // The value has the shape, lengths aside; items of a sequence take at least a byte each.
  predicate Shaped(v: Val, s: Schema)
    decreases s, 0
  {
    match s
    case SUnit => v.VUnit?
    case SBool => v.VBool?
    case SU32 => v.VUint? && v.n < TWO_32
    case SU64 => v.VUint? && v.n < TWO_64
    case SI64 => v.VInt? && -TWO_63 <= v.i < TWO_63
    case SStr => v.VStr?
    case SBytes => v.VBytes?
    case SOption(inner) => v.VOption? && (if v.present then Shaped(v.v, inner) else v.v.VUnit?)
    case SPair(a, b) => v.VPair? && Shaped(v.a, a) && Shaped(v.b', b)
    case SSeq(item) => v.VSeq? && AllShaped(v.items, item)
    case SEnum(variants) => v.VEnum? && v.tag < TWO_32 && v.tag < |variants| && Shaped(v.v, variants[v.tag])
  }

  predicate AllShaped(vs: Vals, s: Schema)
    decreases s, 1, vs
  {
    match vs
    case Nil => true
    case Cons(head, tail) => Shaped(head, s) && Encode(head) != [] && AllShaped(tail, s)
  }

  lemma PairShaped(a: Val, b: Val, sa: Schema, sb: Schema)
    requires Shaped(a, sa) && Shaped(b, sb)
    ensures Shaped(VPair(a, b), SPair(sa, sb))
  {
  }

  lemma VariantShaped(v: Val, variants: seq<Schema>, tag: nat)
    requires tag < TWO_32 && tag < |variants| && Shaped(v, variants[tag])
    ensures Shaped(VEnum(tag, v), SEnum(variants))
  {
  }

  // A value whose encoding is short enough has only lengths the format can carry.
  lemma {:induction false} ShapedFits(v: Val, s: Schema)
    requires Shaped(v, s) && |Encode(v)| < TWO_64
    ensures Fits(v, s)
    decreases s, 0
  {
    hide EncodeVarint, AllShaped, AllFit, Length, EncodeAll;
    match s {
      case SOption(inner) =>
        if v.present {
          ShapedFits(v.v, inner);
        }
      case SPair(a, b) =>
        ShapedFits(v.a, a);
        ShapedFits(v.b', b);
      case SSeq(item) =>
        AllShapedFit(v.items, item);
      case SEnum(variants) =>
        ShapedFits(v.v, variants[v.tag]);
      case _ =>
    }
  }

  lemma {:induction false} AllShapedFit(vs: Vals, s: Schema)
    requires AllShaped(vs, s) && |EncodeAll(vs)| < TWO_64
    ensures AllFit(vs, s) && Length(vs) <= |EncodeAll(vs)|
    decreases s, 1, vs
  {
    hide Encode, Shaped, Fits;
    match vs {
      case Nil =>
      case Cons(head, tail) =>
        ShapedFits(head, s);
        AllShapedFit(tail, s);
    }
  }
}
