/** Attribute decoding: `BEFAttributeReader` and `ReadAttributes`
    (lib/bef_converter/bef_to_mlir/bef_to_mlir.cc:228-316, 509-532, 715-934).

    Every attribute reader works on the whole Attributes section; a
    `Reader` over it starts at the attribute's offset, and `pos` is the
    offset that the source computes as `reader->file().data() -
    attributes_.data()`. A reader that fails gives the null attribute.

    Layout assumptions for definitions in headers that are not part of this
    model: `kAttributeTypeIDShift` is 3 and `kAttributeTypeIDMask` is 7;
    the `AttributeTypeID`s are Standard 0, Bool 1, String 2, Type 3,
    DenseElements 4, FlatArray 5, OffsetArray 6; the `AttributeKind` codes
    are I1 1, I32 2, I64 3, F16 4, F32 5, F64 6; an `AttributeDescriptor` is
    one little-endian 32-bit offset. */
module BefAttributes {
  import opened Wrappers
  import opened BefReader
  import opened BefIr
  import opened BefTables

  // ----- the attribute type word -----

  const AttributeTypeIdShift: nat := 3
  const AttributeTypeIdMask: nat := 7

  const StandardAttributeId: nat := 0
  const BoolAttributeId: nat := 1
  const StringAttributeId: nat := 2
  const TypeAttributeId: nat := 3
  const DenseElementsAttributeId: nat := 4
  const FlatArrayAttributeId: nat := 5
  const OffsetArrayAttributeId: nat := 6

  /** `attribute_type & kAttributeTypeIDMask`. */
  function TypeId(t: nat): (id: nat)
    ensures id <= AttributeTypeIdMask
  {
    t % 8
  }

  /** `attribute_type >> kAttributeTypeIDShift`. */
  function Payload(t: nat): (p: nat)
    ensures t > 0 ==> p < t
  {
    t / 8
  }

  /** The attribute type word a BEF writer emits for an id and a payload. */
  function AttributeType(id: nat, payload: nat): nat
    requires id <= AttributeTypeIdMask
  {
    payload * 8 + id
  }

  /** The split recovers the id and the payload of every type word. */
  lemma AttributeTypeSplit(id: nat, payload: nat)
    requires id <= AttributeTypeIdMask
    ensures TypeId(AttributeType(id, payload)) == id
    ensures Payload(AttributeType(id, payload)) == payload
  {
  }

  // ----- AttributeKind codes -----

  /** `DecodeTypeAttribute` and the switch of `ReadTypeAttribute`; an
      unknown code reaches `llvm_unreachable`, modelled as failure. */
  function DecodeType(code: Byte): (t: Option<Type>)
    ensures t.Some? <==> 1 <= code <= 6
  {
    match code
    case 1 => Some(IntegerType(1))
    case 2 => Some(IntegerType(32))
    case 3 => Some(IntegerType(64))
    case 4 => Some(FloatType(16))
    case 5 => Some(FloatType(32))
    case 6 => Some(FloatType(64))
    case _ => None
  }

  /** The `AttributeKind` code a BEF writer emits for a type. */
  function EncodeType(t: Type): Option<Byte>
  {
    match t
    case IntegerType(1) => Some(1)
    case IntegerType(32) => Some(2)
    case IntegerType(64) => Some(3)
    case FloatType(16) => Some(4)
    case FloatType(32) => Some(5)
    case FloatType(64) => Some(6)
    case _ => None
  }

  /** Decoding is the inverse of encoding, in both directions. */
  lemma TypeCodeRoundTrip(t: Type, code: Byte)
    ensures EncodeType(t).Some? ==> DecodeType(EncodeType(t).value) == Some(t)
    ensures DecodeType(code).Some? ==> EncodeType(DecodeType(code).value) == Some(code)
  {
  }

  // ----- ReadLength: the backward VBR length -----

  const TwoTo64: nat := 0x1_0000_0000_0000_0000

  /** Continues `ReadLength` at index `i` with the value `acc` so far:
      `value = (value << 7) | (b & 0x7F)` on a 64-bit `size_t`, moving
      towards index 0 while the top bit is set. Running past index 0 is the
      source's `assert(offset > 0)`, modelled as failure. */
  function BackwardVbr(data: seq<Byte>, i: nat, acc: nat): (r: Option<nat>)
    requires i < |data|
    ensures r.Some? ==> r.value < TwoTo64
    decreases i
  {
    var v := (acc * 128 + data[i] % 128) % TwoTo64;
    if data[i] >= 128 then (if i == 0 then None else BackwardVbr(data, i - 1, v))
    else Some(v)
  }

  /** `ReadLength(offset)`: the length stored just before `offset`. */
  function LengthAt(data: seq<Byte>, offset: nat): (r: Option<nat>)
    requires offset <= |data|
    ensures r.Some? ==> r.value < TwoTo64
  {
    if offset == 0 then None else BackwardVbr(data, offset - 1, 0)
  }

  /** The bytes of a length in address order, as a BEF writer places them
      in front of an attribute: the least significant group first with a
      clear top bit (unless `more`), then the more significant groups, each
      with the top bit set. */
  function LengthBytes(n: nat, more: bool): (bs: seq<Byte>)
    ensures |bs| > 0
  {
    var flag := if more then 128 else 0;
    [n % 128 + flag] + (if n < 128 then [] else LengthBytes(n / 128, true))
  }

  /** Where a backward read goes after the group of `n` at index `i`: it
      stops with `n`, or, when the group has its top bit set, goes on to
      index `i - 1` with `n` so far (failing before index 0). */
  function AfterGroup(data: seq<Byte>, i: nat, n: nat, more: bool): Option<nat>
    requires i < |data|
  {
    if !more then Some(n) else if i == 0 then None else BackwardVbr(data, i - 1, n)
  }

  /** Reading backwards from the last group of a length written just
      before `end` gives the length, or goes on before the length when
      `more`. */
  lemma {:induction false} LengthGroupsBefore(data: seq<Byte>, end: nat, n: nat, more: bool)
    requires n < TwoTo64
    requires |LengthBytes(n, more)| <= end <= |data|
    requires data[end - |LengthBytes(n, more)|..end] == LengthBytes(n, more)
    ensures BackwardVbr(data, end - 1, 0) == AfterGroup(data, end - |LengthBytes(n, more)|, n, more)
    decreases n
  {
    var lb := LengthBytes(n, more);
    var start := end - |lb|;
    var g := n % 128 + (if more then 128 else 0);
    LengthBytesCons(n, more);
    assert data[start] == g by {
      assert data[start] == data[start..end][0];
    }
    if n >= 128 {
      var tail := LengthBytes(n / 128, true);
      assert |lb| == 1 + |tail|;
      assert data[end - |tail|..end] == tail by {
        assert data[end - |tail|..end] == data[start..end][1..];
      }
      LengthGroupsBefore(data, end, n / 128, true);
      assert AfterGroup(data, end - |tail|, n / 128, true) == BackwardVbr(data, start, n / 128);
      GroupCombine(n);
      VbrAtGroup(data, start, n / 128, n, more);
    } else {
      assert |lb| == 1;
      VbrAtGroup(data, start, 0, n, more);
    }
  }

  /** The first group of a length, then its more significant groups. */
  lemma LengthBytesCons(n: nat, more: bool)
    ensures var g := n % 128 + (if more then 128 else 0);
            LengthBytes(n, more) == [g] + (if n < 128 then [] else LengthBytes(n / 128, true))
  {
  }

  /** Reading the group of `n` at index `i` with `acc` so far gives `n`,
      then goes on to index `i - 1` exactly when the group has its top bit
      set. */
  lemma VbrAtGroup(data: seq<Byte>, i: nat, acc: nat, n: nat, more: bool)
    requires i < |data| && data[i] == n % 128 + (if more then 128 else 0)
    requires (acc * 128 + n % 128) % TwoTo64 == n
    ensures BackwardVbr(data, i, acc) == AfterGroup(data, i, n, more)
  {
    assert data[i] % 128 == n % 128;
  }

  lemma GroupCombine(n: nat)
    requires n < TwoTo64
    ensures (n / 128 * 128 + n % 128) % TwoTo64 == n
  {
  }

  // ----- scalar attributes -----

  /** The byte count of an integer attribute of `width` bits; other widths
      are "Unknown integer attribute width". */
  function IntegerBytes(width: nat): Option<nat>
  {
    if width == 1 then Some(1)
    else if width == 32 then Some(4)
    else if width == 64 then Some(8)
    else None
  }

  /** `llvm::APInt(width, value)` keeps the low `width` bits: for a 1-bit
      integer the low bit of the byte read; 4 and 8 bytes always fit. */
  function Truncate(width: nat, v: nat): nat
  {
    if width == 1 then v % 2 else v
  }

  /** `ReadIntegerAttribute`: `width / 8` bytes (one byte for i1),
      little-endian. A read that runs out of bytes stops at the end. */
  function IntegerAt(data: seq<Byte>, pos: nat, width: nat): (r: (Option<nat>, nat))
    requires pos <= |data|
    ensures pos <= r.1 <= |data|
    ensures r.0.Some? <==> IntegerBytes(width).Some? && pos + IntegerBytes(width).value <= |data|
    ensures r.0.Some? ==> r.1 == pos + IntegerBytes(width).value
                          && r.0.value < Pow256(IntegerBytes(width).value)
  {
    var n := IntegerBytes(width);
    if n.None? then (None, pos)
    else if pos + n.value <= |data| then (Some(Truncate(width, LittleEndian(data[pos..pos + n.value]))), pos + n.value)
    else (None, |data|)
  }

  /** An integer written little-endian in its width is read back. */
  lemma IntegerRoundTrip(pre: seq<Byte>, width: nat, v: nat, post: seq<Byte>)
    requires IntegerBytes(width).Some? && v < Pow256(IntegerBytes(width).value)
    requires width == 1 ==> v < 2
    ensures var bs := LittleEndianBytes(v, IntegerBytes(width).value);
            IntegerAt(pre + bs + post, |pre|, width) == (Some(v), |pre| + |bs|)
  {
    var bs := LittleEndianBytes(v, IntegerBytes(width).value);
    var data := pre + bs + post;
    assert data[|pre|..|pre| + |bs|] == bs;
    LittleEndianRoundTrip(v, IntegerBytes(width).value);
  }

  /** `ReadFloatAttribute`: only 32-bit floats, read as a 32-bit integer;
      the result keeps the raw bits. */
  function FloatAt(data: seq<Byte>, pos: nat, width: nat): (r: (Option<nat>, nat))
    requires pos <= |data|
    ensures pos <= r.1 <= |data|
    ensures r.0.Some? ==> width == 32 && r.1 == pos + 4
    ensures width == 32 ==> r == IntegerAt(data, pos, 32)
  {
    if width == 32 then IntegerAt(data, pos, 32) else (None, pos)
  }

  /** `ReadStandardAttribute` for a type taken from the Types table; the
      null type and types other than integer and float types fail. */
  function StandardAt(data: seq<Byte>, pos: nat, t: Option<Type>): (r: (Attr, nat))
    requires pos <= |data|
    ensures pos <= r.1 <= |data|
    ensures r.0 != Null ==> t.Some? && (t.value.IntegerType? || t.value.FloatType?)
    ensures r.0.IntegerAttr? ==> r.0.width == t.value.width
    ensures r.0.FloatAttr? ==> r.0.width == 32 && t.value == FloatType(32)
  {
    if t.None? then (Null, pos)
    else match t.value
      case IntegerType(w) =>
        var (v, p) := IntegerAt(data, pos, w);
        if v.None? then (Null, p) else (IntegerAttr(w, v.value), p)
      case FloatType(w) =>
        var (v, p) := FloatAt(data, pos, w);
        if v.None? then (Null, p) else (FloatAttr(w, v.value), p)
      case _ => (Null, pos)
  }

  /** `ReadBoolAttribute`: one byte, true when it is not zero. */
  function BoolAt(data: seq<Byte>, pos: nat): (r: (Attr, nat))
    requires pos <= |data|
    ensures pos <= r.1 <= |data|
    ensures r.0 != Null <==> pos < |data|
    ensures r.0 != Null ==> r == (BoolAttr(data[pos] != 0), pos + 1)
  {
    var (b, p) := ByteAt(data, pos);
    if b.None? then (Null, p) else (BoolAttr(b.value != 0), p)
  }

  function TypeAttrAt(data: seq<Byte>, pos: nat): (r: (Attr, nat))
    requires pos <= |data|
    ensures pos <= r.1 <= |data|
    ensures r.0 != Null <==> pos < |data| && DecodeType(data[pos]).Some?
    ensures r.0 != Null ==> r.0 == TypeAttr(DecodeType(data[pos]).value) && r.1 == pos + 1
  {
    var (b, p) := ByteAt(data, pos);
    if b.None? then (Null, p)
    else
      var t := DecodeType(b.value);
      if t.None? then (Null, p) else (TypeAttr(t.value), p)
  }

  /** `ReadStringAttribute`: the length sits in front of the string; the
      reader does not move. A string running past the section fails. */
  function StringAt(data: seq<Byte>, pos: nat): (r: (Attr, nat))
    requires pos <= |data|
    ensures r.1 == pos
    ensures r.0 != Null ==> r.0.StringAttr? && LengthAt(data, pos).Some?
                            && pos + LengthAt(data, pos).value <= |data|
                            && r.0.s == data[pos..pos + LengthAt(data, pos).value]
  {
    var len := LengthAt(data, pos);
    if len.None? || pos + len.value > |data| then (Null, pos)
    else (StringAttr(data[pos..pos + len.value]), pos)
  }

  /** `BEFFile::GetAttribute`: the attribute decoded at `offset`, or the
      null attribute. */
  function GetAttribute(attrs: map<nat, Attr>, offset: nat): Attr
  {
    if offset in attrs then attrs[offset] else Null
  }

  /** `ReadOffsetArrayAttribute`: a length, then that many 4-byte
      descriptors, each the offset of an attribute decoded earlier. The
      reader does not move. */
  function OffsetArrayAt(data: seq<Byte>, pos: nat, attrs: map<nat, Attr>): (r: (Attr, nat))
    requires pos <= |data|
    ensures r.1 == pos
    ensures r.0 != Null ==> r.0.ArrayAttr? && LengthAt(data, pos) == Some(|r.0.elements|)
    ensures r.0 != Null ==> forall i :: 0 <= i < |r.0.elements| ==>
              pos + 4 * i + 4 <= |data|
              && r.0.elements[i] == GetAttribute(attrs, LittleEndian(data[pos + 4 * i..pos + 4 * i + 4]))
  {
    var len := LengthAt(data, pos);
    if len.None? then (Null, pos)
    else if len.value == 0 then (ArrayAttr([]), pos)
    else if len.value * 4 + pos > |data| then (Null, pos)
    else
      (ArrayAttr(seq(len.value, i requires 0 <= i < len.value =>
         GetAttribute(attrs, LittleEndian(data[pos + 4 * i..pos + 4 * i + 4])))), pos)
  }

  // ----- dense elements -----

  const TwoTo56: nat := 0x100_0000_0000_0000
  const TwoTo63: nat := 0x8000_0000_0000_0000

  /** A `uint64_t` stored into an `int64_t`. */
  function ToInt64(u: nat): int
    requires u < TwoTo64
  {
    if u < TwoTo63 then u else u - TwoTo64
  }

  /** The 8-byte word at `p` read as an `int64_t` dimension. */
  function DimAt(data: seq<Byte>, p: nat): int
    requires p + 8 <= |data|
  {
    var u := LittleEndian(data[p..p + 8]);
    assert u < Pow256(8) == TwoTo64 by { assert Pow256(8) == TwoTo64; }
    ToInt64(u)
  }

  /** The `rank` 8-byte dimensions of a dense attribute. */
  function DimsAt(data: seq<Byte>, pos: nat, rank: nat): (r: (Option<seq<int>>, nat))
    requires pos <= |data|
    ensures pos <= r.1 <= |data|
    ensures r.0.Some? <==> pos + 8 * rank <= |data|
    ensures r.0.Some? ==> |r.0.value| == rank && r.1 == pos + 8 * rank
    ensures r.0.Some? ==> forall i :: 0 <= i < rank ==> r.0.value[i] == DimAt(data, pos + 8 * i)
    decreases rank
  {
    if rank == 0 then (Some([]), pos)
    else
      var (d, p) := Int8At(data, pos);
      if d.None? then (None, p)
      else
        assert d.value < Pow256(8) == TwoTo64 by { assert Pow256(8) == TwoTo64; }
        Prepend([ToInt64(d.value)], DimsAt(data, p, rank - 1))
  }

  /** The `count` elements of a dense attribute, each a standard attribute
      of the element type. A null element (a failed read) fails the dense
      attribute, which cannot be built from it. */
  function ElementsAt(data: seq<Byte>, pos: nat, count: nat, t: Type): (r: (Option<seq<Attr>>, nat))
    requires pos <= |data|
    ensures pos <= r.1 <= |data|
    ensures r.0.Some? ==> |r.0.value| == count
    ensures r.0.Some? ==> forall i :: 0 <= i < count ==> r.0.value[i] != Null
    decreases count
  {
    if count == 0 then (Some([]), pos)
    else
      var (a, p) := StandardAt(data, pos, Some(t));
      if a == Null then (None, p)
      else
        var (rest, q) := ElementsAt(data, p, count - 1, t);
        if rest.None? then (None, q) else (Some([a] + rest.value), q)
  }

  /** `ReadDenseElementsAttribute`: a word holding the element type code in
      its top byte and the rank in its low 56 bits, the element count, the
      dimensions, then the elements. */
  function DenseAt(data: seq<Byte>, pos: nat): (r: (Attr, nat))
    requires pos <= |data|
    ensures pos <= r.1 <= |data|
    ensures pos + 16 > |data| ==> r.0 == Null
    ensures r.0 != Null ==> (r.0.DenseAttr? && pos + 16 <= |data|
              && var word := LittleEndian(data[pos..pos + 8]);
                 && DecodeType(word / TwoTo56) == Some(r.0.elementType)
                 && |r.0.shape| == word % TwoTo56
                 && |r.0.values| == LittleEndian(data[pos + 8..pos + 16])
                 && pos + 16 + 8 * |r.0.shape| <= |data|)
  {
    var (w0, p0) := Int8At(data, pos);
    var (w1, p1) := if w0.None? then (None, p0) else Int8At(data, p0);
    if w0.None? || w1.None? then (Null, p1)
    else
      assert w0.value < Pow256(8) == TwoTo64 by { assert Pow256(8) == TwoTo64; }
      var t := DecodeType(w0.value / TwoTo56);
      if t.None? then (Null, p1)
      else
        var (dims, p2) := DimsAt(data, p1, w0.value % TwoTo56);
        if dims.None? then (Null, p2)
        else
          var (elems, p3) := ElementsAt(data, p2, w1.value, t.value);
          if elems.None? then (Null, p3) else (DenseAttr(t.value, dims.value, elems.value), p3)
  }

  // ----- ReadAttribute and flat arrays -----

  /** What an attribute reader may consult in `bef_file_`: the Types table
      and the attributes decoded so far. */
  datatype AttrEnv = AttrEnv(types: seq<Option<Type>>, attrs: map<nat, Attr>)

  /** `ReadAttribute(reader, attribute_type)`: dispatch on the type id. */
  function AttrAt(data: seq<Byte>, pos: nat, t: nat, env: AttrEnv): (r: (Attr, nat))
    requires pos <= |data|
    ensures pos <= r.1 <= |data|
    ensures TypeId(t) == 7 ==> r == (Null, pos)
    decreases t, 0
  {
    var id := TypeId(t);
    if id == StandardAttributeId then StandardAt(data, pos, GetType(env.types, Payload(t)))
    else if id == BoolAttributeId then BoolAt(data, pos)
    else if id == StringAttributeId then StringAt(data, pos)
    else if id == TypeAttributeId then TypeAttrAt(data, pos)
    else if id == DenseElementsAttributeId then DenseAt(data, pos)
    else if id == FlatArrayAttributeId then FlatArrayAt(data, pos, Payload(t), env)
    else if id == OffsetArrayAttributeId then OffsetArrayAt(data, pos, env.attrs)
    else (Null, pos)
  }

  /** `ReadFlatArrayAttribute`: a length in front, then that many elements
      of the element type read one after the other. */
  function FlatArrayAt(data: seq<Byte>, pos: nat, et: nat, env: AttrEnv): (r: (Attr, nat))
    requires pos <= |data|
    ensures pos <= r.1 <= |data|
    ensures r.0 != Null ==> r.0.ArrayAttr? && LengthAt(data, pos) == Some(|r.0.elements|)
    decreases et, 2
  {
    var len := LengthAt(data, pos);
    if len.None? then (Null, pos)
    else if len.value == 0 then (ArrayAttr([]), pos)
    else
      var (elems, p) := FlatElementsAt(data, pos, et, len.value, env);
      (ArrayAttr(elems), p)
  }

  function FlatElementsAt(data: seq<Byte>, pos: nat, et: nat, n: nat, env: AttrEnv): (r: (seq<Attr>, nat))
    requires pos <= |data|
    ensures pos <= r.1 <= |data|
    ensures |r.0| == n
    decreases et, 1, n
  {
    if n == 0 then ([], pos)
    else
      var (a, p) := AttrAt(data, pos, et, env);
      var (rest, q) := FlatElementsAt(data, p, et, n - 1, env);
      ([a] + rest, q)
  }

  /** The elements read so far followed by the rest of the read. */
  function Extend(elems: seq<Attr>, r: (seq<Attr>, nat)): (seq<Attr>, nat)
  {
    (elems + r.0, r.1)
  }

  /** `ReadAttribute(attribute_type, offset)`: an offset past the section
      (a failing `drop_front`) gives the null attribute. */
  function AttributeAtOffset(data: seq<Byte>, offset: nat, t: nat, env: AttrEnv): (a: Attr)
    ensures offset > |data| ==> a == Null
    ensures offset <= |data| ==> a == AttrAt(data, offset, t, env).0
  {
    if offset > |data| then Null else AttrAt(data, offset, t, env).0
  }

  /** A string attribute written after its length is read back: the
      string's bytes sit at `offset` and its length just before. */
  lemma StringAttributeRoundTrip(data: seq<Byte>, offset: nat, s: Bytes, env: AttrEnv)
    requires |s| < TwoTo64
    requires |LengthBytes(|s|, false)| <= offset && offset + |s| <= |data|
    requires data[offset - |LengthBytes(|s|, false)|..offset] == LengthBytes(|s|, false)
    requires data[offset..offset + |s|] == s
    ensures AttributeAtOffset(data, offset, StringAttributeId, env) == StringAttr(s)
  {
    LengthAtOf(data, offset, |s|);
    StringAttrAt(data, offset, s, env);
  }

  /** A string whose length is stored in front of it is read back. */
  lemma StringAttrAt(data: seq<Byte>, offset: nat, s: Bytes, env: AttrEnv)
    requires offset + |s| <= |data| && LengthAt(data, offset) == Some(|s|)
    requires data[offset..offset + |s|] == s
    ensures AttributeAtOffset(data, offset, StringAttributeId, env) == StringAttr(s)
  {
    assert TypeId(StringAttributeId) == StringAttributeId;
  }

  /** `ReadLength` at an offset right after an encoded length. */
  lemma LengthAtOf(data: seq<Byte>, offset: nat, n: nat)
    requires n < TwoTo64
    requires |LengthBytes(n, false)| <= offset <= |data|
    requires data[offset - |LengthBytes(n, false)|..offset] == LengthBytes(n, false)
    ensures LengthAt(data, offset) == Some(n)
  {
    LengthGroupsBefore(data, offset, n, false);
  }

  // ----- the encoder side of bool, dense and flat array attributes -----

  /** The byte a BEF writer emits for a bool attribute. */
  function BoolByte(b: bool): Byte
  {
    if b then 1 else 0
  }

  /** A bool attribute written as one byte is read back. */
  lemma BoolAttributeRoundTrip(pre: seq<Byte>, b: bool, post: seq<Byte>, env: AttrEnv)
    ensures AttrAt(pre + [BoolByte(b)] + post, |pre|, BoolAttributeId, env) == (BoolAttr(b), |pre| + 1)
  {
    assert (pre + [BoolByte(b)] + post)[|pre|] == BoolByte(b);
  }

  /** The byte count of a dense or flat-array element of type `t`: the
      integer widths `IntegerBytes` accepts, and 32-bit floats. */
  function ElementBytes(t: Type): Option<nat>
  {
    match t
    case IntegerType(w) => IntegerBytes(w)
    case FloatType(w) => if w == 32 then Some(4) else None
    case _ => None
  }

  /** The standard attribute of type `t` whose raw value is `v`. */
  function ElementAttr(t: Type, v: nat): Attr
  {
    match t
    case IntegerType(w) => IntegerAttr(w, v)
    case FloatType(w) => FloatAttr(w, v)
    case _ => Null
  }

  function ElementAttrs(t: Type, vs: seq<nat>): (r: seq<Attr>)
    ensures |r| == |vs|
  {
    if vs == [] then [] else [ElementAttr(t, vs[0])] + ElementAttrs(t, vs[1..])
  }

  /** `v` is a value a BEF writer can emit as an element of type `t`. */
  predicate ElementFits(t: Type, v: nat)
  {
    && ElementBytes(t).Some? && v < Pow256(ElementBytes(t).value)
    && (t == IntegerType(1) ==> v < 2)
  }

  /** Every value of `vs` fits, checked from the front. */
  predicate ElementsFit(t: Type, vs: seq<nat>)
  {
    vs == [] || (ElementFits(t, vs[0]) && ElementsFit(t, vs[1..]))
  }

  /** The element `v` little-endian in its width. */
  function ElementBytesOf(t: Type, v: nat): (bs: seq<Byte>)
    requires ElementFits(t, v)
    ensures |bs| == ElementBytes(t).value
  {
    LittleEndianBytes(v, ElementBytes(t).value)
  }

  /** The elements one after the other, each little-endian in its width. */
  function ElementsBytes(t: Type, vs: seq<nat>): seq<Byte>
    requires ElementsFit(t, vs)
  {
    if vs == [] then [] else ElementBytesOf(t, vs[0]) + ElementsBytes(t, vs[1..])
  }

  /** An element written in its width at `p` is read back as a standard
      attribute. */
  lemma StandardReadAt(data: seq<Byte>, p: nat, t: Type, v: nat)
    requires ElementFits(t, v)
    requires p + |ElementBytesOf(t, v)| <= |data| && data[p..p + |ElementBytesOf(t, v)|] == ElementBytesOf(t, v)
    ensures StandardAt(data, p, Some(t)) == (ElementAttr(t, v), p + |ElementBytesOf(t, v)|)
  {
    LittleEndianRoundTrip(v, ElementBytes(t).value);
  }

  /** `data` holds, from `p` on, the elements `vs` of type `t` written one
      after the other. */
  predicate ElementsLayout(data: seq<Byte>, p: nat, t: Type, vs: seq<nat>)
  {
    ElementsFit(t, vs) && p + |ElementsBytes(t, vs)| <= |data| && data[p..p + |ElementsBytes(t, vs)|] == ElementsBytes(t, vs)
  }

  /** Dense elements written one after the other from `p` are read back. */
  lemma {:induction false} ElementsReadAt(data: seq<Byte>, p: nat, t: Type, vs: seq<nat>)
    requires ElementsLayout(data, p, t, vs)
    ensures ElementsAt(data, p, |vs|, t).0 == Some(ElementAttrs(t, vs))
    ensures ElementsAt(data, p, |vs|, t).1 == p + |ElementsBytes(t, vs)|
    decreases |vs|
  {
    if vs != [] {
      var a, next, rest := ElementsHeadAt(data, p, t, vs);
      ElementsReadAt(data, next, t, rest);
      ElementsAtCons(data, p, |vs|, t, a, next, |rest|, ElementAttrs(t, rest), ElementAttrs(t, vs),
                     next + |ElementsBytes(t, rest)|);
    }
  }

  /** The first of written elements is read back as `a`, and the others
      follow it from `next` on. */
  lemma ElementsHeadAt(data: seq<Byte>, p: nat, t: Type, vs: seq<nat>) returns (a: Attr, next: nat, rest: seq<nat>)
    requires ElementsLayout(data, p, t, vs) && vs != []
    ensures |vs| == |rest| + 1 && p <= next <= |data| && a != Null
    ensures StandardAt(data, p, Some(t)).0 == a && StandardAt(data, p, Some(t)).1 == next
    ensures ElementsLayout(data, next, t, rest)
    ensures ElementAttrs(t, vs) == [a] + ElementAttrs(t, rest)
    ensures next + |ElementsBytes(t, rest)| == p + |ElementsBytes(t, vs)|
  {
    a, next, rest := ElementAttr(t, vs[0]), p + |ElementBytesOf(t, vs[0])|, vs[1..];
    ElementsSplit(t, vs);
    RangeSplit(data, p, ElementBytesOf(t, vs[0]), ElementsBytes(t, rest));
    StandardReadAt(data, p, t, vs[0]);
  }

  /** The bytes of non-empty elements are those of the first, then those of
      the rest. */
  lemma ElementsSplit(t: Type, vs: seq<nat>)
    requires ElementsFit(t, vs) && vs != []
    ensures ElementFits(t, vs[0]) && ElementsFit(t, vs[1..])
    ensures ElementsBytes(t, vs) == ElementBytesOf(t, vs[0]) + ElementsBytes(t, vs[1..])
    ensures ElementAttrs(t, vs) == [ElementAttr(t, vs[0])] + ElementAttrs(t, vs[1..])
    ensures ElementAttr(t, vs[0]) != Null && |vs| == |vs[1..]| + 1
  {
  }

  /** A dense read of `count` elements: the first, then the `m` others. */
  lemma ElementsAtCons(data: seq<Byte>, p: nat, count: nat, t: Type, a: Attr, n: nat, m: nat,
                       rest: seq<Attr>, all: seq<Attr>, end: nat)
    requires p <= n <= |data| && count == m + 1 && all == [a] + rest
    requires StandardAt(data, p, Some(t)).0 == a && StandardAt(data, p, Some(t)).1 == n && a != Null
    requires ElementsAt(data, n, m, t).0 == Some(rest) && ElementsAt(data, n, m, t).1 == end
    ensures ElementsAt(data, p, count, t).0 == Some(all) && ElementsAt(data, p, count, t).1 == end
  {
  }

  /** Flat-array elements of a standard type, written one after the other
      from `p`, are read back. */
  lemma FlatElementsReadAt(data: seq<Byte>, p: nat, typeIndex: nat, t: Type, vs: seq<nat>, env: AttrEnv)
    requires GetType(env.types, typeIndex) == Some(t) && ElementsFit(t, vs)
    requires p + |ElementsBytes(t, vs)| <= |data| && data[p..p + |ElementsBytes(t, vs)|] == ElementsBytes(t, vs)
    ensures FlatElementsAt(data, p, AttributeType(StandardAttributeId, typeIndex), |vs|, env).0 == ElementAttrs(t, vs)
    ensures FlatElementsAt(data, p, AttributeType(StandardAttributeId, typeIndex), |vs|, env).1 == p + |ElementsBytes(t, vs)|
  {
    ElementsReadAt(data, p, t, vs);
    FlatElementsAsDense(data, p, typeIndex, t, |vs|, env);
  }

  /** Where a dense read of `n` elements of type `t` succeeds, a flat-array
      read of `n` standard elements of that type reads the same elements
      and ends at the same place. */
  lemma {:induction false} FlatElementsAsDense(data: seq<Byte>, p: nat, typeIndex: nat, t: Type, n: nat, env: AttrEnv)
    requires p <= |data| && GetType(env.types, typeIndex) == Some(t) && ElementsAt(data, p, n, t).0.Some?
    ensures FlatElementsAt(data, p, AttributeType(StandardAttributeId, typeIndex), n, env).0 == ElementsAt(data, p, n, t).0.value
    ensures FlatElementsAt(data, p, AttributeType(StandardAttributeId, typeIndex), n, env).1 == ElementsAt(data, p, n, t).1
    decreases n
  {
    if n > 0 {
      StandardElementAt(data, p, typeIndex, t, env);
      FlatElementsAsDense(data, StandardAt(data, p, Some(t)).1, typeIndex, t, n - 1, env);
    }
  }

  /** An element of a flat array whose element type is a standard
      attribute type is read as a standard attribute of that type. */
  lemma StandardElementAt(data: seq<Byte>, p: nat, typeIndex: nat, t: Type, env: AttrEnv)
    requires p <= |data| && GetType(env.types, typeIndex) == Some(t)
    ensures AttrAt(data, p, AttributeType(StandardAttributeId, typeIndex), env) == StandardAt(data, p, Some(t))
  {
    AttributeTypeSplit(StandardAttributeId, typeIndex);
  }

  /** A flat array of standard elements, its length written in front of
      it, is read back with every element. */
  lemma FlatArrayRoundTrip(data: seq<Byte>, offset: nat, typeIndex: nat, t: Type, vs: seq<nat>, env: AttrEnv)
    requires GetType(env.types, typeIndex) == Some(t) && FlatArrayLayout(data, offset, t, vs)
    ensures AttributeAtOffset(data, offset, AttributeType(FlatArrayAttributeId, AttributeType(StandardAttributeId, typeIndex)), env)
              == ArrayAttr(ElementAttrs(t, vs))
  {
    FlatLengthOfLayout(data, offset, t, vs);
    FlatElementsOfLayout(data, offset, typeIndex, t, vs, env);
    FlatArrayOf(data, offset, typeIndex, |vs|, ElementAttrs(t, vs), env);
  }

  /** `data` holds, at `offset`, the elements `vs` of type `t` as a BEF
      writer emits a flat array, its length in front of them. */
  predicate FlatArrayLayout(data: seq<Byte>, offset: nat, t: Type, vs: seq<nat>)
  {
    && ElementsFit(t, vs) && |vs| < TwoTo64
    && |LengthBytes(|vs|, false)| <= offset && offset + |ElementsBytes(t, vs)| <= |data|
    && data[offset - |LengthBytes(|vs|, false)|..offset] == LengthBytes(|vs|, false)
    && data[offset..offset + |ElementsBytes(t, vs)|] == ElementsBytes(t, vs)
  }

  /** The length in front of a flat array is read back. */
  lemma FlatLengthOfLayout(data: seq<Byte>, offset: nat, t: Type, vs: seq<nat>)
    requires FlatArrayLayout(data, offset, t, vs)
    ensures offset <= |data| && LengthAt(data, offset) == Some(|vs|)
  {
    LengthAtOf(data, offset, |vs|);
  }

  /** The elements of a flat array are read back. */
  lemma FlatElementsOfLayout(data: seq<Byte>, offset: nat, typeIndex: nat, t: Type, vs: seq<nat>, env: AttrEnv)
    requires GetType(env.types, typeIndex) == Some(t) && FlatArrayLayout(data, offset, t, vs)
    ensures FlatElementsAt(data, offset, AttributeType(StandardAttributeId, typeIndex), |vs|, env).0 == ElementAttrs(t, vs)
  {
    FlatElementsReadAt(data, offset, typeIndex, t, vs, env);
  }

  /** The flat array at `offset`, from the reads of its length and its
      elements. */
  lemma FlatArrayOf(data: seq<Byte>, offset: nat, typeIndex: nat, n: nat, elems: seq<Attr>, env: AttrEnv)
    requires offset <= |data| && LengthAt(data, offset) == Some(n)
    requires FlatElementsAt(data, offset, AttributeType(StandardAttributeId, typeIndex), n, env).0 == elems
    ensures AttributeAtOffset(data, offset, AttributeType(FlatArrayAttributeId, AttributeType(StandardAttributeId, typeIndex)), env)
              == ArrayAttr(elems)
  {
    FlatArrayDispatch(data, offset, AttributeType(StandardAttributeId, typeIndex), env);
    FlatArrayFromReads(data, offset, AttributeType(StandardAttributeId, typeIndex), n, elems, env);
  }

  /** A flat-array type word sends the read to the flat-array reader. */
  lemma FlatArrayDispatch(data: seq<Byte>, pos: nat, et: nat, env: AttrEnv)
    requires pos <= |data|
    ensures AttrAt(data, pos, AttributeType(FlatArrayAttributeId, et), env) == FlatArrayAt(data, pos, et, env)
  {
    AttributeTypeSplit(FlatArrayAttributeId, et);
  }

  /** The flat array read from its length and its elements. */
  lemma FlatArrayFromReads(data: seq<Byte>, pos: nat, et: nat, n: nat, elems: seq<Attr>, env: AttrEnv)
    requires pos <= |data| && LengthAt(data, pos) == Some(n)
    requires FlatElementsAt(data, pos, et, n, env).0 == elems
    ensures FlatArrayAt(data, pos, et, env).0 == ArrayAttr(elems)
  {
    if n == 0 {
      assert elems == [];
    }
  }

  /** `d` fits in an `int64_t`. */
  predicate InInt64(d: int)
  {
    -0x8000_0000_0000_0000 <= d < 0x8000_0000_0000_0000
  }

  /** The 8 bytes a BEF writer emits for an `int64_t` dimension. */
  function DimBytes(d: int): (bs: seq<Byte>)
    requires InInt64(d)
    ensures |bs| == 8
  {
    assert Pow256(8) == TwoTo64;
    LittleEndianBytes(if d >= 0 then d else d + TwoTo64, 8)
  }

  /** Every dimension fits in an `int64_t`, checked from the front. */
  predicate DimsFit(dims: seq<int>)
  {
    dims == [] || (InInt64(dims[0]) && DimsFit(dims[1..]))
  }

  function DimsBytes(dims: seq<int>): (bs: seq<Byte>)
    requires DimsFit(dims)
    ensures |bs| == 8 * |dims|
  {
    if dims == [] then [] else DimBytes(dims[0]) + DimsBytes(dims[1..])
  }

  /** A dimension written as an 8-byte word at `p` is read back. */
  lemma DimReadAt(data: seq<Byte>, p: nat, d: int)
    requires InInt64(d) && p + 8 <= |data| && data[p..p + 8] == DimBytes(d)
    ensures DimAt(data, p) == d
  {
    assert Pow256(8) == TwoTo64;
    LittleEndianRoundTrip(if d >= 0 then d else d + TwoTo64, 8);
  }

  /** Dimensions written as 8-byte words from `p` are read back. */
  lemma {:induction false} DimsReadAt(data: seq<Byte>, p: nat, dims: seq<int>)
    requires DimsFit(dims) && p + 8 * |dims| <= |data| && data[p..p + 8 * |dims|] == DimsBytes(dims)
    ensures DimsAt(data, p, |dims|) == (Some(dims), p + 8 * |dims|)
    decreases |dims|
  {
    if dims != [] {
      assert DimsFit(dims[1..]);
      var tail := DimsBytes(dims[1..]);
      RangeSplit(data, p, DimBytes(dims[0]), tail);
      DimReadAt(data, p, dims[0]);
      DimsReadAt(data, p + 8, dims[1..]);
      assert [dims[0]] + dims[1..] == dims;
    }
  }

  /** The words a BEF writer emits in front of a dense elements attribute:
      the element type code in the top byte and the rank in the low 56
      bits of the first, then the element count. */
  function DenseHeader(t: Type, rank: nat, count: nat): (bs: seq<Byte>)
    requires EncodeType(t).Some? && rank < TwoTo56 && count < TwoTo64
    ensures |bs| == 16
  {
    assert Pow256(8) == TwoTo64;
    LittleEndianBytes(EncodeType(t).value * TwoTo56 + rank, 8) + LittleEndianBytes(count, 8)
  }

  /** A dense elements attribute as a BEF writer emits it. */
  function DenseBytes(t: Type, dims: seq<int>, vs: seq<nat>): seq<Byte>
    requires EncodeType(t).Some? && |dims| < TwoTo56 && |vs| < TwoTo64
    requires DimsFit(dims) && ElementsFit(t, vs)
  {
    DenseHeader(t, |dims|, |vs|) + DimsBytes(dims) + ElementsBytes(t, vs)
  }

  /** The header at `p` is read back as the type code, the rank and the
      element count. */
  lemma DenseHeaderReadAt(data: seq<Byte>, p: nat, t: Type, rank: nat, count: nat)
    requires EncodeType(t).Some? && rank < TwoTo56 && count < TwoTo64
    requires p + 16 <= |data| && data[p..p + 16] == DenseHeader(t, rank, count)
    ensures Int8At(data, p).0 == Some(EncodeType(t).value * TwoTo56 + rank) && Int8At(data, p).1 == p + 8
    ensures Int8At(data, p + 8).0 == Some(count) && Int8At(data, p + 8).1 == p + 16
  {
    var w0 := EncodeType(t).value * TwoTo56 + rank;
    assert Pow256(8) == TwoTo64;
    RangeSplit(data, p, LittleEndianBytes(w0, 8), LittleEndianBytes(count, 8));
    LittleEndianRoundTrip(w0, 8);
    LittleEndianRoundTrip(count, 8);
  }

  /** A dense elements attribute written at `p` is read back with its
      element type, shape and elements, and the read ends where the
      writing ended. */
  lemma DenseRoundTrip(data: seq<Byte>, p: nat, t: Type, dims: seq<int>, vs: seq<nat>)
    requires EncodeType(t).Some? && |dims| < TwoTo56 && |vs| < TwoTo64
    requires DimsFit(dims) && ElementsFit(t, vs)
    requires p + |DenseBytes(t, dims, vs)| <= |data| && data[p..p + |DenseBytes(t, dims, vs)|] == DenseBytes(t, dims, vs)
    ensures DenseAt(data, p).0 == DenseAttr(t, dims, ElementAttrs(t, vs))
    ensures DenseAt(data, p).1 == p + |DenseBytes(t, dims, vs)|
  {
    var d := p + 16;
    var e := d + 8 * |dims|;
    var end := DenseLayoutOf(data, p, d, e, t, dims, vs);
    DenseReadAt(data, p, d, e, t, dims, vs);
  }

  /** `data` holds a dense elements attribute from `p` on: its header words
      up to `d`, its dimensions up to `e`, then its elements. */
  predicate DenseLayout(data: seq<Byte>, p: nat, d: nat, e: nat, t: Type, dims: seq<int>, vs: seq<nat>)
  {
    && EncodeType(t).Some? && |dims| < TwoTo56 && |vs| < TwoTo64
    && DimsFit(dims) && ElementsFit(t, vs)
    && d == p + 16 && e == d + 8 * |dims| && e + |ElementsBytes(t, vs)| <= |data|
    && data[p..d] == DenseHeader(t, |dims|, |vs|)
    && data[d..e] == DimsBytes(dims) && data[e..e + |ElementsBytes(t, vs)|] == ElementsBytes(t, vs)
  }

  /** A dense elements attribute written at `p` has the layout of one. */
  lemma DenseLayoutOf(data: seq<Byte>, p: nat, d: nat, e: nat, t: Type, dims: seq<int>, vs: seq<nat>) returns (end: nat)
    requires EncodeType(t).Some? && |dims| < TwoTo56 && |vs| < TwoTo64
    requires DimsFit(dims) && ElementsFit(t, vs)
    requires p + |DenseBytes(t, dims, vs)| <= |data| && data[p..p + |DenseBytes(t, dims, vs)|] == DenseBytes(t, dims, vs)
    requires d == p + 16 && e == d + 8 * |dims|
    ensures DenseLayout(data, p, d, e, t, dims, vs)
    ensures end == e + |ElementsBytes(t, vs)| && end == p + |DenseBytes(t, dims, vs)|
  {
    end := e + |ElementsBytes(t, vs)|;
    RangeSplit3(data, p, DenseHeader(t, |dims|, |vs|), DimsBytes(dims), ElementsBytes(t, vs));
  }

  /** `data` holds a dense elements attribute at `p`: it is read back. */
  lemma DenseReadAt(data: seq<Byte>, p: nat, d: nat, e: nat, t: Type, dims: seq<int>, vs: seq<nat>)
    requires DenseLayout(data, p, d, e, t, dims, vs)
    ensures DenseAt(data, p).0 == DenseAttr(t, dims, ElementAttrs(t, vs))
    ensures DenseAt(data, p).1 == e + |ElementsBytes(t, vs)|
  {
    var w0, code, rank, count := DenseHeaderOfLayout(data, p, d, e, t, dims, vs);
    DenseDimsOfLayout(data, p, d, e, t, dims, vs, rank);
    var elems, end := DenseElementsOfLayout(data, p, d, e, t, dims, vs, count);
    DenseOfWords(data, p, d, w0, count, code, rank, t, dims, e, elems, end);
  }

  /** The two header words of a laid-out dense attribute read back as the
      type code, the rank and the element count. */
  lemma DenseHeaderOfLayout(data: seq<Byte>, p: nat, d: nat, e: nat, t: Type, dims: seq<int>, vs: seq<nat>)
    returns (w0: nat, code: Byte, rank: nat, count: nat)
    requires DenseLayout(data, p, d, e, t, dims, vs)
    ensures p + 16 <= |data| && d == p + 16 && rank == |dims| && count == |vs|
    ensures Int8At(data, p).0 == Some(w0) && Int8At(data, p).1 == p + 8
    ensures Int8At(data, p + 8).0 == Some(count) && Int8At(data, p + 8).1 == p + 16
    ensures w0 / TwoTo56 == code && w0 % TwoTo56 == rank && DecodeType(code) == Some(t)
  {
    code := EncodeType(t).value;
    rank, count := |dims|, |vs|;
    w0 := code * TwoTo56 + rank;
    DenseHeaderReadAt(data, p, t, rank, count);
    WordSplit(code, rank);
    TypeCodeRoundTrip(t, code);
  }

  lemma DenseDimsOfLayout(data: seq<Byte>, p: nat, d: nat, e: nat, t: Type, dims: seq<int>, vs: seq<nat>, rank: nat)
    requires DenseLayout(data, p, d, e, t, dims, vs) && rank == |dims|
    ensures DimsAt(data, d, rank) == (Some(dims), e)
  {
    DimsReadAt(data, d, dims);
  }

  lemma DenseElementsOfLayout(data: seq<Byte>, p: nat, d: nat, e: nat, t: Type, dims: seq<int>, vs: seq<nat>, count: nat)
    returns (elems: seq<Attr>, end: nat)
    requires DenseLayout(data, p, d, e, t, dims, vs) && count == |vs|
    ensures elems == ElementAttrs(t, vs) && end == e + |ElementsBytes(t, vs)|
    ensures ElementsAt(data, e, count, t).0 == Some(elems) && ElementsAt(data, e, count, t).1 == end
  {
    elems, end := ElementAttrs(t, vs), e + |ElementsBytes(t, vs)|;
    ElementsReadAt(data, e, t, vs);
  }

  /** The dense attribute read from its two header words, its dims and its
      elements. */
  lemma DenseOfWords(data: seq<Byte>, p: nat, d: nat, w0: nat, w1: nat, code: Byte, rank: nat, t: Type, dims: seq<int>,
                     e: nat, elems: seq<Attr>, end: nat)
    requires p + 16 <= |data| && d == p + 16
    requires Int8At(data, p).0 == Some(w0) && Int8At(data, p).1 == p + 8
    requires Int8At(data, p + 8).0 == Some(w1) && Int8At(data, p + 8).1 == p + 16
    requires w0 / TwoTo56 == code && w0 % TwoTo56 == rank && DecodeType(code) == Some(t)
    requires DimsAt(data, d, rank) == (Some(dims), e)
    requires ElementsAt(data, e, w1, t).0 == Some(elems) && ElementsAt(data, e, w1, t).1 == end
    ensures DenseAt(data, p) == (DenseAttr(t, dims, elems), end)
  {
  }

  /** The first header word of a dense elements attribute splits into the
      type code and the rank. */
  lemma WordSplit(code: nat, rank: nat)
    requires rank < TwoTo56
    ensures (code * TwoTo56 + rank) / TwoTo56 == code && (code * TwoTo56 + rank) % TwoTo56 == rank
  {
  }

  /** `data` holds `a`, `b` then `c` from `p` on: it holds each of them. */
  lemma RangeSplit3(data: seq<Byte>, p: nat, a: seq<Byte>, b: seq<Byte>, c: seq<Byte>)
    requires p + |a + b + c| <= |data| && data[p..p + |a + b + c|] == a + b + c
    ensures data[p..p + |a|] == a && data[p + |a|..p + |a| + |b|] == b
    ensures data[p + |a| + |b|..p + |a| + |b| + |c|] == c
  {
    RangeSplit(data, p, a + b, c);
    RangeSplit(data, p, a, b);
  }

  /** `BEFAttributeReader`: reads attributes of one Attributes section. */
  class AttributeReader {
    const attributes: seq<Byte>
    const env: AttrEnv

    constructor (attributes: seq<Byte>, env: AttrEnv)
      ensures this.attributes == attributes && this.env == env
    {
      this.attributes := attributes;
      this.env := env;
    }

    /** `ReadLength`: walks backward from `offset - 1`. */
    method ReadLength(offset: nat) returns (r: Option<nat>)
      requires offset <= |attributes|
      ensures r == LengthAt(attributes, offset)
    {
      if offset == 0 {
        return None;
      }
      var i: nat := offset - 1;
      var value: nat := 0;
      while attributes[i] >= 128
        invariant i < |attributes|
        invariant BackwardVbr(attributes, offset - 1, 0) == BackwardVbr(attributes, i, value)
        decreases i
      {
        value := (value * 128 + attributes[i] % 128) % TwoTo64;
        if i == 0 {
          return None;
        }
        i := i - 1;
      }
      r := Some((value * 128 + attributes[i] % 128) % TwoTo64);
    }

    method ReadIntegerAttribute(reader: Reader, width: nat) returns (v: Option<nat>)
      requires reader.Valid() && reader.data == attributes
      modifies reader
      ensures reader.Valid()
      ensures (v, reader.pos) == IntegerAt(attributes, old(reader.pos), width)
    {
      var n := IntegerBytes(width);
      if n.None? {
        return None;
      }
      ghost var start := reader.pos;
      var value: nat := 0;
      for i := 0 to n.value
        invariant reader.Valid() && reader.pos == start + i
        invariant value == LittleEndian(attributes[start..reader.pos])
      {
        var b := reader.ReadByte();
        if b.None? {
          return None;
        }
        LittleEndianSnoc(attributes[start..reader.pos - 1], b.value);
        assert attributes[start..reader.pos] == attributes[start..reader.pos - 1] + [b.value];
        value := value + b.value * Pow256(i);
      }
      v := Some(Truncate(width, value));
    }

    method ReadFloatAttribute(reader: Reader, width: nat) returns (v: Option<nat>)
      requires reader.Valid() && reader.data == attributes
      modifies reader
      ensures reader.Valid()
      ensures (v, reader.pos) == FloatAt(attributes, old(reader.pos), width)
    {
      if width == 32 {
        v := ReadIntegerAttribute(reader, 32);
      } else {
        v := None;
      }
    }

    method ReadStandardAttribute(reader: Reader, t: Option<Type>) returns (a: Attr)
      requires reader.Valid() && reader.data == attributes
      modifies reader
      ensures reader.Valid()
      ensures (a, reader.pos) == StandardAt(attributes, old(reader.pos), t)
    {
      if t.Some? && t.value.IntegerType? {
        var v := ReadIntegerAttribute(reader, t.value.width);
        a := if v.None? then Null else IntegerAttr(t.value.width, v.value);
      } else if t.Some? && t.value.FloatType? {
        var v := ReadFloatAttribute(reader, t.value.width);
        a := if v.None? then Null else FloatAttr(t.value.width, v.value);
      } else {
        a := Null;
      }
    }

    method ReadDenseElementsAttribute(reader: Reader) returns (a: Attr)
      requires reader.Valid() && reader.data == attributes
      modifies reader
      ensures reader.Valid()
      ensures (a, reader.pos) == DenseAt(attributes, old(reader.pos))
    {
      var w0 := reader.ReadInt8();
      if w0.None? {
        return Null;
      }
      var w1 := reader.ReadInt8();
      if w1.None? {
        return Null;
      }
      assert w0.value < TwoTo64 by { assert Pow256(8) == TwoTo64; }
      var t := DecodeType(w0.value / TwoTo56);
      if t.None? {
        return Null;
      }
      var dims := ReadDims(reader, w0.value % TwoTo56);
      if dims.None? {
        return Null;
      }
      var elems := ReadElements(reader, w1.value, t.value);
      if elems.None? {
        return Null;
      }
      a := DenseAttr(t.value, dims.value, elems.value);
    }

    /** The dimension loop of `ReadDenseElementsAttribute`. */
    method ReadDims(reader: Reader, rank: nat) returns (dims: Option<seq<int>>)
      requires reader.Valid() && reader.data == attributes
      modifies reader
      ensures reader.Valid()
      ensures (dims, reader.pos) == DimsAt(attributes, old(reader.pos), rank)
    {
      var acc: seq<int> := [];
      ghost var all := DimsAt(attributes, reader.pos, rank);
      PrependNothing(all);
      for i := 0 to rank
        invariant reader.Valid() && |acc| == i
        invariant all == Prepend(acc, DimsAt(attributes, reader.pos, rank - i))
      {
        var d := reader.ReadInt8();
        if d.None? {
          return None;
        }
        assert d.value < TwoTo64 by { assert Pow256(8) == TwoTo64; }
        PrependTwice(acc, [ToInt64(d.value)], DimsAt(attributes, reader.pos, rank - i - 1));
        acc := acc + [ToInt64(d.value)];
      }
      assert acc + [] == acc;
      dims := Some(acc);
    }

    /** The element loop of `ReadDenseElementsAttribute`. */
    method ReadElements(reader: Reader, count: nat, t: Type) returns (elems: Option<seq<Attr>>)
      requires reader.Valid() && reader.data == attributes
      modifies reader
      ensures reader.Valid()
      ensures (elems, reader.pos) == ElementsAt(attributes, old(reader.pos), count, t)
    {
      var acc: seq<Attr> := [];
      ghost var all := ElementsAt(attributes, reader.pos, count, t);
      PrependNothing(all);
      for i := 0 to count
        invariant reader.Valid() && |acc| == i
        invariant all == Prepend(acc, ElementsAt(attributes, reader.pos, count - i, t))
      {
        var e := ReadStandardAttribute(reader, Some(t));
        if e == Null {
          return None;
        }
        PrependTwice(acc, [e], ElementsAt(attributes, reader.pos, count - i - 1, t));
        acc := acc + [e];
      }
      assert acc + [] == acc;
      elems := Some(acc);
    }

    method ReadAttribute(reader: Reader, t: nat) returns (a: Attr)
      requires reader.Valid() && reader.data == attributes
      modifies reader
      ensures reader.Valid()
      ensures (a, reader.pos) == AttrAt(attributes, old(reader.pos), t, env)
      decreases t, 0
    {
      var id := TypeId(t);
      if id == StandardAttributeId {
        a := ReadStandardAttribute(reader, GetType(env.types, Payload(t)));
      } else if id == BoolAttributeId {
        var b := reader.ReadByte();
        a := if b.None? then Null else BoolAttr(b.value != 0);
      } else if id == StringAttributeId {
        var len := ReadLength(reader.pos);
        a := if len.None? || reader.pos + len.value > |attributes| then Null
             else StringAttr(attributes[reader.pos..reader.pos + len.value]);
      } else if id == TypeAttributeId {
        var b := reader.ReadByte();
        var k := if b.None? then None else DecodeType(b.value);
        a := if k.None? then Null else TypeAttr(k.value);
      } else if id == DenseElementsAttributeId {
        a := ReadDenseElementsAttribute(reader);
      } else if id == FlatArrayAttributeId {
        a := ReadFlatArrayAttribute(reader, Payload(t));
      } else if id == OffsetArrayAttributeId {
        a := ReadOffsetArrayAttribute(reader);
      } else {
        a := Null;
      }
    }

    /** `ReadAttribute(attribute_type, offset)`: a fresh reader at the
        offset, or the null attribute when the offset is past the section. */
    method ReadAttributeAt(t: nat, offset: nat) returns (a: Attr)
      ensures a == AttributeAtOffset(attributes, offset, t, env)
    {
      if offset > |attributes| {
        return Null;
      }
      var reader := new Reader(attributes, offset);
      a := ReadAttribute(reader, t);
    }

    method ReadFlatArrayAttribute(reader: Reader, et: nat) returns (a: Attr)
      requires reader.Valid() && reader.data == attributes
      modifies reader
      ensures reader.Valid()
      ensures (a, reader.pos) == FlatArrayAt(attributes, old(reader.pos), et, env)
      decreases et, 2
    {
      var len := ReadLength(reader.pos);
      if len.None? {
        return Null;
      }
      if len.value == 0 {
        return ArrayAttr([]);
      }
      var elems: seq<Attr> := [];
      ghost var all := FlatElementsAt(attributes, reader.pos, et, len.value, env);
      assert [] + all.0 == all.0;
      for i := 0 to len.value
        invariant reader.Valid() && |elems| == i
        invariant all == Extend(elems, FlatElementsAt(attributes, reader.pos, et, len.value - i, env))
      {
        ghost var before := reader.pos;
        var e := ReadAttribute(reader, et);
        ghost var tail := FlatElementsAt(attributes, reader.pos, et, len.value - i - 1, env);
        assert FlatElementsAt(attributes, before, et, len.value - i, env) == Extend([e], tail);
        assert elems + ([e] + tail.0) == (elems + [e]) + tail.0;
        elems := elems + [e];
      }
      assert elems + [] == elems;
      a := ArrayAttr(elems);
    }

    method ReadOffsetArrayAttribute(reader: Reader) returns (a: Attr)
      requires reader.Valid() && reader.data == attributes
      ensures (a, reader.pos) == OffsetArrayAt(attributes, reader.pos, env.attrs)
    {
      var pos := reader.pos;
      var len := ReadLength(pos);
      if len.None? {
        return Null;
      }
      if len.value == 0 {
        return ArrayAttr([]);
      }
      if len.value * 4 + pos > |attributes| {
        return Null;
      }
      var elems: seq<Attr> := [];
      for i := 0 to len.value
        invariant |elems| == i
        invariant forall j :: 0 <= j < i ==>
                    elems[j] == GetAttribute(env.attrs, LittleEndian(attributes[pos + 4 * j..pos + 4 * j + 4]))
      {
        elems := elems + [GetAttribute(env.attrs, LittleEndian(attributes[pos + 4 * i..pos + 4 * i + 4]))];
      }
      assert elems == OffsetArrayAt(attributes, pos, env.attrs).0.elements;
      a := ArrayAttr(elems);
    }
  }

  // ----- the AttributeTypes section -----

  /** Inserts without overwriting, as `DenseMap::insert` does. */
  function Insert(attrs: map<nat, Attr>, offset: nat, a: Attr): (m: map<nat, Attr>)
    ensures offset in m && m.Keys == attrs.Keys + {offset}
    ensures offset in attrs ==> m == attrs
    ensures offset !in attrs ==> m[offset] == a
  {
    if offset in attrs then attrs else attrs[offset := a]
  }

  /** The remaining `n` entries (offset, attribute type) of the
      AttributeTypes section: each attribute is decoded with the attributes
      decoded before it. Returns the attributes decoded and whether every
      entry was read; a truncated entry stops with what was decoded so far. */
  function AttributesFrom(types: seq<Byte>, pos: nat, n: nat, attributes: seq<Byte>,
                          typeTable: seq<Option<Type>>, attrs: map<nat, Attr>)
    : (r: (map<nat, Attr>, bool))
    requires pos <= |types|
    ensures attrs.Keys <= r.0.Keys
    ensures forall o :: o in attrs ==> r.0[o] == attrs[o]
    decreases n
  {
    if n == 0 then (attrs, true)
    else
      var (offset, p1) := IntAt(types, pos);
      var (t, p2) := if offset.None? then (None, p1) else IntAt(types, p1);
      if offset.None? || t.None? then (attrs, false)
      else
        var a := AttributeAtOffset(attributes, offset.value, t.value, AttrEnv(typeTable, attrs));
        AttributesFrom(types, p2, n - 1, attributes, typeTable, Insert(attrs, offset.value, a))
  }

  /** One entry of the AttributeTypes section: the attribute of type `t` at
      `offset`, then the entries after it. */
  lemma AttributesStep(types: seq<Byte>, pos: nat, n: nat, attributes: seq<Byte>, typeTable: seq<Option<Type>>,
                       attrs: map<nat, Attr>, offset: nat, p1: nat, t: nat, p2: nat)
    requires pos <= |types| && n > 0
    requires IntAt(types, pos) == (Some(offset), p1) && IntAt(types, p1) == (Some(t), p2)
    ensures p2 <= |types|
    ensures AttributesFrom(types, pos, n, attributes, typeTable, attrs)
         == AttributesFrom(types, p2, n - 1, attributes, typeTable,
                           Insert(attrs, offset, AttributeAtOffset(attributes, offset, t, AttrEnv(typeTable, attrs))))
  {
  }

  /** `ReadAttributes`: with no AttributeTypes section no attribute is
      decoded; otherwise a count, then the entries. */
  function AttributesOf(attributes: seq<Byte>, attributeTypes: seq<Byte>, typeTable: seq<Option<Type>>)
    : (r: (map<nat, Attr>, bool))
    ensures attributeTypes == [] ==> r == (map[], true)
    ensures attributeTypes != [] && IntAt(attributeTypes, 0).0.None? ==> r == (map[], false)
    ensures attributeTypes != [] && IntAt(attributeTypes, 0).0 == Some(0) ==> r == (map[], true)
  {
    if attributeTypes == [] then (map[], true)
    else
      var (n, p) := IntAt(attributeTypes, 0);
      if n.None? then (map[], false)
      else AttributesFrom(attributeTypes, p, n.value, attributes, typeTable, map[])
  }

  method ReadAttributes(attributes: seq<Byte>, attributeTypes: seq<Byte>, typeTable: seq<Option<Type>>)
    returns (attrs: map<nat, Attr>, ok: bool)
    ensures (attrs, ok) == AttributesOf(attributes, attributeTypes, typeTable)
  {
    attrs := map[];
    if attributeTypes == [] {
      return attrs, true;
    }
    var typesReader := new Reader(attributeTypes, 0);
    var n := typesReader.ReadInt();
    if n.None? {
      return attrs, false;
    }
    ghost var all := AttributesFrom(attributeTypes, typesReader.pos, n.value, attributes, typeTable, attrs);
    var i := 0;
    while i < n.value
      invariant 0 <= i <= n.value
      invariant typesReader.Valid() && typesReader.data == attributeTypes
      invariant all == AttributesFrom(attributeTypes, typesReader.pos, n.value - i, attributes, typeTable, attrs)
      decreases n.value - i
    {
      ghost var pos := typesReader.pos;
      var offset := typesReader.ReadInt();
      if offset.None? {
        return attrs, false;
      }
      ghost var p1 := typesReader.pos;
      var t := typesReader.ReadInt();
      if t.None? {
        return attrs, false;
      }
      AttributesStep(attributeTypes, pos, n.value - i, attributes, typeTable, attrs, offset.value, p1, t.value,
                     typesReader.pos);
      var attributeReader := new AttributeReader(attributes, AttrEnv(typeTable, attrs));
      var a := attributeReader.ReadAttributeAt(t.value, offset.value);
      attrs := Insert(attrs, offset.value, a);
      i := i + 1;
    }
    ok := true;
  }
}
