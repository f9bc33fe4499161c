/** The `corert` dialect's shape attribute and the attribute logic of
    `corert.executeop` (lib/core_runtime/opdefs/core_runtime.cc): parsing and
    printing `shape<...>`, packing and unpacking `op_attrs`, verifying them,
    and folding `tf.Const`.

    MLIR attributes are values of the datatype `Attr`: a string attribute,
    an array attribute, or any other attribute, known only by an id. Types,
    the device and the operands of an op are opaque ids. */
module CoreRuntime {
  import opened Wrappers
  import opened Decimal

  // ----- shape attribute -----

  /** `ShapeAttr`: unranked, or ranked with its 64-bit dimensions; -1 is
      an unknown dimension. */
  datatype Shape = Unranked | Ranked(dims: seq<int>)

  predicate IsInt64(d: int) { -TwoTo63 <= d < TwoTo63 }

  predicate StartsWith(s: string, prefix: string)
  {
    |prefix| <= |s| && s[..|prefix|] == prefix
  }

  const ShapePrefix: string := "shape<"

  /** The diagnostic of a failed parse, which quotes the whole spec. */
  function ShapeError(spec: string): string
  {
    "unknown corert shape attribute: " + spec
  }

  /** One dimension off the front of `s`: "?" is -1, anything else must be
      a base-10 int64. */
  function DimAt(s: string): (r: Option<(int, string)>)
    ensures r.Some? ==> IsInt64(r.value.0) && |r.value.1| < |s|
  {
    if StartsWith(s, "?") then Some((-1, s[1..]))
    else ConsumeInteger(s)
  }

  function SkipX(s: string): (r: string)
    ensures |r| <= |s|
  {
    if StartsWith(s, "x") then s[1..] else s
  }

  /** The dimensions up to the closing '>', each optionally followed by
      one 'x'; whatever follows the '>' is not looked at. */
  function DimsFrom(s: string): (r: Option<seq<int>>)
    ensures r.Some? ==> forall i :: 0 <= i < |r.value| ==> IsInt64(r.value[i])
    decreases |s|
  {
    if StartsWith(s, ">") then Some([])
    else
      match DimAt(s)
      case None => None
      case Some((dim, rest)) =>
        match DimsFrom(SkipX(rest))
        case None => None
        case Some(dims) => Some([dim] + dims)
  }

  /** `ParseShapeAttr` as a function of the whole spec. */
  function ParseShape(spec: string): (r: Result<Shape>)
    ensures !StartsWith(spec, ShapePrefix) ==> r == Err(ShapeError(spec))
    ensures r.Err? ==> r.msg == ShapeError(spec)
    ensures r.Ok? && r.value.Ranked? ==> forall i :: 0 <= i < |r.value.dims| ==> IsInt64(r.value.dims[i])
  {
    if !StartsWith(spec, ShapePrefix) then Err(ShapeError(spec))
    else
      var rest := spec[|ShapePrefix|..];
      if StartsWith(rest, "*>") then Ok(Unranked)
      else
        match DimsFrom(rest)
        case None => Err(ShapeError(spec))
        case Some(dims) => Ok(Ranked(dims))
  }

  function PrependDims(done: seq<int>, rest: Option<seq<int>>): Option<seq<int>>
  {
    if rest.None? then None else Some(done + rest.value)
  }

  /** One turn of the dimension loop: the dimension at the front of
      `rest` moves to the dimensions read so far. */
  lemma DimsLoopStep(dims: Option<seq<int>>, shape: seq<int>, rest: string, dim: int, after: string)
    requires dims == PrependDims(shape, DimsFrom(rest))
    requires !StartsWith(rest, ">")
    requires DimAt(rest).Some? && DimAt(rest).value.0 == dim && after == SkipX(DimAt(rest).value.1)
    ensures dims == PrependDims(shape + [dim], DimsFrom(after))
  {
    if DimsFrom(after).Some? {
      assert shape + ([dim] + DimsFrom(after).value) == (shape + [dim]) + DimsFrom(after).value;
    }
  }

  /** `ParseShapeAttr`: consumes the spec from the front, one dimension per
      iteration. */
  method ParseShapeAttr(spec: string) returns (r: Result<Shape>)
    ensures r == ParseShape(spec)
  {
    if !StartsWith(spec, ShapePrefix) {
      return Err(ShapeError(spec));
    }
    var rest := spec[|ShapePrefix|..];
    if StartsWith(rest, "*>") {
      return Ok(Unranked);
    }
    ghost var dims := DimsFrom(rest);
    var shape: seq<int> := [];
    assert dims.Some? ==> [] + dims.value == dims.value;
    while !StartsWith(rest, ">")
      invariant dims == PrependDims(shape, DimsFrom(rest))
      decreases |rest|
    {
      ghost var before := rest;
      var dim: int;
      if StartsWith(rest, "?") {
        dim, rest := -1, rest[1..];
      } else {
        var n := ConsumeInteger(rest);
        if n.None? {
          assert DimsFrom(before) == None;
          return Err(ShapeError(spec));
        }
        dim, rest := n.value.0, n.value.1;
      }
      if StartsWith(rest, "x") {
        rest := rest[1..];
      }
      DimsLoopStep(dims, shape, before, dim, rest);
      shape := shape + [dim];
    }
    assert shape + [] == shape;
    r := Ok(Ranked(shape));
  }

  /** How one dimension prints: itself when known, "?" otherwise. */
  function DimText(dim: int): (s: string)
    ensures s == "?" || AllDigits(s)
    ensures |s| > 0
  {
    if dim > -1 then NatToString(dim) else "?"
  }

  /** The dimensions joined by "x". */
  function JoinDims(dims: seq<int>): string
  {
    if |dims| == 0 then ""
    else if |dims| == 1 then DimText(dims[0])
    else DimText(dims[0]) + "x" + JoinDims(dims[1..])
  }

  /** The text `PrintShapeAttr` writes. */
  function ShapeText(shape: Shape): string
  {
    match shape
    case Unranked => "shape<*>"
    case Ranked(dims) => ShapePrefix + JoinDims(dims) + ">"
  }

  lemma {:induction false} JoinDimsSnoc(dims: seq<int>, d: int)
    requires |dims| > 0
    ensures JoinDims(dims + [d]) == JoinDims(dims) + "x" + DimText(d)
    decreases |dims|
  {
    var ds := dims + [d];
    if |dims| == 1 {
      assert ds[1..] == [d];
    } else {
      assert ds[1..] == dims[1..] + [d];
      JoinDimsSnoc(dims[1..], d);
    }
  }

  /** `PrintShapeAttr`: writes "shape<", the dimensions interleaved with
      "x" (or "*" when unranked), then ">". */
  method PrintShapeAttr(shape: Shape) returns (out: string)
    ensures out == ShapeText(shape)
  {
    out := "shape";
    out := out + "<";
    match shape {
      case Ranked(dims) =>
        for i := 0 to |dims|
          invariant out == ShapePrefix + JoinDims(dims[..i])
        {
          if i > 0 {
            out := out + "x";
            JoinDimsSnoc(dims[..i], dims[i]);
          }
          assert dims[..i + 1] == dims[..i] + [dims[i]];
          out := out + DimText(dims[i]);
        }
        assert dims[..|dims|] == dims;
      case Unranked =>
        out := out + "*";
    }
    out := out + ">";
  }

  /** A dimension as it reads back from its printed form: every unknown or
      negative dimension comes back as -1. */
  function ReadBack(dims: seq<int>): (r: seq<int>)
    ensures |r| == |dims|
    ensures forall i :: 0 <= i < |dims| ==> r[i] == (if dims[i] > -1 then dims[i] else -1)
  {
    seq(|dims|, i requires 0 <= i < |dims| => if dims[i] > -1 then dims[i] else -1)
  }

  lemma DimAtOfDimText(d: int, rest: string)
    requires IsInt64(d)
    requires rest == [] || rest[0] == 'x' || rest[0] == '>'
    ensures DimAt(DimText(d) + rest) == Some((if d > -1 then d else -1, rest))
  {
    if d > -1 {
      ConsumeIntegerOfNatToString(d, rest);
      assert NatToString(d)[0] != '?';
    } else {
      assert (DimText(d) + rest)[1..] == rest;
    }
  }

  /** One dimension followed by "x" or by the closing '>'. */
  lemma DimsFromDim(d: int, rest: string)
    requires IsInt64(d)
    requires rest == ">" || (|rest| > 0 && rest[0] == 'x')
    ensures DimsFrom(DimText(d) + rest) == PrependDims([if d > -1 then d else -1], DimsFrom(SkipX(rest)))
  {
    var text := DimText(d) + rest;
    assert text[0] == DimText(d)[0];
    DimAtOfDimText(d, rest);
  }

  lemma DimsFromOfLastDim(d: int)
    requires IsInt64(d)
    ensures DimsFrom(DimText(d) + ">") == Some([if d > -1 then d else -1])
  {
    DimsFromDim(d, ">");
    assert SkipX(">") == ">";
    assert DimsFrom(">") == Some([]);
    assert [if d > -1 then d else -1] + [] == [if d > -1 then d else -1];
  }

  lemma DimsFromOfJoinStep(dims: seq<int>)
    requires |dims| > 1 && IsInt64(dims[0])
    requires DimsFrom(JoinDims(dims[1..]) + ">") == Some(ReadBack(dims[1..]))
    ensures DimsFrom(JoinDims(dims) + ">") == Some(ReadBack(dims))
  {
    var tail := JoinDims(dims[1..]) + ">";
    JoinDimsCons(dims);
    DimsFromDim(dims[0], "x" + tail);
    assert ("x" + tail)[1..] == tail;
    ReadBackCons(dims);
  }

  lemma JoinDimsCons(dims: seq<int>)
    requires |dims| > 1
    ensures JoinDims(dims) + ">" == DimText(dims[0]) + ("x" + (JoinDims(dims[1..]) + ">"))
  {
    var head, tail := DimText(dims[0]), JoinDims(dims[1..]);
    assert JoinDims(dims) == head + "x" + tail;
    RegroupDims(head, tail);
  }

  lemma RegroupDims(head: string, tail: string)
    ensures (head + "x" + tail) + ">" == head + ("x" + (tail + ">"))
  {
  }

  lemma ReadBackCons(dims: seq<int>)
    requires |dims| > 0
    ensures ReadBack(dims) == [if dims[0] > -1 then dims[0] else -1] + ReadBack(dims[1..])
  {
  }

  lemma {:induction false} DimsFromOfJoin(dims: seq<int>)
    requires forall i :: 0 <= i < |dims| ==> IsInt64(dims[i])
    ensures DimsFrom(JoinDims(dims) + ">") == Some(ReadBack(dims))
    decreases |dims|
  {
    if |dims| == 1 {
      DimsFromOfLastDim(dims[0]);
      assert JoinDims(dims) == DimText(dims[0]);
      assert ReadBack(dims) == [if dims[0] > -1 then dims[0] else -1];
    } else if |dims| > 1 {
      DimsFromOfJoin(dims[1..]);
      DimsFromOfJoinStep(dims);
    } else {
      assert JoinDims(dims) + ">" == ">";
    }
  }

  /** The printed dimensions start with a digit, a '?' or nothing. */
  lemma JoinDimsFirst(dims: seq<int>)
    ensures |dims| == 0 ==> JoinDims(dims) == []
    ensures |dims| > 0 ==> |JoinDims(dims)| > 0 && (JoinDims(dims)[0] == '?' || IsDigit(JoinDims(dims)[0]))
  {
    if |dims| > 0 {
      var t := DimText(dims[0]);
      assert JoinDims(dims)[0] == t[0];
    }
  }

  lemma ParsePrintedUnranked()
    ensures ParseShape(ShapeText(Unranked)) == Ok(Unranked)
  {
    var text := ShapeText(Unranked);
    assert text[..|ShapePrefix|] == ShapePrefix;
    assert text[|ShapePrefix|..] == "*>";
  }

  /** A spec with the shape prefix, not unranked, whose dimensions read
      parses to those dimensions. */
  lemma ParseRankedSpec(spec: string, rest: string, dims: seq<int>)
    requires StartsWith(spec, ShapePrefix) && spec[|ShapePrefix|..] == rest
    requires !StartsWith(rest, "*>") && DimsFrom(rest) == Some(dims)
    ensures ParseShape(spec) == Ok(Ranked(dims))
  {
  }

  /** The printed dimensions do not look like the unranked "*>". */
  lemma PrintedDimsNotUnranked(dims: seq<int>)
    ensures !StartsWith(JoinDims(dims) + ">", "*>")
  {
    var rest := JoinDims(dims) + ">";
    JoinDimsFirst(dims);
    assert rest[0] != '*';
    if |rest| >= 2 {
      assert rest[..2][0] == rest[0];
    }
  }

  lemma ParsePrintedRanked(dims: seq<int>)
    requires forall i :: 0 <= i < |dims| ==> IsInt64(dims[i])
    ensures ParseShape(ShapeText(Ranked(dims))) == Ok(Ranked(ReadBack(dims)))
  {
    var text := ShapeText(Ranked(dims));
    var rest := JoinDims(dims) + ">";
    assert text == ShapePrefix + rest;
    assert text[..|ShapePrefix|] == ShapePrefix;
    assert text[|ShapePrefix|..] == rest;
    DimsFromOfJoin(dims);
    PrintedDimsNotUnranked(dims);
    ParseRankedSpec(text, rest, ReadBack(dims));
  }

  /** Parsing a printed shape gives it back with every negative dimension
      read as unknown. */
  lemma ParsePrintedShape(shape: Shape)
    requires shape.Ranked? ==> forall i :: 0 <= i < |shape.dims| ==> IsInt64(shape.dims[i])
    ensures ParseShape(ShapeText(shape)) == Ok(if shape.Unranked? then Unranked else Ranked(ReadBack(shape.dims)))
  {
    if shape.Unranked? {
      ParsePrintedUnranked();
    } else {
      ParsePrintedRanked(shape.dims);
    }
  }

  /** The round trip: every unranked shape, and every ranked shape with no
      dimension below -1, parses back from its printed form unchanged. */
  lemma ShapeRoundTrip(shape: Shape)
    requires shape.Ranked? ==> forall i :: 0 <= i < |shape.dims| ==> -1 <= shape.dims[i] < TwoTo63
    ensures ParseShape(ShapeText(shape)) == Ok(shape)
  {
    ParsePrintedShape(shape);
    if shape.Ranked? {
      assert ReadBack(shape.dims) == shape.dims;
    }
  }

  // ----- corert.executeop -----

  /** An MLIR attribute, as far as `op_attrs` looks into it. */
  datatype Attr = StringAttr(str: string) | ArrayAttr(elements: seq<Attr>) | OtherAttr(id: nat)

  /** `corert.executeop`: result types, device, operands, the `op_attrs`
      array and the `op_name`. */
  datatype ExecuteOp = ExecuteOp(resultTypes: seq<nat>, device: nat, operands: seq<nat>,
                                 opAttrs: seq<Attr>, opName: string)

  const OpAttrMessage: string := "each op_attr should be a key-value pair, where the key is a string"

  /** A two-element array attribute whose first element is a string. */
  predicate IsKeyValue(a: Attr)
  {
    a.ArrayAttr? && |a.elements| == 2 && a.elements[0].StringAttr?
  }

  /** The key of a key-value pair. */
  function Key(a: Attr): string
    requires IsKeyValue(a)
  {
    a.elements[0].str
  }

  /** The value of a key-value pair. */
  function Value(a: Attr): (v: Attr)
    requires IsKeyValue(a)
    ensures a == KeyValue(Key(a), v)
  {
    assert a.elements == [a.elements[0], a.elements[1]];
    a.elements[1]
  }

  /** `VerifyExecuteOpImpl`: fails at the first op_attr that is not a
      key-value pair. */
  function VerifyOpAttrs(opAttrs: seq<Attr>): (r: Result<()>)
    ensures r.Ok? <==> forall i :: 0 <= i < |opAttrs| ==> IsKeyValue(opAttrs[i])
    ensures r.Err? ==> r.msg == OpAttrMessage
  {
    if |opAttrs| == 0 then Ok(())
    else if !IsKeyValue(opAttrs[0]) then Err(OpAttrMessage)
    else
      var r := VerifyOpAttrs(opAttrs[1..]);
      assert forall i :: 1 <= i < |opAttrs| ==> opAttrs[i] == opAttrs[1..][i - 1];
      r
  }

  function VerifyExecuteOp(op: ExecuteOp): (r: Result<()>)
    ensures r.Ok? <==> forall i :: 0 <= i < |op.opAttrs| ==> IsKeyValue(op.opAttrs[i])
    ensures r.Err? ==> r.msg == OpAttrMessage
  {
    VerifyOpAttrs(op.opAttrs)
  }

  function KeyValue(name: string, value: Attr): (a: Attr)
    ensures IsKeyValue(a)
  {
    ArrayAttr([StringAttr(name), value])
  }

  /** The `op_attrs` array `build` makes from (name, value) pairs. */
  function Packed(pairs: seq<(string, Attr)>): (r: seq<Attr>)
    ensures |r| == |pairs|
    ensures forall i :: 0 <= i < |pairs| ==> r[i] == KeyValue(pairs[i].0, pairs[i].1)
  {
    seq(|pairs|, i requires 0 <= i < |pairs| => KeyValue(pairs[i].0, pairs[i].1))
  }

  /** The (name, value) pairs `getOpAttrs` reads from a verified
      `op_attrs` array. */
  function Unpacked(opAttrs: seq<Attr>): (r: seq<(string, Attr)>)
    requires forall i :: 0 <= i < |opAttrs| ==> IsKeyValue(opAttrs[i])
    ensures |r| == |opAttrs|
    ensures forall i :: 0 <= i < |opAttrs| ==> opAttrs[i] == KeyValue(r[i].0, r[i].1)
  {
    seq(|opAttrs|, i requires 0 <= i < |opAttrs| => (Key(opAttrs[i]), Value(opAttrs[i])))
  }

  /** `ExecuteOp::build` from (name, value) pairs: each pair becomes a
      two-element array attribute, in order. */
  method BuildExecuteOp(resultTypes: seq<nat>, device: nat, operands: seq<nat>,
                        opAttrs: seq<(string, Attr)>, opName: string)
    returns (op: ExecuteOp)
    ensures op == ExecuteOp(resultTypes, device, operands, Packed(opAttrs), opName)
    ensures VerifyExecuteOp(op).Ok?
  {
    var attrs: seq<Attr> := [];
    for i := 0 to |opAttrs|
      invariant attrs == Packed(opAttrs[..i])
    {
      var name := StringAttr(opAttrs[i].0);
      var keyValue := [name, opAttrs[i].1];
      attrs := attrs + [ArrayAttr(keyValue)];
    }
    assert opAttrs[..|opAttrs|] == opAttrs;
    op := ExecuteOp(resultTypes, device, operands, attrs, opName);
  }

  /** `ExecuteOp::getOpAttrs`: the casts it makes hold on a verified op. */
  method GetOpAttrs(op: ExecuteOp) returns (pairs: seq<(string, Attr)>)
    requires VerifyExecuteOp(op).Ok?
    ensures pairs == Unpacked(op.opAttrs)
  {
    pairs := [];
    for i := 0 to |op.opAttrs|
      invariant pairs == Unpacked(op.opAttrs[..i])
    {
      var keyValue := op.opAttrs[i].elements;
      assert IsKeyValue(op.opAttrs[i]);
      pairs := pairs + [(keyValue[0].str, keyValue[1])];
    }
    assert op.opAttrs[..|op.opAttrs|] == op.opAttrs;
  }

  /** `getOpAttrs` after `build` gives back the pairs `build` was given. */
  lemma UnpackPacked(pairs: seq<(string, Attr)>)
    ensures Unpacked(Packed(pairs)) == pairs
  {
  }

  /** `build` after `getOpAttrs` gives back a verified `op_attrs` array. */
  lemma PackUnpacked(opAttrs: seq<Attr>)
    requires VerifyOpAttrs(opAttrs).Ok?
    ensures Packed(Unpacked(opAttrs)) == opAttrs
  {
  }

  /** The value of the first pair whose key is "value". */
  function FirstValue(opAttrs: seq<Attr>): (r: Option<Attr>)
    requires forall i :: 0 <= i < |opAttrs| ==> IsKeyValue(opAttrs[i])
    ensures r.Some? <==> exists i :: 0 <= i < |opAttrs| && Key(opAttrs[i]) == "value"
    ensures r.Some? ==> exists i :: && 0 <= i < |opAttrs| && Key(opAttrs[i]) == "value"
                                    && r.value == Value(opAttrs[i])
                                    && forall j :: 0 <= j < i ==> Key(opAttrs[j]) != "value"
  {
    if |opAttrs| == 0 then None
    else if Key(opAttrs[0]) == "value" then Some(Value(opAttrs[0]))
    else
      var r := FirstValue(opAttrs[1..]);
      assert forall i :: 1 <= i < |opAttrs| ==> opAttrs[i] == opAttrs[1..][i - 1];
      r
  }

  /** `ExecuteOp::fold`: only `tf.Const` folds, to the value of its first
      "value" pair; anything else fails. */
  function Fold(op: ExecuteOp): (r: Option<Attr>)
    requires VerifyExecuteOp(op).Ok?
    ensures r.Some? <==> op.opName == "tf.Const" && exists i :: 0 <= i < |op.opAttrs| && Key(op.opAttrs[i]) == "value"
  {
    if op.opName == "tf.Const" then FirstValue(op.opAttrs) else None
  }

  /** The first pair named "value" in a list of (name, value) pairs. */
  function LookupValue(pairs: seq<(string, Attr)>): Option<Attr>
  {
    if |pairs| == 0 then None
    else if pairs[0].0 == "value" then Some(pairs[0].1)
    else LookupValue(pairs[1..])
  }

  /** A `tf.Const` built from (name, value) pairs folds to the value of its
      first pair named "value". */
  lemma {:induction false} FoldBuilt(resultTypes: seq<nat>, device: nat, operands: seq<nat>,
                                     pairs: seq<(string, Attr)>)
    ensures Fold(ExecuteOp(resultTypes, device, operands, Packed(pairs), "tf.Const")) == LookupValue(pairs)
    decreases |pairs|
  {
    if |pairs| > 0 {
      assert Packed(pairs)[1..] == Packed(pairs[1..]);
      FoldBuilt(resultTypes, device, operands, pairs[1..]);
    }
  }
}
