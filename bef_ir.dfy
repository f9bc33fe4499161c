/** The values a BEF file decodes to: types, locations, attributes, the
    function index entries, and the plain IR (operations, regions, registers)
    that stands in for the MLIR objects the converter builds. */
module BefIr {
  import opened Wrappers
  import opened BefReader

  /** The bytes of a BEF string (a `string_view` into the file). */
  type Bytes = seq<Byte>

  /** An MLIR type as far as the decoder inspects it: integer and float
      types by width, the `none` type used for registers without type
      information, and any other type the type parser produces. */
  datatype Type =
    | IntegerType(width: nat)
    | FloatType(width: nat)
    | NoneType
    | OtherType(spelling: Bytes)

  datatype Location =
    | UnknownLoc
    | FileLineColLoc(filename: Bytes, line: nat, column: nat)

  /** An MLIR attribute. `Null` is the null attribute that the attribute
      readers return on error. Float payloads are kept as their raw bits. */
  datatype Attr =
    | Null
    | UnitAttr
    | BoolAttr(b: bool)
    | IntegerAttr(width: nat, value: nat)
    | FloatAttr(width: nat, bits: nat)
    | StringAttr(s: Bytes)
    | TypeAttr(t: Type)
    | ArrayAttr(elements: seq<Attr>)
    | DenseAttr(elementType: Type, shape: seq<int>, values: seq<Attr>)
    | SymbolRefAttr(symbol: Bytes)

  /** `FunctionKind::kNativeFunction` (the only kind the decoder tests). */
  const NativeFunctionKind: nat := 1

  /** An entry of the FunctionIndex section (`BEFFunction`). */
  datatype BefFunction = BefFunction(
    functionOffset: nat,
    name: Bytes,
    kind: Byte,
    argumentTypes: seq<Type>,
    resultTypes: seq<Type>)
  {
    /** Named functions become top-level functions; unnamed ones are
        inlined as nested regions. */
    predicate IsNamedFunction() { name != [] }

    predicate IsNativeFunction() { kind == NativeFunctionKind }
  }

  /** The tables of a BEF file that the first phase fills (`BEFFile`). */
  datatype BefFile = BefFile(
    location: Location,
    locationFilenames: seq<Bytes>,
    locationPositions: map<nat, Location>,
    strings: map<nat, Bytes>,
    attributes: map<nat, Attr>,
    kernels: seq<Bytes>,
    types: seq<Option<Type>>,
    functionIndex: seq<BefFunction>)

  /** An SSA value of a function body: an entry block argument, or result
      `index` of the operation at position `op` of the block. */
  datatype Value =
    | BlockArg(index: nat)
    | OpResult(op: nat, index: nat)

  /** An operation. Nested regions are counted here and filled in by
      function resolution. */
  datatype Op = Op(
    name: Bytes,
    location: Location,
    operands: seq<Value>,
    attributes: seq<(Bytes, Attr)>,
    numRegions: nat,
    resultTypes: seq<Type>)

  /** The single-block region of a decoded function body: entry block
      argument types, operations, and the operands of the closing
      `hex.return`. */
  datatype Region = Region(
    argumentTypes: seq<Type>,
    ops: seq<Op>,
    returnOperands: seq<Value>)

  /** The type of a value of a region whose operands are well defined. */
  function ValueType(r: Region, v: Value): Option<Type>
  {
    match v
    case BlockArg(i) => if i < |r.argumentTypes| then Some(r.argumentTypes[i]) else None
    case OpResult(j, i) =>
      if j < |r.ops| && i < |r.ops[j].resultTypes| then Some(r.ops[j].resultTypes[i]) else None
  }

  /** Every operand is defined earlier in the block: a block argument that
      exists, or a result of an earlier operation that it has. */
  ghost predicate DefinedBefore(v: Value, numArgs: nat, ops: seq<Op>, k: nat)
    requires k <= |ops|
  {
    match v
    case BlockArg(i) => i < numArgs
    case OpResult(j, i) => j < k && i < |ops[j].resultTypes|
  }

  ghost predicate DefBeforeUse(r: Region)
  {
    && (forall k, m :: 0 <= k < |r.ops| && 0 <= m < |r.ops[k].operands| ==>
          DefinedBefore(r.ops[k].operands[m], |r.argumentTypes|, r.ops, k))
    && (forall m :: 0 <= m < |r.returnOperands| ==>
          DefinedBefore(r.returnOperands[m], |r.argumentTypes|, r.ops, |r.ops|))
  }
}
