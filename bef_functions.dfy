/** `BEFFunctionReader`: decodes the body of one function of the Functions
    section into a single-block region. Registers are the SSA values of the
    body; each is defined once, by an entry block argument or by a kernel
    result, before any kernel uses it. */
module BefFunctions {
  import opened Wrappers
  import opened BefReader
  import opened BefIr
  import opened BefTables
  import opened BefKernel

  /** The outcome of a step that emits a diagnostic when it fails. */
  datatype Status = Success | Failure(message: string)

  const RedefinitionMessage: string := "Redefinition of registers"
  const UndefinedRegistersMessage: string := "Using undefined registers."
  const UnknownCalleeMessage: string := "Unknown callee."
  const UndefinedReturnMessage: string := "Using an undefined register in return op."
  const PseudoMessage: string := "Failed to read pseudo."
  const FunctionLocationMessage: string := "Failed to read function location"
  const RegisterTableMessage: string := "Failed to read register table."
  const KernelTableMessage: string := "Failed to read kernel table."
  const ResultRegsMessage: string := "Failed to read result regs."
  const KernelsMessage: string := "Failed to read kernels."
  /** The failure of every check the source leaves to `assert`, `.at()`,
      `getValue()` or a read past the kernel area. */
  const MalformedMessage: string := "Malformed BEF function body."

  /** `RegisterInfo`: the register's type, its use count, the kernels that
      use it, and the value that defines it once it is defined. */
  datatype RegisterInfo = RegisterInfo(
    regType: Type,
    numUses: nat,
    usedBys: seq<nat>,
    value: Option<Value>)

  /** A value may define a register of its own type, or of the `none` type
      given to registers without type information. */
  predicate TypeAgrees(regType: Type, valueType: Type)
  {
    regType == valueType || regType == NoneType
  }

  /** Single assignment across a step: the table keeps its size and types,
      and a register that was defined keeps its value. */
  ghost predicate KeepsDefinitions(before: seq<RegisterInfo>, after: seq<RegisterInfo>)
  {
    && |after| == |before|
    && forall r :: 0 <= r < |before| ==>
         && after[r].regType == before[r].regType
         && after[r].numUses == before[r].numUses
         && (before[r].value.Some? ==> after[r].value == before[r].value)
  }

  predicate Distinct(s: seq<nat>)
  {
    forall i, j :: 0 <= i < j < |s| ==> s[i] != s[j]
  }

  /** Every argument register exists and is defined. */
  predicate OperandsDefined(arguments: seq<nat>, registers: seq<RegisterInfo>)
  {
    forall m :: 0 <= m < |arguments| ==> arguments[m] < |registers| && registers[arguments[m]].value.Some?
  }

  /** Every argument register exists and one of them is not yet defined. */
  predicate SomeOperandUndefined(arguments: seq<nat>, registers: seq<RegisterInfo>)
  {
    && (forall m :: 0 <= m < |arguments| ==> arguments[m] < |registers|)
    && (exists m :: 0 <= m < |arguments| && registers[arguments[m]].value.None?)
  }

  /** The first `i` results of `DefineResults` are defined: registers
      that existed, were undefined and agree in type now hold their values
      and used-by lists; no other register changed. */
  ghost predicate ResultsDefinedUpTo(before: seq<RegisterInfo>, regs: seq<RegisterInfo>, results: seq<nat>,
                                     values: seq<Value>, types: seq<Type>, usedBys: seq<seq<nat>>, i: nat)
    requires i <= |results| && |values| == |results| && |types| == |results| && |usedBys| == |results|
  {
    && |regs| == |before|
    && Distinct(results[..i])
    && (forall j :: 0 <= j < i ==>
          && results[j] < |before|
          && before[results[j]].value.None?
          && TypeAgrees(before[results[j]].regType, types[j])
          && regs[results[j]] == before[results[j]].(value := Some(values[j]), usedBys := usedBys[j]))
    && (forall r :: 0 <= r < |regs| && r !in results[..i] ==> regs[r] == before[r])
  }

  /** Defining result `i` extends the defined prefix by one. */
  lemma DefineResultsStep(before: seq<RegisterInfo>, regs: seq<RegisterInfo>, results: seq<nat>,
                          values: seq<Value>, types: seq<Type>, usedBys: seq<seq<nat>>, i: nat)
    requires i < |results| && |values| == |results| && |types| == |results| && |usedBys| == |results|
    requires ResultsDefinedUpTo(before, regs, results, values, types, usedBys, i)
    requires results[i] < |regs| && regs[results[i]].value.None? && TypeAgrees(regs[results[i]].regType, types[i])
    ensures ResultsDefinedUpTo(before,
                               regs[results[i] := regs[results[i]].(value := Some(values[i]), usedBys := usedBys[i])],
                               results, values, types, usedBys, i + 1)
  {
    var k := results[i];
    assert forall j :: 0 <= j < i ==> regs[results[j]].value.Some?;
    assert k !in results[..i];
    assert regs[k] == before[k];
    assert results[..i + 1] == results[..i] + [k];
  }

  /** Result `i` cannot be defined: then not all results can. */
  lemma DefineResultsFails(before: seq<RegisterInfo>, regs: seq<RegisterInfo>, results: seq<nat>,
                           values: seq<Value>, types: seq<Type>, usedBys: seq<seq<nat>>, i: nat)
    requires i < |results| && |values| == |results| && |types| == |results| && |usedBys| == |results|
    requires ResultsDefinedUpTo(before, regs, results, values, types, usedBys, i)
    requires !(results[i] < |regs| && regs[results[i]].value.None? && TypeAgrees(regs[results[i]].regType, types[i]))
    ensures !(&& Distinct(results)
              && forall j :: 0 <= j < |results| ==>
                   && results[j] < |before|
                   && before[results[j]].value.None?
                   && TypeAgrees(before[results[j]].regType, types[j]))
  {
    var k := results[i];
    if k < |regs| && k in results[..i] {
      var j :| 0 <= j < i && results[j] == k;
      assert !Distinct(results);
    }
  }

  /** All results defined: the postcondition of `DefineResults`. */
  lemma DefineResultsDone(before: seq<RegisterInfo>, regs: seq<RegisterInfo>, results: seq<nat>,
                          values: seq<Value>, types: seq<Type>, usedBys: seq<seq<nat>>)
    requires |values| == |results| && |types| == |results| && |usedBys| == |results|
    requires ResultsDefinedUpTo(before, regs, results, values, types, usedBys, |results|)
    ensures Distinct(results)
    ensures forall i :: 0 <= i < |results| ==>
              && results[i] < |before|
              && before[results[i]].value.None?
              && TypeAgrees(before[results[i]].regType, types[i])
              && regs[results[i]] == before[results[i]].(value := Some(values[i]), usedBys := usedBys[i])
    ensures forall r :: 0 <= r < |regs| && r !in results ==> regs[r] == before[r]
  {
    assert results[..|results|] == results;
  }

  // ----- register table -----

  /** The type of register i: the type its type index names, or `none`
      when there is no type index or it names no type. */
  function RegisterType(typeIndices: seq<nat>, i: nat, types: seq<Option<Type>>): Type
  {
    if i < |typeIndices| && GetType(types, typeIndices[i]).Some? then GetType(types, typeIndices[i]).value
    else NoneType
  }

  /** The register table of a function: one undefined register per use
      count; the type indices, when present, must be one per register. */
  function RegisterTableOf(typeIndices: seq<nat>, uses: seq<nat>, types: seq<Option<Type>>)
    : (r: Option<seq<RegisterInfo>>)
    ensures r.Some? <==> typeIndices == [] || |typeIndices| == |uses|
    ensures r.Some? ==> |r.value| == |uses|
    ensures r.Some? ==> forall i :: 0 <= i < |uses| ==>
              r.value[i].numUses == uses[i] && r.value[i].value.None? && r.value[i].usedBys == []
  {
    if typeIndices != [] && |typeIndices| != |uses| then None
    else Some(seq(|uses|, i requires 0 <= i < |uses| =>
                RegisterInfo(RegisterType(typeIndices, i, types), uses[i], [], None)))
  }

  /** A register without a type index, or whose index names no type, has
      the `none` type; one whose index names a type has that type. The
      index is narrowed to `int` first, so only its low 32 bits count. */
  lemma RegisterTypeCases(typeIndices: seq<nat>, uses: seq<nat>, types: seq<Option<Type>>, i: nat)
    requires RegisterTableOf(typeIndices, uses, types).Some? && i < |uses|
    ensures typeIndices == [] ==> RegisterTableOf(typeIndices, uses, types).value[i].regType == NoneType
    ensures typeIndices != [] && GetType(types, typeIndices[i]).None? ==>
              RegisterTableOf(typeIndices, uses, types).value[i].regType == NoneType
    ensures typeIndices != [] && typeIndices[i] % 0x1_0000_0000 < 0x8000_0000
            && typeIndices[i] % 0x1_0000_0000 < |types| && types[typeIndices[i] % 0x1_0000_0000].Some? ==>
              RegisterTableOf(typeIndices, uses, types).value[i].regType == types[typeIndices[i] % 0x1_0000_0000].value
  {
  }

  // ----- kernel table -----

  /** `n` (offset, operand count) pairs. */
  function EntriesAt(data: seq<Byte>, pos: nat, n: nat): (r: (Option<seq<(nat, nat)>>, nat))
    requires pos <= |data|
    ensures pos <= r.1 <= |data|
    ensures r.0.Some? ==> |r.0.value| == n
    decreases n
  {
    if n == 0 then (Some([]), pos)
    else
      var (o, p) := IntAt(data, pos);
      if o.None? then (None, p)
      else
        var (c, q) := IntAt(data, p);
        if c.None? then (None, q) else Prepend([(o.value, c.value)], EntriesAt(data, q, n - 1))
  }

  /** The kernel table: a count, then that many entries. */
  function KernelTableAt(data: seq<Byte>, pos: nat): (r: (Option<seq<(nat, nat)>>, nat))
    requires pos <= |data|
    ensures pos <= r.1 <= |data|
  {
    var (n, p) := IntAt(data, pos);
    if n.None? then (None, p) else EntriesAt(data, p, n.value)
  }

  function EntryBytes(e: (nat, nat)): seq<Byte>
  {
    VbrBytes(e.0) + VbrBytes(e.1)
  }

  function EntriesBytes(es: seq<(nat, nat)>): seq<Byte>
  {
    if es == [] then [] else EntryBytes(es[0]) + EntriesBytes(es[1..])
  }

  lemma EntryRoundTrip(pre: seq<Byte>, e: (nat, nat), post: seq<Byte>)
    ensures var data := pre + EntryBytes(e) + post;
            var p := |pre| + |VbrBytes(e.0)|;
            && IntAt(data, |pre|) == (Some(e.0), p)
            && IntAt(data, p) == (Some(e.1), |pre| + |EntryBytes(e)|)
  {
    var data := pre + EntryBytes(e) + post;
    var a, b := VbrBytes(e.0), VbrBytes(e.1);
    assert data == pre + a + (b + post);
    VbrRoundTrip(pre, e.0, b + post);
    assert data == (pre + a) + b + post;
    VbrRoundTrip(pre + a, e.1, post);
  }

  lemma {:induction false} EntriesRoundTrip(pre: seq<Byte>, es: seq<(nat, nat)>, post: seq<Byte>)
    ensures EntriesAt(pre + EntriesBytes(es) + post, |pre|, |es|) == (Some(es), |pre| + |EntriesBytes(es)|)
    decreases |es|
  {
    var data := pre + EntriesBytes(es) + post;
    if es == [] {
      assert data == pre + post;
    } else {
      var pre' := pre + EntryBytes(es[0]);
      var rest := EntriesBytes(es[1..]);
      assert data == pre + EntryBytes(es[0]) + (rest + post);
      EntryRoundTrip(pre, es[0], rest + post);
      assert data == pre' + rest + post;
      EntriesRoundTrip(pre', es[1..], post);
      assert EntriesAt(data, |pre|, |es|) == Prepend([es[0]], EntriesAt(data, |pre'|, |es| - 1));
      assert [es[0]] + es[1..] == es;
    }
  }

  lemma KernelTableAtCount(data: seq<Byte>, pos: nat, n: nat, p: nat)
    requires pos <= |data| && IntAt(data, pos) == (Some(n), p)
    ensures p <= |data| && KernelTableAt(data, pos) == EntriesAt(data, p, n)
  {
  }

  /** Reading back a written kernel table gives the entries and stops
      right after them. */
  lemma {:induction false} KernelTableRoundTrip(pre: seq<Byte>, es: seq<(nat, nat)>, post: seq<Byte>)
    ensures KernelTableAt(pre + VbrBytes(|es|) + EntriesBytes(es) + post, |pre|)
         == (Some(es), |pre| + |VbrBytes(|es|)| + |EntriesBytes(es)|)
  {
    var v := VbrBytes(|es|);
    var data := pre + v + EntriesBytes(es) + post;
    assert IntAt(data, |pre|) == (Some(|es|), |pre| + |v|) by {
      assert data == pre + v + (EntriesBytes(es) + post);
      VbrRoundTrip(pre, |es|, EntriesBytes(es) + post);
    }
    assert EntriesAt(data, |pre| + |v|, |es|) == (Some(es), |pre| + |v| + |EntriesBytes(es)|) by {
      EntriesRoundTrip(pre + v, es, post);
    }
    KernelTableAtCount(data, |pre|, |es|, |pre| + |v|);
  }

  // ----- the arguments pseudo kernel's marker byte -----

  /** The check `ReadKernels` applies to the special-attribute byte of the
      arguments pseudo kernel, as written: it runs only when the read FAILS
      (`ReadByte` returns true on failure), and then tests a byte that was
      never written, here `unread`. */
  predicate PseudoMarkerAcceptedAsWritten(read: Option<Byte>, unread: Byte)
  {
    read.Some? || unread == UnknownSpecialAttribute
  }

  /** The check as intended: a pseudo kernel must not be marked; when the
      byte is read it must be kUnknown. */
  predicate PseudoMarkerAccepted(read: Option<Byte>)
  {
    read.None? || read.value == UnknownSpecialAttribute
  }

  /** A pseudo kernel marked `bef.nonstrict` passes the check as written
      whatever the unread byte holds, and is refused by the intended one. */
  lemma NonStrictPseudoKernelAcceptedAsWritten(unread: Byte)
    ensures PseudoMarkerAcceptedAsWritten(Some(NonStrictSpecialAttribute), unread)
    ensures !PseudoMarkerAccepted(Some(NonStrictSpecialAttribute))
  {
  }

  // ----- reading slot names off the attribute-names section -----

  /** The special-attribute byte of a kernel. */
  method ReadSpecialAttributes(names: Reader) returns (attrs: seq<(Bytes, Attr)>)
    requires names.Valid()
    modifies names
    ensures names.Valid()
    ensures (attrs, names.pos) == SpecialAttributesAt(names.data, old(names.pos))
  {
    var b := names.ReadByte();
    if b == Some(NonStrictSpecialAttribute) {
      attrs := [(NonStrictName, UnitAttr)];
    } else {
      attrs := [];
    }
  }

  /** The names of `n` attribute slots, one name offset per slot. */
  method ReadSlotNames(names: Reader, strings: map<nat, Bytes>, n: nat) returns (slotNames: seq<Bytes>)
    requires names.Valid()
    modifies names
    ensures names.Valid()
    ensures (slotNames, names.pos) == AttributeNamesFrom(names.data, old(names.pos), strings, 0, n)
  {
    slotNames := [];
    var i := 0;
    assert [] + AttributeNamesFrom(names.data, names.pos, strings, 0, n).0
        == AttributeNamesFrom(names.data, names.pos, strings, 0, n).0;
    while i < n
      invariant 0 <= i <= n && |slotNames| == i && names.Valid()
      invariant var rest := AttributeNamesFrom(names.data, names.pos, strings, i, n - i);
                AttributeNamesFrom(names.data, old(names.pos), strings, 0, n) == (slotNames + rest.0, rest.1)
    {
      ghost var before := names.pos;
      var offset := names.ReadInt();
      var name := DefaultAttributeName(i);
      if offset.Some? && offset.value in strings {
        name := strings[offset.value];
      }
      AttributeNamesStep(names.data, before, strings, i, n - i, slotNames);
      slotNames := slotNames + [name];
      i := i + 1;
    }
    assert slotNames + [] == slotNames;
  }

  /** Reading slot i's name moves it from the names still to come to the
      names already read. */
  lemma AttributeNamesStep(data: seq<Byte>, pos: nat, strings: map<nat, Bytes>, i: nat, n: nat, done: seq<Bytes>)
    requires pos <= |data| && n > 0
    ensures var (name, p) := AttributeNameAt(data, pos, strings, i);
            var rest := AttributeNamesFrom(data, p, strings, i + 1, n - 1);
            && p <= |data|
            && (done + AttributeNamesFrom(data, pos, strings, i, n).0, AttributeNamesFrom(data, pos, strings, i, n).1)
               == ((done + [name]) + rest.0, rest.1)
  {
    var (name, p) := AttributeNameAt(data, pos, strings, i);
    var rest := AttributeNamesFrom(data, p, strings, i + 1, n - 1);
    assert done + ([name] + rest.0) == (done + [name]) + rest.0;
  }

  lemma FunctionRefsStep(index: seq<BefFunction>, fns: seq<nat>, i: nat)
    requires i < |fns|
    ensures FunctionRefs(index, fns[i..]) ==
      if fns[i] >= |index| then None
      else AppendRefs(SlotRef(index[fns[i]]).0, SlotRef(index[fns[i]]).1, FunctionRefs(index, fns[i + 1..]))
  {
    assert fns[i..][1..] == fns[i + 1..];
  }

  /** One turn of the function-reference loop: the slot at `i` moves from
      the unread part to the accumulated part, as a `callee` attribute when
      it names a named function and as one more anonymous function
      otherwise. */
  lemma FunctionRefsLoopStep(index: seq<BefFunction>, fns: seq<nat>, i: nat,
                             callees: seq<(Bytes, Attr)>, anonymous: nat)
    requires i < |fns| && fns[i] < |index|
    requires FunctionRefs(index, fns) == AppendRefs(callees, anonymous, FunctionRefs(index, fns[i..]))
    ensures index[fns[i]].IsNamedFunction() ==>
      FunctionRefs(index, fns) ==
      AppendRefs(callees + [(CalleeName, SymbolRefAttr(index[fns[i]].name))], anonymous, FunctionRefs(index, fns[i + 1..]))
    ensures !index[fns[i]].IsNamedFunction() ==>
      FunctionRefs(index, fns) == AppendRefs(callees, anonymous + 1, FunctionRefs(index, fns[i + 1..]))
  {
    FunctionRefsStep(index, fns, i);
    var slot := SlotRef(index[fns[i]]);
    AppendRefsTwice(callees, anonymous, slot.0, slot.1, FunctionRefs(index, fns[i + 1..]));
    assert callees + [] == callees;
  }

  /** The function-reference loop stops at an index that names no
      function, and the kernel has an unknown callee. */
  lemma FunctionRefsLoopUnknown(index: seq<BefFunction>, fns: seq<nat>, i: nat,
                                callees: seq<(Bytes, Attr)>, anonymous: nat)
    requires i < |fns| && fns[i] >= |index|
    requires FunctionRefs(index, fns) == AppendRefs(callees, anonymous, FunctionRefs(index, fns[i..]))
    ensures FunctionRefs(index, fns) == None
  {
    FunctionRefsStep(index, fns, i);
  }

  /** Before the function-reference loop nothing is accumulated. */
  lemma FunctionRefsLoopInit(index: seq<BefFunction>, fns: seq<nat>)
    ensures FunctionRefs(index, fns) == AppendRefs([], 0, FunctionRefs(index, fns[0..]))
  {
    assert fns[0..] == fns;
    var r := FunctionRefs(index, fns);
    if r.Some? {
      assert [] + r.value.0 == r.value.0;
    }
  }

  /** After the function-reference loop everything is accumulated. */
  lemma FunctionRefsLoopEnd(index: seq<BefFunction>, fns: seq<nat>, callees: seq<(Bytes, Attr)>, anonymous: nat)
    requires FunctionRefs(index, fns) == AppendRefs(callees, anonymous, FunctionRefs(index, fns[|fns|..]))
    ensures FunctionRefs(index, fns) == Some((callees, anonymous))
  {
    assert fns[|fns|..] == [];
    assert callees + [] == callees;
  }

  /** The model of the function-reference loop of `ReadKernel`. */
  method ResolveFunctionRefs(index: seq<BefFunction>, fns: seq<nat>)
    returns (r: Option<(seq<(Bytes, Attr)>, nat)>)
    ensures r == FunctionRefs(index, fns)
  {
    var callees := [];
    var anonymous := 0;
    var i := 0;
    FunctionRefsLoopInit(index, fns);
    while i < |fns|
      invariant 0 <= i <= |fns|
      invariant FunctionRefs(index, fns) == AppendRefs(callees, anonymous, FunctionRefs(index, fns[i..]))
    {
      if fns[i] >= |index| {
        FunctionRefsLoopUnknown(index, fns, i, callees, anonymous);
        return None;
      }
      var f := index[fns[i]];
      FunctionRefsLoopStep(index, fns, i, callees, anonymous);
      if f.IsNamedFunction() {
        callees := callees + [(CalleeName, SymbolRefAttr(f.name))];
      } else {
        anonymous := anonymous + 1;
      }
      i := i + 1;
    }
    FunctionRefsLoopEnd(index, fns, callees, anonymous);
    r := Some((callees, anonymous));
  }

  /** The arguments pseudo kernel is the kernel at word 0 of the kernel
      area, present exactly when the function has arguments. */
  function KernelStart(f: BefFunction): nat
  {
    if |f.argumentTypes| > 0 then 1 else 0
  }

  lemma DefinedBeforeGrows(v: Value, numArgs: nat, ops: seq<Op>, op: Op, k: nat, k': nat)
    requires k <= k' <= |ops| + 1 && k <= |ops|
    requires DefinedBefore(v, numArgs, ops, k)
    ensures DefinedBefore(v, numArgs, ops + [op], k')
  {
  }

  class FunctionReader {
    const file: BefFile
    const befFunction: BefFunction
    /** `function_reader_`: the Functions section, positioned in the body. */
    const input: Reader
    var location: Location
    var registers: seq<RegisterInfo>
    var kernelTable: seq<(nat, nat)>
    var resultRegs: seq<nat>
    /** The operations appended to the entry block so far. */
    var ops: seq<Op>
    /** `region_references_`: the position of each operation with pending
        regions, with the function indices that fill them. */
    var regionRefs: seq<(nat, seq<nat>)>

    /** Def-before-use: every defined register holds a value that exists,
        and every operand of an operation is defined before it. */
    ghost predicate Valid()
      reads this, input
    {
      && input.Valid()
      && (forall r :: 0 <= r < |registers| && registers[r].value.Some? ==>
            DefinedBefore(registers[r].value.value, |befFunction.argumentTypes|, ops, |ops|))
      && (forall k, m :: 0 <= k < |ops| && 0 <= m < |ops[k].operands| ==>
            DefinedBefore(ops[k].operands[m], |befFunction.argumentTypes|, ops, k))
      && (forall j :: 0 <= j < |regionRefs| ==>
            regionRefs[j].0 < |ops| && ops[regionRefs[j].0].numRegions == |regionRefs[j].1| > 0)
    }

    twostate predicate TablesUnchanged()
      reads this
    {
      location == old(location) && kernelTable == old(kernelTable) && resultRegs == old(resultRegs)
    }

    twostate predicate BlockUnchanged()
      reads this
    {
      ops == old(ops) && regionRefs == old(regionRefs)
    }

    /** A reader for `function`, whose body starts at its offset in the
        Functions section `functions`. */
    constructor (file: BefFile, befFunction: BefFunction, functions: seq<Byte>)
      requires befFunction.functionOffset <= |functions|
      ensures Valid() && fresh(input)
      ensures this.file == file && this.befFunction == befFunction
      ensures input.data == functions && input.pos == befFunction.functionOffset
      ensures location == UnknownLoc && registers == [] && kernelTable == [] && resultRegs == []
      ensures ops == [] && regionRefs == []
    {
      this.file := file;
      this.befFunction := befFunction;
      input := new Reader(functions, befFunction.functionOffset);
      location := UnknownLoc;
      registers := [];
      kernelTable := [];
      resultRegs := [];
      ops := [];
      regionRefs := [];
    }

    /** Define register `index` by `v` of type `valueType`. A register that
        is already defined is refused with "Redefinition of registers" and
        stays as it was. */
    method AddDefinition(v: Value, valueType: Type, index: nat) returns (st: Status)
      modifies this
      ensures st.Success? <==>
        (&& index < |old(registers)|
         && old(registers)[index].value.None?
         && TypeAgrees(old(registers)[index].regType, valueType))
      ensures index < |old(registers)| && old(registers)[index].value.Some? ==>
        st == Failure(RedefinitionMessage)
      ensures st.Success? ==> registers == old(registers)[index := old(registers)[index].(value := Some(v))]
      ensures st.Failure? ==> registers == old(registers)
      ensures TablesUnchanged() && BlockUnchanged()
    {
      if index >= |registers| {
        return Failure(MalformedMessage);
      }
      var info := registers[index];
      if info.value.Some? {
        return Failure(RedefinitionMessage);
      }
      if !TypeAgrees(info.regType, valueType) {
        return Failure(MalformedMessage);
      }
      registers := registers[index := info.(value := Some(v))];
      st := Success;
    }

    /** Define the registers `results` by `values`, one after the other,
        recording each one's used-by list. Succeeds exactly when the
        registers exist, are distinct, were undefined and have agreeing
        types. */
    method DefineResults(results: seq<nat>, values: seq<Value>, types: seq<Type>, usedBys: seq<seq<nat>>)
      returns (st: Status)
      requires |values| == |results| && |types| == |results| && |usedBys| == |results|
      modifies this
      ensures KeepsDefinitions(old(registers), registers)
      ensures TablesUnchanged() && BlockUnchanged()
      ensures st.Success? <==>
        (&& Distinct(results)
         && forall i :: 0 <= i < |results| ==>
              && results[i] < |old(registers)|
              && old(registers)[results[i]].value.None?
              && TypeAgrees(old(registers)[results[i]].regType, types[i]))
      ensures st.Success? ==> forall i :: 0 <= i < |results| ==>
        registers[results[i]] == old(registers)[results[i]].(value := Some(values[i]), usedBys := usedBys[i])
      ensures st.Success? ==> forall r :: 0 <= r < |registers| && r !in results ==>
        registers[r] == old(registers)[r]
    {
      var i := 0;
      while i < |results|
        invariant 0 <= i <= |results|
        invariant KeepsDefinitions(old(registers), registers)
        invariant TablesUnchanged() && BlockUnchanged()
        invariant ResultsDefinedUpTo(old(registers), registers, results, values, types, usedBys, i)
      {
        ghost var before := registers;
        st := AddDefinition(values[i], types[i], results[i]);
        if st.Failure? {
          DefineResultsFails(old(registers), before, results, values, types, usedBys, i);
          return;
        }
        registers := registers[results[i] := registers[results[i]].(usedBys := usedBys[i])];
        assert registers == before[results[i] := before[results[i]].(value := Some(values[i]), usedBys := usedBys[i])];
        DefineResultsStep(old(registers), before, results, values, types, usedBys, i);
        i := i + 1;
      }
      DefineResultsDone(old(registers), registers, results, values, types, usedBys);
      st := Success;
    }

    /** The values of registers `args`: each must exist and be defined;
        `undefined` is the diagnostic for one that is not ("Using undefined
        registers." for kernel operands, "Using an undefined register in
        return op." for the return). */
    method ResolveOperands(args: seq<nat>, undefined: string) returns (r: Result<seq<Value>>)
      ensures r.Ok? <==> forall m :: 0 <= m < |args| ==> args[m] < |registers| && registers[args[m]].value.Some?
      ensures r.Ok? ==> |r.value| == |args|
      ensures r.Ok? ==> forall m :: 0 <= m < |args| ==> registers[args[m]].value == Some(r.value[m])
      ensures r.Err? && (forall m :: 0 <= m < |args| ==> args[m] < |registers|) ==>
                r.msg == undefined
    {
      var operands := [];
      for m := 0 to |args|
        invariant |operands| == m
        invariant forall j :: 0 <= j < m ==> args[j] < |registers| && registers[args[j]].value == Some(operands[j])
      {
        if args[m] >= |registers| {
          return Err(MalformedMessage);
        }
        var v := registers[args[m]].value;
        if v.None? {
          return Err(undefined);
        }
        operands := operands + [v.value];
      }
      return Ok(operands);
    }

    /** The result types of a kernel: the types of its result registers. */
    method ResultTypes(results: seq<nat>) returns (r: Option<seq<Type>>)
      ensures r.Some? <==> forall i :: 0 <= i < |results| ==> results[i] < |registers|
      ensures r.Some? ==> |r.value| == |results|
      ensures r.Some? ==> forall i :: 0 <= i < |results| ==> r.value[i] == registers[results[i]].regType
    {
      var types := [];
      for i := 0 to |results|
        invariant |types| == i
        invariant forall j :: 0 <= j < i ==> results[j] < |registers| && types[j] == registers[results[j]].regType
      {
        if results[i] >= |registers| {
          return None;
        }
        types := types + [registers[results[i]].regType];
      }
      return Some(types);
    }

    /** `ReadRegisterTable`: the register type indices, dropped when they
        cannot be read, then one register per use count read off the body. */
    method ReadRegisterTable(registerTypes: Reader) returns (ok: bool)
      requires Valid() && registerTypes.Valid() && registerTypes != input && registers == []
      modifies this, input, registerTypes
      ensures Valid() && registerTypes.Valid()
      ensures TablesUnchanged() && BlockUnchanged()
      ensures registerTypes.pos == IntArrayAt(registerTypes.data, old(registerTypes.pos)).1
      ensures input.pos == IntArrayAt(input.data, old(input.pos)).1
      ensures var typeIndices := IntArrayAt(registerTypes.data, old(registerTypes.pos)).0;
              var uses := IntArrayAt(input.data, old(input.pos)).0;
              var table := if uses.None? then None
                           else RegisterTableOf(if typeIndices.None? then [] else typeIndices.value, uses.value, file.types);
              && (ok <==> table.Some?)
              && (ok ==> registers == table.value)
    {
      var typeIndices := ReadIntArray(registerTypes);
      var indices := if typeIndices.None? then [] else typeIndices.value;
      var uses := ReadIntArray(input);
      if uses.None? {
        return false;
      }
      var table := RegisterTableOf(indices, uses.value, file.types);
      if indices != [] && |indices| != |uses.value| {
        return false;
      }
      var i := 0;
      while i < |uses.value|
        modifies this
        invariant 0 <= i <= |uses.value|
        invariant registers == table.value[..i]
        invariant TablesUnchanged() && BlockUnchanged()
      {
        registers := registers + [RegisterInfo(RegisterType(indices, i, file.types), uses.value[i], [], None)];
        i := i + 1;
      }
      ok := true;
    }

    /** `ReadKernelTable`: a count, then (offset, operand count) entries,
        each appended to the kernel table. */
    method ReadKernelTable() returns (ok: bool)
      requires Valid()
      modifies this, input
      ensures Valid() && BlockUnchanged()
      ensures registers == old(registers) && location == old(location) && resultRegs == old(resultRegs)
      ensures (ok, input.pos) == (KernelTableAt(input.data, old(input.pos)).0.Some?, KernelTableAt(input.data, old(input.pos)).1)
      ensures ok ==> kernelTable == old(kernelTable) + KernelTableAt(input.data, old(input.pos)).0.value
    {
      var n := input.ReadInt();
      if n.None? {
        return false;
      }
      KernelTableAtCount(input.data, old(input.pos), n.value, input.pos);
      PrependNothing(EntriesAt(input.data, input.pos, n.value));
      ghost var read: seq<(nat, nat)> := [];
      var i := 0;
      while i < n.value
        modifies this, input
        invariant 0 <= i <= n.value && input.Valid()
        invariant kernelTable == old(kernelTable) + read
        invariant KernelTableAt(input.data, old(input.pos)) == Prepend(read, EntriesAt(input.data, input.pos, n.value - i))
        invariant registers == old(registers) && location == old(location) && resultRegs == old(resultRegs)
        invariant BlockUnchanged()
      {
        ghost var before := input.pos;
        var offset := input.ReadInt();
        if offset.None? {
          return false;
        }
        var numOperands := input.ReadInt();
        if numOperands.None? {
          return false;
        }
        var entry := (offset.value, numOperands.value);
        PrependTwice(read, [entry], EntriesAt(input.data, input.pos, n.value - i - 1));
        kernelTable := kernelTable + [entry];
        read := read + [entry];
        i := i + 1;
      }
      assert read + [] == read;
      ok := true;
    }

    /** `ReadResultRegs`: one register index per result of the function. */
    method ReadResultRegs() returns (ok: bool)
      requires Valid()
      modifies this, input
      ensures Valid() && BlockUnchanged()
      ensures registers == old(registers) && location == old(location) && kernelTable == old(kernelTable)
      ensures var expected := IntsAt(input.data, old(input.pos), |befFunction.resultTypes|);
              && (ok, input.pos) == (expected.0.Some?, expected.1)
              && (ok ==> resultRegs == old(resultRegs) + RegisterIndices(expected.0.value))
    {
      PrependNothing(IntsAt(input.data, input.pos, |befFunction.resultTypes|));
      ghost var read: seq<nat> := [];
      var i := 0;
      while i < |befFunction.resultTypes|
        modifies this, input
        invariant 0 <= i <= |befFunction.resultTypes| && input.Valid()
        invariant resultRegs == old(resultRegs) + RegisterIndices(read)
        invariant IntsAt(input.data, old(input.pos), |befFunction.resultTypes|)
               == Prepend(read, IntsAt(input.data, input.pos, |befFunction.resultTypes| - i))
        invariant registers == old(registers) && location == old(location) && kernelTable == old(kernelTable)
        invariant BlockUnchanged()
      {
        var index := input.ReadInt();
        if index.None? {
          return false;
        }
        PrependTwice(read, [index.value], IntsAt(input.data, input.pos, |befFunction.resultTypes| - i - 1));
        assert RegisterIndices(read + [index.value]) == RegisterIndices(read) + [IntIndex(index.value)];
        resultRegs := resultRegs + [IntIndex(index.value)];
        read := read + [index.value];
        i := i + 1;
      }
      assert read + [] == read;
      ok := true;
    }

    /** `ReadArgumentsPseudoKernel`: the kernel at word 0 has no arguments,
        attributes or functions, and one result per entry block argument;
        result register i is defined by block argument i. */
    method ReadArgumentsPseudoKernel(words: seq<nat>) returns (st: Status)
      requires Valid() && ops == []
      modifies this
      ensures KeepsDefinitions(old(registers), registers)
      ensures TablesUnchanged() && BlockUnchanged()
      ensures st.Success? <==>
        (&& DecodeKernel(words, 0).Some?
         && IsArgumentsPseudoKernel(DecodeKernel(words, 0).value, befFunction.argumentTypes, old(registers)))
      ensures st.Success? ==> Valid()
      ensures st.Success? ==> var k := DecodeKernel(words, 0).value;
        && (forall i :: 0 <= i < |k.results| ==>
              registers[k.results[i]] == old(registers)[k.results[i]].(value := Some(BlockArg(i)), usedBys := k.usedBys[i]))
        && (forall r :: 0 <= r < |registers| && r !in k.results ==> registers[r] == old(registers)[r])
    {
      var decoded := DecodeKernel(words, 0);
      if decoded.None? {
        return Failure(MalformedMessage);
      }
      var k := decoded.value;
      if k.arguments != [] || k.attributes != [] || k.functions != [] || |k.results| != |befFunction.argumentTypes| {
        return Failure(MalformedMessage);
      }
      var args := seq(|k.results|, i requires 0 <= i < |k.results| => BlockArg(i));
      st := DefineResults(k.results, args, befFunction.argumentTypes, k.usedBys);
      if st.Success? {
        BlockArgumentsDefined(old(registers), registers, k.results, |befFunction.argumentTypes|, ops);
      }
    }
    /** The part of `ReadKernel` that reads the kernel and the attribute
        names and builds the operation, before any register is defined.
        Whether its functions mix named and anonymous ones is left to
        `AppendOp`, as the source checks it after the results. */
    method BuildOp(words: seq<nat>, offset: nat, names: Reader) returns (r: Result<(Kernel, Op)>)
      requires names.Valid()
      modifies names
      ensures names.Valid()
      ensures r.Ok? <==> KernelBuilds(file, KernelAt(words, offset), registers)
      ensures r.Ok? ==>
        (&& KernelAt(words, offset) == Some(r.value.0)
         && OpOfKernel(file, r.value.0, names.data, old(names.pos), registers, r.value.1)
         && names.pos == KernelNamesEnd(names.data, old(names.pos), file.strings, |r.value.0.attributes|))
      ensures KernelAt(words, offset).None? ==> r.Err?
      ensures var k := KernelAt(words, offset);
        && k.Some? && k.value.code < |file.kernels| && k.value.location in file.locationPositions
        && SomeOperandUndefined(k.value.arguments, registers)
        ==> r == Err(UndefinedRegistersMessage)
      ensures var k := KernelAt(words, offset);
        && k.Some? && k.value.code < |file.kernels| && k.value.location in file.locationPositions
        && OperandsDefined(k.value.arguments, registers)
        && FunctionRefs(file.functionIndex, k.value.functions).None?
        ==> r == Err(UnknownCalleeMessage)
    {
      if offset % KernelEntryAlignment != 0 {
        return Err(MalformedMessage);
      }
      var decoded := DecodeKernel(words, offset / KernelEntryAlignment);
      if decoded.None? {
        return Err(MalformedMessage);
      }
      var k := decoded.value;
      if k.code >= |file.kernels| || k.location !in file.locationPositions {
        return Err(MalformedMessage);
      }
      var operands := ResolveOperands(k.arguments, UndefinedRegistersMessage);
      if operands.Err? {
        return Err(operands.msg);
      }
      var special := ReadSpecialAttributes(names);
      var slotNames := ReadSlotNames(names, file.strings, |k.attributes|);
      var refs := ResolveFunctionRefs(file.functionIndex, k.functions);
      if refs.None? {
        return Err(UnknownCalleeMessage);
      }
      var types := ResultTypes(k.results);
      if types.None? {
        return Err(MalformedMessage);
      }
      var op := Op(file.kernels[k.code], file.locationPositions[k.location], operands.value,
                   special + SlotAttributes(slotNames, k.attributes, file.attributes) + refs.value.0,
                   refs.value.1, types.value);
      r := Ok((k, op));
    }

    /** `ReadKernel`: turns the kernel at byte offset `offset` into an
        operation appended to the block. Its operands are the values of its
        argument registers; its attributes are the special attribute, one
        named attribute per attribute slot and a `callee` per named
        function; each anonymous function adds a pending region; its result
        registers are defined by its results. */
    method ReadKernel(words: seq<nat>, offset: nat, names: Reader) returns (r: Result<Op>)
      requires Valid() && names.Valid() && names != input
      modifies this, names
      ensures names.Valid() && KeepsDefinitions(old(registers), registers) && TablesUnchanged()
      ensures r.Ok? <==> KernelAccepted(file, words, offset, old(registers))
      ensures r.Ok? ==> Valid()
      ensures r.Ok? ==>
        (&& KernelRead(file, words, offset, names.data, old(names.pos), names.pos, old(registers), registers, |old(ops)|, r.value)
         && ops == old(ops) + [r.value]
         && regionRefs == old(regionRefs) + PendingRegions(r.value, |old(ops)|, KernelAt(words, offset).value))
      ensures KernelAt(words, offset).None? ==> r.Err?
      ensures var k := KernelAt(words, offset);
        && k.Some? && k.value.code < |file.kernels| && k.value.location in file.locationPositions
        && SomeOperandUndefined(k.value.arguments, old(registers))
        ==> r == Err(UndefinedRegistersMessage)
      ensures var k := KernelAt(words, offset);
        && k.Some? && k.value.code < |file.kernels| && k.value.location in file.locationPositions
        && OperandsDefined(k.value.arguments, old(registers))
        && FunctionRefs(file.functionIndex, k.value.functions).None?
        ==> r == Err(UnknownCalleeMessage)
    {
      var built := BuildOp(words, offset, names);
      if built.Err? {
        return Err(built.msg);
      }
      var (k, op) := built.value;
      var st := AppendOp(k, op);
      if st.Failure? {
        return Err(st.message);
      }
      r := Ok(op);
    }

    /** The part of `ReadKernel` after the operation is built: defines the
        kernel's result registers by the operation's results, then rejects
        a kernel whose functions mix named and anonymous ones, records a
        pending region if the operation has regions, and appends it. */
    method AppendOp(k: Kernel, op: Op) returns (st: Status)
      requires Valid() && |k.usedBys| == |k.results|
      requires |op.operands| == |k.arguments|
      requires forall m :: 0 <= m < |k.arguments| ==>
                 k.arguments[m] < |registers| && registers[k.arguments[m]].value == Some(op.operands[m])
      requires |op.resultTypes| == |k.results|
      modifies this
      ensures KeepsDefinitions(old(registers), registers) && TablesUnchanged()
      ensures st.Success? <==>
        && ResultsDefinable(k.results, op.resultTypes, old(registers))
        && (op.numRegions == 0 || op.numRegions == |k.functions|)
      ensures st.Success? ==>
        (&& Valid()
         && ops == old(ops) + [op]
         && ResultsDefined(k, |old(ops)|, old(registers), registers)
         && (op.numRegions == 0 || op.numRegions == |k.functions|)
         && regionRefs == old(regionRefs) + PendingRegions(op, |old(ops)|, k))
      ensures && Distinct(k.results)
              && (forall i :: 0 <= i < |k.results| ==>
                    && k.results[i] < |old(registers)|
                    && old(registers)[k.results[i]].value.None?
                    && TypeAgrees(old(registers)[k.results[i]].regType, op.resultTypes[i]))
              && op.numRegions > 0 && op.numRegions != |k.functions|
              ==> st == Failure(MalformedMessage)
    {
      var n := |ops|;
      var results := seq(|k.results|, i requires 0 <= i < |k.results| => OpResult(n, i));
      ghost var before := registers;
      st := DefineResults(k.results, results, op.resultTypes, k.usedBys);
      if st.Failure? {
        return;
      }
      if op.numRegions > 0 && op.numRegions != |k.functions| {
        return Failure(MalformedMessage);
      }
      if op.numRegions > 0 {
        regionRefs := regionRefs + [(n, k.functions)];
      }
      ghost var oldOps := ops;
      ops := ops + [op];
      EstablishValid(oldOps, op, before, k.arguments, k.results, n);
    }

    /** The def-before-use invariant after appending `op` at position `n`,
        whose operands were defined and whose results define `results`. */
    lemma EstablishValid(oldOps: seq<Op>, op: Op, before: seq<RegisterInfo>, args: seq<nat>, results: seq<nat>, n: nat)
      requires n == |oldOps| && ops == oldOps + [op] && input.Valid()
      requires forall r :: 0 <= r < |before| && before[r].value.Some? ==>
                 DefinedBefore(before[r].value.value, |befFunction.argumentTypes|, oldOps, n)
      requires forall k, m :: 0 <= k < n && 0 <= m < |oldOps[k].operands| ==>
                 DefinedBefore(oldOps[k].operands[m], |befFunction.argumentTypes|, oldOps, k)
      requires |args| == |op.operands|
      requires forall m :: 0 <= m < |args| ==> args[m] < |before| && before[args[m]].value == Some(op.operands[m])
      requires |registers| == |before| && |op.resultTypes| == |results|
      requires forall i :: 0 <= i < |results| ==> results[i] < |registers| && registers[results[i]].value == Some(OpResult(n, i))
      requires forall r :: 0 <= r < |registers| && r !in results ==> registers[r] == before[r]
      requires forall j :: 0 <= j < |regionRefs| ==>
                 regionRefs[j].0 < |ops| && ops[regionRefs[j].0].numRegions == |regionRefs[j].1| > 0
      ensures Valid()
    {
      var numArgs := |befFunction.argumentTypes|;
      forall r | 0 <= r < |registers| && registers[r].value.Some?
        ensures DefinedBefore(registers[r].value.value, numArgs, ops, |ops|)
      {
        if r in results {
          var i :| 0 <= i < |results| && results[i] == r;
          assert registers[r].value == Some(OpResult(n, i));
        } else {
          DefinedBeforeGrows(before[r].value.value, numArgs, oldOps, op, n, n + 1);
        }
      }
      forall k, m | 0 <= k < |ops| && 0 <= m < |ops[k].operands|
        ensures DefinedBefore(ops[k].operands[m], numArgs, ops, k)
      {
        if k < n {
          assert ops[k] == oldOps[k];
          DefinedBeforeGrows(oldOps[k].operands[m], numArgs, oldOps, op, k, k);
        } else {
          assert before[args[m]].value == Some(op.operands[m]);
          DefinedBeforeGrows(op.operands[m], numArgs, oldOps, op, n, n);
        }
      }
    }
    /** The loop of `ReadKernels`: the kernels of the kernel table from
        entry `start` on, each read into an operation appended to the
        block. `namesAt` and `regsAt` are the attribute-names positions and
        the register tables between the kernels. */
    method ReadKernelsFrom(words: seq<nat>, names: Reader, start: nat)
      returns (st: Status, ghost namesAt: seq<nat>, ghost regsAt: seq<seq<RegisterInfo>>)
      requires Valid() && names.Valid() && names != input && ops == []
      modifies this, names
      ensures names.Valid() && TablesUnchanged() && KeepsDefinitions(old(registers), registers)
      ensures st.Success? ==> Valid()
      ensures st.Success? ==>
        KernelLoop(file, words, KernelOffsets(kernelTable, start), names.data, namesAt, regsAt, ops,
                   old(names.pos), old(registers), names.pos, registers, old(regionRefs), regionRefs)
      ensures st.Failure? ==>
        !ChainReads(file, words, KernelOffsets(kernelTable, start), names.data, old(names.pos), old(registers))
    {
      namesAt, regsAt := [names.pos], [registers];
      if |kernelTable| <= start {
        return Success, namesAt, regsAt;
      }
      var i := start;
      assert KernelOffsets(kernelTable[..i], start) == [];
      while i < |kernelTable|
        invariant start <= i <= |kernelTable|
        invariant Valid() && names.Valid() && TablesUnchanged() && KeepsDefinitions(old(registers), registers)
        invariant KernelLoop(file, words, KernelOffsets(kernelTable[..i], start), names.data, namesAt, regsAt, ops,
                             old(names.pos), old(registers), names.pos, registers, old(regionRefs), regionRefs)
      {
        ghost var opsBefore := ops;
        var op := ReadKernelAt(words, start, i, names, namesAt, regsAt, old(names.pos), old(registers), old(regionRefs));
        if op.Err? {
          KernelLoopStops(file, words, kernelTable, start, i, names.data, namesAt, regsAt, opsBefore);
          return Failure(op.msg), namesAt, regsAt;
        }
        namesAt, regsAt := namesAt + [names.pos], regsAt + [registers];
        i := i + 1;
      }
      assert kernelTable[..i] == kernelTable;
      st := Success;
    }

    /** `ReadKernel` as the kernel loop sees it: the operation appended is
        the one built from kernel `i` of the kernel table, with the names
        section and the registers as they stand, and it extends the chain
        of kernels read from entry `start` on. */
    method ReadKernelAt(words: seq<nat>, start: nat, i: nat, names: Reader,
                        ghost namesAt: seq<nat>, ghost regsAt: seq<seq<RegisterInfo>>,
                        ghost pos0: nat, ghost regs0: seq<RegisterInfo>, ghost refs0: seq<(nat, seq<nat>)>)
      returns (r: Result<Op>)
      requires Valid() && names.Valid() && names != input
      requires start <= i < |kernelTable|
      requires KernelLoop(file, words, KernelOffsets(kernelTable[..i], start), names.data, namesAt, regsAt, ops,
                          pos0, regs0, names.pos, registers, refs0, regionRefs)
      modifies this, names
      ensures names.Valid() && KeepsDefinitions(old(registers), registers) && TablesUnchanged()
      ensures r.Ok? ==> Valid() && ops == old(ops) + [r.value]
      ensures r.Err? ==> !KernelAccepted(file, words, kernelTable[i].0, old(registers))
      ensures r.Ok? ==>
        KernelLoop(file, words, KernelOffsets(kernelTable[..i + 1], start), names.data,
                   namesAt + [names.pos], regsAt + [registers], ops, pos0, regs0, names.pos, registers, refs0, regionRefs)
    {
      r := ReadKernel(words, kernelTable[i].0, names);
      if r.Ok? {
        KernelsReadSnoc(file, words, kernelTable, start, i, names.data, namesAt, regsAt, old(ops),
                        names.pos, registers, r.value);
      }
    }

    /** The part of `ReadKernels` before the kernel loop: the kernel count
        of the names section, then, when the function has arguments, the
        arguments pseudo kernel and its special-attribute byte. */
    method ReadKernelsPrologue(words: seq<nat>, names: Reader) returns (st: Status)
      requires Valid() && names.Valid() && names != input && ops == [] && regionRefs == []
      modifies this, names
      ensures names.Valid() && TablesUnchanged() && BlockUnchanged() && KeepsDefinitions(old(registers), registers)
      ensures st.Success? <==> PrologueAccepts(befFunction, words, |kernelTable|, names.data, old(names.pos), old(registers))
      ensures st.Success? ==>
        && Valid()
        && names.pos == PrologueNamesEnd(names.data, old(names.pos), KernelStart(befFunction) == 1)
        && ArgumentsDefined(befFunction, words, old(registers), registers)
      ensures var count := IntAt(names.data, old(names.pos)).0;
              count.Some? && count.value != |kernelTable| ==> st == Failure(MalformedMessage)
      ensures var count := IntAt(names.data, old(names.pos)).0;
              (count.None? || count.value == |kernelTable|) && KernelStart(befFunction) == 1 && !(
                && DecodeKernel(words, 0).Some?
                && IsArgumentsPseudoKernel(DecodeKernel(words, 0).value, befFunction.argumentTypes, old(registers)))
              ==> st == Failure(PseudoMessage)
      ensures var (count, p) := IntAt(names.data, old(names.pos));
              (count.None? || count.value == |kernelTable|) && KernelStart(befFunction) == 1
              && DecodeKernel(words, 0).Some?
              && IsArgumentsPseudoKernel(DecodeKernel(words, 0).value, befFunction.argumentTypes, old(registers))
              && !PseudoMarkerAccepted(ByteAt(names.data, p).0)
              ==> st == Failure(MalformedMessage)
    {
      var count := names.ReadInt();
      if count.Some? && count.value != |kernelTable| {
        return Failure(MalformedMessage);
      }
      if KernelStart(befFunction) == 1 {
        st := ReadArgumentsPseudoKernel(words);
        if st.Failure? {
          return Failure(PseudoMessage);
        }
        var marker := names.ReadByte();
        if !PseudoMarkerAccepted(marker) {
          return Failure(MalformedMessage);
        }
      }
      st := Success;
    }

    /** Return operands that are values of registers are defined in a valid
        block. */
    lemma ReturnDefined(ret: seq<Value>)
      requires Valid()
      requires |ret| == |resultRegs|
      requires forall m :: 0 <= m < |resultRegs| ==>
                 resultRegs[m] < |registers| && registers[resultRegs[m]].value == Some(ret[m])
      ensures DefBeforeUse(Region(befFunction.argumentTypes, ops, ret))
    {
      forall m | 0 <= m < |ret|
        ensures DefinedBefore(ret[m], |befFunction.argumentTypes|, ops, |ops|)
      {
        assert registers[resultRegs[m]].value.Some?;
      }
    }

    /** `ReadKernels`: the arguments pseudo kernel when the function has
        arguments, then the kernels in kernel-table order, then the operands
        of the closing `hex.return`: the values of the result registers.
        `namesAt` and `regsAt` are the attribute-names positions and the
        register tables between the kernels. */
    method ReadKernels(words: seq<nat>, names: Reader) returns (st: Status, ret: seq<Value>)
      requires Valid() && names.Valid() && names != input && ops == [] && regionRefs == []
      modifies this, names
      ensures names.Valid() && TablesUnchanged() && KeepsDefinitions(old(registers), registers)
      ensures st.Success? ==> Valid() && DefBeforeUse(Region(befFunction.argumentTypes, ops, ret))
      ensures st.Success? ==>
        KernelsDecode(file, befFunction, words, kernelTable, names.data, old(names.pos), names.pos,
                      old(registers), resultRegs, ops, ret, regionRefs)
      ensures var count := IntAt(names.data, old(names.pos)).0;
              (count.None? || count.value == |kernelTable|) && KernelStart(befFunction) == 1 && !(
                && DecodeKernel(words, 0).Some?
                && IsArgumentsPseudoKernel(DecodeKernel(words, 0).value, befFunction.argumentTypes, old(registers)))
              ==> st == Failure(PseudoMessage)
      ensures !PrologueAccepts(befFunction, words, |kernelTable|, names.data, old(names.pos), old(registers))
              ==> st.Failure?
      ensures st.Success? <==>
        KernelsDecodable(file, befFunction, words, kernelTable, names.data, old(names.pos), old(registers), resultRegs)
    {
      ret := [];
      st := ReadKernelsPrologue(words, names);
      if st.Failure? {
        return;
      }
      ghost var argRegs := registers;
      ghost var namesAt, regsAt;
      st, namesAt, regsAt := ReadKernelsFrom(words, names, KernelStart(befFunction));
      if st.Failure? {
        KernelsChainNeeded(file, befFunction, words, kernelTable, names.data, old(names.pos), old(registers), resultRegs,
                           argRegs);
        return;
      }
      var values := ResolveOperands(resultRegs, UndefinedReturnMessage);
      if values.Err? {
        KernelsReturnNeeded(file, befFunction, words, kernelTable, names.data, old(names.pos), old(registers), resultRegs,
                            namesAt, regsAt, ops);
        return Failure(values.msg), ret;
      }
      ret := values.value;
      ReturnDefined(ret);
      assert KernelsRead(file, words, KernelOffsets(kernelTable, KernelStart(befFunction)), names.data, namesAt, regsAt, ops);
      assert regsAt[0] == argRegs && regsAt[|ops|] == registers;
      assert KernelsDecode(file, befFunction, words, kernelTable, names.data, old(names.pos), names.pos,
                           old(registers), resultRegs, ops, ret, regionRefs);
      st := Success;
    }

    /** `ReadFunction`: the function's location, its register, kernel and
        result tables, then its kernels from the next 4-byte boundary on,
        as a single-block region whose arguments have the function's
        argument types and whose return operands are its result registers. */
    method ReadFunction(names: Reader, registerTypes: Reader) returns (r: Result<(Location, Region)>)
      requires Valid() && names.Valid() && registerTypes.Valid()
      requires names != input && registerTypes != input && names != registerTypes
      requires input.pos == befFunction.functionOffset
      requires registers == [] && kernelTable == [] && resultRegs == [] && ops == [] && regionRefs == []
      modifies this, input, names, registerTypes
      ensures names.Valid() && registerTypes.Valid()
      ensures var loc := IntAt(input.data, old(input.pos)).0;
              (loc.None? || loc.value !in file.locationPositions) <==> r == Err(FunctionLocationMessage)
      ensures r.Ok? ==> Valid() && DefBeforeUse(r.value.1) && r.value.1.ops == ops
      ensures r.Ok? ==>
        BodyDecodes(file, befFunction, input.data, names.data, old(names.pos), names.pos,
                    registerTypes.data, old(registerTypes.pos), registerTypes.pos, r.value.0, r.value.1, regionRefs)
      ensures r.Ok? <==>
        BodyDecodable(file, befFunction, input.data, names.data, old(names.pos), registerTypes.data, old(registerTypes.pos))
    {
      ghost var n0, t0 := names.pos, registerTypes.pos;
      var st := ReadFunctionHeader(registerTypes);
      if st.Failure? {
        return Err(st.message);
      }
      var words := Words(input.data[input.pos..]);
      var ret;
      st, ret := ReadKernels(words, names);
      if st.Failure? {
        if BodyDecodable(file, befFunction, input.data, names.data, n0, registerTypes.data, t0) {
          BodyDecodableSteps(file, befFunction, input.data, names.data, n0, registerTypes.data, t0);
        }
        return Err(KernelsMessage);
      }
      r := Ok((location, Region(befFunction.argumentTypes, ops, ret)));
      assert BodyDecodes(file, befFunction, input.data, names.data, n0, names.pos,
                         registerTypes.data, t0, registerTypes.pos, r.value.0, r.value.1, regionRefs);
    }

    /** The part of `ReadFunction` before the kernels: the function's
        location, then its register, kernel and result tables, then the
        next 4-byte boundary. */
    method ReadFunctionHeader(registerTypes: Reader) returns (st: Status)
      requires Valid() && registerTypes.Valid() && registerTypes != input
      requires input.pos == befFunction.functionOffset
      requires registers == [] && kernelTable == [] && resultRegs == []
      modifies this, input, registerTypes
      ensures Valid() && registerTypes.Valid() && BlockUnchanged()
      ensures var loc := IntAt(input.data, old(input.pos)).0;
              (loc.None? || loc.value !in file.locationPositions) <==> st == Failure(FunctionLocationMessage)
      ensures var h := FunctionHeaderAt(file, befFunction, input.data, registerTypes.data, old(registerTypes.pos));
              && (st.Success? <==> h.Some?)
              && (st.Success? ==>
                    && location == h.value.location && registerTypes.pos == h.value.typesEnd
                    && registers == h.value.registers && kernelTable == h.value.table
                    && resultRegs == h.value.resultRegs && input.pos == h.value.kernelsAt)
    {
      var loc := input.ReadInt();
      if loc.None? || loc.value !in file.locationPositions {
        return Failure(FunctionLocationMessage);
      }
      location := file.locationPositions[loc.value];
      var ok := ReadRegisterTable(registerTypes);
      if !ok {
        return Failure(RegisterTableMessage);
      }
      ok := ReadKernelTable();
      if !ok {
        return Failure(KernelTableMessage);
      }
      ok := ReadResultRegs();
      if !ok {
        return Failure(ResultRegsMessage);
      }
      ok := input.ReadAlignment();
      if !ok {
        return Failure(KernelsMessage);
      }
      st := Success;
    }
  }

  /** Where the attribute-names section stands after the prologue of
      `ReadKernels`: past the kernel count and, for a function with
      arguments, past the special byte of the arguments pseudo kernel. */
  function PrologueNamesEnd(data: seq<Byte>, pos: nat, hasArguments: bool): (end: nat)
    requires pos <= |data|
    ensures pos <= end <= |data|
  {
    var p := IntAt(data, pos).1;
    if hasArguments then ByteAt(data, p).1 else p
  }

  /** The prologue of `ReadKernels` accepts: a kernel count that is read
      matches the kernel table, and a function with arguments starts with
      the arguments pseudo kernel, whose special byte, when read, is not a
      marker. */
  ghost predicate PrologueAccepts(f: BefFunction, words: seq<nat>, kernelCount: nat, namesData: seq<Byte>, namesPos: nat,
                                  registers: seq<RegisterInfo>)
    requires namesPos <= |namesData|
  {
    var (count, p) := IntAt(namesData, namesPos);
    && (count.None? || count.value == kernelCount)
    && (KernelStart(f) == 1 ==>
          && DecodeKernel(words, 0).Some?
          && IsArgumentsPseudoKernel(DecodeKernel(words, 0).value, f.argumentTypes, registers)
          && PseudoMarkerAccepted(ByteAt(namesData, p).0))
  }

  /** The registers after the prologue: for a function with arguments,
      result register i of the pseudo kernel holds block argument i and
      that result's used-by list; nothing else changes. */
  ghost predicate ArgumentsDefined(f: BefFunction, words: seq<nat>, before: seq<RegisterInfo>, after: seq<RegisterInfo>)
  {
    if KernelStart(f) == 0 then after == before
    else
      && DecodeKernel(words, 0).Some?
      && var k := DecodeKernel(words, 0).value;
      && |after| == |before|
      && (forall i :: 0 <= i < |k.results| ==>
            k.results[i] < |before| && after[k.results[i]] == before[k.results[i]].(value := Some(BlockArg(i)), usedBys := k.usedBys[i]))
      && (forall r :: 0 <= r < |after| && r !in k.results ==> after[r] == before[r])
  }

  /** The kernel area of a function, read by `ReadKernels` from the
      attribute-names section at `namesPos` to `namesEnd` and the register
      table `registers`, gives the operations `ops`, the return operands
      `ret` and the pending regions `pending`. */
  ghost predicate KernelsDecode(file: BefFile, f: BefFunction, words: seq<nat>, table: seq<(nat, nat)>,
                                namesData: seq<Byte>, namesPos: nat, namesEnd: nat,
                                registers: seq<RegisterInfo>, resultRegs: seq<nat>,
                                ops: seq<Op>, ret: seq<Value>, pending: seq<(nat, seq<nat>)>)
    requires namesPos <= |namesData|
  {
    && PrologueAccepts(f, words, |table|, namesData, namesPos, registers)
    && exists namesAt: seq<nat>, regsAt: seq<seq<RegisterInfo>> ::
         && KernelsRead(file, words, KernelOffsets(table, KernelStart(f)), namesData, namesAt, regsAt, ops)
         && namesAt[0] == PrologueNamesEnd(namesData, namesPos, KernelStart(f) == 1)
         && ArgumentsDefined(f, words, registers, regsAt[0])
         && namesEnd == namesAt[|ops|]
         && ReturnsOf(regsAt[|ops|], resultRegs, ret)
         && pending == PendingOf(words, KernelOffsets(table, KernelStart(f)), ops)
  }

  /** Some operations, return operands and pending regions are decoded
      from the kernel area of `f` by `ReadKernels`. */
  ghost predicate KernelsDecodable(file: BefFile, f: BefFunction, words: seq<nat>, table: seq<(nat, nat)>,
                                   namesData: seq<Byte>, namesPos: nat, registers: seq<RegisterInfo>, resultRegs: seq<nat>)
    requires namesPos <= |namesData|
  {
    exists namesEnd: nat, ops: seq<Op>, ret: seq<Value>, pending: seq<(nat, seq<nat>)> ::
      KernelsDecode(file, f, words, table, namesData, namesPos, namesEnd, registers, resultRegs, ops, ret, pending)
  }

  /** The registers after the prologue are determined by those before it. */
  lemma ArgumentsDeterministic(f: BefFunction, words: seq<nat>, before: seq<RegisterInfo>,
                               a1: seq<RegisterInfo>, a2: seq<RegisterInfo>)
    requires ArgumentsDefined(f, words, before, a1) && ArgumentsDefined(f, words, before, a2)
    ensures a1 == a2
  {
    if KernelStart(f) == 1 {
      var k := DecodeKernel(words, 0).value;
      forall r | 0 <= r < |a1|
        ensures a1[r] == a2[r]
      {
        if r in k.results {
          var i :| 0 <= i < |k.results| && k.results[i] == r;
        }
      }
    }
  }

  /** A kernel area decodes in one way only: where the names section ends,
      the operations, the return operands and the pending regions are
      determined by the inputs. */
  lemma KernelsDecodeDeterministic(file: BefFile, f: BefFunction, words: seq<nat>, table: seq<(nat, nat)>,
                                   namesData: seq<Byte>, namesPos: nat, registers: seq<RegisterInfo>, resultRegs: seq<nat>,
                                   e1: nat, ops1: seq<Op>, ret1: seq<Value>, p1: seq<(nat, seq<nat>)>,
                                   e2: nat, ops2: seq<Op>, ret2: seq<Value>, p2: seq<(nat, seq<nat>)>)
    requires namesPos <= |namesData|
    requires KernelsDecode(file, f, words, table, namesData, namesPos, e1, registers, resultRegs, ops1, ret1, p1)
    requires KernelsDecode(file, f, words, table, namesData, namesPos, e2, registers, resultRegs, ops2, ret2, p2)
    ensures e1 == e2 && ops1 == ops2 && ret1 == ret2 && p1 == p2
  {
    var offsets := KernelOffsets(table, KernelStart(f));
    var start := PrologueNamesEnd(namesData, namesPos, KernelStart(f) == 1);
    var namesA: seq<nat>, regsA: seq<seq<RegisterInfo>> :|
      && KernelsRead(file, words, offsets, namesData, namesA, regsA, ops1)
      && namesA[0] == start && ArgumentsDefined(f, words, registers, regsA[0])
      && e1 == namesA[|ops1|] && ReturnsOf(regsA[|ops1|], resultRegs, ret1);
    var namesB: seq<nat>, regsB: seq<seq<RegisterInfo>> :|
      && KernelsRead(file, words, offsets, namesData, namesB, regsB, ops2)
      && namesB[0] == start && ArgumentsDefined(f, words, registers, regsB[0])
      && e2 == namesB[|ops2|] && ReturnsOf(regsB[|ops2|], resultRegs, ret2);
    ArgumentsDeterministic(f, words, registers, regsA[0], regsB[0]);
    ChainDeterministic(file, words, offsets, namesData, namesA, regsA, ops1, namesB, regsB, ops2);
    var last := regsA[|ops1|];
    forall m | 0 <= m < |resultRegs|
      ensures ret1[m] == ret2[m]
    {
      assert Some(ret1[m]) == last[resultRegs[m]].value == Some(ret2[m]);
    }
  }

  /** A kernel area whose kernels cannot all be read from the end of the
      prologue is not decodable. */
  lemma KernelsChainNeeded(file: BefFile, f: BefFunction, words: seq<nat>, table: seq<(nat, nat)>,
                           namesData: seq<Byte>, namesPos: nat, registers: seq<RegisterInfo>, resultRegs: seq<nat>,
                           argRegs: seq<RegisterInfo>)
    requires namesPos <= |namesData|
    requires ArgumentsDefined(f, words, registers, argRegs)
    requires !ChainReads(file, words, KernelOffsets(table, KernelStart(f)), namesData,
                         PrologueNamesEnd(namesData, namesPos, KernelStart(f) == 1), argRegs)
    ensures !KernelsDecodable(file, f, words, table, namesData, namesPos, registers, resultRegs)
  {
    if KernelsDecodable(file, f, words, table, namesData, namesPos, registers, resultRegs) {
      var namesEnd: nat, ops: seq<Op>, ret: seq<Value>, pending: seq<(nat, seq<nat>)> :|
        KernelsDecode(file, f, words, table, namesData, namesPos, namesEnd, registers, resultRegs, ops, ret, pending);
      var namesAt: seq<nat>, regsAt: seq<seq<RegisterInfo>> :|
        && KernelsRead(file, words, KernelOffsets(table, KernelStart(f)), namesData, namesAt, regsAt, ops)
        && namesAt[0] == PrologueNamesEnd(namesData, namesPos, KernelStart(f) == 1)
        && ArgumentsDefined(f, words, registers, regsAt[0]);
      ArgumentsDeterministic(f, words, registers, argRegs, regsAt[0]);
    }
  }

  /** A kernel area whose kernels are read, from the end of the prologue,
      into registers leaving some result register out of range or undefined
      is not decodable. */
  lemma KernelsReturnNeeded(file: BefFile, f: BefFunction, words: seq<nat>, table: seq<(nat, nat)>,
                            namesData: seq<Byte>, namesPos: nat, registers: seq<RegisterInfo>, resultRegs: seq<nat>,
                            namesAt: seq<nat>, regsAt: seq<seq<RegisterInfo>>, ops: seq<Op>)
    requires namesPos <= |namesData|
    requires KernelsRead(file, words, KernelOffsets(table, KernelStart(f)), namesData, namesAt, regsAt, ops)
    requires namesAt[0] == PrologueNamesEnd(namesData, namesPos, KernelStart(f) == 1)
    requires ArgumentsDefined(f, words, registers, regsAt[0])
    requires !forall m :: 0 <= m < |resultRegs| ==>
               resultRegs[m] < |regsAt[|ops|]| && regsAt[|ops|][resultRegs[m]].value.Some?
    ensures !KernelsDecodable(file, f, words, table, namesData, namesPos, registers, resultRegs)
  {
    if KernelsDecodable(file, f, words, table, namesData, namesPos, registers, resultRegs) {
      var offsets := KernelOffsets(table, KernelStart(f));
      var namesEnd: nat, opsB: seq<Op>, ret: seq<Value>, pending: seq<(nat, seq<nat>)> :|
        KernelsDecode(file, f, words, table, namesData, namesPos, namesEnd, registers, resultRegs, opsB, ret, pending);
      var namesB: seq<nat>, regsB: seq<seq<RegisterInfo>> :|
        && KernelsRead(file, words, offsets, namesData, namesB, regsB, opsB)
        && namesB[0] == PrologueNamesEnd(namesData, namesPos, KernelStart(f) == 1)
        && ArgumentsDefined(f, words, registers, regsB[0])
        && ReturnsOf(regsB[|opsB|], resultRegs, ret);
      ArgumentsDeterministic(f, words, registers, regsAt[0], regsB[0]);
      ReturnsResolve(regsB[|opsB|], resultRegs, ret);
      ChainDeterministic(file, words, offsets, namesData, namesAt, regsAt, ops, namesB, regsB, opsB);
    }
  }

  /** What `ReadFunction` decodes from the body of `f` at its offset in the
      Functions section `functions`: its location, then the register table
      (type indices from the register-types section, read from `typesPos`
      to `typesEnd`), the kernel table and the result registers, then the
      kernel area from the next 4-byte boundary on, read with the
      attribute-names section from `namesPos` to `namesEnd`. */
  ghost predicate BodyDecodes(file: BefFile, f: BefFunction, functions: seq<Byte>,
                              namesData: seq<Byte>, namesPos: nat, namesEnd: nat,
                              typesData: seq<Byte>, typesPos: nat, typesEnd: nat,
                              location: Location, region: Region, pending: seq<(nat, seq<nat>)>)
  {
    && f.functionOffset <= |functions| && namesPos <= |namesData| && typesPos <= |typesData|
    && var h := FunctionHeaderAt(file, f, functions, typesData, typesPos);
    && h.Some? && location == h.value.location && typesEnd == h.value.typesEnd
    && region.argumentTypes == f.argumentTypes
    && KernelsDecode(file, f, Words(functions[h.value.kernelsAt..]), h.value.table, namesData, namesPos, namesEnd,
                     h.value.registers, h.value.resultRegs, region.ops, region.returnOperands, pending)
  }

  /** What `ReadFunction` reads before the kernels of `f`: its location,
      where the register-types section ends, the register table, the kernel
      table, the result registers and where the kernel area starts. */
  datatype FunctionHeader = FunctionHeader(location: Location, typesEnd: nat, registers: seq<RegisterInfo>,
                                           table: seq<(nat, nat)>, resultRegs: seq<nat>, kernelsAt: nat)

  /** The header of the body of `f` at its offset in the Functions section
      `functions`, with the register-types section read from `typesPos`:
      the location, then the register table (type indices from the
      register-types section), the kernel table and the result registers,
      then the next 4-byte boundary. */
  function FunctionHeaderAt(file: BefFile, f: BefFunction, functions: seq<Byte>, typesData: seq<Byte>, typesPos: nat)
    : (h: Option<FunctionHeader>)
    requires f.functionOffset <= |functions| && typesPos <= |typesData|
    ensures h.Some? ==> h.value.kernelsAt <= |functions| && h.value.typesEnd <= |typesData|
  {
    var (loc, p1) := IntAt(functions, f.functionOffset);
    var (typeIndices, t1) := IntArrayAt(typesData, typesPos);
    var (uses, p2) := IntArrayAt(functions, p1);
    var (table, p3) := KernelTableAt(functions, p2);
    var (resultRegs, p4) := IntsAt(functions, p3, |f.resultTypes|);
    var (aligned, p5) := AlignAt(functions, p4);
    if loc.None? || loc.value !in file.locationPositions || uses.None? then None
    else
      var registers := RegisterTableOf(if typeIndices.None? then [] else typeIndices.value, uses.value, file.types);
      if registers.Some? && table.Some? && resultRegs.Some? && aligned
      then Some(FunctionHeader(file.locationPositions[loc.value], t1, registers.value, table.value,
                               RegisterIndices(resultRegs.value), p5))
      else None
  }

  /** Some location, region and pending regions are decoded from the body
      of `f` by `ReadFunction`. */
  ghost predicate BodyDecodable(file: BefFile, f: BefFunction, functions: seq<Byte>,
                                namesData: seq<Byte>, namesPos: nat, typesData: seq<Byte>, typesPos: nat)
  {
    exists namesEnd: nat, typesEnd: nat, location: Location, region: Region, pending: seq<(nat, seq<nat>)> ::
      BodyDecodes(file, f, functions, namesData, namesPos, namesEnd, typesData, typesPos, typesEnd, location, region, pending)
  }

  /** A body decodes in one way only: where the two shared sections end,
      the location, the region and the pending regions are determined by
      the inputs. */
  lemma BodyDecodesDeterministic(file: BefFile, f: BefFunction, functions: seq<Byte>,
                                 namesData: seq<Byte>, namesPos: nat, typesData: seq<Byte>, typesPos: nat,
                                 e1: nat, t1: nat, l1: Location, g1: Region, p1: seq<(nat, seq<nat>)>,
                                 e2: nat, t2: nat, l2: Location, g2: Region, p2: seq<(nat, seq<nat>)>)
    requires BodyDecodes(file, f, functions, namesData, namesPos, e1, typesData, typesPos, t1, l1, g1, p1)
    requires BodyDecodes(file, f, functions, namesData, namesPos, e2, typesData, typesPos, t2, l2, g2, p2)
    ensures e1 == e2 && t1 == t2 && l1 == l2 && g1 == g2 && p1 == p2
  {
    var h := FunctionHeaderAt(file, f, functions, typesData, typesPos).value;
    KernelsDecodeDeterministic(file, f, Words(functions[h.kernelsAt..]), h.table, namesData, namesPos,
                               h.registers, h.resultRegs, e1, g1.ops, g1.returnOperands, p1,
                               e2, g2.ops, g2.returnOperands, p2);
  }

  /** A decodable body has a header, and its kernel area is decodable. */
  lemma BodyDecodableSteps(file: BefFile, f: BefFunction, functions: seq<Byte>,
                           namesData: seq<Byte>, namesPos: nat, typesData: seq<Byte>, typesPos: nat)
    requires BodyDecodable(file, f, functions, namesData, namesPos, typesData, typesPos)
    ensures f.functionOffset <= |functions| && namesPos <= |namesData| && typesPos <= |typesData|
    ensures var h := FunctionHeaderAt(file, f, functions, typesData, typesPos);
            && h.Some?
            && KernelsDecodable(file, f, Words(functions[h.value.kernelsAt..]), h.value.table, namesData, namesPos,
                                h.value.registers, h.value.resultRegs)
  {
    var namesEnd: nat, typesEnd: nat, location: Location, region: Region, pending: seq<(nat, seq<nat>)> :|
      BodyDecodes(file, f, functions, namesData, namesPos, namesEnd, typesData, typesPos, typesEnd, location, region, pending);
  }

  /** Where the attribute-names section stands after the special byte and
      the slot names of a kernel with `numAttributes` slots. */
  function KernelNamesEnd(data: seq<Byte>, pos: nat, strings: map<nat, Bytes>, numAttributes: nat): (end: nat)
    requires pos <= |data|
    ensures pos <= end <= |data|
  {
    AttributeNamesFrom(data, SpecialAttributesAt(data, pos).1, strings, 0, numAttributes).1
  }

  /** The operation `ReadKernel` builds from kernel `k`, given the
      attribute-names section at `namesPos` and the registers before it. */
  ghost predicate OpOfKernel(file: BefFile, k: Kernel, namesData: seq<Byte>, namesPos: nat,
                             registers: seq<RegisterInfo>, op: Op)
    requires namesPos <= |namesData|
  {
    var special := SpecialAttributesAt(namesData, namesPos);
    var slots := AttributeNamesFrom(namesData, special.1, file.strings, 0, |k.attributes|);
    var refs := FunctionRefs(file.functionIndex, k.functions);
    && k.code < |file.kernels| && op.name == file.kernels[k.code]
    && k.location in file.locationPositions && op.location == file.locationPositions[k.location]
    && |op.operands| == |k.arguments|
    && (forall m :: 0 <= m < |k.arguments| ==>
          k.arguments[m] < |registers| && registers[k.arguments[m]].value == Some(op.operands[m]))
    && refs.Some?
    && op.attributes == special.0 + SlotAttributes(slots.0, k.attributes, file.attributes) + refs.value.0
    && op.numRegions == refs.value.1
    && |op.resultTypes| == |k.results|
    && (forall i :: 0 <= i < |k.results| ==>
          k.results[i] < |registers| && op.resultTypes[i] == registers[k.results[i]].regType)
  }

  /** The result registers of kernel `k`, distinct and undefined before,
      are defined by the results of the operation at position `n`, with
      the kernel's used-by lists; no other register changes. */
  ghost predicate ResultsDefined(k: Kernel, n: nat, before: seq<RegisterInfo>, after: seq<RegisterInfo>)
    requires |k.usedBys| == |k.results|
  {
    && Distinct(k.results)
    && |after| == |before|
    && (forall i :: 0 <= i < |k.results| ==>
          && k.results[i] < |before|
          && before[k.results[i]].value.None?
          && after[k.results[i]] == before[k.results[i]].(value := Some(OpResult(n, i)), usedBys := k.usedBys[i]))
    && (forall r :: 0 <= r < |after| && r !in k.results ==> after[r] == before[r])
  }

  /** The kernel `k` can be built into an operation with the registers
      `registers`: it exists, its kernel code and location are in their
      tables, its argument registers are defined, its functions are all in
      the function index, and its result registers exist. */
  predicate KernelBuilds(file: BefFile, k: Option<Kernel>, registers: seq<RegisterInfo>)
  {
    && k.Some? && k.value.code < |file.kernels| && k.value.location in file.locationPositions
    && OperandsDefined(k.value.arguments, registers)
    && FunctionRefs(file.functionIndex, k.value.functions).Some?
    && forall i :: 0 <= i < |k.value.results| ==> k.value.results[i] < |registers|
  }

  /** Registers `results` can be defined by values of types `types`: they
      are distinct, exist, are undefined and agree in type. */
  predicate ResultsDefinable(results: seq<nat>, types: seq<Type>, registers: seq<RegisterInfo>)
  {
    && Distinct(results)
    && forall i :: 0 <= i < |results| ==>
         && results[i] < |registers|
         && registers[results[i]].value.None?
         && (i < |types| ==> TypeAgrees(registers[results[i]].regType, types[i]))
  }

  /** `ReadKernel` accepts the kernel at byte offset `offset` with the
      registers `registers`: it builds, its result registers are distinct
      and undefined, and its functions are all named or all anonymous. */
  predicate KernelAccepted(file: BefFile, words: seq<nat>, offset: nat, registers: seq<RegisterInfo>)
  {
    && KernelBuilds(file, KernelAt(words, offset), registers)
    && var k := KernelAt(words, offset).value;
       && ResultsDefinable(k.results, [], registers)
       && var regions := FunctionRefs(file.functionIndex, k.functions).value.1;
          regions == 0 || regions == |k.functions|
  }

  /** Every kernel that is read is accepted. */
  lemma KernelReadAccepted(file: BefFile, words: seq<nat>, offset: nat, namesData: seq<Byte>, pos: nat, pos': nat,
                           before: seq<RegisterInfo>, after: seq<RegisterInfo>, n: nat, op: Op)
    requires pos <= |namesData|
    requires KernelRead(file, words, offset, namesData, pos, pos', before, after, n, op)
    ensures KernelAccepted(file, words, offset, before)
  {
    var k := KernelAt(words, offset).value;
    assert OperandsDefined(k.arguments, before);
  }

  /** A kernel is read in one way only: the names position, the registers
      and the operation after it are determined by what it starts from. */
  lemma KernelReadDeterministic(file: BefFile, words: seq<nat>, offset: nat, namesData: seq<Byte>, pos: nat,
                                p1: nat, p2: nat, before: seq<RegisterInfo>, a1: seq<RegisterInfo>, a2: seq<RegisterInfo>,
                                n: nat, op1: Op, op2: Op)
    requires pos <= |namesData|
    requires KernelRead(file, words, offset, namesData, pos, p1, before, a1, n, op1)
    requires KernelRead(file, words, offset, namesData, pos, p2, before, a2, n, op2)
    ensures p1 == p2 && a1 == a2 && op1 == op2
  {
    var k := KernelAt(words, offset).value;
    forall r | 0 <= r < |a1|
      ensures a1[r] == a2[r]
    {
      if r in k.results {
        var i :| 0 <= i < |k.results| && k.results[i] == r;
      }
    }
    forall m | 0 <= m < |k.arguments|
      ensures op1.operands[m] == op2.operands[m]
    {
      assert before[k.arguments[m]].value == Some(op1.operands[m]) == Some(op2.operands[m]);
    }
    assert op1.operands == op2.operands;
    assert op1.resultTypes == op2.resultTypes;
  }

  /** The first `j` links of a chain of kernels read form a chain; the
      prefixes are passed in as `offsetsJ`, `namesJ`, `regsJ` and `opsJ`. */
  lemma {:induction false} ChainPrefix(file: BefFile, words: seq<nat>, offsets: seq<nat>, namesData: seq<Byte>,
                                       namesAt: seq<nat>, regsAt: seq<seq<RegisterInfo>>, ops: seq<Op>, j: nat,
                                       offsetsJ: seq<nat>, namesJ: seq<nat>, regsJ: seq<seq<RegisterInfo>>, opsJ: seq<Op>)
    requires KernelsRead(file, words, offsets, namesData, namesAt, regsAt, ops)
    requires j <= |ops|
    requires offsetsJ == offsets[..j] && namesJ == namesAt[..j + 1] && regsJ == regsAt[..j + 1] && opsJ == ops[..j]
    ensures KernelsRead(file, words, offsetsJ, namesData, namesJ, regsJ, opsJ)
    decreases |ops|
  {
    var n := |ops|;
    if j == n {
      assert offsetsJ == offsets && namesJ == namesAt && regsJ == regsAt && opsJ == ops;
    } else {
      ChainDropLast(file, words, offsets, namesData, namesAt, regsAt, ops);
      PrefixOfPrefix(offsets, n - 1, j);
      PrefixOfPrefix(ops, n - 1, j);
      PrefixOfPrefix(namesAt, n, j + 1);
      PrefixOfPrefix(regsAt, n, j + 1);
      ChainPrefix(file, words, offsets[..n - 1], namesData, namesAt[..n], regsAt[..n], ops[..n - 1], j,
                  offsetsJ, namesJ, regsJ, opsJ);
    }
  }

  lemma PrefixOfPrefix<T>(s: seq<T>, n: nat, j: nat)
    requires j <= n <= |s|
    ensures s[..n][..j] == s[..j]
  {
  }

  /** Dropping the last link of a non-empty chain leaves a chain. */
  lemma ChainDropLast(file: BefFile, words: seq<nat>, offsets: seq<nat>, namesData: seq<Byte>,
                      namesAt: seq<nat>, regsAt: seq<seq<RegisterInfo>>, ops: seq<Op>)
    requires KernelsRead(file, words, offsets, namesData, namesAt, regsAt, ops)
    requires ops != []
    ensures KernelsRead(file, words, offsets[..|ops| - 1], namesData, namesAt[..|ops|], regsAt[..|ops|], ops[..|ops| - 1])
  {
    assert LastKernelRead(file, words, offsets, namesData, namesAt, regsAt, ops);
  }

  /** Link `j` of a chain of kernels read: kernel `j` is read from where
      link `j - 1` ended. */
  lemma ChainLink(file: BefFile, words: seq<nat>, offsets: seq<nat>, namesData: seq<Byte>,
                  namesAt: seq<nat>, regsAt: seq<seq<RegisterInfo>>, ops: seq<Op>, j: nat)
    requires KernelsRead(file, words, offsets, namesData, namesAt, regsAt, ops)
    requires j < |ops|
    ensures namesAt[j] <= |namesData|
    ensures KernelRead(file, words, offsets[j], namesData, namesAt[j], namesAt[j + 1], regsAt[j], regsAt[j + 1], j, ops[j])
  {
    var offsets', namesAt', regsAt', ops' := offsets[..j + 1], namesAt[..j + 2], regsAt[..j + 2], ops[..j + 1];
    ChainPrefix(file, words, offsets, namesData, namesAt, regsAt, ops, j + 1, offsets', namesAt', regsAt', ops');
    assert LastKernelRead(file, words, offsets', namesData, namesAt', regsAt', ops');
    assert offsets'[j] == offsets[j] && ops'[j] == ops[j];
    assert namesAt'[j] == namesAt[j] && namesAt'[j + 1] == namesAt[j + 1];
    assert regsAt'[j] == regsAt[j] && regsAt'[j + 1] == regsAt[j + 1];
  }

  /** Two chains of kernels read from the same offsets, names position and
      registers are the same chain. */
  lemma {:induction false} ChainDeterministic(file: BefFile, words: seq<nat>, offsets: seq<nat>, namesData: seq<Byte>,
                                              namesA: seq<nat>, regsA: seq<seq<RegisterInfo>>, opsA: seq<Op>,
                                              namesB: seq<nat>, regsB: seq<seq<RegisterInfo>>, opsB: seq<Op>)
    requires KernelsRead(file, words, offsets, namesData, namesA, regsA, opsA)
    requires KernelsRead(file, words, offsets, namesData, namesB, regsB, opsB)
    requires namesA[0] == namesB[0] && regsA[0] == regsB[0]
    ensures namesA == namesB && regsA == regsB && opsA == opsB
    decreases |opsA|
  {
    var n := |opsA|;
    if n > 0 {
      assert LastKernelRead(file, words, offsets, namesData, namesA, regsA, opsA);
      assert LastKernelRead(file, words, offsets, namesData, namesB, regsB, opsB);
      ChainDeterministic(file, words, offsets[..n - 1], namesData, namesA[..n], regsA[..n], opsA[..n - 1],
                         namesB[..n], regsB[..n], opsB[..n - 1]);
      assert namesA[n - 1] == namesA[..n][n - 1] == namesB[n - 1];
      assert regsA[n - 1] == regsA[..n][n - 1] == regsB[n - 1];
      KernelReadDeterministic(file, words, offsets[n - 1], namesData, namesA[n - 1], namesA[n], namesB[n],
                              regsA[n - 1], regsA[n], regsB[n], n - 1, opsA[n - 1], opsB[n - 1]);
      assert namesA == namesA[..n] + [namesA[n]] && namesB == namesB[..n] + [namesB[n]];
      assert regsA == regsA[..n] + [regsA[n]] && regsB == regsB[..n] + [regsB[n]];
      assert opsA == opsA[..n - 1] + [opsA[n - 1]] && opsB == opsB[..n - 1] + [opsB[n - 1]];
    } else {
      assert namesA == [namesA[0]] && namesB == [namesB[0]];
      assert regsA == [regsA[0]] && regsB == [regsB[0]];
    }
  }

  /** Some chain of kernels read runs over all of `offsets` from the names
      position `pos` and the registers `registers`. */
  ghost predicate ChainReads(file: BefFile, words: seq<nat>, offsets: seq<nat>, namesData: seq<Byte>,
                             pos: nat, registers: seq<RegisterInfo>)
  {
    exists namesAt: seq<nat>, regsAt: seq<seq<RegisterInfo>>, ops: seq<Op> ::
      && KernelsRead(file, words, offsets, namesData, namesAt, regsAt, ops)
      && namesAt[0] == pos && regsAt[0] == registers
  }

  /** A chain over the first `|ops|` offsets whose next kernel is not
      accepted cannot be completed: no chain runs over all offsets. */
  lemma ChainStops(file: BefFile, words: seq<nat>, offsets: seq<nat>, namesData: seq<Byte>,
                   namesAt: seq<nat>, regsAt: seq<seq<RegisterInfo>>, ops: seq<Op>)
    requires |ops| < |offsets|
    requires KernelsRead(file, words, offsets[..|ops|], namesData, namesAt, regsAt, ops)
    requires !KernelAccepted(file, words, offsets[|ops|], regsAt[|ops|])
    ensures !ChainReads(file, words, offsets, namesData, namesAt[0], regsAt[0])
  {
    if ChainReads(file, words, offsets, namesData, namesAt[0], regsAt[0]) {
      var namesB: seq<nat>, regsB: seq<seq<RegisterInfo>>, opsB: seq<Op> :|
        && KernelsRead(file, words, offsets, namesData, namesB, regsB, opsB)
        && namesB[0] == namesAt[0] && regsB[0] == regsAt[0];
      var m := |ops|;
      var namesB', regsB', opsB' := namesB[..m + 1], regsB[..m + 1], opsB[..m];
      ChainPrefix(file, words, offsets, namesData, namesB, regsB, opsB, m, offsets[..m], namesB', regsB', opsB');
      ChainDeterministic(file, words, offsets[..m], namesData, namesAt, regsAt, ops, namesB', regsB', opsB');
      ChainLink(file, words, offsets, namesData, namesB, regsB, opsB, m);
      assert regsB[m] == regsB'[m] == regsAt[m];
      KernelReadAccepted(file, words, offsets[m], namesData, namesB[m], namesB[m + 1], regsB[m], regsB[m + 1], m, opsB[m]);
    }
  }

  /** The kernel loop stops at entry `i` when the kernel there is not
      accepted: then no chain runs over all entries from `start` on. */
  lemma KernelLoopStops(file: BefFile, words: seq<nat>, table: seq<(nat, nat)>, start: nat, i: nat,
                        namesData: seq<Byte>, namesAt: seq<nat>, regsAt: seq<seq<RegisterInfo>>, ops: seq<Op>)
    requires start <= i < |table|
    requires KernelsRead(file, words, KernelOffsets(table[..i], start), namesData, namesAt, regsAt, ops)
    requires !KernelAccepted(file, words, table[i].0, regsAt[|ops|])
    ensures !ChainReads(file, words, KernelOffsets(table, start), namesData, namesAt[0], regsAt[0])
  {
    var offsets := KernelOffsets(table, start);
    assert KernelOffsets(table[..i], start) == offsets[..|ops|];
    ChainStops(file, words, offsets, namesData, namesAt, regsAt, ops);
  }

  /** The byte offsets of the kernel-table entries from `start` on. */
  function KernelOffsets(table: seq<(nat, nat)>, start: nat): (offsets: seq<nat>)
    ensures |offsets| == if |table| < start then 0 else |table| - start
  {
    if |table| <= start then [] else seq(|table| - start, j requires 0 <= j < |table| - start => table[start + j].0)
  }

  /** Kernel `n` of the loop of `ReadKernels`, at byte offset `offset`:
      read with the attribute-names section at `pos` and the registers
      `before`, it builds `op`, moves the section to `pos'` and leaves the
      registers `after`; its functions are all named or all anonymous. */
  ghost predicate KernelRead(file: BefFile, words: seq<nat>, offset: nat, namesData: seq<Byte>, pos: nat, pos': nat,
                             before: seq<RegisterInfo>, after: seq<RegisterInfo>, n: nat, op: Op)
    requires pos <= |namesData|
  {
    match KernelAt(words, offset)
    case None => false
    case Some(k) =>
      && OpOfKernel(file, k, namesData, pos, before, op)
      && (op.numRegions == 0 || op.numRegions == |k.functions|)
      && pos' == KernelNamesEnd(namesData, pos, file.strings, |k.attributes|)
      && ResultsDefined(k, n, before, after)
  }

  /** `ops` are read, in order, from the kernels at `offsets`: kernel `j`
      starts from the attribute-names position `namesAt[j]` and the
      registers `regsAt[j]` and ends at `namesAt[j + 1]` and
      `regsAt[j + 1]`. */
  ghost predicate KernelsRead(file: BefFile, words: seq<nat>, offsets: seq<nat>, namesData: seq<Byte>,
                              namesAt: seq<nat>, regsAt: seq<seq<RegisterInfo>>, ops: seq<Op>)
    decreases |ops|, 1
  {
    && |ops| == |offsets| && |namesAt| == |ops| + 1 && |regsAt| == |ops| + 1
    && namesAt[0] <= |namesData|
    && (ops != [] ==> LastKernelRead(file, words, offsets, namesData, namesAt, regsAt, ops))
  }

  /** A non-empty chain: all kernels but the last form a chain, and the
      last one is read from where that chain ends. */
  ghost predicate LastKernelRead(file: BefFile, words: seq<nat>, offsets: seq<nat>, namesData: seq<Byte>,
                                 namesAt: seq<nat>, regsAt: seq<seq<RegisterInfo>>, ops: seq<Op>)
    requires ops != [] && |ops| == |offsets| && |namesAt| == |ops| + 1 && |regsAt| == |ops| + 1
    decreases |ops|, 0
  {
    var n := |ops| - 1;
    && KernelsRead(file, words, offsets[..n], namesData, namesAt[..n + 1], regsAt[..n + 1], ops[..n])
    && namesAt[n] <= |namesData|
    && KernelRead(file, words, offsets[n], namesData, namesAt[n], namesAt[n + 1], regsAt[n], regsAt[n + 1], n, ops[n])
  }

  /** The kernel loop of `ReadKernels` after the kernels at `offsets`:
      the chain of reads runs from `pos0` and `regs0` to `pos` and `regs`,
      and the pending regions recorded since `refs0` are those of `ops`. */
  ghost predicate KernelLoop(file: BefFile, words: seq<nat>, offsets: seq<nat>, namesData: seq<Byte>,
                             namesAt: seq<nat>, regsAt: seq<seq<RegisterInfo>>, ops: seq<Op>,
                             pos0: nat, regs0: seq<RegisterInfo>, pos: nat, regs: seq<RegisterInfo>,
                             refs0: seq<(nat, seq<nat>)>, refs: seq<(nat, seq<nat>)>)
  {
    && KernelsRead(file, words, offsets, namesData, namesAt, regsAt, ops)
    && namesAt[0] == pos0 && regsAt[0] == regs0
    && namesAt[|ops|] == pos && regsAt[|ops|] == regs
    && refs == refs0 + PendingOf(words, offsets, ops)
  }

  /** The pending regions the kernels at `offsets` record for `ops`. */
  ghost function PendingOf(words: seq<nat>, offsets: seq<nat>, ops: seq<Op>): seq<(nat, seq<nat>)>
    requires |ops| == |offsets|
    decreases |ops|
  {
    if ops == [] then []
    else
      var n := |ops| - 1;
      var k := KernelAt(words, offsets[n]);
      PendingOf(words, offsets[..n], ops[..n]) + (if k.Some? then PendingRegions(ops[n], n, k.value) else [])
  }

  /** One more kernel read extends the chain by one link and the pending
      regions by its own. */
  lemma KernelsReadSnoc(file: BefFile, words: seq<nat>, table: seq<(nat, nat)>, start: nat, i: nat,
                        namesData: seq<Byte>, namesAt: seq<nat>, regsAt: seq<seq<RegisterInfo>>, ops: seq<Op>,
                        pos': nat, after: seq<RegisterInfo>, op: Op)
    requires start <= i < |table|
    requires KernelsRead(file, words, KernelOffsets(table[..i], start), namesData, namesAt, regsAt, ops)
    requires pos' <= |namesData|
    requires namesAt[|ops|] <= |namesData|
    requires KernelRead(file, words, table[i].0, namesData, namesAt[|ops|], pos', regsAt[|ops|], after, |ops|, op)
    ensures KernelsRead(file, words, KernelOffsets(table[..i + 1], start), namesData,
                        namesAt + [pos'], regsAt + [after], ops + [op])
    ensures PendingOf(words, KernelOffsets(table[..i + 1], start), ops + [op])
         == PendingOf(words, KernelOffsets(table[..i], start), ops)
            + PendingRegions(op, |ops|, KernelAt(words, table[i].0).value)
  {
    var offsets := KernelOffsets(table[..i], start);
    KernelOffsetsSnoc(table, start, i);
    ChainSnoc(file, words, offsets, table[i].0, namesData, namesAt, regsAt, ops, pos', after, op);
    PendingSnoc(words, offsets, table[i].0, ops, op);
  }

  lemma KernelOffsetsSnoc(table: seq<(nat, nat)>, start: nat, i: nat)
    requires start <= i < |table|
    ensures KernelOffsets(table[..i + 1], start) == KernelOffsets(table[..i], start) + [table[i].0]
  {
  }

  lemma ChainSnoc(file: BefFile, words: seq<nat>, offsets: seq<nat>, offset: nat,
                  namesData: seq<Byte>, namesAt: seq<nat>, regsAt: seq<seq<RegisterInfo>>, ops: seq<Op>,
                  pos': nat, after: seq<RegisterInfo>, op: Op)
    requires KernelsRead(file, words, offsets, namesData, namesAt, regsAt, ops)
    requires pos' <= |namesData|
    requires namesAt[|ops|] <= |namesData|
    requires KernelRead(file, words, offset, namesData, namesAt[|ops|], pos', regsAt[|ops|], after, |ops|, op)
    ensures KernelsRead(file, words, offsets + [offset], namesData, namesAt + [pos'], regsAt + [after], ops + [op])
  {
    var n := |ops|;
    var offsets', namesAt', regsAt', ops' := offsets + [offset], namesAt + [pos'], regsAt + [after], ops + [op];
    assert offsets'[..n] == offsets && ops'[..n] == ops;
    assert namesAt'[..n + 1] == namesAt && regsAt'[..n + 1] == regsAt;
    assert offsets'[n] == offset && ops'[n] == op;
    assert namesAt'[n] == namesAt[n] && namesAt'[n + 1] == pos' && regsAt'[n] == regsAt[n] && regsAt'[n + 1] == after;
  }

  lemma PendingSnoc(words: seq<nat>, offsets: seq<nat>, offset: nat, ops: seq<Op>, op: Op)
    requires |ops| == |offsets| && KernelAt(words, offset).Some?
    ensures PendingOf(words, offsets + [offset], ops + [op])
         == PendingOf(words, offsets, ops) + PendingRegions(op, |ops|, KernelAt(words, offset).value)
  {
    var n := |ops|;
    assert (offsets + [offset])[..n] == offsets && (ops + [op])[..n] == ops;
  }

  /** `result_regs_` holds `int`s: each register index read is narrowed
      to `int`, and `GetRegister` compares it with the table size as a
      `size_t` again. */
  function RegisterIndices(indices: seq<nat>): (r: seq<nat>)
    ensures |r| == |indices|
    ensures forall m :: 0 <= m < |indices| ==> r[m] == IntIndex(indices[m])
  {
    if indices == [] then [] else [IntIndex(indices[0])] + RegisterIndices(indices[1..])
  }

  /** A result register index of 2^32 + 1 names register 1. */
  lemma WrappedResultRegister(registers: seq<RegisterInfo>, v: Value)
    requires |registers| >= 2 && registers[1].value == Some(v)
    ensures ReturnsOf(registers, RegisterIndices([0x1_0000_0001]), [v])
  {
    assert IntIndex(0x1_0000_0001) == 1;
  }

  /** The operands of the closing `hex.return`: the values of the result
      registers, one per register. */
  ghost predicate ReturnsOf(registers: seq<RegisterInfo>, resultRegs: seq<nat>, ret: seq<Value>)
  {
    && |ret| == |resultRegs|
    && forall m :: 0 <= m < |resultRegs| ==>
         resultRegs[m] < |registers| && registers[resultRegs[m]].value == Some(ret[m])
  }

  /** Return operands exist only for result registers that are in range
      and defined. */
  lemma ReturnsResolve(registers: seq<RegisterInfo>, resultRegs: seq<nat>, ret: seq<Value>)
    requires ReturnsOf(registers, resultRegs, ret)
    ensures forall m :: 0 <= m < |resultRegs| ==> resultRegs[m] < |registers| && registers[resultRegs[m]].value.Some?
  {
  }

  /** The pending-region entry of an operation with regions. */
  function PendingRegions(op: Op, n: nat, k: Kernel): seq<(nat, seq<nat>)>
  {
    if op.numRegions > 0 then [(n, k.functions)] else []
  }

  /** The kernel at byte offset `offset` of the kernel area, which must be
      word aligned. */
  function KernelAt(words: seq<nat>, offset: nat): (r: Option<Kernel>)
    ensures offset % KernelEntryAlignment != 0 ==> r.None?
    ensures r.Some? ==> DecodeKernel(words, offset / KernelEntryAlignment) == r
  {
    if offset % KernelEntryAlignment != 0 then None else DecodeKernel(words, offset / KernelEntryAlignment)
  }

  /** Registers that held values defined before the end of `ops` still
      do once the registers `results` receive block arguments 0, 1, ...,
      as long as there are no more of them than the block has arguments. */
  lemma BlockArgumentsDefined(before: seq<RegisterInfo>, after: seq<RegisterInfo>, results: seq<nat>,
                              numArgs: nat, ops: seq<Op>)
    requires |results| <= numArgs && |after| == |before|
    requires forall r :: 0 <= r < |before| && before[r].value.Some? ==>
               DefinedBefore(before[r].value.value, numArgs, ops, |ops|)
    requires forall i :: 0 <= i < |results| ==> results[i] < |after| && after[results[i]].value == Some(BlockArg(i))
    requires forall r :: 0 <= r < |after| && r !in results ==> after[r] == before[r]
    ensures forall r :: 0 <= r < |after| && after[r].value.Some? ==>
              DefinedBefore(after[r].value.value, numArgs, ops, |ops|)
  {
    forall r | 0 <= r < |after| && after[r].value.Some?
      ensures DefinedBefore(after[r].value.value, numArgs, ops, |ops|)
    {
      if r in results {
        var i :| 0 <= i < |results| && results[i] == r;
        assert after[r].value == Some(BlockArg(i));
      }
    }
  }

  /** The shape of the arguments pseudo kernel, and registers its results
      may define: distinct, undefined, typed like the block arguments. */
  ghost predicate IsArgumentsPseudoKernel(k: Kernel, argumentTypes: seq<Type>, registers: seq<RegisterInfo>)
  {
    && k.arguments == [] && k.attributes == [] && k.functions == []
    && |k.results| == |argumentTypes|
    && Distinct(k.results)
    && forall i :: 0 <= i < |k.results| ==>
         && k.results[i] < |registers|
         && registers[k.results[i]].value.None?
         && TypeAgrees(registers[k.results[i]].regType, argumentTypes[i])
  }
}
