/** `ConvertBEFToMLIR`: the three phases of the decoder. The first phase
    reads the header, the section table and the tables every function body
    refers to; the second decodes each BEF function body; the third resolves
    functions into top-level functions and nested regions. */
module BefConverter {
  import opened Wrappers
  import opened BefReader
  import opened BefIr
  import opened BefTables
  import opened BefAttributes
  import opened BefFunctions
  import opened BefResolve

  const HeaderMessage: string := "Invalid BEF file header."
  const SectionHeaderMessage: string := "Invalid BEF section header."
  const VersionMessage: string := "Invalid BEF version."
  const LocationFilenamesMessage: string := "Invalid LocationFilenames section."
  const LocationPositionsMessage: string := "Invalid LocationPositions section."
  const StringsMessage: string := "Invalid Strings section."
  const TypesMessage: string := "Invalid Types section."
  const AttributesWarning: string := "Invalid Attributes/AttributeTypes section."
  const KernelsSectionMessage: string := "Invalid Kernels section."
  const FunctionIndexMessage: string := "Invalid FunctionIndex section."
  const FunctionsMessage: string := "Invalid Functions section."
  const MissingSectionsWarning: string := "Missing AttributeTypes, AttributeNames or RegisterTypes sections."
  /** The failure of `drop_front` past the end of the Functions section. */
  const FunctionOffsetMessage: string := "Function offset past the Functions section."

  /** A referenced operation exists in the body of its function and has
      one pending region per referenced index. */
  ghost predicate RefWellFormed(slot: FunctionSlot, ref: RegionRef)
  {
    && slot.1.Some?
    && ref.op < |slot.1.value.ops|
    && slot.1.value.ops[ref.op].numRegions == |ref.indices| > 0
  }

  ghost predicate RefsWellFormed(index: seq<BefFunction>, slots: seq<FunctionSlot>, refs: seq<RegionRef>)
    requires SlotsFor(index, slots)
  {
    forall k :: 0 <= k < |refs| ==>
      refs[k].inFunction < |index| && RefWellFormed(slots[refs[k].inFunction], refs[k])
  }

  /** A decoded body is def-before-use and has its function's argument
      types. */
  ghost predicate BodyWellFormed(f: BefFunction, slot: FunctionSlot)
  {
    slot.1.Some? ==> DefBeforeUse(slot.1.value) && slot.1.value.argumentTypes == f.argumentTypes
  }

  ghost predicate BodiesWellFormed(index: seq<BefFunction>, slots: seq<FunctionSlot>)
    requires SlotsFor(index, slots)
  {
    forall i :: 0 <= i < |index| ==> BodyWellFormed(index[i], slots[i])
  }

  /** The region references recorded while reading the body of function
      `i`, from its reader's pending regions. */
  function RefsOf(i: nat, pending: seq<(nat, seq<nat>)>): (refs: seq<RegionRef>)
    ensures |refs| == |pending|
    ensures forall k :: 0 <= k < |refs| ==> refs[k] == RegionRef(i, pending[k].0, pending[k].1)
  {
    seq(|pending|, j requires 0 <= j < |pending| => RegionRef(i, pending[j].0, pending[j].1))
  }

  /** The pending regions the references `refs` record. */
  function PendingOfRefs(refs: seq<RegionRef>): (pending: seq<(nat, seq<nat>)>)
    ensures |pending| == |refs|
    ensures forall k :: 0 <= k < |refs| ==> pending[k] == (refs[k].op, refs[k].indices)
  {
    seq(|refs|, j requires 0 <= j < |refs| => (refs[j].op, refs[j].indices))
  }

  /** Function `i` of the function index, read with the attribute-names
      section from `namesPos` to `namesEnd` and the register-types section
      from `typesPos` to `typesEnd`, gives `slot` and the region references
      `refs`: a native function gets an unknown location and no body and
      reads nothing; a BEF function gets the location and region its body
      decodes to, and the references of its pending regions. */
  ghost predicate FunctionDecodes(file: BefFile, i: nat, functions: Bytes,
                                  namesData: Bytes, namesPos: nat, namesEnd: nat,
                                  typesData: Bytes, typesPos: nat, typesEnd: nat,
                                  slot: FunctionSlot, refs: seq<RegionRef>)
    requires i < |file.functionIndex|
  {
    if file.functionIndex[i].IsNativeFunction() then
      slot == (UnknownLoc, None) && refs == [] && namesEnd == namesPos && typesEnd == typesPos
    else
      BefFunctionDecodes(file, file.functionIndex[i], i, functions, namesData, namesPos, namesEnd,
                         typesData, typesPos, typesEnd, slot, refs)
  }

  /** BEF function `f`, entry `i` of the function index, gets the location
      and region its body decodes to, and the references of the pending
      regions of its operations. */
  ghost predicate BefFunctionDecodes(file: BefFile, f: BefFunction, i: nat, functions: Bytes,
                                     namesData: Bytes, namesPos: nat, namesEnd: nat,
                                     typesData: Bytes, typesPos: nat, typesEnd: nat,
                                     slot: FunctionSlot, refs: seq<RegionRef>)
  {
    && slot.1.Some?
    && (forall k :: 0 <= k < |refs| ==> refs[k].inFunction == i)
    && BodyDecodes(file, f, functions, namesData, namesPos, namesEnd, typesData, typesPos, typesEnd,
                   slot.0, slot.1.value, PendingOfRefs(refs))
  }

  /** The first `|slots|` functions of the index, read in order: function
      `j` reads the two shared sections from `namesAt[j]` and `typesAt[j]`
      to `namesAt[j + 1]` and `typesAt[j + 1]`, and records `added[j]`. */
  ghost predicate FunctionsRead(file: BefFile, functions: Bytes, namesData: Bytes, typesData: Bytes,
                                namesAt: seq<nat>, typesAt: seq<nat>, slots: seq<FunctionSlot>,
                                added: seq<seq<RegionRef>>)
  {
    && |slots| <= |file.functionIndex| && |namesAt| == |slots| + 1 && |typesAt| == |slots| + 1
    && |added| == |slots|
    && forall j :: 0 <= j < |slots| ==>
         FunctionDecodes(file, j, functions, namesData, namesAt[j], namesAt[j + 1], typesData, typesAt[j], typesAt[j + 1],
                         slots[j], added[j])
  }

  /** The references of all functions, in function order. */
  function Flatten(added: seq<seq<RegionRef>>): (refs: seq<RegionRef>)
    decreases |added|
  {
    if added == [] then [] else Flatten(added[..|added| - 1]) + added[|added| - 1]
  }

  /** Where a shared section stands once its leading count is skipped:
      past the count when the section is not empty. */
  function SkipCount(data: Bytes): (pos: nat)
    ensures pos <= |data|
    ensures |data| == 0 ==> pos == 0
  {
    if |data| == 0 then 0 else IntAt(data, 0).1
  }

  /** A reader for a section shared by all function bodies, past its
      leading count when it is not empty. */
  method SharedSectionReader(data: Bytes) returns (reader: Reader)
    ensures fresh(reader) && reader.Valid() && reader.data == data && reader.pos == SkipCount(data)
  {
    reader := new Reader(data, 0);
    if !reader.Empty() {
      var _ := reader.ReadInt();
    }
  }

  /** What `ReadFunctions` decodes: every function of the index in order,
      the shared sections read from past their counts on, and the region
      references of all of them. */
  ghost predicate FunctionsDecode(file: BefFile, functions: Bytes, namesData: Bytes, typesData: Bytes,
                                  slots: seq<FunctionSlot>, refs: seq<RegionRef>)
  {
    exists namesAt: seq<nat>, typesAt: seq<nat>, added: seq<seq<RegionRef>> ::
      && FunctionsRead(file, functions, namesData, typesData, namesAt, typesAt, slots, added)
      && |slots| == |file.functionIndex|
      && namesAt[0] == SkipCount(namesData) && typesAt[0] == SkipCount(typesData)
      && refs == Flatten(added)
  }

  /** Function `i` of the index decodes from the given positions of the
      two shared sections. */
  ghost predicate FunctionDecodable(file: BefFile, i: nat, functions: Bytes, namesData: Bytes, namesPos: nat,
                                    typesData: Bytes, typesPos: nat)
    requires i < |file.functionIndex|
  {
    exists namesEnd: nat, typesEnd: nat, slot: FunctionSlot, refs: seq<RegionRef> ::
      FunctionDecodes(file, i, functions, namesData, namesPos, namesEnd, typesData, typesPos, typesEnd, slot, refs)
  }

  /** Every function of the index decodes, in order. */
  ghost predicate FunctionsDecodable(file: BefFile, functions: Bytes, namesData: Bytes, typesData: Bytes)
  {
    exists slots: seq<FunctionSlot>, refs: seq<RegionRef> :: FunctionsDecode(file, functions, namesData, typesData, slots, refs)
  }

  /** A BEF function whose body does not decode does not decode. */
  lemma FunctionNeedsBody(file: BefFile, i: nat, functions: Bytes, namesData: Bytes, namesPos: nat,
                          typesData: Bytes, typesPos: nat)
    requires i < |file.functionIndex| && !file.functionIndex[i].IsNativeFunction()
    requires !BodyDecodable(file, file.functionIndex[i], functions, namesData, namesPos, typesData, typesPos)
    ensures !FunctionDecodable(file, i, functions, namesData, namesPos, typesData, typesPos)
  {
  }

  /** A function decodes in one way only: where the shared sections end,
      its slot and its references are determined by the inputs. */
  lemma FunctionDecodesDeterministic(file: BefFile, i: nat, functions: Bytes, namesData: Bytes, namesPos: nat,
                                     typesData: Bytes, typesPos: nat,
                                     e1: nat, t1: nat, s1: FunctionSlot, r1: seq<RegionRef>,
                                     e2: nat, t2: nat, s2: FunctionSlot, r2: seq<RegionRef>)
    requires i < |file.functionIndex|
    requires FunctionDecodes(file, i, functions, namesData, namesPos, e1, typesData, typesPos, t1, s1, r1)
    requires FunctionDecodes(file, i, functions, namesData, namesPos, e2, typesData, typesPos, t2, s2, r2)
    ensures e1 == e2 && t1 == t2 && s1 == s2 && r1 == r2
  {
    if !file.functionIndex[i].IsNativeFunction() {
      var p1, p2 := PendingOfRefs(r1), PendingOfRefs(r2);
      BodyDecodesDeterministic(file, file.functionIndex[i], functions, namesData, namesPos, typesData, typesPos,
                               e1, t1, s1.0, s1.1.value, p1, e2, t2, s2.0, s2.1.value, p2);
      forall k | 0 <= k < |r1|
        ensures r1[k] == r2[k]
      {
        assert p1[k] == p2[k];
      }
    }
  }

  /** Two chains of functions read from the same positions agree on their
      first `j` links. */
  lemma {:induction false} FunctionsReadAgree(file: BefFile, functions: Bytes, namesData: Bytes, typesData: Bytes,
                                              namesA: seq<nat>, typesA: seq<nat>, slotsA: seq<FunctionSlot>,
                                              addedA: seq<seq<RegionRef>>,
                                              namesB: seq<nat>, typesB: seq<nat>, slotsB: seq<FunctionSlot>,
                                              addedB: seq<seq<RegionRef>>, j: nat)
    requires FunctionsRead(file, functions, namesData, typesData, namesA, typesA, slotsA, addedA)
    requires FunctionsRead(file, functions, namesData, typesData, namesB, typesB, slotsB, addedB)
    requires namesA[0] == namesB[0] && typesA[0] == typesB[0]
    requires j <= |slotsA| && j <= |slotsB|
    ensures namesA[j] == namesB[j] && typesA[j] == typesB[j]
    ensures forall k :: 0 <= k < j ==> slotsA[k] == slotsB[k] && addedA[k] == addedB[k]
  {
    if j > 0 {
      FunctionsReadAgree(file, functions, namesData, typesData, namesA, typesA, slotsA, addedA,
                         namesB, typesB, slotsB, addedB, j - 1);
      FunctionDecodesDeterministic(file, j - 1, functions, namesData, namesA[j - 1], typesData, typesA[j - 1],
                                   namesA[j], typesA[j], slotsA[j - 1], addedA[j - 1],
                                   namesB[j], typesB[j], slotsB[j - 1], addedB[j - 1]);
    }
  }

  /** The Functions section decodes in one way only. */
  lemma FunctionsDecodeDeterministic(file: BefFile, functions: Bytes, namesData: Bytes, typesData: Bytes,
                                     s1: seq<FunctionSlot>, r1: seq<RegionRef>, s2: seq<FunctionSlot>, r2: seq<RegionRef>)
    requires FunctionsDecode(file, functions, namesData, typesData, s1, r1)
    requires FunctionsDecode(file, functions, namesData, typesData, s2, r2)
    ensures s1 == s2 && r1 == r2
  {
    var namesA: seq<nat>, typesA: seq<nat>, addedA: seq<seq<RegionRef>> :|
      && FunctionsRead(file, functions, namesData, typesData, namesA, typesA, s1, addedA)
      && |s1| == |file.functionIndex|
      && namesA[0] == SkipCount(namesData) && typesA[0] == SkipCount(typesData)
      && r1 == Flatten(addedA);
    var namesB: seq<nat>, typesB: seq<nat>, addedB: seq<seq<RegionRef>> :|
      && FunctionsRead(file, functions, namesData, typesData, namesB, typesB, s2, addedB)
      && |s2| == |file.functionIndex|
      && namesB[0] == SkipCount(namesData) && typesB[0] == SkipCount(typesData)
      && r2 == Flatten(addedB);
    FunctionsReadAgree(file, functions, namesData, typesData, namesA, typesA, s1, addedA,
                       namesB, typesB, s2, addedB, |s1|);
    assert addedA == addedB;
  }

  /** The loop of `ReadFunctions` stops at function `i` when that function
      does not decode from where the shared sections stand: then the
      Functions section does not decode. */
  lemma FunctionsStop(file: BefFile, functions: Bytes, namesData: Bytes, typesData: Bytes,
                      namesAt: seq<nat>, typesAt: seq<nat>, slots: seq<FunctionSlot>, added: seq<seq<RegionRef>>)
    requires FunctionsRead(file, functions, namesData, typesData, namesAt, typesAt, slots, added)
    requires namesAt[0] == SkipCount(namesData) && typesAt[0] == SkipCount(typesData)
    requires |slots| < |file.functionIndex|
    requires !FunctionDecodable(file, |slots|, functions, namesData, namesAt[|slots|], typesData, typesAt[|slots|])
    ensures !FunctionsDecodable(file, functions, namesData, typesData)
  {
    if FunctionsDecodable(file, functions, namesData, typesData) {
      var s, r :| FunctionsDecode(file, functions, namesData, typesData, s, r);
      var namesB: seq<nat>, typesB: seq<nat>, addedB: seq<seq<RegionRef>> :|
        && FunctionsRead(file, functions, namesData, typesData, namesB, typesB, s, addedB)
        && |s| == |file.functionIndex|
        && namesB[0] == SkipCount(namesData) && typesB[0] == SkipCount(typesData)
        && r == Flatten(addedB);
      var i := |slots|;
      assert FunctionDecodes(file, i, functions, namesData, namesB[i], namesB[i + 1], typesData, typesB[i], typesB[i + 1],
                             s[i], addedB[i]);
      FunctionsReadAgree(file, functions, namesData, typesData, namesAt, typesAt, slots, added,
                         namesB, typesB, s, addedB, i);
    }
  }

  /** The body of BEF function `f`, entry `i` of the function index, and
      the region references of its operations. */
  method ReadBefFunction(file: BefFile, f: BefFunction, i: nat, functions: Bytes, names: Reader, types: Reader)
    returns (r: Result<(FunctionSlot, seq<RegionRef>)>)
    requires names.Valid() && types.Valid() && names != types
    modifies names, types
    ensures names.Valid() && types.Valid()
    ensures f.functionOffset > |functions| ==> r.Err?
    ensures r.Ok? ==> r.value.0.1.Some? && BodyWellFormed(f, r.value.0)
    ensures r.Ok? ==> forall k :: 0 <= k < |r.value.1| ==>
              r.value.1[k].inFunction == i && RefWellFormed(r.value.0, r.value.1[k])
    ensures r.Ok? ==>
      BefFunctionDecodes(file, f, i, functions, names.data, old(names.pos), names.pos, types.data, old(types.pos), types.pos,
                         r.value.0, r.value.1)
    ensures r.Ok? <==> BodyDecodable(file, f, functions, names.data, old(names.pos), types.data, old(types.pos))
  {
    if f.functionOffset > |functions| {
      return Err(FunctionOffsetMessage);
    }
    var reader := new FunctionReader(file, f, functions);
    var body := reader.ReadFunction(names, types);
    if body.Err? {
      return Err(body.msg);
    }
    var region := body.value.1;
    var pending := reader.regionRefs;
    assert forall j :: 0 <= j < |pending| ==>
      pending[j].0 < |region.ops| && region.ops[pending[j].0].numRegions == |pending[j].1| > 0;
    var refs := RefsOf(i, pending);
    assert PendingOfRefs(refs) == pending;
    r := Ok(((body.value.0, Some(region)), refs));
  }

  /** `ReadFunctions`: the attribute-names and register-types sections are
      shared by all bodies, past their leading table count; a native
      function gets an unknown location and no body, a BEF function the
      region its body decodes to. */
  method ReadFunctions(file: BefFile, functions: Bytes, attributeNames: Bytes, registerTypes: Bytes)
    returns (r: Result<(seq<FunctionSlot>, seq<RegionRef>)>)
    ensures r.Ok? ==> SlotsRead(file.functionIndex, r.value.0, r.value.1, functions)
    ensures r.Ok? ==> FunctionsDecode(file, functions, attributeNames, registerTypes, r.value.0, r.value.1)
    ensures (exists i :: 0 <= i < |file.functionIndex| && !file.functionIndex[i].IsNativeFunction()
                         && file.functionIndex[i].functionOffset > |functions|) ==> r.Err?
    ensures r.Ok? <==> FunctionsDecodable(file, functions, attributeNames, registerTypes)
  {
    var names := SharedSectionReader(attributeNames);
    var types := SharedSectionReader(registerTypes);
    var index := file.functionIndex;
    var slots: seq<FunctionSlot> := [];
    var refs: seq<RegionRef> := [];
    ghost var namesAt, typesAt, added := [names.pos], [types.pos], [];
    for i := 0 to |index|
      invariant names.Valid() && types.Valid() && names != types
      invariant fresh(names) && fresh(types)
      invariant |slots| == i && SlotsRead(index[..i], slots, refs, functions)
      invariant FunctionsLoop(file, functions, attributeNames, registerTypes, namesAt, typesAt, slots, added,
                              names.pos, types.pos, refs)
    {
      var read := ReadFunctionSlot(file, i, functions, names, types, namesAt, typesAt, slots, added, refs);
      if read.Err? {
        FunctionsStop(file, functions, attributeNames, registerTypes, namesAt, typesAt, slots, added);
        return Err(read.msg);
      }
      var (slot, more) := read.value;
      slots, refs := slots + [slot], refs + more;
      namesAt, typesAt, added := namesAt + [names.pos], typesAt + [types.pos], added + [more];
    }
    assert index[..|index|] == index;
    assert FunctionsRead(file, functions, attributeNames, registerTypes, namesAt, typesAt, slots, added);
    r := Ok((slots, refs));
    assert FunctionsDecode(file, functions, attributeNames, registerTypes, slots, refs);
  }

  /** The loop of `ReadFunctions` after the functions of `slots`: the
      chain starts past the counts of the shared sections, ends where they
      stand, and has recorded the references `refs`. */
  ghost predicate FunctionsLoop(file: BefFile, functions: Bytes, namesData: Bytes, typesData: Bytes,
                                namesAt: seq<nat>, typesAt: seq<nat>, slots: seq<FunctionSlot>,
                                added: seq<seq<RegionRef>>, namesPos: nat, typesPos: nat, refs: seq<RegionRef>)
  {
    && FunctionsRead(file, functions, namesData, typesData, namesAt, typesAt, slots, added)
    && namesAt[0] == SkipCount(namesData) && typesAt[0] == SkipCount(typesData)
    && namesAt[|slots|] == namesPos && typesAt[|slots|] == typesPos
    && refs == Flatten(added)
  }

  /** The body of the loop of `ReadFunctions` for function `i`: a native
      function gets an unknown location and no body, a BEF function the
      body `ReadBefFunction` decodes; either extends the slots and the
      chain of functions read so far. */
  method ReadFunctionSlot(file: BefFile, i: nat, functions: Bytes, names: Reader, types: Reader,
                          ghost namesAt: seq<nat>, ghost typesAt: seq<nat>, ghost slots: seq<FunctionSlot>,
                          ghost added: seq<seq<RegionRef>>, ghost refs: seq<RegionRef>)
    returns (r: Result<(FunctionSlot, seq<RegionRef>)>)
    requires names.Valid() && types.Valid() && names != types
    requires i == |slots| < |file.functionIndex|
    requires SlotsRead(file.functionIndex[..i], slots, refs, functions)
    requires FunctionsLoop(file, functions, names.data, types.data, namesAt, typesAt, slots, added,
                           names.pos, types.pos, refs)
    modifies names, types
    ensures names.Valid() && types.Valid()
    ensures !file.functionIndex[i].IsNativeFunction() && file.functionIndex[i].functionOffset > |functions| ==> r.Err?
    ensures r.Ok? ==> SlotsRead(file.functionIndex[..i + 1], slots + [r.value.0], refs + r.value.1, functions)
    ensures r.Ok? ==>
      FunctionsLoop(file, functions, names.data, types.data, namesAt + [names.pos], typesAt + [types.pos],
                    slots + [r.value.0], added + [r.value.1], names.pos, types.pos, refs + r.value.1)
    ensures r.Ok? <==> FunctionDecodable(file, i, functions, names.data, old(names.pos), types.data, old(types.pos))
  {
    var f := file.functionIndex[i];
    assert file.functionIndex[..i + 1] == file.functionIndex[..i] + [f];
    if f.IsNativeFunction() {
      r := Ok(((UnknownLoc, None), []));
      NativeFunctionRead(file, functions, names.data, types.data, namesAt, typesAt, slots, added, refs,
                         names.pos, types.pos);
    } else {
      r := ReadBefFunction(file, f, i, functions, names, types);
      if r.Err? {
        FunctionNeedsBody(file, i, functions, names.data, old(names.pos), types.data, old(types.pos));
        return;
      }
      FunctionsLoopSnoc(file, functions, names.data, types.data, namesAt, typesAt, slots, added, refs,
                        old(names.pos), old(types.pos), names.pos, types.pos, r.value.0, r.value.1);
    }
    SlotsReadSnoc(file.functionIndex[..i], slots, refs, functions, f, r.value.0, r.value.1);
  }

  /** A native function extends the chain without reading anything. */
  lemma NativeFunctionRead(file: BefFile, functions: Bytes, namesData: Bytes, typesData: Bytes,
                           namesAt: seq<nat>, typesAt: seq<nat>, slots: seq<FunctionSlot>, added: seq<seq<RegionRef>>,
                           refs: seq<RegionRef>, namesPos: nat, typesPos: nat)
    requires |slots| < |file.functionIndex| && file.functionIndex[|slots|].IsNativeFunction()
    requires FunctionsLoop(file, functions, namesData, typesData, namesAt, typesAt, slots, added, namesPos, typesPos, refs)
    ensures FunctionsLoop(file, functions, namesData, typesData, namesAt + [namesPos], typesAt + [typesPos],
                          slots + [(UnknownLoc, None)], added + [[]], namesPos, typesPos, refs + [])
    ensures FunctionDecodable(file, |slots|, functions, namesData, namesPos, typesData, typesPos)
  {
    FunctionsLoopSnoc(file, functions, namesData, typesData, namesAt, typesAt, slots, added, refs,
                      namesPos, typesPos, namesPos, typesPos, (UnknownLoc, None), []);
  }

  lemma FunctionsLoopSnoc(file: BefFile, functions: Bytes, namesData: Bytes, typesData: Bytes,
                          namesAt: seq<nat>, typesAt: seq<nat>, slots: seq<FunctionSlot>, added: seq<seq<RegionRef>>,
                          refs: seq<RegionRef>, namesPos: nat, typesPos: nat, namesEnd: nat, typesEnd: nat,
                          slot: FunctionSlot, more: seq<RegionRef>)
    requires |slots| < |file.functionIndex|
    requires FunctionsLoop(file, functions, namesData, typesData, namesAt, typesAt, slots, added, namesPos, typesPos, refs)
    requires FunctionDecodes(file, |slots|, functions, namesData, namesPos, namesEnd,
                             typesData, typesPos, typesEnd, slot, more)
    ensures FunctionsLoop(file, functions, namesData, typesData, namesAt + [namesEnd], typesAt + [typesEnd],
                          slots + [slot], added + [more], namesEnd, typesEnd, refs + more)
    ensures FunctionDecodable(file, |slots|, functions, namesData, namesPos, typesData, typesPos)
  {
    FunctionsReadSnoc(file, functions, namesData, typesData, namesAt, typesAt, slots, added, namesEnd, typesEnd, slot, more);
  }

  /** One more function read extends the chain by one link. */
  lemma FunctionsReadSnoc(file: BefFile, functions: Bytes, namesData: Bytes, typesData: Bytes,
                          namesAt: seq<nat>, typesAt: seq<nat>, slots: seq<FunctionSlot>, added: seq<seq<RegionRef>>,
                          namesEnd: nat, typesEnd: nat, slot: FunctionSlot, refs: seq<RegionRef>)
    requires FunctionsRead(file, functions, namesData, typesData, namesAt, typesAt, slots, added)
    requires |slots| < |file.functionIndex|
    requires FunctionDecodes(file, |slots|, functions, namesData, namesAt[|slots|], namesEnd,
                             typesData, typesAt[|slots|], typesEnd, slot, refs)
    ensures FunctionsRead(file, functions, namesData, typesData, namesAt + [namesEnd], typesAt + [typesEnd],
                          slots + [slot], added + [refs])
    ensures Flatten(added + [refs]) == Flatten(added) + refs
  {
    var n := |slots|;
    var namesAt', typesAt', slots', added' := namesAt + [namesEnd], typesAt + [typesEnd], slots + [slot], added + [refs];
    forall j | 0 <= j < n + 1
      ensures FunctionDecodes(file, j, functions, namesData, namesAt'[j], namesAt'[j + 1], typesData,
                              typesAt'[j], typesAt'[j + 1], slots'[j], added'[j])
    {
      if j < n {
        assert namesAt'[j] == namesAt[j] && namesAt'[j + 1] == namesAt[j + 1];
        assert typesAt'[j] == typesAt[j] && typesAt'[j + 1] == typesAt[j + 1];
        assert slots'[j] == slots[j] && added'[j] == added[j];
      }
    }
    assert added'[..n] == added;
  }

  /** The slots and references read for the functions `index`: one slot
      each, with a body exactly for the BEF functions, well formed, with
      well-formed references; native functions get an unknown location,
      and BEF functions lie within the Functions section. */
  ghost predicate SlotsRead(index: seq<BefFunction>, slots: seq<FunctionSlot>, refs: seq<RegionRef>, functions: Bytes)
  {
    && SlotsFor(index, slots)
    && BodiesWellFormed(index, slots) && RefsWellFormed(index, slots, refs)
    && (forall j :: 0 <= j < |index| && index[j].IsNativeFunction() ==> slots[j] == (UnknownLoc, None))
    && (forall j :: 0 <= j < |index| && !index[j].IsNativeFunction() ==> index[j].functionOffset <= |functions|)
  }

  lemma SlotsReadSnoc(index: seq<BefFunction>, slots: seq<FunctionSlot>, refs: seq<RegionRef>, functions: Bytes,
                      f: BefFunction, slot: FunctionSlot, added: seq<RegionRef>)
    requires SlotsRead(index, slots, refs, functions)
    requires slot.1.Some? <==> !f.IsNativeFunction()
    requires BodyWellFormed(f, slot)
    requires forall k :: 0 <= k < |added| ==> added[k].inFunction == |index| && RefWellFormed(slot, added[k])
    requires f.IsNativeFunction() ==> slot == (UnknownLoc, None)
    requires !f.IsNativeFunction() ==> f.functionOffset <= |functions|
    ensures SlotsRead(index + [f], slots + [slot], refs + added, functions)
  {
    SlotsSnoc(index, slots, refs, f, slot, added);
    var index', slots' := index + [f], slots + [slot];
    forall j | 0 <= j < |index'|
      ensures index'[j].IsNativeFunction() ==> slots'[j] == (UnknownLoc, None)
      ensures !index'[j].IsNativeFunction() ==> index'[j].functionOffset <= |functions|
    {
      if j < |index| {
        assert index'[j] == index[j] && slots'[j] == slots[j];
      }
    }
  }

  lemma SlotsSnoc(index: seq<BefFunction>, slots: seq<FunctionSlot>, refs: seq<RegionRef>,
                  f: BefFunction, slot: FunctionSlot, added: seq<RegionRef>)
    requires SlotsFor(index, slots) && BodiesWellFormed(index, slots) && RefsWellFormed(index, slots, refs)
    requires slot.1.Some? <==> !f.IsNativeFunction()
    requires BodyWellFormed(f, slot)
    requires forall k :: 0 <= k < |added| ==> added[k].inFunction == |index| && RefWellFormed(slot, added[k])
    ensures SlotsFor(index + [f], slots + [slot])
    ensures BodiesWellFormed(index + [f], slots + [slot])
    ensures RefsWellFormed(index + [f], slots + [slot], refs + added)
  {
    var index', slots', refs' := index + [f], slots + [slot], refs + added;
    forall k | 0 <= k < |refs'|
      ensures refs'[k].inFunction < |index'| && RefWellFormed(slots'[refs'[k].inFunction], refs'[k])
    {
      if k < |refs| {
        assert refs'[k] == refs[k];
        assert slots'[refs[k].inFunction] == slots[refs[k].inFunction];
      } else {
        assert refs'[k] == added[k - |refs|];
      }
    }
  }

  // ----- the first phase -----

  /** `ReadTypes`' table: each type name through the type parser. */
  function ParsedTypes(names: seq<Bytes>, parse: Bytes -> Option<Type>): (types: seq<Option<Type>>)
    ensures |types| == |names|
  {
    seq(|names|, j requires 0 <= j < |names| => parse(names[j]))
  }

  /** The section table of a BEF file: the header, then the sections, then
      the format version, with the diagnostic of the first that fails. */
  function ContainerOf(data: seq<Byte>): (r: Result<seq<Bytes>>)
    ensures r.Ok? ==> |r.value| == NumSectionIds
  {
    var (header, p) := HeaderAt(data, 0);
    if !header then Err(HeaderMessage)
    else
      var sections := SectionsFrom(data, p, EmptySections());
      if sections.None? then Err(SectionHeaderMessage)
      else if !FormatVersionOk(sections.value[FormatVersionSection]) then Err(VersionMessage)
      else Ok(sections.value)
  }

  /** The tables read from the sections `s`, with the diagnostic of the
      first that fails, and whether the attributes could not be read (a
      warning only). */
  function TablesOf(location: Location, s: seq<Bytes>, parse: Bytes -> Option<Type>)
    : (r: Result<(BefFile, bool)>)
    requires |s| == NumSectionIds
  {
    var filenames := NulStringsFrom(s[LocationFilenamesSection], 0);
    if filenames.None? then Err(LocationFilenamesMessage)
    else
      var positions := LocationsFrom(s[LocationPositionsSection], 0, Filenames(filenames.value));
      if positions.None? then Err(LocationPositionsMessage)
      else
        var strings := NulStringsFrom(s[StringsSection], 0);
        if strings.None? then Err(StringsMessage)
        else
          var table := StringsByOffset(strings.value);
          var typeNames := StringOffsetSection(s[TypesSection], table);
          if typeNames.None? then Err(TypesMessage)
          else
            var types := ParsedTypes(typeNames.value, parse);
            var (attrs, attrsOk) := AttributesOf(s[AttributesSection], s[AttributeTypesSection], types);
            var kernels := StringOffsetSection(s[KernelsSection], table);
            if kernels.None? then Err(KernelsSectionMessage)
            else
              var index := FunctionIndexOf(s[FunctionIndexSection], table, types);
              if index.None? then Err(FunctionIndexMessage)
              else
                Ok((BefFile(location, Filenames(filenames.value), positions.value, table, attrs,
                            kernels.value, types, index.value), !attrsOk))
  }

  /** The first phase: the decoded tables and the raw sections, or the
      diagnostic of the first step that fails. */
  function FirstPhase(location: Location, data: seq<Byte>, parse: Bytes -> Option<Type>)
    : (r: Result<(BefFile, seq<Bytes>, bool)>)
    ensures r.Ok? ==> |r.value.1| == NumSectionIds
  {
    var s := ContainerOf(data);
    if s.Err? then Err(s.msg)
    else
      var tables := TablesOf(location, s.value, parse);
      if tables.Err? then Err(tables.msg)
      else Ok((tables.value.0, s.value, tables.value.1))
  }

  /** The diagnostics of the first phase. */
  const FirstPhaseMessages: set<string> :=
    {HeaderMessage, SectionHeaderMessage, VersionMessage, LocationFilenamesMessage, LocationPositionsMessage,
     StringsMessage, TypesMessage, KernelsSectionMessage, FunctionIndexMessage}

  /** The first phase fails only with one of its own diagnostics. */
  lemma FirstPhaseFailsWith(location: Location, data: seq<Byte>, parse: Bytes -> Option<Type>)
    ensures FirstPhase(location, data, parse).Err? ==> FirstPhase(location, data, parse).msg in FirstPhaseMessages
  {
    var s := ContainerOf(data);
    if s.Ok? {
      TablesFailWith(location, s.value, parse);
    }
  }

  /** Reading the tables fails only with a table's diagnostic. */
  lemma TablesFailWith(location: Location, s: seq<Bytes>, parse: Bytes -> Option<Type>)
    requires |s| == NumSectionIds
    ensures TablesOf(location, s, parse).Err? ==>
      TablesOf(location, s, parse).msg in {LocationFilenamesMessage, LocationPositionsMessage, StringsMessage,
                                           TypesMessage, KernelsSectionMessage, FunctionIndexMessage}
  {
    var r := TablesOf(location, s, parse);
    var filenames := NulStringsFrom(s[LocationFilenamesSection], 0);
    if filenames.None? {
      assert r == Err(LocationFilenamesMessage);
      return;
    }
    var positions := LocationsFrom(s[LocationPositionsSection], 0, Filenames(filenames.value));
    if positions.None? {
      assert r == Err(LocationPositionsMessage);
      return;
    }
    var strings := NulStringsFrom(s[StringsSection], 0);
    if strings.None? {
      assert r == Err(StringsMessage);
      return;
    }
    var table := StringsByOffset(strings.value);
    if StringOffsetSection(s[TypesSection], table).None? {
      assert r == Err(TypesMessage);
      return;
    }
  }

  /** The first phase of `ConvertBEFToMLIR`: the section table, then the
      tables. `missing` is the missing-sections warning, raised once the
      section table is read. */
  method ReadFirstPhase(location: Location, data: seq<Byte>, parse: Bytes -> Option<Type>)
    returns (r: Result<(BefFile, seq<Bytes>, bool)>, missing: bool)
    ensures r == FirstPhase(location, data, parse)
  {
    var s;
    s, missing := ReadContainer(data);
    if s.Err? {
      return Err(s.msg), missing;
    }
    var tables := ReadTables(location, s.value, parse);
    if tables.Err? {
      return Err(tables.msg), missing;
    }
    r := Ok((tables.value.0, s.value, tables.value.1));
  }

  /** Reads the header and the section table of `data`. `missing` is the
      missing-sections warning. */
  method ReadContainer(data: seq<Byte>) returns (r: Result<seq<Bytes>>, missing: bool)
    ensures r == ContainerOf(data)
  {
    var reader := new Reader(data, 0);
    var ok := ReadHeader(reader);
    if !ok {
      return Err(HeaderMessage), false;
    }
    var sections := new Sections();
    ok, missing := ReadSections(reader, sections);
    if !ok {
      return Err(SectionHeaderMessage), false;
    }
    if !FormatVersionOk(sections.Get(FormatVersionSection)) {
      return Err(VersionMessage), missing;
    }
    r := Ok(sections.table);
  }

  /** Reads the tables every function body refers to from the sections
      `s`. */
  method ReadTables(location: Location, s: seq<Bytes>, parse: Bytes -> Option<Type>)
    returns (r: Result<(BefFile, bool)>)
    requires |s| == NumSectionIds
    ensures r == TablesOf(location, s, parse)
  {
    var filenameItems := ReadNullTerminatedStrings(s[LocationFilenamesSection]);
    if filenameItems.None? {
      return Err(LocationFilenamesMessage);
    }
    var filenames := Filenames(filenameItems.value);
    var positions := ReadLocationPositions(s[LocationPositionsSection], filenames);
    if positions.None? {
      return Err(LocationPositionsMessage);
    }
    var stringItems := ReadNullTerminatedStrings(s[StringsSection]);
    if stringItems.None? {
      return Err(StringsMessage);
    }
    var strings := StringsByOffset(stringItems.value);
    var types := ReadTypes(s[TypesSection], strings, parse);
    if types.None? {
      return Err(TypesMessage);
    }
    assert types.value == ParsedTypes(StringOffsetSection(s[TypesSection], strings).value, parse);
    var attrs, attrsOk := ReadAttributes(s[AttributesSection], s[AttributeTypesSection], types.value);
    var kernels := ReadStringOffsetSection(s[KernelsSection], strings);
    if kernels.None? {
      return Err(KernelsSectionMessage);
    }
    var index := ReadFunctionIndex(s[FunctionIndexSection], strings, types.value);
    if index.None? {
      return Err(FunctionIndexMessage);
    }
    r := Ok((BefFile(location, filenames, positions.value, strings, attrs, kernels.value, types.value, index.value),
             !attrsOk));
  }

  /** What the decoder builds from a file whose tables are `file` and
      whose sections are `sections`: the function bodies are those the
      Functions section decodes to, with the shared attribute-names and
      register-types sections, and the functions resolve. */
  ghost predicate ConvertedFrom(file: BefFile, sections: seq<Bytes>, m: Module)
    requires |sections| == NumSectionIds
  {
    exists slots, refs ::
      && FunctionsDecode(file, sections[FunctionsSection], sections[AttributeNamesSection],
                         sections[RegisterTypesSection], slots, refs)
      && SlotsFor(file.functionIndex, slots)
      && BodiesWellFormed(file.functionIndex, slots)
      && RefsWellFormed(file.functionIndex, slots, refs)
      && ResolvesExactly(file.functionIndex, ReferencedIndices(refs))
      && m.functions == TopLevel(file.functionIndex, slots, |file.functionIndex|)
      && RefsInRange(slots, refs) && m.nested == NestedOf(slots, refs)
  }

  /** The Functions section of a file whose tables are `file` and whose
      sections are `sections` decodes, and its functions resolve. */
  ghost predicate Convertible(file: BefFile, sections: seq<Bytes>)
    requires |sections| == NumSectionIds
  {
    exists slots: seq<FunctionSlot>, refs: seq<RegionRef> ::
      && FunctionsDecode(file, sections[FunctionsSection], sections[AttributeNamesSection],
                         sections[RegisterTypesSection], slots, refs)
      && ResolvesExactly(file.functionIndex, ReferencedIndices(refs))
  }

  /** Once the Functions section has decoded to `slots` and `refs`, the
      file converts exactly when those references resolve. */
  lemma ConvertibleWhenResolved(file: BefFile, sections: seq<Bytes>, slots: seq<FunctionSlot>, refs: seq<RegionRef>)
    requires |sections| == NumSectionIds
    requires FunctionsDecode(file, sections[FunctionsSection], sections[AttributeNamesSection],
                             sections[RegisterTypesSection], slots, refs)
    ensures Convertible(file, sections) <==> ResolvesExactly(file.functionIndex, ReferencedIndices(refs))
  {
    if Convertible(file, sections) {
      var slots', refs' :|
        && FunctionsDecode(file, sections[FunctionsSection], sections[AttributeNamesSection],
                           sections[RegisterTypesSection], slots', refs')
        && ResolvesExactly(file.functionIndex, ReferencedIndices(refs'));
      FunctionsDecodeDeterministic(file, sections[FunctionsSection], sections[AttributeNamesSection],
                                   sections[RegisterTypesSection], slots, refs, slots', refs');
    }
  }

  /** A file whose Functions section does not decode does not convert. */
  lemma ConvertibleNeedsFunctions(file: BefFile, sections: seq<Bytes>)
    requires |sections| == NumSectionIds
    requires !FunctionsDecodable(file, sections[FunctionsSection], sections[AttributeNamesSection],
                                 sections[RegisterTypesSection])
    ensures !Convertible(file, sections)
  {
  }

  /** `ConvertBEFToMLIR`. `parse` stands for MLIR's type parser. The
      warnings are those emitted on the way: missing optional sections and
      unreadable attributes. */
  method ConvertBEFToMLIR(location: Location, data: seq<Byte>, parse: Bytes -> Option<Type>)
    returns (r: Result<Module>, warnings: seq<string>)
    ensures FirstPhase(location, data, parse).Err? ==> r == Err(FirstPhase(location, data, parse).msg)
    ensures r.Ok? ==> FirstPhase(location, data, parse).Ok?
    ensures r.Ok? ==>
      var (file, s, attrsFailed) := FirstPhase(location, data, parse).value;
      && (AttributesWarning in warnings <==> attrsFailed)
      && ConvertedFrom(file, s, r.value)
    ensures r.Err? ==> r.msg in FirstPhaseMessages + {FunctionsMessage, ResolveMessage}
    ensures r.Ok? <==>
      FirstPhase(location, data, parse).Ok?
      && Convertible(FirstPhase(location, data, parse).value.0, FirstPhase(location, data, parse).value.1)
  {
    warnings := [];
    var first, missing := ReadFirstPhase(location, data, parse);
    if missing {
      warnings := warnings + [MissingSectionsWarning];
    }
    if first.Err? {
      FirstPhaseFailsWith(location, data, parse);
      return Err(first.msg), warnings;
    }
    var (file, sections, attrsFailed) := first.value;
    if attrsFailed {
      warnings := warnings + [AttributesWarning];
    }
    var bodies := ReadFunctions(file, sections[FunctionsSection], sections[AttributeNamesSection],
                                sections[RegisterTypesSection]);
    if bodies.Err? {
      ConvertibleNeedsFunctions(file, sections);
      return Err(FunctionsMessage), warnings;
    }
    var (slots, refs) := bodies.value;
    ConvertibleWhenResolved(file, sections, slots, refs);
    r := ResolveFunctions(file.functionIndex, slots, refs);
    if r.Err? {
      return Err(ResolveMessage), warnings;
    }
  }
}
