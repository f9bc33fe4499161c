/** `BEFToMLIRConverter::ResolveFunctions`: the third phase. Every named
    function becomes a top-level function; every anonymous BEF function
    becomes the body of one pending region of the operation that refers to
    it. Each function body is taken at most once, and resolution fails
    unless every body is taken. */
module BefResolve {
  import opened Wrappers
  import opened BefIr

  /** What the second phase produced for function index entry i: its
      location and, for a BEF (non-native) function, its body. */
  type FunctionSlot = (Location, Option<Region>)

  /** A `region_references_` entry: operation `op` of the body of function
      `inFunction` has one pending region per function index in `indices`. */
  datatype RegionRef = RegionRef(inFunction: nat, op: nat, indices: seq<nat>)

  /** A top-level `func`: native functions carry `hex.native` and no body. */
  datatype FuncOp = FuncOp(
    location: Location,
    name: Bytes,
    argumentTypes: seq<Type>,
    resultTypes: seq<Type>,
    body: Option<Region>,
    native: bool)

  /** The bodies moved into the pending regions of one operation. */
  datatype NestedRegions = NestedRegions(inFunction: nat, op: nat, regions: seq<Region>)

  datatype Module = Module(functions: seq<FuncOp>, nested: seq<NestedRegions>)

  const ResolveMessage: string := "Failed to resolve functions."
  /** The failure of the source's asserts in this phase. */
  const MalformedReferenceMessage: string := "Malformed region reference."

  /** A function whose body must end up in a pending region: a BEF function
      without a name. */
  predicate Pending(index: seq<BefFunction>, i: nat)
    requires i < |index|
  {
    !index[i].IsNamedFunction() && !index[i].IsNativeFunction()
  }

  /** The slots the second phase produces: a body exactly for BEF functions. */
  predicate SlotsFor(index: seq<BefFunction>, slots: seq<FunctionSlot>)
  {
    && |slots| == |index|
    && forall i :: 0 <= i < |index| ==> (slots[i].1.Some? <==> !index[i].IsNativeFunction())
  }

  // ----- top-level functions -----

  /** The result types of a BEF function: the types of its return operands. */
  function ReturnTypes(r: Region): (types: seq<Type>)
    ensures |types| == |r.returnOperands|
    ensures forall m :: 0 <= m < |types| && ValueType(r, r.returnOperands[m]).Some? ==>
              types[m] == ValueType(r, r.returnOperands[m]).value
  {
    seq(|r.returnOperands|, m requires 0 <= m < |r.returnOperands| =>
      var t := ValueType(r, r.returnOperands[m]);
      if t.Some? then t.value else NoneType)
  }

  /** In a body where every value is defined before its use, every return
      operand has a type, so the function's result types are exactly the
      operands' types. */
  lemma ReturnOperandsTyped(r: Region, m: nat)
    requires DefBeforeUse(r) && m < |r.returnOperands|
    ensures ValueType(r, r.returnOperands[m]).Some?
    ensures ReturnTypes(r)[m] == ValueType(r, r.returnOperands[m]).value
  {
    assert DefinedBefore(r.returnOperands[m], |r.argumentTypes|, r.ops, |r.ops|);
  }

  /** `CreateNativeFuncOp` and `CreateBEFFuncOp`. */
  function FuncOpOf(f: BefFunction, slot: FunctionSlot): (op: FuncOp)
    requires f.IsNativeFunction() || slot.1.Some?
    ensures op.name == f.name && op.argumentTypes == f.argumentTypes && op.location == slot.0
    ensures op.native <==> f.IsNativeFunction()
    ensures op.native ==> op.body.None? && op.resultTypes == f.resultTypes
    ensures !op.native ==> op.body == slot.1 && op.resultTypes == ReturnTypes(slot.1.value)
  {
    if f.IsNativeFunction() then FuncOp(slot.0, f.name, f.argumentTypes, f.resultTypes, None, true)
    else FuncOp(slot.0, f.name, f.argumentTypes, ReturnTypes(slot.1.value), slot.1, false)
  }

  /** The top-level functions made from entries 0 .. n - 1: one per named
      entry, in index order. */
  function TopLevel(index: seq<BefFunction>, slots: seq<FunctionSlot>, n: nat): (fs: seq<FuncOp>)
    requires SlotsFor(index, slots) && n <= |index|
    ensures |fs| <= n
    ensures forall j :: 0 <= j < |fs| ==> fs[j].name != []
  {
    if n == 0 then []
    else
      var rest := TopLevel(index, slots, n - 1);
      if index[n - 1].IsNamedFunction() then rest + [FuncOpOf(index[n - 1], slots[n - 1])] else rest
  }

  /** Every named function has its top-level function. */
  lemma {:induction false} TopLevelHasNamed(index: seq<BefFunction>, slots: seq<FunctionSlot>, n: nat, i: nat)
    requires SlotsFor(index, slots) && i < n <= |index| && index[i].IsNamedFunction()
    ensures FuncOpOf(index[i], slots[i]) in TopLevel(index, slots, n)
  {
    if i < n - 1 {
      TopLevelHasNamed(index, slots, n - 1, i);
    }
  }

  /** Only named functions have one: no anonymous function is top level. */
  lemma {:induction false} TopLevelOnlyNamed(index: seq<BefFunction>, slots: seq<FunctionSlot>, n: nat, j: nat)
    requires SlotsFor(index, slots) && n <= |index| && j < |TopLevel(index, slots, n)|
    ensures exists i :: 0 <= i < n && index[i].IsNamedFunction() && TopLevel(index, slots, n)[j] == FuncOpOf(index[i], slots[i])
  {
    var rest := TopLevel(index, slots, n - 1);
    if j < |rest| {
      TopLevelOnlyNamed(index, slots, n - 1, j);
      var i :| 0 <= i < n - 1 && index[i].IsNamedFunction() && rest[j] == FuncOpOf(index[i], slots[i]);
      assert TopLevel(index, slots, n)[j] == rest[j];
    } else {
      assert TopLevel(index, slots, n)[j] == FuncOpOf(index[n - 1], slots[n - 1]);
    }
  }

  // ----- nested regions -----

  /** The function indices of the references, in order. */
  function ReferencedIndices(refs: seq<RegionRef>): (all: seq<nat>)
  {
    if refs == [] then [] else ReferencedIndices(refs[..|refs| - 1]) + refs[|refs| - 1].indices
  }

  lemma ReferencedIndicesSnoc(refs: seq<RegionRef>, k: nat)
    requires k < |refs|
    ensures ReferencedIndices(refs[..k + 1]) == ReferencedIndices(refs[..k]) + refs[k].indices
  {
    assert refs[..k + 1][..k] == refs[..k];
  }

  /** The indices of the first k references come first among all of them. */
  lemma {:induction false} ReferencedIndicesPrefix(refs: seq<RegionRef>, k: nat)
    requires k <= |refs|
    ensures |ReferencedIndices(refs[..k])| <= |ReferencedIndices(refs)|
    ensures ReferencedIndices(refs)[..|ReferencedIndices(refs[..k])|] == ReferencedIndices(refs[..k])
    decreases |refs| - k
  {
    if k == |refs| {
      assert refs[..k] == refs;
    } else {
      ReferencedIndicesSnoc(refs, k);
      ReferencedIndicesPrefix(refs, k + 1);
      var a, b := ReferencedIndices(refs[..k]), ReferencedIndices(refs[..k + 1]);
      assert b[..|a|] == a;
      assert ReferencedIndices(refs)[..|a|] == ReferencedIndices(refs)[..|b|][..|a|];
    }
  }

  /** Resolution succeeds exactly when the references name each pending
      function once and nothing else: no index is out of range, no named
      or native function is referenced, no body is taken twice, and no
      pending body is left over. */
  ghost predicate ResolvesExactly(index: seq<BefFunction>, all: seq<nat>)
  {
    && (forall j :: 0 <= j < |all| ==> all[j] < |index| && Pending(index, all[j]))
    && (forall j, j' :: 0 <= j < j' < |all| ==> all[j] != all[j'])
    && (forall i :: 0 <= i < |index| && Pending(index, i) ==> i in all)
  }

  /** Every reference names a function that has a body. */
  predicate RefsInRange(slots: seq<FunctionSlot>, refs: seq<RegionRef>)
  {
    forall k, m :: 0 <= k < |refs| && 0 <= m < |refs[k].indices| ==>
      refs[k].indices[m] < |slots| && slots[refs[k].indices[m]].1.Some?
  }

  /** The bodies moved into the pending regions of each reference. */
  function NestedOf(slots: seq<FunctionSlot>, refs: seq<RegionRef>): (ns: seq<NestedRegions>)
    requires RefsInRange(slots, refs)
    ensures |ns| == |refs|
  {
    seq(|refs|, k requires 0 <= k < |refs| =>
      NestedRegions(refs[k].inFunction, refs[k].op,
        seq(|refs[k].indices|, m requires 0 <= m < |refs[k].indices| => slots[refs[k].indices[m]].1.value)))
  }

  /** The bodies still in place: exactly the pending functions whose body
      has not been taken yet. */
  predicate LiveExactly(index: seq<BefFunction>, live: seq<bool>, taken: seq<nat>)
  {
    && |live| == |index|
    && forall i :: 0 <= i < |index| ==> (live[i] <==> Pending(index, i) && i !in taken)
  }

  /** The bodies taken so far: pending ones, each once. */
  predicate TakenOnce(index: seq<BefFunction>, taken: seq<nat>)
  {
    && (forall j :: 0 <= j < |taken| ==> taken[j] < |index| && Pending(index, taken[j]))
    && (forall j, j' :: 0 <= j < j' < |taken| ==> taken[j] != taken[j'])
  }

  /** The first loop of `ResolveFunctions`: a top-level function per named
      entry; the bodies of named BEF functions are taken. */
  method ResolveTopLevel(index: seq<BefFunction>, slots: seq<FunctionSlot>)
    returns (functions: seq<FuncOp>, live: seq<bool>)
    requires SlotsFor(index, slots)
    ensures functions == TopLevel(index, slots, |index|)
    ensures LiveExactly(index, live, [])
  {
    live := seq(|slots|, i requires 0 <= i < |slots| => slots[i].1.Some?);
    functions := [];
    for i := 0 to |index|
      invariant |live| == |index|
      invariant functions == TopLevel(index, slots, i)
      invariant forall j :: 0 <= j < |index| ==> (live[j] <==> (slots[j].1.Some? && (j < i ==> Pending(index, j))))
    {
      if index[i].IsNamedFunction() {
        functions := functions + [FuncOpOf(index[i], slots[i])];
        live := live[i := false];
      }
    }
  }

  /** The inner loop of `ResolveFunctions` for one reference, whose
      indices are `all[p..p + |indices|]`: each referenced body must still
      be in place, and is taken. */
  method TakeBodies(index: seq<BefFunction>, slots: seq<FunctionSlot>, live: seq<bool>,
                    ghost all: seq<nat>, ghost p: nat, indices: seq<nat>)
    returns (bodies: Option<seq<Region>>, live': seq<bool>)
    requires SlotsFor(index, slots)
    requires p + |indices| <= |all| && all[p..p + |indices|] == indices
    requires LiveExactly(index, live, all[..p]) && TakenOnce(index, all[..p])
    ensures bodies.None? ==> !ResolvesExactly(index, all)
    ensures bodies.Some? ==>
      && LiveExactly(index, live', all[..p + |indices|]) && TakenOnce(index, all[..p + |indices|])
      && |bodies.value| == |indices|
      && forall j :: 0 <= j < |indices| ==>
           indices[j] < |slots| && slots[indices[j]].1.Some? && bodies.value[j] == slots[indices[j]].1.value
  {
    live' := live;
    var found := [];
    for m := 0 to |indices|
      invariant LiveExactly(index, live', all[..p + m]) && TakenOnce(index, all[..p + m])
      invariant |found| == m
      invariant forall j :: 0 <= j < m ==>
                  indices[j] < |slots| && slots[indices[j]].1.Some? && found[j] == slots[indices[j]].1.value
    {
      var idx := indices[m];
      assert all[p + m] == idx;
      if idx >= |index| || !live'[idx] {
        NotResolvedByTaken(index, all, p + m);
        return None, live';
      }
      found := found + [slots[idx].1.value];
      live' := live'[idx := false];
      assert all[..p + m + 1] == all[..p + m] + [idx];
    }
    bodies := Some(found);
  }

  /** The second loop of `ResolveFunctions`: the pending regions of each
      reference receive the bodies it names. */
  method ResolveNested(index: seq<BefFunction>, slots: seq<FunctionSlot>, refs: seq<RegionRef>, live: seq<bool>)
    returns (nested: Option<seq<NestedRegions>>, live': seq<bool>)
    requires SlotsFor(index, slots) && LiveExactly(index, live, [])
    ensures nested.None? ==> !ResolvesExactly(index, ReferencedIndices(refs))
    ensures nested.Some? ==>
      && LiveExactly(index, live', ReferencedIndices(refs)) && TakenOnce(index, ReferencedIndices(refs))
      && RefsInRange(slots, refs) && nested.value == NestedOf(slots, refs)
  {
    ghost var all := ReferencedIndices(refs);
    live' := live;
    var done := [];
    assert refs[..0] == [];
    for k := 0 to |refs|
      invariant LiveExactly(index, live', ReferencedIndices(refs[..k]))
      invariant TakenOnce(index, ReferencedIndices(refs[..k]))
      invariant RefsInRange(slots, refs[..k]) && done == NestedOf(slots, refs[..k])
    {
      ReferencedIndicesSnoc(refs, k);
      ReferencedIndicesPrefix(refs, k);
      ReferencedIndicesPrefix(refs, k + 1);
      ghost var p := |ReferencedIndices(refs[..k])|;
      var indices := refs[k].indices;
      assert all[..p] == ReferencedIndices(refs[..k]);
      assert all[p..p + |indices|] == indices by {
        assert all[..p + |indices|] == ReferencedIndices(refs[..k + 1]);
      }
      var bodies;
      bodies, live' := TakeBodies(index, slots, live', all, p, indices);
      if bodies.None? {
        return None, live';
      }
      assert all[..p + |indices|] == ReferencedIndices(refs[..k + 1]);
      RefsInRangeSnoc(slots, refs, k);
      assert bodies.value == NestedOf(slots, refs[..k + 1])[k].regions;
      assert NestedOf(slots, refs[..k + 1]) == NestedOf(slots, refs[..k]) + [NestedOf(slots, refs[..k + 1])[k]];
      done := done + [NestedRegions(refs[k].inFunction, refs[k].op, bodies.value)];
    }
    assert refs[..|refs|] == refs;
    nested := Some(done);
  }

  lemma RefsInRangeSnoc(slots: seq<FunctionSlot>, refs: seq<RegionRef>, k: nat)
    requires k < |refs| && RefsInRange(slots, refs[..k])
    requires forall m :: 0 <= m < |refs[k].indices| ==>
               refs[k].indices[m] < |slots| && slots[refs[k].indices[m]].1.Some?
    ensures RefsInRange(slots, refs[..k + 1])
  {
    var prefix := refs[..k + 1];
    forall k', m | 0 <= k' < |prefix| && 0 <= m < |prefix[k'].indices|
      ensures prefix[k'].indices[m] < |slots| && slots[prefix[k'].indices[m]].1.Some?
    {
      if k' < k {
        assert prefix[k'] == refs[..k][k'];
      }
    }
  }

  /** `ResolveFunctions`. It succeeds exactly when the references name
      every pending function once and nothing else. */
  method ResolveFunctions(index: seq<BefFunction>, slots: seq<FunctionSlot>, refs: seq<RegionRef>)
    returns (r: Result<Module>)
    requires SlotsFor(index, slots)
    ensures r.Ok? <==> ResolvesExactly(index, ReferencedIndices(refs))
    ensures r.Ok? ==>
      && r.value.functions == TopLevel(index, slots, |index|)
      && RefsInRange(slots, refs) && r.value.nested == NestedOf(slots, refs)
    ensures r.Err? ==> r.msg == ResolveMessage || r.msg == MalformedReferenceMessage
  {
    var functions, live := ResolveTopLevel(index, slots);
    var nested;
    nested, live := ResolveNested(index, slots, refs, live);
    if nested.None? {
      return Err(MalformedReferenceMessage);
    }
    // Every body must have been taken.
    for i := 0 to |index|
      invariant forall j :: 0 <= j < i ==> !live[j]
    {
      if live[i] {
        return Err(ResolveMessage);
      }
    }
    r := Ok(Module(functions, nested.value));
  }

  /** A reference to an index that is out of range, or whose body is gone
      (never there, or taken already), rules out an exact resolution. */
  lemma NotResolvedByTaken(index: seq<BefFunction>, all: seq<nat>, p: nat)
    requires p < |all|
    requires all[p] >= |index| || !Pending(index, all[p]) || all[p] in all[..p]
    ensures !ResolvesExactly(index, all)
  {
    if all[p] < |index| && Pending(index, all[p]) {
      var j :| 0 <= j < p && all[..p][j] == all[p];
      assert all[j] == all[p];
    }
  }
}
