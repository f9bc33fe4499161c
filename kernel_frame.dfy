/** `KernelFrame` and its `KernelFrameBuilder`
    (include/tfrt/host_context/kernel_frame.h): the arguments, results and
    attributes of one kernel invocation, stored in order in a single vector
    of pointer-sized slots.

    A slot is a union of an async-value pointer and an attribute pointer; it
    is modelled as a `Word`, the pointer's bits, with 0 for nullptr, so that
    reading an argument slot as an attribute (which `GetAttributes` does
    before the result count is set) reads the same word. The builder and the
    frame are one class: the builder only adds methods to the frame. The
    ghost fields `args`, `results` and `attrs` record what the protocol put
    where; `Valid` ties them to the vector. */
module KernelFrames {

  /** A pointer's bits; 0 is nullptr. */
  type Word = nat

  const Null: Word := 0

  /** `size_t` arithmetic: what a signed `int` becomes when compared with an
      unsigned 64-bit value. */
  function SizeT(x: int): (r: nat)
    ensures 0 <= x < 0x1_0000_0000_0000_0000 ==> r == x
    ensures -0x1_0000_0000_0000_0000 <= x < 0 ==> r == x + 0x1_0000_0000_0000_0000
  {
    x % 0x1_0000_0000_0000_0000
  }

  /** The largest `int`: `num_arguments_` and `num_results_` are `int`
      fields, so an argument count or result count beyond it is undefined. */
  const IntMax: int := 0x7FFF_FFFF

  class KernelFrameBuilder {
    /** `async_value_or_attrs_`. */
    var slots: seq<Word>
    /** `num_arguments_`. */
    var numArguments: int
    /** `num_results_`; -1 until `SetNumResults`. */
    var numResults: int

    ghost var args: seq<Word>
    ghost var results: seq<Word>
    ghost var attrs: seq<Word>

    /** The layout: arguments, then results, then attributes; before the
        result count is set, arguments only. */
    ghost predicate Valid()
      reads this
    {
      && numArguments == |args| <= IntMax
      && -1 <= numResults <= IntMax
      && (numResults == -1 ==> results == [] && attrs == [] && slots == args)
      && (numResults >= 0 ==> |results| == numResults && slots == args + results + attrs)
    }

    /** True when no argument has been added and no result count set. */
    ghost predicate Initial()
      reads this
    {
      slots == [] && numArguments == 0 && numResults == -1 && args == [] && results == [] && attrs == []
    }

    constructor ()
      ensures Valid() && Initial()
    {
      slots, numArguments, numResults := [], 0, -1;
      args, results, attrs := [], [], [];
    }

    // ----- KernelFrameBuilder -----

    /** `AddArg`: only before `SetNumResults`. */
    method AddArg(value: Word)
      requires Valid() && numResults == -1 && numArguments < IntMax
      modifies this
      ensures Valid() && numResults == -1
      ensures args == old(args) + [value] && numArguments == old(numArguments) + 1
      ensures slots == old(slots) + [value]
    {
      slots := slots + [value];
      numArguments := numArguments + 1;
      args := args + [value];
    }

    /** `AddAttribute`: only after `SetNumResults`; the attribute goes after
        every argument and result slot. */
    method AddAttribute(attr: Word)
      requires Valid() && numResults != -1
      modifies this
      ensures Valid()
      ensures attrs == old(attrs) + [attr]
      ensures args == old(args) && results == old(results)
      ensures numArguments == old(numArguments) && numResults == old(numResults)
      ensures slots == old(slots) + [attr]
    {
      slots := slots + [attr];
      attrs := attrs + [attr];
    }

    /** `SetNumResults`: once, right after the arguments; adds `n` empty
        result slots. */
    method SetNumResults(n: nat)
      requires Valid() && numArguments == |slots| && numResults == -1 && n <= IntMax
      modifies this
      ensures Valid() && numResults == n
      ensures results == seq(n, _ => Null) && args == old(args) && attrs == []
      ensures numArguments == old(numArguments)
      ensures |slots| == |old(slots)| + n
    {
      numResults := n;
      results := seq(n, _ => Null);
      slots := slots + seq(n, _ => Null);
    }

    /** `Reset`: back to the state of a fresh builder. */
    method Reset()
      requires Valid()
      modifies this
      ensures Valid() && Initial()
    {
      slots, numArguments, numResults := [], 0, -1;
      args, results, attrs := [], [], [];
    }

    /** `GetResultAt`. */
    function GetResultAt(index: int): (r: Word)
      requires Valid() && 0 <= index < numResults
      reads this
      ensures r == results[index]
    {
      slots[numArguments + index]
    }

    // ----- KernelFrame -----

    /** `SetResultAt`: result `index` must still be empty; only its slot
        changes, so a result holding a value is never set again. */
    method SetResultAt(index: int, value: Word)
      requires Valid() && 0 <= index < numResults
      requires slots[numArguments + index] == Null
      modifies this
      ensures Valid()
      ensures results == old(results)[index := value]
      ensures args == old(args) && attrs == old(attrs)
      ensures numArguments == old(numArguments) && numResults == old(numResults)
      ensures slots == old(slots)[numArguments + index := value]
    {
      slots := slots[numArguments + index := value];
      results := results[index := value];
    }

    /** `GetNumArgs`. */
    function GetNumArgs(): (n: int)
      requires Valid()
      reads this
      ensures n == |args|
    {
      numArguments
    }

    /** `GetNumResults`: -1 until the result count is set. */
    function GetNumResults(): (n: int)
      requires Valid()
      reads this
      ensures n >= -1
      ensures n >= 0 ==> n == |results|
      ensures n == -1 ==> results == [] && attrs == [] && slots == args
    {
      numResults
    }

    /** `GetNumAttributes`: the slots after the arguments and results. Before
        the result count is set the -1 sentinel makes it 1. */
    function GetNumAttributes(): (n: int)
      requires Valid()
      reads this
      ensures numResults >= 0 ==> n == |attrs|
      ensures numResults == -1 ==> n == 1
    {
      |slots| - numArguments - numResults
    }

    /** `GetAttributes`: empty when there are no slots at all; before the
        result count is set, the last argument's word read as one
        attribute. */
    function GetAttributes(): (r: seq<Word>)
      requires Valid()
      reads this
      ensures numResults >= 0 ==> r == attrs
      ensures numResults == -1 && args == [] ==> r == []
      ensures numResults == -1 && args != [] ==> r == [args[|args| - 1]]
    {
      if slots == [] then []
      else slots[numArguments + numResults..numArguments + numResults + GetNumAttributes()]
    }

    /** `GetAsyncValues`: the assertion compares in `size_t`, so with no
        argument and no result count any range passes it; an empty range
        gives an empty view, any other must lie in the vector. */
    function GetAsyncValues(from: nat, length: nat): (r: seq<Word>)
      requires Valid()
      requires from + length <= SizeT(numArguments + numResults)
      requires length == 0 || from + length <= |slots|
      reads this
      ensures |r| == length
      ensures numResults >= 0 ==> r == (args + results)[from..from + length]
      ensures numResults == -1 && length > 0 ==> r == args[from..from + length]
    {
      if length == 0 then [] else slots[from..from + length]
    }

    /** `GetArguments`: fails its assertion while arguments exist and the
        result count is not set. */
    function GetArguments(): (r: seq<Word>)
      requires Valid() && (numResults >= 0 || numArguments == 0)
      reads this
      ensures r == args
    {
      GetAsyncValues(0, numArguments)
    }

    /** `GetResults`. */
    function GetResults(): (r: seq<Word>)
      requires Valid() && numResults >= 0
      reads this
      ensures r == results
    {
      GetAsyncValues(numArguments, numResults)
    }

    /** `GetArgAt`. */
    function GetArgAt(index: int): (r: Word)
      requires Valid() && 0 <= index < GetNumArgs()
      reads this
      ensures r == args[index]
    {
      slots[index]
    }

    /** `AssertArity`: whether its three assertions hold. */
    predicate AssertArity(numArgs: int, numAttrs: int, numRes: int)
      requires Valid()
      reads this
      ensures numResults >= 0 ==>
                (AssertArity(numArgs, numAttrs, numRes) <==>
                 |args| == numArgs && |attrs| == numAttrs && |results| == numRes)
      ensures numResults == -1 ==> !AssertArity(numArgs, numAttrs, numRes) || (numAttrs == 1 && numRes == -1)
    {
      numArguments == numArgs && GetNumAttributes() == numAttrs && GetNumResults() == numRes
    }
  }
}
