/** The word encoding of one kernel (instruction) of a function body
    (`BEFKernel`), and the pure lookups `BEFFunctionReader::ReadKernel`
    performs while it turns a kernel into an operation: attribute slot
    names, the unknown-attribute sentinel, and function references. */
module BefKernel {
  import opened Wrappers
  import opened BefReader
  import opened BefIr
  import opened BefAttributes
  import Decimal

  // ----- the kernel area as 32-bit words -----

  const TwoTo32: nat := 0x1_0000_0000

  /** The bytes of a function body from its aligned kernel area on, as the
      `ArrayRef<uint32_t>` the reader hands to `ReadKernels`: whole
      little-endian words, a trailing partial word dropped. */
  function Words(bytes: seq<Byte>): (w: seq<nat>)
    ensures |w| == |bytes| / 4
    ensures forall i :: 0 <= i < |w| ==> w[i] < TwoTo32
  {
    seq(|bytes| / 4, i requires 0 <= i < |bytes| / 4 => LittleEndian(bytes[4 * i..4 * i + 4]))
  }

  /** The four little-endian bytes of each word, in order. */
  function WordBytes(ws: seq<nat>): (bs: seq<Byte>)
    requires forall i :: 0 <= i < |ws| ==> ws[i] < TwoTo32
    ensures |bs| == 4 * |ws|
  {
    assert Pow256(4) == TwoTo32;
    if ws == [] then [] else LittleEndianBytes(ws[0], 4) + WordBytes(ws[1..])
  }

  lemma {:induction false} WordBytesSlice(ws: seq<nat>, i: nat)
    requires forall j :: 0 <= j < |ws| ==> ws[j] < TwoTo32
    requires i < |ws|
    ensures Pow256(4) == TwoTo32
    ensures WordBytes(ws)[4 * i..4 * i + 4] == LittleEndianBytes(ws[i], 4)
  {
    assert Pow256(4) == TwoTo32;
    var head := LittleEndianBytes(ws[0], 4);
    assert WordBytes(ws) == head + WordBytes(ws[1..]);
    if i > 0 {
      WordBytesSlice(ws[1..], i - 1);
      var k := 4 * (i - 1);
      assert |head| == 4 && 4 * i == |head| + k;
      SliceAfter(head, WordBytes(ws[1..]), k, k + 4);
    }
  }

  /** Writing words out and viewing the bytes as words gives them back. */
  lemma WordsRoundTrip(ws: seq<nat>)
    requires forall i :: 0 <= i < |ws| ==> ws[i] < TwoTo32
    ensures Words(WordBytes(ws)) == ws
  {
    var bs := WordBytes(ws);
    var w := Words(bs);
    assert |w| == |ws|;
    forall i | 0 <= i < |ws|
      ensures w[i] == ws[i]
    {
      WordAt(bs, i);
      WordBytesSlice(ws, i);
      LittleEndianRoundTrip(ws[i], 4);
    }
  }

  lemma WordAt(bs: seq<Byte>, i: nat)
    requires i < |bs| / 4
    ensures 4 * i + 4 <= |bs| && Words(bs)[i] == LittleEndian(bs[4 * i..4 * i + 4])
  {
  }

  // ----- BEFKernel -----

  /** A decoded kernel. `usedBys[i]` is the list of kernels that use
      result i. */
  datatype Kernel = Kernel(
    code: nat,
    location: nat,
    arguments: seq<nat>,
    attributes: seq<nat>,
    functions: seq<nat>,
    results: seq<nat>,
    usedBys: seq<seq<nat>>)

  /** Header words: code, location, and the argument, attribute, function
      and result counts. Then one used-by count per result, then the entries
      (arguments, attributes, functions, results, used-by lists). */
  const KernelHeaderWords: nat := 6

  function UsedBysAt(words: seq<nat>, pos: nat, counts: seq<nat>): (r: Option<seq<seq<nat>>>)
    ensures r.Some? ==> |r.value| == |counts|
    ensures r.Some? ==> forall i :: 0 <= i < |counts| ==> |r.value[i]| == counts[i]
    decreases |counts|
  {
    if counts == [] then Some([])
    else if pos + counts[0] > |words| then None
    else
      var rest := UsedBysAt(words, pos + counts[0], counts[1..]);
      if rest.None? then None else Some([words[pos..pos + counts[0]]] + rest.value)
  }

  /** The kernel whose header starts at word `at`; None when any part of
      it lies past the end of the kernel area (the source reads on). */
  function DecodeKernel(words: seq<nat>, at: nat): (r: Option<Kernel>)
    ensures r.Some? ==> |r.value.usedBys| == |r.value.results|
  {
    if at + KernelHeaderWords > |words| then None
    else
      var body := at + KernelHeaderWords + words[at + 5];
      var a := body + words[at + 2];
      var t := a + words[at + 3];
      var f := t + words[at + 4];
      var end := f + words[at + 5];
      if end > |words| then None
      else
        var usedBys := UsedBysAt(words, end, words[at + KernelHeaderWords..body]);
        if usedBys.None? then None
        else Some(Kernel(words[at], words[at + 1], words[body..a], words[a..t],
                         words[t..f], words[f..end], usedBys.value))
  }

  function Flatten(xss: seq<seq<nat>>): seq<nat>
  {
    if xss == [] then [] else xss[0] + Flatten(xss[1..])
  }

  function Lengths(xss: seq<seq<nat>>): (ls: seq<nat>)
    ensures |ls| == |xss|
    ensures forall i :: 0 <= i < |xss| ==> ls[i] == |xss[i]|
  {
    if xss == [] then [] else [|xss[0]|] + Lengths(xss[1..])
  }

  /** The words the compiler writes for a kernel. */
  function KernelWords(k: Kernel): seq<nat>
  {
    [k.code, k.location, |k.arguments|, |k.attributes|, |k.functions|, |k.results|]
      + Lengths(k.usedBys) + k.arguments + k.attributes + k.functions + k.results
      + Flatten(k.usedBys)
  }

  lemma {:induction false} UsedBysRoundTrip(pre: seq<nat>, xss: seq<seq<nat>>, post: seq<nat>)
    ensures UsedBysAt(pre + Flatten(xss) + post, |pre|, Lengths(xss)) == Some(xss)
    decreases |xss|
  {
    if xss != [] {
      UsedBysRoundTrip(pre + xss[0], xss[1..], post);
      assert [xss[0]] + xss[1..] == xss;
      UsedBysRoundTripStep(pre, xss[0], xss[1..], post);
    }
  }

  /** The inductive step of `UsedBysRoundTrip`: one more list in front. */
  lemma UsedBysRoundTripStep(pre: seq<nat>, x: seq<nat>, xs: seq<seq<nat>>, post: seq<nat>)
    requires UsedBysAt((pre + x) + Flatten(xs) + post, |pre + x|, Lengths(xs)) == Some(xs)
    ensures UsedBysAt(pre + Flatten([x] + xs) + post, |pre|, Lengths([x] + xs)) == Some([x] + xs)
  {
    var rest := Flatten(xs);
    var w := pre + Flatten([x] + xs) + post;
    var counts := ListsCons(x, xs);
    RegroupFirst(pre, x, rest, post);
    SliceMid(pre, x, rest + post, 0, |x|);
    assert x[0..|x|] == x;
    UsedBysStep(w, |pre|, counts, x, xs);
  }

  /** The lengths and the words of lists with `x` in front. */
  lemma ListsCons(x: seq<nat>, xs: seq<seq<nat>>) returns (counts: seq<nat>)
    ensures counts == Lengths([x] + xs) && counts != [] && counts[0] == |x| && counts[1..] == Lengths(xs)
    ensures Flatten([x] + xs) == x + Flatten(xs)
  {
    counts := Lengths([x] + xs);
    assert ([x] + xs)[1..] == xs;
  }

  /** The used-by lists at `pos` are the `counts[0]` words there, then
      the lists after them. */
  lemma UsedBysStep(words: seq<nat>, pos: nat, counts: seq<nat>, x: seq<nat>, rest: seq<seq<nat>>)
    requires counts != [] && counts[0] == |x| && pos + |x| <= |words| && words[pos..pos + |x|] == x
    requires UsedBysAt(words, pos + |x|, counts[1..]) == Some(rest)
    ensures UsedBysAt(words, pos, counts) == Some([x] + rest)
  {
  }

  lemma RegroupFirst(pre: seq<nat>, x: seq<nat>, rest: seq<nat>, post: seq<nat>)
    ensures pre + (x + rest) + post == (pre + x) + rest + post
    ensures pre + (x + rest) + post == pre + x + (rest + post)
  {
  }

  /** Where each part of a kernel lies in its words. */
  lemma KernelWordsLayout(k: Kernel)
    ensures var kw := KernelWords(k);
            var b := KernelHeaderWords + |k.usedBys|;
            var a := b + |k.arguments|;
            var t := a + |k.attributes|;
            var f := t + |k.functions|;
            var e := f + |k.results|;
            && |kw| == e + |Flatten(k.usedBys)|
            && kw[0] == k.code && kw[1] == k.location
            && kw[2] == |k.arguments| && kw[3] == |k.attributes|
            && kw[4] == |k.functions| && kw[5] == |k.results|
            && kw[KernelHeaderWords..b] == Lengths(k.usedBys)
            && kw[b..a] == k.arguments && kw[a..t] == k.attributes
            && kw[t..f] == k.functions && kw[f..e] == k.results
            && kw == kw[..e] + Flatten(k.usedBys)
  {
    KernelWordsHead(k);
    KernelWordsLists(k);
  }

  /** The header words, the used-by lengths and the flattened used-by lists
      of a kernel's words. */
  lemma KernelWordsHead(k: Kernel)
    ensures var kw := KernelWords(k);
            var b := KernelHeaderWords + |k.usedBys|;
            var e := b + |k.arguments| + |k.attributes| + |k.functions| + |k.results|;
            && |kw| == e + |Flatten(k.usedBys)|
            && kw[0] == k.code && kw[1] == k.location
            && kw[2] == |k.arguments| && kw[3] == |k.attributes|
            && kw[4] == |k.functions| && kw[5] == |k.results|
            && kw[KernelHeaderWords..b] == Lengths(k.usedBys)
            && kw == kw[..e] + Flatten(k.usedBys)
  {
    var q0 := [k.code, k.location, |k.arguments|, |k.attributes|, |k.functions|, |k.results|];
    var q1 := q0 + Lengths(k.usedBys);
    var q2 := q1 + k.arguments;
    var q3 := q2 + k.attributes;
    var q4 := q3 + k.functions;
    var q5 := q4 + k.results;
    var flat := Flatten(k.usedBys);
    var kw := KernelWords(k);
    assert kw == q5 + flat;
    assert kw[..|q5|] == q5;
    SliceInPrefix(q5, flat, |q0|, |q1|);
    SliceInPrefix(q4, k.results, |q0|, |q1|);
    SliceInPrefix(q3, k.functions, |q0|, |q1|);
    SliceInPrefix(q2, k.attributes, |q0|, |q1|);
    SliceInPrefix(q1, k.arguments, |q0|, |q1|);
  }

  /** The argument, attribute, function and result lists in a kernel's
      words. */
  lemma KernelWordsLists(k: Kernel)
    ensures var kw := KernelWords(k);
            var b := KernelHeaderWords + |k.usedBys|;
            var a := b + |k.arguments|;
            var t := a + |k.attributes|;
            var f := t + |k.functions|;
            var e := f + |k.results|;
            && e <= |kw|
            && kw[b..a] == k.arguments && kw[a..t] == k.attributes
            && kw[t..f] == k.functions && kw[f..e] == k.results
  {
    var q0 := [k.code, k.location, |k.arguments|, |k.attributes|, |k.functions|, |k.results|];
    var q1 := q0 + Lengths(k.usedBys);
    var q2 := q1 + k.arguments;
    var q3 := q2 + k.attributes;
    var q4 := q3 + k.functions;
    var q5 := q4 + k.results;
    var flat := Flatten(k.usedBys);
    assert KernelWords(k) == q5 + flat;
    SliceInPrefix(q5, flat, |q4|, |q5|);
    SliceInPrefix(q5, flat, |q3|, |q4|);
    SliceInPrefix(q4, k.results, |q3|, |q4|);
    SliceInPrefix(q5, flat, |q2|, |q3|);
    SliceInPrefix(q4, k.results, |q2|, |q3|);
    SliceInPrefix(q3, k.functions, |q2|, |q3|);
    SliceInPrefix(q5, flat, |q1|, |q2|);
    SliceInPrefix(q4, k.results, |q1|, |q2|);
    SliceInPrefix(q3, k.functions, |q1|, |q2|);
    SliceInPrefix(q2, k.attributes, |q1|, |q2|);
  }

  lemma KernelHeaderIn(pre: seq<nat>, k: Kernel, post: seq<nat>)
    requires |k.usedBys| == |k.results|
    ensures KernelHeaderLayout(pre + KernelWords(k) + post, |pre|, k)
  {
    KernelWordsLayout(k);
  }

  lemma KernelUsedBysIn(pre: seq<nat>, k: Kernel, post: seq<nat>)
    requires |k.usedBys| == |k.results|
    ensures KernelUsedBysLayout(pre + KernelWords(k) + post, |pre|, k)
  {
    var kw := KernelWords(k);
    var w := pre + kw + post;
    var b := KernelHeaderWords + |k.usedBys|;
    var e := b + |k.arguments| + |k.attributes| + |k.functions| + |k.results|;
    KernelWordsLayout(k);
    SliceMid(pre, kw, post, KernelHeaderWords, b);
    assert w == (pre + kw[..e]) + Flatten(k.usedBys) + post;
    UsedBysRoundTrip(pre + kw[..e], k.usedBys, post);
  }

  lemma KernelEntriesIn(pre: seq<nat>, k: Kernel, post: seq<nat>)
    requires |k.usedBys| == |k.results|
    ensures KernelEntriesLayout(pre + KernelWords(k) + post, |pre|, k)
  {
    var kw := KernelWords(k);
    var b := KernelHeaderWords + |k.results|;
    var a := b + |k.arguments|;
    var t := a + |k.attributes|;
    var f := t + |k.functions|;
    KernelWordsEntries(k);
    EntriesMid(pre, kw, post, b, a, t, f, f + |k.results|);
  }

  /** The entry lists of a kernel in its words, counting the used-by
      lengths by the results they belong to. */
  lemma KernelWordsEntries(k: Kernel)
    requires |k.usedBys| == |k.results|
    ensures var kw := KernelWords(k);
            var b := KernelHeaderWords + |k.results|;
            var a := b + |k.arguments|;
            var t := a + |k.attributes|;
            var f := t + |k.functions|;
            && f + |k.results| <= |kw|
            && kw[b..a] == k.arguments && kw[a..t] == k.attributes
            && kw[t..f] == k.functions && kw[f..f + |k.results|] == k.results
  {
    KernelWordsLayout(k);
  }

  /** Four consecutive slices of a middle part, found in place. */
  lemma EntriesMid(pre: seq<nat>, kw: seq<nat>, post: seq<nat>, b: nat, a: nat, t: nat, f: nat, e: nat)
    requires b <= a <= t <= f <= e <= |kw|
    ensures var w := pre + kw + post;
            && w[|pre| + b..|pre| + a] == kw[b..a] && w[|pre| + a..|pre| + t] == kw[a..t]
            && w[|pre| + t..|pre| + f] == kw[t..f] && w[|pre| + f..|pre| + e] == kw[f..e]
  {
    SliceMid(pre, kw, post, b, a);
    SliceMid(pre, kw, post, a, t);
    SliceMid(pre, kw, post, t, f);
    SliceMid(pre, kw, post, f, e);
  }

  /** Decoding a kernel where its words were written gives it back. */
  lemma KernelRoundTrip(pre: seq<nat>, k: Kernel, post: seq<nat>)
    requires |k.usedBys| == |k.results|
    ensures DecodeKernel(pre + KernelWords(k) + post, |pre|) == Some(k)
  {
    KernelHeaderIn(pre, k, post);
    KernelUsedBysIn(pre, k, post);
    KernelEntriesIn(pre, k, post);
    DecodeKernelOf(pre + KernelWords(k) + post, |pre|, k);
  }

  /** `w` holds, from `at` on, the header of `k`: its code, its location
      and the sizes of its lists. */
  predicate KernelHeaderLayout(w: seq<nat>, at: nat, k: Kernel)
  {
    && at + KernelHeaderWords + |k.results| + |k.arguments| + |k.attributes| + |k.functions| + |k.results| <= |w|
    && w[at] == k.code && w[at + 1] == k.location
    && w[at + 2] == |k.arguments| && w[at + 3] == |k.attributes|
    && w[at + 4] == |k.functions| && w[at + 5] == |k.results|
  }

  /** The used-by lists of `k` decode where `w` holds them, after the
      entry lists. */
  predicate KernelUsedBysLayout(w: seq<nat>, at: nat, k: Kernel)
  {
    var b := at + KernelHeaderWords + |k.results|;
    var e := b + |k.arguments| + |k.attributes| + |k.functions| + |k.results|;
    e <= |w| && UsedBysAt(w, e, w[at + KernelHeaderWords..b]) == Some(k.usedBys)
  }

  /** `w` holds the argument, attribute, function and result lists of `k`
      one after the other, after the header and the used-by lengths. */
  predicate KernelEntriesLayout(w: seq<nat>, at: nat, k: Kernel)
  {
    var b := at + KernelHeaderWords + |k.results|;
    var a := b + |k.arguments|;
    var t := a + |k.attributes|;
    var f := t + |k.functions|;
    && f + |k.results| <= |w|
    && w[b..a] == k.arguments && w[a..t] == k.attributes
    && w[t..f] == k.functions && w[f..f + |k.results|] == k.results
  }

  /** DecodeKernel from what lies at each place of the kernel. */
  lemma DecodeKernelOf(w: seq<nat>, at: nat, k: Kernel)
    requires KernelHeaderLayout(w, at, k) && KernelUsedBysLayout(w, at, k) && KernelEntriesLayout(w, at, k)
    ensures DecodeKernel(w, at) == Some(k)
  {
    var b, a, t, f, end := KernelBoundaries(w, at, k);
    KernelListsAt(w, at, k, b, a, t, f, end);
    KernelUsedBysAt(w, at, k, b, end);
    DecodeKernelFields(w, at, b, a, t, f, end, k.usedBys);
  }

  /** Where the entry lists of a laid-out kernel start and end: as `k` sizes
      them, and as the header words give them. */
  lemma KernelBoundaries(w: seq<nat>, at: nat, k: Kernel) returns (b: nat, a: nat, t: nat, f: nat, end: nat)
    requires KernelHeaderLayout(w, at, k)
    ensures at + KernelHeaderWords <= end <= |w| && w[at] == k.code && w[at + 1] == k.location
    ensures b == at + KernelHeaderWords + |k.results| && a == b + |k.arguments|
    ensures t == a + |k.attributes| && f == t + |k.functions| && end == f + |k.results|
    ensures b == at + KernelHeaderWords + w[at + 5] && a == b + w[at + 2]
    ensures t == a + w[at + 3] && f == t + w[at + 4] && end == f + w[at + 5]
  {
    b := at + KernelHeaderWords + |k.results|;
    a := b + |k.arguments|;
    t := a + |k.attributes|;
    f := t + |k.functions|;
    end := f + |k.results|;
  }

  /** The four entry lists of a laid-out kernel, between its boundaries. */
  lemma KernelListsAt(w: seq<nat>, at: nat, k: Kernel, b: nat, a: nat, t: nat, f: nat, end: nat)
    requires KernelEntriesLayout(w, at, k)
    requires b == at + KernelHeaderWords + |k.results| && a == b + |k.arguments|
    requires t == a + |k.attributes| && f == t + |k.functions| && end == f + |k.results|
    ensures end <= |w| && w[b..a] == k.arguments && w[a..t] == k.attributes
    ensures w[t..f] == k.functions && w[f..end] == k.results
  {
  }

  /** The used-by lists of a laid-out kernel, after its entry lists. */
  lemma KernelUsedBysAt(w: seq<nat>, at: nat, k: Kernel, b: nat, end: nat)
    requires KernelUsedBysLayout(w, at, k)
    requires b == at + KernelHeaderWords + |k.results|
    requires end == b + |k.arguments| + |k.attributes| + |k.functions| + |k.results|
    ensures end <= |w| && UsedBysAt(w, end, w[at + KernelHeaderWords..b]) == Some(k.usedBys)
  {
  }

  /** DecodeKernel once the boundaries of the entry lists are named and the
      used-by lists are known to decode. */
  lemma DecodeKernelFields(w: seq<nat>, at: nat, b: nat, a: nat, t: nat, f: nat, end: nat,
                           usedBys: seq<seq<nat>>)
    requires at + KernelHeaderWords <= |w|
    requires b == at + KernelHeaderWords + w[at + 5] && a == b + w[at + 2]
    requires t == a + w[at + 3] && f == t + w[at + 4] && end == f + w[at + 5]
    requires end <= |w| && UsedBysAt(w, end, w[at + KernelHeaderWords..b]) == Some(usedBys)
    ensures DecodeKernel(w, at) == Some(Kernel(w[at], w[at + 1], w[b..a], w[a..t], w[t..f], w[f..end], usedBys))
  {
  }

  // ----- special attribute byte -----

  /** `SpecialAttribute::kUnknown` and `kNonStrict`. */
  const UnknownSpecialAttribute: Byte := 0
  const NonStrictSpecialAttribute: Byte := 1

  predicate IsAscii(s: string) { forall i :: 0 <= i < |s| ==> s[i] as int < 256 }

  /** A string of the source's text as the bytes of a BEF string. */
  function Ascii(s: string): (bs: Bytes)
    requires IsAscii(s)
    ensures |bs| == |s|
  {
    seq(|s|, i requires 0 <= i < |s| => s[i] as int)
  }

  lemma AsciiInjective(s: string, t: string)
    requires IsAscii(s) && IsAscii(t) && Ascii(s) == Ascii(t)
    ensures s == t
  {
    forall i | 0 <= i < |s|
      ensures s[i] == t[i]
    {
      assert Ascii(s)[i] == Ascii(t)[i];
    }
  }

  const NonStrictName: Bytes := Ascii("bef.nonstrict")
  const CalleeName: Bytes := Ascii("callee")

  /** The special-attribute byte of a kernel, read off the attribute-names
      section: `bef.nonstrict` is added only when the byte is read and is
      kNonStrict. */
  function SpecialAttributesAt(data: seq<Byte>, pos: nat): (r: (seq<(Bytes, Attr)>, nat))
    requires pos <= |data|
    ensures r.1 == ByteAt(data, pos).1
    ensures r.0 == [] || r.0 == [(NonStrictName, UnitAttr)]
  {
    var (b, p) := ByteAt(data, pos);
    if b == Some(NonStrictSpecialAttribute) then ([(NonStrictName, UnitAttr)], p) else ([], p)
  }

  // ----- attribute slots -----

  /** The dummy name "attr<i>" of attribute slot i. */
  function DefaultAttributeName(i: nat): (name: Bytes)
  {
    var s := "attr" + Decimal.NatToString(i);
    assert IsAscii(s) by {
      forall j | 4 <= j < |s|
        ensures s[j] as int < 256
      {
        assert Decimal.IsDigit(s[j]);
      }
    }
    Ascii(s)
  }

  /** No two attribute slots get the same dummy name. */
  lemma DefaultAttributeNamesDistinct(i: nat, j: nat)
    requires i != j
    ensures DefaultAttributeName(i) != DefaultAttributeName(j)
  {
    var s := "attr" + Decimal.NatToString(i);
    var t := "attr" + Decimal.NatToString(j);
    if DefaultAttributeName(i) == DefaultAttributeName(j) {
      AsciiInjective(s, t);
      assert s[4..] == Decimal.NatToString(i);
      assert t[4..] == Decimal.NatToString(j);
      Decimal.NatToStringInjective(i, j);
      assert false;
    }
  }

  /** The name of attribute slot `i`: the string at the offset read from
      the attribute-names section when the read succeeds and the offset
      names a string, else the dummy name. */
  function AttributeNameAt(data: seq<Byte>, pos: nat, strings: map<nat, Bytes>, i: nat): (r: (Bytes, nat))
    requires pos <= |data|
    ensures r.1 == IntAt(data, pos).1
  {
    var (o, p) := IntAt(data, pos);
    if o.Some? && o.value in strings then (strings[o.value], p) else (DefaultAttributeName(i), p)
  }

  /** The names of slots i .. i + n - 1, read one after the other. */
  function AttributeNamesFrom(data: seq<Byte>, pos: nat, strings: map<nat, Bytes>, i: nat, n: nat)
    : (r: (seq<Bytes>, nat))
    requires pos <= |data|
    ensures |r.0| == n && pos <= r.1 <= |data|
    decreases n
  {
    if n == 0 then ([], pos)
    else
      var (name, p) := AttributeNameAt(data, pos, strings, i);
      var (rest, q) := AttributeNamesFrom(data, p, strings, i + 1, n - 1);
      ([name] + rest, q)
  }

  /** A slot whose names cannot be read at all gets the dummy names, in
      order: "attr<i>", "attr<i+1>", ... */
  lemma {:induction false} NamesWithoutNameSection(data: seq<Byte>, strings: map<nat, Bytes>, i: nat, n: nat, k: nat)
    requires k < n
    ensures AttributeNamesFrom(data, |data|, strings, i, n).0[k] == DefaultAttributeName(i + k)
    decreases n
  {
    if k > 0 {
      NamesWithoutNameSection(data, strings, i + 1, n - 1, k - 1);
    }
  }

  const DeadBeef: nat := 0xdeadbeef

  /** The attribute of a slot: the decoded attribute at the offset, or the
      i32 sentinel 0xdeadbeef when none was decoded there. */
  function AttributeOrSentinel(attrs: map<nat, Attr>, offset: nat): (a: Attr)
    ensures a != Null
    ensures offset in attrs && attrs[offset] != Null ==> a == attrs[offset]
    ensures (offset !in attrs || attrs[offset] == Null) ==> a == IntegerAttr(32, DeadBeef)
  {
    var a := GetAttribute(attrs, offset);
    if a == Null then IntegerAttr(32, DeadBeef) else a
  }

  /** The named attributes of the slots, name i with the attribute of
      offset i. */
  function SlotAttributes(names: seq<Bytes>, offsets: seq<nat>, attrs: map<nat, Attr>): (r: seq<(Bytes, Attr)>)
    requires |names| == |offsets|
    ensures |r| == |offsets|
  {
    seq(|names|, i requires 0 <= i < |names| => (names[i], AttributeOrSentinel(attrs, offsets[i])))
  }

  // ----- function references -----

  /** Put the callees and anonymous count of the first slots in front of
      those of the rest. */
  function AppendRefs(callees: seq<(Bytes, Attr)>, anonymous: nat, r: Option<(seq<(Bytes, Attr)>, nat)>)
    : (r': Option<(seq<(Bytes, Attr)>, nat)>)
  {
    if r.None? then None else Some((callees + r.value.0, anonymous + r.value.1))
  }

  lemma AppendRefsTwice(c1: seq<(Bytes, Attr)>, a1: nat, c2: seq<(Bytes, Attr)>, a2: nat, r: Option<(seq<(Bytes, Attr)>, nat)>)
    ensures AppendRefs(c1, a1, AppendRefs(c2, a2, r)) == AppendRefs(c1 + c2, a1 + a2, r)
  {
    if r.Some? {
      assert c1 + (c2 + r.value.0) == (c1 + c2) + r.value.0;
    }
  }

  /** The contribution of one function-reference slot. */
  function SlotRef(f: BefFunction): (seq<(Bytes, Attr)>, nat)
  {
    if f.IsNamedFunction() then ([(CalleeName, SymbolRefAttr(f.name))], 0) else ([], 1)
  }

  /** The function-reference slots of a kernel: None when an index names
      no function ("Unknown callee."); otherwise a `callee` attribute per
      named function and the number of anonymous functions, each of which
      becomes one pending region. Its shape is `FunctionRefsShape`. */
  function FunctionRefs(index: seq<BefFunction>, fns: seq<nat>): Option<(seq<(Bytes, Attr)>, nat)>
    decreases |fns|
  {
    if fns == [] then Some(([], 0))
    else if fns[0] >= |index| then None
    else
      var rest := FunctionRefs(index, fns[1..]);
      if rest.None? then None
      else
        var slot := SlotRef(index[fns[0]]);
        AppendRefs(slot.0, slot.1, rest)
  }

  /** The references resolve exactly when every index is in the function
      index; then each one is either a `callee` attribute or one anonymous
      function, with no anonymous function exactly when all name named
      functions and all anonymous exactly when none does. */
  lemma {:induction false} FunctionRefsShape(index: seq<BefFunction>, fns: seq<nat>)
    ensures var r := FunctionRefs(index, fns);
      && (r.Some? <==> forall j :: 0 <= j < |fns| ==> fns[j] < |index|)
      && (r.Some? ==> |r.value.0| + r.value.1 == |fns|)
      && (r.Some? ==> (r.value.1 == 0 <==> forall j :: 0 <= j < |fns| ==> index[fns[j]].IsNamedFunction()))
      && (r.Some? ==> (r.value.1 == |fns| <==> forall j :: 0 <= j < |fns| ==> !index[fns[j]].IsNamedFunction()))
      && (r.Some? ==> forall j :: 0 <= j < |r.value.0| ==> r.value.0[j].0 == CalleeName)
    decreases |fns|
  {
    if fns != [] && fns[0] < |index| {
      FunctionRefsShape(index, fns[1..]);
      assert forall j :: 1 <= j < |fns| ==> fns[j] == fns[1..][j - 1];
      if FunctionRefs(index, fns[1..]).None? {
        assert exists j :: 0 <= j < |fns[1..]| && fns[1..][j] >= |index|;
      }
    }
  }
}
