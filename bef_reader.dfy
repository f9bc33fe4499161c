/** Byte-level reading of a BEF buffer: the cursor that every BEF section is
    read through (`BEFReader`), little-endian fixed-width integers, the
    forward VBR integers of section headers and tables, and `ReadIntArray`
    (lib/bef_converter/bef_to_mlir/bef_to_mlir.cc:172-186).

    `BEFReader` is declared in a header that is not part of this model; its
    layout is the stated assumption of this module:
    - `ReadByte` takes one byte, and fails without moving at the end;
    - `ReadInt` reads a VBR integer most significant 7-bit group first, a set
      top bit meaning "more bytes follow"; running out of bytes fails and
      leaves the cursor at the end;
    - `ReadInt8` reads 8 bytes little-endian and fails without moving when
      fewer than 8 remain;
    - `ReadAlignment(a)` skips to the next position that is a multiple of `a`
      (positions are counted from the start of a section, which is assumed
      aligned) and fails when that is past the end. */
module BefReader {
  import opened Wrappers

  type Byte = b: int | 0 <= b < 256

  function Pow256(n: nat): (p: nat)
    ensures p > 0
  {
    if n == 0 then 1 else 256 * Pow256(n - 1)
  }

  /** The value of `bs` read little-endian: bs[0] is the least significant. */
  function LittleEndian(bs: seq<Byte>): (v: nat)
    ensures v < Pow256(|bs|)
  {
    if bs == [] then 0 else bs[0] + 256 * LittleEndian(bs[1..])
  }

  /** The `n` little-endian bytes of `v`. */
  function LittleEndianBytes(v: nat, n: nat): (bs: seq<Byte>)
    requires v < Pow256(n)
    ensures |bs| == n
  {
    if n == 0 then [] else [v % 256] + LittleEndianBytes(v / 256, n - 1)
  }

  lemma {:induction false} LittleEndianRoundTrip(v: nat, n: nat)
    requires v < Pow256(n)
    ensures LittleEndian(LittleEndianBytes(v, n)) == v
  {
    if n > 0 {
      var bs := LittleEndianBytes(v, n);
      assert bs[1..] == LittleEndianBytes(v / 256, n - 1);
      LittleEndianRoundTrip(v / 256, n - 1);
    }
  }

  lemma {:induction false} LittleEndianBytesRoundTrip(bs: seq<Byte>)
    ensures LittleEndianBytes(LittleEndian(bs), |bs|) == bs
  {
    if bs != [] {
      var rest := LittleEndian(bs[1..]);
      var v := bs[0] + 256 * rest;
      assert v % 256 == bs[0] && v / 256 == rest by {
        DivModByte(bs[0], rest);
      }
      LittleEndianBytesRoundTrip(bs[1..]);
    }
  }

  /** Splitting `lo + 256 * hi` back into its low byte and the rest. */
  lemma DivModByte(lo: Byte, hi: nat)
    ensures (lo + 256 * hi) % 256 == lo && (lo + 256 * hi) / 256 == hi
  {
  }

  /** Appending a more significant byte: the step of a byte-by-byte
      little-endian read `value |= byte << (8 * i)`. */
  lemma {:induction false} LittleEndianSnoc(bs: seq<Byte>, b: Byte)
    ensures LittleEndian(bs + [b]) == LittleEndian(bs) + b * Pow256(|bs|)
  {
    if bs != [] {
      var longer := bs + [b];
      assert longer[0] == bs[0] && longer[1..] == bs[1..] + [b];
      LittleEndianSnoc(bs[1..], b);
      assert LittleEndian(longer) == bs[0] + 256 * (LittleEndian(bs[1..]) + b * Pow256(|bs| - 1));
      ShiftByte(bs[0], LittleEndian(bs[1..]), b, Pow256(|bs| - 1));
    } else {
      assert LittleEndian([b]) == b + 256 * LittleEndian([]);
    }
  }

  /** Multiplying out one byte shift of a little-endian sum. */
  lemma ShiftByte(lo: nat, hi: nat, b: nat, p: nat)
    ensures lo + 256 * (hi + b * p) == (lo + 256 * hi) + b * (256 * p)
  {
  }

  // ----- spec functions of the reader: (result, new position) -----

  function ByteAt(data: seq<Byte>, pos: nat): (r: (Option<Byte>, nat))
    requires pos <= |data|
    ensures pos <= r.1 <= |data|
  {
    if pos < |data| then (Some(data[pos]), pos + 1) else (None, pos)
  }

  /** Continues a forward VBR read at `pos` with the value `acc` read so far. */
  function VbrFrom(data: seq<Byte>, pos: nat, acc: nat): (r: (Option<nat>, nat))
    requires pos <= |data|
    ensures pos <= r.1 <= |data|
    ensures r.0.Some? ==> r.1 > pos
    ensures r.0.None? ==> r.1 == |data|
    decreases |data| - pos
  {
    if pos == |data| then (None, pos)
    else
      var v := acc * 128 + data[pos] % 128;
      if data[pos] >= 128 then VbrFrom(data, pos + 1, v) else (Some(v), pos + 1)
  }

  function IntAt(data: seq<Byte>, pos: nat): (r: (Option<nat>, nat))
    requires pos <= |data|
    ensures pos <= r.1 <= |data|
    ensures r.0.Some? ==> r.1 > pos
  {
    VbrFrom(data, pos, 0)
  }

  function Int8At(data: seq<Byte>, pos: nat): (r: (Option<nat>, nat))
    requires pos <= |data|
    ensures pos <= r.1 <= |data|
  {
    if pos + 8 <= |data| then (Some(LittleEndian(data[pos..pos + 8])), pos + 8)
    else (None, pos)
  }

  /** The BEF kernel entry alignment, `kKernelEntryAlignment`: the only
      alignment the core asks the reader for. */
  const KernelEntryAlignment: nat := 4

  function AlignUp(pos: nat): (p: nat)
    ensures pos <= p < pos + KernelEntryAlignment && p % KernelEntryAlignment == 0
  {
    if pos % 4 == 0 then pos else pos + (4 - pos % 4)
  }

  function AlignAt(data: seq<Byte>, pos: nat): (r: (bool, nat))
    requires pos <= |data|
    ensures pos <= r.1 <= |data|
  {
    var p := AlignUp(pos);
    if p <= |data| then (true, p) else (false, pos)
  }

  /** Prepends the items read so far to the outcome of the rest of a read. */
  function Prepend<T>(items: seq<T>, r: (Option<seq<T>>, nat)): (Option<seq<T>>, nat)
  {
    (if r.0.None? then None else Some(items + r.0.value), r.1)
  }

  lemma PrependTwice<T>(a: seq<T>, b: seq<T>, r: (Option<seq<T>>, nat))
    ensures Prepend(a, Prepend(b, r)) == Prepend(a + b, r)
  {
    if r.0.Some? {
      assert a + (b + r.0.value) == (a + b) + r.0.value;
    }
  }

  lemma PrependNothing<T>(r: (Option<seq<T>>, nat))
    ensures Prepend([], r) == r
  {
    if r.0.Some? {
      assert [] + r.0.value == r.0.value;
    }
  }

  /** `n` consecutive VBR integers starting at `pos`. */
  function IntsAt(data: seq<Byte>, pos: nat, n: nat): (r: (Option<seq<nat>>, nat))
    requires pos <= |data|
    ensures pos <= r.1 <= |data|
    ensures r.0.Some? ==> |r.0.value| == n
    decreases n
  {
    if n == 0 then (Some([]), pos)
    else
      var (v, p) := IntAt(data, pos);
      if v.None? then (None, p) else Prepend([v.value], IntsAt(data, p, n - 1))
  }

  /** A VBR count followed by that many VBR integers. */
  function IntArrayAt(data: seq<Byte>, pos: nat): (r: (Option<seq<nat>>, nat))
    requires pos <= |data|
    ensures pos <= r.1 <= |data|
  {
    var (n, p) := IntAt(data, pos);
    if n.None? then (None, p) else IntsAt(data, p, n.value)
  }

  // ----- the encoder side of the forward VBR, for the round trip -----

  /** VBR groups of `n`, most significant first; every byte but the last
      carries the continuation bit, and the last one carries it iff `more`. */
  function VbrGroups(n: nat, more: bool): seq<Byte>
  {
    var flag := if more then 128 else 0;
    if n < 128 then [n + flag]
    else VbrGroups(n / 128, true) + [n % 128 + flag]
  }

  function VbrBytes(n: nat): seq<Byte> { VbrGroups(n, false) }

  lemma VbrGroupsRead(pre: seq<Byte>, n: nat, more: bool, post: seq<Byte>)
    ensures var data := pre + VbrGroups(n, more) + post;
            var q := |pre| + |VbrGroups(n, more)|;
            && (more ==> VbrFrom(data, |pre|, 0) == VbrFrom(data, q, n))
            && (!more ==> VbrFrom(data, |pre|, 0) == (Some(n), q))
  {
    var g := VbrGroups(n, more);
    SliceMid(pre, g, post, 0, |g|);
    VbrGroupsAt(pre + g + post, |pre|, n, more);
  }

  /** `VbrGroupsRead` on a section holding the groups of `n` at `start`. */
  lemma {:induction false} VbrGroupsAt(data: seq<Byte>, start: nat, n: nat, more: bool)
    requires start + |VbrGroups(n, more)| <= |data|
    requires data[start..start + |VbrGroups(n, more)|] == VbrGroups(n, more)
    ensures var q := start + |VbrGroups(n, more)|;
            && (more ==> VbrFrom(data, start, 0) == VbrFrom(data, q, n))
            && (!more ==> VbrFrom(data, start, 0) == (Some(n), q))
  {
    var last := n % 128 + (if more then 128 else 0);
    if n >= 128 {
      var g := VbrGroups(n / 128, true);
      var q := start + |g|;
      assert VbrGroups(n, more) == g + [last];
      assert data[start..q] == g by {
        assert data[start..q] == data[start..start + |VbrGroups(n, more)|][..|g|];
      }
      assert data[q] == last by {
        assert data[q] == data[start..start + |VbrGroups(n, more)|][|g|];
      }
      VbrGroupsAt(data, start, n / 128, true);
      VbrGroupStep(data, q, n, more);
    } else {
      assert data[start] == data[start..start + 1][0];
    }
  }

  /** The last group of `n`, read with the more significant groups'
      value `n / 128` so far, gives `n`. */
  lemma VbrGroupStep(data: seq<Byte>, q: nat, n: nat, more: bool)
    requires q < |data| && data[q] == n % 128 + (if more then 128 else 0)
    ensures more ==> VbrFrom(data, q, n / 128) == VbrFrom(data, q + 1, n)
    ensures !more ==> VbrFrom(data, q, n / 128) == (Some(n), q + 1)
  {
    assert data[q] % 128 == n % 128;
  }

  lemma SliceInPrefix<T>(a: seq<T>, b: seq<T>, i: nat, j: nat)
    requires i <= j <= |a|
    ensures (a + b)[i..j] == a[i..j]
  {
  }

  lemma SliceAfter<T>(a: seq<T>, b: seq<T>, i: nat, j: nat)
    requires i <= j <= |b|
    ensures (a + b)[|a| + i..|a| + j] == b[i..j]
  {
  }

  lemma SliceMid<T>(pre: seq<T>, m: seq<T>, post: seq<T>, i: nat, j: nat)
    requires i <= j <= |m|
    ensures (pre + m + post)[|pre| + i..|pre| + j] == m[i..j]
  {
  }

  /** `data` holds `a` then `b` from `p` on: it holds each of them. */
  lemma RangeSplit(data: seq<Byte>, p: nat, a: seq<Byte>, b: seq<Byte>)
    requires p + |a| + |b| <= |data| && data[p..p + |a| + |b|] == a + b
    ensures data[p..p + |a|] == a && data[p + |a|..p + |a| + |b|] == b
  {
    assert data[p..p + |a|] == data[p..p + |a| + |b|][..|a|];
    assert data[p + |a|..p + |a| + |b|] == data[p..p + |a| + |b|][|a|..];
  }

  /** Reading a VBR integer back where its encoding was written gives the
      number and moves the cursor exactly past the encoding. */
  lemma VbrRoundTrip(pre: seq<Byte>, n: nat, post: seq<Byte>)
    ensures IntAt(pre + VbrBytes(n) + post, |pre|) == (Some(n), |pre| + |VbrBytes(n)|)
  {
    VbrGroupsRead(pre, n, false, post);
  }

  /** A VBR integer written at `p` is read back there. */
  lemma VbrReadAt(data: seq<Byte>, p: nat, n: nat)
    requires p + |VbrBytes(n)| <= |data| && data[p..p + |VbrBytes(n)|] == VbrBytes(n)
    ensures IntAt(data, p) == (Some(n), p + |VbrBytes(n)|)
  {
    VbrGroupsAt(data, p, n, false);
  }

  /** VBR integers written one after the other. */
  function IntsBytes(vs: seq<nat>): seq<Byte>
  {
    if vs == [] then [] else VbrBytes(vs[0]) + IntsBytes(vs[1..])
  }

  /** An integer array as a BEF writer emits it: its count, then its
      integers. */
  function IntArrayBytes(vs: seq<nat>): seq<Byte>
  {
    VbrBytes(|vs|) + IntsBytes(vs)
  }

  /** `data` holds the integers `vs` from `p` on. */
  predicate IntsLayout(data: seq<Byte>, p: nat, vs: seq<nat>)
  {
    p + |IntsBytes(vs)| <= |data| && data[p..p + |IntsBytes(vs)|] == IntsBytes(vs)
  }

  /** Integers written one after the other from `p` are read back, and the
      read ends right after them. */
  lemma {:induction false} IntsReadAt(data: seq<Byte>, p: nat, vs: seq<nat>)
    requires IntsLayout(data, p, vs)
    ensures IntsAt(data, p, |vs|) == (Some(vs), p + |IntsBytes(vs)|)
    decreases |vs|
  {
    if vs != [] {
      IntsHeadAt(data, p, vs);
      IntsReadAt(data, p + |VbrBytes(vs[0])|, vs[1..]);
      IntsAtCons(data, p, |vs|, vs[0], p + |VbrBytes(vs[0])|, vs[1..], p + |VbrBytes(vs[0])| + |IntsBytes(vs[1..])|);
      IntsSplit(vs);
    }
  }

  /** The bytes of non-empty integers are those of the first, then those
      of the rest. */
  lemma IntsSplit(vs: seq<nat>)
    requires vs != []
    ensures IntsBytes(vs) == VbrBytes(vs[0]) + IntsBytes(vs[1..])
    ensures [vs[0]] + vs[1..] == vs && |vs| == |vs[1..]| + 1
  {
  }

  /** The first of written integers is read back, and the others follow it. */
  lemma IntsHeadAt(data: seq<Byte>, p: nat, vs: seq<nat>)
    requires IntsLayout(data, p, vs) && vs != []
    ensures IntAt(data, p) == (Some(vs[0]), p + |VbrBytes(vs[0])|)
    ensures IntsLayout(data, p + |VbrBytes(vs[0])|, vs[1..])
  {
    IntsSplit(vs);
    RangeSplit(data, p, VbrBytes(vs[0]), IntsBytes(vs[1..]));
    VbrReadAt(data, p, vs[0]);
  }

  /** A read of `count` integers: the first, then the others. */
  lemma IntsAtCons(data: seq<Byte>, p: nat, count: nat, v: nat, n: nat, rest: seq<nat>, end: nat)
    requires p <= n <= |data| && count == |rest| + 1
    requires IntAt(data, p) == (Some(v), n)
    requires IntsAt(data, n, |rest|) == (Some(rest), end)
    ensures IntsAt(data, p, count) == (Some([v] + rest), end)
  {
  }

  /** An integer array written at `p` is read back, and the read ends
      right after it. */
  lemma IntArrayReadAt(data: seq<Byte>, p: nat, vs: seq<nat>)
    requires p + |IntArrayBytes(vs)| <= |data| && data[p..p + |IntArrayBytes(vs)|] == IntArrayBytes(vs)
    ensures IntArrayAt(data, p) == (Some(vs), p + |IntArrayBytes(vs)|)
  {
    RangeSplit(data, p, VbrBytes(|vs|), IntsBytes(vs));
    VbrReadAt(data, p, |vs|);
    IntsReadAt(data, p + |VbrBytes(|vs|)|, vs);
  }

  /** The cursor of a BEF section: `data` is the whole section and `pos` the
      offset of the first unread byte, so `data[pos..]` is `BEFReader::file()`. */
  class Reader {
    const data: seq<Byte>
    var pos: nat

    ghost predicate Valid()
      reads this
    {
      pos <= |data|
    }

    constructor (data: seq<Byte>, pos: nat)
      requires pos <= |data|
      ensures Valid() && this.data == data && this.pos == pos
    {
      this.data := data;
      this.pos := pos;
    }

    predicate Empty()
      reads this
    {
      pos >= |data|
    }

    method ReadByte() returns (b: Option<Byte>)
      requires Valid()
      modifies this
      ensures Valid()
      ensures (b, pos) == ByteAt(data, old(pos))
    {
      if pos < |data| {
        b := Some(data[pos]);
        pos := pos + 1;
      } else {
        b := None;
      }
    }

    method ReadInt() returns (v: Option<nat>)
      requires Valid()
      modifies this
      ensures Valid()
      ensures (v, pos) == IntAt(data, old(pos))
    {
      var acc: nat := 0;
      while pos < |data| && data[pos] >= 128
        invariant old(pos) <= pos <= |data|
        invariant VbrFrom(data, old(pos), 0) == VbrFrom(data, pos, acc)
        decreases |data| - pos
      {
        acc := acc * 128 + data[pos] % 128;
        pos := pos + 1;
      }
      if pos == |data| {
        v := None;
      } else {
        v := Some(acc * 128 + data[pos] % 128);
        pos := pos + 1;
      }
    }

    method ReadInt8() returns (v: Option<nat>)
      requires Valid()
      modifies this
      ensures Valid()
      ensures (v, pos) == Int8At(data, old(pos))
    {
      if pos + 8 <= |data| {
        v := Some(LittleEndian(data[pos..pos + 8]));
        pos := pos + 8;
      } else {
        v := None;
      }
    }

    /** `ReadAlignment(kKernelEntryAlignment)`. */
    method ReadAlignment() returns (ok: bool)
      requires Valid()
      modifies this
      ensures Valid()
      ensures (ok, pos) == AlignAt(data, old(pos))
    {
      var p := AlignUp(pos);
      ok := p <= |data|;
      if ok {
        pos := p;
      }
    }
  }

  /** `ReadIntArray` (lib/bef_converter/bef_to_mlir/bef_to_mlir.cc:172-186):
      a count N, then N integers. */
  method ReadIntArray(reader: Reader) returns (items: Option<seq<nat>>)
    requires reader.Valid()
    modifies reader
    ensures reader.Valid()
    ensures (items, reader.pos) == IntArrayAt(reader.data, old(reader.pos))
  {
    var n := reader.ReadInt();
    if n.None? {
      return None;
    }
    var acc: seq<nat> := [];
    PrependNothing(IntsAt(reader.data, reader.pos, n.value));
    var i := 0;
    while i < n.value
      invariant 0 <= i <= n.value && |acc| == i
      invariant reader.Valid()
      invariant IntArrayAt(reader.data, old(reader.pos)) ==
        Prepend(acc, IntsAt(reader.data, reader.pos, n.value - i))
    {
      ghost var before := reader.pos;
      var item := reader.ReadInt();
      if item.None? {
        assert IntsAt(reader.data, before, n.value - i) == (None, reader.pos);
        return None;
      }
      PrependTwice(acc, [item.value], IntsAt(reader.data, reader.pos, n.value - i - 1));
      acc := acc + [item.value];
      i := i + 1;
    }
    assert acc + [] == acc;
    items := Some(acc);
  }
}
