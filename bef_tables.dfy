/** The first phase of the BEF to MLIR converter: the file header, the split
    into sections, and the flat tables (location filenames and positions,
    strings, kernel names, types and the function index)
    (lib/bef_converter/bef_to_mlir/bef_to_mlir.cc:404-602). The attribute
    tables are in module BefAttributes.

    Layout assumptions for definitions in headers that are not part of this
    model: the magic bytes are 0x0B 0xEF and version 0 is the only version;
    a section is its id byte, its length as a VBR integer, then that many
    bytes; the section ids are numbered as in `BEFSectionID`, from
    FormatVersion = 0 to RegisterTypes = 11, with 12 ids in all. */
module BefTables {
  import opened Wrappers
  import opened BefReader
  import opened BefIr

  const BefMagic1: Byte := 0x0B
  const BefMagic2: Byte := 0xEF
  const BefVersion0: Byte := 0

  const FormatVersionSection: nat := 0
  const LocationFilenamesSection: nat := 1
  const LocationPositionsSection: nat := 2
  const StringsSection: nat := 3
  const AttributesSection: nat := 4
  const KernelsSection: nat := 5
  const TypesSection: nat := 6
  const FunctionIndexSection: nat := 7
  const FunctionsSection: nat := 8
  const AttributeTypesSection: nat := 9
  const AttributeNamesSection: nat := 10
  const RegisterTypesSection: nat := 11
  const NumSectionIds: nat := 12

  // ----- header -----

  /** `ReadHeader`: the two magic bytes. */
  function HeaderAt(data: seq<Byte>, pos: nat): (r: (bool, nat))
    requires pos <= |data|
    ensures r.0 <==> pos + 2 <= |data| && data[pos] == BefMagic1 && data[pos + 1] == BefMagic2
    ensures r.0 ==> r.1 == pos + 2
  {
    var (b1, p1) := ByteAt(data, pos);
    if b1.None? || b1.value != BefMagic1 then (false, p1)
    else
      var (b2, p2) := ByteAt(data, p1);
      if b2.None? || b2.value != BefMagic2 then (false, p2) else (true, p2)
  }

  method ReadHeader(reader: Reader) returns (ok: bool)
    requires reader.Valid()
    modifies reader
    ensures reader.Valid()
    ensures (ok, reader.pos) == HeaderAt(reader.data, old(reader.pos))
  {
    var b1 := reader.ReadByte();
    if b1.None? || b1.value != BefMagic1 {
      return false;
    }
    var b2 := reader.ReadByte();
    ok := b2.Some? && b2.value == BefMagic2;
  }

  /** `ReadFormatVersion`: the section's first byte must be version 0. */
  predicate FormatVersionOk(section: seq<Byte>)
  {
    |section| > 0 && section[0] == BefVersion0
  }

  // ----- sections -----

  /** `ReadSection`: an id byte, a VBR length, then the section's bytes. */
  function SectionAt(data: seq<Byte>, pos: nat): (r: (Option<(Byte, Bytes)>, nat))
    requires pos <= |data|
    ensures pos <= r.1 <= |data|
    ensures r.0.Some? ==> r.1 > pos
  {
    var (id, p) := ByteAt(data, pos);
    if id.None? then (None, p)
    else
      var (len, q) := IntAt(data, p);
      if len.None? || q + len.value > |data| then (None, q)
      else (Some((id.value, data[q..q + len.value])), q + len.value)
  }

  /** The bytes of one section, as a BEF writer lays it out. */
  function SectionBytes(id: Byte, body: Bytes): seq<Byte>
  {
    [id] + VbrBytes(|body|) + body
  }

  /** A section written in place is read back whole, and the cursor stops
      right after it. */
  lemma SectionRoundTrip(pre: seq<Byte>, id: Byte, body: Bytes, post: seq<Byte>)
    ensures var data := pre + SectionBytes(id, body) + post;
            SectionAt(data, |pre|) == (Some((id, body)), |pre| + |SectionBytes(id, body)|)
  {
    var data := pre + SectionBytes(id, body) + post;
    assert data == (pre + [id]) + VbrBytes(|body|) + (body + post);
    VbrRoundTrip(pre + [id], |body|, body + post);
    var q := |pre| + 1 + |VbrBytes(|body|)|;
    assert data[q..q + |body|] == body;
  }

  /** The section table as `BEFSections::Set` writes it: `.at()` on a
      vector of `kNumSectionIDs` slots, which throws on any other id. */
  function SetSectionAsWritten(table: seq<Bytes>, id: nat, body: Bytes): (r: Option<seq<Bytes>>)
    ensures r.Some? <==> id < |table|
  {
    if id < |table| then Some(table[id := body]) else None
  }

  /** The section table as the comment on `ReadNextSection` intends it:
      a section with an unrecognised id is dropped. */
  function SetSection(table: seq<Bytes>, id: nat, body: Bytes): (r: seq<Bytes>)
    ensures |r| == |table|
    ensures id < |table| ==> r[id] == body
    ensures forall k :: 0 <= k < |table| && k != id ==> r[k] == table[k]
  {
    if id < |table| then table[id := body] else table
  }

  function EmptySections(): (t: seq<Bytes>)
    ensures |t| == NumSectionIds && forall k :: 0 <= k < |t| ==> t[k] == []
  {
    seq(NumSectionIds, _ => [])
  }

  /** `ReadSections`: every section up to the end of the file. */
  function SectionsFrom(data: seq<Byte>, pos: nat, table: seq<Bytes>): (r: Option<seq<Bytes>>)
    requires pos <= |data|
    ensures r.Some? ==> |r.value| == |table|
    decreases |data| - pos
  {
    if pos == |data| then Some(table)
    else
      var (s, p) := SectionAt(data, pos);
      if s.None? then None else SectionsFrom(data, p, SetSection(table, s.value.0, s.value.1))
  }

  /** `ReadSections` with `BEFSections::Set` as written. */
  function SectionsFromAsWritten(data: seq<Byte>, pos: nat, table: seq<Bytes>): Option<seq<Bytes>>
    requires pos <= |data|
    decreases |data| - pos
  {
    if pos == |data| then Some(table)
    else
      var (s, p) := SectionAt(data, pos);
      if s.None? then None
      else
        var t := SetSectionAsWritten(table, s.value.0, s.value.1);
        if t.None? then None else SectionsFromAsWritten(data, p, t.value)
  }

  /** A file that is only an empty section with id 12 (one past the last
      known id): the intended reader drops it, the reader as written fails
      the whole file. */
  lemma UnknownSectionRejected()
    ensures SectionsFromAsWritten([12, 0], 0, EmptySections()) == None
    ensures SectionsFrom([12, 0], 0, EmptySections()) == Some(EmptySections())
  {
    var data: seq<Byte> := [12, 0];
    assert ByteAt(data, 0) == (Some(12), 1);
    assert IntAt(data, 1) == (Some(0), 2);
    assert data[2..2] == [];
    assert SectionAt(data, 0) == (Some((12, [])), 2);
  }

  /** The two readers agree on every file whose section ids are all known. */
  lemma {:induction false} SectionsAgreeOnKnownIds(data: seq<Byte>, pos: nat, table: seq<Bytes>)
    requires pos <= |data|
    requires SectionsFromAsWritten(data, pos, table).Some?
    ensures SectionsFrom(data, pos, table) == SectionsFromAsWritten(data, pos, table)
    decreases |data| - pos
  {
    if pos < |data| {
      var (s, p) := SectionAt(data, pos);
      SectionsAgreeOnKnownIds(data, p, SetSection(table, s.value.0, s.value.1));
    }
  }

  /** `BEFSections`: one byte range per known section id; a section that
      does not occur is empty. */
  class Sections {
    var table: seq<Bytes>

    ghost predicate Valid()
      reads this
    {
      |table| == NumSectionIds
    }

    constructor ()
      ensures Valid() && table == EmptySections()
    {
      table := EmptySections();
    }

    /** The bytes of section `id`, which must be a known id, as `.at()`
        demands. */
    function Get(id: nat): (s: Bytes)
      requires Valid() && id < NumSectionIds
      reads this
      ensures s == table[id]
    {
      table[id]
    }

    /** `Set`, with the unknown-id case handled as intended. */
    method Set(id: nat, body: Bytes)
      requires Valid()
      modifies this
      ensures Valid()
      ensures table == SetSection(old(table), id, body)
    {
      if id < |table| {
        table := table[id := body];
      }
    }
  }

  /** `ReadSections`: reads sections until the file is exhausted. `warn` is
      the "Missing AttributeTypes, AttributeNames or RegisterTypes
      sections." warning. */
  method ReadSections(reader: Reader, sections: Sections) returns (ok: bool, warn: bool)
    requires reader.Valid() && sections.Valid()
    modifies reader, sections
    ensures reader.Valid() && sections.Valid()
    ensures ok <==> SectionsFrom(reader.data, old(reader.pos), old(sections.table)).Some?
    ensures ok ==> sections.table == SectionsFrom(reader.data, old(reader.pos), old(sections.table)).value
    ensures ok ==> (warn <==> (sections.table[AttributeTypesSection] == []
                               || sections.table[AttributeNamesSection] == []
                               || sections.table[RegisterTypesSection] == []))
  {
    while !reader.Empty()
      invariant reader.Valid() && sections.Valid()
      invariant SectionsFrom(reader.data, old(reader.pos), old(sections.table))
             == SectionsFrom(reader.data, reader.pos, sections.table)
      decreases |reader.data| - reader.pos
    {
      var s := ReadSection(reader);
      if s.None? {
        return false, false;
      }
      sections.Set(s.value.0, s.value.1);
    }
    ok := true;
    warn := sections.Get(AttributeTypesSection) == []
         || sections.Get(AttributeNamesSection) == []
         || sections.Get(RegisterTypesSection) == [];
  }

  /** `ReadSection` followed by `SkipPast`. */
  method ReadSection(reader: Reader) returns (s: Option<(Byte, Bytes)>)
    requires reader.Valid()
    modifies reader
    ensures reader.Valid()
    ensures (s, reader.pos) == SectionAt(reader.data, old(reader.pos))
  {
    var id := reader.ReadByte();
    if id.None? {
      return None;
    }
    var len := reader.ReadInt();
    if len.None? || reader.pos + len.value > |reader.data| {
      return None;
    }
    s := Some((id.value, reader.data[reader.pos..reader.pos + len.value]));
    reader.pos := reader.pos + len.value;
  }

  // ----- NUL-terminated string tables -----

  /** The position of the first NUL at or after `pos`, or the end. */
  function NulFrom(data: seq<Byte>, pos: nat): (k: nat)
    requires pos <= |data|
    ensures pos <= k <= |data|
    ensures forall i :: pos <= i < k ==> data[i] != 0
    ensures k < |data| ==> data[k] == 0
    decreases |data| - pos
  {
    if pos == |data| || data[pos] == 0 then pos else NulFrom(data, pos + 1)
  }

  predicate NoNul(s: Bytes)
  {
    forall i :: 0 <= i < |s| ==> s[i] != 0
  }

  /** The offsets a table of NUL-terminated strings reports: the first
      string at `start`, each next one just past the previous terminator. */
  ghost predicate ChainedOffsets(items: seq<(nat, Bytes)>, start: nat, end: nat)
  {
    if items == [] then start == end
    else items[0].0 == start && ChainedOffsets(items[1..], start + |items[0].1| + 1, end)
  }

  /** `ReadNullTerminatedStrings` from `pos`: each string with its offset.
      A final string without a terminator fails the section. */
  function NulStringsFrom(data: seq<Byte>, pos: nat): Option<seq<(nat, Bytes)>>
    requires pos <= |data|
    decreases |data| - pos
  {
    if pos == |data| then Some([])
    else
      var k := NulFrom(data, pos);
      if k == |data| then None
      else
        var rest := NulStringsFrom(data, k + 1);
        if rest.None? then None else Some([(pos, data[pos..k])] + rest.value)
  }

  /** The strings read contain no NUL, and each starts just past the NUL
      of the one before. */
  lemma {:induction false} NulStringsShape(data: seq<Byte>, pos: nat)
    requires pos <= |data|
    ensures var r := NulStringsFrom(data, pos);
            r.Some? ==> (&& (forall j :: 0 <= j < |r.value| ==> NoNul(r.value[j].1))
                         && ChainedOffsets(r.value, pos, |data|))
    decreases |data| - pos
  {
    if pos < |data| {
      var k := NulFrom(data, pos);
      if k < |data| {
        NulStringsShape(data, k + 1);
        var rest := NulStringsFrom(data, k + 1);
        if rest.Some? {
          var items := [(pos, data[pos..k])] + rest.value;
          assert items[1..] == rest.value;
          assert NoNul(data[pos..k]);
          assert forall j :: 1 <= j < |items| ==> items[j] == rest.value[j - 1];
        }
      }
    }
  }

  /** The bytes of a string table: each string followed by its NUL. */
  function JoinNul(strs: seq<Bytes>): seq<Byte>
  {
    if strs == [] then [] else strs[0] + [0] + JoinNul(strs[1..])
  }

  function WithOffsets(strs: seq<Bytes>, start: nat): seq<(nat, Bytes)>
  {
    if strs == [] then [] else [(start, strs[0])] + WithOffsets(strs[1..], start + |strs[0]| + 1)
  }

  /** Reading back a string table written by JoinNul gives every string,
      each at the offset where it was written. */
  lemma {:induction false} NulStringsRoundTrip(pre: seq<Byte>, strs: seq<Bytes>)
    requires forall j :: 0 <= j < |strs| ==> NoNul(strs[j])
    ensures NulStringsFrom(pre + JoinNul(strs), |pre|) == Some(WithOffsets(strs, |pre|))
    decreases |strs|
  {
    var data := pre + JoinNul(strs);
    if strs != [] {
      var s, tail := strs[0], JoinNul(strs[1..]);
      var pre' := pre + s + [0];
      assert JoinNul(strs) == s + [0] + tail;
      RegroupString(pre, s, tail);
      NulStringsRoundTrip(pre', strs[1..]);
      assert data[|pre|..|pre| + |s|] == s;
      NulFromPastString(data, |pre|, s);
    } else {
      assert data == pre;
    }
  }

  lemma RegroupString(pre: seq<Byte>, s: Bytes, tail: seq<Byte>)
    ensures pre + (s + [0] + tail) == (pre + s + [0]) + tail
    ensures (pre + (s + [0] + tail))[|pre| + |s|] == 0
  {
  }

  lemma {:induction false} NulFromPastString(data: seq<Byte>, pos: nat, s: Bytes)
    requires pos + |s| < |data| && NoNul(s) && data[pos + |s|] == 0
    requires data[pos..pos + |s|] == s
    ensures NulFrom(data, pos) == pos + |s|
    decreases |s|
  {
    if s != [] {
      assert data[pos] == s[0];
      assert data[pos + 1..pos + 1 + |s[1..]|] == s[1..];
      NulFromPastString(data, pos + 1, s[1..]);
    }
  }

  /** A table whose last byte is not NUL fails, wherever reading starts. */
  lemma {:induction false} UnterminatedTableFails(data: seq<Byte>, pos: nat)
    requires pos < |data| && data[|data| - 1] != 0
    ensures NulStringsFrom(data, pos) == None
    decreases |data| - pos
  {
    var k := NulFrom(data, pos);
    if k < |data| {
      UnterminatedTableFails(data, k + 1);
    }
  }

  /** `ReadNullTerminatedStrings`: the (offset, string) pairs that the
      source hands to its callback, in order. */
  method ReadNullTerminatedStrings(section: seq<Byte>) returns (r: Option<seq<(nat, Bytes)>>)
    ensures r == NulStringsFrom(section, 0)
  {
    var pos := 0;
    var items: seq<(nat, Bytes)> := [];
    ghost var all := NulStringsFrom(section, 0);
    if all.Some? {
      assert [] + all.value == all.value;
    }
    while pos < |section|
      invariant pos <= |section|
      invariant all == PrependItems(items, NulStringsFrom(section, pos))
      decreases |section| - pos
    {
      // The length of the C string starting at `pos`, as `strlen` finds it.
      var k := pos;
      while k < |section| && section[k] != 0
        invariant pos <= k <= |section|
        invariant NulFrom(section, pos) == NulFrom(section, k)
        decreases |section| - k
      {
        k := k + 1;
      }
      if k == |section| {
        return None;
      }
      NulStringsStep(section, pos, k, items, all);
      items := items + [(pos, section[pos..k])];
      pos := k + 1;
    }
    assert items + [] == items;
    r := Some(items);
  }

  function PrependItems<T>(items: seq<T>, r: Option<seq<T>>): Option<seq<T>>
  {
    if r.None? then None else Some(items + r.value)
  }

  /** One string of the table: it moves from the unread part to the items
      read so far. */
  lemma NulStringsStep(section: seq<Byte>, pos: nat, k: nat, items: seq<(nat, Bytes)>,
                       all: Option<seq<(nat, Bytes)>>)
    requires pos < |section| && k == NulFrom(section, pos) && k < |section|
    requires all == PrependItems(items, NulStringsFrom(section, pos))
    ensures all == PrependItems(items + [(pos, section[pos..k])], NulStringsFrom(section, k + 1))
  {
    var rest := NulStringsFrom(section, k + 1);
    if rest.Some? {
      assert items + ([(pos, section[pos..k])] + rest.value) == (items + [(pos, section[pos..k])]) + rest.value;
    }
  }

  /** `ReadLocationFilenames`: the strings of the table, in order. */
  function Filenames(items: seq<(nat, Bytes)>): (names: seq<Bytes>)
    ensures |names| == |items|
    ensures forall j :: 0 <= j < |items| ==> names[j] == items[j].1
  {
    seq(|items|, j requires 0 <= j < |items| => items[j].1)
  }

  /** `ReadStrings`: each string keyed by its offset. */
  function StringsByOffset(items: seq<(nat, Bytes)>): (m: map<nat, Bytes>)
    ensures forall j :: 0 <= j < |items| ==> items[j].0 in m
    ensures forall o :: o in m ==> exists j :: 0 <= j < |items| && items[j].0 == o && m[o] == items[j].1
  {
    if items == [] then map[]
    else
      var m := StringsByOffset(items[..|items| - 1]);
      var last := items[|items| - 1];
      assert forall j :: 0 <= j < |items| - 1 ==> items[..|items| - 1][j] == items[j];
      m[last.0 := last.1]
  }

  /** In a well-formed string table, the string stored at each reported
      offset is the one that starts there. */
  lemma {:induction false} StringsByOffsetExact(items: seq<(nat, Bytes)>, start: nat, end: nat, j: nat)
    requires ChainedOffsets(items, start, end) && j < |items|
    ensures StringsByOffset(items)[items[j].0] == items[j].1
  {
    ChainedOffsetsIncrease(items, start, end);
    var o := items[j].0;
    var m := StringsByOffset(items);
    var i :| 0 <= i < |items| && items[i].0 == o && m[o] == items[i].1;
    if i != j {
      if i < j {
        assert items[i].0 < items[j].0;
      } else {
        assert items[j].0 < items[i].0;
      }
    }
  }

  lemma {:induction false} ChainedOffsetsIncrease(items: seq<(nat, Bytes)>, start: nat, end: nat)
    requires ChainedOffsets(items, start, end)
    ensures forall i, j :: 0 <= i < j < |items| ==> items[i].0 < items[j].0
    ensures forall i :: 0 <= i < |items| ==> start <= items[i].0
    decreases |items|
  {
    if items != [] {
      ChainedOffsetsIncrease(items[1..], start + |items[0].1| + 1, end);
      assert forall i :: 1 <= i < |items| ==> items[i] == items[1..][i - 1];
    }
  }

  // ----- location positions -----

  /** `ReadLocationPositions` from `pos`: VBR triples (filename index,
      line, column), each keyed by its own start offset. A filename index
      outside the filename table, or a truncated triple, fails. */
  /** One (filename index, line, column) triple of VBR integers. */
  function TripleAt(data: seq<Byte>, pos: nat): (r: (Option<(nat, nat, nat)>, nat))
    requires pos <= |data|
    ensures pos <= r.1 <= |data|
    ensures r.0.Some? ==> r.1 > pos
  {
    var (f, p1) := IntAt(data, pos);
    if f.None? then (None, p1)
    else
      var (line, p2) := IntAt(data, p1);
      if line.None? then (None, p2)
      else
        var (col, p3) := IntAt(data, p2);
        if col.None? then (None, p3) else (Some((f.value, line.value, col.value)), p3)
  }

  /** `BEFFile::GetLocationFilename`: the filename at the index its `int`
      parameter receives, or none when that is not below the table size. */
  function LocationFilename(filenames: seq<Bytes>, index: nat): (r: Option<Bytes>)
    ensures r.Some? <==> IntIndex(index) < |filenames|
    ensures r.Some? ==> r.value == filenames[IntIndex(index)]
    ensures index < 0x8000_0000 ==> r == if index < |filenames| then Some(filenames[index]) else None
  {
    var i := IntIndex(index);
    if i < |filenames| then Some(filenames[i]) else None
  }

  /** A `size_t` passed as an `unsigned` parameter: its low 32 bits. */
  function Unsigned(n: nat): (r: nat)
    ensures r < 0x1_0000_0000
    ensures n < 0x1_0000_0000 ==> r == n
  {
    n % 0x1_0000_0000
  }

  /** The location of a `(filename index, line, column)` triple, with line
      and column narrowed to the `unsigned` parameters of
      `FileLineColLoc::get`. */
  function LocationOf(filenames: seq<Bytes>, t: (nat, nat, nat)): (r: Option<Location>)
    ensures r.Some? <==> LocationFilename(filenames, t.0).Some?
    ensures r.Some? ==> && r.value.FileLineColLoc?
                        && r.value.filename == LocationFilename(filenames, t.0).value
                        && r.value.line < 0x1_0000_0000 && r.value.line % 0x1_0000_0000 == t.1 % 0x1_0000_0000
                        && r.value.column < 0x1_0000_0000 && r.value.column % 0x1_0000_0000 == t.2 % 0x1_0000_0000
  {
    var filename := LocationFilename(filenames, t.0);
    if filename.None? then None else Some(FileLineColLoc(filename.value, Unsigned(t.1), Unsigned(t.2)))
  }

  function LocationsFrom(data: seq<Byte>, pos: nat, filenames: seq<Bytes>): Option<map<nat, Location>>
    requires pos <= |data|
    decreases |data| - pos
  {
    if pos == |data| then Some(map[])
    else
      var (t, p) := TripleAt(data, pos);
      if t.None? || LocationOf(filenames, t.value).None? then None
      else
        var rest := LocationsFrom(data, p, filenames);
        if rest.None? then None
        else Some(rest.value[pos := LocationOf(filenames, t.value).value])
  }

  /** Every location read from `pos` on is keyed by an offset inside the
      section, at or after `pos`. */
  lemma {:induction false} LocationsFromKeys(data: seq<Byte>, pos: nat, filenames: seq<Bytes>)
    requires pos <= |data|
    ensures var r := LocationsFrom(data, pos, filenames);
            r.Some? ==> forall k :: k in r.value ==> pos <= k < |data|
    decreases |data| - pos
  {
    if pos < |data| {
      var (t, p) := TripleAt(data, pos);
      if t.Some? && LocationOf(filenames, t.value).Some? {
        LocationsFromKeys(data, p, filenames);
        var rest := LocationsFrom(data, p, filenames);
        if rest.Some? {
          LocationsCons(data, pos, p, t.value, filenames, rest.value);
        }
      }
    }
  }

  /** One location triple as a BEF writer lays it out. */
  function TripleBytes(t: (nat, nat, nat)): seq<Byte>
  {
    VbrBytes(t.0) + VbrBytes(t.1) + VbrBytes(t.2)
  }

  function TriplesBytes(ts: seq<(nat, nat, nat)>): seq<Byte>
  {
    if ts == [] then [] else TripleBytes(ts[0]) + TriplesBytes(ts[1..])
  }

  /** The location table that a list of triples written from `start` must
      give: every triple keyed by the offset where it was written. */
  function TriplesKeyed(ts: seq<(nat, nat, nat)>, filenames: seq<Bytes>, start: nat): map<nat, Location>
    requires forall j :: 0 <= j < |ts| ==> LocationOf(filenames, ts[j]).Some?
  {
    if ts == [] then map[]
    else
      TriplesKeyed(ts[1..], filenames, start + |TripleBytes(ts[0])|)
        [start := LocationOf(filenames, ts[0]).value]
  }

  lemma TripleRoundTrip(pre: seq<Byte>, t: (nat, nat, nat), post: seq<Byte>)
    ensures TripleAt(pre + TripleBytes(t) + post, |pre|) == (Some(t), |pre| + |TripleBytes(t)|)
  {
    var data := pre + TripleBytes(t) + post;
    var a, b, c := VbrBytes(t.0), VbrBytes(t.1), VbrBytes(t.2);
    assert data == pre + a + (b + c + post);
    VbrRoundTrip(pre, t.0, b + c + post);
    assert data == (pre + a) + b + (c + post);
    VbrRoundTrip(pre + a, t.1, c + post);
    assert data == (pre + a + b) + c + post;
    VbrRoundTrip(pre + a + b, t.2, post);
  }

  /** Reading back a location table gives every triple keyed by its own
      start offset. */
  lemma LocationsRoundTrip(pre: seq<Byte>, ts: seq<(nat, nat, nat)>, filenames: seq<Bytes>)
    requires forall j :: 0 <= j < |ts| ==> LocationOf(filenames, ts[j]).Some?
    ensures LocationsFrom(pre + TriplesBytes(ts), |pre|, filenames) == Some(TriplesKeyed(ts, filenames, |pre|))
  {
    var data := pre + TriplesBytes(ts);
    assert data[|pre|..] == TriplesBytes(ts);
    LocationsRoundTripAt(data, |pre|, ts, filenames);
  }

  /** `LocationsRoundTrip` on a section whose bytes from `start` on are
      the encoded triples. */
  lemma {:induction false} LocationsRoundTripAt(data: seq<Byte>, start: nat, ts: seq<(nat, nat, nat)>, filenames: seq<Bytes>)
    requires forall j :: 0 <= j < |ts| ==> LocationOf(filenames, ts[j]).Some?
    requires start <= |data| && data[start..] == TriplesBytes(ts)
    ensures LocationsFrom(data, start, filenames) == Some(TriplesKeyed(ts, filenames, start))
    decreases |ts|
  {
    if ts == [] {
      assert |data[start..]| == 0;
    } else {
      var t, rest := ts[0], ts[1..];
      var next := start + |TripleBytes(t)|;
      SliceSplit(data, start, TripleBytes(t), TriplesBytes(rest));
      TripleAtSlice(data, start, t);
      assert forall j :: 0 <= j < |rest| ==> rest[j] == ts[j + 1];
      LocationsRoundTripAt(data, next, rest, filenames);
      var keyed := TriplesKeyed(rest, filenames, next);
      LocationsCons(data, start, next, t, filenames, keyed);
      TriplesKeyedCons(ts, filenames, start, next);
    }
  }

  /** A suffix made of two parts: each part sits at its own offset. */
  lemma SliceSplit(data: seq<Byte>, start: nat, x: seq<Byte>, y: seq<Byte>)
    requires start <= |data| && data[start..] == x + y
    ensures start + |x| <= |data|
    ensures data[start..start + |x|] == x && data[start + |x|..] == y
  {
    assert |data| == start + |x| + |y|;
    forall i | 0 <= i < |x|
      ensures data[start..start + |x|][i] == x[i]
    {
      assert data[start + i] == data[start..][i] == (x + y)[i];
    }
    forall i | 0 <= i < |y|
      ensures data[start + |x|..][i] == y[i]
    {
      assert data[start + |x| + i] == data[start..][|x| + i] == (x + y)[|x| + i];
    }
  }

  /** A triple written at `pos` reads back there. */
  lemma TripleAtSlice(data: seq<Byte>, pos: nat, t: (nat, nat, nat))
    requires pos + |TripleBytes(t)| <= |data| && data[pos..pos + |TripleBytes(t)|] == TripleBytes(t)
    ensures TripleAt(data, pos) == (Some(t), pos + |TripleBytes(t)|)
  {
    var n := pos + |TripleBytes(t)|;
    assert data == data[..pos] + data[pos..n] + data[n..];
    TripleRoundTrip(data[..pos], t, data[n..]);
  }

  lemma TriplesKeyedCons(ts: seq<(nat, nat, nat)>, filenames: seq<Bytes>, start: nat, next: nat)
    requires ts != [] && forall j :: 0 <= j < |ts| ==> LocationOf(filenames, ts[j]).Some?
    requires next == start + |TripleBytes(ts[0])|
    ensures TriplesKeyed(ts, filenames, start)
         == TriplesKeyed(ts[1..], filenames, next)[start := LocationOf(filenames, ts[0]).value]
  {
  }

  /** The table from `pos` is the triple there, keyed by `pos`, over the
      table after it. */
  lemma LocationsCons(data: seq<Byte>, pos: nat, p: nat, t: (nat, nat, nat), filenames: seq<Bytes>,
                      rest: map<nat, Location>)
    requires pos < |data| && TripleAt(data, pos) == (Some(t), p) && LocationOf(filenames, t).Some?
    requires LocationsFrom(data, p, filenames) == Some(rest)
    ensures LocationsFrom(data, pos, filenames) == Some(rest[pos := LocationOf(filenames, t).value])
  {
  }

  /** A triple whose filename index, narrowed to `int`, names no filename
      fails the section. */
  lemma BadFilenameIndexFails(pre: seq<Byte>, t: (nat, nat, nat), post: seq<Byte>, filenames: seq<Bytes>)
    requires IntIndex(t.0) >= |filenames|
    ensures LocationsFrom(pre + TripleBytes(t) + post, |pre|, filenames) == None
  {
    TripleRoundTrip(pre, t, post);
  }

  /** A filename index of 2^32 wraps to 0 as an `int`: a one-entry table
      whose triple names filename 2^32 decodes with the first filename, and
      its line and column keep their low 32 bits. */
  lemma WrappedFilenameIndexDecodes(filenames: seq<Bytes>, line: nat, column: nat)
    requires |filenames| >= 1
    ensures LocationsFrom(TripleBytes((0x1_0000_0000, line, column)), 0, filenames)
         == Some(map[0 := FileLineColLoc(filenames[0], line % 0x1_0000_0000, column % 0x1_0000_0000)])
  {
    var t := (0x1_0000_0000, line, column);
    var loc := FileLineColLoc(filenames[0], line % 0x1_0000_0000, column % 0x1_0000_0000);
    assert IntIndex(t.0) == 0;
    assert LocationOf(filenames, t) == Some(loc);
    assert [t][1..] == [];
    assert [] + TriplesBytes([t]) == TripleBytes(t);
    LocationsRoundTrip([], [t], filenames);
    assert TriplesKeyed([t], filenames, 0) == map[][0 := loc];
  }

  /** A line number of 2^32 is stored as line 0. */
  lemma WrappedLineNumber(filename: Bytes)
    ensures LocationsFrom(TripleBytes((0, 0x1_0000_0000, 0)), 0, [filename])
         == Some(map[0 := FileLineColLoc(filename, 0, 0)])
  {
    var t: (nat, nat, nat) := (0, 0x1_0000_0000, 0);
    assert LocationOf([filename], t) == Some(FileLineColLoc(filename, 0, 0));
    assert [t][1..] == [];
    assert [] + TriplesBytes([t]) == TripleBytes(t);
    LocationsRoundTrip([], [t], [filename]);
    assert TriplesKeyed([t], [filename], 0) == map[][0 := FileLineColLoc(filename, 0, 0)];
  }

  method ReadLocationPositions(section: seq<Byte>, filenames: seq<Bytes>) returns (r: Option<map<nat, Location>>)
    ensures r == LocationsFrom(section, 0, filenames)
  {
    var reader := new Reader(section, 0);
    var positions: map<nat, Location> := map[];
    ghost var all := LocationsFrom(section, 0, filenames);
    if all.Some? {
      assert map[] + all.value == all.value;
    }
    while !reader.Empty()
      invariant reader.Valid() && reader.data == section
      invariant forall k :: k in positions ==> k < reader.pos
      invariant all == MergeLocations(positions, LocationsFrom(section, reader.pos, filenames))
      decreases |section| - reader.pos
    {
      var offset := reader.pos;
      var t := ReadTriple(reader);
      if t.None? {
        return None;
      }
      var filename := LocationFilename(filenames, t.value.0);
      if filename.None? {
        return None;
      }
      var loc := FileLineColLoc(filename.value, Unsigned(t.value.1), Unsigned(t.value.2));
      LocationsLoopStep(section, filenames, all, positions, offset, reader.pos, t.value);
      positions := positions[offset := loc];
    }
    assert positions + map[] == positions;
    r := Some(positions);
  }

  /** One turn of the location loop: the triple at `offset` moves from
      the unread part to the entries read. */
  lemma LocationsLoopStep(section: seq<Byte>, filenames: seq<Bytes>, all: Option<map<nat, Location>>,
                          positions: map<nat, Location>, offset: nat, p: nat, t: (nat, nat, nat))
    requires offset < |section| && TripleAt(section, offset) == (Some(t), p) && LocationOf(filenames, t).Some?
    requires forall k :: k in positions ==> k < offset
    requires all == MergeLocations(positions, LocationsFrom(section, offset, filenames))
    ensures offset < p
    ensures all == MergeLocations(positions[offset := LocationOf(filenames, t).value],
                                  LocationsFrom(section, p, filenames))
  {
    var loc := LocationOf(filenames, t).value;
    var rest := LocationsFrom(section, p, filenames);
    LocationsFromKeys(section, p, filenames);
    if rest.Some? {
      LocationsCons(section, offset, p, t, filenames, rest.value);
      assert positions + rest.value[offset := loc] == positions[offset := loc] + rest.value;
    }
  }

  /** The three `ReadInt` calls of one location entry. */
  method ReadTriple(reader: Reader) returns (t: Option<(nat, nat, nat)>)
    requires reader.Valid()
    modifies reader
    ensures reader.Valid()
    ensures (t, reader.pos) == TripleAt(reader.data, old(reader.pos))
  {
    var f := reader.ReadInt();
    if f.None? {
      return None;
    }
    var line := reader.ReadInt();
    if line.None? {
      return None;
    }
    var col := reader.ReadInt();
    if col.None? {
      return None;
    }
    t := Some((f.value, line.value, col.value));
  }

  /** The entries read so far together with the outcome of the rest. */
  function MergeLocations(done: map<nat, Location>, rest: Option<map<nat, Location>>): Option<map<nat, Location>>
  {
    if rest.None? then None else Some(done + rest.value)
  }

  // ----- string-offset sections: kernel names and types -----

  /** Every offset must name a string of the Strings table. */
  function LookupStrings(offsets: seq<nat>, strings: map<nat, Bytes>): (r: Option<seq<Bytes>>)
    ensures r.Some? <==> forall j :: 0 <= j < |offsets| ==> offsets[j] in strings
    ensures r.Some? ==> |r.value| == |offsets|
                        && forall j :: 0 <= j < |offsets| ==> r.value[j] == strings[offsets[j]]
  {
    if offsets == [] then Some([])
    else
      var rest := LookupStrings(offsets[1..], strings);
      if offsets[0] !in strings || rest.None? then
        assert offsets[0] !in strings || offsets[1..][LookupMissing(offsets[1..], strings)] !in strings;
        None
      else Some([strings[offsets[0]]] + rest.value)
  }

  /** An index of `offsets` missing from `strings`, when there is one. */
  function LookupMissing(offsets: seq<nat>, strings: map<nat, Bytes>): (j: nat)
    ensures (exists i :: 0 <= i < |offsets| && offsets[i] !in strings) ==> j < |offsets| && offsets[j] !in strings
  {
    if offsets == [] then 0
    else if offsets[0] !in strings then 0
    else 1 + LookupMissing(offsets[1..], strings)
  }

  /** `ReadStringOffsetSection`: an integer array of offsets into the
      Strings table, each looked up. */
  function StringOffsetSection(section: seq<Byte>, strings: map<nat, Bytes>): Option<seq<Bytes>>
  {
    var offsets := IntArrayAt(section, 0).0;
    if offsets.None? then None else LookupStrings(offsets.value, strings)
  }

  method ReadStringOffsetSection(section: seq<Byte>, strings: map<nat, Bytes>) returns (r: Option<seq<Bytes>>)
    ensures r == StringOffsetSection(section, strings)
  {
    var reader := new Reader(section, 0);
    var offsets := ReadIntArray(reader);
    if offsets.None? {
      return None;
    }
    var found: seq<Bytes> := [];
    for i := 0 to |offsets.value|
      invariant |found| == i
      invariant forall j :: 0 <= j < i ==> offsets.value[j] in strings && found[j] == strings[offsets.value[j]]
    {
      var offset := offsets.value[i];
      if offset !in strings {
        return None;
      }
      found := found + [strings[offset]];
    }
    assert found == LookupStrings(offsets.value, strings).value;
    r := Some(found);
  }

  /** `ReadTypes`: every type name parsed by the given type parser. A name
      the parser rejects is stored as the null type (None). */
  method ReadTypes(section: seq<Byte>, strings: map<nat, Bytes>, parse: Bytes -> Option<Type>)
    returns (r: Option<seq<Option<Type>>>)
    ensures r.Some? <==> StringOffsetSection(section, strings).Some?
    ensures r.Some? ==> var names := StringOffsetSection(section, strings).value;
                        |r.value| == |names| && forall j :: 0 <= j < |names| ==> r.value[j] == parse(names[j])
  {
    var names := ReadStringOffsetSection(section, strings);
    if names.None? {
      return None;
    }
    var types: seq<Option<Type>> := [];
    for i := 0 to |names.value|
      invariant |types| == i
      invariant forall j :: 0 <= j < i ==> types[j] == parse(names.value[j])
    {
      types := types + [parse(names.value[i])];
    }
    r := Some(types);
  }

  /** A `size_t` index passed as an `int` parameter and compared with, or
      used as, a `size_t` again: the low 32 bits are kept as a two's
      complement `int`, and a negative one comes back as 2^64 plus it. */
  function IntIndex(index: nat): (r: nat)
  {
    var w := index % 0x1_0000_0000;
    if w < 0x8000_0000 then w else w - 0x1_0000_0000 + 0x1_0000_0000_0000_0000
  }

  /** `BEFFile::GetType`: the type at the index its `int` parameter
      receives, or the null type when that is not below the size. */
  function GetType(types: seq<Option<Type>>, index: nat): (r: Option<Type>)
    ensures r.Some? ==> IntIndex(index) < |types| && r == types[IntIndex(index)]
    ensures index < 0x8000_0000 ==> r == if index < |types| then types[index] else None
  {
    var i := IntIndex(index);
    if i < |types| then types[i] else None
  }

  /** An index below 2^31 survives the narrowing, and adding 2^32 to an
      index does not change the type it names. */
  lemma IntIndexWraps(index: nat)
    ensures index < 0x8000_0000 ==> IntIndex(index) == index
    ensures IntIndex(index + 0x1_0000_0000) == IntIndex(index)
    ensures 0x8000_0000 <= index % 0x1_0000_0000 ==> IntIndex(index) >= 0x1_0000_0000_0000_0000 - 0x8000_0000
  {
  }

  /** `GetType` reads slot `index mod 2^32` for a table smaller than
      2^63 entries, when that is below 2^31 and in range, and the null
      type otherwise. */
  lemma GetTypeNarrows(types: seq<Option<Type>>, index: nat)
    requires |types| < 0x8000_0000_0000_0000
    ensures GetType(types, index) ==
      var w := index % 0x1_0000_0000;
      if w < 0x8000_0000 && w < |types| then types[w] else None
  {
  }

  /** Index 2^32 + 1 names the type at index 1. */
  lemma GetTypeWrapsExample(types: seq<Option<Type>>)
    requires |types| >= 2
    ensures GetType(types, 0x1_0000_0001) == types[1]
  {
  }

  // ----- function index -----

  /** The `read_types` step of `ReadFunctionIndex`: every index must name
      a non-null type. */
  function TypesOf(indices: seq<nat>, types: seq<Option<Type>>): (r: Option<seq<Type>>)
    ensures r.Some? <==> forall j :: 0 <= j < |indices| ==> GetType(types, indices[j]).Some?
    ensures r.Some? ==> |r.value| == |indices|
                        && forall j :: 0 <= j < |indices| ==> Some(r.value[j]) == GetType(types, indices[j])
  {
    if indices == [] then Some([])
    else
      var t := GetType(types, indices[0]);
      var rest := TypesOf(indices[1..], types);
      if t.None? then None
      else if rest.None? then
        assert exists j :: 0 <= j < |indices[1..]| && GetType(types, indices[1..][j]).None?;
        None
      else Some([t.value] + rest.value)
  }

  function TypeListAt(data: seq<Byte>, pos: nat, types: seq<Option<Type>>): (r: (Option<seq<Type>>, nat))
    requires pos <= |data|
    ensures pos <= r.1 <= |data|
  {
    var (indices, p) := IntArrayAt(data, pos);
    if indices.None? then (None, p) else (TypesOf(indices.value, types), p)
  }

  /** One FunctionIndex entry: kind byte, body offset, name offset, then
      argument and result type lists. A name offset that names no string
      fails the entry. */
  function FunctionEntryAt(data: seq<Byte>, pos: nat, strings: map<nat, Bytes>, types: seq<Option<Type>>)
    : (r: (Option<BefFunction>, nat))
    requires pos <= |data|
    ensures pos <= r.1 <= |data|
  {
    var (kind, p1) := ByteAt(data, pos);
    if kind.None? then (None, p1)
    else
      var (offset, p2) := IntAt(data, p1);
      if offset.None? then (None, p2)
      else
        var (nameOffset, p3) := IntAt(data, p2);
        if nameOffset.None? || nameOffset.value !in strings then (None, p3)
        else
          var (args, p4) := TypeListAt(data, p3, types);
          if args.None? then (None, p4)
          else
            var (results, p5) := TypeListAt(data, p4, types);
            if results.None? then (None, p5)
            else (Some(BefFunction(offset.value, strings[nameOffset.value], kind.value, args.value, results.value)), p5)
  }

  function FunctionEntriesFrom(data: seq<Byte>, pos: nat, n: nat, strings: map<nat, Bytes>, types: seq<Option<Type>>)
    : (r: (Option<seq<BefFunction>>, nat))
    requires pos <= |data|
    ensures pos <= r.1 <= |data|
    ensures r.0.Some? ==> |r.0.value| == n
    decreases n
  {
    if n == 0 then (Some([]), pos)
    else
      var e := FunctionEntryAt(data, pos, strings, types);
      if e.0.None? then (None, e.1) else Prepend([e.0.value], FunctionEntriesFrom(data, e.1, n - 1, strings, types))
  }

  lemma EntriesStep(data: seq<Byte>, pos: nat, n: nat, strings: map<nat, Bytes>, types: seq<Option<Type>>)
    requires pos <= |data| && n > 0
    ensures var e := FunctionEntryAt(data, pos, strings, types);
            FunctionEntriesFrom(data, pos, n, strings, types)
            == if e.0.None? then (None, e.1) else Prepend([e.0.value], FunctionEntriesFrom(data, e.1, n - 1, strings, types))
  {
  }

  /** `ReadFunctionIndex`: a count, then that many entries. */
  function FunctionIndexOf(section: seq<Byte>, strings: map<nat, Bytes>, types: seq<Option<Type>>)
    : Option<seq<BefFunction>>
  {
    var (n, p) := IntAt(section, 0);
    if n.None? then None else FunctionEntriesFrom(section, p, n.value, strings, types).0
  }

  method ReadTypeList(reader: Reader, types: seq<Option<Type>>) returns (r: Option<seq<Type>>)
    requires reader.Valid()
    modifies reader
    ensures reader.Valid()
    ensures (r, reader.pos) == TypeListAt(reader.data, old(reader.pos), types)
  {
    var indices := ReadIntArray(reader);
    if indices.None? {
      return None;
    }
    var out: seq<Type> := [];
    for i := 0 to |indices.value|
      invariant |out| == i
      invariant forall j :: 0 <= j < i ==> Some(out[j]) == GetType(types, indices.value[j])
    {
      var t := GetType(types, indices.value[i]);
      if t.None? {
        return None;
      }
      out := out + [t.value];
    }
    assert out == TypesOf(indices.value, types).value;
    r := Some(out);
  }

  method ReadFunctionEntry(reader: Reader, strings: map<nat, Bytes>, types: seq<Option<Type>>)
    returns (r: Option<BefFunction>)
    requires reader.Valid()
    modifies reader
    ensures reader.Valid()
    ensures (r, reader.pos) == FunctionEntryAt(reader.data, old(reader.pos), strings, types)
  {
    var kind := reader.ReadByte();
    if kind.None? {
      return None;
    }
    var offset := reader.ReadInt();
    if offset.None? {
      return None;
    }
    var nameOffset := reader.ReadInt();
    if nameOffset.None? || nameOffset.value !in strings {
      return None;
    }
    var args := ReadTypeList(reader, types);
    if args.None? {
      return None;
    }
    var results := ReadTypeList(reader, types);
    if results.None? {
      return None;
    }
    r := Some(BefFunction(offset.value, strings[nameOffset.value], kind.value, args.value, results.value));
  }

  method ReadFunctionIndex(section: seq<Byte>, strings: map<nat, Bytes>, types: seq<Option<Type>>)
    returns (r: Option<seq<BefFunction>>)
    ensures r == FunctionIndexOf(section, strings, types)
  {
    var reader := new Reader(section, 0);
    var n := reader.ReadInt();
    if n.None? {
      return None;
    }
    var entries: seq<BefFunction> := [];
    ghost var all := FunctionEntriesFrom(section, reader.pos, n.value, strings, types);
    PrependNothing(all);
    var i := 0;
    while i < n.value
      invariant 0 <= i <= n.value && |entries| == i
      invariant reader.Valid() && reader.data == section
      invariant all == Prepend(entries, FunctionEntriesFrom(section, reader.pos, n.value - i, strings, types))
    {
      ghost var before := reader.pos;
      var f := ReadFunctionEntry(reader, strings, types);
      EntriesStep(section, before, n.value - i, strings, types);
      if f.None? {
        return None;
      }
      PrependTwice(entries, [f.value], FunctionEntriesFrom(section, reader.pos, n.value - i - 1, strings, types));
      entries := entries + [f.value];
      i := i + 1;
    }
    assert entries + [] == entries;
    r := Some(entries);
  }
  // ----- the encoder side of the function index -----

  /** A FunctionIndex entry as a BEF writer emits it: the kind, the body
      offset, the offset of the name in the Strings section, and the
      indices of the argument and result types in the Types table. */
  datatype FunctionEntry = FunctionEntry(
    kind: Byte, functionOffset: nat, nameOffset: nat, argumentTypes: seq<nat>, resultTypes: seq<nat>)

  function EntryBytes(e: FunctionEntry): seq<Byte>
  {
    [e.kind] + VbrBytes(e.functionOffset) + VbrBytes(e.nameOffset)
      + IntArrayBytes(e.argumentTypes) + IntArrayBytes(e.resultTypes)
  }

  function EntriesBytes(es: seq<FunctionEntry>): seq<Byte>
  {
    if es == [] then [] else EntryBytes(es[0]) + EntriesBytes(es[1..])
  }

  /** The FunctionIndex section: the count of entries, then the entries. */
  function FunctionIndexBytes(es: seq<FunctionEntry>): seq<Byte>
  {
    VbrBytes(|es|) + EntriesBytes(es)
  }

  /** The entry names a string and only non-null types. */
  predicate EntryDecodes(e: FunctionEntry, strings: map<nat, Bytes>, types: seq<Option<Type>>)
  {
    e.nameOffset in strings && TypesOf(e.argumentTypes, types).Some? && TypesOf(e.resultTypes, types).Some?
  }

  /** The function an entry describes, once its name and types are looked up. */
  function DecodedEntry(e: FunctionEntry, strings: map<nat, Bytes>, types: seq<Option<Type>>): BefFunction
    requires EntryDecodes(e, strings, types)
  {
    BefFunction(e.functionOffset, strings[e.nameOffset], e.kind,
                TypesOf(e.argumentTypes, types).value, TypesOf(e.resultTypes, types).value)
  }

  /** Every entry names a string and only non-null types. */
  predicate EntriesDecode(es: seq<FunctionEntry>, strings: map<nat, Bytes>, types: seq<Option<Type>>)
  {
    es == [] || (EntryDecodes(es[0], strings, types) && EntriesDecode(es[1..], strings, types))
  }

  function DecodedEntries(es: seq<FunctionEntry>, strings: map<nat, Bytes>, types: seq<Option<Type>>): (fs: seq<BefFunction>)
    requires EntriesDecode(es, strings, types)
    ensures |fs| == |es|
  {
    if es == [] then [] else [DecodedEntry(es[0], strings, types)] + DecodedEntries(es[1..], strings, types)
  }

  /** A type list written at `p` is read back when every index names a
      type. */
  lemma TypeListReadAt(data: seq<Byte>, p: nat, indices: seq<nat>, types: seq<Option<Type>>)
    requires p + |IntArrayBytes(indices)| <= |data| && data[p..p + |IntArrayBytes(indices)|] == IntArrayBytes(indices)
    ensures TypeListAt(data, p, types).0 == TypesOf(indices, types)
    ensures TypeListAt(data, p, types).1 == p + |IntArrayBytes(indices)|
  {
    IntArrayReadAt(data, p, indices);
  }

  /** `data` holds the entry `e` from `p` on. */
  predicate EntryLayout(data: seq<Byte>, p: nat, e: FunctionEntry)
  {
    p + |EntryBytes(e)| <= |data| && data[p..p + |EntryBytes(e)|] == EntryBytes(e)
  }

  /** The five fields of an entry, each where the one before it ends: the
      kind byte at `p`, then fields from `q1`, `p2`, `p3` and `p4` on, up to
      `p5`. */
  lemma EntryFieldsAt(data: seq<Byte>, p: nat, e: FunctionEntry) returns (q1: nat, p2: nat, p3: nat, p4: nat, p5: nat)
    requires EntryLayout(data, p, e)
    ensures p < |data| && data[p] == e.kind && q1 == p + 1 && p5 == p + |EntryBytes(e)|
    ensures p2 == q1 + |VbrBytes(e.functionOffset)| <= |data| && data[q1..q1 + |VbrBytes(e.functionOffset)|] == VbrBytes(e.functionOffset)
    ensures p3 == p2 + |VbrBytes(e.nameOffset)| <= |data| && data[p2..p2 + |VbrBytes(e.nameOffset)|] == VbrBytes(e.nameOffset)
    ensures p4 == p3 + |IntArrayBytes(e.argumentTypes)| <= |data|
            && data[p3..p3 + |IntArrayBytes(e.argumentTypes)|] == IntArrayBytes(e.argumentTypes)
    ensures p5 == p4 + |IntArrayBytes(e.resultTypes)| <= |data|
            && data[p4..p4 + |IntArrayBytes(e.resultTypes)|] == IntArrayBytes(e.resultTypes)
  {
    var a := [e.kind];
    var b := VbrBytes(e.functionOffset);
    var c := VbrBytes(e.nameOffset);
    var d := IntArrayBytes(e.argumentTypes);
    q1, p2, p3, p4, p5 := p + 1, p + 1 + |b|, p + 1 + |b| + |c|, p + 1 + |b| + |c| + |d|, p + |EntryBytes(e)|;
    RangeSplit(data, p, a + b + c + d, IntArrayBytes(e.resultTypes));
    RangeSplit(data, p, a + b + c, d);
    RangeSplit(data, p, a + b, c);
    RangeSplit(data, p, a, b);
    assert data[p] == e.kind by { assert data[p] == data[p..p + 1][0]; }
  }

  /** Fields read one after the other from `p` make up the entry they
      describe. */
  lemma EntryOfFields(data: seq<Byte>, p: nat, q1: nat, p2: nat, p3: nat, p4: nat, p5: nat,
                      kind: Byte, offset: nat, name: nat, args: seq<Type>, results: seq<Type>,
                      strings: map<nat, Bytes>, types: seq<Option<Type>>)
    requires p < |data| && data[p] == kind && q1 == p + 1
    requires IntAt(data, q1).0 == Some(offset) && IntAt(data, q1).1 == p2 && p2 <= |data|
    requires IntAt(data, p2).0 == Some(name) && IntAt(data, p2).1 == p3 && p3 <= |data| && name in strings
    requires TypeListAt(data, p3, types).0 == Some(args) && TypeListAt(data, p3, types).1 == p4 && p4 <= |data|
    requires TypeListAt(data, p4, types).0 == Some(results) && TypeListAt(data, p4, types).1 == p5
    ensures FunctionEntryAt(data, p, strings, types).0 == Some(BefFunction(offset, strings[name], kind, args, results))
    ensures FunctionEntryAt(data, p, strings, types).1 == p5
  {
  }

  /** An entry written at `p` is read back as the function it describes. */
  lemma EntryReadAt(data: seq<Byte>, p: nat, e: FunctionEntry, strings: map<nat, Bytes>, types: seq<Option<Type>>)
    requires EntryLayout(data, p, e) && EntryDecodes(e, strings, types)
    ensures FunctionEntryAt(data, p, strings, types).0 == Some(DecodedEntry(e, strings, types))
    ensures FunctionEntryAt(data, p, strings, types).1 == p + |EntryBytes(e)|
  {
    var q1, p2, p3, p4, p5 := EntryFieldsAt(data, p, e);
    VbrReadAt(data, q1, e.functionOffset);
    VbrReadAt(data, p2, e.nameOffset);
    TypeListReadAt(data, p3, e.argumentTypes, types);
    TypeListReadAt(data, p4, e.resultTypes, types);
    EntryOfFields(data, p, q1, p2, p3, p4, p5, e.kind, e.functionOffset, e.nameOffset,
                  TypesOf(e.argumentTypes, types).value, TypesOf(e.resultTypes, types).value, strings, types);
  }

  /** Fields read from `p` whose name offset names no string make no entry. */
  lemma EntryOfUnnamedFields(data: seq<Byte>, p: nat, q1: nat, p2: nat, p3: nat,
                             kind: Byte, offset: nat, name: nat, strings: map<nat, Bytes>, types: seq<Option<Type>>)
    requires p < |data| && data[p] == kind && q1 == p + 1
    requires IntAt(data, q1).0 == Some(offset) && IntAt(data, q1).1 == p2 && p2 <= |data|
    requires IntAt(data, p2).0 == Some(name) && name !in strings
    ensures FunctionEntryAt(data, p, strings, types).0 == None
  {
  }

  /** An entry naming no string fails to read, wherever it is written. */
  lemma EntryWithoutNameFails(data: seq<Byte>, p: nat, e: FunctionEntry, strings: map<nat, Bytes>, types: seq<Option<Type>>)
    requires EntryLayout(data, p, e) && e.nameOffset !in strings
    ensures FunctionEntryAt(data, p, strings, types).0 == None
  {
    var q1, p2, p3, p4, p5 := EntryFieldsAt(data, p, e);
    VbrReadAt(data, q1, e.functionOffset);
    VbrReadAt(data, p2, e.nameOffset);
    EntryOfUnnamedFields(data, p, q1, p2, p3, e.kind, e.functionOffset, e.nameOffset, strings, types);
  }

  /** `data` holds the entries `es` one after the other from `p` on. */
  predicate EntriesLayout(data: seq<Byte>, p: nat, es: seq<FunctionEntry>)
    decreases |es|
  {
    if es == [] then p <= |data|
    else EntryLayout(data, p, es[0]) && EntriesLayout(data, p + |EntryBytes(es[0])|, es[1..])
  }

  /** Entries written as one block lie one after the other. */
  lemma {:induction false} EntriesLayoutOf(data: seq<Byte>, p: nat, es: seq<FunctionEntry>)
    requires p + |EntriesBytes(es)| <= |data| && data[p..p + |EntriesBytes(es)|] == EntriesBytes(es)
    ensures EntriesLayout(data, p, es)
    decreases |es|
  {
    if es != [] {
      assert EntriesBytes(es) == EntryBytes(es[0]) + EntriesBytes(es[1..]);
      RangeSplit(data, p, EntryBytes(es[0]), EntriesBytes(es[1..]));
      EntriesLayoutOf(data, p + |EntryBytes(es[0])|, es[1..]);
    }
  }

  /** Entries written one after the other from `p` are read back as the
      functions they describe. */
  lemma {:induction false} EntriesReadAt(data: seq<Byte>, p: nat, es: seq<FunctionEntry>,
                                         strings: map<nat, Bytes>, types: seq<Option<Type>>)
    requires EntriesLayout(data, p, es) && EntriesDecode(es, strings, types)
    ensures p <= |data|
    ensures FunctionEntriesFrom(data, p, |es|, strings, types).0 == Some(DecodedEntries(es, strings, types))
    decreases |es|
  {
    if es != [] {
      var next, rest := EntriesTailAt(data, p, es, strings, types);
      EntriesReadAt(data, next, rest, strings, types);
      var f := EntriesHeadAt(data, p, es, next, rest, strings, types);
      EntriesAtCons(data, p, |es|, f, next, |rest|, DecodedEntries(rest, strings, types),
                    DecodedEntries(es, strings, types), strings, types);
    }
  }

  /** The entries after the first of written entries start where it ends. */
  lemma EntriesTailAt(data: seq<Byte>, p: nat, es: seq<FunctionEntry>, strings: map<nat, Bytes>, types: seq<Option<Type>>)
    returns (next: nat, rest: seq<FunctionEntry>)
    requires EntriesLayout(data, p, es) && EntriesDecode(es, strings, types) && es != []
    ensures next == p + |EntryBytes(es[0])| && rest == es[1..] && |rest| < |es|
    ensures EntriesDecode(rest, strings, types) && EntriesLayout(data, next, rest)
  {
    next := p + |EntryBytes(es[0])|;
    rest := es[1..];
  }

  /** The first of written entries is read back as `f`. */
  lemma EntriesHeadAt(data: seq<Byte>, p: nat, es: seq<FunctionEntry>, next: nat, rest: seq<FunctionEntry>,
                      strings: map<nat, Bytes>, types: seq<Option<Type>>)
    returns (f: BefFunction)
    requires EntriesLayout(data, p, es) && EntriesDecode(es, strings, types) && es != []
    requires next == p + |EntryBytes(es[0])| && rest == es[1..]
    ensures |es| == |rest| + 1 && p <= next <= |data|
    ensures FunctionEntryAt(data, p, strings, types).0 == Some(f) && FunctionEntryAt(data, p, strings, types).1 == next
    ensures DecodedEntries(es, strings, types) == [f] + DecodedEntries(rest, strings, types)
  {
    f := DecodedEntry(es[0], strings, types);
    EntryReadAt(data, p, es[0], strings, types);
  }

  /** A read of `count` entries: the first, then the `m` others. */
  lemma EntriesAtCons(data: seq<Byte>, p: nat, count: nat, f: BefFunction, n: nat, m: nat,
                      rest: seq<BefFunction>, all: seq<BefFunction>,
                      strings: map<nat, Bytes>, types: seq<Option<Type>>)
    requires p <= n <= |data| && count == m + 1 && all == [f] + rest
    requires FunctionEntryAt(data, p, strings, types).0 == Some(f) && FunctionEntryAt(data, p, strings, types).1 == n
    requires FunctionEntriesFrom(data, n, m, strings, types).0 == Some(rest)
    ensures FunctionEntriesFrom(data, p, count, strings, types).0 == Some(all)
  {
    EntriesStepAt(data, p, count, f, n, m, strings, types);
  }

  /** Reading `count` entries when the first one reads as `f` and ends at
      `n`: `f` followed by the `m` entries read from `n`. */
  lemma EntriesStepAt(data: seq<Byte>, p: nat, count: nat, f: BefFunction, n: nat, m: nat,
                      strings: map<nat, Bytes>, types: seq<Option<Type>>)
    requires p <= n <= |data| && count == m + 1
    requires FunctionEntryAt(data, p, strings, types).0 == Some(f) && FunctionEntryAt(data, p, strings, types).1 == n
    ensures FunctionEntriesFrom(data, p, count, strings, types).0
            == Prepend([f], FunctionEntriesFrom(data, n, m, strings, types)).0
  {
    EntriesStep(data, p, m + 1, strings, types);
  }

  /** Decoding a written function index gives back the functions its
      entries describe. */
  lemma FunctionIndexRoundTrip(es: seq<FunctionEntry>, post: seq<Byte>, strings: map<nat, Bytes>, types: seq<Option<Type>>)
    requires EntriesDecode(es, strings, types)
    ensures FunctionIndexOf(FunctionIndexBytes(es) + post, strings, types) == Some(DecodedEntries(es, strings, types))
  {
    var data := FunctionIndexBytes(es) + post;
    RangeSplit(data, 0, VbrBytes(|es|), EntriesBytes(es));
    VbrReadAt(data, 0, |es|);
    EntriesLayoutOf(data, |VbrBytes(|es|)|, es);
    EntriesReadAt(data, |VbrBytes(|es|)|, es, strings, types);
  }
}
