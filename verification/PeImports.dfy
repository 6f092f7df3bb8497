/**
 The release audit reads the DLL names a PE32+ executable imports, from the Import Directory
 Table and the Delay-Load Directory Table of the Microsoft PE Format, without loading it.

 The file is any sequence of bytes, and every address in it is untrusted. All refusals are
 alike to the caller, so a reader answers `None` for each of them.
 */
module PeImports {

  import opened Common

  type Byte = x: int | 0 <= x < 256

  type Bytes = seq<Byte>

  // ------------------------------------------------------------------ bounded reading

  /** An unsigned little-endian number. */
  function Number(data: Bytes): nat {
    if data == [] then 0 else data[0] + 256 * Number(data[1..])
  }

  function Number32(data: Bytes, at: nat): nat
    requires at + 4 <= |data|
  {
    Number(data[at..at + 4])
  }

  /** `unpack` for a single number of `size` bytes. */
  function Unpack(data: Bytes, at: int, size: nat): Option<nat> {
    if at < 0 || at + size > |data| then None else Some(Number(data[at..at + size]))
  }

  /** `unpack` for `count` consecutive 32-bit numbers. */
  function Unpack32s(data: Bytes, at: int, count: nat): (r: Option<seq<nat>>)
    ensures r.Some? <==> 0 <= at && at + 4 * count <= |data|
    ensures r.Some? ==> |r.value| == count
  {
    if at < 0 || at + 4 * count > |data| then None
    else Some(seq(count, k requires 0 <= k < count => Number32(data, at + 4 * k)))
  }

  /** A Python slice, which is cut short at the end of the data. */
  function Slice(data: Bytes, at: nat, size: nat): Bytes {
    if at >= |data| then [] else if at + size > |data| then data[at..] else data[at..at + size]
  }

  // ---------------------------------------------------------------------- the headers

  const MZ: Bytes := [0x4D, 0x5A]
  const PE: Bytes := [0x50, 0x45, 0, 0]
  const AMD64 := 0x8664
  const PE32_PLUS := 0x20B

  datatype Header = Header(optional: nat, optionalSize: nat, count: nat, imageBase: nat, headers: nat)

  function ReadHeader(data: Bytes): Option<Header> {
    if Slice(data, 0, 2) != MZ then None else
    var pe := Unpack(data, 0x3C, 4);
    if pe.None? || Slice(data, pe.value, 4) != PE then None else
    var machine, count := Unpack(data, pe.value + 4, 2), Unpack(data, pe.value + 6, 2);
    var optionalSize := Unpack(data, pe.value + 20, 2);
    var optional := pe.value + 24;
    var magic := Unpack(data, optional, 2);
    if machine.None? || count.None? || optionalSize.None? || magic.None? then None else
    if machine.value != AMD64 || magic.value != PE32_PLUS || count.value > 96 || optionalSize.value < 112 then None else
    var directories := Unpack(data, optional + 108, 4);
    if directories.None? || directories.value < 14 || optionalSize.value < 112 + 14 * 8 then None else
    var imageBase, headers := Unpack(data, optional + 24, 8), Unpack(data, optional + 60, 4);
    if imageBase.None? || headers.None? then None else
    Some(Header(optional, optionalSize.value, count.value, imageBase.value, headers.value))
  }

  datatype Section = Section(start: nat, size: nat, raw: nat)

  function SectionAt(data: Bytes, h: Header, i: nat): Option<Section> {
    var fields := Unpack32s(data, h.optional + h.optionalSize + i * 40 + 8, 4);
    if fields.None? || fields.value[3] + fields.value[2] > |data| then None
    else Some(Section(fields.value[1], fields.value[2], fields.value[3]))
  }

  /** The section table: `count` rows, each backed by bytes of the file. */
  ghost predicate SectionTable(data: Bytes, h: Header, sections: seq<Section>) {
    |sections| == h.count && forall i :: 0 <= i < |sections| ==> SectionAt(data, h, i) == Some(sections[i])
  }

  method ReadSections(data: Bytes, h: Header) returns (r: Option<seq<Section>>)
    ensures r.Some? ==> SectionTable(data, h, r.value)
    ensures r.None? ==> forall sections :: !SectionTable(data, h, sections)
  {
    var sections: seq<Section> := [];
    for i := 0 to h.count
      invariant |sections| == i
      invariant forall j :: 0 <= j < i ==> SectionAt(data, h, j) == Some(sections[j])
    {
      var section := SectionAt(data, h, i);
      if section.None? {
        return None;
      }
      sections := sections + [section.value];
    }
    r := Some(sections);
  }

  // ------------------------------------------------------- from memory to file offsets

  /** A file whose headers and section table have been read. */
  datatype Image = Image(data: Bytes, header: Header, sections: seq<Section>)

  ghost predicate Loaded(m: Image) {
    ReadHeader(m.data) == Some(m.header) && SectionTable(m.data, m.header, m.sections)
  }

  predicate InHeaders(m: Image, rva: int) {
    0 <= rva < m.header.headers && rva < |m.data|
  }

  predicate Holds(s: Section, rva: int) {
    s.start <= rva < s.start + s.size
  }

  /** Reference: headers map to themselves, anything else through the first section that holds it. */
  ghost predicate Maps(m: Image, rva: int, offset: int) {
    if InHeaders(m, rva) then offset == rva
    else exists i: nat :: FirstHolds(m.sections, i, rva) && offset == m.sections[i].raw + rva - m.sections[i].start
  }

  ghost predicate FirstHolds(sections: seq<Section>, i: nat, rva: int) {
    i < |sections| && Holds(sections[i], rva) && forall j :: 0 <= j < i ==> !Holds(sections[j], rva)
  }

  method Offset(m: Image, rva: int) returns (r: Option<int>)
    ensures r.Some? ==> Maps(m, rva, r.value)
    ensures r.None? ==> forall offset :: !Maps(m, rva, offset)
  {
    if 0 <= rva < (if m.header.headers < |m.data| then m.header.headers else |m.data|) {
      return Some(rva);
    }
    for i := 0 to |m.sections|
      invariant forall j :: 0 <= j < i ==> !Holds(m.sections[j], rva)
    {
      var s := m.sections[i];
      if s.start <= rva < s.start + s.size {
        assert FirstHolds(m.sections, i, rva);
        return Some(s.raw + rva - s.start);
      }
    }
    r := None;
  }

  /** Every address that maps at all, negative or not, lands inside the file. */
  lemma MapsInside(m: Image, rva: int, offset: int)
    requires Loaded(m) && Maps(m, rva, offset)
    ensures 0 <= rva && 0 <= offset < |m.data|
  {
    if !InHeaders(m, rva) {
      var i: nat :| FirstHolds(m.sections, i, rva) && offset == m.sections[i].raw + rva - m.sections[i].start;
      assert SectionAt(m.data, m.header, i) == Some(m.sections[i]);
    }
  }

  lemma MapsOnce(m: Image, rva: int, a: int, b: int)
    requires Maps(m, rva, a) && Maps(m, rva, b)
    ensures a == b
  {
    if !InHeaders(m, rva) {
      var i: nat :| FirstHolds(m.sections, i, rva) && a == m.sections[i].raw + rva - m.sections[i].start;
      var j: nat :| FirstHolds(m.sections, j, rva) && b == m.sections[j].raw + rva - m.sections[j].start;
      assert i == j;
    }
  }

  // ---------------------------------------------------------------------------- names

  function Lower(c: char): char {
    if 'A' <= c <= 'Z' then 'a' + (c - 'A') else c
  }

  function LowerAll(s: string): (r: string)
    ensures |r| == |s|
  {
    seq(|s|, i requires 0 <= i < |s| => Lower(s[i]))
  }

  predicate NameChar(c: char) {
    'A' <= c <= 'Z' || 'a' <= c <= 'z' || '0' <= c <= '9' || c == '_' || c == '.' || c == '-'
  }

  /** One or more name characters and then `.dll`, in either case. */
  predicate DllName(s: string) {
    |s| > 4 && (forall c | c in s :: NameChar(c)) && LowerAll(s[|s| - 4..]) == ".dll"
  }

  /** The NUL-terminated DLL name stored at an offset, terminator among the first 256 bytes. */
  ghost predicate Named(data: Bytes, at: int, name: string) {
    && 0 <= at && at + |name| < |data| && |name| < 256
    && data[at + |name|] == 0
    && (forall k :: 0 <= k < |name| ==> data[at + k] == name[k] as int)
    && DllName(name)
  }

  lemma NameByte(data: Bytes, at: int, name: string, k: nat)
    requires Named(data, at, name) && k < |name|
    ensures data[at + k] != 0
  {
    assert name[k] in name;
  }

  lemma NamedOnce(data: Bytes, at: int, a: string, b: string)
    requires Named(data, at, a) && Named(data, at, b)
    ensures a == b
  {
    if |a| < |b| {
      NameByte(data, at, b, |a|);
    } else if |b| < |a| {
      NameByte(data, at, a, |b|);
    }
  }

  method ReadName(data: Bytes, start: nat) returns (r: Option<string>)
    requires start < |data|
    ensures r.Some? ==> Named(data, start, r.value)
    ensures r.None? ==> forall name :: !Named(data, start, name)
  {
    var stop := if start + 256 < |data| then start + 256 else |data|;
    var end := start;
    var text := "";
    while end < stop && data[end] != 0
      invariant start <= end <= stop && |text| == end - start
      invariant forall k :: 0 <= k < |text| ==> data[start + k] == text[k] as int != 0
    {
      text := text + [data[end] as char];
      end := end + 1;
    }
    if end < stop && DllName(text) {
      return Some(text);
    }
    forall name
      ensures !Named(data, start, name)
    {
      if Named(data, start, name) {
        NameIsScan(data, start, name, text);
      }
    }
    r := None;
  }

  lemma ScanByte(data: Bytes, start: nat, text: string, k: nat)
    requires k < |text| && start + |text| <= |data|
    requires forall k :: 0 <= k < |text| ==> data[start + k] == text[k] as int != 0
    ensures data[start + k] != 0
  {
    assert text[k] as int != 0;
  }

  lemma NameIsScan(data: Bytes, start: nat, name: string, text: string)
    requires Named(data, start, name)
    requires start + |text| <= |data| && |text| <= 256
    requires forall k :: 0 <= k < |text| ==> data[start + k] == text[k] as int != 0
    requires start + |text| < |data| && |text| < 256 ==> data[start + |text|] == 0
    ensures text == name && start + |text| < |data| && |text| < 256
  {
    if |text| < |name| {
      NameByte(data, start, name, |text|);
    } else if |name| < |text| {
      ScanByte(data, start, text, |name|);
    }
  }

  // ---------------------------------------------------------------- descriptor tables

  datatype Table = ImportTable | DelayTable {
    function Slot(): nat {
      if this.ImportTable? then 1 else 13
    }

    function Width(): nat {
      if this.ImportTable? then 20 else 32
    }
  }

  ghost predicate RowAt(m: Image, t: Table, rva: nat, i: nat, fields: seq<nat>) {
    exists offset :: Maps(m, rva + i * t.Width(), offset) && Unpack32s(m.data, offset, t.Width() / 4) == Some(fields)
  }

  predicate AllZero(fields: seq<nat>) {
    forall f | f in fields :: f == 0
  }

  /** The address of a descriptor's DLL name. Old delay descriptors hold absolute addresses. */
  function NameRva(m: Image, t: Table, fields: seq<nat>): Option<int>
    requires |fields| == t.Width() / 4
  {
    if t.ImportTable? then Some(fields[3])
    else if fields[0] == 1 then Some(fields[1])
    else if fields[0] == 0 then Some(fields[1] - m.header.imageBase)
    else None
  }

  ghost predicate Descriptor(m: Image, t: Table, fields: seq<nat>, name: string) {
    && |fields| == t.Width() / 4
    && !AllZero(fields)
    && NameRva(m, t, fields).Some?
    && exists offset :: Maps(m, NameRva(m, t, fields).value, offset) && Named(m.data, offset, name)
  }

  /** Row `i` of a table describes the DLL `name`. */
  ghost predicate Describes(m: Image, t: Table, rva: nat, i: nat, name: string) {
    exists fields :: RowAt(m, t, rva, i, fields) && Descriptor(m, t, fields, name)
  }

  /** Row `i` of a table is all zero. */
  ghost predicate Ends(m: Image, t: Table, rva: nat, i: nat) {
    exists fields :: RowAt(m, t, rva, i, fields) && AllZero(fields)
  }

  ghost predicate Rows(m: Image, t: Table, rva: nat, names: seq<string>) {
    forall i :: 0 <= i < |names| ==> Describes(m, t, rva, i, names[i])
  }

  function Entry(m: Image, t: Table): (r: Option<seq<nat>>)
    ensures r.Some? ==> |r.value| == 2
  {
    Unpack32s(m.data, m.header.optional + 112 + t.Slot() * 8, 2)
  }

  /** A table within its declared size: the described names, then an all-zero row. */
  ghost predicate Terminated(m: Image, t: Table, rva: nat, size: nat, names: seq<string>) {
    && rva != 0 && t.Width() <= size <= 65536
    && (|names| + 1) * t.Width() <= size
    && Rows(m, t, rva, names)
    && Ends(m, t, rva, |names|)
  }

  /** Reference: the names of all descriptors before the first all-zero one. */
  ghost predicate Listing(m: Image, t: Table, names: seq<string>) {
    && Entry(m, t).Some?
    && var rva, size := Entry(m, t).value[0], Entry(m, t).value[1];
    if rva == 0 && size == 0 then names == [] else Terminated(m, t, rva, size, names)
  }

  lemma RowOnce(m: Image, t: Table, rva: nat, i: nat, a: seq<nat>, b: seq<nat>)
    requires RowAt(m, t, rva, i, a) && RowAt(m, t, rva, i, b)
    ensures a == b
  {
    var o :| Maps(m, rva + i * t.Width(), o) && Unpack32s(m.data, o, t.Width() / 4) == Some(a);
    var p :| Maps(m, rva + i * t.Width(), p) && Unpack32s(m.data, p, t.Width() / 4) == Some(b);
    MapsOnce(m, rva + i * t.Width(), o, p);
  }

  lemma DescribesNotEnds(m: Image, t: Table, rva: nat, i: nat, name: string)
    requires Describes(m, t, rva, i, name)
    ensures !Ends(m, t, rva, i)
  {
    var fields :| RowAt(m, t, rva, i, fields) && Descriptor(m, t, fields, name);
    forall other | RowAt(m, t, rva, i, other)
      ensures !AllZero(other)
    {
      RowOnce(m, t, rva, i, fields, other);
    }
  }

  lemma DescriptorOnce(m: Image, t: Table, fields: seq<nat>, a: string, b: string)
    requires Descriptor(m, t, fields, a) && Descriptor(m, t, fields, b)
    ensures a == b
  {
    var rva := NameRva(m, t, fields).value;
    var o :| Maps(m, rva, o) && Named(m.data, o, a);
    var p :| Maps(m, rva, p) && Named(m.data, p, b);
    MapsOnce(m, rva, o, p);
    NamedOnce(m.data, o, a, b);
  }

  lemma DescribesOnce(m: Image, t: Table, rva: nat, i: nat, a: string, b: string)
    requires Describes(m, t, rva, i, a) && Describes(m, t, rva, i, b)
    ensures a == b
  {
    var f :| RowAt(m, t, rva, i, f) && Descriptor(m, t, f, a);
    var g :| RowAt(m, t, rva, i, g) && Descriptor(m, t, g, b);
    RowOnce(m, t, rva, i, f, g);
    DescriptorOnce(m, t, f, a, b);
  }

  lemma TerminatedExtends(m: Image, t: Table, rva: nat, names: seq<string>, size: nat, whole: seq<string>)
    requires Rows(m, t, rva, names) && Terminated(m, t, rva, size, whole)
    ensures |names| <= |whole| && names == whole[..|names|]
  {
    if |whole| < |names| {
      DescribesNotEnds(m, t, rva, |whole|, names[|whole|]);
    }
    forall i | 0 <= i < |names|
      ensures names[i] == whole[i]
    {
      DescribesOnce(m, t, rva, i, names[i], whole[i]);
    }
  }

  /** A table has one listing. */
  lemma ListingOnce(m: Image, t: Table, a: seq<string>, b: seq<string>)
    requires Listing(m, t, a) && Listing(m, t, b)
    ensures a == b
  {
    var rva, size := Entry(m, t).value[0], Entry(m, t).value[1];
    if rva != 0 || size != 0 {
      TerminatedExtends(m, t, rva, a, size, b);
      TerminatedExtends(m, t, rva, b, size, a);
    }
  }

  datatype Found = Bad | End | Dll(name: string)

  method ReadRow(m: Image, t: Table, rva: nat, i: nat) returns (r: Found)
    requires Loaded(m)
    ensures r.End? <==> Ends(m, t, rva, i)
    ensures r.Dll? ==> Describes(m, t, rva, i, r.name)
    ensures r.Bad? ==> forall name :: !Describes(m, t, rva, i, name)
  {
    var at := rva + i * t.Width();
    var offset := Offset(m, at);
    if offset.None? {
      return Bad;
    }
    var row := Unpack32s(m.data, offset.value, t.Width() / 4);
    RowIs(m, t, rva, i, offset.value, row);
    if row.None? {
      return Bad;
    }
    if AllZero(row.value) {
      return End;
    }
    var dll := ReadDescriptor(m, t, row.value);
    if dll.None? {
      return Bad;
    }
    DescribesNotEnds(m, t, rva, i, dll.value);
    r := Dll(dll.value);
  }

  lemma RowIs(m: Image, t: Table, rva: nat, i: nat, offset: int, row: Option<seq<nat>>)
    requires Maps(m, rva + i * t.Width(), offset) && row == Unpack32s(m.data, offset, t.Width() / 4)
    ensures forall fields :: RowAt(m, t, rva, i, fields) <==> row == Some(fields)
  {
    var at := rva + i * t.Width();
    forall o | Maps(m, at, o)
      ensures o == offset
    {
      MapsOnce(m, at, o, offset);
    }
  }

  method ReadDescriptor(m: Image, t: Table, fields: seq<nat>) returns (r: Option<string>)
    requires Loaded(m) && |fields| == t.Width() / 4 && !AllZero(fields)
    ensures r.Some? ==> Descriptor(m, t, fields, r.value)
    ensures r.None? ==> forall name :: !Descriptor(m, t, fields, name)
  {
    var rva := NameRva(m, t, fields);
    if rva.None? {
      return None;
    }
    var start := Offset(m, rva.value);
    if start.None? {
      return None;
    }
    MapsInside(m, rva.value, start.value);
    r := ReadName(m.data, start.value);
    if r.None? {
      forall name
        ensures !Descriptor(m, t, fields, name)
      {
        forall o | Maps(m, rva.value, o)
          ensures o == start.value
        {
          MapsOnce(m, rva.value, o, start.value);
        }
      }
    }
  }

  /** The inner loop over one directory. It adds to a set; the ghost result keeps the rows. */
  method ReadTable(m: Image, t: Table, before: set<string>) returns (ok: bool, imports: set<string>, ghost names: seq<string>)
    requires Loaded(m)
    ensures ok ==> Listing(m, t, names) && imports == before + Elements(names)
    ensures !ok ==> forall other :: !Listing(m, t, other)
  {
    imports, names := before, [];
    var entry := Entry(m, t);
    if entry.None? {
      return false, imports, names;
    }
    var rva, size := entry.value[0], entry.value[1];
    if rva == 0 && size == 0 {
      return true, imports, names;
    }
    if rva == 0 || size < t.Width() || size > 65536 {
      return false, imports, names;
    }
    var i := 0;
    while i * t.Width() < size - t.Width() + 1
      invariant i == |names| && i * t.Width() <= size
      invariant Rows(m, t, rva, names)
      invariant imports == before + Elements(names)
      decreases size - i * t.Width()
    {
      var found := ReadRow(m, t, rva, i);
      match found {
        case End =>
          return true, imports, names;
        case Bad =>
          NoListing(m, t, names);
          return false, imports, names;
        case Dll(name) =>
          imports, names := imports + {name}, names + [name];
      }
      i := i + 1;
    }
    TooLong(m, t, names);
    ok := false;
  }

  lemma NoListing(m: Image, t: Table, names: seq<string>)
    requires Entry(m, t).Some? && !(Entry(m, t).value[0] == 0 && Entry(m, t).value[1] == 0)
    requires var rva := Entry(m, t).value[0];
      && Rows(m, t, rva, names) && !Ends(m, t, rva, |names|)
      && forall name :: !Describes(m, t, rva, |names|, name)
    ensures forall other :: !Listing(m, t, other)
  {
    var rva, size := Entry(m, t).value[0], Entry(m, t).value[1];
    forall other
      ensures !Terminated(m, t, rva, size, other)
    {
      if Terminated(m, t, rva, size, other) {
        TerminatedExtends(m, t, rva, names, size, other);
        if |other| > |names| {
          DescribedHere(m, t, rva, other, |names|);
        }
      }
    }
  }

  lemma DescribedHere(m: Image, t: Table, rva: nat, names: seq<string>, i: nat)
    requires Rows(m, t, rva, names) && i < |names|
    ensures Describes(m, t, rva, i, names[i])
  {
  }

  lemma TooLong(m: Image, t: Table, names: seq<string>)
    requires Entry(m, t).Some? && !(Entry(m, t).value[0] == 0 && Entry(m, t).value[1] == 0)
    requires Rows(m, t, Entry(m, t).value[0], names) && (|names| + 1) * t.Width() > Entry(m, t).value[1]
    ensures forall other :: !Listing(m, t, other)
  {
    var rva, size := Entry(m, t).value[0], Entry(m, t).value[1];
    forall other
      ensures !Terminated(m, t, rva, size, other)
    {
      if Terminated(m, t, rva, size, other) {
        TerminatedExtends(m, t, rva, names, size, other);
      }
    }
  }

  // ------------------------------------------------------------------- the whole file

  /** The two tables of a file list `a` and `b`. */
  ghost predicate Lists(data: Bytes, a: seq<string>, b: seq<string>) {
    exists m :: Loaded(m) && m.data == data && Listing(m, ImportTable, a) && Listing(m, DelayTable, b)
  }

  lemma LoadedOnce(m: Image, n: Image)
    requires Loaded(m) && Loaded(n) && m.data == n.data
    ensures m == n
  {
    forall i | 0 <= i < |m.sections|
      ensures m.sections[i] == n.sections[i]
    {
      assert SectionAt(m.data, m.header, i) == Some(m.sections[i]);
    }
  }

  /** A file has one reading. */
  lemma ListsOnce(data: Bytes, a: seq<string>, b: seq<string>, c: seq<string>, d: seq<string>)
    requires Lists(data, a, b) && Lists(data, c, d)
    ensures a == c && b == d
  {
    var m :| Loaded(m) && m.data == data && Listing(m, ImportTable, a) && Listing(m, DelayTable, b);
    var n :| Loaded(n) && n.data == data && Listing(n, ImportTable, c) && Listing(n, DelayTable, d);
    LoadedOnce(m, n);
    ListingOnce(m, ImportTable, a, c);
    ListingOnce(m, DelayTable, b, d);
  }

  method Load(data: Bytes) returns (r: Option<Image>)
    ensures r.Some? ==> Loaded(r.value) && r.value.data == data
    ensures r.None? ==> forall m :: Loaded(m) ==> m.data != data
  {
    var header := ReadHeader(data);
    if header.None? {
      return None;
    }
    var sections := ReadSections(data, header.value);
    if sections.None? {
      return None;
    }
    r := Some(Image(data, header.value, sections.value));
  }

  /**
   Main result: a file is read exactly when its headers, its section table and both descriptor
   tables are well formed and name something; the answer is then exactly the set of names in
   the two tables, once each, ordered without regard to case.
   */
  method PeImports(data: Bytes) returns (r: Option<seq<string>>)
    ensures r.Some? <==> exists a, b :: Lists(data, a, b) && a + b != []
    ensures r.Some? ==> forall a, b :: Lists(data, a, b) ==> Elements(r.value) == Elements(a) + Elements(b)
    ensures r.Some? ==> OrderedByLower(r.value)
  {
    var m := Load(data);
    if m.None? {
      return None;
    }
    ghost var a, b;
    var ok, imports;
    ok, imports, a, b := ReadTables(m.value);
    if !ok {
      return None;
    }
    OnlyLists(data, m.value, a, b);
    EmptyElements(a, b);
    if imports == {} {
      return None;
    }
    var sorted := SortByLower(imports);
    r := Some(sorted);
  }

  method ReadTables(m: Image) returns (ok: bool, imports: set<string>, ghost a: seq<string>, ghost b: seq<string>)
    requires Loaded(m)
    ensures ok ==> Listing(m, ImportTable, a) && Listing(m, DelayTable, b) && imports == Elements(a) + Elements(b)
    ensures !ok ==> forall c, d :: !Lists(m.data, c, d)
  {
    a, b := [], [];
    ok, imports, a := ReadTable(m, ImportTable, {});
    if !ok {
      NotListed(m, ImportTable);
      return;
    }
    ok, imports, b := ReadTable(m, DelayTable, imports);
    if !ok {
      NotListed(m, DelayTable);
    }
  }

  lemma NotListed(m: Image, t: Table)
    requires Loaded(m) && forall names :: !Listing(m, t, names)
    ensures forall a, b :: !Lists(m.data, a, b)
  {
    forall n: Image | Loaded(n) && n.data == m.data
      ensures n == m
    {
      LoadedOnce(m, n);
    }
  }

  lemma OnlyLists(data: Bytes, m: Image, a: seq<string>, b: seq<string>)
    requires Loaded(m) && m.data == data && Listing(m, ImportTable, a) && Listing(m, DelayTable, b)
    ensures Lists(data, a, b) && forall c, d :: Lists(data, c, d) ==> c == a && d == b
  {
    forall c, d | Lists(data, c, d)
      ensures c == a && d == b
    {
      ListsOnce(data, a, b, c, d);
    }
  }

  lemma EmptyElements(a: seq<string>, b: seq<string>)
    ensures Elements(a) + Elements(b) == {} <==> a + b == []
  {
    if a + b != [] {
      assert (a + b)[0] in Elements(a) + Elements(b);
    }
  }

  /** Distinct names, each not above the next ones once case is ignored. */
  ghost predicate OrderedByLower(names: seq<string>) {
    forall i, j :: 0 <= i < j < |names| ==>
      names[i] != names[j] && !LexLess(LowerAll(names[j]), LowerAll(names[i]))
  }

  predicate LeastByLower(n: string, names: set<string>) {
    n in names && forall other :: other in names ==> !LexLess(LowerAll(other), LowerAll(n))
  }

  lemma LeastByLowerExists(names: set<string>) returns (n: string)
    requires names != {}
    ensures LeastByLower(n, names)
    decreases |names|
  {
    var x :| x in names;
    var rest := names - {x};
    LexOrder(LowerAll(x), LowerAll(x), LowerAll(x));
    if rest == {} {
      assert names == {x};
      return x;
    }
    var y := LeastByLowerExists(rest);
    LexOrder(LowerAll(x), LowerAll(y), LowerAll(x));
    n := if LexLess(LowerAll(x), LowerAll(y)) then x else y;
    forall other | other in names
      ensures !LexLess(LowerAll(other), LowerAll(n))
    {
      assert other == x || other in rest;
      LexOrder(LowerAll(other), LowerAll(x), LowerAll(y));
      LexOrder(LowerAll(y), LowerAll(y), LowerAll(y));
    }
  }

  /** `sorted(imports, key=str.lower)`: names that differ in case only come in either order. */
  method SortByLower(names: set<string>) returns (r: seq<string>)
    ensures OrderedByLower(r) && Elements(r) == names
  {
    r := [];
    var left := names;
    while left != {}
      invariant Selecting(r, left, names)
      decreases |left|
    {
      ghost var least := LeastByLowerExists(left);
      var n :| n in left && LeastByLower(n, left);
      SelectNext(r, left, names, n);
      r, left := r + [n], left - {n};
    }
  }

  ghost predicate Selecting(r: seq<string>, left: set<string>, names: set<string>) {
    && Elements(r) + left == names && Elements(r) !! left
    && OrderedByLower(r)
    && forall i, n :: 0 <= i < |r| && n in left ==> !LexLess(LowerAll(n), LowerAll(r[i]))
  }

  lemma SelectNext(r: seq<string>, left: set<string>, names: set<string>, n: string)
    requires Selecting(r, left, names) && LeastByLower(n, left)
    ensures Selecting(r + [n], left - {n}, names)
  {
    OrderedMore(r, left, n);
    forall i, m | 0 <= i < |r + [n]| && m in left - {n}
      ensures !LexLess(LowerAll(m), LowerAll((r + [n])[i]))
    {
      assert i < |r| ==> (r + [n])[i] == r[i];
    }
  }

  lemma OrderedMore(r: seq<string>, left: set<string>, n: string)
    requires OrderedByLower(r) && n !in r && n in left
    requires forall i, n :: 0 <= i < |r| && n in left ==> !LexLess(LowerAll(n), LowerAll(r[i]))
    ensures OrderedByLower(r + [n])
  {
    var more := r + [n];
    forall i, j | 0 <= i < j < |more|
      ensures more[i] != more[j] && !LexLess(LowerAll(more[j]), LowerAll(more[i]))
    {
      assert more[i] == r[i];
      assert j < |r| ==> more[j] == r[j];
    }
  }

  // ------------------------------------------------------------------------ the audit

  predicate Versioned(stem: string, prefix: string) {
    |stem| > |prefix| && stem[..|prefix|] == prefix && '0' <= stem[|prefix|] <= '9'
  }

  /** DLLs of the separately installed C runtime. */
  predicate RuntimeDll(name: string) {
    |name| >= 4
    && var lower := LowerAll(name);
    var stem := lower[..|lower| - 4];
    lower[|lower| - 4..] == ".dll"
    && (|| Versioned(stem, "vcruntime") || Versioned(stem, "msvcp") || Versioned(stem, "msvcr")
        || stem == "ucrtbase"
        || (|stem| >= |CRT_SET| && stem[..|CRT_SET|] == CRT_SET))
  }

  const CRT_SET := "api-ms-win-crt-"

  /** A readable executable that names no runtime DLL in either table. */
  ghost predicate SelfContained(data: Bytes) {
    exists a, b :: Lists(data, a, b) && a + b != [] && forall n | n in a || n in b :: !RuntimeDll(n)
  }

  /** The bundle passes exactly when each of its executables is self-contained. */
  method Audit(bundle: seq<Bytes>) returns (passed: bool)
    ensures passed <==> forall i :: 0 <= i < |bundle| ==> SelfContained(bundle[i])
  {
    for k := 0 to |bundle|
      invariant forall i :: 0 <= i < k ==> SelfContained(bundle[i])
    {
      var clean := AuditOne(bundle[k]);
      if !clean {
        return false;
      }
    }
    passed := true;
  }

  method AuditOne(data: Bytes) returns (clean: bool)
    ensures clean <==> SelfContained(data)
  {
    var imports := PeImports(data);
    if imports.None? {
      return false;
    }
    ghost var a, b :| Lists(data, a, b) && a + b != [];
    CleanIff(data, a, b, imports.value);
    var names := imports.value;
    clean := forall n | n in names :: !RuntimeDll(n);
  }

  lemma CleanIff(data: Bytes, a: seq<string>, b: seq<string>, names: seq<string>)
    requires Lists(data, a, b) && a + b != [] && Elements(names) == Elements(a) + Elements(b)
    ensures SelfContained(data) <==> forall n :: n in names ==> !RuntimeDll(n)
  {
    assert forall n :: n in names <==> n in Elements(names);
    if SelfContained(data) {
      var c, d :| Lists(data, c, d) && c + d != [] && forall n | n in c || n in d :: !RuntimeDll(n);
      ListsOnce(data, a, b, c, d);
    }
  }

  // ---------------------------------------------------------------------- appended data

  lemma UnpackMore(data: Bytes, extra: Bytes, at: int, size: nat)
    requires Unpack(data, at, size).Some?
    ensures Unpack(data + extra, at, size) == Unpack(data, at, size)
  {
    assert (data + extra)[at..at + size] == data[at..at + size];
  }

  lemma Unpack32sMore(data: Bytes, extra: Bytes, at: int, count: nat)
    requires Unpack32s(data, at, count).Some?
    ensures Unpack32s(data + extra, at, count) == Unpack32s(data, at, count)
  {
    var few, more := Unpack32s(data, at, count).value, Unpack32s(data + extra, at, count).value;
    forall k | 0 <= k < count
      ensures more[k] == few[k]
    {
      var from := at + 4 * k;
      assert (data + extra)[from..from + 4] == data[from..from + 4];
    }
    assert more == few;
  }

  lemma HeaderMore(data: Bytes, extra: Bytes)
    requires ReadHeader(data).Some?
    ensures ReadHeader(data + extra) == ReadHeader(data)
  {
    UnpackMore(data, extra, 0x3C, 4);
    var pe := Unpack(data, 0x3C, 4).value;
    UnpackMore(data, extra, pe + 4, 2);
    UnpackMore(data, extra, pe + 6, 2);
    UnpackMore(data, extra, pe + 20, 2);
    UnpackMore(data, extra, pe + 24, 2);
    UnpackMore(data, extra, pe + 24 + 108, 4);
    UnpackMore(data, extra, pe + 24 + 24, 8);
    UnpackMore(data, extra, pe + 24 + 60, 4);
  }

  function Extended(m: Image, extra: Bytes): Image {
    Image(m.data + extra, m.header, m.sections)
  }

  lemma LoadedMore(m: Image, extra: Bytes)
    requires Loaded(m)
    ensures Loaded(Extended(m, extra))
  {
    HeaderMore(m.data, extra);
    var h := m.header;
    forall i | 0 <= i < |m.sections|
      ensures SectionAt(m.data + extra, h, i) == Some(m.sections[i])
    {
      assert SectionAt(m.data, h, i) == Some(m.sections[i]);
      Unpack32sMore(m.data, extra, h.optional + h.optionalSize + i * 40 + 8, 4);
    }
  }

  lemma RowMore(m: Image, extra: Bytes, t: Table, rva: nat, i: nat, fields: seq<nat>)
    requires m.header.headers <= |m.data| && RowAt(m, t, rva, i, fields)
    ensures RowAt(Extended(m, extra), t, rva, i, fields)
  {
    var at := rva + i * t.Width();
    var o :| Maps(m, at, o) && Unpack32s(m.data, o, t.Width() / 4) == Some(fields);
    Unpack32sMore(m.data, extra, o, t.Width() / 4);
  }

  lemma DescriptorMore(m: Image, extra: Bytes, t: Table, fields: seq<nat>, name: string)
    requires m.header.headers <= |m.data| && Descriptor(m, t, fields, name)
    ensures Descriptor(Extended(m, extra), t, fields, name)
  {
    var at := NameRva(m, t, fields).value;
    var o :| Maps(m, at, o) && Named(m.data, o, name);
    assert Named(m.data + extra, o, name);
  }

  lemma ListingMore(m: Image, extra: Bytes, t: Table, names: seq<string>)
    requires m.header.headers <= |m.data| && Listing(m, t, names)
    ensures Listing(Extended(m, extra), t, names)
  {
    Unpack32sMore(m.data, extra, m.header.optional + 112 + t.Slot() * 8, 2);
    var n := Extended(m, extra);
    var rva, size := Entry(m, t).value[0], Entry(m, t).value[1];
    if rva != 0 || size != 0 {
      forall i | 0 <= i < |names|
        ensures Describes(n, t, rva, i, names[i])
      {
        DescribedHere(m, t, rva, names, i);
        var fields :| RowAt(m, t, rva, i, fields) && Descriptor(m, t, fields, names[i]);
        RowMore(m, extra, t, rva, i, fields);
        DescriptorMore(m, extra, t, fields, names[i]);
      }
      var zero :| RowAt(m, t, rva, |names|, zero) && AllZero(zero);
      RowMore(m, extra, t, rva, |names|, zero);
    }
  }

  /**
   Data appended after a linked file, such as a signature, changes nothing the audit reads,
   provided the declared headers do not reach past the end of the original file.
   */
  lemma AppendedDataIsIgnored(data: Bytes, extra: Bytes, a: seq<string>, b: seq<string>)
    requires Lists(data, a, b) && ReadHeader(data).Some? && ReadHeader(data).value.headers <= |data|
    ensures Lists(data + extra, a, b)
  {
    var m :| Loaded(m) && m.data == data && Listing(m, ImportTable, a) && Listing(m, DelayTable, b);
    LoadedMore(m, extra);
    ListingMore(m, extra, ImportTable, a);
    ListingMore(m, extra, DelayTable, b);
    assert Extended(m, extra).data == data + extra;
  }

  // ------------------------------------------------------- the file format, byte by byte

  function W16(d: Bytes, a: nat): nat
    requires a + 2 <= |d|
  {
    var low: nat, high: nat := d[a], d[a + 1];
    low + 0x100 * high
  }

  function W32(d: Bytes, a: nat): nat
    requires a + 4 <= |d|
  {
    W16(d, a) + 0x1_0000 * W16(d, a + 2)
  }

  function W64(d: Bytes, a: nat): nat
    requires a + 8 <= |d|
  {
    W32(d, a) + 0x1_0000_0000 * W32(d, a + 4)
  }

  /** The headers of a bounded x86_64 PE32+ file, with the signature at `pe`. */
  ghost predicate HeaderAt(d: Bytes, pe: nat, h: Header) {
    && 0x40 <= |d| && d[0] == 0x4D && d[1] == 0x5A && W32(d, 0x3C) == pe
    && pe + 136 <= |d|
    && d[pe] == 0x50 && d[pe + 1] == 0x45 && d[pe + 2] == 0 && d[pe + 3] == 0
    && W16(d, pe + 4) == 0x8664 && W16(d, pe + 24) == 0x20B
    && h.count == W16(d, pe + 6) <= 96
    && h.optional == pe + 24 && h.optionalSize == W16(d, pe + 20) >= 224
    && W32(d, pe + 132) >= 14
    && h.imageBase == W64(d, pe + 48)
    && h.headers == W32(d, pe + 84)
  }

  ghost predicate SectionBytes(d: Bytes, h: Header, i: nat, s: Section) {
    var a := h.optional + h.optionalSize + 40 * i;
    && a + 24 <= |d|
    && s.start == W32(d, a + 12) && s.size == W32(d, a + 16) && s.raw == W32(d, a + 20)
    && s.raw + s.size <= |d|
  }

  /** The name lies at a mapped address. */
  ghost predicate NameMapped(m: Image, rva: int, name: string) {
    exists at :: Maps(m, rva, at) && Named(m.data, at, name)
  }

  predicate Blank(d: Bytes, a: nat, size: nat) {
    a + size <= |d| && forall k :: a <= k < a + size ==> d[k] == 0
  }

  /** An import descriptor of 20 bytes: its name address is the fourth number. */
  ghost predicate ImportRow(m: Image, row: nat, name: string) {
    row + 20 <= |m.data| && !Blank(m.data, row, 20) && NameMapped(m, W32(m.data, row + 12), name)
  }

  /**
   A delay-load descriptor of 32 bytes: attributes, then the name address, which is relative
   to the image if the attributes are 1 and absolute if they are 0.
   */
  ghost predicate DelayRow(m: Image, row: nat, name: string) {
    && row + 32 <= |m.data| && !Blank(m.data, row, 32)
    && var attributes, address := W32(m.data, row), W32(m.data, row + 4);
    || (attributes == 1 && NameMapped(m, address, name))
    || (attributes == 0 && NameMapped(m, address - m.header.imageBase, name))
  }

  /** Row i of a table with rows of a given width starts at this offset. */
  ghost predicate StartsRow(m: Image, rva: nat, width: nat, i: nat, row: nat) {
    Maps(m, rva + width * i, row)
  }

  ghost predicate ImportAt(m: Image, rva: nat, i: nat, name: string) {
    exists row: nat :: StartsRow(m, rva, 20, i, row) && ImportRow(m, row, name)
  }

  ghost predicate DelayAt(m: Image, rva: nat, i: nat, name: string) {
    exists row: nat :: StartsRow(m, rva, 32, i, row) && DelayRow(m, row, name)
  }

  ghost predicate BlankAt(m: Image, rva: nat, size: nat) {
    exists row: nat :: Maps(m, rva, row) && Blank(m.data, row, size)
  }

  /** The import table, whose address and size are at 120 and 124 in the optional header. */
  ghost predicate ImportNames(m: Image, names: seq<string>) {
    var at := m.header.optional + 120;
    && at + 8 <= |m.data|
    && var rva, size := W32(m.data, at), W32(m.data, at + 4);
    if rva == 0 && size == 0 then names == []
    else
      && rva != 0 && 20 <= size <= 65536 && 20 * (|names| + 1) <= size
      && (forall i :: 0 <= i < |names| ==> ImportAt(m, rva, i, names[i]))
      && BlankAt(m, rva + 20 * |names|, 20)
  }

  /** The delay-load table, whose address and size are at 216 and 220 in the optional header. */
  ghost predicate DelayNames(m: Image, names: seq<string>) {
    var at := m.header.optional + 216;
    && at + 8 <= |m.data|
    && var rva, size := W32(m.data, at), W32(m.data, at + 4);
    if rva == 0 && size == 0 then names == []
    else
      && rva != 0 && 32 <= size <= 65536 && 32 * (|names| + 1) <= size
      && (forall i :: 0 <= i < |names| ==> DelayAt(m, rva, i, names[i]))
      && BlankAt(m, rva + 32 * |names|, 32)
  }

  lemma NumberOf2(d: Bytes, a: nat)
    requires a + 2 <= |d|
    ensures Number(d[a..a + 2]) == W16(d, a)
  {
    var s := d[a..a + 2];
    assert Number(s[1..][1..]) == 0 && s[1..][0] == d[a + 1];
  }

  lemma NumberSplit(s: Bytes, n: nat)
    requires n == 2 <= |s|
    ensures Number(s) == Number(s[..2]) + 0x1_0000 * Number(s[2..])
  {
    assert s[1..][1..] == s[2..];
    assert s[..2][1..][1..] == [] && s[..2][1..][0] == s[1];
  }

  lemma NumberOf4(d: Bytes, a: nat)
    requires a + 4 <= |d|
    ensures Number(d[a..a + 4]) == W32(d, a)
  {
    var s := d[a..a + 4];
    NumberSplit(s, 2);
    assert s[..2] == d[a..a + 2] && s[2..] == d[a + 2..a + 4];
    NumberOf2(d, a);
    NumberOf2(d, a + 2);
  }

  lemma NumberOf8(d: Bytes, a: nat)
    requires a + 8 <= |d|
    ensures Number(d[a..a + 8]) == W64(d, a)
  {
    var s := d[a..a + 8];
    NumberSplit(s, 2);
    NumberSplit(s[2..], 2);
    assert s[..2] == d[a..a + 2] && s[2..][..2] == d[a + 2..a + 4] && s[2..][2..] == d[a + 4..a + 8];
    NumberOf2(d, a);
    NumberOf2(d, a + 2);
    NumberOf4(d, a + 4);
  }

  lemma FieldsOf(d: Bytes, a: nat, count: nat)
    requires a + 4 * count <= |d|
    ensures Unpack32s(d, a, count).Some?
    ensures forall k :: 0 <= k < count ==> Unpack32s(d, a, count).value[k] == W32(d, a + 4 * k)
  {
    forall k | 0 <= k < count
      ensures Unpack32s(d, a, count).value[k] == W32(d, a + 4 * k)
    {
      NumberOf4(d, a + 4 * k);
    }
  }

  lemma SignatureIs(d: Bytes, pe: nat)
    ensures Slice(d, pe, 4) == PE <==>
              pe + 4 <= |d| && d[pe] == 0x50 && d[pe + 1] == 0x45 && d[pe + 2] == 0 && d[pe + 3] == 0
  {
    if Slice(d, pe, 4) == PE {
      assert Slice(d, pe, 4)[0] == 0x50 && Slice(d, pe, 4)[1] == 0x45;
      assert Slice(d, pe, 4)[2] == 0 && Slice(d, pe, 4)[3] == 0;
    }
  }

  lemma DosIs(d: Bytes)
    ensures Slice(d, 0, 2) == MZ <==> 2 <= |d| && d[0] == 0x4D && d[1] == 0x5A
  {
    if Slice(d, 0, 2) == MZ {
      assert Slice(d, 0, 2)[0] == 0x4D && Slice(d, 0, 2)[1] == 0x5A;
    }
  }

  /** The header reader accepts exactly the headers of the format, and reads them as they are. */
  lemma HeaderIff(d: Bytes, h: Header)
    ensures ReadHeader(d) == Some(h) <==> exists pe: nat :: HeaderAt(d, pe, h)
  {
    DosIs(d);
    if 0x40 <= |d| {
      NumberOf4(d, 0x3C);
      var pe := W32(d, 0x3C);
      SignatureIs(d, pe);
      HeaderFields(d, pe);
      if pe + 136 <= |d| && ReadHeader(d) == Some(h) {
        assert HeaderAt(d, pe, h);
      }
    }
  }

  lemma HeaderFields(d: Bytes, pe: nat)
    ensures pe + 136 <= |d| ==>
              && Unpack(d, pe + 4, 2) == Some(W16(d, pe + 4)) && Unpack(d, pe + 6, 2) == Some(W16(d, pe + 6))
              && Unpack(d, pe + 20, 2) == Some(W16(d, pe + 20)) && Unpack(d, pe + 24, 2) == Some(W16(d, pe + 24))
              && Unpack(d, pe + 24 + 108, 4) == Some(W32(d, pe + 132))
              && Unpack(d, pe + 24 + 24, 8) == Some(W64(d, pe + 48))
              && Unpack(d, pe + 24 + 60, 4) == Some(W32(d, pe + 84))
    ensures pe + 136 > |d| ==> Unpack(d, pe + 24 + 108, 4) == None
  {
    if pe + 136 <= |d| {
      NumberOf2(d, pe + 4);
      NumberOf2(d, pe + 6);
      NumberOf2(d, pe + 20);
      NumberOf2(d, pe + 24);
      NumberOf4(d, pe + 132);
      NumberOf8(d, pe + 48);
      NumberOf4(d, pe + 84);
    }
  }

  lemma SectionIff(d: Bytes, h: Header, i: nat, s: Section)
    ensures SectionAt(d, h, i) == Some(s) <==> SectionBytes(d, h, i, s)
  {
    var a := h.optional + h.optionalSize + 40 * i;
    if a + 24 <= |d| {
      FieldsOf(d, a + 8, 4);
    }
  }

  lemma BlankIff(d: Bytes, a: nat, count: nat)
    requires a + 4 * count <= |d|
    ensures AllZero(Unpack32s(d, a, count).value) <==> Blank(d, a, 4 * count)
  {
    FieldsOf(d, a, count);
    var fields := Unpack32s(d, a, count).value;
    if AllZero(fields) {
      forall k | a <= k < a + 4 * count
        ensures d[k] == 0
      {
        var j := (k - a) / 4;
        assert fields[j] in fields;
        assert W32(d, a + 4 * j) == 0;
        assert k == a + 4 * j + (k - a) % 4;
      }
    }
    if Blank(d, a, 4 * count) {
      forall f | f in fields
        ensures f == 0
      {
        var j :| 0 <= j < |fields| && fields[j] == f;
        assert f == W32(d, a + 4 * j);
      }
    }
  }

  lemma RowFields(m: Image, t: Table, rva: nat, i: nat, fields: seq<nat>) returns (row: nat)
    requires Loaded(m) && RowAt(m, t, rva, i, fields)
    ensures StartsRow(m, rva, t.Width(), i, row) && row + t.Width() <= |m.data|
    ensures Unpack32s(m.data, row, t.Width() / 4) == Some(fields)
  {
    assert i * t.Width() == t.Width() * i && 4 * (t.Width() / 4) == t.Width();
    var offset :| Maps(m, rva + i * t.Width(), offset) && Unpack32s(m.data, offset, t.Width() / 4) == Some(fields);
    MapsInside(m, rva + i * t.Width(), offset);
    row := offset;
  }

  lemma FieldsRow(m: Image, t: Table, rva: nat, i: nat, row: nat) returns (fields: seq<nat>)
    requires StartsRow(m, rva, t.Width(), i, row) && row + t.Width() <= |m.data|
    ensures RowAt(m, t, rva, i, fields) && Unpack32s(m.data, row, t.Width() / 4) == Some(fields)
  {
    assert i * t.Width() == t.Width() * i && 4 * (t.Width() / 4) == t.Width();
    fields := Unpack32s(m.data, row, t.Width() / 4).value;
  }

  lemma ImportAtIff(m: Image, rva: nat, i: nat, name: string)
    requires Loaded(m)
    ensures Describes(m, ImportTable, rva, i, name) <==> ImportAt(m, rva, i, name)
  {
    if Describes(m, ImportTable, rva, i, name) {
      DescribedImport(m, rva, i, name);
    }
    if row: nat :| StartsRow(m, rva, 20, i, row) && ImportRow(m, row, name) {
      var fields := FieldsRow(m, ImportTable, rva, i, row);
      ImportRowIff(m, row, name);
    }
  }

  lemma DescribedImport(m: Image, rva: nat, i: nat, name: string)
    requires Loaded(m) && Describes(m, ImportTable, rva, i, name)
    ensures ImportAt(m, rva, i, name)
  {
    var fields :| RowAt(m, ImportTable, rva, i, fields) && Descriptor(m, ImportTable, fields, name);
    var row := RowFields(m, ImportTable, rva, i, fields);
    ImportRowIff(m, row, name);
  }

  lemma ImportRowIff(m: Image, row: nat, name: string)
    requires row + 20 <= |m.data|
    ensures Unpack32s(m.data, row, 5).Some?
    ensures Descriptor(m, ImportTable, Unpack32s(m.data, row, 5).value, name) <==> ImportRow(m, row, name)
  {
    FieldsOf(m.data, row, 5);
    BlankIff(m.data, row, 5);
  }

  lemma DelayRowIff(m: Image, row: nat, name: string)
    requires row + 32 <= |m.data|
    ensures Unpack32s(m.data, row, 8).Some?
    ensures Descriptor(m, DelayTable, Unpack32s(m.data, row, 8).value, name) <==> DelayRow(m, row, name)
  {
    FieldsOf(m.data, row, 8);
    BlankIff(m.data, row, 8);
  }

  lemma DelayAtIff(m: Image, rva: nat, i: nat, name: string)
    requires Loaded(m)
    ensures Describes(m, DelayTable, rva, i, name) <==> DelayAt(m, rva, i, name)
  {
    if Describes(m, DelayTable, rva, i, name) {
      DescribedDelay(m, rva, i, name);
    }
    if row: nat :| StartsRow(m, rva, 32, i, row) && DelayRow(m, row, name) {
      var fields := FieldsRow(m, DelayTable, rva, i, row);
      DelayRowIff(m, row, name);
    }
  }

  lemma DescribedDelay(m: Image, rva: nat, i: nat, name: string)
    requires Loaded(m) && Describes(m, DelayTable, rva, i, name)
    ensures DelayAt(m, rva, i, name)
  {
    var fields :| RowAt(m, DelayTable, rva, i, fields) && Descriptor(m, DelayTable, fields, name);
    var row := RowFields(m, DelayTable, rva, i, fields);
    DelayRowIff(m, row, name);
  }

  lemma EndsIff(m: Image, t: Table, rva: nat, i: nat)
    requires Loaded(m)
    ensures Ends(m, t, rva, i) <==> BlankAt(m, rva + t.Width() * i, t.Width())
  {
    var w := t.Width();
    assert 4 * (w / 4) == w;
    if Ends(m, t, rva, i) {
      var fields :| RowAt(m, t, rva, i, fields) && AllZero(fields);
      var row := RowFields(m, t, rva, i, fields);
      BlankIff(m.data, row, w / 4);
    }
    if BlankAt(m, rva + w * i, w) {
      var row: nat :| Maps(m, rva + w * i, row) && Blank(m.data, row, w);
      BlankIff(m.data, row, w / 4);
      var fields := FieldsRow(m, t, rva, i, row);
    }
  }

  lemma ImportNamesIff(m: Image, names: seq<string>)
    requires Loaded(m)
    ensures Listing(m, ImportTable, names) <==> ImportNames(m, names)
  {
    if m.header.optional + 128 <= |m.data| {
      FieldsOf(m.data, m.header.optional + 120, 2);
      var rva := W32(m.data, m.header.optional + 120);
      forall i | 0 <= i < |names|
        ensures Describes(m, ImportTable, rva, i, names[i]) <==> ImportAt(m, rva, i, names[i])
      {
        ImportAtIff(m, rva, i, names[i]);
      }
      EndsIff(m, ImportTable, rva, |names|);
    }
  }

  lemma DelayNamesIff(m: Image, names: seq<string>)
    requires Loaded(m)
    ensures Listing(m, DelayTable, names) <==> DelayNames(m, names)
  {
    if m.header.optional + 224 <= |m.data| {
      FieldsOf(m.data, m.header.optional + 216, 2);
      var rva := W32(m.data, m.header.optional + 216);
      forall i | 0 <= i < |names|
        ensures Describes(m, DelayTable, rva, i, names[i]) <==> DelayAt(m, rva, i, names[i])
      {
        DelayAtIff(m, rva, i, names[i]);
      }
      EndsIff(m, DelayTable, rva, |names|);
    }
  }

  /** A file of the format, and what its two tables name. */
  ghost predicate FileNames(d: Bytes, m: Image, a: seq<string>, b: seq<string>) {
    && m.data == d && (exists pe: nat :: HeaderAt(d, pe, m.header))
    && |m.sections| == m.header.count
    && (forall i :: 0 <= i < |m.sections| ==> SectionBytes(d, m.header, i, m.sections[i]))
    && ImportNames(m, a) && DelayNames(m, b)
  }

  /** Main result: the reading of a file is the one the format gives its bytes. */
  lemma ListsIff(d: Bytes, a: seq<string>, b: seq<string>)
    ensures Lists(d, a, b) <==> exists m :: FileNames(d, m, a, b)
  {
    if Lists(d, a, b) {
      var m :| Loaded(m) && m.data == d && Listing(m, ImportTable, a) && Listing(m, DelayTable, b);
      LoadedIff(m);
      ImportNamesIff(m, a);
      DelayNamesIff(m, b);
      assert FileNames(d, m, a, b);
    }
    if m :| FileNames(d, m, a, b) {
      LoadedIff(m);
      ImportNamesIff(m, a);
      DelayNamesIff(m, b);
    }
  }

  lemma LoadedIff(m: Image)
    ensures Loaded(m) <==>
              && (exists pe: nat :: HeaderAt(m.data, pe, m.header)) && |m.sections| == m.header.count
              && forall i :: 0 <= i < |m.sections| ==> SectionBytes(m.data, m.header, i, m.sections[i])
  {
    HeaderIff(m.data, m.header);
    forall i | 0 <= i < |m.sections|
      ensures SectionAt(m.data, m.header, i) == Some(m.sections[i]) <==> SectionBytes(m.data, m.header, i, m.sections[i])
    {
      SectionIff(m.data, m.header, i, m.sections[i]);
    }
  }

  // -------------------------------------------------------------------------- rebasing

  function Rebased(m: Image, base: nat): Image {
    m.(header := m.header.(imageBase := base))
  }

  /** The delay-load table, when the file is long enough to say where it is. */
  ghost predicate DelayTableAt(m: Image, rva: nat, size: nat) {
    var at := m.header.optional + 216;
    at + 8 <= |m.data| && rva == W32(m.data, at) && size == W32(m.data, at + 4)
  }

  /** The first rows of a delay-load table hold relative addresses. */
  ghost predicate AllRelative(m: Image, rva: nat, count: nat) {
    forall i: nat, row: nat :: i < count && StartsRow(m, rva, 32, i, row) && row + 32 <= |m.data| ==> W32(m.data, row) == 1
  }

  lemma RebasedMaps(m: Image, base: nat, rva: int, at: int)
    ensures Maps(Rebased(m, base), rva, at) <==> Maps(m, rva, at)
  {
  }

  lemma RebasedName(m: Image, base: nat, rva: int, name: string)
    ensures NameMapped(Rebased(m, base), rva, name) <==> NameMapped(m, rva, name)
  {
    forall at
      ensures Maps(Rebased(m, base), rva, at) <==> Maps(m, rva, at)
    {
      RebasedMaps(m, base, rva, at);
    }
  }

  lemma RebasedBlank(m: Image, base: nat, rva: nat, size: nat)
    ensures BlankAt(Rebased(m, base), rva, size) <==> BlankAt(m, rva, size)
  {
    forall row: nat
      ensures Maps(Rebased(m, base), rva, row) <==> Maps(m, rva, row)
    {
      RebasedMaps(m, base, rva, row);
    }
  }

  lemma RebasedImport(m: Image, base: nat, rva: nat, i: nat, name: string)
    ensures ImportAt(Rebased(m, base), rva, i, name) <==> ImportAt(m, rva, i, name)
  {
    forall row: nat
      ensures StartsRow(Rebased(m, base), rva, 20, i, row) <==> StartsRow(m, rva, 20, i, row)
      ensures ImportRow(Rebased(m, base), row, name) <==> ImportRow(m, row, name)
    {
      RebasedMaps(m, base, rva + 20 * i, row);
      if row + 20 <= |m.data| {
        RebasedName(m, base, W32(m.data, row + 12), name);
      }
    }
  }

  lemma RebasedDelay(m: Image, base: nat, rva: nat, i: nat, name: string, count: nat)
    requires AllRelative(m, rva, count) && i < count
    ensures DelayAt(Rebased(m, base), rva, i, name) <==> DelayAt(m, rva, i, name)
  {
    forall row: nat
      ensures StartsRow(Rebased(m, base), rva, 32, i, row) <==> StartsRow(m, rva, 32, i, row)
      ensures StartsRow(m, rva, 32, i, row) ==> (DelayRow(Rebased(m, base), row, name) <==> DelayRow(m, row, name))
    {
      RebasedMaps(m, base, rva + 32 * i, row);
      if row + 32 <= |m.data| {
        RebasedName(m, base, W32(m.data, row + 4), name);
      }
    }
  }

  lemma RebasedImports(m: Image, base: nat, names: seq<string>)
    ensures ImportNames(Rebased(m, base), names) <==> ImportNames(m, names)
  {
    if m.header.optional + 128 <= |m.data| {
      var rva := W32(m.data, m.header.optional + 120);
      forall i | 0 <= i < |names|
        ensures ImportAt(Rebased(m, base), rva, i, names[i]) <==> ImportAt(m, rva, i, names[i])
      {
        RebasedImport(m, base, rva, i, names[i]);
      }
      RebasedBlank(m, base, rva + 20 * |names|, 20);
    }
  }

  /** With relative addresses only, the image base has no part in what is listed; imports never use it. */
  lemma RebasingKeepsNames(m: Image, base: nat, rva: nat, size: nat, names: seq<string>)
    ensures ImportNames(Rebased(m, base), names) <==> ImportNames(m, names)
    ensures DelayTableAt(m, rva, size) && AllRelative(m, rva, |names|) ==>
              (DelayNames(Rebased(m, base), names) <==> DelayNames(m, names))
  {
    RebasedImports(m, base, names);
    if DelayTableAt(m, rva, size) && AllRelative(m, rva, |names|) {
      forall i | 0 <= i < |names|
        ensures DelayAt(Rebased(m, base), rva, i, names[i]) <==> DelayAt(m, rva, i, names[i])
      {
        RebasedDelay(m, base, rva, i, names[i], |names|);
      }
      RebasedBlank(m, base, rva + 32 * |names|, 32);
    }
  }

  /** The same row in its old form: attributes 0, and the address raised by the image base. */
  ghost predicate Raised(m: Image, n: Image, row: nat) {
    row + 32 <= |m.data| == |n.data|
    && W32(m.data, row) == 1 && W32(n.data, row) == 0
    && W32(n.data, row + 4) == W32(m.data, row + 4) + m.header.imageBase
  }

  /** n is m with a delay-load table in its old form and the same names in place. */
  ghost predicate RaisedForm(m: Image, n: Image, rva: nat, size: nat, names: seq<string>) {
    && |n.data| == |m.data| && n.header == m.header && n.sections == m.sections && m.header.imageBase > 0
    && DelayTableAt(m, rva, size) && DelayTableAt(n, rva, size)
    && (forall i: nat, row: nat :: i < |names| && StartsRow(m, rva, 32, i, row) ==> Raised(m, n, row))
    && (forall row: nat :: StartsRow(m, rva, 32, |names|, row) && Blank(m.data, row, 32) ==> Blank(n.data, row, 32))
    && (forall i, at :: 0 <= i < |names| && Named(m.data, at, names[i]) ==> Named(n.data, at, names[i]))
  }

  /** The old form of a delay-load table lists the same names. */
  lemma RaisingKeepsNames(m: Image, n: Image, rva: nat, size: nat, names: seq<string>)
    requires RaisedForm(m, n, rva, size, names) && DelayNames(m, names)
    ensures DelayNames(n, names)
  {
    if rva != 0 || size != 0 {
      forall i | 0 <= i < |names|
        ensures DelayAt(n, rva, i, names[i])
      {
        RaisedAt(m, n, rva, size, names, i);
      }
      var end: nat :| Maps(m, rva + 32 * |names|, end) && Blank(m.data, end, 32);
      assert StartsRow(m, rva, 32, |names|, end);
      SameMaps(m, n, rva + 32 * |names|, end);
    }
  }

  lemma RaisedAt(m: Image, n: Image, rva: nat, size: nat, names: seq<string>, i: nat)
    requires RaisedForm(m, n, rva, size, names) && i < |names| && DelayAt(m, rva, i, names[i])
    ensures DelayAt(n, rva, i, names[i])
  {
    var row: nat :| StartsRow(m, rva, 32, i, row) && DelayRow(m, row, names[i]);
    RaisedRow(m, n, row, names[i]);
    SameMaps(m, n, rva + 32 * i, row);
    assert StartsRow(n, rva, 32, i, row);
  }

  lemma SameMaps(m: Image, n: Image, rva: int, at: int)
    requires |n.data| == |m.data| && n.header == m.header && n.sections == m.sections
    ensures Maps(n, rva, at) <==> Maps(m, rva, at)
  {
  }

  lemma NotBlank(d: Bytes, row: nat)
    requires row + 32 <= |d| && W32(d, row + 4) > 0
    ensures !Blank(d, row, 32)
  {
    assert d[row + 4] != 0 || d[row + 5] != 0 || d[row + 6] != 0 || d[row + 7] != 0;
  }

  lemma RaisedRow(m: Image, n: Image, row: nat, name: string)
    requires |n.data| == |m.data| && n.header == m.header && n.sections == m.sections && m.header.imageBase > 0
    requires Raised(m, n, row) && DelayRow(m, row, name)
    requires forall at :: Named(m.data, at, name) ==> Named(n.data, at, name)
    ensures DelayRow(n, row, name)
  {
    var at :| Maps(m, W32(m.data, row + 4), at) && Named(m.data, at, name);
    SameMaps(m, n, W32(m.data, row + 4), at);
    assert NameMapped(n, W32(n.data, row + 4) - n.header.imageBase, name);
    NotBlank(n.data, row);
  }

  // ----------------------------------------------------------------- which names count

  /** The same character, but for the case of a letter. */
  predicate Alike(a: char, b: char) {
    || a == b
    || ('A' <= a <= 'Z' && b as int == a as int + 32)
    || ('A' <= b <= 'Z' && a as int == b as int + 32)
  }

  predicate AlikeAll(s: string, t: string) {
    |s| == |t| && forall i :: 0 <= i < |s| ==> Alike(s[i], t[i])
  }

  lemma LowerIff(s: string, t: string)
    requires forall c :: c in t ==> !('A' <= c <= 'Z')
    ensures LowerAll(s) == t <==> AlikeAll(s, t)
  {
    if LowerAll(s) == t {
      forall i | 0 <= i < |s|
        ensures Alike(s[i], t[i])
      {
        assert LowerAll(s)[i] == t[i];
      }
    }
    if AlikeAll(s, t) {
      forall i | 0 <= i < |s|
        ensures LowerAll(s)[i] == t[i]
      {
        assert Alike(s[i], t[i]) && t[i] in t;
      }
      assert LowerAll(s) == t;
    }
  }

  /** A DLL name: something of the allowed characters, then the extension in either case. */
  lemma DllNameIff(name: string)
    ensures DllName(name) <==>
              && |name| > 4 && AlikeAll(name[|name| - 4..], ".dll")
              && forall c :: c in name ==>
                   'A' <= c <= 'Z' || 'a' <= c <= 'z' || '0' <= c <= '9' || c == '_' || c == '.' || c == '-'
  {
    if |name| > 4 {
      LowerIff(name[|name| - 4..], ".dll");
    }
  }

  /** The name is alike one that begins with a prefix, perhaps a digit, and ends in the extension. */
  predicate Begins(name: string, prefix: string, digit: bool) {
    var n := |prefix| + (if digit then 1 else 0);
    && |name| >= n + 4
    && AlikeAll(name[..|prefix|], prefix) && (digit ==> '0' <= name[|prefix|] <= '9')
    && AlikeAll(name[|name| - 4..], ".dll")
  }

  lemma LowerParts(name: string, n: nat)
    requires n <= |name|
    ensures LowerAll(name)[..n] == LowerAll(name[..n]) && LowerAll(name)[n..] == LowerAll(name[n..])
    ensures n < |name| ==> LowerAll(name)[n] == Lower(name[n])
  {
  }

  lemma BeginsIff(name: string, prefix: string)
    requires |name| >= 4 && forall c :: c in prefix ==> !('A' <= c <= 'Z')
    ensures var lower := LowerAll(name);
      var stem := lower[..|lower| - 4];
      && (Begins(name, prefix, true) <==> lower[|lower| - 4..] == ".dll" && Versioned(stem, prefix))
      && (Begins(name, prefix, false) <==>
            lower[|lower| - 4..] == ".dll" && |stem| >= |prefix| && stem[..|prefix|] == prefix)
  {
    LowerParts(name, |name| - 4);
    LowerIff(name[|name| - 4..], ".dll");
    if |name| >= |prefix| + 4 {
      LowerParts(name, |prefix|);
      LowerIff(name[..|prefix|], prefix);
      assert LowerAll(name)[..|name| - 4][..|prefix|] == LowerAll(name)[..|prefix|];
    }
  }

  /** Exactly the C runtime's DLLs are refused, in either case. */
  lemma RuntimeDllIff(name: string)
    ensures RuntimeDll(name) <==>
              || Begins(name, "vcruntime", true) || Begins(name, "msvcp", true) || Begins(name, "msvcr", true)
              || Begins(name, "api-ms-win-crt-", false)
              || AlikeAll(name, "ucrtbase.dll")
  {
    if |name| >= 4 {
      BeginsIff(name, "vcruntime");
      BeginsIff(name, "msvcp");
      BeginsIff(name, "msvcr");
      BeginsIff(name, "api-ms-win-crt-");
      LowerIff(name, "ucrtbase.dll");
      var lower := LowerAll(name);
      assert lower == lower[..|lower| - 4] + lower[|lower| - 4..];
      assert "ucrtbase.dll" == "ucrtbase" + ".dll";
    }
  }
}
