/**
 The packed metadata file system: a header, fixed-size entries, a block of path text and a block of
 compressed data, read by binary search over the sorted paths. Names are names after cleaning; a
 character of a name stands for one byte.
 */
module PackedMeta {
  import opened Text

  type Byte = c: char | c as int < 256 witness 'a'

  const PACK_MAGIC := "ALIMETA1"
  const PACK_HEADER_SIZE := 24
  const PACK_ENTRY_SIZE := 24
  const TWO_TO_THE_64 := 0x1_0000_0000_0000_0000

  datatype Error =
    | InvalidHeader | InvalidSections | InvalidPathRange | InvalidEntry
    | NotExist | InvalidRange | DecodeFailed | SizeMismatch

  datatype Result<+T> = Ok(value: T) | Err(error: Error)

  datatype Layout = Layout(dictionary: seq<Byte>, entries: seq<Byte>, paths: seq<Byte>, blob: seq<Byte>, count: nat)

  datatype PackedFile = PackedFile(offset: nat, size: nat, raw: nat)

  // ----- Reading the index -----

  function Uint32(b: seq<Byte>): (n: nat)
    requires |b| == 4
    ensures n < 0x1_0000_0000
  {
    b[0] as int + 0x100 * (b[1] as int + 0x100 * (b[2] as int + 0x100 * b[3] as int))
  }

  function Uint64(b: seq<Byte>): (n: nat)
    requires |b| == 8
    ensures n < TWO_TO_THE_64
  {
    Uint32(b[..4]) + 0x1_0000_0000 * Uint32(b[4..])
  }

  /** Addition of 64-bit unsigned numbers. */
  function Add64(a: nat, b: nat): (n: nat)
    ensures a + b < TWO_TO_THE_64 ==> n == a + b
    ensures TWO_TO_THE_64 <= a + b && a < TWO_TO_THE_64 && b < TWO_TO_THE_64 ==> n == a + b - TWO_TO_THE_64
  {
    (a + b) % TWO_TO_THE_64
  }

  function ParseLayout(data: seq<Byte>): Result<Layout> {
    if |data| < PACK_HEADER_SIZE || data[..8] != PACK_MAGIC then Err(InvalidHeader)
    else
      var dictionarySize, count, pathsSize := Uint32(data[8..12]), Uint32(data[12..16]), Uint32(data[16..20]);
      var entriesStart := Add64(PACK_HEADER_SIZE, dictionarySize);
      var pathsStart := Add64(entriesStart, count * PACK_ENTRY_SIZE % TWO_TO_THE_64);
      var blobStart := Add64(pathsStart, pathsSize);
      if entriesStart < dictionarySize || pathsStart < entriesStart || blobStart < pathsStart || blobStart > |data| then
        Err(InvalidSections)
      else
        Ok(Layout(data[PACK_HEADER_SIZE..entriesStart], data[entriesStart..pathsStart], data[pathsStart..blobStart],
                  data[blobStart..], count))
  }

  /** A pack is accepted exactly if its sections fit, in unbounded arithmetic: none of the wrap-around tests can fire
      on its own. The sections then divide the data, with one entry per counted path. */
  lemma LayoutIffSectionsFit(data: seq<Byte>)
    requires |data| >= PACK_HEADER_SIZE && data[..8] == PACK_MAGIC
    ensures
      var dictionarySize, count, pathsSize := Uint32(data[8..12]), Uint32(data[12..16]), Uint32(data[16..20]);
      ParseLayout(data).Ok? <==> PACK_HEADER_SIZE + dictionarySize + PACK_ENTRY_SIZE * count + pathsSize <= |data|
    ensures ParseLayout(data).Ok? ==>
      var l := ParseLayout(data).value;
      data == data[..PACK_HEADER_SIZE] + l.dictionary + l.entries + l.paths + l.blob && HasAllEntries(l)
  {
    var dictionarySize, count, pathsSize := Uint32(data[8..12]), Uint32(data[12..16]), Uint32(data[16..20]);
    assert count * PACK_ENTRY_SIZE % TWO_TO_THE_64 == count * PACK_ENTRY_SIZE;
    var a := PACK_HEADER_SIZE + dictionarySize;
    var b := a + count * PACK_ENTRY_SIZE;
    var c := b + pathsSize;
    if ParseLayout(data).Ok? {
      assert data == data[..24] + data[24..a] + data[a..b] + data[b..c] + data[c..];
    }
  }

  predicate HasAllEntries(layout: Layout) {
    |layout.entries| == PACK_ENTRY_SIZE * layout.count
  }

  function EntryBytes(layout: Layout, index: nat): (r: Option<seq<Byte>>)
    ensures r.Some? ==> |r.value| == PACK_ENTRY_SIZE
  {
    var start := index * PACK_ENTRY_SIZE;
    if start + PACK_ENTRY_SIZE > |layout.entries| then None
    else Some(layout.entries[start..start + PACK_ENTRY_SIZE])
  }

  function EntryName(layout: Layout, index: nat): Option<string> {
    var entry := EntryBytes(layout, index);
    if entry.None? then None
    else
      var pathOffset, pathLength := Uint32(entry.value[0..4]), Uint32(entry.value[4..8]);
      var pathEnd := Add64(pathOffset, pathLength);
      if pathEnd < pathOffset || pathEnd > |layout.paths| then None else Some(layout.paths[pathOffset..pathEnd])
  }

  function Entry(layout: Layout, index: nat): Option<PackedFile> {
    var entry := EntryBytes(layout, index);
    if entry.None? then None
    else Some(PackedFile(Uint64(entry.value[8..16]), Uint32(entry.value[16..20]), Uint32(entry.value[20..24])))
  }

  // ----- Searching -----

  predicate AtOrAfter(layout: Layout, index: nat, name: string) {
    var entryName := EntryName(layout, index);
    entryName.None? || !Less(entryName.value, name)
  }

  /** The standard library's sort.Search, between lo and hi. */
  function Search(f: nat -> bool, lo: nat, hi: nat): nat
    requires lo <= hi
    decreases hi - lo
  {
    if lo == hi then lo
    else
      var mid := (lo + hi) / 2;
      if f(mid) then Search(f, lo, mid) else Search(f, mid + 1, hi)
  }

  function LowerBound(layout: Layout, name: string): nat {
    Search((index: nat) => AtOrAfter(layout, index, name), 0, layout.count)
  }

  function LookupFile(layout: Layout, name: string): Result<Option<PackedFile>> {
    var index := LowerBound(layout, name);
    if index >= layout.count then Ok(None)
    else
      var entryName := EntryName(layout, index);
      if entryName.None? then Err(InvalidPathRange)
      else if entryName.value != name then Ok(None)
      else
        var entry := Entry(layout, index);
        if entry.None? then Err(InvalidEntry) else Ok(Some(entry.value))
  }

  predicate IsDir(layout: Result<Layout>, name: string) {
    name == "." || name == "canonical" || (
      layout.Ok? &&
      var prefix := name + "/";
      var index := LowerBound(layout.value, prefix);
      index < layout.value.count &&
      var entryName := EntryName(layout.value, index);
      entryName.Some? && prefix <= entryName.value
    )
  }

  datatype FileInfo = File(size: nat) | Dir

  function Stat(layout: Result<Layout>, name: string): Result<FileInfo> {
    if name == "." then Ok(Dir)
    else if layout.Err? then Err(layout.error)
    else
      var file := LookupFile(layout.value, name);
      if file.Err? then Err(file.error)
      else if file.value.Some? then Ok(File(file.value.value.raw))
      else if IsDir(layout, name) then Ok(Dir)
      else Err(NotExist)
  }

  /** Decompression is any function from bytes to bytes that may fail. */
  function ReadFile(layout: Result<Layout>, name: string, decode: seq<Byte> -> Option<seq<Byte>>): Result<seq<Byte>> {
    if layout.Err? then Err(layout.error)
    else
      var file := LookupFile(layout.value, name);
      if file.Err? then Err(file.error)
      else if file.value.None? then Err(NotExist)
      else
        var entry := file.value.value;
        var end := Add64(entry.offset, entry.size);
        if end < entry.offset || end > |layout.value.blob| then Err(InvalidRange)
        else
          var data := decode(layout.value.blob[entry.offset..end]);
          if data.None? then Err(DecodeFailed)
          else if |data.value| != entry.raw then Err(SizeMismatch)
          else Ok(data.value)
  }

  // ----- The pack as a sorted list of names -----

  /** `names` are the paths of the entries: every entry present, every path in range. */
  ghost predicate HasNames(layout: Layout, names: seq<string>) {
    && HasAllEntries(layout)
    && |names| == layout.count
    && forall i :: 0 <= i < |names| ==> EntryName(layout, i) == Some(names[i])
  }

  /** A pack as it is generated: every path there, and the paths strictly increasing. */
  ghost predicate IsValidPack(layout: Layout, names: seq<string>) {
    HasNames(layout, names) && StrictlySorted(names)
  }

  /** The search stops at a place that f accepts and whose predecessor it does not. */
  lemma {:induction false} SearchFindsBoundary(f: nat -> bool, lo: nat, hi: nat, n: nat)
    requires lo <= hi <= n
    requires lo > 0 ==> !f(lo - 1)
    requires hi < n ==> f(hi)
    ensures
      var r := Search(f, lo, hi);
      lo <= r <= hi && (r > 0 ==> !f(r - 1)) && (r < n ==> f(r))
    decreases hi - lo
  {
    if lo < hi {
      var mid := (lo + hi) / 2;
      if f(mid) {
        SearchFindsBoundary(f, lo, mid, n);
      } else {
        SearchFindsBoundary(f, mid + 1, hi, n);
      }
    }
  }

  ghost predicate IsBoundary(names: seq<string>, name: string, r: nat) {
    && r <= |names|
    && (forall i :: 0 <= i < r ==> Less(names[i], name))
    && (forall i :: r <= i < |names| ==> !Less(names[i], name))
  }

  lemma LowerBoundSplitsNames(layout: Layout, names: seq<string>, name: string)
    requires IsValidPack(layout, names)
    ensures IsBoundary(names, name, LowerBound(layout, name))
  {
    var f := (index: nat) => AtOrAfter(layout, index, name);
    SearchFindsBoundary(f, 0, |names|, |names|);
    var r := LowerBound(layout, name);
    assert r > 0 ==> !f(r - 1) && EntryName(layout, r - 1) == Some(names[r - 1]);
    assert r < |names| ==> f(r) && EntryName(layout, r) == Some(names[r]);
    CutIsBoundary(names, name, r);
  }

  lemma CutIsBoundary(names: seq<string>, name: string, r: nat)
    requires StrictlySorted(names) && r <= |names|
    requires r > 0 ==> Less(names[r - 1], name)
    requires r < |names| ==> !Less(names[r], name)
    ensures IsBoundary(names, name, r)
  {
    forall i | 0 <= i < r
      ensures Less(names[i], name)
    {
      if i < r - 1 {
        LessIsTransitive(names[i], names[r - 1], name);
      }
    }
    forall i | r < i < |names|
      ensures !Less(names[i], name)
    {
      if Less(names[i], name) {
        LessIsTransitive(names[r], names[i], name);
      }
    }
  }

  // ----- Prefixes in the order -----

  lemma {:induction false} PrefixComesFirst(p: string, s: string)
    requires p <= s
    ensures LessEq(p, s)
  {
    if p != [] {
      PrefixComesFirst(p[1..], s[1..]);
    }
  }

  /** Whatever lies between a prefix and a string that has it has it too. */
  lemma {:induction false} PrefixIsContiguous(p: string, x: string, y: string)
    requires LessEq(p, x) && Less(x, y) && p <= y
    ensures p <= x
  {
    if p != [] {
      if p != x {
        assert x[0] == p[0];
        assert LessEq(p[1..], x[1..]);
        PrefixIsContiguous(p[1..], x[1..], y[1..]);
      }
    }
  }

  // ----- Looking up names -----

  lemma NameAtBoundary(names: seq<string>, name: string, r: nat, i: nat)
    requires StrictlySorted(names) && IsBoundary(names, name, r) && i < |names| && names[i] == name
    ensures i == r
  {
    LessIsAsymmetric(name, name);
    if r < i {
      SortedAt(names, r, i);
      assert false;
    }
  }

  /** The lookup is the finite map from names to entries. */
  lemma LookupFindsExactlyTheNames(layout: Layout, names: seq<string>, name: string)
    requires IsValidPack(layout, names)
    ensures LookupFile(layout, name).Ok?
    ensures LookupFile(layout, name).value.Some? <==> name in names
    ensures forall i :: 0 <= i < |names| && names[i] == name ==> LookupFile(layout, name).value == Entry(layout, i)
  {
    var r := LowerBound(layout, name);
    LowerBoundSplitsNames(layout, names, name);
    LessIsAsymmetric(name, name);
    forall i | 0 <= i < |names| && names[i] == name
      ensures i == r
    {
      NameAtBoundary(names, name, r, i);
    }
    if r < |names| {
      assert EntryName(layout, r) == Some(names[r]);
      assert r * PACK_ENTRY_SIZE + PACK_ENTRY_SIZE <= |layout.entries|;
    }
  }

  /** A name is a directory exactly if it is one of the two fixed ones or some path lies below it. */
  lemma IsDirIffSomethingBelow(layout: Layout, names: seq<string>, name: string)
    requires IsValidPack(layout, names)
    ensures IsDir(Ok(layout), name) <==> name == "." || name == "canonical" || HasBelow(names, name)
  {
    var prefix := name + "/";
    var r := LowerBound(layout, prefix);
    LowerBoundSplitsNames(layout, names, prefix);
    if r < |names| {
      assert EntryName(layout, r) == Some(names[r]);
    }
    if HasBelow(names, name) {
      FirstBelowIsAtBoundary(names, prefix, r);
    }
  }

  /** Some path lies below the directory. */
  ghost predicate HasBelow(names: seq<string>, dir: string) {
    exists i :: 0 <= i < |names| && dir + "/" <= names[i]
  }

  /** If any name has the prefix, the one at the boundary has it. */
  lemma FirstBelowIsAtBoundary(names: seq<string>, prefix: string, r: nat)
    requires StrictlySorted(names) && IsBoundary(names, prefix, r)
    requires exists i :: 0 <= i < |names| && prefix <= names[i]
    ensures r < |names| && prefix <= names[r]
  {
    var i :| 0 <= i < |names| && prefix <= names[i];
    PrefixComesFirst(prefix, names[i]);
    LessIsAsymmetric(prefix, names[i]);
    assert r <= i;
    if r < i {
      LessIsTotal(prefix, names[r]);
      PrefixIsContiguous(prefix, names[r], names[i]);
    }
  }

  /** Something is there exactly if it is a file or a directory; what is both counts as a file. Only files can be read. */
  lemma MissingIffNeitherFileNorDir(
    layout: Layout, names: seq<string>, name: string, decode: seq<Byte> -> Option<seq<Byte>>)
    requires IsValidPack(layout, names)
    ensures
      var isFile, isDir := name in names, name == "." || name == "canonical" || HasBelow(names, name);
      && (Stat(Ok(layout), name) == Err(NotExist) <==> !isFile && !isDir)
      && (Stat(Ok(layout), name) == Ok(Dir) <==> isDir && (name == "." || !isFile))
      && (Stat(Ok(layout), name).Ok? || Stat(Ok(layout), name) == Err(NotExist))
      && (ReadFile(Ok(layout), name, decode) == Err(NotExist) <==> !isFile)
  {
    LookupFindsExactlyTheNames(layout, names, name);
    IsDirIffSomethingBelow(layout, names, name);
  }

  /** What Stat calls the size of a file is the length of what reading it returns. */
  lemma StatSizeIsReadLength(layout: Result<Layout>, name: string, decode: seq<Byte> -> Option<seq<Byte>>)
    requires name != "." && ReadFile(layout, name, decode).Ok?
    ensures Stat(layout, name) == Ok(File(|ReadFile(layout, name, decode).value|))
  {
  }

  /** The range test of a read admits exactly the ranges that lie inside the data block, in unbounded arithmetic. */
  lemma RangeTestIsExact(layout: Layout, names: seq<string>, index: nat, decode: seq<Byte> -> Option<seq<Byte>>)
    requires IsValidPack(layout, names) && |layout.blob| < TWO_TO_THE_64 && index < |names|
    ensures
      var e := Entry(layout, index).value;
      ReadFile(Ok(layout), names[index], decode) == Err(InvalidRange) <==> e.offset + e.size > |layout.blob|
  {
    LookupFindsExactlyTheNames(layout, names, names[index]);
  }
}
